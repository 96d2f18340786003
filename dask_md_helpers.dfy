/** Timestamp normalisation for one raw trace row (dask_md_helpers.py).

    A raw numeric cell is either the NaN sentinel pandas uses for an empty
    field or an epoch value. Epoch values are whole seconds here, and the
    conversion to a calendar timestamp (`datetime.fromtimestamp`) is the
    identity on them. */
module DaskMdHelpers {
  import opened Wrappers

  /** A timestamp, as epoch seconds. */
  type Timestamp = int

  /** One numeric cell of a trace table. */
  datatype Cell = NaN | Num(value: int)

  /** The three time columns of a row. */
  datatype TimeRow = TimeRow(time: Cell, begins: Cell, ends: Cell)

  /** The triple `generate_times` returns: a mandatory event time and two optional bounds. */
  datatype EventTimes = EventTimes(event: Timestamp, begins: Option<Timestamp>, ends: Option<Timestamp>)

  /** `datetime.fromtimestamp` refuses NaN, so a NaN event time is an error. */
  datatype TimeError = NaNEventTime

  /** The inner `create_poss_nan_time`: NaN becomes `None`, anything else its timestamp. */
  function CreatePossNanTime(c: Cell): (r: Option<Timestamp>)
    ensures r.None? <==> c.NaN?
    ensures c.Num? ==> r == Some(c.value)
  {
    match c
    case NaN => None
    case Num(v) => Some(v)
  }

  /** The inverse direction: how an optional timestamp is written back as a cell. */
  function ToCell(t: Option<Timestamp>): (c: Cell)
    ensures c.NaN? <==> t.None?
  {
    match t
    case None => NaN
    case Some(v) => Num(v)
  }

  lemma CreatePossNanTimeRoundTrip(c: Cell, t: Option<Timestamp>)
    ensures ToCell(CreatePossNanTime(c)) == c
    ensures CreatePossNanTime(ToCell(t)) == t
  {
  }

  /** `generate_times`: the event time comes from `time` alone, the optional
      begin and end from `begins` and `ends` alone. The debug flag only
      decides whether a trace line is printed. */
  function GenerateTimes(row: TimeRow, debug: bool): (r: Result<EventTimes, TimeError>)
    ensures r.Ok? <==> row.time.Num?
    ensures r.Err? ==> r.error == NaNEventTime
    ensures r.Ok? ==> r.value.event == row.time.value
    ensures r.Ok? ==> (r.value.begins.None? <==> row.begins.NaN?)
    ensures r.Ok? ==> (r.value.ends.None? <==> row.ends.NaN?)
    ensures r.Ok? && row.begins.Num? ==> r.value.begins == Some(row.begins.value)
    ensures r.Ok? && row.ends.Num? ==> r.value.ends == Some(row.ends.value)
  {
    match row.time
    case NaN => Err(NaNEventTime)
    case Num(t) => Ok(EventTimes(t, CreatePossNanTime(row.begins), CreatePossNanTime(row.ends)))
  }

  /** Each component of the result depends only on its own input column, and
      the debug flag changes nothing. */
  lemma GenerateTimesComponentwise(row: TimeRow, row': TimeRow, debug: bool, debug': bool)
    ensures row.time == row'.time ==>
      (GenerateTimes(row, debug).Ok? <==> GenerateTimes(row', debug').Ok?)
    ensures GenerateTimes(row, debug).Ok? && GenerateTimes(row', debug').Ok? ==>
      && (row.time == row'.time ==> GenerateTimes(row, debug).value.event == GenerateTimes(row', debug').value.event)
      && (row.begins == row'.begins ==> GenerateTimes(row, debug).value.begins == GenerateTimes(row', debug').value.begins)
      && (row.ends == row'.ends ==> GenerateTimes(row, debug).value.ends == GenerateTimes(row', debug').value.ends)
    ensures GenerateTimes(row, true) == GenerateTimes(row, false)
  {
  }
}
