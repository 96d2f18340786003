/** The validation script: the column check that every present `begins`
    value precedes its `ends` value, and the loop that feeds every row of
    the scheduler log to one task handler. */
module ReadValidateSched {
  import opened Wrappers
  import opened DaskMdHelpers
  import opened DaskMdObjs

  /** Why `begins_lt_ends` rejects a pair of columns. */
  datatype ValidationError =
    | NaNMismatch        // the two columns are not NaN at the same rows
    | BeginNotBeforeEnd  // some row has begins >= ends

  // ---------------------------------------------------------------------
  // Column operations (the numpy calls of the check)
  // ---------------------------------------------------------------------

  /** Elementwise NaN test of a column. */
  function NaNMask(col: seq<Cell>): (m: seq<bool>)
    ensures |m| == |col|
    ensures forall i | 0 <= i < |col| :: m[i] <==> col[i].NaN?
  {
    seq(|col|, i requires 0 <= i < |col| => col[i].NaN?)
  }

  /** Number of `true` entries of a mask. */
  function CountTrue(m: seq<bool>): nat
  {
    if m == [] then 0 else CountTrue(m[..|m| - 1]) + (if m[|m| - 1] then 1 else 0)
  }

  /** The values of the rows that are not NaN, in row order. */
  function Present(col: seq<Cell>): seq<int>
  {
    if col == [] then []
    else
      var init := Present(col[..|col| - 1]);
      match col[|col| - 1]
      case NaN => init
      case Num(v) => init + [v]
  }

  /** Elementwise `begins - ends`; NaN wherever either side is NaN. */
  function Subtract(b: seq<Cell>, e: seq<Cell>): (d: seq<Cell>)
    requires |b| == |e|
    ensures |d| == |b|
    ensures forall i | 0 <= i < |b| ::
              d[i] == if b[i].Num? && e[i].Num? then Num(b[i].value - e[i].value) else NaN
  {
    seq(|b|, i requires 0 <= i < |b| =>
      if b[i].Num? && e[i].Num? then Num(b[i].value - e[i].value) else NaN)
  }

  /** Elementwise `d >= 0`; a NaN entry compares false. */
  function AtLeastZero(d: seq<Cell>): (m: seq<bool>)
    ensures |m| == |d|
    ensures forall i | 0 <= i < |d| :: m[i] <==> d[i].Num? && d[i].value >= 0
  {
    seq(|d|, i requires 0 <= i < |d| => d[i].Num? && d[i].value >= 0)
  }

  // ---------------------------------------------------------------------
  // What the check accepts, row by row
  // ---------------------------------------------------------------------

  /** The columns are NaN at exactly the same rows (and so have the same length). */
  ghost predicate MasksAgree(b: seq<Cell>, e: seq<Cell>)
  {
    |b| == |e| && forall i | 0 <= i < |b| :: b[i].NaN? <==> e[i].NaN?
  }

  /** Every row is either NaN in both columns or has begins strictly before ends. */
  ghost predicate BeginsBeforeEnds(b: seq<Cell>, e: seq<Cell>)
  {
    MasksAgree(b, e) && forall i | 0 <= i < |b| :: b[i].Num? ==> b[i].value < e[i].value
  }

  lemma {:induction false} CountTrueZero(m: seq<bool>)
    ensures CountTrue(m) == 0 <==> forall i | 0 <= i < |m| :: !m[i]
  {
    if m != [] {
      CountTrueZero(m[..|m| - 1]);
      assert forall i | 0 <= i < |m| - 1 :: m[..|m| - 1][i] == m[i];
    }
  }

  /** The NaN rows and the present values together account for every row,
      so the script's second consistency check can never fail. */
  lemma {:induction false} NaNsAndValuesCoverColumn(col: seq<Cell>)
    ensures CountTrue(NaNMask(col)) + |Present(col)| == |col|
  {
    if col != [] {
      NaNsAndValuesCoverColumn(col[..|col| - 1]);
      assert NaNMask(col)[..|col| - 1] == NaNMask(col[..|col| - 1]);
    }
  }

  /** The ordering test of the check: no row is counted as begins-after-ends
      exactly when every row with both values present has begins strictly
      before ends. A row with a NaN on either side is never counted. */
  lemma OrderingCountZeroIff(b: seq<Cell>, e: seq<Cell>)
    requires |b| == |e|
    ensures CountTrue(AtLeastZero(Subtract(b, e))) == 0 <==>
              forall i | 0 <= i < |b| :: b[i].Num? && e[i].Num? ==> b[i].value < e[i].value
  {
    CountTrueZero(AtLeastZero(Subtract(b, e)));
  }

  /** `begins_lt_ends`: raises (here, fails) when the NaN masks differ or
      when some present begins value is not strictly before its end. */
  method BeginsLtEnds(begins: seq<Cell>, ends: seq<Cell>, debug: bool) returns (r: Outcome<ValidationError>)
    ensures r.Pass? <==> BeginsBeforeEnds(begins, ends)
    ensures !MasksAgree(begins, ends) <==> r == Fail(NaNMismatch)
    ensures r == Fail(BeginNotBeforeEnd) <==>
              MasksAgree(begins, ends) && !BeginsBeforeEnds(begins, ends)
  {
    var beginNaNs := NaNMask(begins);
    var endNaNs := NaNMask(ends);
    if beginNaNs != endNaNs {
      return Fail(NaNMismatch);
    }
    assert |begins| == |ends|;
    var nNaN := CountTrue(beginNaNs);
    var beginVals := Present(begins);
    // The script fails here when the counts do not add up; they always do.
    NaNsAndValuesCoverColumn(begins);
    assert |begins| == nNaN + |beginVals|;
    var diff := Subtract(begins, ends);
    var beginAfterEnd := AtLeastZero(diff);
    var nBeginAfterEnd := CountTrue(beginAfterEnd);
    OrderingCountZeroIff(begins, ends);
    if nBeginAfterEnd > 0 {
      return Fail(BeginNotBeforeEnd);
    }
    return Pass;
  }

  // ---------------------------------------------------------------------
  // Feeding every row to the handler
  // ---------------------------------------------------------------------

  /** Every row converts to a scheduler event. */
  predicate AllParse(rows: seq<SchedulerRow>)
  {
    forall i | 0 <= i < |rows| :: NewSchedulerEvent(rows[i]).Ok?
  }

  /** The events converted from rows that all convert. */
  function Parsed(rows: seq<SchedulerRow>): (es: seq<SchedulerEvent>)
    requires AllParse(rows)
    ensures |es| == |rows|
    ensures forall i | 0 <= i < |rows| :: NewSchedulerEvent(rows[i]) == Ok(es[i])
  {
    seq(|rows|, i requires 0 <= i < |rows| => NewSchedulerEvent(rows[i]).value)
  }

  lemma ParsedExtend(rows: seq<SchedulerRow>, i: nat)
    requires i < |rows| && AllParse(rows[..i]) && NewSchedulerEvent(rows[i]).Ok?
    ensures AllParse(rows[..i + 1])
    ensures Parsed(rows[..i + 1]) == Parsed(rows[..i]) + [NewSchedulerEvent(rows[i]).value]
  {
    assert forall j | 0 <= j < i :: rows[..i + 1][j] == rows[..i][j];
  }

  /** The script's main loop: builds an event from each row in turn and adds
      it to `th`; the first row that cannot be converted stops the loop
      with its error, leaving the handler as the earlier rows made it. */
  method IngestRows(th: TaskHandler, rows: seq<SchedulerRow>) returns (r: Outcome<EventError>)
    requires th.Valid()
    modifies th, th.Repr
    ensures th.Valid() && old(th.Repr) <= th.Repr && fresh(th.Repr - old(th.Repr))
    ensures r.Pass? <==> AllParse(rows)
    ensures r.Pass? ==> th.View() == Ingest(old(th.View()), Parsed(rows))
    ensures r.Fail? ==>
              exists n | 0 <= n < |rows| ::
                && AllParse(rows[..n])
                && NewSchedulerEvent(rows[n]) == Err(r.error)
                && th.View() == Ingest(old(th.View()), Parsed(rows[..n]))
  {
    var i := 0;
    while i < |rows|
      invariant 0 <= i <= |rows|
      invariant th.Valid() && old(th.Repr) <= th.Repr && fresh(th.Repr - old(th.Repr))
      invariant AllParse(rows[..i])
      invariant th.View() == Ingest(old(th.View()), Parsed(rows[..i]))
    {
      var ev := NewSchedulerEvent(rows[i]);
      if ev.Err? {
        assert !AllParse(rows) by {
          assert !NewSchedulerEvent(rows[i]).Ok?;
        }
        r := Fail(ev.error);
        assert 0 <= i < |rows| && NewSchedulerEvent(rows[i]) == Err(r.error);
        return;
      }
      th.AddEvent(ev.value);
      ParsedExtend(rows, i);
      IngestAppend(old(th.View()), Parsed(rows[..i]), ev.value);
      i := i + 1;
    }
    assert rows[..i] == rows;
    return Pass;
  }
}
