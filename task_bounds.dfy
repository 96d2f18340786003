/** The earliest-wins bookkeeping `Task.add_event` performs on a task's
    start and end bounds (dask_md_objs.py, and its earlier copy in
    scratch/read_validate_sched.py), written once for both bounds. */
module TaskBounds {
  import opened Wrappers

  /** One update of a bound by an event's optional value: an absent value
      leaves the bound alone, a first value sets it, and later values only
      replace it when they are strictly smaller. */
  function MergeLower(cur: Option<int>, cand: Option<int>): Option<int>
  {
    match cand
    case None => cur
    case Some(c) =>
      match cur
      case None => Some(c)
      case Some(v) => if c < v then Some(c) else Some(v)
  }

  /** The merged bound is the smaller of the two when both are present,
      whichever is present otherwise, and absent only when both are; so a
      set bound never rises and never becomes absent again. */
  lemma MergeLowerIsMin(cur: Option<int>, cand: Option<int>)
    ensures cand.None? ==> MergeLower(cur, cand) == cur
    ensures MergeLower(cur, cand).None? <==> cur.None? && cand.None?
    ensures MergeLower(cur, cand).Some? ==> MergeLower(cur, cand) == cur || MergeLower(cur, cand) == cand
    ensures cur.Some? ==> MergeLower(cur, cand).Some? && MergeLower(cur, cand).value <= cur.value
    ensures cand.Some? ==> MergeLower(cur, cand).Some? && MergeLower(cur, cand).value <= cand.value
  {
  }

  /** The bound held after feeding `xs`, in order, to a bound that starts absent. */
  function Bound(xs: seq<Option<int>>): Option<int>
  {
    if xs == [] then None else MergeLower(Bound(xs[..|xs| - 1]), xs[|xs| - 1])
  }

  /** Independent definition: `r` is the least present value of `xs`, or absent
      when `xs` holds no present value. It depends only on which values occur. */
  ghost predicate IsEarliest(r: Option<int>, xs: seq<Option<int>>)
  {
    && (r.None? <==> forall x | x in xs :: x.None?)
    && (r.Some? ==> r in xs && forall x | x in xs && x.Some? :: r.value <= x.value)
  }

  lemma BoundAppend(xs: seq<Option<int>>, x: Option<int>)
    ensures Bound(xs + [x]) == MergeLower(Bound(xs), x)
  {
    assert (xs + [x])[..|xs|] == xs;
  }

  /** The running minimum computes the least present value. */
  lemma {:induction false} BoundIsEarliest(xs: seq<Option<int>>)
    ensures IsEarliest(Bound(xs), xs)
  {
    if xs != [] {
      var init, last := xs[..|xs| - 1], xs[|xs| - 1];
      assert xs == init + [last];
      BoundIsEarliest(init);
      forall x | x in xs
        ensures x in init || x == last
      {
      }
      MergeLowerIsMin(Bound(init), last);
    }
  }

  lemma EarliestUnique(a: Option<int>, b: Option<int>, xs: seq<Option<int>>)
    requires IsEarliest(a, xs) && IsEarliest(b, xs)
    ensures a == b
  {
    if a.Some? && b.Some? {
      assert a.value <= b.value && b.value <= a.value;
    }
  }

  /** The bound depends only on which values occur. */
  lemma SameMembersSameBound(xs: seq<Option<int>>, ys: seq<Option<int>>)
    requires forall x :: x in xs <==> x in ys
    ensures Bound(xs) == Bound(ys)
  {
    BoundIsEarliest(xs);
    BoundIsEarliest(ys);
    EarliestUnique(Bound(xs), Bound(ys), xs);
  }

  /** The bound does not depend on the order in which the values arrive. */
  lemma BoundOrderIndependent(xs: seq<Option<int>>, ys: seq<Option<int>>)
    requires multiset(xs) == multiset(ys)
    ensures Bound(xs) == Bound(ys)
  {
    forall x
      ensures x in xs <==> x in ys
    {
      assert x in xs <==> x in multiset(xs);
      assert x in ys <==> x in multiset(ys);
    }
    SameMembersSameBound(xs, ys);
  }

  /** Feeding further values never raises a set bound and never clears it. */
  lemma {:induction false} BoundNeverRises(xs: seq<Option<int>>, ys: seq<Option<int>>)
    requires Bound(xs).Some?
    ensures Bound(xs + ys).Some? && Bound(xs + ys).value <= Bound(xs).value
  {
    if ys == [] {
      assert xs + ys == xs;
    } else {
      var init, last := ys[..|ys| - 1], ys[|ys| - 1];
      BoundNeverRises(xs, init);
      assert xs + ys == (xs + init) + [last];
      BoundAppend(xs + init, last);
      MergeLowerIsMin(Bound(xs + init), last);
    }
  }
}
