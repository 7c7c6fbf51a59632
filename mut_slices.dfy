/**
  A model of `MutSlice<T>`: a wrapper that takes over an owned vector and hands
  out several simultaneously-live mutable sub-slices of it, one per requested
  `(start, end)` pair, after checking that the pairs are in bounds, ascending,
  non-overlapping and non-empty.

  A mutable sub-slice is modelled as a `View`: the index range it covers in the
  wrapper's array. Reading or writing through a view reads or writes the array
  at `offset + j`, so the aliasing that the Rust code establishes with raw
  pointers becomes plain index arithmetic whose safety is proved here.
 */
module MutSlices {

  /** The three reasons `slices_mut` aborts, in the order it checks them. */
  datatype SliceError =
    | OutOfRange   // the pair's end is past the vector's length
    | Overlap      // the pair starts before the previous accepted pair's end
    | Degenerate   // the pair is empty or inverted (start >= end)

  datatype Option<T> = None | Some(value: T)

  /** `slices_mut` either aborts with one of the errors or yields all views. */
  datatype Result<T> = Ok(value: T) | Err(error: SliceError)

  /** A requested `(start, end)` pair; the Rust code takes `usize`s. */
  type Range = (nat, nat)

  /** A mutable sub-slice: `length` elements of the buffer from `offset` on. */
  datatype View = View(offset: nat, length: nat) {
    function End(): (e: nat) { offset + length }
  }

  /** Buffer index `p` is reachable through view `w`. */
  predicate InView(w: View, p: int) {
    w.offset <= p < w.End()
  }

  /** The two index ranges do not meet: one is empty or ends before the other starts. */
  predicate Disjoint(a: View, b: View) {
    a.length == 0 || b.length == 0 || a.End() <= b.offset || b.End() <= a.offset
  }

  /** Disjoint views are exactly those through which no buffer index is reachable twice. */
  lemma DisjointIff(a: View, b: View)
    ensures Disjoint(a, b) <==> forall p :: InView(a, p) ==> !InView(b, p)
  {
    if !Disjoint(a, b) {
      var p := if a.offset < b.offset then b.offset else a.offset;
      assert InView(a, p) && InView(b, p);
    }
  }

  /** What a view shows of the buffer contents `s`. */
  function Segment<T>(s: seq<T>, w: View): (r: seq<T>)
    requires w.End() <= |s|
  {
    s[w.offset..w.End()]
  }

  // ---------------------------------------------------------------------------
  // The validation performed by slices_mut
  // ---------------------------------------------------------------------------

  /**
    The checks run on one pair against the buffer length `len` and the cursor
    (the end of the previously accepted pair), in the order `slices_mut` runs them: bounds
    first, then overlap, then emptiness. `None` means the pair is accepted.
   */
  function CheckRange(len: nat, cursor: nat, r: Range): (e: Option<SliceError>) {
    if len < r.1 then Some(OutOfRange)
    else if r.0 < cursor then Some(Overlap)
    else if r.0 >= r.1 then Some(Degenerate)
    else None
  }

  /** The cursor when pair `k` is checked: 0 at first, then the previous pair's end. */
  function CursorBefore(ranges: seq<Range>, k: nat): (c: nat)
    requires k <= |ranges|
  {
    if k == 0 then 0 else ranges[k - 1].1
  }

  /** Pair `k` passes its checks, given that the pairs before it were accepted. */
  predicate PairAccepted(len: nat, ranges: seq<Range>, k: nat)
    requires k < |ranges|
  {
    CheckRange(len, CursorBefore(ranges, k), ranges[k]) == None
  }

  /** The first `n` pairs all pass their checks. */
  predicate AcceptedUpTo(len: nat, ranges: seq<Range>, n: nat)
    requires n <= |ranges|
  {
    forall k :: 0 <= k < n ==> PairAccepted(len, ranges, k)
  }

  /** Every pair passes: the request that `slices_mut` accepts. */
  predicate Admissible(len: nat, ranges: seq<Range>) {
    AcceptedUpTo(len, ranges, |ranges|)
  }

  /** Pair `k` is the first one rejected, and it is rejected with `e`. */
  predicate FailsFirstAt(len: nat, ranges: seq<Range>, k: nat, e: SliceError)
    requires k < |ranges|
  {
    AcceptedUpTo(len, ranges, k) && !PairAccepted(len, ranges, k) &&
    CheckRange(len, CursorBefore(ranges, k), ranges[k]) == Some(e)
  }

  /** The i-th view covers exactly the i-th requested pair, for every i. */
  predicate ViewsMatch(views: seq<View>, ranges: seq<Range>) {
    |views| == |ranges| &&
    forall i :: 0 <= i < |views| ==> views[i].offset == ranges[i].0 && views[i].End() == ranges[i].1
  }

  /** Every view is non-empty and lies inside `[0, len)`. */
  predicate WithinBuffer(views: seq<View>, len: nat) {
    forall i :: 0 <= i < |views| ==> 0 < views[i].length && views[i].End() <= len
  }

  /** Each view ends at or before the next one starts; so starts strictly increase. */
  predicate Ascending(views: seq<View>) {
    forall i, j :: 0 <= i < j < |views| ==> views[i].End() <= views[j].offset
  }

  /** No two distinct views share a buffer index. */
  predicate PairwiseDisjoint(views: seq<View>) {
    forall i, j :: 0 <= i < |views| && 0 <= j < |views| && i != j ==> Disjoint(views[i], views[j])
  }

  /** Every pair is non-empty and in bounds, and all pairs are ascending and non-overlapping. */
  predicate WellFormedRequest(len: nat, ranges: seq<Range>) {
    (forall i :: 0 <= i < |ranges| ==> ranges[i].0 < ranges[i].1 <= len) &&
    (forall i, j :: 0 <= i < j < |ranges| ==> ranges[i].1 <= ranges[j].0)
  }

  /** In an accepted request, every pair ends at or before any later pair starts. */
  lemma {:induction false} ChainOrdered(len: nat, ranges: seq<Range>, i: nat, j: nat)
    requires Admissible(len, ranges)
    requires i < j < |ranges|
    ensures ranges[i].1 <= ranges[j].0
  {
    assert PairAccepted(len, ranges, j);
    if i + 1 < j {
      ChainOrdered(len, ranges, i, j - 1);
      assert PairAccepted(len, ranges, j - 1);
    }
  }

  /**
    The sequential, cursor-based check accepts exactly the well-formed
    requests: the order of the checks decides which error is reported, never
    whether the request is accepted.
   */
  lemma AdmissibleIff(len: nat, ranges: seq<Range>)
    ensures Admissible(len, ranges) <==> WellFormedRequest(len, ranges)
  {
    if Admissible(len, ranges) {
      forall k | 0 <= k < |ranges|
        ensures ranges[k].0 < ranges[k].1 <= len
      {
        assert PairAccepted(len, ranges, k);
      }
      forall i, j | 0 <= i < j < |ranges|
        ensures ranges[i].1 <= ranges[j].0
      {
        ChainOrdered(len, ranges, i, j);
      }
    }
    if WellFormedRequest(len, ranges) {
      forall k | 0 <= k < |ranges|
        ensures PairAccepted(len, ranges, k)
      {
        if 0 < k {
          assert ranges[k - 1].1 <= ranges[k].0;
        }
      }
    }
  }

  /** At most one pair is the first rejected one, so the reported error is determined. */
  lemma FirstFailureUnique(len: nat, ranges: seq<Range>, k: nat, e: SliceError, k': nat, e': SliceError)
    requires k < |ranges| && k' < |ranges|
    requires FailsFirstAt(len, ranges, k, e) && FailsFirstAt(len, ranges, k', e')
    ensures k == k' && e == e'
  {
  }

  /** A request is either accepted or has a first rejected pair, never both. */
  lemma AcceptedOrFirstFailure(len: nat, ranges: seq<Range>)
    ensures Admissible(len, ranges) <==> !exists k, e :: 0 <= k < |ranges| && FailsFirstAt(len, ranges, k, e)
  {
    if Admissible(len, ranges) {
      forall k, e | 0 <= k < |ranges|
        ensures !FailsFirstAt(len, ranges, k, e)
      {
        assert PairAccepted(len, ranges, k);
      }
    } else {
      var bad :| 0 <= bad < |ranges| && !PairAccepted(len, ranges, bad);
      var k := 0;
      while PairAccepted(len, ranges, k)
        invariant 0 <= k <= bad
        invariant AcceptedUpTo(len, ranges, k)
        decreases bad - k
      {
        k := k + 1;
      }
      assert FailsFirstAt(len, ranges, k, CheckRange(len, CursorBefore(ranges, k), ranges[k]).value);
    }
  }

  /**
    Whatever result satisfies the contract of `slices_mut` is fixed by the
    first rejected pair: it is exactly that pair's error.
   */
  lemma ReportedError(len: nat, ranges: seq<Range>, k: nat, e: SliceError, r: Result<seq<View>>)
    requires k < |ranges| && FailsFirstAt(len, ranges, k, e)
    requires r.Ok? <==> Admissible(len, ranges)
    requires r.Err? ==> exists k' :: 0 <= k' < |ranges| && FailsFirstAt(len, ranges, k', r.error)
    ensures r == Err(e)
  {
    assert !PairAccepted(len, ranges, k);
    var k' :| 0 <= k' < |ranges| && FailsFirstAt(len, ranges, k', r.error);
    FirstFailureUnique(len, ranges, k, e, k', r.error);
  }

  /** The views built from an accepted request are in bounds and ascending. */
  lemma AcceptedViewsPlaced(len: nat, ranges: seq<Range>, views: seq<View>)
    requires Admissible(len, ranges) && ViewsMatch(views, ranges)
    ensures WithinBuffer(views, len) && Ascending(views)
  {
    AdmissibleIff(len, ranges);
  }

  /** Ascending views never share an index. */
  lemma AscendingDisjoint(views: seq<View>)
    requires Ascending(views)
    ensures PairwiseDisjoint(views)
  {
    forall i, j | 0 <= i < |views| && 0 <= j < |views| && i != j
      ensures Disjoint(views[i], views[j])
    {
      if i < j {
        assert views[i].End() <= views[j].offset;
      } else {
        assert views[j].End() <= views[i].offset;
      }
    }
  }

  // ---------------------------------------------------------------------------
  // Writing through the views
  // ---------------------------------------------------------------------------

  /**
    A write to element `j` of view `i` lands at buffer index `offset + j`: that
    view shows the new element at `j`, and every other view of a disjoint
    batch shows exactly what it showed before.
   */
  lemma WriteThroughView<T>(s: seq<T>, views: seq<View>, i: nat, j: nat, x: T)
    requires WithinBuffer(views, |s|) && PairwiseDisjoint(views)
    requires i < |views| && j < views[i].length
    ensures views[i].offset + j < |s|
    ensures Segment(s[views[i].offset + j := x], views[i]) == Segment(s, views[i])[j := x]
    ensures forall k :: 0 <= k < |views| && k != i ==>
              Segment(s[views[i].offset + j := x], views[k]) == Segment(s, views[k])
  {
    var p := views[i].offset + j;
    var t := s[p := x];
    assert InView(views[i], p);
    forall k | 0 <= k < |views| && k != i
      ensures Segment(t, views[k]) == Segment(s, views[k])
    {
      assert Disjoint(views[i], views[k]);
      assert !InView(views[k], p);
    }
  }

  /** The buffer after the contents of two equal-length disjoint views are exchanged. */
  function Swapped<T>(s: seq<T>, a: View, b: View): (r: seq<T>)
    requires a.End() <= |s| && b.End() <= |s| && a.length == b.length
  {
    seq(|s|, p requires 0 <= p < |s| =>
      if InView(a, p) then s[p - a.offset + b.offset]
      else if InView(b, p) then s[p - b.offset + a.offset]
      else s[p])
  }

  /**
    Exchanging two disjoint views puts each one's old contents in the other
    and leaves every index outside both untouched.
   */
  lemma SwapExchanges<T>(s: seq<T>, a: View, b: View)
    requires a.End() <= |s| && b.End() <= |s| && a.length == b.length && Disjoint(a, b)
    ensures |Swapped(s, a, b)| == |s|
    ensures Segment(Swapped(s, a, b), a) == Segment(s, b)
    ensures Segment(Swapped(s, a, b), b) == Segment(s, a)
    ensures forall p :: 0 <= p < |s| && !InView(a, p) && !InView(b, p) ==> Swapped(s, a, b)[p] == s[p]
  {
    var t := Swapped(s, a, b);
    forall j | 0 <= j < a.length
      ensures Segment(t, a)[j] == Segment(s, b)[j] && Segment(t, b)[j] == Segment(s, a)[j]
    {
      assert InView(a, a.offset + j) && InView(b, b.offset + j);
      assert !InView(b, a.offset + j) && !InView(a, b.offset + j);
    }
    assert Segment(t, a) == Segment(s, b);
    assert Segment(t, b) == Segment(s, a);
  }

  /** A view disjoint from both exchanged views shows the same contents afterwards. */
  lemma SwapKeepsOtherView<T>(s: seq<T>, a: View, b: View, c: View)
    requires a.End() <= |s| && b.End() <= |s| && c.End() <= |s| && a.length == b.length
    requires Disjoint(a, c) && Disjoint(b, c)
    ensures Segment(Swapped(s, a, b), c) == Segment(s, c)
  {
    var t := Swapped(s, a, b);
    forall j | 0 <= j < c.length
      ensures Segment(t, c)[j] == Segment(s, c)[j]
    {
      assert !InView(a, c.offset + j) && !InView(b, c.offset + j);
    }
  }

  /** Exchanging the same two disjoint views twice restores the buffer. */
  lemma SwapInvolution<T>(s: seq<T>, a: View, b: View)
    requires a.End() <= |s| && b.End() <= |s| && a.length == b.length && Disjoint(a, b)
    ensures Swapped(Swapped(s, a, b), a, b) == s
  {
  }

  // ---------------------------------------------------------------------------
  // The wrapper
  // ---------------------------------------------------------------------------

  /** Owns the vector it was given; `vec` is the very array the caller handed over. */
  class MutSlice<T> {
    const vec: array<T>

    /** `vec_into`: takes over the caller's array itself, without copying it. */
    constructor VecInto(v: array<T>)
      ensures vec == v
    {
      vec := v;
    }

    /** `into_vec`: hands back the array it owns; its contents are untouched. */
    method IntoVec() returns (v: array<T>)
      ensures v == vec
    {
      v := vec;
    }

    /**
      `slices_mut`: checks every pair in order against the running cursor and
      yields one view per pair, or aborts on the first rejected pair with no
      views at all. The buffer is only read (no `modifies` clause).
     */
    method SlicesMut(ranges: seq<Range>) returns (r: Result<seq<View>>)
      ensures r.Ok? <==> Admissible(vec.Length, ranges)
      ensures r.Ok? ==> ViewsMatch(r.value, ranges)
      ensures r.Ok? ==> WithinBuffer(r.value, vec.Length) && Ascending(r.value) && PairwiseDisjoint(r.value)
      ensures r.Err? ==> exists k :: 0 <= k < |ranges| && FailsFirstAt(vec.Length, ranges, k, r.error)
    {
      var views: seq<View> := [];
      var rangeEnd: nat := 0;
      for i := 0 to |ranges|
        invariant AcceptedUpTo(vec.Length, ranges, i)
        invariant rangeEnd == CursorBefore(ranges, i)
        invariant ViewsMatch(views, ranges[..i])
      {
        var (start, end) := ranges[i];
        if vec.Length < end {
          assert FailsFirstAt(vec.Length, ranges, i, OutOfRange);
          return Err(OutOfRange);
        } else if start < rangeEnd {
          assert FailsFirstAt(vec.Length, ranges, i, Overlap);
          return Err(Overlap);
        } else if start >= end {
          assert FailsFirstAt(vec.Length, ranges, i, Degenerate);
          return Err(Degenerate);
        }
        views := views + [View(start, end - start)];
        rangeEnd := end;
      }
      assert ranges[..|ranges|] == ranges;
      AcceptedViewsPlaced(vec.Length, ranges, views);
      AscendingDisjoint(views);
      r := Ok(views);
    }

    /** What view `w` currently shows. */
    function ViewContents(w: View): (c: seq<T>)
      requires w.End() <= vec.Length
      reads vec
      ensures |c| == w.length
      ensures forall j :: 0 <= j < w.length ==> c[j] == vec[w.offset + j]
      ensures c == Segment(vec[..], w)
    {
      vec[w.offset..w.End()]
    }

    /** `views[i][j] = x`: the write lands at buffer index `offset + j` and nowhere else. */
    method WriteView(views: seq<View>, i: nat, j: nat, x: T)
      requires WithinBuffer(views, vec.Length)
      requires i < |views| && j < views[i].length
      modifies vec
      ensures vec[..] == old(vec[..])[views[i].offset + j := x]
    {
      vec[views[i].offset + j] := x;
    }

    /** `a.swap_with_slice(b)` for two equal-length disjoint views, element by element. */
    method SwapViews(a: View, b: View)
      requires a.End() <= vec.Length && b.End() <= vec.Length
      requires a.length == b.length && Disjoint(a, b)
      modifies vec
      ensures vec[..] == Swapped(old(vec[..]), a, b)
    {
      for t := 0 to a.length
        invariant forall p :: 0 <= p < vec.Length ==>
          vec[p] == (if a.offset <= p < a.offset + t then old(vec[p - a.offset + b.offset])
                     else if b.offset <= p < b.offset + t then old(vec[p - b.offset + a.offset])
                     else old(vec[p]))
      {
        assert InView(a, a.offset + t) && !InView(b, a.offset + t);
        assert InView(b, b.offset + t) && !InView(a, b.offset + t);
        vec[a.offset + t], vec[b.offset + t] := vec[b.offset + t], vec[a.offset + t];
      }
    }

    /** Derived `Clone`: a new wrapper over a new array with the same elements. */
    method Clone() returns (c: MutSlice<T>)
      ensures fresh(c) && fresh(c.vec)
      ensures c.vec[..] == vec[..]
    {
      var v := vec;
      var copy := new T[v.Length](p requires 0 <= p < v.Length reads v => v[p]);
      c := new MutSlice.VecInto(copy);
    }
  }

  /** Derived `PartialEq`: equal lengths and equal elements, position by position. */
  method Equal<T(==)>(a: MutSlice<T>, b: MutSlice<T>) returns (eq: bool)
    ensures eq <==> a.vec[..] == b.vec[..]
  {
    if a.vec.Length != b.vec.Length {
      assert |a.vec[..]| != |b.vec[..]|;
      return false;
    }
    for p := 0 to a.vec.Length
      invariant forall q :: 0 <= q < p ==> a.vec[q] == b.vec[q]
    {
      if a.vec[p] != b.vec[p] {
        assert a.vec[..][p] != b.vec[..][p];
        return false;
      }
    }
    assert a.vec[..] == b.vec[..];
    eq := true;
  }
}
