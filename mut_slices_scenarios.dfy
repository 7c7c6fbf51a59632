/**
  The behaviour the crate's tests and documentation examples exercise, stated
  as contracts of client methods that use only the contracts of `MutSlice`.
 */
module MutSlicesScenarios {
  import opened MutSlices

  /** `into_vec(vec_into(v))` is `v` itself, with the same elements in order. */
  method RoundTrip<T>(v: array<T>) returns (w: array<T>)
    ensures w == v && w.Length == v.Length && w[..] == v[..]
  {
    var m := new MutSlice.VecInto(v);
    w := m.IntoVec();
  }

  /** An empty list of pairs is accepted and yields no views. */
  method EmptyRequest<T>(m: MutSlice<T>) returns (r: Result<seq<View>>)
    ensures r == Ok([])
  {
    r := m.SlicesMut([]);
  }

  /** The single pair `(0, len)` yields one view showing the whole buffer; an empty buffer rejects it. */
  method WholeBuffer<T>(m: MutSlice<T>) returns (r: Result<seq<T>>)
    ensures m.vec.Length == 0 ==> r == Err(Degenerate)
    ensures 0 < m.vec.Length ==> r == Ok(m.vec[..])
  {
    var ranges := [(0, m.vec.Length)];
    var views := m.SlicesMut(ranges);
    if m.vec.Length == 0 {
      assert FailsFirstAt(0, ranges, 0, Degenerate);
      ReportedError(0, ranges, 0, Degenerate, views);
    }
    match views
    case Err(e) =>
      r := Err(e);
    case Ok(vs) =>
      assert vs[0] == View(0, m.vec.Length);
      var whole := m.ViewContents(vs[0]);
      assert whole == m.vec[..];
      r := Ok(whole);
  }

  /**
    The pairs `(0, a), (a, b), (b, len)` cut the buffer into three consecutive
    non-empty parts; they are always accepted and yield exactly those views.
   */
  method CutInThree<T>(m: MutSlice<T>, a: nat, b: nat) returns (views: seq<View>)
    requires 0 < a < b < m.vec.Length
    ensures views == [View(0, a), View(a, b - a), View(b, m.vec.Length - b)]
  {
    var ranges := [(0, a), (a, b), (b, m.vec.Length)];
    assert PairAccepted(m.vec.Length, ranges, 0);
    assert PairAccepted(m.vec.Length, ranges, 1);
    assert PairAccepted(m.vec.Length, ranges, 2);
    var r := m.SlicesMut(ranges);
    views := r.value;
    assert views[0] == View(0, a) && views[1] == View(a, b - a) && views[2] == View(b, m.vec.Length - b);
  }

  /** The pairs `(0,4), (7,7), (6,12)` over twelve elements: the empty second pair aborts. */
  method RejectsEmptyRange() returns (r: Result<seq<View>>)
    ensures r == Err(Degenerate)
  {
    var vec := new int[] [1, 2, 3, 4, 5, 6, 7, 8, 9, 10, 11, 12];
    var m := new MutSlice.VecInto(vec);
    var ranges := [(0, 4), (7, 7), (6, 12)];
    r := m.SlicesMut(ranges);
    assert PairAccepted(12, ranges, 0);
    assert FailsFirstAt(12, ranges, 1, Degenerate);
    ReportedError(12, ranges, 1, Degenerate, r);
  }

  /** The pairs `(0,4), (8,7), (6,12)` over twelve elements: the inverted second pair aborts. */
  method RejectsInvertedRange() returns (r: Result<seq<View>>)
    ensures r == Err(Degenerate)
  {
    var vec := new int[] [1, 2, 3, 4, 5, 6, 7, 8, 9, 10, 11, 12];
    var m := new MutSlice.VecInto(vec);
    var ranges := [(0, 4), (8, 7), (6, 12)];
    r := m.SlicesMut(ranges);
    assert PairAccepted(12, ranges, 0);
    assert FailsFirstAt(12, ranges, 1, Degenerate);
    ReportedError(12, ranges, 1, Degenerate, r);
  }

  /** The pairs `(0,4), (4,7), (6,12)` over twelve elements: the third starts before 7. */
  method RejectsOverlap() returns (r: Result<seq<View>>)
    ensures r == Err(Overlap)
  {
    var vec := new int[] [1, 2, 3, 4, 5, 6, 7, 8, 9, 10, 11, 12];
    var m := new MutSlice.VecInto(vec);
    var ranges := [(0, 4), (4, 7), (6, 12)];
    r := m.SlicesMut(ranges);
    assert PairAccepted(12, ranges, 0) && PairAccepted(12, ranges, 1);
    assert FailsFirstAt(12, ranges, 2, Overlap);
    ReportedError(12, ranges, 2, Overlap, r);
  }

  /** The pairs `(0,4), (4,7), (7,17)` over twelve elements: the third ends past 12. */
  method RejectsOutOfRange() returns (r: Result<seq<View>>)
    ensures r == Err(OutOfRange)
  {
    var vec := new int[] [1, 2, 3, 4, 5, 6, 7, 8, 9, 10, 11, 12];
    var m := new MutSlice.VecInto(vec);
    var ranges := [(0, 4), (4, 7), (7, 17)];
    r := m.SlicesMut(ranges);
    assert PairAccepted(12, ranges, 0) && PairAccepted(12, ranges, 1);
    assert FailsFirstAt(12, ranges, 2, OutOfRange);
    ReportedError(12, ranges, 2, OutOfRange, r);
  }

  /**
    The bounds check runs first: `(2, 20)` after `(0, 4)` both overlaps and
    ends past twelve, and is reported as out of range.
   */
  method BoundsCheckedBeforeOverlap() returns (r: Result<seq<View>>)
    ensures r == Err(OutOfRange)
  {
    var vec := new int[] [1, 2, 3, 4, 5, 6, 7, 8, 9, 10, 11, 12];
    var m := new MutSlice.VecInto(vec);
    var ranges := [(0, 4), (2, 20)];
    r := m.SlicesMut(ranges);
    assert PairAccepted(12, ranges, 0);
    assert FailsFirstAt(12, ranges, 1, OutOfRange);
    ReportedError(12, ranges, 1, OutOfRange, r);
  }

  /**
    The overlap check runs before the emptiness check: `(3, 2)` after `(0, 4)`
    is both inverted and overlapping, and is reported as overlapping.
   */
  method OverlapCheckedBeforeDegenerate() returns (r: Result<seq<View>>)
    ensures r == Err(Overlap)
  {
    var vec := new int[] [1, 2, 3, 4, 5, 6, 7, 8, 9, 10, 11, 12];
    var m := new MutSlice.VecInto(vec);
    var ranges := [(0, 4), (3, 2)];
    r := m.SlicesMut(ranges);
    assert PairAccepted(12, ranges, 0);
    assert FailsFirstAt(12, ranges, 1, Overlap);
    ReportedError(12, ranges, 1, Overlap, r);
  }

  /** The thirds of `1..12` that the three-slice test compares against. */
  lemma PartsOfOneToTwelve(s: seq<int>)
    requires s == [1, 2, 3, 4, 5, 6, 7, 8, 9, 10, 11, 12]
    ensures s[0..4] == [1, 2, 3, 4] && s[4..7] == [5, 6, 7] && s[7..12] == [8, 9, 10, 11, 12]
  {
  }

  /** The pairs `(0,4), (4,7), (7,12)` show the buffer's first four, next three and last five elements. */
  method ThreeSlices() returns (one: seq<int>, two: seq<int>, three: seq<int>)
    ensures one == [1, 2, 3, 4] && two == [5, 6, 7] && three == [8, 9, 10, 11, 12]
  {
    var vec := new int[] [1, 2, 3, 4, 5, 6, 7, 8, 9, 10, 11, 12];
    ghost var s0 := vec[..];
    PartsOfOneToTwelve(s0);
    var m := new MutSlice.VecInto(vec);
    var views := CutInThree(m, 4, 7);
    one := m.ViewContents(views[0]);
    two := m.ViewContents(views[1]);
    three := m.ViewContents(views[2]);
  }

  /** The three writes of the `slices_mut` documentation example, on contents. */
  lemma WrittenOneToTen(s: seq<int>)
    requires s == [1, 2, 3, 4, 5, 6, 7, 8, 9, 10]
    ensures var t := s[0 := 11][4 := 55][7 := 88];
      t[0..3] == [11, 2, 3] && t[3..5] == [4, 55] && t[5..10] == [6, 7, 88, 9, 10]
  {
  }

  /**
    Writes through three views of `1..10` (the `slices_mut` documentation
    example): each lands in its own view only.
   */
  method WriteThroughViews() returns (one: seq<int>, two: seq<int>, three: seq<int>)
    ensures one == [11, 2, 3] && two == [4, 55] && three == [6, 7, 88, 9, 10]
  {
    var vec := new int[] [1, 2, 3, 4, 5, 6, 7, 8, 9, 10];
    ghost var s0 := vec[..];
    WrittenOneToTen(s0);
    var m := new MutSlice.VecInto(vec);
    var views := CutInThree(m, 3, 5);
    m.WriteView(views, 0, 0, 11);
    m.WriteView(views, 1, 1, 55);
    m.WriteView(views, 2, 2, 88);
    assert m.vec[..] == s0[0 := 11][4 := 55][7 := 88];
    one := m.ViewContents(views[0]);
    two := m.ViewContents(views[1]);
    three := m.ViewContents(views[2]);
  }

  /** The three writes of the `into_vec` documentation example, on contents. */
  lemma WrittenDate(s: seq<int>)
    requires s == [0, 8, 0, 9, 2, 0, 2, 3]
    ensures s[1 := 1][3 := 1][7 := 4] == [0, 1, 0, 1, 2, 0, 2, 4]
  {
  }

  /**
    Writes through day, month and year views of `[0,8,0,9,2,0,2,3]` (the
    `into_vec` documentation example) are visible in the vector handed back.
   */
  method WritesVisibleAfterIntoVec() returns (v: seq<int>)
    ensures v == [0, 1, 0, 1, 2, 0, 2, 4]
  {
    var vec := new int[] [0, 8, 0, 9, 2, 0, 2, 3];
    ghost var s0 := vec[..];
    WrittenDate(s0);
    var m := new MutSlice.VecInto(vec);
    var views := CutInThree(m, 2, 4);
    m.WriteView(views, 0, 1, 1);
    m.WriteView(views, 1, 1, 1);
    m.WriteView(views, 2, 3, 4);
    var a := m.IntoVec();
    v := a[..];
  }

  /**
    The three exchanges of the rotation scenario, on contents: with `s` split
    into thirds A, B, C of five, swapping (A,B), then (B,C), then (C,A) gives
    A, C, B.
   */
  lemma RotatedThirds(s: seq<int>)
    requires |s| == 15
    ensures var one, two, three := View(0, 5), View(5, 5), View(10, 5);
      Swapped(Swapped(Swapped(s, one, two), two, three), three, one) == s[..5] + s[10..] + s[5..10]
  {
    var one, two, three := View(0, 5), View(5, 5), View(10, 5);
    var s1 := Swapped(s, one, two);
    SwapExchanges(s, one, two);
    SwapKeepsOtherView(s, one, two, three);
    var s2 := Swapped(s1, two, three);
    SwapExchanges(s1, two, three);
    SwapKeepsOtherView(s1, two, three, one);
    var s3 := Swapped(s2, three, one);
    SwapExchanges(s2, three, one);
    SwapKeepsOtherView(s2, three, one, two);
    assert Segment(s3, one) == s[..5];
    assert Segment(s3, two) == s[10..];
    assert Segment(s3, three) == s[5..10];
    assert s3 == Segment(s3, one) + Segment(s3, two) + Segment(s3, three);
  }

  /** The thirds of `1..15`, reassembled as first, last, middle. */
  lemma ThirdsOfOneToFifteen(s: seq<int>)
    requires s == [1, 2, 3, 4, 5, 6, 7, 8, 9, 10, 11, 12, 13, 14, 15]
    ensures s[..5] + s[10..] + s[5..10] == [1, 2, 3, 4, 5, 11, 12, 13, 14, 15, 6, 7, 8, 9, 10]
  {
    assert s[..5] == [1, 2, 3, 4, 5];
    assert s[5..10] == [6, 7, 8, 9, 10];
    assert s[10..] == [11, 12, 13, 14, 15];
  }

  /**
    `1..15` cut into three views of five; swapping one with two, two with
    three, then three with one leaves `1..5, 11..15, 6..10`.
   */
  method RotateThreeViews() returns (v: seq<int>)
    ensures v == [1, 2, 3, 4, 5, 11, 12, 13, 14, 15, 6, 7, 8, 9, 10]
  {
    var vec := new int[] [1, 2, 3, 4, 5, 6, 7, 8, 9, 10, 11, 12, 13, 14, 15];
    ghost var s0 := vec[..];
    ThirdsOfOneToFifteen(s0);
    var m := new MutSlice.VecInto(vec);
    var views := CutInThree(m, 5, 10);
    var one, two, three := views[0], views[1], views[2];
    assert Disjoint(one, two) && Disjoint(two, three) && Disjoint(three, one);
    m.SwapViews(one, two);
    m.SwapViews(two, three);
    m.SwapViews(three, one);
    RotatedThirds(s0);
    ghost var s3 := m.vec[..];
    assert s3 == s0[..5] + s0[10..] + s0[5..10];
    var a := m.IntoVec();
    v := a[..];
  }

  /** Derived `Clone` and `PartialEq`: any wrapper compares equal to its clone. */
  method CloneEqual<T(==)>(m: MutSlice<T>) returns (eq: bool)
    ensures eq
  {
    var c := m.Clone();
    eq := Equal(m, c);
  }
}
