# mutslices in Dafny

This project models `MutSlice<T>`, a Rust wrapper that takes ownership of a
`Vec<T>`. It hands out several simultaneously-live mutable sub-slices of that
vector, one per caller-supplied `(start, end)` pair. Before it creates them, it
checks each pair against a running cursor. Afterwards it gives the vector back.

- `MutSlices` (`mut_slices.dfy`) holds the class `MutSlice<T>`. Its field
  `vec: array<T>` is the very array the caller handed over.
  - `VecInto` and `IntoVec` move that array in and out without copying it.
  - `SlicesMut` is the validation loop of `slices_mut` with its cursor
    `rangeEnd`. It returns either one `View` (offset, length) per pair or the
    error of the first rejected pair.
  - `WriteView` writes through a view. `SwapViews` is `swap_with_slice` between
    two views. `Clone` and `Equal` are the derived `Clone` and `PartialEq`, with
    elements copied and compared as values.
  - Beside the class are the specification of the validation (`CheckRange`,
    `CursorBefore`, `PairAccepted`, `Admissible`, `FailsFirstAt`), the
    predicates that make the aliasing sound (`WithinBuffer`, `Ascending`,
    `PairwiseDisjoint`) and the lemmas that connect them.
- `MutSlicesScenarios` (`mut_slices_scenarios.dfy`) restates the crate's tests
  and documentation examples as client methods. Their contracts follow from the
  contracts of `MutSlice` alone.

`slices_mut` panics on a bad pair. Here that panic is the value
`Err(OutOfRange | Overlap | Degenerate)`, and no views are returned with it.
`SlicesMut` has no `modifies` clause, so Dafny checks that it leaves the
buffer untouched, whether it accepts or rejects.

The code accepts an empty list of pairs and returns no views
(`EmptyRequest`).

## Model

| member | source | states |
|---|---|---|
| `MutSlices.MutSlice.VecInto` | src/lib.rs:52-58 | the wrapper holds the caller's own array (same object, so no copy and the same contents) |
| `MutSlices.MutSlice.IntoVec` | src/lib.rs:129-136 | the array handed back is the one the wrapper holds; nothing is modified |
| `MutSlices.MutSlice.SlicesMut` | src/lib.rs:85-108 | accepts exactly the admissible requests; on success yields one view per pair, in order, with view i covering `[start_i, end_i)`; the views are non-empty, inside `[0, len)`, ascending and pairwise disjoint; on failure the error is that of the first pair rejected by the bounds/overlap/emptiness checks in that order; the buffer is not modified |
| `MutSlices.MutSlice.ViewContents` | src/lib.rs:99-104 | a view of `end - start` elements whose element j is buffer element `start + j`, i.e. the buffer's `Segment` for that view |
| `MutSlices.MutSlice.WriteView` | src/lib.rs:99-104 | writing element j of view i changes buffer index `start_i + j` and nothing else |
| `MutSlices.MutSlice.SwapViews` | src/lib.rs:24-26 | swapping two equal-length disjoint views leaves the buffer equal to `Swapped` of its old contents |
| `MutSlices.MutSlice.Clone` | src/lib.rs:35-38 | a fresh wrapper over a fresh array with the same elements |
| `MutSlices.Equal` | src/lib.rs:35-38 | two wrappers compare equal exactly when their vectors have the same length and the same elements in order |
| `MutSlices.ChainOrdered` | src/lib.rs:87-105 | in an accepted request every pair ends at or before any later pair starts (the cursor only moves forward) |
| `MutSlices.AdmissibleIff` | src/lib.rs:88-97 | the cursor-based checks accept a request exactly when every pair is non-empty and in bounds and all pairs are ascending and non-overlapping |
| `MutSlices.FirstFailureUnique` | src/lib.rs:88-97 | at most one pair is the first rejected one, so the reported error is determined |
| `MutSlices.AcceptedOrFirstFailure` | src/lib.rs:88-97 | a request is accepted exactly when no pair is rejected first |
| `MutSlices.ReportedError` | src/lib.rs:88-97 | any result meeting `SlicesMut`'s contract is `Err(e)` for the error e of the first rejected pair |
| `MutSlices.AcceptedViewsPlaced` | src/lib.rs:87-105 | the views built from an accepted request are non-empty, inside the buffer and ascending |
| `MutSlices.AscendingDisjoint` | src/lib.rs:99-104 | ascending views are pairwise disjoint |
| `MutSlices.DisjointIff` | src/lib.rs:99-104 | two views are disjoint exactly when no buffer index is reachable through both |
| `MutSlices.WriteThroughView` | src/lib.rs:99-104 | after a write to element j of view i, view i shows the new element at j and every other view of the batch is unchanged |
| `MutSlices.SwapExchanges` | src/lib.rs:24-26 | swapping two disjoint views exchanges their contents and leaves every index outside both unchanged |
| `MutSlices.SwapKeepsOtherView` | src/lib.rs:24-26 | a view disjoint from both swapped views shows the same contents afterwards |
| `MutSlices.SwapInvolution` | src/lib.rs:24-26 | swapping the same two disjoint views twice restores the buffer |
| `MutSlicesScenarios.RoundTrip` | src/lib.rs:129-136 | `into_vec(vec_into(v))` is `v` with the same length and elements |
| `MutSlicesScenarios.EmptyRequest` | src/lib.rs:86-107 | an empty list of pairs yields `Ok([])` |
| `MutSlicesScenarios.WholeBuffer` | tests/test_mutslices.rs:45-51 | the single pair `(0, len)` yields one view equal to the whole buffer; over an empty buffer it is rejected as degenerate |
| `MutSlicesScenarios.CutInThree` | src/lib.rs:85-108 | three consecutive non-empty pairs `(0,a),(a,b),(b,len)` are always accepted and yield exactly the views `[0,a)`, `[a,b)`, `[b,len)` |
| `MutSlicesScenarios.RejectsEmptyRange` | tests/test_mutslices.rs:4-12 | `(0,4),(7,7),(6,12)` over twelve elements fails as degenerate |
| `MutSlicesScenarios.RejectsInvertedRange` | tests/test_mutslices.rs:14-22 | `(0,4),(8,7),(6,12)` over twelve elements fails as degenerate |
| `MutSlicesScenarios.RejectsOverlap` | tests/test_mutslices.rs:24-32 | `(0,4),(4,7),(6,12)` over twelve elements fails as overlapping |
| `MutSlicesScenarios.RejectsOutOfRange` | tests/test_mutslices.rs:34-42 | `(0,4),(4,7),(7,17)` over twelve elements fails as out of range |
| `MutSlicesScenarios.BoundsCheckedBeforeOverlap` | src/lib.rs:91-94 | a pair that both overlaps and ends past the buffer is reported as out of range |
| `MutSlicesScenarios.OverlapCheckedBeforeDegenerate` | src/lib.rs:93-96 | a pair that is both inverted and overlapping is reported as overlapping |
| `MutSlicesScenarios.ThreeSlices` | tests/test_mutslices.rs:53-63 | `(0,4),(4,7),(7,12)` show the buffer's elements `[..4]`, `[4..7]`, `[7..]` |
| `MutSlicesScenarios.WriteThroughViews` | src/lib.rs:73-82 | writes `one[0]=11`, `two[1]=55`, `three[2]=88` each land in their own view only |
| `MutSlicesScenarios.WritesVisibleAfterIntoVec` | src/lib.rs:117-126 | writes through day, month and year views are visible in the vector `into_vec` returns |
| `MutSlicesScenarios.RotateThreeViews` | tests/test_mutslices.rs:66-79 | over `1..15` with three views of five, swapping one/two, two/three, three/one gives `1..5, 11..15, 6..10` |
| `MutSlicesScenarios.RotatedThirds` | tests/test_mutslices.rs:71-73 | those three exchanges turn thirds A, B, C of any fifteen elements into A, C, B |
| `MutSlicesScenarios.CloneEqual` | tests/test_mutslices.rs:130-135 | every wrapper compares equal to its clone (the test's `[10,20,30,40,50]` is one instance) |

## Left out

- Raw-pointer mechanics (`forget`, `Vec::from_raw_parts`, `from_raw_parts_mut`, `as_mut_ptr().add`): moving the vector is storing the same array; a view is an index range into it.
- Vector capacity: it cannot be observed through this API and is not modelled.
- Borrow-checker facts: that views cannot outlive the `&mut self` borrow, that one batch of views must end before the next call, and that the moved-from vector cannot be used again (tests/ui/test_ui_move_vec.rs). These are compile-time guarantees, not run-time behaviour.
- MutSlices.MutSlice.IntoVec: does not model that the wrapper is consumed, because Dafny has no move semantics; the caller may still hold the wrapper.
- Panics become `Err` values carrying one of three tags. The panic message strings are not modelled.
- `usize` width: pairs are `nat`. The source never overflows here, because it computes `end - start` only after it has checked `start < end`.
- MutSlices.MutSlice.WriteView: requires `j` to be inside the view. Rust's slice indexing panics otherwise, and that panic is not modelled.
- MutSlices.MutSlice.SwapViews: requires equal lengths and disjoint views. `swap_with_slice` panics on a length mismatch, and the borrow checker rules out aliasing views; neither path is modelled.
- The crate-level example (src/lib.rs:12-29) also uses `slice::swap` and `iter_mut` inside a view. These are standard-library operations and the example is not reproduced.
- MutSlices.MutSlice.Clone and MutSlices.Equal: element cloning is a value copy and element comparison is Dafny's `==`. A type's own `Clone` or `PartialEq` is not modelled: for `f64`, a NaN element makes a Rust wrapper unequal to its own clone, while `CloneEqual` proves every clone equal.
- `Debug` derive, lint and doc attributes, and the README include.
