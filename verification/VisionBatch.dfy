/** Where each patch of a batch of images and videos is found in the position ids and in the taps
    (tools/capture_qwen35_vision.py). */
module VisionBatch {
  import opened Arith
  import opened VisionPatches
  import opened VisionTaps

  /** How many patches the entries of a grid have, over all their frames. */
  function PatchesIn(grid: seq<Entry>): nat {
    if grid == [] then 0
    else
      var e := grid[|grid| - 1];
      PatchesIn(grid[..|grid| - 1]) + e.t * (e.h * e.w)
  }

  /** Patch `q` of frame `f` of entry `i`. */
  ghost predicate IsPatch(grid: seq<Entry>, i: nat, f: nat, q: nat) {
    i < |grid| && f < grid[i].t && q < grid[i].h * grid[i].w
  }

  /** The patches of the entries before `i`, of the frames before `f`, and of the frame before `q`. */
  function PlaceOf(grid: seq<Entry>, i: nat, f: nat, q: nat): nat
    requires i < |grid|
  {
    PatchesIn(grid[..i]) + (f * (grid[i].h * grid[i].w) + q)
  }

  lemma {:induction false} RepeatedAt<T>(x: seq<T>, t: nat, f: nat, q: nat)
    ensures |Repeated(x, t)| == t * |x|
    ensures f < t && q < |x| ==> f * |x| + q < t * |x| && Repeated(x, t)[f * |x| + q] == x[q]
  {
    if t > 0 {
      RepeatedAt(x, t - 1, f, q);
      assert t * |x| == (t - 1) * |x| + |x|;
    }
  }

  /** Place `p` of entry number `m`'s part, behind what comes before it. */
  lemma InLastPart<T>(before: seq<T>, frame: seq<T>, t: nat, f: nat, q: nat)
    ensures |before + Repeated(frame, t)| == |before| + t * |frame|
    ensures f < t && q < |frame| ==>
              f * |frame| + q < t * |frame| && (before + Repeated(frame, t))[|before| + (f * |frame| + q)] == frame[q]
  {
    RepeatedAt(frame, t, f, q);
  }

  /** The position ids hold, for every patch of every frame of every entry in turn, what one frame of the
      entry has there. */
  lemma {:induction false} BatchCellAt(grid: seq<Entry>, merge: nat, i: nat, f: nat, q: nat)
    requires merge > 0
    ensures |BatchCells(grid, merge)| == PatchesIn(grid)
    ensures IsPatch(grid, i, f, q) ==>
              && PlaceOf(grid, i, f, q) < |BatchCells(grid, merge)|
              && BatchCells(grid, merge)[PlaceOf(grid, i, f, q)] == FrameCells(grid[i].h, grid[i].w, merge)[q]
    decreases |grid|
  {
    hide FrameCells, Repeated;
    if grid != [] {
      var m := |grid| - 1;
      var front, e := grid[..m], grid[m];
      BatchCellAt(front, merge, i, f, q);
      InLastPart(BatchCells(front, merge), FrameCells(e.h, e.w, merge), e.t, f, q);
      if i < m {
        assert front[..i] == grid[..i];
      }
    }
  }

  /** The taps hold, in the same order, the sample of each patch. */
  lemma {:induction false} BatchSampleAt(grid: seq<Entry>, side: nat, merge: nat, alignCorners: bool, i: nat, f: nat,
                                         q: nat)
    requires side > 0 && forall e | e in grid :: Readable(e, merge)
    ensures |BatchSamples(grid, side, merge, alignCorners)| == PatchesIn(grid)
    ensures IsPatch(grid, i, f, q) ==>
              && PlaceOf(grid, i, f, q) < |BatchSamples(grid, side, merge, alignCorners)|
              && grid[i].h > 0 && grid[i].w > 0 && merge > 0 && grid[i].w / merge > 0
              && BatchSamples(grid, side, merge, alignCorners)[PlaceOf(grid, i, f, q)]
                 == SampleAt(Decode(q, grid[i].w, merge), grid[i].h, grid[i].w, side, alignCorners)
    decreases |grid|
  {
    hide SampleAt, Decode, Repeated, FrameSamples;
    if grid != [] {
      var m := |grid| - 1;
      var front, e := grid[..m], grid[m];
      BatchSampleAt(front, side, merge, alignCorners, i, f, q);
      var frame := FrameSamples(e.h * e.w, e, side, merge, alignCorners);
      InLastPart(BatchSamples(front, side, merge, alignCorners), frame, e.t, f, q);
      if i < m {
        assert front[..i] == grid[..i];
      } else if IsPatch(grid, i, f, q) {
        Unflat(q, e.h, e.w);
      }
    }
  }
}
