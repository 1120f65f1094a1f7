/** Attention segments: one per frame of every entry, and attention that stays inside them
    (tools/capture_qwen35_vision.py). What attention computes within a segment is a parameter. */
module VisionSegments {
  import opened Arith
  import opened VisionPatches

  /** One patch's row: heads by head dimension. */
  type Row = seq<seq<real>>

  /** Attention over one segment: queries, keys and values in, one output row per query. */
  type Attend = (seq<Row>, seq<Row>, seq<Row>) -> seq<Row>

  ghost predicate KeepsLength(attend: Attend) {
    forall q: seq<Row>, k: seq<Row>, v: seq<Row> :: |q| == |k| == |v| ==> |attend(q, k, v)| == |q|
  }

  // ---- boundaries ------------------------------------------------------------

  function Lengths(grid: seq<Entry>): seq<nat> {
    if grid == [] then []
    else
      var e := grid[|grid| - 1];
      Lengths(grid[..|grid| - 1]) + seq(e.t, i => e.h * e.w)
  }

  function Sum(lens: seq<nat>): nat {
    if lens == [] then 0 else Sum(lens[..|lens| - 1]) + lens[|lens| - 1]
  }

  /** All the partial sums, from the empty one on. */
  function PartialSums(lens: seq<nat>): (r: seq<nat>)
    ensures |r| == |lens| + 1 && r[|lens|] == Sum(lens)
  {
    if lens == [] then [0] else PartialSums(lens[..|lens| - 1]) + [Sum(lens)]
  }

  ghost predicate Boundaries(cu: seq<nat>) {
    |cu| >= 1 && cu[0] == 0 && forall i | 0 <= i < |cu| - 1 :: cu[i] <= cu[i + 1]
  }

  lemma {:induction false} PartialSumsAreBoundaries(lens: seq<nat>)
    ensures Boundaries(PartialSums(lens))
    ensures forall i | 0 <= i < |lens| :: PartialSums(lens)[i + 1] == PartialSums(lens)[i] + lens[i]
  {
    if lens != [] {
      var m := |lens| - 1;
      PartialSumsAreBoundaries(lens[..m]);
      forall i | 0 <= i < |lens|
        ensures PartialSums(lens)[i + 1] == PartialSums(lens)[i] + lens[i]
      {
        if i < m {
          assert PartialSums(lens)[i + 1] == PartialSums(lens[..m])[i + 1];
        }
      }
    }
  }

  method VisionCuSeqlens(grid: seq<Entry>) returns (cu: seq<nat>)
    ensures cu == PartialSums(Lengths(grid))
  {
    var lens: seq<nat> := [];
    for i := 0 to |grid|
      invariant lens == Lengths(grid[..i])
    {
      assert grid[..i + 1][..i] == grid[..i];
      lens := lens + seq(grid[i].t, j => grid[i].h * grid[i].w);
    }
    assert grid[..|grid|] == grid;
    cu := [0];
    for i := 0 to |lens|
      invariant cu == PartialSums(lens[..i])
    {
      assert lens[..i + 1][..i] == lens[..i];
      cu := cu + [cu[|cu| - 1] + lens[i]];
    }
    assert lens[..|lens|] == lens;
  }

  /** Every row below the last boundary lies in exactly one segment. */
  lemma {:induction false} RowsArePartitioned(cu: seq<nat>, r: nat)
    requires Boundaries(cu) && r < cu[|cu| - 1]
    ensures exists i :: InSegment(cu, i, r)
    ensures forall i, j :: InSegment(cu, i, r) && InSegment(cu, j, r) ==> i == j
  {
    var m := |cu| - 1;
    assert m > 0;
    if cu[m - 1] <= r {
      assert InSegment(cu, m - 1, r);
    } else {
      RowsArePartitioned(cu[..m], r);
      var i :| InSegment(cu[..m], i, r);
      assert InSegment(cu, i, r);
    }
    forall i, j | InSegment(cu, i, r) && InSegment(cu, j, r) ensures i == j {
      if i < j {
        Increasing(cu, i + 1, j);
      } else if j < i {
        Increasing(cu, j + 1, i);
      }
    }
  }

  ghost predicate InSegment(cu: seq<nat>, i: int, r: nat) {
    0 <= i < |cu| - 1 && cu[i] <= r < cu[i + 1]
  }

  lemma {:induction false} Increasing(cu: seq<nat>, i: nat, j: nat)
    requires Boundaries(cu) && i <= j < |cu|
    ensures cu[i] <= cu[j]
    decreases j
  {
    if i < j {
      Increasing(cu, i, j - 1);
    }
  }

  // ---- attention -------------------------------------------------------------

  /** A slice whose ends are pulled into range, as the source language slices. */
  function Slice(x: seq<Row>, a: nat, b: nat): (r: seq<Row>)
    requires a <= b
    ensures |r| == Min(b, |x|) - Min(a, |x|)
  {
    x[Min(a, |x|)..Min(b, |x|)]
  }

  ghost predicate SameLength(q: seq<Row>, k: seq<Row>, v: seq<Row>) {
    |q| == |k| == |v|
  }

  /** The rows that the first `m` segments fill. */
  function Attended(attend: Attend, q: seq<Row>, k: seq<Row>, v: seq<Row>, cu: seq<nat>, m: nat): (r: seq<Row>)
    requires SameLength(q, k, v) && Boundaries(cu) && m < |cu| && KeepsLength(attend)
    ensures |r| == Min(cu[m], |q|)
  {
    if m == 0 then []
    else
      var (a, b) := (cu[m - 1], cu[m]);
      Attended(attend, q, k, v, cu, m - 1) + attend(Slice(q, a, b), Slice(k, a, b), Slice(v, a, b))
  }

  function Blank(n: nat, zero: Row): (r: seq<Row>)
    ensures |r| == n && forall i | 0 <= i < n :: r[i] == zero
  {
    seq(n, i => zero)
  }

  /** Segment after segment; rows past the last boundary stay zero. */
  function Attention(attend: Attend, q: seq<Row>, k: seq<Row>, v: seq<Row>, cu: seq<nat>, zero: Row): (r: seq<Row>)
    requires SameLength(q, k, v) && Boundaries(cu) && KeepsLength(attend)
    ensures |r| == |q|
  {
    var done := Attended(attend, q, k, v, cu, |cu| - 1);
    done + Blank(|q| - |done|, zero)
  }

  method SegmentAttention(attend: Attend, q: seq<Row>, k: seq<Row>, v: seq<Row>, cu: seq<nat>, zero: Row)
    returns (out: array<Row>)
    requires SameLength(q, k, v) && Boundaries(cu) && KeepsLength(attend)
    ensures fresh(out) && out[..] == Attention(attend, q, k, v, cu, zero)
  {
    out := new Row[|q|](i => zero);
    for i := 0 to |cu| - 1
      invariant out[..Min(cu[i], |q|)] == Attended(attend, q, k, v, cu, i)
      invariant forall r | Min(cu[i], |q|) <= r < |q| :: out[r] == zero
    {
      var a, b := cu[i], cu[i + 1];
      assert a <= b;
      var rows := attend(Slice(q, a, b), Slice(k, a, b), Slice(v, a, b));
      assert |rows| == Min(b, |q|) - Min(a, |q|);
      WriteRows(out, Min(a, |q|), rows);
      assert out[..Min(b, |q|)] == Attended(attend, q, k, v, cu, i) + rows;
    }
    assert out[..] == out[..Min(cu[|cu| - 1], |q|)] + out[Min(cu[|cu| - 1], |q|)..];
  }

  method WriteRows(out: array<Row>, from: nat, rows: seq<Row>)
    requires from + |rows| <= out.Length
    modifies out
    ensures out[..from] == old(out[..from]) && out[from..from + |rows|] == rows
    ensures forall r | from + |rows| <= r < out.Length :: out[r] == old(out[r])
  {
    for i := 0 to |rows|
      invariant out[..from] == old(out[..from]) && out[from..from + i] == rows[..i]
      invariant forall r | from + i <= r < out.Length :: out[r] == old(out[r])
    {
      out[from + i] := rows[i];
    }
  }

  // ---- no segment sees another -----------------------------------------------

  lemma {:induction false} AttendedAt(attend: Attend, q: seq<Row>, k: seq<Row>, v: seq<Row>, cu: seq<nat>, m: nat,
                                      i: nat, r: nat)
    requires SameLength(q, k, v) && Boundaries(cu) && KeepsLength(attend) && m < |cu|
    requires i < m && InSegment(cu, i, r) && r < |q|
    ensures cu[i] <= |q| && r < Min(cu[m], |q|)
    ensures |attend(Slice(q, cu[i], cu[i + 1]), Slice(k, cu[i], cu[i + 1]), Slice(v, cu[i], cu[i + 1]))| > r - cu[i]
    ensures Attended(attend, q, k, v, cu, m)[r] ==
            attend(Slice(q, cu[i], cu[i + 1]), Slice(k, cu[i], cu[i + 1]), Slice(v, cu[i], cu[i + 1]))[r - cu[i]]
  {
    Increasing(cu, i + 1, m);
    if i < m - 1 {
      AttendedAt(attend, q, k, v, cu, m - 1, i, r);
    }
  }

  /** The rows of a segment are what attention makes of its own queries, keys and values, in order, and rows
      past the last boundary are zero. */
  lemma EachSegmentIsAttended(attend: Attend, q: seq<Row>, k: seq<Row>, v: seq<Row>, cu: seq<nat>, zero: Row, i: nat,
                              a: nat, b: nat)
    requires SameLength(q, k, v) && Boundaries(cu) && KeepsLength(attend) && i < |cu| - 1
    requires a == cu[i] && b == cu[i + 1] <= |q|
    ensures a <= b && Attention(attend, q, k, v, cu, zero)[a..b] == attend(q[a..b], k[a..b], v[a..b])
    ensures forall r | cu[|cu| - 1] <= r < |q| :: Attention(attend, q, k, v, cu, zero)[r] == zero
  {
    hide Attended;
    Increasing(cu, i, i + 1);
    var out, rows := Attention(attend, q, k, v, cu, zero), attend(q[a..b], k[a..b], v[a..b]);
    assert Slice(q, a, b) == q[a..b] && Slice(k, a, b) == k[a..b] && Slice(v, a, b) == v[a..b];
    forall r | a <= r < b ensures out[r] == rows[r - a] {
      assert InSegment(cu, i, r);
      AttendedAt(attend, q, k, v, cu, |cu| - 1, i, r);
    }
    assert |rows| == b - a;
  }

  ghost predicate AgreeOn(x: seq<Row>, y: seq<Row>, a: nat, b: nat)
    requires a <= b
  {
    |x| == |y| && Slice(x, a, b) == Slice(y, a, b)
  }

  /** Changing rows outside a segment changes none of its outputs. */
  lemma SegmentsDoNotInterfere(attend: Attend, q: seq<Row>, k: seq<Row>, v: seq<Row>, q2: seq<Row>, k2: seq<Row>,
                               v2: seq<Row>, cu: seq<nat>, zero: Row, i: nat, r: nat)
    requires SameLength(q, k, v) && SameLength(q2, k2, v2) && Boundaries(cu) && KeepsLength(attend)
    requires InSegment(cu, i, r) && r < |q|
    requires AgreeOn(q, q2, cu[i], cu[i + 1]) && AgreeOn(k, k2, cu[i], cu[i + 1]) && AgreeOn(v, v2, cu[i], cu[i + 1])
    ensures Attention(attend, q, k, v, cu, zero)[r] == Attention(attend, q2, k2, v2, cu, zero)[r]
  {
    hide Slice, Attended;
    AttendedAt(attend, q, k, v, cu, |cu| - 1, i, r);
    AttendedAt(attend, q2, k2, v2, cu, |cu| - 1, i, r);
  }

  // ---- packing ---------------------------------------------------------------

  /** One call: the grids and the rows they describe. */
  datatype Call = Call(grid: seq<Entry>, q: seq<Row>, k: seq<Row>, v: seq<Row>)

  function Cu(c: Call): seq<nat> {
    PartialSums(Lengths(c.grid))
  }

  ghost predicate Fits(c: Call) {
    SameLength(c.q, c.k, c.v) && |c.q| == Sum(Lengths(c.grid))
  }

  function Answer(attend: Attend, c: Call, zero: Row): (r: seq<Row>)
    requires SameLength(c.q, c.k, c.v) && KeepsLength(attend)
    ensures |r| == |c.q|
  {
    PartialSumsAreBoundaries(Lengths(c.grid));
    Attention(attend, c.q, c.k, c.v, Cu(c), zero)
  }

  function Both(a: Call, b: Call): Call {
    Call(a.grid + b.grid, a.q + b.q, a.k + b.k, a.v + b.v)
  }

  function Packed(calls: seq<Call>): Call {
    if calls == [] then Call([], [], [], []) else Both(Packed(calls[..|calls| - 1]), calls[|calls| - 1])
  }

  function Answers(attend: Attend, calls: seq<Call>, zero: Row): seq<Row>
    requires KeepsLength(attend) && forall c | c in calls :: Fits(c)
  {
    if calls == [] then []
    else
      var last := calls[|calls| - 1];
      assert last in calls && Fits(last);
      Answers(attend, calls[..|calls| - 1], zero) + Answer(attend, last, zero)
  }

  lemma {:induction false} LengthsOfBoth(x: seq<Entry>, y: seq<Entry>)
    ensures Lengths(x + y) == Lengths(x) + Lengths(y)
  {
    if y == [] {
      assert x + y == x;
    } else {
      assert (x + y)[..|x + y| - 1] == x + y[..|y| - 1];
      LengthsOfBoth(x, y[..|y| - 1]);
    }
  }

  lemma {:induction false} SumOfBoth(x: seq<nat>, y: seq<nat>)
    ensures Sum(x + y) == Sum(x) + Sum(y)
  {
    if y == [] {
      assert x + y == x;
    } else {
      assert (x + y)[..|x + y| - 1] == x + y[..|y| - 1];
      SumOfBoth(x, y[..|y| - 1]);
    }
  }

  lemma {:induction false} PartialSumAt(lens: seq<nat>, i: nat)
    requires i <= |lens|
    ensures PartialSums(lens)[i] == Sum(lens[..i])
  {
    if i < |lens| {
      PartialSumAt(lens[..|lens| - 1], i);
      assert lens[..|lens| - 1][..i] == lens[..i];
    } else {
      assert lens[..i] == lens;
    }
  }

  lemma LeftBoundary(x: seq<nat>, y: seq<nat>, i: nat)
    requires i <= |x|
    ensures PartialSums(x + y)[i] == PartialSums(x)[i]
  {
    hide PartialSums, Sum;
    PartialSumAt(x + y, i);
    PartialSumAt(x, i);
    assert (x + y)[..i] == x[..i];
  }

  lemma RightBoundary(x: seq<nat>, y: seq<nat>, i: nat)
    requires i <= |y|
    ensures PartialSums(x + y)[|x| + i] == Sum(x) + PartialSums(y)[i]
  {
    hide PartialSums, Sum;
    PartialSumAt(x + y, |x| + i);
    PartialSumAt(y, i);
    assert (x + y)[..|x| + i] == x + y[..i];
    SumOfBoth(x, y[..i]);
  }

  /** `cu` continues the boundaries `x` with those of `y`, moved up. */
  ghost predicate Continues(cu: seq<nat>, x: seq<nat>, y: seq<nat>) {
    && |x| >= 1 && |y| >= 1 && |cu| == |x| - 1 + |y|
    && (forall i | 0 <= i < |x| :: cu[i] == x[i])
    && (forall i | 0 <= i < |y| :: ContinuesAt(cu, x, y, i))
  }

  ghost predicate ContinuesAt(cu: seq<nat>, x: seq<nat>, y: seq<nat>, i: nat)
    requires |x| >= 1 && |cu| == |x| - 1 + |y| && i < |y|
  {
    cu[|x| - 1 + i] == x[|x| - 1] + y[i]
  }

  lemma PartialSumsContinue(x: seq<nat>, y: seq<nat>)
    ensures Continues(PartialSums(x + y), PartialSums(x), PartialSums(y))
  {
    hide PartialSums, Sum;
    forall i | 0 <= i <= |x| ensures PartialSums(x + y)[i] == PartialSums(x)[i] {
      LeftBoundary(x, y, i);
    }
    forall i | 0 <= i <= |y| ensures ContinuesAt(PartialSums(x + y), PartialSums(x), PartialSums(y), i) {
      RightBoundary(x, y, i);
    }
  }

  lemma SliceOfLeft(x: seq<Row>, y: seq<Row>, a: nat, b: nat)
    requires a <= b <= |x|
    ensures Slice(x + y, a, b) == Slice(x, a, b)
  {
  }

  lemma SliceOfRight(x: seq<Row>, y: seq<Row>, a: nat, b: nat)
    requires a <= b <= |y|
    ensures Slice(x + y, |x| + a, |x| + b) == Slice(y, a, b)
  {
  }

  lemma {:induction false} LeftSegments(attend: Attend, a: Call, b: Call, cu: seq<nat>, x: seq<nat>, y: seq<nat>,
                                        m: nat)
    requires KeepsLength(attend) && SameLength(a.q, a.k, a.v) && SameLength(b.q, b.k, b.v)
    requires Boundaries(cu) && Boundaries(x) && Continues(cu, x, y) && m < |x| && |a.q| == x[|x| - 1]
    ensures Attended(attend, a.q + b.q, a.k + b.k, a.v + b.v, cu, m) == Attended(attend, a.q, a.k, a.v, x, m)
  {
    hide Slice, KeepsLength;
    if m > 0 {
      LeftSegments(attend, a, b, cu, x, y, m - 1);
      Increasing(x, m, |x| - 1);
      var lo, hi := x[m - 1], x[m];
      SliceOfLeft(a.q, b.q, lo, hi);
      SliceOfLeft(a.k, b.k, lo, hi);
      SliceOfLeft(a.v, b.v, lo, hi);
    }
  }

  lemma {:induction false} RightSegments(attend: Attend, a: Call, b: Call, cu: seq<nat>, x: seq<nat>, y: seq<nat>,
                                         m: nat)
    requires KeepsLength(attend) && SameLength(a.q, a.k, a.v) && SameLength(b.q, b.k, b.v)
    requires Boundaries(cu) && Boundaries(x) && Boundaries(y) && Continues(cu, x, y)
    requires m < |y| && |a.q| == x[|x| - 1] && |b.q| == y[|y| - 1]
    ensures Attended(attend, a.q + b.q, a.k + b.k, a.v + b.v, cu, |x| - 1 + m) ==
            Attended(attend, a.q, a.k, a.v, x, |x| - 1) + Attended(attend, b.q, b.k, b.v, y, m)
  {
    hide Slice, KeepsLength, Attended, Continues;
    if m == 0 {
      LeftSegments(attend, a, b, cu, x, y, |x| - 1);
      assert |Attended(attend, b.q, b.k, b.v, y, 0)| == 0;
    } else {
      RightSegments(attend, a, b, cu, x, y, m - 1);
      var lo, hi := y[m - 1], y[m];
      ShiftedSegment(a, b, cu, x, y, m);
      var rows := attend(Slice(b.q, lo, hi), Slice(b.k, lo, hi), Slice(b.v, lo, hi));
      OneMoreSegment(attend, b.q, b.k, b.v, y, m, rows);
      OneMoreSegment(attend, a.q + b.q, a.k + b.k, a.v + b.v, cu, |x| - 1 + m, rows);
    }
  }

  lemma ShiftedSegment(a: Call, b: Call, cu: seq<nat>, x: seq<nat>, y: seq<nat>, m: nat)
    requires SameLength(a.q, a.k, a.v) && SameLength(b.q, b.k, b.v)
    requires Boundaries(cu) && Boundaries(y) && Continues(cu, x, y)
    requires 0 < m < |y| && |a.q| == x[|x| - 1] && |b.q| == y[|y| - 1]
    ensures |cu| == |x| - 1 + |y| && cu[|x| - 1 + m - 1] <= cu[|x| - 1 + m]
    ensures Slice(a.q + b.q, cu[|x| - 1 + m - 1], cu[|x| - 1 + m]) == Slice(b.q, y[m - 1], y[m])
    ensures Slice(a.k + b.k, cu[|x| - 1 + m - 1], cu[|x| - 1 + m]) == Slice(b.k, y[m - 1], y[m])
    ensures Slice(a.v + b.v, cu[|x| - 1 + m - 1], cu[|x| - 1 + m]) == Slice(b.v, y[m - 1], y[m])
  {
    hide Slice;
    Increasing(y, m, |y| - 1);
    assert ContinuesAt(cu, x, y, m - 1) && ContinuesAt(cu, x, y, m);
    SliceOfRight(a.q, b.q, y[m - 1], y[m]);
    SliceOfRight(a.k, b.k, y[m - 1], y[m]);
    SliceOfRight(a.v, b.v, y[m - 1], y[m]);
  }

  lemma OneMoreSegment(attend: Attend, q: seq<Row>, k: seq<Row>, v: seq<Row>, cu: seq<nat>, m: nat, rows: seq<Row>)
    requires SameLength(q, k, v) && Boundaries(cu) && KeepsLength(attend) && 0 < m < |cu|
    requires rows == attend(Slice(q, cu[m - 1], cu[m]), Slice(k, cu[m - 1], cu[m]), Slice(v, cu[m - 1], cu[m]))
    ensures Attended(attend, q, k, v, cu, m) == Attended(attend, q, k, v, cu, m - 1) + rows
  {
  }

  /** Where every row lies in a segment, attention is the segments' rows and nothing else. */
  lemma NothingStaysBlank(attend: Attend, q: seq<Row>, k: seq<Row>, v: seq<Row>, cu: seq<nat>, zero: Row)
    requires SameLength(q, k, v) && Boundaries(cu) && KeepsLength(attend) && |q| == cu[|cu| - 1]
    ensures Attention(attend, q, k, v, cu, zero) == Attended(attend, q, k, v, cu, |cu| - 1)
  {
    hide Attended;
    assert Blank(0, zero) == [];
  }

  lemma AnswerOfBoth(attend: Attend, a: Call, b: Call, zero: Row)
    requires KeepsLength(attend) && Fits(a) && Fits(b)
    ensures Fits(Both(a, b))
    ensures Answer(attend, Both(a, b), zero) == Answer(attend, a, zero) + Answer(attend, b, zero)
  {
    hide Attended, KeepsLength, Lengths, Sum, Attention;
    var x, y := Lengths(a.grid), Lengths(b.grid);
    LengthsOfBoth(a.grid, b.grid);
    SumOfBoth(x, y);
    PartialSumsAreBoundaries(x);
    PartialSumsAreBoundaries(y);
    PartialSumsAreBoundaries(x + y);
    PartialSumsContinue(x, y);
    hide PartialSums, Continues, Boundaries;
    var both := Both(a, b);
    NothingStaysBlank(attend, a.q, a.k, a.v, Cu(a), zero);
    NothingStaysBlank(attend, b.q, b.k, b.v, Cu(b), zero);
    NothingStaysBlank(attend, both.q, both.k, both.v, Cu(both), zero);
    RightSegments(attend, a, b, Cu(both), Cu(a), Cu(b), |y|);
  }

  /** Packing any list of calls into one gives the concatenation of the separate answers. */
  lemma {:induction false} PackingIsConcatenation(attend: Attend, calls: seq<Call>, zero: Row)
    requires KeepsLength(attend) && forall c | c in calls :: Fits(c)
    ensures Fits(Packed(calls)) && Answer(attend, Packed(calls), zero) == Answers(attend, calls, zero)
  {
    hide Answer;
    if calls == [] {
      assert Answer(attend, Packed(calls), zero) == [];
    } else {
      PackingIsConcatenation(attend, calls[..|calls| - 1], zero);
      AnswerOfBoth(attend, Packed(calls[..|calls| - 1]), calls[|calls| - 1], zero);
    }
  }

  /** A video of `t` frames is segmented like `t` images of one frame each. */
  lemma {:induction false} FramesAreSeparate(t: nat, h: nat, w: nat)
    ensures Lengths([Entry(t, h, w)]) == Lengths(seq(t, i => Entry(1, h, w)))
  {
    var frames := seq(t, i => Entry(1, h, w));
    assert [Entry(t, h, w)][..0] == [];
    if t > 0 {
      FramesAreSeparate(t - 1, h, w);
      assert [Entry(t - 1, h, w)][..0] == [];
      assert frames[..t - 1] == seq(t - 1, i => Entry(1, h, w));
    }
  }

  lemma {:induction false} SumOfEqual(t: nat, x: nat)
    ensures Sum(seq(t, i => x)) == t * x
  {
    if t > 0 {
      SumOfEqual(t - 1, x);
      assert seq(t, i => x)[..t - 1] == seq(t - 1, i => x);
      assert (t - 1) * x + x == t * x;
    }
  }

  lemma {:induction false} LengthOfRepeated<T>(x: seq<T>, t: nat)
    ensures |Repeated(x, t)| == t * |x|
  {
    if t > 0 {
      LengthOfRepeated(x, t - 1);
      assert (t - 1) * |x| + |x| == t * |x|;
    }
  }

  /** The last boundary is the number of patches that the same grids have position ids for. */
  lemma {:induction false} BoundariesCountPatches(grid: seq<Entry>, merge: nat)
    requires merge > 0
    ensures Sum(Lengths(grid)) == |BatchCells(grid, merge)|
  {
    hide Sum, FrameCells, Repeated;
    if grid == [] {
      SumOfEqual(0, 0);
      assert Lengths(grid) == seq(0, i => 0);
    } else {
      var front, e := grid[..|grid| - 1], grid[|grid| - 1];
      BoundariesCountPatches(front, merge);
      SumOfBoth(Lengths(front), seq(e.t, i => e.h * e.w));
      SumOfEqual(e.t, e.h * e.w);
      LengthOfRepeated(FrameCells(e.h, e.w, merge), e.t);
    }
  }
}
