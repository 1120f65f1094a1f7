/** The order of patches and the layout of one patch (tools/capture_qwen35_vision.py). */
module VisionPatches {
  import opened Arith
  import opened MixedRadix
  import opened Options

  datatype Cell = Cell(row: nat, column: nat)

  /** Patch `p` of a frame `w` patches wide, decoded by division. */
  function Decode(p: nat, w: nat, merge: nat): Cell
    requires merge > 0 && w / merge > 0
  {
    var x := Split(p, w / merge, merge, merge);
    Cell(x.a * merge + x.c, x.b * merge + x.d)
  }

  /** The patch that shows a cell. */
  function Encode(cell: Cell, w: nat, merge: nat): nat
    requires merge > 0
  {
    Join(Digits(cell.row / merge, cell.column / merge, cell.row % merge, cell.column % merge), w / merge, merge, merge)
  }

  ghost predicate Divides(h: nat, w: nat, merge: nat) {
    merge > 0 && h % merge == 0 && w % merge == 0
  }

  lemma BlocksOfSide(n: nat, merge: nat, x: nat)
    requires merge > 0 && n % merge == 0
    ensures n / merge * merge == n
    ensures x / merge < n / merge <==> x < n
  {
    DivParts(n, merge);
    DivParts(x, merge);
    if x / merge < n / merge {
      MulMono(x / merge + 1, n / merge, merge);
      assert (x / merge + 1) * merge == x / merge * merge + merge;
    } else {
      MulMono(n / merge, x / merge, merge);
    }
  }

  lemma CountOfPatches(h: nat, w: nat, merge: nat)
    requires Divides(h, w, merge)
    ensures h / merge * (w / merge) * merge * merge == h * w
  {
    var a, b := h / merge, w / merge;
    BlocksOfSide(h, merge, 0);
    BlocksOfSide(w, merge, 0);
    assert a * b * merge * merge == (a * merge) * (b * merge);
  }

  /** Division decodes every patch of the grid to a cell of it: `merge` divides the width, and divides
      the height too or the grid is one block wide. */
  predicate Decodable(h: nat, w: nat, merge: nat) {
    merge > 0 && w / merge > 0 && w % merge == 0 && (h % merge == 0 || w == merge)
  }

  /** Every patch of a frame shows a cell of the grid, and encoding that cell gives the patch back. */
  lemma EncodeOfDecode(p: nat, h: nat, w: nat, merge: nat)
    requires Decodable(h, w, merge) && p < h * w
    ensures Decode(p, w, merge).row < h && Decode(p, w, merge).column < w
    ensures Encode(Decode(p, w, merge), w, merge) == p
  {
    if h % merge == 0 {
      Unflat(p, h, w);
      BlocksOfSide(w, merge, 0);
      BlocksOfSide(h, merge, 0);
      CountOfPatches(h, w, merge);
      var n := w / merge;
      var x := Split(p, n, merge, merge);
      JoinOfSplit(p, n, merge, merge);
      TopDigit(x, h / merge, n, merge, merge);
      hide Split, Join;
      DivMod(x.a, merge, x.c);
      DivMod(x.b, merge, x.d);
      BlocksOfSide(h, merge, x.a * merge + x.c);
      BlocksOfSide(w, merge, x.b * merge + x.d);
    } else {
      Unflat(p, h, merge);
      OneBlockWide(Cell(p / merge, p % merge), merge);
    }
  }

  /** Every cell of the grid is shown by a patch of the frame, and decoding it gives the cell back. */
  lemma DecodeOfEncode(cell: Cell, h: nat, w: nat, merge: nat)
    requires Decodable(h, w, merge) && cell.row < h && cell.column < w
    ensures Encode(cell, w, merge) < h * w && Decode(Encode(cell, w, merge), w, merge) == cell
  {
    BlocksOfSide(w, merge, cell.column);
    DecodeUndoesEncode(cell, w, merge);
    if h % merge == 0 {
      BlocksOfSide(h, merge, cell.row);
      CountOfPatches(h, w, merge);
      var x := Digits(cell.row / merge, cell.column / merge, cell.row % merge, cell.column % merge);
      TopDigit(x, h / merge, w / merge, merge, merge);
    } else {
      OneBlockWide(cell, merge);
      Flat(cell.row, h, cell.column, merge);
    }
  }

  /** Decoding undoes encoding in any column of whole blocks, however many rows there are. */
  lemma DecodeUndoesEncode(cell: Cell, w: nat, merge: nat)
    requires merge > 0 && cell.column / merge < w / merge
    ensures Decode(Encode(cell, w, merge), w, merge) == cell
  {
    DivParts(cell.row, merge);
    DivParts(cell.column, merge);
    SplitOfJoin(Digits(cell.row / merge, cell.column / merge, cell.row % merge, cell.column % merge),
                w / merge, merge, merge);
    hide Split, Join;
  }

  /** In a grid one block wide the patches go row after row. */
  lemma OneBlockWide(cell: Cell, merge: nat)
    requires merge > 0 && cell.column < merge
    ensures Encode(cell, merge, merge) == cell.row * merge + cell.column
    ensures Decode(cell.row * merge + cell.column, merge, merge) == cell
  {
    DivMod(1, merge, 0);
    DivMod(0, merge, cell.column);
    DivParts(cell.row, merge);
    assert Encode(cell, merge, merge) == (cell.row / merge * merge + cell.row % merge) * merge + cell.column;
    DecodeUndoesEncode(cell, merge, merge);
  }

  /** On any other grid with whole blocks the first cell below it is shown by one of its patches. */
  lemma FirstCellBelow(h: nat, w: nat, merge: nat)
    requires merge > 0 && w / merge > 0 && h > 0 && !Decodable(h, w, merge)
    ensures Encode(Cell(h, 0), w, merge) < h * w && Decode(Encode(Cell(h, 0), w, merge), w, merge) == Cell(h, 0)
  {
    DivMod(0, merge, 0);
    DecodeUndoesEncode(Cell(h, 0), w, merge);
    var n, s, a, c := w / merge, w % merge, h / merge, h % merge;
    DivParts(h, merge);
    DivParts(w, merge);
    assert Encode(Cell(h, 0), w, merge) == (a * n * merge + c) * merge;
    FreshPatches(a, c, n, s, merge);
  }

  lemma Spread(a: int, b: int, m: int)
    ensures (a + b) * m == a * m + b * m && m * (a + b) == m * a + m * b
  {
  }

  /** What a grid of `a * merge + c` rows and `n * merge + s` columns has besides the patches above row
      `a * merge + c`. */
  lemma PatchesBelow(a: nat, c: nat, n: nat, s: nat, merge: nat)
    requires n > 0
    ensures (a * merge + c) * (n * merge + s) == (a * n * merge + c) * merge + c * (n - 1) * merge + (a * merge + c) * s
  {
    var h, x, q := a * merge + c, a * n * merge, c * (n - 1);
    MulAssoc(a, n, merge);
    MulAssoc(a, merge, n);
    MulAssoc(h, n, merge);
    Spread(a * merge, c, n);
    Spread(1, n - 1, c);
    Spread(x + c, q, merge);
    Spread(n * merge, s, h);
  }

  lemma FreshPatches(a: nat, c: nat, n: nat, s: nat, merge: nat)
    requires merge > 0 && n > 0 && a * merge + c > 0 && (s > 0 || (c > 0 && n > 1))
    ensures (a * n * merge + c) * merge < (a * merge + c) * (n * merge + s)
  {
    var h, q := a * merge + c, c * (n - 1);
    PatchesBelow(a, c, n, s, merge);
    MulMono(0, n - 1, c);
    MulMono(0, q, merge);
    if s > 0 {
      MulMono(1, h, s);
    } else {
      MulMono(1, n - 1, c);
      MulMono(1, q, merge);
    }
  }

  /** Patches `b * merge * merge` up to the next multiple show one `merge` by `merge` block: those
      patches, and no other, decode to its cells. */
  lemma ConsecutivePatchesAreABlock(p: nat, b: nat, w: nat, merge: nat)
    requires merge > 0 && w / merge > 0
    ensures p / merge / merge == b <==>
            Decode(p, w, merge).row / merge == b / (w / merge) && Decode(p, w, merge).column / merge == b % (w / merge)
  {
    var n := w / merge;
    var x := Split(p, n, merge, merge);
    SplitBySteps(p, n, merge, merge);
    JoinOfSplit(p, n, merge, merge);
    hide Split, Join;
    DivMod(x.a, merge, x.c);
    DivMod(x.b, merge, x.d);
    DivParts(p / merge / merge, n);
    DivParts(b, n);
  }

  // ---- the nested loops ------------------------------------------------------

  /** The first `n` entries hold the cells that the division form decodes. `None` is an entry of the
      freshly allocated tensor that nothing has been written to. */
  ghost predicate Filled(ids: seq<Option<Cell>>, n: nat, w: nat, merge: nat)
    requires merge > 0
  {
    n <= |ids| && (n > 0 ==> w / merge > 0) && forall q | 0 <= q < n :: ids[q] == Some(Decode(q, w, merge))
  }

  /** How many patches `rows` rows of whole blocks hold. */
  function InBlockRows(rows: nat, w: nat, merge: nat): nat
    requires merge > 0
  {
    rows * (w / merge) * merge * merge
  }

  /** One frame. Where `merge` does not divide a side the loops stop early, and the rest of the
      freshly allocated entries stay whatever they were. */
  method FrameIds(h: nat, w: nat, merge: nat, ids: array<Option<Cell>>)
    requires merge > 0 && ids.Length == h * w
    modifies ids
    ensures Filled(ids[..], InBlockRows(h / merge, w, merge), w, merge)
    ensures forall q | InBlockRows(h / merge, w, merge) <= q < ids.Length :: ids[q] == old(ids[q])
  {
    var p := 0;
    Fits(h, w, merge);
    for br := 0 to h / merge
      invariant p == InBlockRows(br, w, merge) <= ids.Length
      invariant Filled(ids[..], p, w, merge) && forall q | p <= q < ids.Length :: ids[q] == old(ids[q])
    {
      hide InBlockRows, Filled;
      BlockRowFits(br, h / merge, w, merge);
      p := BlockRowIds(br, w, merge, ids, p);
    }
  }

  lemma BlockRowFits(br: nat, rows: nat, w: nat, merge: nat)
    requires br < rows && merge > 0
    ensures InBlockRows(br + 1, w, merge) == InBlockRows(br, w, merge) + InBlockRows(1, w, merge) <=
            InBlockRows(rows, w, merge)
  {
    RowFits(br, rows, w / merge, merge);
  }

  lemma Fits(h: nat, w: nat, merge: nat)
    requires merge > 0
    ensures InBlockRows(h / merge, w, merge) <= h * w
  {
    var a, b := h / merge, w / merge;
    DivParts(h, merge);
    DivParts(w, merge);
    assert a * b * merge * merge == (a * merge) * (b * merge);
    MulMono(a * merge, h, b * merge);
    MulMono(b * merge, w, h);
  }

  lemma RowFits(br: nat, rows: nat, n: nat, merge: nat)
    requires br < rows
    ensures (br + 1) * n * merge * merge == br * n * merge * merge + n * merge * merge <= rows * n * merge * merge
  {
    var k := n * merge * merge;
    assert (br + 1) * n * merge * merge == (br + 1) * k && br * n * merge * merge == br * k &&
           rows * n * merge * merge == rows * k;
    MulMono(br + 1, rows, k);
  }

  /** The innermost three loops: one row of blocks. */
  method BlockRowIds(br: nat, w: nat, merge: nat, ids: array<Option<Cell>>, from: nat) returns (p: nat)
    requires merge > 0 && from == InBlockRows(br, w, merge)
    requires from + InBlockRows(1, w, merge) <= ids.Length && Filled(ids[..], from, w, merge)
    modifies ids
    ensures p == from + InBlockRows(1, w, merge) && Filled(ids[..], p, w, merge)
    ensures forall q | p <= q < ids.Length :: ids[q] == old(ids[q])
  {
    p := from;
    var n := w / merge;
    for bc := 0 to n
      invariant p == from + bc * merge * merge <= ids.Length
      invariant Filled(ids[..], p, w, merge) && forall q | p <= q < ids.Length :: ids[q] == old(ids[q])
    {
      RowFits(bc, n, 1, merge);
      for ir := 0 to merge
        invariant p == from + bc * merge * merge + ir * merge <= ids.Length
        invariant Filled(ids[..], p, w, merge) && forall q | p <= q < ids.Length :: ids[q] == old(ids[q])
      {
        LineFits(ir, merge);
        p := LineIds(br, bc, ir, w, merge, ids, p);
      }
    }
  }

  lemma LineFits(ir: nat, merge: nat)
    requires ir < merge
    ensures (ir + 1) * merge == ir * merge + merge <= merge * merge
  {
    MulMono(ir + 1, merge, merge);
  }

  method LineIds(br: nat, bc: nat, ir: nat, w: nat, merge: nat, ids: array<Option<Cell>>, from: nat) returns (p: nat)
    requires merge > 0 && bc < w / merge && ir < merge
    requires from == br * (w / merge) * merge * merge + bc * merge * merge + ir * merge
    requires from + merge <= ids.Length && Filled(ids[..], from, w, merge)
    modifies ids
    ensures p == from + merge && Filled(ids[..], p, w, merge)
    ensures forall q | p <= q < ids.Length :: ids[q] == old(ids[q])
  {
    p := from;
    for ic := 0 to merge
      invariant p == from + ic && Filled(ids[..], p, w, merge)
      invariant forall q | p <= q < ids.Length :: ids[q] == old(ids[q])
    {
      hide Decode;
      PatchOfLoops(br, bc, ir, ic, w, merge, p);
      ids[p] := Some(Cell(br * merge + ir, bc * merge + ic));
      p := p + 1;
    }
  }

  /** The loop counters are the digits. */
  lemma PatchOfLoops(br: nat, bc: nat, ir: nat, ic: nat, w: nat, merge: nat, p: nat)
    requires merge > 0 && bc < w / merge && ir < merge && ic < merge
    requires p == br * (w / merge) * merge * merge + bc * merge * merge + ir * merge + ic
    ensures Decode(p, w, merge) == Cell(br * merge + ir, bc * merge + ic)
  {
    var x := Digits(br, bc, ir, ic);
    SplitOfJoin(x, w / merge, merge, merge);
    assert Join(x, w / merge, merge, merge) == p;
    hide Split, Join;
  }

  // ---- the whole batch -------------------------------------------------------

  datatype Entry = Entry(t: nat, h: nat, w: nat)

  lemma NoColumnsNoPatches(rows: nat, w: nat, merge: nat)
    requires merge > 0
    ensures w / merge == 0 ==> InBlockRows(rows, w, merge) == 0
  {
    var n := w / merge;
    if n == 0 {
      assert rows * n == 0;
    }
  }

  /** The ids of one frame: what the division form decodes, as far as whole blocks go. */
  function FrameCells(h: nat, w: nat, merge: nat): (r: seq<Option<Cell>>)
    requires merge > 0
    ensures |r| == h * w
    ensures w / merge == 0 ==> InBlockRows(h / merge, w, merge) == 0
    ensures forall q | 0 <= q < h * w ::
              r[q] == if q < InBlockRows(h / merge, w, merge) then Some(Decode(q, w, merge)) else None
  {
    hide InBlockRows, Decode;
    NoColumnsNoPatches(h / merge, w, merge);
    seq(h * w, q requires 0 <= q < h * w =>
      if q < InBlockRows(h / merge, w, merge) && w / merge > 0 then Some(Decode(q, w, merge)) else None)
  }

  /** Where `merge` divides both sides every entry is written. */
  lemma EveryEntryIsWritten(h: nat, w: nat, merge: nat, q: nat)
    requires Divides(h, w, merge) && q < h * w
    ensures w / merge > 0 && FrameCells(h, w, merge)[q] == Some(Decode(q, w, merge))
  {
    CountOfPatches(h, w, merge);
    Unflat(q, h, w);
    BlocksOfSide(w, merge, 0);
  }

  function Repeated<T>(x: seq<T>, t: nat): seq<T> {
    if t == 0 then [] else Repeated(x, t - 1) + x
  }

  /** Frame after frame, entry after entry. */
  function BatchCells(grid: seq<Entry>, merge: nat): seq<Option<Cell>>
    requires merge > 0
  {
    if grid == [] then []
    else
      var e := grid[|grid| - 1];
      BatchCells(grid[..|grid| - 1], merge) + Repeated(FrameCells(e.h, e.w, merge), e.t)
  }

  method VisionPositionIds(grid: seq<Entry>, merge: nat) returns (out: seq<Option<Cell>>)
    requires merge > 0
    ensures out == BatchCells(grid, merge)
  {
    out := [];
    for i := 0 to |grid|
      invariant out == BatchCells(grid[..i], merge)
    {
      var e := grid[i];
      var ids := new Option<Cell>[e.h * e.w](_ => None);
      FrameIds(e.h, e.w, merge, ids);
      var frame := ids[..];
      assert frame == FrameCells(e.h, e.w, merge);
      assert grid[..i + 1][..i] == grid[..i];
      var copies := Copies(frame, e.t);
      out := out + copies;
    }
    assert grid[..|grid|] == grid;
  }

  method Copies<T>(x: seq<T>, t: nat) returns (r: seq<T>)
    ensures r == Repeated(x, t)
  {
    r := [];
    for i := 0 to t
      invariant r == Repeated(x, i)
    {
      r := r + x;
    }
  }

  // ---- the pixels of a patch -------------------------------------------------

  /** Where component `(c, t, y, x)` of a patch sits in its row. */
  function PatchSlot(c: nat, t: nat, y: nat, x: nat, temporal: nat, patch: nat): nat {
    ((c * temporal + t) * patch + y) * patch + x
  }

  datatype Image = Image(channels: nat, height: nat, width: nat, pixel: (nat, nat, nat) -> real)

  function RowWidth(image: Image, temporal: nat, patch: nat): nat {
    image.channels * temporal * patch * patch
  }

  /** What slot `s` of the patch at `cell` has to hold. */
  function PixelOfSlot(image: Image, cell: Cell, s: nat, temporal: nat, patch: nat): real
    requires temporal > 0 && patch > 0
  {
    var x := Split(s, temporal, patch, patch);
    image.pixel(x.a, cell.row * patch + x.c, cell.column * patch + x.d)
  }

  ghost predicate RowFilled(out: array2<real>, p: nat, n: nat, image: Image, cell: Cell, temporal: nat, patch: nat)
    requires p < out.Length0 && n <= out.Length1 && patch > 0
    reads out
  {
    forall s | 0 <= s < n :: temporal > 0 && out[p, s] == PixelOfSlot(image, cell, s, temporal, patch)
  }

  twostate predicate OnlyRow(out: array2<real>, p: nat)
    reads out
  {
    forall i, s | 0 <= i < out.Length0 && 0 <= s < out.Length1 && i != p :: out[i, s] == old(out[i, s])
  }

  lemma SlotOfLoops(image: Image, cell: Cell, c: nat, t: nat, y: nat, x: nat, temporal: nat, patch: nat)
    requires t < temporal && y < patch && x < patch
    ensures PixelOfSlot(image, cell, PatchSlot(c, t, y, x, temporal, patch), temporal, patch) ==
            image.pixel(c, cell.row * patch + y, cell.column * patch + x)
    ensures c < image.channels ==> PatchSlot(c, t, y, x, temporal, patch) < RowWidth(image, temporal, patch)
  {
    SplitOfJoin(Digits(c, t, y, x), temporal, patch, patch);
    TopDigit(Digits(c, t, y, x), image.channels, temporal, patch, patch);
  }

  /** The four inner loops: one patch into its row. Slots are written in increasing order. */
  method FillPatch(image: Image, out: array2<real>, p: nat, cell: Cell, temporal: nat, patch: nat)
    requires patch > 0 && p < out.Length0 && out.Length1 == RowWidth(image, temporal, patch)
    modifies out
    ensures RowFilled(out, p, out.Length1, image, cell, temporal, patch) && OnlyRow(out, p)
  {
    NextSlots(image, 0, 0, 0, temporal, patch);
    for c := 0 to image.channels
      invariant PatchSlot(c, 0, 0, 0, temporal, patch) <= out.Length1
      invariant RowFilled(out, p, PatchSlot(c, 0, 0, 0, temporal, patch), image, cell, temporal, patch) &&
                OnlyRow(out, p)
    {
      NextSlots(image, c, 0, 0, temporal, patch);
      for t := 0 to temporal
        invariant PatchSlot(c, t, 0, 0, temporal, patch) <= out.Length1
        invariant RowFilled(out, p, PatchSlot(c, t, 0, 0, temporal, patch), image, cell, temporal, patch) &&
                  OnlyRow(out, p)
      {
        NextSlots(image, c, t, 0, temporal, patch);
        for y := 0 to patch
          invariant PatchSlot(c, t, y, 0, temporal, patch) <= out.Length1
          invariant RowFilled(out, p, PatchSlot(c, t, y, 0, temporal, patch), image, cell, temporal, patch) &&
                    OnlyRow(out, p)
        {
          NextSlots(image, c, t, y, temporal, patch);
          FillLine(image, out, p, cell, c, t, y, temporal, patch);
        }
      }
    }
  }

  /** Counting the inner loops to their ends reaches the next value of the outer one, and never
      passes the end of the row. */
  lemma NextSlots(image: Image, c: nat, t: nat, y: nat, temporal: nat, patch: nat)
    ensures PatchSlot(c, t, y, patch, temporal, patch) == PatchSlot(c, t, y + 1, 0, temporal, patch)
    ensures PatchSlot(c, t, patch, 0, temporal, patch) == PatchSlot(c, t + 1, 0, 0, temporal, patch)
    ensures PatchSlot(c, temporal, 0, 0, temporal, patch) == PatchSlot(c + 1, 0, 0, 0, temporal, patch)
    ensures PatchSlot(image.channels, 0, 0, 0, temporal, patch) == RowWidth(image, temporal, patch)
    ensures PatchSlot(0, 0, 0, 0, temporal, patch) == 0
    ensures t < temporal && y < patch && c < image.channels ==>
              PatchSlot(c, t, y + 1, 0, temporal, patch) <= RowWidth(image, temporal, patch)
    ensures t < temporal && c < image.channels ==>
            PatchSlot(c, t + 1, 0, 0, temporal, patch) <= RowWidth(image, temporal, patch)
    ensures c < image.channels ==> PatchSlot(c + 1, 0, 0, 0, temporal, patch) <= RowWidth(image, temporal, patch)
  {
    CarryInto(c * temporal + t, y, patch);
    CarryInto(c * temporal + t, patch, patch);
    assert (c + 1) * temporal == c * temporal + temporal;
    if c < image.channels {
      MulMono(c + 1, image.channels, temporal);
      ScaleTwice((c + 1) * temporal, image.channels * temporal, patch);
      if t < temporal {
        Flat(c, image.channels, t, temporal);
        ScaleTwice(c * temporal + t + 1, image.channels * temporal, patch);
        if y < patch {
          MulMono((c * temporal + t) * patch + y + 1, (c * temporal + t + 1) * patch, patch);
        }
      }
    }
  }

  lemma CarryInto(a: nat, y: nat, patch: nat)
    ensures (a * patch + y) * patch + patch == (a * patch + (y + 1)) * patch
    ensures (a + 1) * patch == a * patch + patch
  {
  }

  lemma ScaleTwice(a: nat, b: nat, patch: nat)
    requires a <= b
    ensures a * patch * patch <= b * patch * patch
  {
    MulMono(a, b, patch);
    MulMono(a * patch, b * patch, patch);
  }

  method FillLine(image: Image, out: array2<real>, p: nat, cell: Cell, c: nat, t: nat, y: nat, temporal: nat,
                  patch: nat)
    requires patch > 0 && p < out.Length0 && out.Length1 == RowWidth(image, temporal, patch)
    requires c < image.channels && t < temporal && y < patch &&
             PatchSlot(c, t, y + 1, 0, temporal, patch) <= out.Length1
    requires PatchSlot(c, t, y, 0, temporal, patch) <= out.Length1
    requires RowFilled(out, p, PatchSlot(c, t, y, 0, temporal, patch), image, cell, temporal, patch)
    modifies out
    ensures RowFilled(out, p, PatchSlot(c, t, y + 1, 0, temporal, patch), image, cell, temporal, patch) &&
            OnlyRow(out, p)
  {
    NextSlots(image, c, t, y, temporal, patch);
    var from := PatchSlot(c, t, y, 0, temporal, patch);
    for x := 0 to patch
      invariant from + x <= out.Length1 && RowFilled(out, p, from + x, image, cell, temporal, patch) && OnlyRow(out, p)
    {
      hide PixelOfSlot;
      SlotOfLoops(image, cell, c, t, y, x, temporal, patch);
      out[p, PatchSlot(c, t, y, x, temporal, patch)] := image.pixel(c, cell.row * patch + y, cell.column * patch + x);
    }
  }

  ghost predicate Patchified(image: Image, patch: nat, merge: nat, temporal: nat, out: array2<real>, n: nat)
    requires patch > 0 && merge > 0 && n <= out.Length0
    reads out
  {
    forall p | 0 <= p < n ::
      image.width / patch / merge > 0 &&
      RowFilled(out, p, out.Length1, image, Decode(p, image.width / patch, merge), temporal, patch)
  }

  /** When the source raises: a division by zero, or the index of a pixel past the grid. */
  predicate Raises(image: Image, patch: nat, merge: nat, temporal: nat) {
    patch == 0 ||
    var gh, gw := image.height / patch, image.width / patch;
    gh * gw > 0 && (merge == 0 || gw / merge == 0 ||
                    (image.channels > 0 && temporal > 0 && !Decodable(gh, gw, merge)))
  }

  /** `None` is what raising leaves. An image has no pixel past its sides: the patch of a cell outside the
      grid raises at the first pixel it lacks, if it has pixels at all. */
  method Patchify(image: Image, patch: nat, merge: nat, temporal: nat)
    returns (r: Option<array2<real>>, gh: nat, gw: nat)
    ensures r.None? <==> Raises(image, patch, merge, temporal)
    ensures r.Some? ==> patch > 0 && gh == image.height / patch && gw == image.width / patch
    ensures r.Some? ==>
              fresh(r.value) && r.value.Length0 == gh * gw && r.value.Length1 == RowWidth(image, temporal, patch)
    ensures r.Some? && gh * gw > 0 ==> merge > 0 && Patchified(image, patch, merge, temporal, r.value, gh * gw)
  {
    if patch == 0 {
      return None, 0, 0; // division by zero
    }
    gh, gw := image.height / patch, image.width / patch;
    var out := new real[gh * gw, RowWidth(image, temporal, patch)]((i, j) => 0.0);
    if gh * gw > 0 && (merge == 0 || gw / merge == 0) {
      return None, gh, gw; // division by zero
    }
    for p := 0 to gh * gw
      invariant gh * gw > 0 ==> merge > 0 && Patchified(image, patch, merge, temporal, out, p)
      invariant image.channels > 0 && temporal > 0 ==>
                  forall q | 0 <= q < p :: Decode(q, gw, merge).row < gh && Decode(q, gw, merge).column < gw
    {
      var cell := Decode(p, gw, merge);
      if image.channels > 0 && temporal > 0 && (cell.row >= gh || cell.column >= gw) {
        if Decodable(gh, gw, merge) {
          EncodeOfDecode(p, gh, gw, merge);
        }
        return None, gh, gw; // index out of range
      }
      FillPatch(image, out, p, cell, temporal, patch);
    }
    if gh * gw > 0 && image.channels > 0 && temporal > 0 && !Decodable(gh, gw, merge) {
      Unflat(0, gh, gw);
      FirstCellBelow(gh, gw, merge);
      assert false;
    }
    return Some(out), gh, gw;
  }

  /** Every pixel the grid covers is recovered, through `PatchSlot`, from every temporal slot of the
      patch that shows it. */
  lemma EveryPixelIsRecovered(image: Image, gh: nat, gw: nat, patch: nat, merge: nat, temporal: nat, out: array2<real>,
                              c: nat, row: nat, column: nat, t: nat, p: nat, s: nat)
    requires patch > 0 && gh == image.height / patch && gw == image.width / patch && Decodable(gh, gw, merge)
    requires out.Length0 == gh * gw && out.Length1 == RowWidth(image, temporal, patch)
    requires Patchified(image, patch, merge, temporal, out, out.Length0)
    requires c < image.channels && t < temporal && row < gh * patch && column < gw * patch
    requires p == Encode(Cell(row / patch, column / patch), gw, merge)
    requires s == PatchSlot(c, t, row % patch, column % patch, temporal, patch)
    ensures p < out.Length0 && s < out.Length1 && out[p, s] == image.pixel(c, row, column)
  {
    hide Decode, Encode, PatchSlot, PixelOfSlot, RowWidth, Decodable;
    Unflat(row, gh, patch);
    Unflat(column, gw, patch);
    var cell := Cell(row / patch, column / patch);
    DecodeOfEncode(cell, gh, gw, merge);
    SlotOfLoops(image, cell, c, t, row % patch, column % patch, temporal, patch);
  }

  /** Every slot is some component's: the layout wastes nothing and repeats nothing. */
  lemma SlotsAreABijection(s: nat, channels: nat, temporal: nat, patch: nat)
    requires s < channels * temporal * patch * patch
    ensures temporal > 0 && patch > 0
    ensures var x := Split(s, temporal, patch, patch);
            x.a < channels && x.b < temporal && x.c < patch && x.d < patch &&
            PatchSlot(x.a, x.b, x.c, x.d, temporal, patch) == s
  {
    Unflat(s, channels * temporal * patch, patch);
    var x := Split(s, temporal, patch, patch);
    JoinOfSplit(s, temporal, patch, patch);
    TopDigit(x, channels, temporal, patch, patch);
  }
}
