/**
 The level map of the Android backend's resource loader (`loadLevel`).

 The asset `level.map` is read through a `DataInputStream` as a sequence of
 Java ints: the width `w`, the height `h`, then `w * h` cells, the width index
 `x` in the outer loop and the height index `y` in the inner loop, so that
 `map[x][y]` is int number `2 + x * h + y` of the stream. Running out of bytes
 anywhere (`EOFException`) or a missing asset makes the loader return `null`;
 a negative dimension makes `new int[w][h]` throw `NegativeArraySizeException`,
 which the loader does not catch.
 */
module LevelMap {
  import opened Int32Codec
  import opened Optional

  /** What `loadLevel` ends with. */
  datatype Level =
    | Loaded(grid: seq<seq<Int32>>)   // the filled `int[w][h]` is returned
    | Null                            // `null` is returned
    | NegativeArraySize               // `new int[w][h]` throws out of the loader

  // ---------------------------------------------------------------------------
  // Where things sit in the stream

  /** The int starting at byte `p` of `s` is `v`. */
  ghost predicate IntAt(s: seq<Byte>, p: nat, v: Int32) {
    p + 4 <= |s| && DecodeInt32(s[p..p + 4]) == v
  }

  /** Every int of `row` is read in turn starting at byte `pos`. */
  ghost predicate RowFrom(s: seq<Byte>, pos: nat, row: seq<Int32>) {
    forall y :: 0 <= y < |row| ==> IntAt(s, pos + 4 * y, row[y])
  }

  /** `g` has `w` outer entries, each holding `h` cells: the shape of `new int[w][h]`. */
  ghost predicate Shaped(g: seq<seq<Int32>>, w: nat, h: nat) {
    |g| == w && forall x :: 0 <= x < w ==> |g[x]| == h
  }

  /** Number of cells in the first `x` rows of a map whose rows hold `h` cells,
      counted row by row as the loader reads them. */
  function CellCount(x: nat, h: nat): nat {
    if x == 0 then 0 else h + CellCount(x - 1, h)
  }

  /** Byte offset of cell `[x][y]` in a cell area starting at byte `pos`. */
  function CellOffset(pos: nat, h: nat, x: nat, y: nat): nat {
    pos + 4 * (CellCount(x, h) + y)
  }

  /** `g[x][y]` is the int at `CellOffset(pos, h, x, y)` for every cell. */
  ghost predicate CellsFrom(s: seq<Byte>, pos: nat, g: seq<seq<Int32>>, w: nat, h: nat)
    requires Shaped(g, w, h)
  {
    forall x, y :: 0 <= x < w && 0 <= y < h ==> IntAt(s, CellOffset(pos, h, x, y), g[x][y])
  }

  /** Bytes taken by a map of `w` by `h` cells, header included. */
  function Footprint(w: nat, h: nat): nat {
    8 + 4 * CellCount(w, h)
  }

  /** `CellCount` is the product of its arguments, so a map takes
      `8 + 4 * w * h` bytes. */
  lemma {:induction false} CellCountIsProduct(x: nat, h: nat)
    ensures CellCount(x, h) == x * h
  {
    if x > 0 {
      CellCountIsProduct(x - 1, h);
      assert x * h == h + (x - 1) * h;
    }
  }

  /** A map of `w` by `h` cells takes two header ints and one int per cell. */
  lemma FootprintIsProduct(w: nat, h: nat)
    ensures Footprint(w, h) == 8 + 4 * w * h
  {
    CellCountIsProduct(w, h);
  }

  /** Cell `[x][y]` of a cell area at `pos` is cell `[x - 1][y]` of the area one
      row further on. */
  lemma NextRowOffset(pos: nat, h: nat, x: nat, y: nat)
    requires x > 0
    ensures CellOffset(pos, h, x, y) == CellOffset(pos + 4 * h, h, x - 1, y)
  {
  }

  /** A first row and the remaining rows read in turn make up the cells of
      the whole grid. */
  lemma CellsJoin(s: seq<Byte>, pos: nat, g: seq<seq<Int32>>, w: nat, h: nat)
    requires w > 0 && Shaped(g, w, h)
    requires RowFrom(s, pos, g[0])
    requires CellsFrom(s, pos + 4 * h, g[1..], w - 1, h)
    ensures CellsFrom(s, pos, g, w, h)
  {
    forall x, y | 0 <= x < w && 0 <= y < h
      ensures IntAt(s, CellOffset(pos, h, x, y), g[x][y])
    {
      if x == 0 {
        assert IntAt(s, pos + 4 * y, g[0][y]);
      } else {
        NextRowOffset(pos, h, x, y);
        assert IntAt(s, CellOffset(pos + 4 * h, h, x - 1, y), g[1..][x - 1][y]);
      }
    }
  }

  /** An int read from `b` is read the same from `a + b`, `|a|` bytes further on,
      and an int read from `a` is read the same from `a + b`. */
  lemma IntAtAppend(a: seq<Byte>, b: seq<Byte>, p: nat, v: Int32)
    ensures IntAt(b, p, v) ==> IntAt(a + b, |a| + p, v)
    ensures IntAt(a, p, v) ==> IntAt(a + b, p, v)
  {
    if IntAt(b, p, v) {
      assert (a + b)[|a| + p..|a| + p + 4] == b[p..p + 4];
    }
    if IntAt(a, p, v) {
      assert (a + b)[p..p + 4] == a[p..p + 4];
    }
  }

  /** A cell area read from `b` is read the same from `a + b`, `|a|` bytes further on. */
  lemma CellsFromAppend(a: seq<Byte>, b: seq<Byte>, pos: nat, g: seq<seq<Int32>>, w: nat, h: nat)
    requires Shaped(g, w, h) && CellsFrom(b, pos, g, w, h)
    ensures CellsFrom(a + b, |a| + pos, g, w, h)
  {
    forall x, y | 0 <= x < w && 0 <= y < h
      ensures IntAt(a + b, CellOffset(|a| + pos, h, x, y), g[x][y])
    {
      IntAtAppend(a, b, CellOffset(pos, h, x, y), g[x][y]);
    }
  }

  /** The bytes of the first row followed by the bytes of the remaining rows
      hold the cells of the whole grid. */
  lemma RowThenRows(head: seq<Byte>, tail: seq<Byte>, g: seq<seq<Int32>>, h: nat)
    requires |g| > 0 && Shaped(g, |g|, h)
    requires |head| == 4 * h && RowFrom(head, 0, g[0])
    requires CellsFrom(tail, 0, g[1..], |g| - 1, h)
    ensures CellsFrom(head + tail, 0, g, |g|, h)
  {
    var bs := head + tail;
    forall y | 0 <= y < h
      ensures IntAt(bs, 0 + 4 * y, g[0][y])
    {
      assert IntAt(head, 0 + 4 * y, g[0][y]);
      IntAtAppend(head, tail, 4 * y, g[0][y]);
    }
    CellsFromAppend(head, tail, 0, g[1..], |g| - 1, h);
    CellsJoin(bs, 0, g, |g|, h);
  }

  /** Two adjacent slices holding `a` and `b` make a slice holding `a + b`. */
  lemma JoinBytes(s: seq<Byte>, i: nat, j: nat, k: nat, a: seq<Byte>, b: seq<Byte>)
    requires i <= j <= k <= |s|
    requires s[i..j] == a && s[j..k] == b
    ensures s[i..k] == a + b
  {
    assert s[i..k] == s[i..j] + s[j..k];
  }

  /** A grid is fixed by its shape and by the ints its cells are read from. */
  lemma GridDeterminedByCells(s: seq<Byte>, pos: nat, g1: seq<seq<Int32>>, g2: seq<seq<Int32>>, w: nat, h: nat)
    requires Shaped(g1, w, h) && CellsFrom(s, pos, g1, w, h)
    requires Shaped(g2, w, h) && CellsFrom(s, pos, g2, w, h)
    ensures g1 == g2
  {
    forall x | 0 <= x < w
      ensures g1[x] == g2[x]
    {
      forall y | 0 <= y < h
        ensures g1[x][y] == g2[x][y]
      {
        assert IntAt(s, CellOffset(pos, h, x, y), g1[x][y]);
        assert IntAt(s, CellOffset(pos, h, x, y), g2[x][y]);
      }
    }
  }

  /** Every cell index lies inside the cell area. */
  lemma {:induction false} CellIndexBound(x: nat, y: nat, w: nat, h: nat)
    requires x < w && y < h
    ensures CellCount(x, h) + y < CellCount(w, h)
  {
    if x + 1 < w {
      CellIndexBound(x, y, w - 1, h);
    }
  }

  // ---------------------------------------------------------------------------
  // The reads `loadLevel` performs

  /** One `readInt` at byte `pos`: end of stream unless four bytes remain. */
  function ReadInt(s: seq<Byte>, pos: nat): (r: Option<Int32>)
    ensures r.Some? <==> pos + 4 <= |s|
  {
    if pos + 4 <= |s| then Some(DecodeInt32(s[pos..pos + 4])) else None
  }

  /** A successful `readInt` consumes exactly the four bytes that encode the
      value it returns. */
  lemma ReadIntBytes(s: seq<Byte>, pos: nat)
    requires ReadInt(s, pos).Some?
    ensures IntAt(s, pos, ReadInt(s, pos).value)
    ensures s[pos..pos + 4] == EncodeInt32(ReadInt(s, pos).value)
  {
    EncodeDecode(s[pos..pos + 4]);
  }

  /** The inner loop: `h` successive `readInt`s starting at byte `pos`;
      `None` when the stream ends before the last of them. */
  function ReadRow(s: seq<Byte>, pos: nat, h: nat): (r: Option<seq<Int32>>)
    requires pos <= |s|
    ensures r.Some? <==> pos + 4 * h <= |s|
    ensures r.Some? ==> |r.value| == h
    decreases h
  {
    if h == 0 then Some([])
    else
      match ReadInt(s, pos)
      case None => None
      case Some(v) =>
        match ReadRow(s, pos + 4, h - 1)
        case None => None
        case Some(rest) => Some([v] + rest)
  }

  /** Int `y` of a row read at `pos` is the int at byte `pos + 4 * y`. */
  lemma {:induction false} ReadRowCells(s: seq<Byte>, pos: nat, h: nat)
    requires pos <= |s| && ReadRow(s, pos, h).Some?
    ensures RowFrom(s, pos, ReadRow(s, pos, h).value)
    decreases h
  {
    if h > 0 {
      var v := ReadInt(s, pos).value;
      var rest := ReadRow(s, pos + 4, h - 1).value;
      ReadRowCells(s, pos + 4, h - 1);
      EncodeDecode(s[pos..pos + 4]);
      forall y | 0 <= y < h
        ensures IntAt(s, pos + 4 * y, ([v] + rest)[y])
      {
        if y > 0 {
          assert IntAt(s, (pos + 4) + 4 * (y - 1), rest[y - 1]);
        }
      }
    }
  }

  /** The outer loop: `w` rows of `h` ints each, starting at byte `pos`;
      `None` when the stream ends before the last cell. */
  function ReadGrid(s: seq<Byte>, pos: nat, w: nat, h: nat): (r: Option<seq<seq<Int32>>>)
    requires pos <= |s|
    ensures r.Some? <==> pos + 4 * CellCount(w, h) <= |s|
    ensures r.Some? ==> Shaped(r.value, w, h)
    decreases w
  {
    if w == 0 then Some([])
    else
      match ReadRow(s, pos, h)
      case None => None
      case Some(row) =>
        match ReadGrid(s, pos + 4 * h, w - 1, h)
        case None => None
        case Some(rest) => Some([row] + rest)
  }

  /** Cell `[x][y]` of a grid read at `pos` is the int at `CellOffset(pos, h, x, y)`. */
  lemma {:induction false} ReadGridCells(s: seq<Byte>, pos: nat, w: nat, h: nat)
    requires pos <= |s| && ReadGrid(s, pos, w, h).Some?
    ensures CellsFrom(s, pos, ReadGrid(s, pos, w, h).value, w, h)
    decreases w
  {
    if w > 0 {
      var g := ReadGrid(s, pos, w, h).value;
      var rest := ReadGrid(s, pos + 4 * h, w - 1, h).value;
      ReadRowCells(s, pos, h);
      ReadGridCells(s, pos + 4 * h, w - 1, h);
      assert g[0] == ReadRow(s, pos, h).value && g[1..] == rest;
      CellsJoin(s, pos, g, w, h);
    }
  }

  /** Width of a stream that holds a header: its first int. */
  function Width(s: seq<Byte>): Int32
    requires 8 <= |s|
  {
    DecodeInt32(s[0..4])
  }

  /** Height of a stream that holds a header: its second int. */
  function Height(s: seq<Byte>): Int32
    requires 8 <= |s|
  {
    DecodeInt32(s[4..8])
  }

  /** The header: width then height, or `None` when the stream ends first. */
  function ReadHeader(s: seq<Byte>): (r: Option<(Int32, Int32)>)
    ensures r.Some? <==> 8 <= |s|
    ensures r.Some? ==> r.value == (Width(s), Height(s))
  {
    match ReadInt(s, 0)
    case None => None
    case Some(w) =>
      match ReadInt(s, 4)
      case None => None
      case Some(h) => Some((w, h))
  }

  /** The bytes are a header with non-negative dimensions followed by at least
      the cells it announces. */
  ghost predicate Complete(s: seq<Byte>) {
    && 8 <= |s|
    && Width(s) >= 0
    && Height(s) >= 0
    && Footprint(Width(s), Height(s)) <= |s|
  }

  // ---------------------------------------------------------------------------
  // `loadLevel`

  /** `loadLevel` on the bytes of `level.map`: the outcome is decided by the
      header and the length alone, and a grid holds the ints of the stream.
      `Footprint(w, h)` is `8 + 4 * w * h` (`FootprintIsProduct`). */
  function ParseLevel(s: seq<Byte>): (r: Level)
    ensures r.NegativeArraySize? <==> 8 <= |s| && (Width(s) < 0 || Height(s) < 0)
    ensures r.Loaded? <==> Complete(s)
    ensures r.Null? <==> |s| < 8 || (Width(s) >= 0 && Height(s) >= 0 && |s| < Footprint(Width(s), Height(s)))
    ensures r.Loaded? ==>
      Shaped(r.grid, Width(s), Height(s)) && CellsFrom(s, 8, r.grid, Width(s), Height(s))
  {
    match ReadHeader(s)
    case None => Null
    case Some((w, h)) =>
      if w < 0 || h < 0 then NegativeArraySize
      else
        match ReadGrid(s, 8, w, h)
        case None => Null
        case Some(g) =>
          ReadGridCells(s, 8, w, h);
          Loaded(g)
  }

  /** `loadLevel` on the asset manager's answer for `level.map`, `None` when
      the asset is missing (`FileNotFoundException`). */
  function LoadLevel(asset: Option<seq<Byte>>): (r: Level)
    ensures asset.None? ==> r.Null?
    ensures asset.Some? ==> r == ParseLevel(asset.value)
    ensures r.Loaded? <==> asset.Some? && Complete(asset.value)
    ensures r.NegativeArraySize? ==> asset.Some? && 8 <= |asset.value|
  {
    match asset
    case None => Null
    case Some(s) => ParseLevel(s)
  }
}
