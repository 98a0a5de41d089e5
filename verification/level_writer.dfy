/**
 The writer side of the `level.map` format: width, height, then every cell
 with the width index outermost, each as a big-endian int (what a
 `DataOutputStream.writeInt` per value would produce). It is the inverse the
 loader is proved against.
 */
module LevelWriter {
  import opened Int32Codec
  import opened LevelMap

  /** One row: its cells one after the other. */
  function EncodeRow(row: seq<Int32>): (bs: seq<Byte>)
    ensures |bs| == 4 * |row|
  {
    if |row| == 0 then [] else EncodeInt32(row[0]) + EncodeRow(row[1..])
  }

  /** Int `y` of an encoded row is `row[y]`. */
  lemma {:induction false} EncodeRowCells(row: seq<Int32>)
    ensures RowFrom(EncodeRow(row), 0, row)
  {
    if |row| > 0 {
      var head := EncodeInt32(row[0]);
      var tail := EncodeRow(row[1..]);
      EncodeRowCells(row[1..]);
      forall y | 0 <= y < |row|
        ensures IntAt(head + tail, 0 + 4 * y, row[y])
      {
        if y == 0 {
          assert (head + tail)[0..4] == head;
        } else {
          assert IntAt(tail, 0 + 4 * (y - 1), row[1..][y - 1]);
          IntAtAppend(head, tail, 4 * (y - 1), row[y]);
        }
      }
    }
  }

  /** All rows of a grid with `h` cells per row, the first row first. */
  function EncodeCells(g: seq<seq<Int32>>, h: nat): (bs: seq<Byte>)
    requires Shaped(g, |g|, h)
    ensures |bs| == 4 * CellCount(|g|, h)
  {
    if |g| == 0 then [] else EncodeRow(g[0]) + EncodeCells(g[1..], h)
  }

  /** Cell `[x][y]` of an encoded grid is `g[x][y]`. */
  lemma {:induction false} EncodeCellsCells(g: seq<seq<Int32>>, h: nat)
    requires Shaped(g, |g|, h)
    ensures CellsFrom(EncodeCells(g, h), 0, g, |g|, h)
  {
    if |g| > 0 {
      EncodeRowCells(g[0]);
      EncodeCellsCells(g[1..], h);
      RowThenRows(EncodeRow(g[0]), EncodeCells(g[1..], h), g, h);
    }
  }

  /** The whole `level.map` for a grid with `|g|` rows of `h` cells. The header
      holds Java ints, so both dimensions must fit in one. */
  function Serialize(g: seq<seq<Int32>>, h: nat): (bs: seq<Byte>)
    requires Shaped(g, |g|, h)
    requires |g| < 0x8000_0000 && h < 0x8000_0000
    ensures |bs| == Footprint(|g|, h)
    ensures 8 <= |bs| && Width(bs) == |g| && Height(bs) == h
    ensures CellsFrom(bs, 8, g, |g|, h)
  {
    var header := EncodeInt32(|g|) + EncodeInt32(h);
    var cells := EncodeCells(g, h);
    EncodeCellsCells(g, h);
    HeaderFields(|g|, h, cells);
    CellsFromAppend(header, cells, 0, g, |g|, h);
    header + cells
  }

  /** The two header ints read back as the width and height they encode,
      whatever follows them. */
  lemma HeaderFields(w: Int32, h: Int32, rest: seq<Byte>)
    ensures var bs := EncodeInt32(w) + EncodeInt32(h) + rest;
      8 <= |bs| && Width(bs) == w && Height(bs) == h
  {
    var bs := EncodeInt32(w) + EncodeInt32(h) + rest;
    assert bs[0..4] == EncodeInt32(w);
    assert bs[4..8] == EncodeInt32(h);
  }
}
