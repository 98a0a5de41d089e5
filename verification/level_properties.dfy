/**
 What `loadLevel` promises its callers, stated over the pure model: where
 every cell comes from, that trailing bytes are ignored, that a cut-off
 stream never yields a grid, that writing then reading a grid gives it
 back, and that reading then writing gives back the bytes the loader consumed.
 */
module LevelProperties {
  import opened Int32Codec
  import opened Optional
  import opened LevelMap
  import opened LevelWriter

  /** Int number `k` of the stream (bytes `4k` to `4k + 3`). */
  function StreamInt(s: seq<Byte>, k: nat): Int32
    requires 4 * k + 4 <= |s|
  {
    DecodeInt32(s[4 * k..4 * k + 4])
  }

  /** `map[x][y]` is int number `k = 2 + x * h + y` of the stream: the width
      index is outer and the height index inner, after the two header ints. */
  lemma CellIsStreamInt(s: seq<Byte>, x: nat, y: nat, k: nat)
    requires ParseLevel(s).Loaded?
    requires x < Width(s) && y < Height(s)
    requires k == 2 + x * Height(s) + y
    ensures 4 * k + 4 <= |s|
    ensures ParseLevel(s).grid[x][y] == StreamInt(s, k)
  {
    var h := Height(s);
    CellIndexBound(x, y, Width(s), h);
    CellCountIsProduct(x, h);
    assert IntAt(s, CellOffset(8, h, x, y), ParseLevel(s).grid[x][y]);
  }

  /** Bytes after the ones the loader reads change nothing: once the outcome is
      decided (a grid, or the exception), any suffix gives the same outcome. */
  lemma TrailingBytesIgnored(s: seq<Byte>, t: seq<Byte>)
    requires !ParseLevel(s).Null?
    ensures ParseLevel(s + t) == ParseLevel(s)
  {
    var st := s + t;
    assert st[0..4] == s[0..4];
    assert st[4..8] == s[4..8];
    if ParseLevel(s).Loaded? {
      var w, h := Width(s), Height(s);
      var g := ParseLevel(s).grid;
      forall x, y | 0 <= x < w && 0 <= y < h
        ensures IntAt(st, CellOffset(8, h, x, y), g[x][y])
      {
        IntAtAppend(s, t, CellOffset(8, h, x, y), g[x][y]);
      }
      GridDeterminedByCells(st, 8, ParseLevel(st).grid, g, w, h);
    }
  }

  /** Cutting a loadable stream anywhere before its last cell's final byte,
      in the header or part-way through an int, gives `null`, never part of a grid. */
  lemma TruncatedStreamIsNull(s: seq<Byte>, k: nat)
    requires ParseLevel(s).Loaded?
    requires k < Footprint(Width(s), Height(s))
    ensures ParseLevel(s[..k]) == Null
  {
    if 8 <= k {
      assert s[..k][0..4] == s[0..4];
      assert s[..k][4..8] == s[4..8];
    }
  }

  /** Round trip: serialising a grid and loading the bytes gives the grid back. */
  lemma ParseSerialize(g: seq<seq<Int32>>, h: nat)
    requires Shaped(g, |g|, h)
    requires |g| < 0x8000_0000 && h < 0x8000_0000
    ensures ParseLevel(Serialize(g, h)) == Loaded(g)
    ensures LoadLevel(Some(Serialize(g, h))) == Loaded(g)
  {
    var bs := Serialize(g, h);
    GridDeterminedByCells(bs, 8, ParseLevel(bs).grid, g, |g|, h);
  }

  /** The bytes the inner loop consumes are the encoding of the row it reads. */
  lemma {:induction false} RowBytes(s: seq<Byte>, pos: nat, h: nat, row: seq<Int32>)
    requires pos <= |s| && ReadRow(s, pos, h) == Some(row)
    ensures pos + 4 * h <= |s|
    ensures s[pos..pos + 4 * h] == EncodeRow(row)
    decreases h
  {
    if h > 0 {
      var v := ReadInt(s, pos).value;
      var rest := ReadRow(s, pos + 4, h - 1).value;
      assert row == [v] + rest;
      ReadIntBytes(s, pos);
      RowBytes(s, pos + 4, h - 1, rest);
      JoinBytes(s, pos, pos + 4, pos + 4 * h, EncodeInt32(v), EncodeRow(rest));
      assert row[1..] == rest;
    }
  }

  /** The bytes the outer loop consumes are the encoding of the rows it reads. */
  lemma {:induction false} GridBytes(s: seq<Byte>, pos: nat, w: nat, h: nat, g: seq<seq<Int32>>)
    requires pos <= |s| && ReadGrid(s, pos, w, h) == Some(g)
    ensures Shaped(g, |g|, h)
    ensures pos + 4 * CellCount(w, h) <= |s|
    ensures s[pos..pos + 4 * CellCount(w, h)] == EncodeCells(g, h)
    decreases w, 1
  {
    if w > 0 {
      FirstRowThenGridBytes(s, pos, w, h, g);
    }
  }

  /** The step of `GridBytes`: the first row's bytes, then the bytes of the
      remaining rows. It is a lemma of its own, mutually recursive with
      `GridBytes`, only to keep each proof small enough for the solver. */
  lemma {:induction false} FirstRowThenGridBytes(s: seq<Byte>, pos: nat, w: nat, h: nat, g: seq<seq<Int32>>)
    requires w > 0 && pos <= |s| && ReadGrid(s, pos, w, h) == Some(g)
    ensures Shaped(g, |g|, h)
    ensures s[pos..pos + 4 * CellCount(w, h)] == EncodeCells(g, h)
    decreases w, 0
  {
    var row := ReadRow(s, pos, h).value;
    var rest := ReadGrid(s, pos + 4 * h, w - 1, h).value;
    assert g == [row] + rest;
    RowBytes(s, pos, h, row);
    GridBytes(s, pos + 4 * h, w - 1, h, rest);
    JoinBytes(s, pos, pos + 4 * h, pos + 4 * CellCount(w, h), EncodeRow(row), EncodeCells(rest, h));
    assert g[0] == row && g[1..] == rest;
  }

  /** Round trip the other way: the bytes the loader consumed are exactly the
      serialisation of the grid it returned, with the stream's own height. */
  lemma SerializeParse(s: seq<Byte>)
    requires ParseLevel(s).Loaded?
    ensures Serialize(ParseLevel(s).grid, Height(s)) == s[..Footprint(Width(s), Height(s))]
  {
    var w, h := Width(s), Height(s);
    var n := Footprint(w, h);
    GridBytes(s, 8, w, h, ParseLevel(s).grid);
    EncodeDecode(s[0..4]);
    EncodeDecode(s[4..8]);
    assert s[..n] == s[0..4] + s[4..8] + s[8..n];
  }

  /** The int at byte `p` is the reading of the four bytes there. */
  lemma IntAtIndices(s: seq<Byte>, p: nat)
    requires p + 4 <= |s|
    ensures IntAt(s, p, DecodeInt32([s[p], s[p + 1], s[p + 2], s[p + 3]]))
  {
    assert s[p..p + 4] == [s[p], s[p + 1], s[p + 2], s[p + 3]];
  }

  /** The converse of `ParseLevel`'s contract: a complete stream whose cells
      hold the ints of a grid of its shape loads as that grid. */
  lemma LoadsAsGrid(s: seq<Byte>, g: seq<seq<Int32>>)
    requires Complete(s)
    requires Shaped(g, Width(s), Height(s)) && CellsFrom(s, 8, g, Width(s), Height(s))
    ensures ParseLevel(s) == Loaded(g)
  {
    GridDeterminedByCells(s, 8, ParseLevel(s).grid, g, Width(s), Height(s));
  }

  /** A two-by-two map: width 2, height 2, then the ints 1, 2, 3, 4. */
  const TwoByTwo: seq<Byte> :=
    [0, 0, 0, 2, 0, 0, 0, 2, 0, 0, 0, 1, 0, 0, 0, 2, 0, 0, 0, 3, 0, 0, 0, 4]

  /** The header of `TwoByTwo` announces two rows of two cells, all present. */
  lemma TwoByTwoHeader()
    ensures Complete(TwoByTwo) && Width(TwoByTwo) == 2 && Height(TwoByTwo) == 2
  {
    var s := TwoByTwo;
    assert |s| == 24;
    IntAtIndices(s, 0);
    IntAtIndices(s, 4);
    assert Width(s) == 2 && Height(s) == 2;
    assert Footprint(2, 2) == 24;
  }

  /** The cells of `TwoByTwo`, read off its bytes. */
  lemma TwoByTwoCells()
    ensures CellsFrom(TwoByTwo, 8, [[1, 2], [3, 4]], 2, 2)
  {
    var s := TwoByTwo;
    var g: seq<seq<Int32>> := [[1, 2], [3, 4]];
    assert |s| == 24;
    forall x, y | 0 <= x < 2 && 0 <= y < 2
      ensures IntAt(s, CellOffset(8, 2, x, y), g[x][y])
    {
      var p := CellOffset(8, 2, x, y);
      assert p == 8 + 8 * x + 4 * y;
      IntAtIndices(s, p);
    }
  }

  /** The stream `2, 2, 1, 2, 3, 4` loads as `map[0] == {1, 2}` and
      `map[1] == {3, 4}`; one byte short of its last int, it loads as `null`. */
  lemma TwoByTwoExample()
    ensures ParseLevel(TwoByTwo) == Loaded([[1, 2], [3, 4]])
    ensures ParseLevel(TwoByTwo[..23]) == Null
  {
    TwoByTwoHeader();
    TwoByTwoCells();
    LoadsAsGrid(TwoByTwo, [[1, 2], [3, 4]]);
    TruncatedStreamIsNull(TwoByTwo, 23);
  }
}
