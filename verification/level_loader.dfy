/**
 `loadLevel` as the Android loader writes it: read the width and height, allocate
 `new int[w][h]`, fill it with the width index in the outer loop and the height
 index in the inner loop, one `readInt` per cell. It is proved to agree with
 the pure reading `LevelMap.LoadLevel` on every asset.
 */
module LevelLoader {
  import opened Int32Codec
  import opened Optional
  import opened LevelMap

  /** The rows of a filled `w` by `h` array, as the grid `loadLevel` returns. */
  function Rows(a: array2<Int32>): (g: seq<seq<Int32>>)
    reads a
    ensures Shaped(g, a.Length0, a.Length1)
    ensures forall x, y :: 0 <= x < a.Length0 && 0 <= y < a.Length1 ==> g[x][y] == a[x, y]
  {
    seq(a.Length0, x requires 0 <= x < a.Length0 reads a =>
      seq(a.Length1, y requires 0 <= y < a.Length1 reads a => a[x, y]))
  }

  /** The inner loop for row `x`: one `readInt` per cell `level[x, y]`, in
      order of `y`. On success every cell of the row holds the int at its
      offset and the other rows are untouched; `ok` is false exactly when the
      stream ends inside the row. */
  method ReadRowInto(level: array2<Int32>, s: seq<Byte>, x: nat, pos: nat) returns (ok: bool, next: nat)
    requires x < level.Length0
    requires pos == CellOffset(8, level.Length1, x, 0) <= |s|
    modifies level
    ensures ok <==> pos + 4 * level.Length1 <= |s|
    ensures ok ==> next == CellOffset(8, level.Length1, x + 1, 0) <= |s|
    ensures ok ==> forall j :: 0 <= j < level.Length1 ==> IntAt(s, CellOffset(8, level.Length1, x, j), level[x, j])
    ensures forall i, j :: 0 <= i < level.Length0 && i != x && 0 <= j < level.Length1 ==> level[i, j] == old(level[i, j])
  {
    var h := level.Length1;
    next := pos;
    var y := 0;
    while y < h
      invariant 0 <= y <= h
      invariant next == CellOffset(8, h, x, y) <= |s|
      invariant forall j :: 0 <= j < y ==> IntAt(s, CellOffset(8, h, x, j), level[x, j])
      invariant forall i, j :: 0 <= i < level.Length0 && i != x && 0 <= j < h ==> level[i, j] == old(level[i, j])
    {
      if |s| < next + 4 {
        return false, next;  // EOFException reading cell [x][y]
      }
      level[x, y] := DecodeInt32(s[next..next + 4]);
      next := next + 4;
      y := y + 1;
    }
    return true, next;
  }

  /** `loadLevel` with the asset manager's answer for `level.map` passed in:
      the same outcome as the pure reading, including `null` on end of stream
      and the uncaught `NegativeArraySizeException`. */
  method LoadLevelInPlace(asset: Option<seq<Byte>>) returns (r: Level)
    ensures r == LoadLevel(asset)
  {
    if asset.None? {
      return Null;  // FileNotFoundException
    }
    var s := asset.value;
    var pos := 0;
    if |s| < pos + 4 {
      return Null;  // EOFException reading the width
    }
    var w := DecodeInt32(s[pos..pos + 4]);
    pos := pos + 4;
    if |s| < pos + 4 {
      return Null;  // EOFException reading the height
    }
    var h := DecodeInt32(s[pos..pos + 4]);
    pos := pos + 4;
    if w < 0 || h < 0 {
      return NegativeArraySize;
    }
    var level := new Int32[w, h];
    var x := 0;
    while x < w
      invariant 0 <= x <= w
      invariant pos == CellOffset(8, h, x, 0) <= |s|
      invariant forall i, j :: 0 <= i < x && 0 <= j < h ==> IntAt(s, CellOffset(8, h, i, j), level[i, j])
    {
      var ok;
      ok, pos := ReadRowInto(level, s, x, pos);
      if !ok {
        CellIndexBound(x, h - 1, w, h);
        return Null;  // EOFException inside row x
      }
      x := x + 1;
    }
    var g := Rows(level);
    GridDeterminedByCells(s, 8, g, ParseLevel(s).grid, w, h);
    return Loaded(g);
  }
}
