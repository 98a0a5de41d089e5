# Level-map loading of the Android resource loader, in Dafny

The Android backend's `ResourceLoader.loadLevel` opens the asset `level.map`
and reads it through a `DataInputStream`:

- the width `w`, then the height `h`, each a Java `int` (four bytes, high-order
  byte first, two's complement);
- then `new int[w][h]` is allocated;
- it is filled with `w * h` further ints. The width index `x` is the outer loop
  and the height index `y` the inner one, so `map[x][y]` is int number
  `2 + x * h + y` of the stream.

A missing asset (`FileNotFoundException`) and a stream that ends early
(`EOFException`) both make it return `null`. A negative dimension makes
`new int[w][h]` throw `NegativeArraySizeException`. That is not an
`IOException`, so it leaves the loader. Bytes after the last cell are never
decoded.

The project has six modules. `Optional` (`optional.dfy`) holds the option
type used for a missing asset and for a read that hits end of stream. The
other five are:

- `Int32Codec` (`int32.dfy`) covers Java's `int` on the wire. `DecodeInt32` is
  `readInt` and `EncodeInt32` is `writeInt`. They are proved to be inverse
  bijections.
- `LevelMap` (`level_map.dfy`) holds the outcome type
  `Level = Loaded(grid) | Null | NegativeArraySize` and the reads `loadLevel`
  performs: `ReadInt`, `ReadRow` (the inner loop), `ReadGrid` (the outer loop)
  and `ReadHeader`. It also holds `ParseLevel` (the loader on the bytes of the
  asset) and `LoadLevel` (the loader on the asset manager's answer, `None`
  when the asset is missing). The contracts say which outcome each stream
  gets, decided by its header and its length alone. They also say that cell
  `[x][y]` holds the int at byte `8 + 4 * (x * h + y)`.
- `LevelWriter` (`level_writer.dfy`) is the writer side of the format,
  `Serialize`. It is the independent definition the loader is proved
  against.
- `LevelProperties` (`level_properties.dfy`) holds the properties that relate
  several calls:
  - a cell is stream int `2 + x * h + y`;
  - trailing bytes are ignored;
  - a cut-off stream gives `null`;
  - serialising then loading gives the grid back;
  - loading then serialising gives back the bytes the loader consumed, that
    is, the stream up to the last byte of its last cell.
- `LevelLoader` (`level_loader.dfy`) is the loader as the Java code writes it.
  It allocates a `w` by `h` array and fills it in two nested loops, one
  `readInt` per cell; the inner loop is the method `ReadRowInto`. It is
  proved to give the same outcome as `LoadLevel` on every asset.

Bytes are integers in `[0, 256)`. A Java `int` is an integer in
`[-2^31, 2^31)`.

A negative width or height is not turned into `null`. Java checks every
dimension of `new int[w][h]` before it allocates anything (section 15.10.2 of
the Java Language Specification). So `NegativeArraySizeException` leaves the
loader, even when `w == 0` and `h < 0`. The model keeps that outcome distinct
from `null`.

The outer index of the map is the width index, and each `map[x]` holds `h`
cells read one after the other.

## Model

| member | source | states |
|---|---|---|
| `Int32Codec.DecodeInt32` | backends/android/ResourceLoader.java:54-55 | `readInt` yields a Java `int` that agrees with the big-endian unsigned reading of its four bytes modulo 2^32, and is negative exactly when the top bit of the first byte is set |
| `Int32Codec.EncodeInt32` | backends/android/ResourceLoader.java:58 | for every Java `int` there are four bytes that `readInt` reads as that value |
| `Int32Codec.EncodeDecode` | backends/android/ResourceLoader.java:58 | every four-byte group is the encoding of the int it is read as, so `readInt` loses nothing |
| `LevelMap.ReadInt` | backends/android/ResourceLoader.java:54 | one `readInt` succeeds exactly when four bytes remain, otherwise end of stream |
| `LevelMap.ReadIntBytes` | backends/android/ResourceLoader.java:54 | a successful `readInt` consumes exactly the four bytes that encode the value it returns |
| `LevelMap.ReadRow` | backends/android/ResourceLoader.java:57-59 | the inner loop reads `h` ints when `4 * h` bytes remain and hits end of stream otherwise |
| `LevelMap.ReadRowCells` | backends/android/ResourceLoader.java:57-59 | int `y` of a row read at byte `pos` is the int at byte `pos + 4 * y` |
| `LevelMap.ReadGrid` | backends/android/ResourceLoader.java:57-59 | the nested loops read `w` rows of `h` ints when `4 * w * h` bytes remain and hit end of stream otherwise |
| `LevelMap.ReadGridCells` | backends/android/ResourceLoader.java:57-59 | cell `[x][y]` of the grid read is the int at the offset of cell `x * h + y` |
| `LevelMap.ReadHeader` | backends/android/ResourceLoader.java:54-55 | the header is present exactly when the stream holds eight bytes, and it is the width then the height |
| `LevelMap.CellCountIsProduct` | backends/android/ResourceLoader.java:57 | the nested loops read exactly `w * h` cells |
| `LevelMap.FootprintIsProduct` | backends/android/ResourceLoader.java:54-58 | a map of `w` by `h` cells takes `8 + 4 * w * h` bytes: two header ints and one int per cell |
| `LevelMap.ParseLevel` | backends/android/ResourceLoader.java:54-60 | the exception is thrown exactly when the header is complete and a dimension is negative; a grid is returned exactly when the stream holds the header and all announced cells; `null` in every other case; a grid has `w` rows of `h` cells, each the int at its position in the stream |
| `LevelMap.LoadLevel` | backends/android/ResourceLoader.java:50-68 | a missing asset gives `null`; a grid is returned exactly when the asset is present and complete; on a present asset the outcome is that of `LevelMap.ParseLevel` on its bytes; the exception needs a present asset with a full header |
| `LevelLoader.LoadLevelInPlace` | backends/android/ResourceLoader.java:50-68 | the allocate-then-fill nested loops give the same outcome as `LevelMap.LoadLevel` on every asset, with `null` on end of stream inside the loops |
| `LevelLoader.ReadRowInto` | backends/android/ResourceLoader.java:57-59 | the inner loop fills row `x` with the ints at the row's offsets and leaves the other rows alone, and fails exactly when the stream ends inside the row |
| `LevelWriter.EncodeRowCells` | backends/android/ResourceLoader.java:57-58 | int `y` of an encoded row is the row's `y`-th value |
| `LevelWriter.EncodeCellsCells` | backends/android/ResourceLoader.java:57-58 | each cell of an encoded grid sits where the loader's loops read it |
| `LevelWriter.Serialize` | backends/android/ResourceLoader.java:54-58 | the bytes written for a grid have the loader's footprint, a header with the grid's dimensions, and every cell where the loader reads it |
| `LevelProperties.CellIsStreamInt` | backends/android/ResourceLoader.java:57-58 | `map[x][y]` is int number `2 + x * h + y` of the stream |
| `LevelProperties.TrailingBytesIgnored` | backends/android/ResourceLoader.java:57-60 | once a grid or the exception is decided, appending bytes changes nothing |
| `LevelProperties.TruncatedStreamIsNull` | backends/android/ResourceLoader.java:65-66 | cutting a loadable stream anywhere before the last byte of its last cell, even inside an int or the header, gives `null` and never a partial grid |
| `LevelProperties.ParseSerialize` | backends/android/ResourceLoader.java:54-60 | loading the serialisation of any grid whose dimensions fit in an `int` gives that grid back |
| `LevelProperties.RowBytes` | backends/android/ResourceLoader.java:57-59 | the bytes the inner loop consumes are exactly the encoding of the row it reads |
| `LevelProperties.GridBytes` | backends/android/ResourceLoader.java:57-59 | the bytes the nested loops consume are exactly the encoding of the rows they read |
| `LevelProperties.SerializeParse` | backends/android/ResourceLoader.java:54-60 | the bytes the loader consumed are exactly the serialisation of the grid it returned |
| `LevelProperties.LoadsAsGrid` | backends/android/ResourceLoader.java:54-60 | conversely, a complete stream whose cells hold the ints of a grid of its announced shape loads as exactly that grid |
| `LevelProperties.TwoByTwoExample` | backends/android/ResourceLoader.java:54-67 | the stream `2, 2, 1, 2, 3, 4` loads as `[[1, 2], [3, 4]]`, and one byte short it loads as `null` |

## Left out

- `loadImage`, `loadSound` and `loadMusic` (backends/android/ResourceLoader.java:25-47) are left out. `loadImage` and `loadSound` open `filename + ".png"` and `filename + ".wav"`, hand the asset to Android's bitmap and sound decoders, and return `null` on `IOException`. `loadMusic` ignores its argument, opens no file and always returns `new AndroidMusic(context)`.
- The web sound wrapper (backends/gwt/WebSound.java) is left out. When the browser supports audio, its constructor adds an `Audio` widget to the global `RootPanel` and points it at `filename + ".wav"` with automatic preloading. `play` rewinds to the start and plays, and does nothing when audio is unsupported. All of this is browser DOM work with nothing to compute.
- The asset manager and the stream are not modelled. The asset is passed in as `None` (missing) or as its bytes. A read error other than end of stream is not modelled, and neither is the stream the loader never closes.
- Running out of memory is not modelled. A large `w * h` can make `new int[w][h]` fail with `OutOfMemoryError` before any cell is read; the model allocates whatever the header announces.
- The loaded grid is not a Java array: `LevelLoader.LoadLevelInPlace` returns the filled array as a sequence of rows (`Rows`), not as a Java `int[][]` whose rows a caller could later change.
- The writer, `LevelWriter.Serialize`, has no counterpart in the source. It is the format's writer, used only as the loader's partner in the round-trip properties.
