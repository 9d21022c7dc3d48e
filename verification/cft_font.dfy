/**
 * The glyph codec of `CftConverter`. A `.cft` font is a table of 256 glyph
 * widths followed by the glyphs' bytes; byte k of a glyph is its column k
 * and bit r of that byte (least significant first) its row r.
 * `ConvertToPng` draws glyph i into cell (i / 16, i % 16) of a 16x16 sheet;
 * `ConvertToCfg` reads each cell's 6 columns of 8 pixels back, black as a
 * set bit and white as a clear one, and narrows the glyph by one byte for
 * every column that holds neither.
 */
module CftFont {
  import opened Base

  const NumChars: int := 256
  const GridSide: int := 16
  const WidthPerChar: int := 6
  const HeightPerChar: int := 8
  const Offset: int := 12
  const BaseStart: int := 13
  const ImgWidth: int := 220
  const ImgHeight: int := 220

  /** What the codec tells apart on the sheet: black, white, and any other colour. */
  datatype Pixel = BlackPixel | WhitePixel | OtherPixel

  /** One column of a cell, top to bottom. */
  type Column = seq<Pixel>

  /** A glyph cell: its columns, left to right. */
  type Cell = seq<Column>

  /** The sheet's 16 rows of 16 cells in row-major order: cell k is row k / 16, column k % 16. */
  type Sheet = seq<Cell>

  predicate ValidCell(c: Cell)
  {
    |c| == WidthPerChar && forall k | 0 <= k < WidthPerChar :: |c[k]| == HeightPerChar
  }

  predicate ValidSheet(s: Sheet)
  {
    |s| == NumChars && forall k | 0 <= k < NumChars :: ValidCell(s[k])
  }

  datatype CftError =
    | TruncatedWidths                                        // `ReadByte` past the end of the width table
    | OutsideImage(glyph: int)                               // a glyph's columns run past the image's right edge
    | InvalidColumn(row: int, col: int, x: int, count: int)  // a cell column only partly black and white

  // ---------------------------------------------------------------------
  // The file layout
  // ---------------------------------------------------------------------

  function Min(a: int, b: int): int
  {
    if a <= b then a else b
  }

  /** The glyph loop of `ConvertToPng`: glyph i takes the next `widths[i]` bytes, or what is left. */
  function ReadGlyphs(widths: seq<byte>, data: seq<byte>): (r: seq<seq<byte>>)
    ensures |r| == |widths|
    ensures forall i | 0 <= i < |r| :: |r[i]| <= widths[i]
  {
    if |widths| == 0 then []
    else
      var n := Min(widths[0], |data|);
      var rest := ReadGlyphs(widths[1..], data[n..]);
      GlyphsWithin(data[..n], rest, widths);
      [data[..n]] + rest
  }

  /** A glyph within its width, followed by glyphs within theirs. */
  lemma GlyphsWithin(head: seq<byte>, rest: seq<seq<byte>>, widths: seq<byte>)
    requires |widths| == 1 + |rest| && |head| <= widths[0]
    requires forall i | 0 <= i < |rest| :: |rest[i]| <= widths[1..][i]
    ensures forall i | 0 <= i < 1 + |rest| :: |([head] + rest)[i]| <= widths[i]
  {
    forall i | 0 <= i < 1 + |rest|
      ensures |([head] + rest)[i]| <= widths[i]
    {
      if i > 0 {
        assert ([head] + rest)[i] == rest[i - 1] && widths[i] == widths[1..][i - 1];
      }
    }
  }

  /** The width table and the glyphs of a `.cft` file; fewer than 256 bytes fail. */
  function ReadCft(bytes: seq<byte>): (r: Result<seq<seq<byte>>, CftError>)
    ensures r.Ok? <==> |bytes| >= NumChars
    ensures r.Ok? ==> |r.value| == NumChars && forall i | 0 <= i < NumChars :: |r.value[i]| <= bytes[i]
  {
    if |bytes| < NumChars then Err(TruncatedWidths)
    else Ok(ReadGlyphs(bytes[..NumChars], bytes[NumChars..]))
  }

  /** Glyphs that a width byte can describe. */
  predicate ShortGlyphs(glyphs: seq<seq<byte>>)
  {
    forall i | 0 <= i < |glyphs| :: |glyphs[i]| < 256
  }

  /** The width table: `(byte)b.Length` for each glyph. */
  function Widths(glyphs: seq<seq<byte>>): (r: seq<byte>)
    requires ShortGlyphs(glyphs)
    ensures |r| == |glyphs| && forall i | 0 <= i < |glyphs| :: r[i] == |glyphs[i]|
  {
    seq(|glyphs|, i requires 0 <= i < |glyphs| => |glyphs[i]| as byte)
  }

  /** The glyphs' bytes, back to back. */
  function Concat(glyphs: seq<seq<byte>>): seq<byte>
  {
    if |glyphs| == 0 then [] else glyphs[0] + Concat(glyphs[1..])
  }

  /** The file `ConvertToCfg` writes: every width, then every glyph. */
  function WriteCft(glyphs: seq<seq<byte>>): seq<byte>
    requires ShortGlyphs(glyphs)
  {
    Widths(glyphs) + Concat(glyphs)
  }

  /** Reading glyphs laid out back to back recovers them, whatever follows. */
  lemma {:induction false} ReadConcat(glyphs: seq<seq<byte>>, rest: seq<byte>)
    requires ShortGlyphs(glyphs)
    ensures ReadGlyphs(Widths(glyphs), Concat(glyphs) + rest) == glyphs
  {
    if |glyphs| > 0 {
      var data := Concat(glyphs) + rest;
      assert data == glyphs[0] + (Concat(glyphs[1..]) + rest);
      assert data[..|glyphs[0]|] == glyphs[0];
      assert data[|glyphs[0]|..] == Concat(glyphs[1..]) + rest;
      assert Widths(glyphs)[1..] == Widths(glyphs[1..]);
      ReadConcat(glyphs[1..], rest);
    }
  }

  /** Writing 256 glyphs and reading the file back gives the same glyphs. */
  lemma ReadWriteCft(glyphs: seq<seq<byte>>)
    requires |glyphs| == NumChars && ShortGlyphs(glyphs)
    ensures ReadCft(WriteCft(glyphs)) == Ok(glyphs)
  {
    var bytes := WriteCft(glyphs);
    assert bytes[..NumChars] == Widths(glyphs);
    assert bytes[NumChars..] == Concat(glyphs) + [];
    ReadConcat(glyphs, []);
  }

  /** The sum of a width table. */
  function WidthSum(widths: seq<byte>): nat
  {
    if |widths| == 0 then 0 else widths[0] as nat + WidthSum(widths[1..])
  }

  /** When the data holds exactly the widths' sum, every glyph gets its full width and they make up the data. */
  lemma {:induction false} ReadExact(widths: seq<byte>, data: seq<byte>)
    requires |data| == WidthSum(widths)
    ensures var g := ReadGlyphs(widths, data);
      && (forall i | 0 <= i < |widths| :: |g[i]| == widths[i])
      && Concat(g) == data
  {
    if |widths| > 0 {
      var n := widths[0] as int;
      ReadExact(widths[1..], data[n..]);
      var g := ReadGlyphs(widths, data);
      assert g == [data[..n]] + ReadGlyphs(widths[1..], data[n..]);
      assert g[1..] == ReadGlyphs(widths[1..], data[n..]);
      assert data == data[..n] + data[n..];
    }
  }

  // ---------------------------------------------------------------------
  // Bits, columns and cells
  // ---------------------------------------------------------------------

  /** Bit `r` of `b`: `(b >> r) & 1`. */
  function BitOf(b: nat, r: nat): bool
  {
    if r == 0 then b % 2 == 1 else BitOf(b / 2, r - 1)
  }

  /** `new BitArray(bytes)[j]`: bit `j % 8` of byte `j / 8`. */
  function GlyphBit(bytes: seq<byte>, j: nat): bool
    requires j < 8 * |bytes|
  {
    BitOf(bytes[j / 8], j % 8)
  }

  /** `bits[j] ? Black : White`. */
  function Ink(bit: bool): Pixel
  {
    if bit then BlackPixel else WhitePixel
  }

  /** The column drawn for one glyph byte. */
  function ByteColumn(b: byte): (c: Column)
    ensures |c| == HeightPerChar && forall r | 0 <= r < HeightPerChar :: c[r] == Ink(BitOf(b, r))
  {
    seq(HeightPerChar, r requires 0 <= r < HeightPerChar => Ink(BitOf(b, r)))
  }

  /**
   * The cell `ConvertToPng` draws for glyph bytes `bytes`: bit j at column
   * j / 8, row j % 8, for the columns the cell has; columns past the
   * glyph keep the background.
   */
  function DecodeCell(bytes: seq<byte>): (c: Cell)
    ensures ValidCell(c)
    ensures forall k | 0 <= k < |bytes| && k < WidthPerChar :: c[k] == ByteColumn(bytes[k])
    ensures forall k | |bytes| <= k < WidthPerChar :: forall r | 0 <= r < HeightPerChar :: c[k][r] == OtherPixel
  {
    seq(WidthPerChar, k requires 0 <= k < WidthPerChar =>
      if k < |bytes| then ByteColumn(bytes[k]) else seq(HeightPerChar, _ => OtherPixel))
  }

  /** Bit j of the glyph lands at column j / 8, row j % 8 of its cell, when the cell has that column. */
  lemma DrawnBit(bytes: seq<byte>, j: nat)
    requires j < 8 * |bytes| && j / 8 < WidthPerChar
    ensures DecodeCell(bytes)[j / 8][j % 8] == Ink(GlyphBit(bytes, j))
  {
  }

  /** The pixels of a column that are neither black nor white (`countNonBwColors`). */
  function OtherCount(col: Column): (n: nat)
    ensures n <= |col|
    ensures n == 0 <==> forall r | 0 <= r < |col| :: col[r] != OtherPixel
    ensures n == |col| <==> forall r | 0 <= r < |col| :: col[r] == OtherPixel
  {
    if |col| == 0 then 0
    else
      var rest := OtherCount(col[1..]);
      assert forall r | 1 <= r < |col| :: col[r] == col[1..][r - 1];
      (if col[0] == OtherPixel then 1 else 0) + rest
  }

  /** The number a column's bits make once `CopyTo` packs them: black sets the row's bit, the others leave it clear. */
  function ColumnValue(col: Column): nat
  {
    if |col| == 0 then 0 else (if col[0] == BlackPixel then 1 else 0) + 2 * ColumnValue(col[1..])
  }

  function Pow2(n: nat): (p: nat)
    ensures p >= 1
  {
    if n == 0 then 1 else 2 * Pow2(n - 1)
  }

  lemma {:induction false} ColumnValueBound(col: Column)
    ensures ColumnValue(col) < Pow2(|col|)
  {
    if |col| > 0 {
      ColumnValueBound(col[1..]);
    }
  }

  /** The byte `CopyTo` makes of a cell column. */
  function ColumnByte(col: Column): byte
    requires |col| == HeightPerChar
  {
    ColumnValueBound(col);
    ColumnValue(col)
  }

  /** The first `n` bits of `b`, drawn. */
  function InkBits(b: nat, n: nat): (c: Column)
    ensures |c| == n && forall r | 0 <= r < n :: c[r] == Ink(BitOf(b, r))
  {
    seq(n, r requires 0 <= r < n => Ink(BitOf(b, r)))
  }

  /** Packing the drawn bits of a number below 2^n gives the number back. */
  lemma {:induction false} PackDrawnBits(b: nat, n: nat)
    requires b < Pow2(n)
    ensures ColumnValue(InkBits(b, n)) == b
  {
    if n == 0 {
    } else {
      var c := InkBits(b, n);
      assert c[1..] == InkBits(b / 2, n - 1) by {
        forall r | 0 <= r < n - 1
          ensures c[1..][r] == Ink(BitOf(b / 2, r))
        {
          assert BitOf(b, r + 1) == BitOf(b / 2, r);
        }
      }
      PackDrawnBits(b / 2, n - 1);
    }
  }

  /** Byte k of a glyph is its column k, and bit r its row r, in both directions: a drawn byte packs back to itself. */
  lemma ColumnRoundTrip(b: byte)
    ensures OtherCount(ByteColumn(b)) == 0
    ensures ColumnByte(ByteColumn(b)) == b
  {
    assert ByteColumn(b) == InkBits(b, HeightPerChar);
    assert Pow2(HeightPerChar) == 256;
    PackDrawnBits(b, HeightPerChar);
  }

  // ---------------------------------------------------------------------
  // Cell positions
  // ---------------------------------------------------------------------

  /** Where `ConvertToPng` draws bit `j` of glyph `i`: `(x + 1 + j / 8, y + 1 + j % 8)`. */
  function DrawnAt(i: nat, j: nat): (int, int)
  {
    ((i % GridSide + 1) * Offset + 1 + j / 8, (i / GridSide + 1) * Offset + 1 + j % 8)
  }

  /** Where `ConvertToCfg` reads column `dataX`, row `dataY` of cell (row, col). */
  function ReadAt(row: nat, col: nat, dataX: nat, dataY: nat): (int, int)
  {
    (BaseStart + col * Offset + dataX, BaseStart + row * Offset + dataY)
  }

  /**
   * Both directions agree on where a glyph's pixels lie: glyph i's cell is
   * (i / 16, i % 16), and bit j is its column j / 8, row j % 8.
   */
  lemma SameCellOrigin(i: nat, j: nat)
    ensures DrawnAt(i, j) == ReadAt(i / GridSide, i % GridSide, j / 8, j % 8)
  {
  }

  /**
   * The pixels `ConvertToCfg` reads lie inside the image, and no two cells
   * share one: reading the sheet cell by cell is reading the image.
   */
  lemma CellsApart(row1: nat, col1: nat, x1: nat, y1: nat, row2: nat, col2: nat, x2: nat, y2: nat)
    requires row1 < GridSide && col1 < GridSide && x1 < WidthPerChar && y1 < HeightPerChar
    requires row2 < GridSide && col2 < GridSide && x2 < WidthPerChar && y2 < HeightPerChar
    ensures ReadAt(row1, col1, x1, y1).0 < ImgWidth && ReadAt(row1, col1, x1, y1).1 < ImgHeight
    ensures ReadAt(row1, col1, x1, y1) == ReadAt(row2, col2, x2, y2) <==> row1 == row2 && col1 == col2 && x1 == x2 && y1 == y2
  {
    if ReadAt(row1, col1, x1, y1) == ReadAt(row2, col2, x2, y2) {
      CellCoordinate(col1, x1, col2, x2);
      CellCoordinate(row1, y1, row2, y2);
    }
  }

  /** One coordinate of a cell pixel determines the cell and the offset in it. */
  lemma CellCoordinate(a: nat, x: nat, b: nat, y: nat)
    requires x < Offset && y < Offset && a * Offset + x == b * Offset + y
    ensures a == b && x == y
  {
  }

  /**
   * The outline `DrawPolygon` strokes around cell (row, col): the edges of
   * the rectangle from (x, y) to (x + 7, y + 9), where x = (col + 1) * 12
   * and y = (row + 1) * 12.
   */
  predicate OnBorder(row: nat, col: nat, px: int, py: int)
  {
    var x := (col + 1) * Offset;
    var y := (row + 1) * Offset;
    || ((px == x || px == x + 7) && y <= py <= y + 9)
    || ((py == y || py == y + 9) && x <= px <= x + 7)
  }

  /** The top and left margins, where `DrawText` places the hexadecimal labels. */
  predicate InLabelMargin(px: int, py: int)
  {
    px < BaseStart || py < BaseStart
  }

  /** The labels are anchored in the margins: column labels at y = 3, row labels at x = 5. */
  lemma LabelAnchors(i: nat)
    requires i < GridSide
    ensures InLabelMargin((i + 1) * Offset + 2, 3)
    ensures InLabelMargin(5, (i + 1) * Offset + 1)
  {
  }

  /**
   * No pixel `ConvertToCfg` reads lies on any cell's border or in the
   * label margins: the reader sees only the glyph pixels `ConvertToPng`
   * sets, never the decoration drawn around them.
   */
  lemma ReadsMissDecoration(row: nat, col: nat, dataX: nat, dataY: nat, row2: nat, col2: nat)
    requires row < GridSide && col < GridSide && dataX < WidthPerChar && dataY < HeightPerChar
    ensures !OnBorder(row2, col2, ReadAt(row, col, dataX, dataY).0, ReadAt(row, col, dataX, dataY).1)
    ensures !InLabelMargin(ReadAt(row, col, dataX, dataY).0, ReadAt(row, col, dataX, dataY).1)
  {
    var (px, py) := ReadAt(row, col, dataX, dataY);
    OffsetResidue(col + 1, 1 + dataX);
    OffsetResidue(row + 1, 1 + dataY);
    OffsetResidue(col2 + 1, 0);
    OffsetResidue(col2 + 1, 7);
    OffsetResidue(row2 + 1, 0);
    OffsetResidue(row2 + 1, 9);
    assert px == (col + 1) * Offset + 1 + dataX && py == (row + 1) * Offset + 1 + dataY;
  }

  /** A coordinate's offset within its 12-pixel stride. */
  lemma OffsetResidue(a: nat, x: nat)
    requires x < Offset
    ensures (a * Offset + x) % Offset == x
  {
  }

  // ---------------------------------------------------------------------
  // ConvertToPng
  // ---------------------------------------------------------------------

  /** Glyph `i` of `n` bytes stays left of the image's right edge (its last column is `x + n`). */
  predicate FitsImage(i: nat, n: nat)
  {
    n == 0 || (i % GridSide + 1) * Offset + n < ImgWidth
  }

  /** The first glyph from `i` on whose columns run off the image. */
  function FirstOutside(glyphs: seq<seq<byte>>, i: nat): (r: Option<nat>)
    requires i <= |glyphs|
    decreases |glyphs| - i
    ensures r.None? <==> forall k | i <= k < |glyphs| :: FitsImage(k, |glyphs[k]|)
    ensures r.Some? ==> i <= r.value < |glyphs| && !FitsImage(r.value, |glyphs[r.value]|)
  {
    if i == |glyphs| then None
    else if !FitsImage(i, |glyphs[i]|) then Some(i)
    else FirstOutside(glyphs, i + 1)
  }

  /**
   * `ConvertToPng` on the glyph cells: read the widths and glyphs, fail
   * if a glyph's columns run past the image, and draw each glyph in its
   * cell.
   */
  function ConvertToPng(bytes: seq<byte>): (r: Result<Sheet, CftError>)
    ensures r.Ok? <==> ReadCft(bytes).Ok? && forall i | 0 <= i < NumChars :: FitsImage(i, |ReadCft(bytes).value[i]|)
    ensures r.Ok? ==> ValidSheet(r.value)
    ensures r.Ok? ==> forall i | 0 <= i < NumChars :: r.value[i] == DecodeCell(ReadCft(bytes).value[i])
  {
    var glyphs :- ReadCft(bytes);
    match FirstOutside(glyphs, 0)
    case Some(i) => Err(OutsideImage(i))
    case None =>
      Ok(seq(NumChars, i requires 0 <= i < NumChars => DecodeCell(glyphs[i])))
  }

  // ---------------------------------------------------------------------
  // ConvertToCfg
  // ---------------------------------------------------------------------

  /** A column that is all black and white, or holds neither. */
  predicate WellFormedColumn(col: Column)
  {
    OtherCount(col) == 0 || OtherCount(col) == HeightPerChar
  }

  /** How many columns hold no black or white pixel. */
  function BlankColumns(cols: seq<Column>): nat
  {
    if |cols| == 0 then 0 else (if OtherCount(cols[0]) == HeightPerChar then 1 else 0) + BlankColumns(cols[1..])
  }

  lemma {:induction false} BlankColumnsBound(cols: seq<Column>)
    ensures BlankColumns(cols) <= |cols|
  {
    if |cols| > 0 {
      BlankColumnsBound(cols[1..]);
    }
  }

  /**
   * The `dataX` loop from column `k` on: the number of blank columns
   * after it, failing on the first column only partly black and white.
   */
  function BlankFrom(cell: Cell, row: nat, col: nat, k: nat): (r: Result<nat, CftError>)
    requires ValidCell(cell) && k <= WidthPerChar
    decreases WidthPerChar - k
    ensures r.Ok? <==> forall x | k <= x < WidthPerChar :: WellFormedColumn(cell[x])
    ensures r.Ok? ==> r.value == BlankColumns(cell[k..])
    ensures r.Err? ==> exists x | k <= x < WidthPerChar :: r.error == InvalidColumn(row, col, BaseStart + col * Offset + x, OtherCount(cell[x]))
  {
    if k == WidthPerChar then Ok(0)
    else
      var n := OtherCount(cell[k]);
      assert cell[k..][1..] == cell[k + 1..];
      if n == 0 then BlankFrom(cell, row, col, k + 1)
      else if n == HeightPerChar then
        var rest :- BlankFrom(cell, row, col, k + 1);
        Ok(rest + 1)
      else Err(InvalidColumn(row, col, BaseStart + col * Offset + k, n))
  }

  /**
   * One cell of `ConvertToCfg`: it encodes iff every column is all black
   * and white or holds neither; byte k is column k's bits, and the glyph
   * is narrowed by one byte per blank column, dropping its last bytes
   * whichever columns were blank.
   */
  function EncodeCell(cell: Cell, row: nat, col: nat): (r: Result<seq<byte>, CftError>)
    requires ValidCell(cell)
    ensures r.Ok? <==> forall x | 0 <= x < WidthPerChar :: WellFormedColumn(cell[x])
    ensures r.Ok? ==> |r.value| == WidthPerChar - BlankColumns(cell)
    ensures r.Ok? ==> forall k | 0 <= k < |r.value| :: r.value[k] == ColumnByte(cell[k])
  {
    var blank :- BlankFrom(cell, row, col, 0);
    assert cell[0..] == cell;
    BlankColumnsBound(cell);
    var bytes := seq(WidthPerChar, k requires 0 <= k < WidthPerChar => ColumnByte(cell[k]));
    Ok(bytes[..WidthPerChar - blank])
  }

  /** The glyph bytes of cell `k`, or the error its columns raise. */
  function GlyphOf(sheet: Sheet, k: nat): (r: Result<seq<byte>, CftError>)
    requires ValidSheet(sheet) && k < NumChars
    ensures r.Ok? <==> WellFormedCell(sheet, k)
    ensures r.Ok? ==> |r.value| <= WidthPerChar
  {
    EncodeCell(sheet[k], k / GridSide, k % GridSide)
  }

  /** Every column of cell `k` is all black and white or holds neither. */
  predicate WellFormedCell(sheet: Sheet, k: nat)
    requires ValidSheet(sheet) && k < NumChars
  {
    forall x | 0 <= x < WidthPerChar :: WellFormedColumn(sheet[k][x])
  }

  lemma GlyphsWellFormed(sheet: Sheet)
    requires ValidSheet(sheet) && forall k | 0 <= k < NumChars :: GlyphOf(sheet, k).Ok?
    ensures forall k | 0 <= k < NumChars :: WellFormedCell(sheet, k)
  {
    forall k | 0 <= k < NumChars
      ensures WellFormedCell(sheet, k)
    {
      assert GlyphOf(sheet, k).Ok?;
    }
  }

  /** The cells' glyphs in order, or the first cell's error. */
  function Collect(rs: seq<Result<seq<byte>, CftError>>): (r: Result<seq<seq<byte>>, CftError>)
    ensures r.Ok? <==> forall k | 0 <= k < |rs| :: rs[k].Ok?
    ensures r.Ok? ==> |r.value| == |rs| && forall k | 0 <= k < |rs| :: rs[k] == Ok(r.value[k])
    ensures r.Err? ==> exists k | 0 <= k < |rs| :: rs[k] == Err(r.error) && forall j | 0 <= j < k :: rs[j].Ok?
  {
    if |rs| == 0 then Ok([])
    else if rs[0].Err? then Err(rs[0].error)
    else
      var rest := Collect(rs[1..]);
      if rest.Err? then
        ghost var k :| 0 <= k < |rs[1..]| && rs[1..][k] == Err(rest.error) && forall j | 0 <= j < k :: rs[1..][j].Ok?;
        assert rs[k + 1] == Err(rest.error) && forall j | 0 <= j < k + 1 :: rs[j].Ok?;
        Err(rest.error)
      else
        assert forall k | 1 <= k < |rs| :: rs[k] == rs[1..][k - 1];
        Ok([rs[0].value] + rest.value)
  }

  /** The glyph results of all cells, in row-major order. */
  function SheetGlyphs(sheet: Sheet): (rs: seq<Result<seq<byte>, CftError>>)
    requires ValidSheet(sheet)
    ensures |rs| == NumChars && forall k | 0 <= k < NumChars :: rs[k] == GlyphOf(sheet, k)
  {
    seq(NumChars, k requires 0 <= k < NumChars => GlyphOf(sheet, k))
  }

  /**
   * `ConvertToCfg` on the glyph cells: encode every cell row by row, then
   * write the widths and the glyphs; the first ill-formed column fails it all.
   */
  function ConvertToCfg(sheet: Sheet): (r: Result<seq<byte>, CftError>)
    requires ValidSheet(sheet)
    ensures r.Ok? <==> forall k | 0 <= k < NumChars :: WellFormedCell(sheet, k)
    ensures r.Ok? ==> var glyphs := Collect(SheetGlyphs(sheet)).value;
      && |glyphs| == NumChars && ShortGlyphs(glyphs)
      && r.value == WriteCft(glyphs)
      && forall k | 0 <= k < NumChars :: GlyphOf(sheet, k) == Ok(glyphs[k])
    ensures r.Err? ==> exists k | 0 <= k < NumChars :: GlyphOf(sheet, k) == Err(r.error)
  {
    var rs := SheetGlyphs(sheet);
    var glyphs := Collect(rs);
    if glyphs.Err? then
      ghost var k :| 0 <= k < |rs| && rs[k] == Err(glyphs.error) && forall j | 0 <= j < k :: rs[j].Ok?;
      assert !WellFormedCell(sheet, k);
      Err(glyphs.error)
    else
      assert forall k | 0 <= k < NumChars :: GlyphOf(sheet, k).Ok? && |glyphs.value[k]| <= WidthPerChar;
      GlyphsWellFormed(sheet);
      Ok(WriteCft(glyphs.value))
  }

  // ---------------------------------------------------------------------
  // What the two directions promise together
  // ---------------------------------------------------------------------

  /** A glyph no wider than a cell is drawn and read back unchanged. */
  lemma CellRoundTrip(bytes: seq<byte>, row: nat, col: nat)
    requires |bytes| <= WidthPerChar
    ensures EncodeCell(DecodeCell(bytes), row, col) == Ok(bytes)
  {
    var cell := DecodeCell(bytes);
    forall k | 0 <= k < |bytes|
      ensures OtherCount(cell[k]) == 0 && ColumnByte(cell[k]) == bytes[k]
    {
      assert cell[k] == ByteColumn(bytes[k]);
      ColumnRoundTrip(bytes[k]);
    }
    BlankTail(cell, |bytes|);
    assert forall x | 0 <= x < WidthPerChar :: WellFormedColumn(cell[x]);
    var r := EncodeCell(cell, row, col);
    assert |r.value| == |bytes|;
    assert forall k | 0 <= k < |bytes| :: r.value[k] == bytes[k];
    assert r.value == bytes;
  }

  /** A cell whose first `n` columns are black and white and the rest blank has `6 - n` blank columns. */
  lemma BlankTail(cell: Cell, n: nat)
    requires ValidCell(cell) && n <= WidthPerChar
    requires forall k | 0 <= k < n :: OtherCount(cell[k]) == 0
    requires forall k | n <= k < WidthPerChar :: forall r | 0 <= r < HeightPerChar :: cell[k][r] == OtherPixel
    ensures BlankColumns(cell) == WidthPerChar - n
  {
    BlankSuffix(cell, n, 0);
  }

  lemma {:induction false} BlankSuffix(cell: Cell, n: nat, k: nat)
    requires ValidCell(cell) && n <= WidthPerChar && k <= WidthPerChar
    requires forall x | 0 <= x < n :: OtherCount(cell[x]) == 0
    requires forall x | n <= x < WidthPerChar :: forall r | 0 <= r < HeightPerChar :: cell[x][r] == OtherPixel
    decreases WidthPerChar - k
    ensures BlankColumns(cell[k..]) == WidthPerChar - (if k < n then n else k)
  {
    if k < WidthPerChar {
      assert cell[k..][1..] == cell[k + 1..];
      BlankSuffix(cell, n, k + 1);
      if k >= n {
        assert OtherCount(cell[k]) == HeightPerChar;
      }
    }
  }

  /** A sheet of glyphs no wider than a cell reads back as the file of those glyphs. */
  lemma SheetRoundTrip(glyphs: seq<seq<byte>>)
    requires |glyphs| == NumChars && forall i | 0 <= i < NumChars :: |glyphs[i]| <= WidthPerChar
    ensures ShortGlyphs(glyphs)
    ensures ConvertToCfg(seq(NumChars, i requires 0 <= i < NumChars => DecodeCell(glyphs[i]))) == Ok(WriteCft(glyphs))
  {
    var sheet := seq(NumChars, i requires 0 <= i < NumChars => DecodeCell(glyphs[i]));
    forall k | 0 <= k < NumChars
      ensures GlyphOf(sheet, k) == Ok(glyphs[k])
    {
      CellRoundTrip(glyphs[k], k / GridSide, k % GridSide);
    }
    var encoded := Collect(SheetGlyphs(sheet));
    assert encoded.Ok?;
    assert encoded.value == glyphs;
  }

  /**
   * Drawing a well-formed font whose glyphs are at most 6 columns wide and
   * reading the sheet back gives the same bytes.
   */
  lemma FontRoundTrip(bytes: seq<byte>)
    requires |bytes| >= NumChars
    requires forall i | 0 <= i < NumChars :: bytes[i] <= WidthPerChar
    requires |bytes| == NumChars + WidthSum(bytes[..NumChars])
    ensures ConvertToPng(bytes).Ok?
    ensures ConvertToCfg(ConvertToPng(bytes).value) == Ok(bytes)
  {
    var widths := bytes[..NumChars];
    var data := bytes[NumChars..];
    ReadExact(widths, data);
    var glyphs := ReadCft(bytes).value;
    assert glyphs == ReadGlyphs(widths, data);
    assert forall i | 0 <= i < NumChars :: FitsImage(i, |glyphs[i]|);
    assert ConvertToPng(bytes).value == seq(NumChars, i requires 0 <= i < NumChars => DecodeCell(glyphs[i]));
    SheetRoundTrip(glyphs);
    assert Widths(glyphs) == widths;
    assert bytes == widths + data;
  }

  /**
   * Narrowing drops trailing bytes, not the blank column: a cell whose
   * first column is blank and whose others are black encodes as five
   * bytes, the blank column's 0 first, and draws back as a white first
   * column and a blank last one.
   */
  lemma BlankFirstColumn(row: nat, col: nat)
    ensures var blank := seq(HeightPerChar, _ => OtherPixel);
      var black := seq(HeightPerChar, _ => BlackPixel);
      var white := seq(HeightPerChar, _ => WhitePixel);
      && EncodeCell([blank, black, black, black, black, black], row, col) == Ok([0, 255, 255, 255, 255])
      && DecodeCell([0, 255, 255, 255, 255]) == [white, black, black, black, black, blank]
  {
    var blank := seq(HeightPerChar, _ => OtherPixel);
    var black := seq(HeightPerChar, _ => BlackPixel);
    var white := seq(HeightPerChar, _ => WhitePixel);
    var cell := [blank, black, black, black, black, black];
    ZeroColumn(blank);
    assert Pow2(HeightPerChar) == 256;
    AllOnes(255, HeightPerChar);
    assert ByteColumn(255) == black;
    ColumnRoundTrip(255);
    forall r | 0 <= r < HeightPerChar
      ensures !BitOf(0, r)
    {
      ZeroBits(r);
    }
    assert ByteColumn(0) == white;
    assert OtherCount(blank) == HeightPerChar && OtherCount(black) == 0;
    NoBlanks(cell[1..]);
    assert BlankColumns(cell) == 1;
    var r := EncodeCell(cell, row, col);
    assert forall x | 0 <= x < WidthPerChar :: WellFormedColumn(cell[x]);
    assert |r.value| == 5;
    assert r.value == [0, 255, 255, 255, 255];
    var d := DecodeCell([0, 255, 255, 255, 255]);
    assert d == [white, black, black, black, black, blank];
  }

  /** Columns each all black and white make no blank column. */
  lemma {:induction false} NoBlanks(cols: seq<Column>)
    requires forall k | 0 <= k < |cols| :: OtherCount(cols[k]) == 0 && |cols[k]| == HeightPerChar
    ensures BlankColumns(cols) == 0
  {
    if |cols| > 0 {
      NoBlanks(cols[1..]);
    }
  }

  /** A column with no black pixel packs to 0. */
  lemma {:induction false} ZeroColumn(col: Column)
    requires forall r | 0 <= r < |col| :: col[r] != BlackPixel
    ensures ColumnValue(col) == 0
  {
    if |col| > 0 {
      ZeroColumn(col[1..]);
    }
  }

  lemma {:induction false} ZeroBits(r: nat)
    ensures !BitOf(0, r)
  {
    if r > 0 {
      ZeroBits(r - 1);
    }
  }

  /** Every bit below `n` of 2^n - 1 is set. */
  lemma {:induction false} AllOnes(b: nat, n: nat)
    requires b + 1 == Pow2(n)
    ensures forall r | 0 <= r < n :: BitOf(b, r)
  {
    if n > 0 {
      AllOnes(b / 2, n - 1);
      forall r | 0 <= r < n
        ensures BitOf(b, r)
      {
        if r > 0 {
          assert BitOf(b, r) == BitOf(b / 2, r - 1);
        }
      }
    }
  }
}
