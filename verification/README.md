# cge-tools converters in Dafny

A model of the format core of `cge-tools`, the asset converters for the
games of the CGE engine (Soltys, Sfinx):

- **VBM raster codec.** A `.vbm` file has the following parts:
  - a header of four little-endian 16-bit words: the palette flag, the data length, the width and the height;
  - an optional 256-entry palette in 6-bit DAC form;
  - a command stream per plane. The four interleaved planes cover a 320x200 virtual canvas. Each plane holds SKIP, REPEAT and COPY words (a 2-bit tag over a 14-bit count) and ends with an end word;
  - a per-row visibility table.

  The model covers the decoder (`VbmFile.ToImage`), the reader (`VbmReader.Read`) and the encoder (`ToVbmConverter`).
- **Palette and colour helpers.** The model covers:
  - the 256-entry `Palette` and its `.act` file;
  - the DAC conversions of `Utils`;
  - the `.mct` side file, which records which palette index each decoded colour came from.
- **Soltys repair.** `SoltysSystemColors.Modify` restores the "system" colours 198..255 of a palette that left them black.
- **Batch rules of `VbmConverter`.** The model covers:
  - which palette a file is decoded with;
  - the non-unique colour warning;
  - the `.mct` file saved next to each PNG and read back by `ToVbm`;
  - palette extraction.
- **CFT font codec (`CftConverter`).** A `.cft` file is 256 glyph widths followed by the glyph bytes. Each byte is one 8-pixel column, least significant bit at the top. The model draws the glyphs into a 16x16 sheet of 6x8 cells and reads them back.

Images are grids of `Rgb` values, and files are `seq<byte>`. Every
operation is a pure function that returns a `Result` carrying the error
the source would throw. Reading files, writing files and drawing labels
are left out.

Modules follow the source files:

| module | source file |
|---|---|
| `Base` | shared types |
| `Palettes` | `Palette.cs` |
| `ColorUtils` | `Utils.cs` |
| `SoltysSystemColors` | `SoltysSystemColors.cs` |
| `VbmFormat`, `VbmDecoder`, `VbmDecoderFacts` | `VbmFile.cs` |
| `VbmReader` | `VbmReader.cs` |
| `VbmEncoder`, `VbmEncoderFacts` | `ToVbmConverter.cs` |
| `VbmRoundTrip` | both directions together |
| `SkipFinding` | the SKIP-rule finding below |
| `VbmBatch` | `VbmConverter.cs` |
| `CftFont` | `CftConverter.cs` |

## Model

| member | source | states |
|---|---|---|
| Base.U16 | VbmConverter/Converter/ToVbmConverter.cs:45 | The `(ushort)` cast wraps modulo 65536: the result is a `ushort` congruent to its argument, and equals it when it already fits. |
| Base.WordBytes | VbmConverter/Converter/ToVbmConverter.cs:27-32 | A written `ushort` is two bytes, low byte first, whose little-endian value is the word. |
| Base.ReadWordBytes | VbmConverter/Converter/VbmReader.cs:10-13 | `ReadUInt16` of a written word gives the word back, whatever follows it. |
| Palettes.Create | VbmConverter/Converter/Palette.cs:11-27 | A palette is built iff exactly 256 colours are given; otherwise it fails with the count received. |
| Palettes.Get | VbmConverter/Converter/Palette.cs:16-18 | The getter succeeds iff the index is in 0..255, and returns that entry. |
| Palettes.Set | VbmConverter/Converter/Palette.cs:16-20 | The setter succeeds iff the index is in range; it changes that entry to the colour and leaves every other entry alone. |
| Palettes.GetAfterSet | VbmConverter/Converter/Palette.cs:16-20 | Reading after a set gives the colour set at that index and the old colour at every other index. |
| Palettes.WriteToAct | VbmConverter/Converter/Palette.cs:29-49 | The `.act` file is exactly 768 bytes, and triplet i holds entry i. |
| Palettes.ReadFromAct | VbmConverter/Converter/Palette.cs:51-68 | Reading succeeds iff the file is whole triplets, at most 256 of them. Entry i is triplet i, or black past the end of the file. |
| Palettes.ActRoundTrip | VbmConverter/Converter/Palette.cs:29-68 | Writing a palette and reading it back gives the same palette. |
| Palettes.ActReadWrite | VbmConverter/Converter/Palette.cs:29-68 | Reading a valid `.act` file and writing it back gives the file padded with zero bytes to 768. |
| ColorUtils.FromDacChannel | VbmConverter/Converter/Utils.cs:7-10 | `(byte)(x << 2)` is a multiple of 4, and is 4x for DAC values below 64. |
| ColorUtils.ToDacChannel | VbmConverter/Converter/Utils.cs:12-15 | `(byte)(y >> 2)` is below 64, and is the x with 4x <= y < 4x + 4. |
| ColorUtils.FromDacWraps | VbmConverter/Converter/Utils.cs:7-10 | Only the low six bits of a DAC channel matter: channels of 64 and more wrap below 4x. |
| ColorUtils.DacRoundTrip | VbmConverter/Converter/Utils.cs:7-15 | Promoting a DAC colour and converting it back is lossless. |
| ColorUtils.FullDepthRoundTrip | VbmConverter/Converter/Utils.cs:7-15 | Converting a full-depth colour to DAC and back clears the two low bits of each channel. |
| ColorUtils.DacQuantizationIdempotent | VbmConverter/Converter/Utils.cs:7-15 | Quantizing to DAC precision a second time changes nothing. |
| ColorUtils.SavePaletteMap | VbmConverter/Converter/Utils.cs:17-49 | The saved map is one 4-byte record per entry, with no header. |
| ColorUtils.SavedRecord | VbmConverter/Converter/Utils.cs:17-49 | Record `k` of the saved map is the `k`-th entry: the entries are written in the order given. |
| ColorUtils.ParsePaletteMap | VbmConverter/Converter/Utils.cs:51-56 | The parse has one record per whole 4 bytes, and a trailing partial record is dropped. |
| ColorUtils.ParseSaved | VbmConverter/Converter/Utils.cs:17-56 | Saving records and parsing them back gives the same records. |
| ColorUtils.InvertEntries | VbmConverter/Converter/Utils.cs:55 | When `ToDictionary` throws, the colour it names is one of the records' colours. |
| ColorUtils.InvertEntriesOk | VbmConverter/Converter/Utils.cs:55 | `ToDictionary` succeeds iff no colour appears twice among the records. |
| ColorUtils.InvertedEntries | VbmConverter/Converter/Utils.cs:55 | When it succeeds, its keys are exactly the records' colours, each mapped to its record's index. |
| ColorUtils.ReadPalFromPalMap | VbmConverter/Converter/Utils.cs:51-56 | Reading the `.mct` file succeeds iff its parsed records carry distinct colours, and then maps each colour to its index. |
| SoltysSystemColors.Modify | VbmConverter/Converter/SoltysSystemColors.cs:69-91 | A missing palette stays missing. Otherwise an entry changes iff its index is 198 or more and it is exactly black; it then takes its table row shifted left by 2, wrapping at 256. |
| SoltysSystemColors.ModifyFrom | VbmConverter/Converter/SoltysSystemColors.cs:78-90 | The loop from row i on touches only the black entries from index 198 + i on. |
| SoltysSystemColors.TableCoversTail | VbmConverter/Converter/SoltysSystemColors.cs:7-76 | The table has 58 rows, so the repair starts at index 198. |
| SoltysSystemColors.ReplacementNotBlack | VbmConverter/Converter/SoltysSystemColors.cs:7-89 | No repaired colour is black, even after the shift wraps. |
| SoltysSystemColors.ModifyIdempotent | VbmConverter/Converter/SoltysSystemColors.cs:69-91 | Repairing a palette twice gives the same palette as repairing it once. |
| VbmFormat.WordTag | VbmConverter/Converter/VbmFile.cs:34 | `v >> 14` is a 2-bit tag. |
| VbmFormat.WordCount | VbmConverter/Converter/VbmFile.cs:35 | `v & 0x3FFF` is a 14-bit count. |
| VbmFormat.WordFields | VbmConverter/Converter/ToVbmConverter.cs:150-179 | A word built as `(tag << 14) \| count` splits back into its tag and count, and every word is built from its own fields. |
| VbmFormat.OnPlaneResidue | VbmConverter/Converter/VbmFile.cs:27-66 | Plane p's cursor visits exactly the canvas positions congruent to p modulo 4. |
| VbmFormat.StreamBytesAppend | VbmConverter/Converter/ToVbmConverter.cs:129-185 | The bytes of two command sequences written one after the other are the bytes of their concatenation. |
| VbmDecoder.BlankCanvas | VbmConverter/Converter/VbmFile.cs:22 | The canvas starts with every position transparent. |
| VbmDecoder.Paint | VbmConverter/Converter/VbmFile.cs:53-108 | Painting fails without a palette ("No palette set") or outside the canvas. Otherwise it writes the index's colour at the cursor only, and records index -> colour in the used-colour map. |
| VbmDecoder.Steps | VbmConverter/Converter/VbmFile.cs:44-67 | A run of n steps moves the canvas cursor by 4n, and only COPY consumes data (n bytes). SKIP, or no palette, changes neither the canvas nor the used-colour map. |
| VbmDecoder.StepsFrame | VbmConverter/Converter/VbmFile.cs:44-67 | A run of n steps changes no position except the n it covers on its own plane. |
| VbmDecoder.StepsRecord | VbmConverter/Converter/VbmFile.cs:53-108 | A run keeps the used-colour map faithful to the palette. If every pixel was transparent or a recorded colour before, it still is. |
| VbmDecoder.DecodePlane | VbmConverter/Converter/VbmFile.cs:29-73 | One plane reads at least its end word. Without a palette it changes neither the canvas nor the used-colour map. |
| VbmDecoder.DecodePlaneFrame | VbmConverter/Converter/VbmFile.cs:29-73 | One plane changes no position outside its own plane. |
| VbmDecoder.PlaneRecords | VbmConverter/Converter/VbmFile.cs:29-108 | One plane keeps the used-colour map faithful to the palette. If every pixel was transparent or a recorded colour before, it still is. |
| VbmDecoder.DecodePlanes | VbmConverter/Converter/VbmFile.cs:27-74 | The four planes share one data cursor, and each plane leaves the earlier planes' positions alone. |
| VbmDecoder.Crop | VbmConverter/Converter/VbmFile.cs:76-91 | The crop succeeds iff the rectangle fits the 320x200 canvas, and gives its top-left corner. |
| VbmDecoder.ToImage | VbmConverter/Converter/VbmFile.cs:19-108 | Decoding succeeds iff the planes decode and the header size fits. Each image pixel is the canvas pixel at y*320+x. The used-colour map's keys are exactly the index bytes that the REPEAT and COPY commands paint. Each key maps to its palette colour, and every pixel is transparent or one of the recorded colours. |
| VbmDecoder.StepsKeys | VbmConverter/Converter/VbmFile.cs:44-67 | A run adds to the used-colour map's keys exactly what it paints: nothing for SKIP or count 0, the one byte of a REPEAT, every byte of a COPY. |
| VbmDecoder.PlaneKeys | VbmConverter/Converter/VbmFile.cs:31-73 | A plane stops where a palette-free walk of its command words stops. It adds to the keys exactly the index bytes those words paint. |
| VbmDecoder.PlanesKeys | VbmConverter/Converter/VbmFile.cs:27-74 | The planes from any plane on stop where the walk of their words stops. They add to the keys exactly the index bytes those words paint. |
| VbmDecoderFacts.EndWord | VbmConverter/Converter/VbmFile.cs:33-42 | A tag-0 word ends the plane whatever its count, and consumes only the word. |
| VbmDecoderFacts.SkipSteps | VbmConverter/Converter/VbmFile.cs:44-66 | A SKIP of n reads and writes nothing and moves the cursor by 4n, even past the canvas. |
| VbmDecoderFacts.RepeatCommand | VbmConverter/Converter/VbmFile.cs:52-72 | A REPEAT consumes exactly one byte whatever its count, 0 included, and paints that byte's colour on every position it covers. |
| VbmDecoderFacts.CopyCommand | VbmConverter/Converter/VbmFile.cs:58-66 | A COPY consumes exactly its count of bytes, and paints the k-th byte's colour at its k-th position. |
| VbmDecoderFacts.NullPalettePlane | VbmConverter/Converter/VbmFile.cs:100-108 | A plane that decodes without a palette decodes the same with any palette: a missing palette fails only on a painted pixel. |
| VbmDecoderFacts.SkipOnlyPlane | VbmConverter/Converter/VbmFile.cs:27-74 | A plane of SKIP words and an end word decodes under any palette: it reads exactly its words and writes nothing. |
| VbmDecoderFacts.PlaneDecodes | VbmConverter/Converter/VbmFile.cs:29-73 | The decoder reads exactly the bytes of a plane's commands, and leaves the colours those commands show along the plane. |
| VbmReader.ReadPalette | VbmConverter/Converter/VbmReader.cs:20-31 | Entry i of the embedded palette is DAC triplet i promoted to full depth. |
| VbmReader.Read | VbmConverter/Converter/VbmReader.cs:5-18 | Reading succeeds iff the 8-byte header is present, plus 768 palette bytes when the flag is exactly 1. A palette is read iff the flag is 1, and the data is the next min(length, remaining) bytes. |
| VbmReader.PaletteRoundTrip | VbmConverter/Converter/ToVbmConverter.cs:195-205 | An embedded palette reads back with each channel's two low bits cleared. |
| VbmReader.ReadConvert | VbmConverter/Converter/ToVbmConverter.cs:21-47 | Reading a converted file gives its width, its height and its quantized palette. When the length did not wrap, the data is the command stream followed by the table. |
| VbmEncoder.SampleCanvas | VbmConverter/Converter/ToVbmConverter.cs:188-193 | `GetPixel` reads the image pixel inside the image and transparency outside it, at every canvas position. |
| VbmEncoder.RunLength | VbmConverter/Converter/ToVbmConverter.cs:140-175 | A run stays inside the canvas and within the count budget. It stops short of the budget only at the canvas end or at a position of the other kind, and is non-empty when its first position is of its kind. |
| VbmEncoder.RunUniform | VbmConverter/Converter/ToVbmConverter.cs:140-175 | Every position a run covers is of the run's kind. |
| VbmEncoderFacts.RunLengthMaximal | VbmConverter/Converter/ToVbmConverter.cs:140-175 | The run the loops count is the unique maximal run. |
| VbmEncoder.CopyIndices | VbmConverter/Converter/ToVbmConverter.cs:166-210 | A COPY of n positions writes n index bytes. A failure names a colour missing from the map. |
| VbmEncoder.CopyIndicesMapped | VbmConverter/Converter/ToVbmConverter.cs:166-210 | A COPY's index bytes succeed iff every colour of the run is in the map, and byte k is the k-th colour's index. |
| VbmEncoder.NextRun | VbmConverter/Converter/ToVbmConverter.cs:136-181 | One pass of the plane loop covers at least one position and writes at most one command, a SKIP or COPY within the 14-bit count. |
| VbmEncoder.EncodeFrom | VbmConverter/Converter/ToVbmConverter.cs:131-184 | One plane's commands are encodable, never REPEAT, and the end word comes last. |
| VbmEncoder.EncodeFromEmitted | VbmConverter/Converter/ToVbmConverter.cs:131-184 | Every command before the plane's end word is a SKIP or COPY with a count in 1..0x3FFF. |
| VbmEncoderFacts.EncodeSucceeds | VbmConverter/Converter/ToVbmConverter.cs:125-210 | `EncodePixels` fails exactly when some opaque pixel inside the canvas has a colour missing from the map. |
| VbmEncoder.ScanRow | VbmConverter/Converter/ToVbmConverter.cs:63-96 | Over the four passes of one row, the pair stays (0xFFFF, 0) iff the row has no opaque pixel. Otherwise Skip is the leftmost opaque column and Hide one past the rightmost. |
| VbmEncoder.StoreRow | VbmConverter/Converter/ToVbmConverter.cs:100-116 | The stored pair of one row is two `ushort`s, and so is the pending skip it passes on. |
| VbmEncoder.TableAccounts | VbmConverter/Converter/ToVbmConverter.cs:98-116 | Over all rows, the groups skipped and shown plus the skip still pending at the end cover 320 pixels per row. |
| VbmEncoder.TableRowWindow | VbmConverter/Converter/ToVbmConverter.cs:49-116 | A row's shown window is aligned to 4 and holds every opaque pixel of the row, with fewer than 4 columns to spare at either end. It is empty iff the row has none. |
| VbmEncoder.TransparentTable | VbmConverter/Converter/ToVbmConverter.cs:100-107 | Every row of a fully transparent canvas-sized image skips 80 groups and shows none. |
| VbmEncoder.TableBytes | VbmConverter/Converter/ToVbmConverter.cs:118-122 | Row i's Skip and Hide are read back from offsets 4i and 4i+2. |
| VbmEncoder.WritePalette | VbmConverter/Converter/ToVbmConverter.cs:195-205 | The embedded palette is 768 bytes, and triplet i is entry i in DAC form. |
| VbmEncoder.FileBytes | VbmConverter/Converter/ToVbmConverter.cs:27-46 | The header words are read back from offsets 0, 2, 4 and 6. The length word is the body's size modulo 65536, and the palette and the body follow in order. |
| VbmEncoder.Convert | VbmConverter/Converter/ToVbmConverter.cs:21-47 | Conversion succeeds iff the pixels encode, and an unmapped colour fails it before the visibility table is reached. The file then has a flag word that is 1 iff a palette is embedded, and a length word covering the stream and the table modulo 65536. |
| VbmEncoder.LayOut | VbmConverter/Converter/ToVbmConverter.cs:21-47 | The file is the header (flag, length modulo 65536, width, height), then the DAC palette when embedding, the command stream, and the visibility table. |
| VbmRoundTrip.EncodeShows | VbmConverter/Converter/ToVbmConverter.cs:131-184 | The commands written for a plane show the sampled canvas along it: SKIPs over transparent positions, COPYs naming the run's colours, and a transparent tail after the end word. |
| VbmRoundTrip.PlanesRoundTrip | VbmConverter/Converter/VbmFile.cs:27-74 | Decoding the encoded planes from any plane on, over a canvas whose earlier planes are done, reads exactly their bytes and ends with the sampled canvas. |
| VbmRoundTrip.PlaneRoundTrip | VbmConverter/Converter/ToVbmConverter.cs:129-185 | Decoding one encoded plane reads exactly its bytes, and leaves each of its positions holding the sampled colour. |
| VbmRoundTrip.CanvasRoundTrip | VbmConverter/Converter/VbmFile.cs:27-74 | For a faithful palette, the four planes encode, and decoding their bytes from a blank canvas gives the sampled canvas. |
| VbmRoundTrip.ImageRoundTrip | VbmConverter/Converter/VbmFile.cs:19-82 | `ToImage` undoes `EncodePixels`, whatever bytes follow, for an image that fits the canvas, a faithful palette and a SKIP rule that drops only trailing runs. |
| VbmRoundTrip.FileRoundTrip | VbmConverter/Converter/ToVbmConverter.cs:21-47 | Reading a converted file back gives its size and the quantized palette. Unless the length word wrapped, the data decodes to the original image. |
| SkipFinding.CornerPixelMoves | VbmConverter/Converter/ToVbmConverter.cs:147-151 | The as-written guard drops the SKIP before a lone bottom-right pixel, which then decodes at (3, 0). |
| SkipFinding.CornerPixelKept | VbmConverter/Converter/ToVbmConverter.cs:147-151 | The corrected guard keeps that SKIP, and the image decodes back to itself. |
| VbmBatch.Lower | VbmConverter/Converter/VbmConverter.cs:120 | The lower-cased name has the same length and no ASCII capital. Each capital becomes its lower-case letter, and every other character is kept. |
| VbmBatch.FindPalette | VbmConverter/Converter/VbmConverter.cs:118-130 | With no directory there is no palette. Otherwise the exact lower-cased key wins, else the first key that is a prefix of the name. |
| VbmBatch.FindPaletteSpec | VbmConverter/Converter/VbmConverter.cs:118-130 | A unique exact key is found. Any palette found belongs to a key that prefixes the name, and nothing is found iff no key does. |
| VbmBatch.Prepare | VbmConverter/Converter/VbmConverter.cs:48-56 | For Soltys, the forced, fallback and directory palettes are repaired once. For other games nothing changes. |
| VbmBatch.SelectPalette | VbmConverter/Converter/VbmConverter.cs:64-77 | The precedence is forced, then embedded, then the directory match, then fallback; None skips the file. |
| VbmBatch.EmbeddedNeverPatched | VbmConverter/Converter/VbmConverter.cs:48-71 | With no forced palette, a file's embedded palette is used exactly as read, for every game. |
| VbmBatch.UsedRecords | VbmConverter/Converter/VbmConverter.cs:105-116 | The saved records are exactly the used-colour map's entries, one per index, in ascending index order. |
| VbmBatch.UsedMapRoundTrip | VbmConverter/Converter/VbmConverter.cs:101-188 | The saved `.mct` records, as the whole file, read back iff no colour came from two indices. It then sends every decoded colour back to the index that produced it. |
| VbmBatch.WriteOver | VbmConverter/Converter/Utils.cs:17-25 | The file on disk starts with the bytes written. Under `File.OpenWrite` it keeps a longer earlier file's bytes beyond them; under `File.Create` it is exactly the bytes written. |
| VbmBatch.StaleRecordUnreadable | VbmConverter/Converter/Utils.cs:17-56 | An injective map, written with `File.OpenWrite` over a longer earlier `.mct` whose stale tail repeats one of its colours, reads back on its own but not from the file on disk. |
| VbmBatch.CreatedMapRoundTrip | VbmConverter/Converter/Utils.cs:17-56 | Written with `File.Create` over any earlier file, the map reads back iff no colour came from two indices, and then inverts the used-colour map. |
| VbmBatch.SharedIffNotInjective | VbmConverter/Converter/VbmConverter.cs:81-85 | Some `GroupBy` group has more than one index iff two indices decoded to one colour. |
| VbmBatch.WarnsNonUnique | VbmConverter/Converter/VbmConverter.cs:81-91 | As written, the warning fires iff at least two distinct colours are shared. Corrected, it fires iff any colour is shared. |
| VbmBatch.CorrectedWarningIffUnreadable | VbmConverter/Converter/VbmConverter.cs:81-188 | The corrected warning fires exactly when `ToVbm` will refuse the saved `.mct` file. |
| VbmBatch.OneSharedColourSilent | VbmConverter/Converter/VbmConverter.cs:84-91 | With one colour shared by two indices, the as-written warning stays silent, yet the `.mct` file is unreadable. |
| VbmBatch.ExtractPalette | VbmConverter/Converter/VbmConverter.cs:13-33 | A file with the palette flag gives that palette as 768 `.act` bytes. A file without it gives nothing, and an unreadable file fails. |
| VbmBatch.ExtractedPaletteReadsBack | VbmConverter/Converter/VbmConverter.cs:13-33 | The extracted `.act` file reads back as the palette the file embeds. |
| VbmBatch.ToPngFile | VbmConverter/Converter/VbmConverter.cs:59-102 | Per file: a read failure fails, no palette skips the file, otherwise the decoded image is returned with its `.mct` bytes and the warning flag. |
| VbmBatch.ReadUsedPalette | VbmConverter/Converter/VbmConverter.cs:168-188 | A missing or unreadable `.mct` file gives no map. |
| VbmBatch.ToVbmFile | VbmConverter/Converter/VbmConverter.cs:146-165 | A PNG is skipped iff its map is missing or unreadable, and is otherwise converted. |
| VbmBatch.PngVbmRoundTrip | VbmConverter/Converter/VbmConverter.cs:59-188 | A PNG that `ToPng` wrote is skipped by `ToVbm` iff two indices shared a colour. Otherwise it converts, and, unless the length wrapped, decodes to the same image. |
| CftFont.ReadCft | CftConverter/CftConverter.cs:86-100 | Reading fails iff the file is shorter than the 256 width bytes. Glyph i is then at most `width[i]` bytes, because `ReadBytes` stops at the end of the file. |
| CftFont.ReadWriteCft | CftConverter/CftConverter.cs:86-204 | The widths-then-glyphs file `ConvertToCfg` writes reads back as the same 256 glyphs. |
| CftFont.DecodeCell | CftConverter/CftConverter.cs:117-122 | Column k of a cell draws byte k, with black for a set bit and white for a clear one. Columns past the glyph keep the background. |
| CftFont.DrawnBit | CftConverter/CftConverter.cs:119-122 | Bit j is drawn at column j / 8, row j % 8. |
| CftFont.ColumnRoundTrip | CftConverter/CftConverter.cs:121-182 | A drawn byte is black and white only, and packs back to the same byte. |
| CftFont.SameCellOrigin | CftConverter/CftConverter.cs:104-151 | Both directions put glyph i's bit j at the same pixel: cell (i / 16, i % 16), column j / 8, row j % 8. |
| CftFont.CellsApart | CftConverter/CftConverter.cs:137-153 | Every pixel `ConvertToCfg` reads lies inside the 220x220 image, and no two cells share a pixel. |
| CftFont.ReadsMissDecoration | CftConverter/CftConverter.cs:70-153 | No pixel the reader samples lies on the edge of any cell's border rectangle (x, y)-(x+7, y+9), or in the top and left 13-pixel margins where the labels are anchored. |
| CftFont.ConvertToPng | CftConverter/CftConverter.cs:86-123 | Drawing succeeds iff the widths are present and no glyph runs past the image's right edge. Cell i then shows the first 6 bytes of glyph i. |
| CftFont.EncodeCell | CftConverter/CftConverter.cs:141-188 | A cell encodes iff every column is all black and white or holds neither colour. Byte k packs column k, and the glyph loses one trailing byte per blank column. |
| CftFont.Collect | CftConverter/CftConverter.cs:135-191 | The row-major loop returns every cell's glyph, or the first error. |
| CftFont.ConvertToCfg | CftConverter/CftConverter.cs:128-205 | Encoding succeeds iff every cell is well formed. It writes the widths then the glyphs, and otherwise reports some cell's error. |
| CftFont.CellRoundTrip | CftConverter/CftConverter.cs:117-188 | A glyph of at most 6 bytes is drawn and read back unchanged. |
| CftFont.FontRoundTrip | CftConverter/CftConverter.cs:86-205 | A font whose widths are at most 6 and whose length is exactly the widths' sum draws and reads back to the same bytes. |
| CftFont.BlankFirstColumn | CftConverter/CftConverter.cs:172-186 | Narrowing drops trailing bytes, not the blank column. A blank first column is encoded as 0, which draws as white, and the last column is lost. |

## Left out

- File and console I/O are left out: paths, `FileStream` and `BinaryReader`, `Console` messages, and directories. A file is a `seq<byte>`, and a PNG is an `Image` grid.
- Patching the length word by seeking back is modelled by its final value only.
- Partial output left behind after a failure is not modelled.
- ImageSharp itself is not modelled: image loading and saving, PNG encoding, `DrawText` labels and `DrawPolygon` borders. The CFT sheet is modelled as its cells only. No pixel a cell reads lies on a cell border or in the label margins (`CftFont.ReadsMissDecoration`). How far a label glyph reaches beyond its anchor depends on the label font, which is not modelled.
- Command-line parsing, `Validate`, `GetFiles`, `Program.cs` and the option classes are left out. They select files but do not change the formats.
- `VbmBatch.Lower`: models `ToLower` on ASCII letters only. Culture-sensitive case mapping is not modelled. Likewise `StartsWith` (VbmConverter.cs:127) is the culture-sensitive overload, which `VbmBatch.PrefixIndex` models as a plain ordinal prefix.
- The `GameType` enum's definition is not part of this model. It is modelled as `Soltys` or `OtherGame`.
- The `PaletteMap` struct is not part of this model. Its layout is taken to be 4 bytes: index, R, G, B.
- `VbmEncoder.Convert`: requires `TableTerminates` only when the pixels encode, because an unmapped colour throws in `EncodePixels` (ToVbmConverter.cs:40) before `WriteBlockDescription` runs. `TableTerminates` means a width of at most 65532 and a height below 65536. With a larger image, the `ushort` loop counters in `WriteBlockDescription` wrap and never terminate: the column counter steps by 4 and wraps past 65532.
- `VbmBatch.ToVbmFile`: requires `TableTerminates` only when the `.mct` map reads and the pixels encode under it, because only then does it reach the visibility table. A PNG without a readable map is skipped whatever its size.
- The `skip` and `cnt` block bookkeeping in the first loop of `WriteBlockDescription` (ToVbmConverter.cs:65-93) is written but never read, so it is left out.
- `VbmRoundTrip.FileRoundTrip` and `VbmBatch.PngVbmRoundTrip`: the round trip is stated only when the length word did not wrap, that is, when stream plus table is under 65536 bytes. Past that, the wrapped length cuts the data region short.
- A crop to a zero width or height gives an empty grid. ImageSharp's own behaviour for it is not modelled.
- `VbmBatch.PngVbmRoundTrip`: the as-written SKIP rule is covered only for images without the hazard in the findings below.
- `ColorUtils.SavePaletteMap`: the bytes written, taken to be the whole `.mct` file, as `File.Create` would leave it. `File.OpenWrite` keeps the tail of a longer earlier file (see the findings below and `VbmBatch.WriteOver`).
- `VbmBatch.UsedMapRoundTrip`: assumes the `.mct` file was absent or no longer than the new records. `VbmBatch.CreatedMapRoundTrip` states the same for a truncating write over any earlier file.
- `VbmBatch.CorrectedWarningIffUnreadable`: assumes the `.mct` file was absent or no longer than the new records. A stale tail can make the map unreadable with no shared colour (`VbmBatch.StaleRecordUnreadable`).
- `VbmBatch.PngVbmRoundTrip`: assumes the `.mct` file was absent or no longer than the new records, so `ToVbm` reads exactly what `ToPng` saved.
- `CftFont.DecodeCell` and `CftFont.ConvertToPng`: a glyph wider than 6 bytes draws over its cell's border, and from byte 12 on into the next cell's columns, where it survives wherever the next glyph is narrower. The model keeps only a cell's own 6 columns, so `CftFont.FontRoundTrip` is stated for widths up to 6.
- `CftFont.ConvertToCfg`: a PNG smaller than the sheet makes the indexer throw. The model takes a full sheet of 256 cells.

## Findings

| source | as written | input that shows it | evidently intended | confidence | as-written member | corrected member |
|---|---|---|---|---|---|---|
| VbmConverter/Converter/ToVbmConverter.cs:147 | A transparent run's SKIP is written only if `pos + 4 < endPos`. A run that stops on one of the canvas's last four positions loses its SKIP, and the pixels after it are drawn at the start of their plane. | A 320x200 image transparent except its bottom-right pixel: plane 3 is encoded as a lone COPY, which decodes the pixel at (3, 0). | Omit only a SKIP that runs to the end of the plane (`pos < endPos`). | not executed | SkipFinding.CornerPixelMoves | SkipFinding.CornerPixelKept |
| VbmConverter/Converter/Utils.cs:19 | The `.mct` file is opened with `File.OpenWrite`, which does not truncate. A shorter map written over a longer earlier one leaves the earlier file's last records in place. | A first `ToPng` saves records (1, c1) (2, c2) (3, c3). After an edit, the `.vbm` uses only indices 2 and 3, and the next `ToPng` writes (2, c2) (3, c3) over the first 8 bytes. The stale (3, c3) stays at the end, so `ToDictionary` fails on c3 and `ToVbm` skips the PNG. | Truncate the file (`File.Create`), so it holds exactly the new records. | not executed | VbmBatch.StaleRecordUnreadable | VbmBatch.CreatedMapRoundTrip |
| VbmConverter/Converter/VbmConverter.cs:87 | The non-unique colour warning fires only if `nonUniqueColors.Count > 1`, so it stays silent when exactly one colour is shared. | Two indices that decode to the same colour, and no other sharing: no warning, yet `ToVbm` cannot read the saved `.mct` file and skips the PNG. | Warn whenever any colour is shared (`Count > 0`). | not executed | VbmBatch.OneSharedColourSilent | VbmBatch.CorrectedWarningIffUnreadable |

The round-trip lemmas (`VbmRoundTrip.ImageRoundTrip`, `VbmBatch.PngVbmRoundTrip`) hold for the corrected SKIP rule on every image. They hold for the as-written rule only on images without that hazard.
