/**
 * `VbmReader.Read`: parse a `.vbm` file's header, its optional embedded
 * palette (DAC colours promoted to full depth) and its data region.
 */
module VbmReader {
  import opened Base
  import opened Palettes
  import opened ColorUtils
  import opened VbmFormat
  import opened VbmDecoder
  import opened VbmEncoder

  datatype ReadError =
    | TruncatedHeader   // `ReadUInt16` past the end of the file
    | TruncatedPalette  // a palette triplet read short, then indexed

  /** `ReadPalette`: 256 triplets, each promoted from DAC depth. */
  function ReadPalette(bytes: seq<byte>): (p: Palette)
    requires |bytes| >= ActSize
    ensures forall i | 0 <= i < ColorsPerPalette :: p[i] == ColorFromDac(Triplet(bytes, i))
  {
    seq(ColorsPerPalette, i requires 0 <= i < ColorsPerPalette => ColorFromDac(Triplet(bytes, i)))
  }

  /**
   * `Read`: the flag word (a palette follows iff it is exactly 1), the
   * length word, width and height, the palette, then at most `length`
   * bytes of data: `ReadBytes` returns fewer at the end of the file.
   */
  function Read(bytes: seq<byte>): (r: Result<VbmFile, ReadError>)
    ensures r.Ok? <==> |bytes| >= HeaderSize && (ReadWord(bytes, 0) == 1 ==> |bytes| >= HeaderSize + ActSize)
    ensures r.Ok? ==>
      var start := if ReadWord(bytes, 0) == 1 then HeaderSize + ActSize else HeaderSize;
      && r.value.width == ReadWord(bytes, 4) && r.value.height == ReadWord(bytes, 6)
      && (r.value.palette.Some? <==> ReadWord(bytes, 0) == 1)
      && (r.value.palette.Some? ==> forall i | 0 <= i < ColorsPerPalette ::
            r.value.palette.value[i] == ColorFromDac(Triplet(bytes[HeaderSize..], i)))
      && |r.value.data| == Min(ReadWord(bytes, 2), |bytes| - start)
      && r.value.data == bytes[start..start + |r.value.data|]
  {
    if |bytes| < HeaderSize then Err(TruncatedHeader)
    else
      var hasPalette := ReadWord(bytes, 0) == 1;
      var length := ReadWord(bytes, 2);
      if hasPalette && |bytes| < HeaderSize + ActSize then Err(TruncatedPalette)
      else
        var palette := if hasPalette then Some(ReadPalette(bytes[HeaderSize..])) else None;
        var start := if hasPalette then HeaderSize + ActSize else HeaderSize;
        var data := bytes[start..start + Min(length, |bytes| - start)];
        Ok(VbmFile(ReadWord(bytes, 4), ReadWord(bytes, 6), data, palette))
  }

  function Min(a: int, b: int): int
  {
    if a <= b then a else b
  }

  /** An embedded palette is read back in DAC precision: each channel loses its two low bits. */
  lemma PaletteRoundTrip(p: Palette)
    ensures forall i | 0 <= i < ColorsPerPalette ::
      ReadPalette(WritePalette(p))[i] == LowBitsCleared(p[i])
  {
    forall i | 0 <= i < ColorsPerPalette
      ensures ReadPalette(WritePalette(p))[i] == LowBitsCleared(p[i])
    {
      EntryRoundTrip(p, i);
    }
  }

  /** One entry of `PaletteRoundTrip`. */
  lemma EntryRoundTrip(p: Palette, i: nat)
    requires i < ColorsPerPalette
    ensures ReadPalette(WritePalette(p))[i] == LowBitsCleared(p[i])
  {
    var w := WritePalette(p);
    var t := Triplet(w, i);
    assert t == ColorToDac(p[i]);
    assert ReadPalette(w)[i] == ColorFromDac(t);
    FullDepthRoundTrip(p[i]);
  }

  /** The palette a reader sees for an optional embedded palette. */
  function Quantized(embed: Option<Palette>): (r: Option<Palette>)
    ensures r.Some? <==> embed.Some?
    ensures r.Some? ==> forall i | 0 <= i < ColorsPerPalette :: r.value[i] == ColorFromDac(ColorToDac(embed.value[i]))
  {
    match embed
    case None => None
    case Some(p) => Some(seq(ColorsPerPalette, i requires 0 <= i < ColorsPerPalette => ColorFromDac(ColorToDac(p[i]))))
  }

  /** Reading a file laid out as header words, palette bytes, then a body the length word counts. */
  lemma ReadLaidOut(file: seq<byte>, flag: int, width: int, height: int, paletteBytes: seq<byte>, body: seq<byte>)
    requires (flag == 0 || flag == 1) && 0 <= width < U16Limit && 0 <= height < U16Limit
    requires |paletteBytes| == if flag == 1 then ActSize else 0
    requires |file| == HeaderSize + |paletteBytes| + |body|
    requires ReadWord(file, 0) == flag && ReadWord(file, 2) == |body| % U16Limit
    requires ReadWord(file, 4) == width && ReadWord(file, 6) == height
    requires file[HeaderSize..HeaderSize + |paletteBytes|] == paletteBytes
    requires file[HeaderSize + |paletteBytes|..] == body
    ensures Read(file)
      == Ok(VbmFile(width, height, CutToU16(body),
                    if flag == 1 then Some(ReadPalette(paletteBytes)) else None))
  {
    var start := HeaderSize + |paletteBytes|;
    assert file[start..start + |body| % U16Limit] == CutToU16(body);
    if flag == 1 {
      forall i | 0 <= i < ColorsPerPalette
        ensures Triplet(file[HeaderSize..], i) == Triplet(paletteBytes, i)
      {
        TripletPrefix(file[HeaderSize..], paletteBytes, i);
      }
      assert ReadPalette(file[HeaderSize..]) == ReadPalette(paletteBytes);
    }
  }

  /** The embedded palette is read back quantized to DAC precision. */
  lemma ReadWrittenPalette(p: Palette)
    ensures Some(ReadPalette(WritePalette(p))) == Quantized(Some(p))
  {
    var q := ReadPalette(WritePalette(p));
    var want := Quantized(Some(p)).value;
    forall i | 0 <= i < ColorsPerPalette
      ensures q[i] == want[i]
    {
    }
    assert q == want;
  }

  /**
   * Reading a written file: the header's size, the embedded palette in DAC
   * precision, and - when the length word did not wrap - the command
   * stream followed by the visibility table as the data region.
   */
  lemma ReadConvert(img: Image, mapping: map<Rgb, byte>, embed: Option<Palette>, rule: SkipRule)
    requires img.Valid() && TableTerminates(img)
    requires Convert(img, mapping, embed, rule).Ok?
    ensures var stream := EncodePixels(img, mapping, rule).value;
      var body := stream + TableBytes(VisibilityTable(img));
      var f := Read(Convert(img, mapping, embed, rule).value);
      && f.Ok?
      && f.value.width == img.width && f.value.height == img.height
      && f.value.palette == Quantized(embed)
      && (|body| < U16Limit ==> f.value.data == body)
      && f.value.data == CutToU16(body)
  {
    var body := EncodePixels(img, mapping, rule).value + TableBytes(VisibilityTable(img));
    ConvertLayout(img, mapping, embed, rule);
    ReadFileBytes(embed, img.width, img.height, body);
  }

  /** The palette bytes `Convert` writes after the header. */
  function EmbeddedBytes(embed: Option<Palette>): (r: seq<byte>)
    ensures |r| == if embed.Some? then ActSize else 0
  {
    if embed.Some? then WritePalette(embed.value) else []
  }

  /** `Convert` lays its file out as header words, the palette bytes, then the stream and the table. */
  lemma ConvertLayout(img: Image, mapping: map<Rgb, byte>, embed: Option<Palette>, rule: SkipRule)
    requires img.Valid() && TableTerminates(img)
    requires Convert(img, mapping, embed, rule).Ok?
    ensures Convert(img, mapping, embed, rule).value
      == FileBytes(if embed.Some? then 1 else 0, img.width, img.height, EmbeddedBytes(embed),
                   EncodePixels(img, mapping, rule).value + TableBytes(VisibilityTable(img)))
  {
  }

  /** Reading the bytes `FileBytes` lays out for an optional palette and a body. */
  lemma ReadFileBytes(embed: Option<Palette>, width: int, height: int, body: seq<byte>)
    requires 0 <= width < U16Limit && 0 <= height < U16Limit
    ensures var f := Read(FileBytes(if embed.Some? then 1 else 0, width, height, EmbeddedBytes(embed), body));
      && f.Ok? && f.value.width == width && f.value.height == height
      && f.value.palette == Quantized(embed)
      && f.value.data == CutToU16(body)
  {
    var flag := if embed.Some? then 1 else 0;
    ReadLaidOut(FileBytes(flag, width, height, EmbeddedBytes(embed), body), flag, width, height, EmbeddedBytes(embed), body);
    if embed.Some? {
      ReadWrittenPalette(embed.value);
    }
  }

  /** A triplet depends only on the bytes up to it. */
  lemma TripletPrefix(data: seq<byte>, prefix: seq<byte>, i: nat)
    requires i < ColorsPerPalette && |prefix| == ActSize && |data| >= ActSize && data[..ActSize] == prefix
    ensures Triplet(data, i) == Triplet(prefix, i)
  {
    assert data[3 * i] == prefix[3 * i];
    assert data[3 * i + 1] == prefix[3 * i + 1];
    assert data[3 * i + 2] == prefix[3 * i + 2];
  }
}
