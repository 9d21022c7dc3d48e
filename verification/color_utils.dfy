/**
 * Colour helpers of `Utils.cs`: the 6-bit DAC conversions and the `.mct`
 * side file that maps decoded colours back to the palette indices they came
 * from.
 */
module ColorUtils {
  import opened Base

  // ---------------------------------------------------------------------
  // DAC conversion
  // ---------------------------------------------------------------------

  /** `(byte)(x << 2)`: promote a 6-bit DAC channel to full depth, wrapping at 256. */
  function FromDacChannel(x: byte): (y: byte)
    ensures y % 4 == 0
    ensures x < 64 ==> y == 4 * x
  {
    (4 * x) % 256
  }

  /** `(byte)(y >> 2)`: drop the two low bits of a full-depth channel. */
  function ToDacChannel(y: byte): (x: byte)
    ensures x < 64
    ensures 4 * x <= y < 4 * x + 4
  {
    y / 4
  }

  /** `Utils.ColorFromDac`. */
  function ColorFromDac(c: Rgb): Rgb
  {
    Rgb(FromDacChannel(c.r), FromDacChannel(c.g), FromDacChannel(c.b))
  }

  /** `Utils.ColorToDac`. */
  function ColorToDac(c: Rgb): Rgb
  {
    Rgb(ToDacChannel(c.r), ToDacChannel(c.g), ToDacChannel(c.b))
  }

  /** A colour all of whose channels fit the 6-bit DAC range. */
  predicate IsDacColor(c: Rgb)
  {
    c.r < 64 && c.g < 64 && c.b < 64
  }

  /** Channels of 64 and above wrap: only the low six bits of a DAC value matter. */
  lemma FromDacWraps(x: byte)
    ensures FromDacChannel(x) == FromDacChannel(x % 64)
    ensures x >= 64 ==> FromDacChannel(x) < 4 * x
  {
  }

  /** `ColorToDac` always yields a DAC colour. */
  lemma ToDacInRange(c: Rgb)
    ensures IsDacColor(ColorToDac(c))
  {
  }

  /** Full depth and back is lossless on DAC colours. */
  lemma DacRoundTrip(c: Rgb)
    requires IsDacColor(c)
    ensures ColorToDac(ColorFromDac(c)) == c
  {
  }

  /** A colour with the two low bits of every channel cleared. */
  function LowBitsCleared(c: Rgb): Rgb
  {
    Rgb(c.r - c.r % 4, c.g - c.g % 4, c.b - c.b % 4)
  }

  /** DAC and back clears the two low bits of every channel. */
  lemma FullDepthRoundTrip(c: Rgb)
    ensures ColorFromDac(ColorToDac(c)) == LowBitsCleared(c)
  {
  }

  /** The low bits vanish once and stay vanished. */
  lemma DacQuantizationIdempotent(x: Rgb, y: Rgb)
    ensures ColorFromDac(ColorToDac(ColorFromDac(x))) == ColorFromDac(x)
    ensures ColorFromDac(ColorToDac(ColorFromDac(ColorToDac(y)))) == ColorFromDac(ColorToDac(y))
  {
  }

  // ---------------------------------------------------------------------
  // The .mct side file
  // ---------------------------------------------------------------------

  /** One `PaletteMap` record: a palette index and the colour it decoded to. */
  datatype PaletteMapEntry = PaletteMapEntry(originalIndex: byte, color: Rgb)

  /** Bytes per record: index, R, G, B. */
  const RecordSize: int := 4

  function RecordBytes(e: PaletteMapEntry): seq<byte>
  {
    [e.originalIndex, e.color.r, e.color.g, e.color.b]
  }

  /** The record held at offset `4 * k` of a byte sequence. */
  function RecordAt(bytes: seq<byte>, k: nat): PaletteMapEntry
    requires RecordSize * k + RecordSize <= |bytes|
  {
    PaletteMapEntry(bytes[4 * k], Rgb(bytes[4 * k + 1], bytes[4 * k + 2], bytes[4 * k + 3]))
  }

  /** `SavePaletteMap`: the records back to back, in the order given, with no header. */
  function SavePaletteMap(entries: seq<PaletteMapEntry>): (r: seq<byte>)
    ensures |r| == RecordSize * |entries|
  {
    if |entries| == 0 then [] else RecordBytes(entries[0]) + SavePaletteMap(entries[1..])
  }

  /** Record `k` of a saved map is the `k`-th entry. */
  lemma {:induction false} SavedRecord(entries: seq<PaletteMapEntry>, k: nat)
    requires k < |entries|
    ensures RecordAt(SavePaletteMap(entries), k) == entries[k]
  {
    var rest := SavePaletteMap(entries[1..]);
    assert SavePaletteMap(entries) == RecordBytes(entries[0]) + rest;
    if k > 0 {
      SavedRecord(entries[1..], k - 1);
      assert RecordAt(RecordBytes(entries[0]) + rest, k) == RecordAt(rest, k - 1);
    }
  }

  /** `MemoryMarshal.Cast<byte, PaletteMap>`: whole records only; a trailing partial record is dropped. */
  function ParsePaletteMap(bytes: seq<byte>): (r: seq<PaletteMapEntry>)
    ensures |r| == |bytes| / RecordSize
    ensures forall k | 0 <= k < |r| :: r[k] == RecordAt(bytes, k)
  {
    seq(|bytes| / RecordSize, k requires 0 <= k < |bytes| / RecordSize => RecordAt(bytes, k))
  }

  /** Saving and parsing back gives the same records. */
  lemma ParseSaved(entries: seq<PaletteMapEntry>)
    ensures ParsePaletteMap(SavePaletteMap(entries)) == entries
  {
    var r := ParsePaletteMap(SavePaletteMap(entries));
    forall k | 0 <= k < |entries|
      ensures r[k] == entries[k]
    {
      SavedRecord(entries, k);
    }
  }

  /** No two records carry the same colour. */
  predicate DistinctColors(entries: seq<PaletteMapEntry>)
  {
    forall j, k | 0 <= j < k < |entries| :: entries[j].color != entries[k].color
  }

  datatype MapError = DuplicateColor(color: Rgb)

  /**
   * `ToDictionary(colour, index)` over the records in order: the inverse
   * map, failing on the first colour met twice.
   */
  function InvertEntries(entries: seq<PaletteMapEntry>): (r: Result<map<Rgb, byte>, MapError>)
    ensures r.Err? ==> r.error.color in Colors(entries)
  {
    if |entries| == 0 then Ok(map[])
    else
      var init := entries[..|entries| - 1];
      var last := entries[|entries| - 1];
      var m :- InvertEntries(init);
      if last.color in m then Err(DuplicateColor(last.color)) else Ok(m[last.color := last.originalIndex])
  }

  /** The colours the records carry. */
  ghost function Colors(entries: seq<PaletteMapEntry>): set<Rgb>
  {
    set k | 0 <= k < |entries| :: entries[k].color
  }

  /** The colours of all records but the last, and the last one's. */
  lemma ColorsSplit(entries: seq<PaletteMapEntry>)
    requires |entries| > 0
    ensures Colors(entries) == Colors(entries[..|entries| - 1]) + {entries[|entries| - 1].color}
  {
    var init := entries[..|entries| - 1];
    forall c | c in Colors(entries)
      ensures c in Colors(init) + {entries[|entries| - 1].color}
    {
      var k :| 0 <= k < |entries| && entries[k].color == c;
      if k < |entries| - 1 {
        assert init[k].color == c;
      }
    }
    forall c | c in Colors(init)
      ensures c in Colors(entries)
    {
      var k :| 0 <= k < |init| && init[k].color == c;
      assert entries[k].color == c;
    }
  }

  /** The inverse map, when it exists, has the records' colours as keys and maps each to its record's index. */
  lemma {:induction false} InvertedEntries(entries: seq<PaletteMapEntry>)
    requires InvertEntries(entries).Ok?
    ensures InvertEntries(entries).value.Keys == Colors(entries)
    ensures forall k | 0 <= k < |entries| :: InvertEntries(entries).value[entries[k].color] == entries[k].originalIndex
  {
    if |entries| > 0 {
      var init := entries[..|entries| - 1];
      var last := entries[|entries| - 1];
      InvertedEntries(init);
      ColorsSplit(entries);
      var m := InvertEntries(init).value;
      forall k | 0 <= k < |entries|
        ensures InvertEntries(entries).value[entries[k].color] == entries[k].originalIndex
      {
        if k < |entries| - 1 {
          assert entries[k] == init[k];
        }
      }
    }
  }

  /** `ToDictionary` succeeds iff no colour appears twice. */
  lemma {:induction false} InvertEntriesOk(entries: seq<PaletteMapEntry>)
    ensures InvertEntries(entries).Ok? <==> DistinctColors(entries)
  {
    if |entries| > 0 {
      var init := entries[..|entries| - 1];
      var last := entries[|entries| - 1];
      InvertEntriesOk(init);
      if InvertEntries(init).Ok? {
        InvertedEntries(init);
        DistinctSnoc(entries);
      } else {
        assert !DistinctColors(init);
        var j, k :| 0 <= j < k < |init| && init[j].color == init[k].color;
        assert entries[j].color == entries[k].color;
      }
    }
  }

  /** Distinct colours in all records are distinct colours before the last one, and a new colour in it. */
  lemma DistinctSnoc(entries: seq<PaletteMapEntry>)
    requires |entries| > 0
    ensures DistinctColors(entries) <==>
      DistinctColors(entries[..|entries| - 1]) && entries[|entries| - 1].color !in Colors(entries[..|entries| - 1])
  {
    var init := entries[..|entries| - 1];
    var n := |entries| - 1;
    if DistinctColors(entries) {
      forall j, k | 0 <= j < k < |init|
        ensures init[j].color != init[k].color
      {
        assert init[j] == entries[j] && init[k] == entries[k];
      }
      forall j | 0 <= j < |init|
        ensures init[j].color != entries[n].color
      {
        assert init[j] == entries[j];
      }
    }
    if DistinctColors(init) && entries[n].color !in Colors(init) {
      forall j, k | 0 <= j < k < |entries|
        ensures entries[j].color != entries[k].color
      {
        if k < n {
          assert init[j] == entries[j] && init[k] == entries[k];
        } else {
          assert init[j].color in Colors(init);
        }
      }
    }
  }

  /** `ReadPalFromPalMap`: parse the side file, then invert it. */
  function ReadPalFromPalMap(bytes: seq<byte>): (r: Result<map<Rgb, byte>, MapError>)
    ensures r.Ok? <==> DistinctColors(ParsePaletteMap(bytes))
    ensures r.Ok? ==> forall k | 0 <= k < |bytes| / RecordSize ::
      RecordAt(bytes, k).color in r.value && r.value[RecordAt(bytes, k).color] == RecordAt(bytes, k).originalIndex
  {
    var entries := ParsePaletteMap(bytes);
    InvertEntriesOk(entries);
    if InvertEntries(entries).Ok? then InvertedEntries(entries); InvertEntries(entries) else InvertEntries(entries)
  }
}
