/**
 * The pure rules of the batch driver `VbmConverter`: which palette a file
 * is decoded with, the Soltys repair of the palettes the user supplies,
 * the `.mct` side file saved next to each PNG, the non-unique colour
 * warning, and when a PNG is encoded back.
 */
module VbmBatch {
  import opened Base
  import opened Palettes
  import opened ColorUtils
  import SoltysSystemColors
  import opened VbmFormat
  import opened VbmDecoder
  import opened VbmEncoder
  import opened VbmReader
  import opened VbmRoundTrip

  // ---------------------------------------------------------------------
  // Palette lookup by file name (FindPalette)
  // ---------------------------------------------------------------------

  /** `char.ToLower` on ASCII letters; every other character is kept. */
  function LowerChar(ch: char): char
  {
    if 'A' <= ch <= 'Z' then (ch as int + 32) as char else ch
  }

  /** `string.ToLower`. */
  function Lower(s: string): (r: string)
    ensures |r| == |s|
    ensures forall i | 0 <= i < |r| :: !('A' <= r[i] <= 'Z')
    ensures forall i | 0 <= i < |s| :: 'A' <= s[i] <= 'Z' ==> r[i] as int == s[i] as int + ('a' as int - 'A' as int)
    ensures forall i | 0 <= i < |s| :: !('A' <= s[i] <= 'Z') ==> r[i] == s[i]
  {
    seq(|s|, i requires 0 <= i < |s| => LowerChar(s[i]))
  }

  /**
   * The palettes read from the palette directory, keyed by lower-cased
   * file name, in the dictionary's enumeration order.
   */
  type PaletteDir = seq<(string, Palette)>

  /** The first entry whose key is `key`: the dictionary's `TryGetValue`. */
  function KeyIndex(dir: PaletteDir, key: string): (r: Option<nat>)
    ensures r.Some? ==> (r.value < |dir| && dir[r.value].0 == key
                         && forall j | 0 <= j < r.value :: dir[j].0 != key)
    ensures r.None? ==> forall j | 0 <= j < |dir| :: dir[j].0 != key
  {
    if |dir| == 0 then None
    else if dir[0].0 == key then Some(0)
    else
      match KeyIndex(dir[1..], key)
      case None => None
      case Some(k) => Some(k + 1)
  }

  /** The first entry whose key is a prefix of `name`: `Where(StartsWith).FirstOrDefault()`. */
  function PrefixIndex(dir: PaletteDir, name: string): (r: Option<nat>)
    ensures r.Some? ==> (r.value < |dir| && dir[r.value].0 <= name
                         && forall j | 0 <= j < r.value :: !(dir[j].0 <= name))
    ensures r.None? ==> forall j | 0 <= j < |dir| :: !(dir[j].0 <= name)
  {
    if |dir| == 0 then None
    else if dir[0].0 <= name then Some(0)
    else
      match PrefixIndex(dir[1..], name)
      case None => None
      case Some(k) => Some(k + 1)
  }

  /**
   * `FindPalette`: no directory, no palette; otherwise the palette keyed
   * by the lower-cased file name, else the first whose key starts it.
   */
  function FindPalette(fileName: string, dir: Option<PaletteDir>): (r: Option<Palette>)
    ensures dir.None? ==> r.None?
    ensures dir.Some? && KeyIndex(dir.value, Lower(fileName)).Some? ==>
      r == Some(dir.value[KeyIndex(dir.value, Lower(fileName)).value].1)
    ensures dir.Some? && KeyIndex(dir.value, Lower(fileName)).None? ==>
      r == if PrefixIndex(dir.value, Lower(fileName)).Some?
           then Some(dir.value[PrefixIndex(dir.value, Lower(fileName)).value].1) else None
  {
    match dir
    case None => None
    case Some(d) =>
      var name := Lower(fileName);
      match KeyIndex(d, name)
      case Some(k) => Some(d[k].1)
      case None =>
        match PrefixIndex(d, name)
        case Some(k) => Some(d[k].1)
        case None => None
  }

  /**
   * What `FindPalette` finds, independently of its search order: an exact
   * key wins; otherwise the palette of some key that is a prefix of the
   * lower-cased name; and nothing only when no key is such a prefix.
   */
  lemma FindPaletteSpec(fileName: string, dir: PaletteDir)
    ensures var name := Lower(fileName);
      var r := FindPalette(fileName, Some(dir));
      && (forall j | 0 <= j < |dir| && dir[j].0 == name && (forall i | 0 <= i < |dir| && i != j :: dir[i].0 != name) ::
            r == Some(dir[j].1))
      && (r.Some? ==> exists j | 0 <= j < |dir| :: dir[j].0 <= name && r.value == dir[j].1)
      && (r.None? <==> forall j | 0 <= j < |dir| :: !(dir[j].0 <= name))
  {
    var name := Lower(fileName);
    var r := FindPalette(fileName, Some(dir));
    match KeyIndex(dir, name)
    case Some(k) =>
      assert dir[k].0 <= name;
    case None =>
  }

  // ---------------------------------------------------------------------
  // Which palette a file is decoded with (ToPng)
  // ---------------------------------------------------------------------

  /** The `GameType` option; only Soltys changes anything here. */
  datatype Game = Soltys | OtherGame

  /** The palettes of one `png` run: forced, fallback, the palette directory, and the game. */
  datatype PngSources = PngSources(game: Game, forced: Option<Palette>, fallback: Option<Palette>, dir: Option<PaletteDir>)

  /** The directory's palettes, each repaired. */
  function ModifyDir(dir: PaletteDir): (r: PaletteDir)
    ensures |r| == |dir|
    ensures forall j | 0 <= j < |dir| :: r[j].0 == dir[j].0 && Some(r[j].1) == SoltysSystemColors.Modify(Some(dir[j].1))
  {
    seq(|dir|, j requires 0 <= j < |dir| => (dir[j].0, SoltysSystemColors.Modify(Some(dir[j].1)).value))
  }

  /**
   * The start of `ToPng`: for the Soltys game the forced palette, the
   * fallback palette and every directory palette are repaired once;
   * for any other game nothing changes.
   */
  function Prepare(src: PngSources): (r: PngSources)
    ensures r.game == src.game
    ensures src.game != Soltys ==> r == src
    ensures src.game == Soltys ==>
      && r.forced == SoltysSystemColors.Modify(src.forced)
      && r.fallback == SoltysSystemColors.Modify(src.fallback)
      && (r.dir.Some? <==> src.dir.Some?)
      && (src.dir.Some? ==> r.dir.value == ModifyDir(src.dir.value))
  {
    if src.game != Soltys then src
    else
      var dir := match src.dir case None => None case Some(d) => Some(ModifyDir(d));
      PngSources(src.game, SoltysSystemColors.Modify(src.forced), SoltysSystemColors.Modify(src.fallback), dir)
  }

  /**
   * The palette of one file: the forced palette if any, else the file's
   * embedded one, else the directory's match, else the fallback. `None`
   * means the file is skipped.
   */
  function SelectPalette(src: PngSources, embedded: Option<Palette>, fileName: string): (r: Option<Palette>)
    ensures src.forced.Some? ==> r == src.forced
    ensures src.forced.None? && embedded.Some? ==> r == embedded
    ensures src.forced.None? && embedded.None? && FindPalette(fileName, src.dir).Some? ==> r == FindPalette(fileName, src.dir)
    ensures r.None? <==> src.forced.None? && embedded.None? && FindPalette(fileName, src.dir).None? && src.fallback.None?
    ensures r.Some? ==> r == src.forced || r == embedded || r == FindPalette(fileName, src.dir) || r == src.fallback
  {
    if src.forced.Some? then src.forced
    else if embedded.Some? then embedded
    else
      var found := FindPalette(fileName, src.dir);
      if found.Some? then found else src.fallback
  }

  /**
   * The Soltys repair reaches the palettes the user supplies but never a
   * palette embedded in the file: with no forced palette, a file's own
   * palette is used exactly as read, whatever the game; a forced palette
   * is used repaired for Soltys and as given otherwise.
   */
  lemma EmbeddedNeverPatched(src: PngSources, embedded: Option<Palette>, fileName: string)
    ensures src.forced.None? && embedded.Some? ==> SelectPalette(Prepare(src), embedded, fileName) == embedded
    ensures src.forced.Some? ==>
      SelectPalette(Prepare(src), embedded, fileName)
        == if src.game == Soltys then SoltysSystemColors.Modify(src.forced) else src.forced
    ensures src.forced.None? && embedded.None? && src.dir.None? ==>
      SelectPalette(Prepare(src), embedded, fileName)
        == if src.game == Soltys then SoltysSystemColors.Modify(src.fallback) else src.fallback
  {
  }

  // ---------------------------------------------------------------------
  // The used-colour map saved next to the PNG (SaveUsedPalette)
  // ---------------------------------------------------------------------

  /** The records for indices `i`..255 that the map holds, in ascending index order. */
  function RecordsFrom(used: map<byte, Rgb>, i: nat): (r: seq<PaletteMapEntry>)
    requires i <= ColorsPerPalette
    decreases ColorsPerPalette - i
    ensures forall k | 0 <= k < |r| :: RecordOf(used, i, r[k])
    ensures Ascending(r)
    ensures forall b: byte | b in used && i <= b as int :: PaletteMapEntry(b, used[b]) in r
  {
    if i == ColorsPerPalette then []
    else
      var b := i as byte;
      var rest := RecordsFrom(used, i + 1);
      if b in used then
        RecordsPrepend(used, i, rest);
        [PaletteMapEntry(b, used[b])] + rest
      else
        rest
  }

  /** A record of the map for an index at or after `i`. */
  predicate RecordOf(used: map<byte, Rgb>, i: int, e: PaletteMapEntry)
  {
    i <= e.originalIndex as int && e.originalIndex in used && used[e.originalIndex] == e.color
  }

  /** Records in strictly ascending index order. */
  predicate Ascending(r: seq<PaletteMapEntry>)
  {
    forall j, k | 0 <= j < k < |r| :: r[j].originalIndex < r[k].originalIndex
  }

  /** The record for index `i` in front of the records after it. */
  lemma RecordsPrepend(used: map<byte, Rgb>, i: nat, rest: seq<PaletteMapEntry>)
    requires i < ColorsPerPalette && (i as byte) in used
    requires forall k | 0 <= k < |rest| :: RecordOf(used, i + 1, rest[k])
    requires Ascending(rest)
    ensures var r := [PaletteMapEntry(i as byte, used[i as byte])] + rest;
      && (forall k | 0 <= k < |r| :: RecordOf(used, i, r[k]))
      && Ascending(r)
  {
    var r := [PaletteMapEntry(i as byte, used[i as byte])] + rest;
    forall k | 1 <= k < |r|
      ensures r[k] == rest[k - 1]
    {
    }
  }

  /**
   * `SaveUsedPalette`'s records: one per index of the used-colour map,
   * sorted by ascending index, each with the colour that index decoded to.
   */
  function UsedRecords(used: map<byte, Rgb>): (r: seq<PaletteMapEntry>)
    ensures forall k | 0 <= k < |r| :: r[k].originalIndex in used && used[r[k].originalIndex] == r[k].color
    ensures Ascending(r)
    ensures forall b | b in used :: PaletteMapEntry(b, used[b]) in r
  {
    var r := RecordsFrom(used, 0);
    assert forall k | 0 <= k < |r| :: RecordOf(used, 0, r[k]);
    r
  }

  /** No two indices of the used-colour map decoded to the same colour. */
  predicate Injective(used: map<byte, Rgb>)
  {
    forall i, j | i in used && j in used && i != j :: used[i] != used[j]
  }

  /** The records of a map carry distinct colours iff the map is injective. */
  lemma UsedRecordsDistinct(used: map<byte, Rgb>)
    ensures DistinctColors(UsedRecords(used)) <==> Injective(used)
  {
    if Injective(used) {
      InjectiveDistinct(used);
    } else {
      SharedColour(used);
    }
  }

  /** Records of distinct indices of an injective map carry distinct colours. */
  lemma InjectiveDistinct(used: map<byte, Rgb>)
    requires Injective(used)
    ensures DistinctColors(UsedRecords(used))
  {
    var r := UsedRecords(used);
    forall j, k | 0 <= j < k < |r|
      ensures r[j].color != r[k].color
    {
      assert r[j].originalIndex < r[k].originalIndex;
    }
  }

  /** Two indices decoded to one colour give two records with that colour. */
  lemma SharedColour(used: map<byte, Rgb>)
    requires !Injective(used)
    ensures !DistinctColors(UsedRecords(used))
  {
    var r := UsedRecords(used);
    var i, j :| i in used && j in used && i != j && used[i] == used[j];
    var ki :| 0 <= ki < |r| && r[ki] == PaletteMapEntry(i, used[i]);
    var kj :| 0 <= kj < |r| && r[kj] == PaletteMapEntry(j, used[j]);
    if ki < kj {
      assert r[ki].color == r[kj].color;
    } else {
      assert ki != kj;
      assert r[kj].color == r[ki].color;
    }
  }

  /**
   * Saving the used-colour map and reading the file back as `ToVbm` does:
   * it reads back iff no colour came from two indices, and then it sends
   * every decoded colour back to the index it came from.
   */
  lemma UsedMapRoundTrip(used: map<byte, Rgb>)
    ensures var m := ReadPalFromPalMap(SavePaletteMap(UsedRecords(used)));
      && (m.Ok? <==> Injective(used))
      && (m.Ok? ==> m.value.Keys == used.Values)
      && (m.Ok? ==> forall i | i in used :: m.value[used[i]] == i)
  {
    var r := UsedRecords(used);
    ParseSaved(r);
    assert ReadPalFromPalMap(SavePaletteMap(r)) == InvertEntries(r);
    UsedRecordsDistinct(used);
    InvertEntriesOk(r);
    var m := InvertEntries(r);
    if m.Ok? {
      InvertedEntries(r);
      RecordColors(used);
      forall i | i in used
        ensures m.value[used[i]] == i
      {
        var k :| 0 <= k < |r| && r[k] == PaletteMapEntry(i, used[i]);
        assert m.value[r[k].color] == r[k].originalIndex;
      }
    }
  }

  /** The colours of the saved records are the map's values. */
  lemma RecordColors(used: map<byte, Rgb>)
    ensures (set k | 0 <= k < |UsedRecords(used)| :: UsedRecords(used)[k].color) == used.Values
  {
    var r := UsedRecords(used);
    var colors := set k | 0 <= k < |r| :: r[k].color;
    forall c | c in used.Values
      ensures c in colors
    {
      var i :| i in used && used[i] == c;
      var k :| 0 <= k < |r| && r[k] == PaletteMapEntry(i, used[i]);
      assert r[k].color == c;
    }
    forall c | c in colors
      ensures c in used.Values
    {
      var k :| 0 <= k < |r| && r[k].color == c;
      assert used[r[k].originalIndex] == c;
    }
  }

  // ---------------------------------------------------------------------
  // The non-unique colour warning
  // ---------------------------------------------------------------------

  /** The colours that more than one index of the map decoded to (`GroupBy` groups of size > 1). */
  function SharedColors(used: map<byte, Rgb>): set<Rgb>
  {
    set i, j | i in used && j in used && i != j && used[i] == used[j] :: used[i]
  }

  /** A map is injective iff no colour is shared. */
  lemma SharedIffNotInjective(used: map<byte, Rgb>)
    ensures SharedColors(used) == {} <==> Injective(used)
  {
    if !Injective(used) {
      var i, j :| i in used && j in used && i != j && used[i] == used[j];
      assert used[i] in SharedColors(used);
    }
  }

  /**
   * When `ToPng` prints its non-unique colour warning. The source warns
   * iff `nonUniqueColors.Count > 1`, which stays silent when exactly one
   * colour is shared; `WarnCorrected` warns iff any colour is shared,
   * which is exactly when the saved `.mct` file cannot be read back.
   */
  datatype WarnRule = WarnAsWritten | WarnCorrected

  /** Whether the warning fires for a used-colour map. */
  function WarnsNonUnique(rule: WarnRule, used: map<byte, Rgb>): (r: bool)
    ensures rule == WarnAsWritten ==> (r <==> exists a, b | a in SharedColors(used) && b in SharedColors(used) :: a != b)
    ensures rule == WarnCorrected ==> (r <==> !Injective(used))
  {
    var s := SharedColors(used);
    SharedIffNotInjective(used);
    if rule == WarnCorrected then |s| > 0
    else if |s| > 1 then
      var a :| a in s;
      assert |s - {a}| > 0;
      var b :| b in s - {a};
      true
    else
      assert forall a, b | a in s && b in s :: a == b by {
        forall a, b | a in s && b in s
          ensures a == b
        {
          if a != b {
            assert {a, b} <= s;
            assert |{a, b}| == 2;
            SubsetCard({a, b}, s);
          }
        }
      }
      false
  }

  /** The corrected warning fires exactly for the maps whose `.mct` file `ToVbm` will refuse. */
  lemma CorrectedWarningIffUnreadable(used: map<byte, Rgb>)
    ensures WarnsNonUnique(WarnCorrected, used) <==> ReadPalFromPalMap(SavePaletteMap(UsedRecords(used))).Err?
  {
    UsedMapRoundTrip(used);
  }

  /**
   * Two indices that decoded to one colour: the as-written warning stays
   * silent, yet the saved `.mct` file cannot be read back, so `ToVbm`
   * later skips the PNG; the corrected warning fires.
   */
  lemma OneSharedColourSilent(c: Rgb)
    ensures !WarnsNonUnique(WarnAsWritten, map[1 := c, 2 := c])
    ensures ReadPalFromPalMap(SavePaletteMap(UsedRecords(map[1 := c, 2 := c]))).Err?
    ensures WarnsNonUnique(WarnCorrected, map[1 := c, 2 := c])
  {
    var used: map<byte, Rgb> := map[1 := c, 2 := c];
    assert SharedColors(used) == {c} by {
      assert used[1] == used[2] == c;
      assert c in SharedColors(used);
    }
    assert !Injective(used) by {
      assert used[1] == used[2];
    }
    UsedMapRoundTrip(used);
  }

  lemma SubsetCard(a: set<Rgb>, b: set<Rgb>)
    requires a <= b
    ensures |a| <= |b|
  {
    assert b == a + (b - a);
  }

  // ---------------------------------------------------------------------
  // The `.mct` file left on disk
  // ---------------------------------------------------------------------

  /** How the `.mct` file is opened for writing: `File.OpenWrite`, as written, keeps the old contents; `File.Create` truncates. */
  datatype OpenRule = OpenWrite | Create

  /**
   * The file on disk once `written` has been written from offset 0 into the
   * earlier file `prior` (`None` when there was none): the new bytes, then,
   * under `OpenWrite`, whatever a longer earlier file held beyond them.
   */
  function WriteOver(open: OpenRule, prior: Option<seq<byte>>, written: seq<byte>): (r: seq<byte>)
    ensures |r| == if open == OpenWrite && prior.Some? && |prior.value| > |written| then |prior.value| else |written|
    ensures r[..|written|] == written
    ensures forall k | |written| <= k < |r| :: prior.Some? && r[k] == prior.value[k]
  {
    if open == OpenWrite && prior.Some? && |prior.value| > |written| then written + prior.value[|written|..] else written
  }

  /** Records that lie within a prefix of the bytes read the same in the prefix. */
  lemma RecordInPrefix(file: seq<byte>, prefix: seq<byte>, j: nat)
    requires |prefix| <= |file| && file[..|prefix|] == prefix
    requires RecordSize * j + RecordSize <= |prefix|
    ensures RecordAt(file, j) == RecordAt(prefix, j)
  {
    assert file[4 * j] == prefix[4 * j] && file[4 * j + 1] == prefix[4 * j + 1];
    assert file[4 * j + 2] == prefix[4 * j + 2] && file[4 * j + 3] == prefix[4 * j + 3];
  }

  /**
   * A map written with `OpenWrite` over a longer earlier `.mct`: when a
   * stale record beyond the new ones carries a colour the new map also
   * uses, the file on disk no longer reads, although the new map is
   * injective and reads back on its own.
   */
  lemma StaleRecordUnreadable(prior: seq<byte>, used: map<byte, Rgb>, k: nat)
    requires Injective(used)
    requires |SavePaletteMap(UsedRecords(used))| <= RecordSize * k && RecordSize * k + RecordSize <= |prior|
    requires RecordAt(prior, k).color in used.Values
    ensures ReadPalFromPalMap(SavePaletteMap(UsedRecords(used))).Ok?
    ensures ReadPalFromPalMap(WriteOver(OpenWrite, Some(prior), SavePaletteMap(UsedRecords(used)))).Err?
  {
    var recs := UsedRecords(used);
    var written := SavePaletteMap(recs);
    UsedMapRoundTrip(used);
    var file := WriteOver(OpenWrite, Some(prior), written);
    var c := RecordAt(prior, k).color;
    RecordColors(used);
    var j :| 0 <= j < |recs| && recs[j].color == c;
    RecordInPrefix(file, written, j);
    SavedRecord(recs, j);
    assert file[4 * k] == prior[4 * k] && file[4 * k + 1] == prior[4 * k + 1];
    assert file[4 * k + 2] == prior[4 * k + 2] && file[4 * k + 3] == prior[4 * k + 3];
    var p := ParsePaletteMap(file);
    assert p[j].color == c == p[k].color;
  }

  /** With `File.Create` the earlier file does not matter: the map reads back as from a fresh file. */
  lemma CreatedMapRoundTrip(prior: Option<seq<byte>>, used: map<byte, Rgb>)
    ensures var m := ReadPalFromPalMap(WriteOver(Create, prior, SavePaletteMap(UsedRecords(used))));
      && (m.Ok? <==> Injective(used))
      && (m.Ok? ==> m.value.Keys == used.Values)
      && (m.Ok? ==> forall i | i in used :: m.value[used[i]] == i)
  {
    UsedMapRoundTrip(used);
  }

  // ---------------------------------------------------------------------
  // One file of each direction
  // ---------------------------------------------------------------------

  datatype BatchError =
    | ReadFailed(readError: ReadError)
    | DecodeFailed(decodeError: DecodeError)
    | EncodeFailed(encodeError: EncodeError)

  /**
   * `ExtractPalettes` for one file: a file with an embedded palette gives
   * that palette as `.act` bytes, one without gives nothing.
   */
  function ExtractPalette(bytes: seq<byte>): (r: Result<Option<seq<byte>>, BatchError>)
    ensures Read(bytes).Err? ==> r == Err(ReadFailed(Read(bytes).error))
    ensures Read(bytes).Ok? ==> r.Ok? && (r.value.Some? <==> ReadWord(bytes, 0) == 1)
    ensures r.Ok? && r.value.Some? ==>
      && |r.value.value| == ActSize
      && forall i | 0 <= i < ColorsPerPalette :: Triplet(r.value.value, i) == ColorFromDac(Triplet(bytes[HeaderSize..], i))
  {
    match Read(bytes)
    case Err(e) => Err(ReadFailed(e))
    case Ok(f) =>
      match f.palette
      case None => Ok(None)
      case Some(p) => Ok(Some(WriteToAct(p)))
  }

  /** An extracted palette reads back, as a forced or fallback palette, as the one the file embeds. */
  lemma ExtractedPaletteReadsBack(bytes: seq<byte>)
    requires ExtractPalette(bytes).Ok? && ExtractPalette(bytes).value.Some?
    ensures Read(bytes).Ok? && Read(bytes).value.palette.Some?
    ensures ReadFromAct(ExtractPalette(bytes).value.value) == Ok(Read(bytes).value.palette.value)
  {
    ActRoundTrip(Read(bytes).value.palette.value);
  }

  /** What `ToPng` writes for one file: the image, its `.mct` bytes, whether it warned, and the palette used. */
  datatype PngOutput = PngOutput(image: Image, mct: seq<byte>, warned: bool, palette: Palette)

  /**
   * The body of `ToPng`'s loop for one `.vbm` file, given the prepared
   * palettes: read it, choose its palette (skip it when there is none),
   * decode, and save the used-colour map sorted by index.
   */
  function ToPngFile(src: PngSources, warn: WarnRule, fileName: string, bytes: seq<byte>): (r: Result<Option<PngOutput>, BatchError>)
    ensures Read(bytes).Err? ==> r == Err(ReadFailed(Read(bytes).error))
    ensures Read(bytes).Ok? ==>
      var f := Read(bytes).value;
      var pal := SelectPalette(src, f.palette, fileName);
      && (pal.None? ==> r == Ok(None))
      && (pal.Some? ==> (r.Ok? <==> ToImage(f.(palette := pal)).Ok?))
      && (r.Ok? && r.value.Some? ==>
            var out := r.value.value;
            && pal == Some(out.palette)
            && out.image == ToImage(f.(palette := pal)).value.0
            && out.mct == SavePaletteMap(UsedRecords(ToImage(f.(palette := pal)).value.1))
            && out.warned == WarnsNonUnique(warn, ToImage(f.(palette := pal)).value.1))
  {
    match Read(bytes)
    case Err(e) => Err(ReadFailed(e))
    case Ok(f) =>
      var pal := SelectPalette(src, f.palette, fileName);
      if pal.None? then Ok(None)
      else
        match ToImage(f.(palette := pal))
        case Err(e) => Err(DecodeFailed(e))
        case Ok(decoded) =>
          var (image, used) := decoded;
          Ok(Some(PngOutput(image, SavePaletteMap(UsedRecords(used)), WarnsNonUnique(warn, used), pal.value)))
  }

  /** `ReadUsedPalette`: a missing or unreadable `.mct` file gives no map. */
  function ReadUsedPalette(mct: Option<seq<byte>>): (r: Option<map<Rgb, byte>>)
    ensures r.Some? <==> mct.Some? && ReadPalFromPalMap(mct.value).Ok?
    ensures r.Some? ==> r.value == ReadPalFromPalMap(mct.value).value
  {
    match mct
    case None => None
    case Some(b) => if ReadPalFromPalMap(b).Ok? then Some(ReadPalFromPalMap(b).value) else None
  }

  /**
   * The body of `ToVbm`'s loop for one PNG, given its `.mct` file if it
   * exists: a missing or unreadable map skips the file, otherwise it is
   * converted, and an unmapped colour fails.
   */
  function ToVbmFile(img: Image, mct: Option<seq<byte>>, embed: Option<Palette>, rule: SkipRule)
    : (r: Result<Option<seq<byte>>, BatchError>)
    requires img.Valid()
    requires ReadUsedPalette(mct).Some? && EncodePixels(img, ReadUsedPalette(mct).value, rule).Ok? ==> TableTerminates(img)
    ensures r == Ok(None) <==> ReadUsedPalette(mct).None?
    ensures ReadUsedPalette(mct).Some? ==>
      var conv := Convert(img, ReadUsedPalette(mct).value, embed, rule);
      && (r.Ok? <==> conv.Ok?)
      && (r.Ok? ==> r.value == Some(conv.value))
  {
    match ReadUsedPalette(mct)
    case None => Ok(None)
    case Some(m) =>
      match Convert(img, m, embed, rule)
      case Err(e) => Err(EncodeFailed(e))
      case Ok(bytes) => Ok(Some(bytes))
  }

  /**
   * A decoded image, with the map read back from its `.mct` bytes, is
   * faithful to the palette it was decoded with: every opaque pixel's
   * colour is mapped to an index whose palette entry is that colour.
   */
  lemma DecodedFaithful(f: VbmFile, P: Palette)
    requires f.palette == Some(P) && ToImage(f).Ok? && Injective(ToImage(f).value.1)
    ensures var m := ReadPalFromPalMap(SavePaletteMap(UsedRecords(ToImage(f).value.1)));
      m.Ok? && Faithful(SampleCanvas(ToImage(f).value.0), m.value, P)
  {
    var (img, used) := ToImage(f).value;
    UsedMapRoundTrip(used);
    var m := ReadPalFromPalMap(SavePaletteMap(UsedRecords(used))).value;
    var canvas := SampleCanvas(img);
    forall q | 0 <= q < CanvasSize && canvas[q] != Transparency
      ensures canvas[q] in m && P[m[canvas[q]]] == canvas[q]
    {
      var x := q % VirtualWidth;
      var y := q / VirtualWidth;
      assert canvas[q] == img.At(x, y);
      var i :| i in used && used[i] == canvas[q];
    }
  }

  /** A faithful image encodes. */
  lemma EncodeSucceedsFaithful(img: Image, m: map<Rgb, byte>, P: Palette, rule: SkipRule)
    requires img.Valid() && img.width <= VirtualWidth && img.height <= VirtualHeight
    requires Faithful(SampleCanvas(img), m, P) && (rule == Corrected || HazardFree(SampleCanvas(img)))
    ensures EncodePixels(img, m, rule).Ok?
  {
    ImageRoundTrip(img, m, P, rule, []);
  }

  /**
   * Converting a PNG written by `ToPng` back with `ToVbm`: the file is
   * skipped iff two indices decoded to one colour; otherwise it converts,
   * and - unless the length word wrapped - reading the result and decoding
   * it with the same palette gives the same image. The SKIP rule must drop
   * only trailing runs.
   */
  lemma PngVbmRoundTrip(src: PngSources, warn: WarnRule, fileName: string, bytes: seq<byte>, rule: SkipRule)
    requires ToPngFile(src, warn, fileName, bytes).Ok? && ToPngFile(src, warn, fileName, bytes).value.Some?
    requires var out := ToPngFile(src, warn, fileName, bytes).value.value;
      rule == Corrected || HazardFree(SampleCanvas(out.image))
    ensures var out := ToPngFile(src, warn, fileName, bytes).value.value;
      var used := ToImage(Read(bytes).value.(palette := Some(out.palette))).value.1;
      && out.image.Valid() && TableTerminates(out.image)
      && var back := ToVbmFile(out.image, Some(out.mct), None, rule);
         && (back == Ok(None) <==> !Injective(used))
         && (Injective(used) ==> back.Ok? && back.value.Some?)
         && (back.Ok? && back.value.Some? && |back.value.value| < HeaderSize + U16Limit ==>
               && Read(back.value.value).Ok?
               && ToImage(Read(back.value.value).value.(palette := Some(out.palette))).Ok?
               && ToImage(Read(back.value.value).value.(palette := Some(out.palette))).value.0 == out.image)
  {
    var out := ToPngFile(src, warn, fileName, bytes).value.value;
    var f := Read(bytes).value.(palette := Some(out.palette));
    var (img, used) := ToImage(f).value;
    UsedMapRoundTrip(used);
    if Injective(used) {
      DecodedFaithful(f, out.palette);
      var m := ReadPalFromPalMap(out.mct).value;
      EncodeSucceedsFaithful(img, m, out.palette, rule);
      if |Convert(img, m, None, rule).value| < HeaderSize + U16Limit {
        FileRoundTrip(img, m, None, out.palette, rule);
      }
    }
  }
}
