/**
 * The 256-entry colour table (`Palette.cs`): validated construction, the
 * bounds-checked indexer and the flat `.act` file format (up to 256
 * full-depth R,G,B triplets in index order).
 */
module Palettes {
  import opened Base

  /** `Palette.CountColorsPerPalette`. */
  const ColorsPerPalette: int := 256

  /** Size of a complete `.act` file: one triplet per entry. */
  const ActSize: int := 3 * ColorsPerPalette

  /** A palette always holds exactly 256 colours. */
  type Palette = s: seq<Rgb> | |s| == ColorsPerPalette witness seq(256, _ => Black)

  datatype PaletteError =
    | WrongColorCount(count: int)  // ArgumentException from the constructor
    | IndexOutOfRange(index: int)  // IndexOutOfRangeException from the indexer
    | MalformedAct(length: int)    // a truncated triplet or a 257th triplet in an .act file

  /** The constructor: accepts exactly 256 colours. */
  function Create(colors: seq<Rgb>): (r: Result<Palette, PaletteError>)
    ensures r.Ok? <==> |colors| == ColorsPerPalette
    ensures r.Ok? ==> r.value == colors
    ensures r.Err? ==> r.error == WrongColorCount(|colors|)
  {
    if |colors| != ColorsPerPalette then Err(WrongColorCount(|colors|)) else Ok(colors)
  }

  /** The indexer's getter. */
  function Get(p: Palette, index: int): (r: Result<Rgb, PaletteError>)
    ensures r.Ok? <==> 0 <= index < ColorsPerPalette
    ensures r.Ok? ==> r.value == p[index]
  {
    if 0 <= index < |p| then Ok(p[index]) else Err(IndexOutOfRange(index))
  }

  /** The indexer's setter, as a function returning the updated palette. */
  function Set(p: Palette, index: int, c: Rgb): (r: Result<Palette, PaletteError>)
    ensures r.Ok? <==> 0 <= index < ColorsPerPalette
    ensures r.Ok? ==> r.value[index] == c
    ensures r.Ok? ==> forall j | 0 <= j < ColorsPerPalette && j != index :: r.value[j] == p[j]
  {
    if 0 <= index < |p| then Ok(p[index := c]) else Err(IndexOutOfRange(index))
  }

  /** Reading an entry after setting it gives the colour set; other entries read as before. */
  lemma GetAfterSet(p: Palette, index: int, c: Rgb, other: int)
    requires Set(p, index, c).Ok?
    ensures Get(Set(p, index, c).value, index) == Ok(c)
    ensures other != index ==> Get(Set(p, index, c).value, other) == Get(p, other)
  {
  }

  /** The three bytes `BinaryWriter` emits for one colour. */
  function ColorBytes(c: Rgb): seq<byte>
  {
    [c.r, c.g, c.b]
  }

  /** The padding `WriteToAct` would emit for a missing entry. */
  const ZeroTriplet: seq<byte> := [0, 0, 0]

  /** The colour held by triplet `i` of a flat byte sequence. */
  function Triplet(bytes: seq<byte>, i: nat): Rgb
    requires 3 * i + 3 <= |bytes|
  {
    Rgb(bytes[3 * i], bytes[3 * i + 1], bytes[3 * i + 2])
  }

  /** Prefixing one triplet shifts every later triplet by one. */
  lemma TripletsAfterHead(head: seq<byte>, rest: seq<byte>)
    requires |head| == 3
    ensures Triplet(head + rest, 0) == Triplet(head, 0)
    ensures forall j | 1 <= j && 3 * j + 3 <= |head + rest| :: Triplet(head + rest, j) == Triplet(rest, j - 1)
  {
  }

  /** Two byte sequences of whole triplets that agree triplet by triplet are equal. */
  lemma TripletsDetermine(a: seq<byte>, b: seq<byte>)
    requires |a| == |b| && |a| % 3 == 0
    requires forall i | 0 <= i && 3 * i + 3 <= |a| :: Triplet(a, i) == Triplet(b, i)
    ensures a == b
  {
    forall k | 0 <= k < |a|
      ensures a[k] == b[k]
    {
      var i := k / 3;
      assert 3 * i + 3 <= |a|;
      assert Triplet(a, i) == Triplet(b, i);
    }
  }

  /** The loop of `WriteToAct` from entry `i` on, including its zero-padding branch. */
  function ActBytesFrom(p: Palette, i: nat): (r: seq<byte>)
    requires i <= ColorsPerPalette
    decreases ColorsPerPalette - i
    ensures |r| == 3 * (ColorsPerPalette - i)
  {
    if i == ColorsPerPalette then []
    else (if i < |p| then ColorBytes(p[i]) else ZeroTriplet) + ActBytesFrom(p, i + 1)
  }

  /** Triplet `j - i` of the loop's output from entry `i` is entry `j`. */
  lemma {:induction false} ActBytesFromTriplet(p: Palette, i: nat, j: nat)
    requires i <= j < ColorsPerPalette
    decreases j - i
    ensures Triplet(ActBytesFrom(p, i), j - i) == p[j]
  {
    var rest := ActBytesFrom(p, i + 1);
    assert ActBytesFrom(p, i) == ColorBytes(p[i]) + rest;
    if i < j {
      ActBytesFromTriplet(p, i + 1, j);
      TripletsAfterHead(ColorBytes(p[i]), rest);
    }
  }

  /** `WriteToAct`: exactly 768 bytes, triplet `i` holding entry `i`. */
  function WriteToAct(p: Palette): (r: seq<byte>)
    ensures |r| == ActSize
    ensures forall i | 0 <= i < ColorsPerPalette :: Triplet(r, i) == p[i]
  {
    var r := ActBytesFrom(p, 0);
    assert forall i | 0 <= i < ColorsPerPalette :: Triplet(r, i) == p[i] by {
      forall i | 0 <= i < ColorsPerPalette
        ensures Triplet(r, i) == p[i]
      {
        ActBytesFromTriplet(p, 0, i);
      }
    }
    r
  }

  /** The read loop of `ReadFromAct`: triplet `i` lands in entry `i`. */
  function ReadEntries(bytes: seq<byte>, i: nat, result: Palette): (r: Result<Palette, PaletteError>)
    requires i <= ColorsPerPalette && 3 * i <= |bytes|
    decreases |bytes| - 3 * i
    ensures r.Ok? <==> |bytes| % 3 == 0 && |bytes| <= ActSize
    ensures r.Ok? ==> forall j | 0 <= j < ColorsPerPalette ::
      r.value[j] == if i <= j && 3 * j + 3 <= |bytes| then Triplet(bytes, j) else result[j]
  {
    if 3 * i == |bytes| then Ok(result)
    else if |bytes| - 3 * i < 3 then Err(MalformedAct(|bytes|))
    else if i >= ColorsPerPalette then Err(MalformedAct(|bytes|))
    else ReadEntries(bytes, i + 1, result[i := Triplet(bytes, i)])
  }

  /**
   * `ReadFromAct`: succeeds iff the file is whole triplets, at most 256 of
   * them; entries past the last triplet stay black.
   */
  function ReadFromAct(bytes: seq<byte>): (r: Result<Palette, PaletteError>)
    ensures r.Ok? <==> |bytes| % 3 == 0 && |bytes| <= ActSize
    ensures r.Ok? ==> forall i | 0 <= i < ColorsPerPalette ::
      r.value[i] == if 3 * i + 3 <= |bytes| then Triplet(bytes, i) else Black
  {
    ReadEntries(bytes, 0, seq(ColorsPerPalette, _ => Black))
  }

  /** Writing a palette and reading it back gives the same palette. */
  lemma ActRoundTrip(p: Palette)
    ensures ReadFromAct(WriteToAct(p)) == Ok(p)
  {
    var w := WriteToAct(p);
    ReadWholeAct(w);
    var q := ReadFromAct(w).value;
    assert forall i | 0 <= i < ColorsPerPalette :: q[i] == p[i];
    assert q == p;
  }

  /** A full-size `.act` file reads as its 256 triplets. */
  lemma ReadWholeAct(w: seq<byte>)
    requires |w| == ActSize
    ensures ReadFromAct(w).Ok?
    ensures forall i | 0 <= i < ColorsPerPalette :: ReadFromAct(w).value[i] == Triplet(w, i)
  {
  }

  /** Reading a valid `.act` file and writing it back pads it with zero bytes to 768. */
  lemma ActReadWrite(bytes: seq<byte>)
    requires |bytes| % 3 == 0 && |bytes| <= ActSize
    ensures WriteToAct(ReadFromAct(bytes).value) == bytes + seq(ActSize - |bytes|, _ => 0)
  {
    var p := ReadFromAct(bytes).value;
    var w := WriteToAct(p);
    assert forall i | 0 <= i < ColorsPerPalette :: Triplet(w, i) == p[i];
    PaddedDetermined(w, bytes);
  }

  /** A full-size file whose triplets are those of `bytes`, then black, is `bytes` padded with zeros. */
  lemma PaddedDetermined(w: seq<byte>, bytes: seq<byte>)
    requires |bytes| % 3 == 0 && |bytes| <= ActSize && |w| == ActSize
    requires forall i | 0 <= i < ColorsPerPalette :: Triplet(w, i) == if 3 * i + 3 <= |bytes| then Triplet(bytes, i) else Black
    ensures w == bytes + seq(ActSize - |bytes|, _ => 0)
  {
    var padded := bytes + seq(ActSize - |bytes|, _ => 0);
    forall i | 0 <= i && 3 * i + 3 <= ActSize
      ensures Triplet(w, i) == Triplet(padded, i)
    {
      PaddedTriplet(bytes, i);
    }
    TripletsDetermine(w, padded);
  }

  /** Triplets of a zero-padded file: the file's own, then black. */
  lemma PaddedTriplet(bytes: seq<byte>, i: nat)
    requires |bytes| % 3 == 0 && |bytes| <= ActSize
    requires 3 * i + 3 <= ActSize
    ensures Triplet(bytes + seq(ActSize - |bytes|, _ => 0), i)
      == if 3 * i + 3 <= |bytes| then Triplet(bytes, i) else Black
  {
    var padded := bytes + seq(ActSize - |bytes|, _ => 0);
    if 3 * i + 3 > |bytes| {
      assert 3 * i >= |bytes|;
    }
  }
}
