/**
 * `SoltysSystemColors.Modify`: the palette repair applied for the Soltys
 * game, which restores the "system" colours at the top of the palette
 * that some files leave zeroed.
 */
module SoltysSystemColors {
  import opened Base
  import opened Palettes
  import opened ColorUtils

  /**
   * The `Gst` table: one DAC colour per patched index, for indices 198..255
   * in order. The source declares the channels as `ushort`; every value
   * fits a byte, and several exceed the 6-bit DAC range. It is written in
   * three parts only so that each part is small enough to reason about
   * row by row.
   */
  const Gst: seq<Rgb> := GstRows198 + GstRows218 + GstRows238

  /** Rows for indices 198..217. */
  const GstRows198: seq<Rgb> := [
    Rgb(0, 60, 0), Rgb(0, 104, 0), Rgb(20, 172, 0), Rgb(82, 82, 0),
    Rgb(0, 132, 82), Rgb(132, 173, 82), Rgb(82, 0, 0), Rgb(206, 0, 24),
    Rgb(255, 33, 33), Rgb(123, 41, 0), Rgb(0, 41, 0), Rgb(0, 0, 82),
    Rgb(132, 0, 0), Rgb(255, 0, 0), Rgb(255, 66, 66), Rgb(148, 66, 16),
    Rgb(0, 82, 0), Rgb(0, 0, 132), Rgb(173, 0, 0), Rgb(255, 49, 0)
  ]

  /** Rows for indices 218..237. */
  const GstRows218: seq<Rgb> := [
    Rgb(255, 99, 99), Rgb(181, 107, 49), Rgb(0, 132, 0), Rgb(0, 0, 255),
    Rgb(173, 41, 0), Rgb(255, 82, 0), Rgb(255, 132, 132), Rgb(214, 148, 74),
    Rgb(41, 214, 0), Rgb(0, 82, 173), Rgb(255, 214, 0), Rgb(247, 132, 49),
    Rgb(255, 165, 165), Rgb(239, 198, 123), Rgb(173, 214, 0), Rgb(0, 132, 214),
    Rgb(57, 57, 57), Rgb(247, 189, 74), Rgb(255, 198, 198), Rgb(255, 239, 173)
  ]

  /** Rows for indices 238..255. */
  const GstRows238: seq<Rgb> := [
    Rgb(214, 255, 173), Rgb(82, 173, 255), Rgb(107, 107, 107), Rgb(247, 222, 99),
    Rgb(255, 0, 255), Rgb(255, 132, 255), Rgb(132, 132, 173), Rgb(148, 247, 255),
    Rgb(148, 148, 148), Rgb(82, 0, 82), Rgb(112, 68, 112), Rgb(176, 88, 144),
    Rgb(214, 132, 173), Rgb(206, 247, 255), Rgb(198, 198, 198), Rgb(0, 214, 255),
    Rgb(96, 224, 96), Rgb(255, 255, 255)
  ]

  /** First patched index: `256 - Gst.Length`. */
  const StartIndex: int := ColorsPerPalette - |Gst|

  /** The colour written for table row `i`: each channel shifted left by two, wrapping at 256. */
  function Replacement(i: nat): Rgb
    requires i < |Gst|
  {
    ColorFromDac(Gst[i])
  }

  /** The loop body for table row `i`: patch the entry only if it is exactly black. */
  function PatchEntry(p: Palette, i: nat): Palette
    requires i < |Gst|
  {
    var idx := StartIndex + i;
    if p[idx] != Black then p else p[idx := Replacement(i)]
  }

  /** The loop of `Modify` from table row `i` on. */
  function ModifyFrom(p: Palette, i: nat): (r: Palette)
    requires i <= |Gst|
    decreases |Gst| - i
    ensures forall j | 0 <= j < ColorsPerPalette ::
      r[j] == if StartIndex + i <= j && p[j] == Black then Replacement(j - StartIndex) else p[j]
  {
    if i == |Gst| then p else ModifyFrom(PatchEntry(p, i), i + 1)
  }

  /**
   * `Modify`: a missing palette stays missing; otherwise an entry changes
   * iff it lies in the last 58 and is exactly black, and then takes the
   * table's colour.
   */
  function Modify(p: Option<Palette>): (r: Option<Palette>)
    ensures p.None? <==> r.None?
    ensures p.Some? ==> forall j | 0 <= j < ColorsPerPalette ::
      r.value[j] == if StartIndex <= j && p.value[j] == Black then Replacement(j - StartIndex) else p.value[j]
  {
    match p
    case None => None
    case Some(pal) => Some(ModifyFrom(pal, 0))
  }

  /** The table covers exactly the indices 198..255. */
  lemma TableCoversTail()
    ensures |Gst| == 58 && StartIndex == 198
  {
  }

  /** A DAC colour that stays non-black once shifted to full depth. */
  predicate ShiftsToNonBlack(c: Rgb)
  {
    (4 * c.r) % 256 != 0 || (4 * c.g) % 256 != 0 || (4 * c.b) % 256 != 0
  }

  lemma Rows198NonBlack(c: Rgb)
    requires c in GstRows198
    ensures ShiftsToNonBlack(c)
  {
  }

  lemma Rows218NonBlack(c: Rgb)
    requires c in GstRows218
    ensures ShiftsToNonBlack(c)
  {
  }

  lemma Rows238NonBlack(c: Rgb)
    requires c in GstRows238
    ensures ShiftsToNonBlack(c)
  {
  }

  /** No replacement colour is black, even after wrapping. */
  lemma ReplacementNotBlack(i: nat)
    requires i < |Gst|
    ensures Replacement(i) != Black
  {
    var c := Gst[i];
    if i < 20 {
      assert c == GstRows198[i];
      Rows198NonBlack(c);
    } else if i < 40 {
      assert c == GstRows218[i - 20];
      Rows218NonBlack(c);
    } else {
      assert c == GstRows238[i - 40];
      Rows238NonBlack(c);
    }
  }

  /** Patching twice is the same as patching once. */
  lemma ModifyIdempotent(p: Option<Palette>)
    ensures Modify(Modify(p)) == Modify(p)
  {
    if p.Some? {
      var once := Modify(p).value;
      var twice := Modify(Modify(p)).value;
      forall j | 0 <= j < ColorsPerPalette
        ensures twice[j] == once[j]
      {
        if StartIndex <= j && p.value[j] == Black {
          ReplacementNotBlack(j - StartIndex);
        }
      }
      assert twice == once;
    }
  }
}
