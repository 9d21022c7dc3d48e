/**
 * Encoding an image with `ToVbmConverter` and decoding it with
 * `VbmFile.ToImage` gives the image back: when every opaque colour is
 * mapped to an index whose palette entry is that colour, the image fits
 * the canvas, and the SKIP rule drops only trailing runs.
 */
module VbmRoundTrip {
  import opened Base
  import opened Palettes
  import opened VbmFormat
  import opened VbmDecoder
  import opened VbmDecoderFacts
  import opened VbmEncoder
  import opened VbmEncoderFacts
  import opened VbmReader

  // ---------------------------------------------------------------------
  // The SKIP rule
  // ---------------------------------------------------------------------

  /**
   * No plane ends on an opaque position right after a transparent one:
   * for each of the last four canvas positions q, q is transparent or
   * q - 4 is opaque. These are the inputs the as-written SKIP rule
   * mis-encodes.
   */
  ghost predicate HazardFree(canvas: seq<Rgb>)
    requires |canvas| == CanvasSize
  {
    && NoHazardAt(canvas, CanvasSize - 4)
    && NoHazardAt(canvas, CanvasSize - 3)
    && NoHazardAt(canvas, CanvasSize - 2)
    && NoHazardAt(canvas, CanvasSize - 1)
  }

  /** Position `q` is transparent or the position one plane step before it is opaque. */
  ghost predicate NoHazardAt(canvas: seq<Rgb>, q: int)
    requires PlaneCount <= q < |canvas|
  {
    canvas[q] == Transparency || canvas[q - PlaneCount] != Transparency
  }

  /** A transparent run ends on a transparent position, and stops inside the canvas only before an opaque one. */
  lemma TransparentRunEnd(canvas: seq<Rgb>, pos: nat)
    requires |canvas| == CanvasSize && pos < CanvasSize && canvas[pos] == Transparency
    ensures var next := pos + 4 * RunLength(canvas, pos, true, MaxCount);
      && pos < next && next - 4 < CanvasSize && canvas[next - 4] == Transparency
      && (next < CanvasSize ==> canvas[next] != Transparency)
  {
    var n := RunLength(canvas, pos, true, MaxCount);
    RunUniform(canvas, pos, true, MaxCount);
    assert canvas[RunPos(pos, n - 1)] == Transparency;
  }

  /** On a hazard-free canvas the as-written rule drops only SKIPs that run off the canvas. */
  lemma NoDroppedSkip(canvas: seq<Rgb>, pos: nat)
    requires |canvas| == CanvasSize && HazardFree(canvas)
    requires pos < CanvasSize && canvas[pos] == Transparency
    ensures var next := pos + 4 * RunLength(canvas, pos, true, MaxCount);
      SkipWritten(AsWritten, next) || next >= CanvasSize
  {
    TransparentRunEnd(canvas, pos);
    var next := pos + 4 * RunLength(canvas, pos, true, MaxCount);
    if CanvasSize - PlaneCount <= next < CanvasSize {
      HazardAt(canvas, next);
    }
  }

  /** Each of the last four positions of a hazard-free canvas is free of the hazard. */
  lemma HazardAt(canvas: seq<Rgb>, q: int)
    requires |canvas| == CanvasSize && HazardFree(canvas) && CanvasSize - PlaneCount <= q < CanvasSize
    ensures NoHazardAt(canvas, q)
  {
  }

  /** Every position of a run lies inside the canvas and has the run's kind. */
  lemma RunKind(canvas: seq<Rgb>, pos: nat, transparent: bool)
    requires |canvas| == CanvasSize
    ensures var n := RunLength(canvas, pos, transparent, MaxCount);
      forall q | OnPlane(q, pos) && q < pos + 4 * n :: q < CanvasSize && (canvas[q] == Transparency) == transparent
  {
    var n := RunLength(canvas, pos, transparent, MaxCount);
    RunUniform(canvas, pos, transparent, MaxCount);
    forall q | OnPlane(q, pos) && q < pos + 4 * n
      ensures q < CanvasSize && (canvas[q] == Transparency) == transparent
    {
      RunStep(q, pos, n);
      var k := (q - pos) / 4;
      assert (canvas[RunPos(pos, k)] == Transparency) == transparent;
    }
  }

  // ---------------------------------------------------------------------
  // The commands show the canvas
  // ---------------------------------------------------------------------

  /** Every opaque position is mapped to an index whose palette entry is that colour. */
  ghost predicate Faithful(canvas: seq<Rgb>, mapping: map<Rgb, byte>, P: Palette)
    requires |canvas| == CanvasSize
  {
    forall q | 0 <= q < CanvasSize && canvas[q] != Transparency ::
      canvas[q] in mapping && P[mapping[canvas[q]]] == canvas[q]
  }

  /** An end word shows a plane whose remaining positions are transparent. */
  lemma ShowsEnd(pos: nat, expected: seq<Rgb>, P: Palette)
    requires |expected| == CanvasSize
    requires forall q | OnPlane(q, pos) && q < CanvasSize :: expected[q] == Transparency
    ensures PlaneShows([End], pos, expected, P)
  {
  }

  /** A SKIP over transparent positions in front of commands that show the rest of the plane. */
  lemma ShowsSkip(n: nat, rest: seq<Command>, pos: nat, expected: seq<Rgb>, P: Palette)
    requires |expected| == CanvasSize
    requires forall q | OnPlane(q, pos) && q < pos + 4 * n && q < CanvasSize :: expected[q] == Transparency
    requires PlaneShows(rest, pos + 4 * n, expected, P)
    ensures PlaneShows([Skip(n)] + rest, pos, expected, P)
  {
    assert ([Skip(n)] + rest)[1..] == rest;
  }

  /** A COPY of indices whose colours are the positions' in front of commands that show the rest. */
  lemma ShowsCopy(indices: seq<byte>, rest: seq<Command>, pos: nat, expected: seq<Rgb>, P: Palette)
    requires |expected| == CanvasSize
    requires |indices| == 0 || pos + 4 * (|indices| - 1) < CanvasSize
    requires forall k | 0 <= k < |indices| :: expected[RunPos(pos, k)] == P[indices[k]]
    requires PlaneShows(rest, pos + 4 * |indices|, expected, P)
    ensures PlaneShows([Copy(indices)] + rest, pos, expected, P)
  {
    assert ([Copy(indices)] + rest)[1..] == rest;
  }

  /** The indices of an opaque run name its colours, given a faithful palette. */
  lemma CopyColours(canvas: seq<Rgb>, mapping: map<Rgb, byte>, P: Palette, pos: nat)
    requires |canvas| == CanvasSize && Faithful(canvas, mapping, P)
    requires CopyIndices(canvas, mapping, pos, RunLength(canvas, pos, false, MaxCount)).Ok?
    ensures var n := RunLength(canvas, pos, false, MaxCount);
      var indices := CopyIndices(canvas, mapping, pos, n).value;
      forall k | 0 <= k < |indices| :: canvas[RunPos(pos, k)] == P[indices[k]]
  {
    var n := RunLength(canvas, pos, false, MaxCount);
    var indices := CopyIndices(canvas, mapping, pos, n).value;
    RunUniform(canvas, pos, false, MaxCount);
    CopyIndicesMapped(canvas, mapping, pos, n);
    forall k | 0 <= k < |indices|
      ensures canvas[RunPos(pos, k)] == P[indices[k]]
    {
      assert canvas[RunPos(pos, k)] != Transparency;
    }
  }

  /**
   * The commands the encoder writes for a plane from `pos` show the
   * canvas along that plane, given a faithful palette and a SKIP rule
   * that drops only trailing runs.
   */
  lemma {:induction false} EncodeShows(canvas: seq<Rgb>, mapping: map<Rgb, byte>, P: Palette, rule: SkipRule, pos: nat)
    requires |canvas| == CanvasSize && (rule == Corrected || HazardFree(canvas)) && Faithful(canvas, mapping, P)
    requires EncodeFrom(canvas, mapping, rule, pos).Ok?
    decreases CanvasSize - pos
    ensures PlaneShows(EncodeFrom(canvas, mapping, rule, pos).value, pos, canvas, P)
  {
    if pos >= CanvasSize {
      ShowsEnd(pos, canvas, P);
    } else {
      var run, rest := RunThenRest(canvas, mapping, rule, pos);
      EncodeShows(canvas, mapping, P, rule, pos + 4 * run.length);
      RunShows(canvas, mapping, P, rule, pos, run, rest);
    }
  }

  /** A plane that does not fail is its first run's commands, then the plane after that run. */
  lemma RunThenRest(canvas: seq<Rgb>, mapping: map<Rgb, byte>, rule: SkipRule, pos: nat)
    returns (run: Run, rest: seq<Command>)
    requires |canvas| == CanvasSize && pos < CanvasSize
    requires EncodeFrom(canvas, mapping, rule, pos).Ok?
    ensures NextRun(canvas, mapping, rule, pos) == Ok(run)
    ensures EncodeFrom(canvas, mapping, rule, pos + 4 * run.length) == Ok(rest)
    ensures pos + 4 * run.length >= CanvasSize ==> rest == [End]
    ensures EncodeFrom(canvas, mapping, rule, pos).value == run.written + rest
  {
    run := NextRun(canvas, mapping, rule, pos).value;
    rest := EncodeFrom(canvas, mapping, rule, pos + 4 * run.length).value;
  }

  /**
   * The commands of one run, in front of commands that show the plane
   * after it, show the plane from the run's start: a SKIP covers
   * transparent positions, a COPY names the run's colours, and a dropped
   * SKIP only ever stands for the transparent tail of the plane.
   */
  lemma RunShows(canvas: seq<Rgb>, mapping: map<Rgb, byte>, P: Palette, rule: SkipRule, pos: nat, run: Run, rest: seq<Command>)
    requires |canvas| == CanvasSize && (rule == Corrected || HazardFree(canvas)) && Faithful(canvas, mapping, P)
    requires pos < CanvasSize && NextRun(canvas, mapping, rule, pos) == Ok(run)
    requires pos + 4 * run.length >= CanvasSize ==> rest == [End]
    requires PlaneShows(rest, pos + 4 * run.length, canvas, P)
    ensures PlaneShows(run.written + rest, pos, canvas, P)
  {
    if canvas[pos] != Transparency {
      CopyRunShows(canvas, mapping, P, rule, pos, run, rest);
    } else if |run.written| == 1 {
      RunKind(canvas, pos, true);
      assert run.written == [Skip(run.length)];
      ShowsSkip(run.length, rest, pos, canvas, P);
    } else {
      DroppedShows(canvas, P, rule, pos, run, rest);
    }
  }

  /** An opaque run written as a COPY shows its indices' colours, then the rest of the plane. */
  lemma CopyRunShows(canvas: seq<Rgb>, mapping: map<Rgb, byte>, P: Palette, rule: SkipRule, pos: nat, run: Run, rest: seq<Command>)
    requires |canvas| == CanvasSize && Faithful(canvas, mapping, P)
    requires pos < CanvasSize && canvas[pos] != Transparency
    requires NextRun(canvas, mapping, rule, pos) == Ok(run)
    requires PlaneShows(rest, pos + 4 * run.length, canvas, P)
    ensures PlaneShows(run.written + rest, pos, canvas, P)
  {
    var n := RunLength(canvas, pos, false, MaxCount);
    CopyColours(canvas, mapping, P, pos);
    var indices := CopyIndices(canvas, mapping, pos, n).value;
    assert run.written == [Copy(indices)];
    ShowsCopy(indices, rest, pos, canvas, P);
  }

  /**
   * A transparent run whose SKIP was dropped runs to the end of the plane:
   * the plane is just its end word, and every remaining position is transparent.
   */
  lemma DroppedShows(canvas: seq<Rgb>, P: Palette, rule: SkipRule, pos: nat, run: Run, rest: seq<Command>)
    requires |canvas| == CanvasSize && (rule == Corrected || HazardFree(canvas))
    requires pos < CanvasSize && canvas[pos] == Transparency
    requires run.length == RunLength(canvas, pos, true, MaxCount)
    requires !SkipWritten(rule, pos + 4 * run.length)
    requires pos + 4 * run.length >= CanvasSize ==> rest == [End]
    ensures rest == [End]
    ensures PlaneShows(rest, pos, canvas, P)
  {
    if rule == AsWritten {
      NoDroppedSkip(canvas, pos);
    }
    RunKind(canvas, pos, true);
    ShowsEnd(pos, canvas, P);
  }

  // ---------------------------------------------------------------------
  // Decoding what was encoded
  // ---------------------------------------------------------------------

  /**
   * Decoding one encoded plane, over a canvas that is transparent along
   * the plane: the decoder reads exactly the plane's bytes and leaves
   * every position of the plane holding the colour the encoder sampled.
   */
  lemma PlaneRoundTrip(data: seq<byte>, P: Palette, canvas: seq<Rgb>, mapping: map<Rgb, byte>, rule: SkipRule, c: Cursor)
    requires |canvas| == CanvasSize && |c.canvas| == CanvasSize
    requires rule == Corrected || HazardFree(canvas)
    requires Faithful(canvas, mapping, P)
    requires EncodeFrom(canvas, mapping, rule, c.pos).Ok?
    requires IsAt(data, c.src, StreamBytes(EncodeFrom(canvas, mapping, rule, c.pos).value))
    requires forall q | OnPlane(q, c.pos) && q < CanvasSize :: c.canvas[q] == Transparency
    ensures var r := DecodePlane(data, Some(P), c);
      && r.Ok? && r.value.src == c.src + |StreamBytes(EncodeFrom(canvas, mapping, rule, c.pos).value)|
      && forall q | OnPlane(q, c.pos) && q < CanvasSize :: r.value.canvas[q] == canvas[q]
  {
    EncodeShows(canvas, mapping, P, rule, c.pos);
    PlaneDecodes(data, P, EncodeFrom(canvas, mapping, rule, c.pos).value, c, canvas);
  }

  /**
   * The canvas once the planes before `plane` are decoded: their
   * positions hold the sampled colours, the others are still transparent.
   */
  ghost predicate DecodedBefore(got: seq<Rgb>, want: seq<Rgb>, plane: nat)
    requires |got| == CanvasSize && |want| == CanvasSize
  {
    forall q | 0 <= q < CanvasSize :: got[q] == if q % PlaneCount < plane then want[q] else Transparency
  }

  /** Before plane `plane` is decoded, its positions are transparent. */
  lemma PlaneStillBlank(got: seq<Rgb>, want: seq<Rgb>, plane: nat)
    requires |got| == CanvasSize && |want| == CanvasSize && plane < PlaneCount
    requires DecodedBefore(got, want, plane)
    ensures forall q | OnPlane(q, plane) && q < CanvasSize :: got[q] == Transparency
  {
    forall q | OnPlane(q, plane) && q < CanvasSize
      ensures got[q] == Transparency
    {
      OnPlaneResidue(q, plane);
    }
  }

  /** Decoding plane `plane` into its sampled colours, leaving the rest alone, moves on to the next plane. */
  lemma PlaneDone(got: seq<Rgb>, next: seq<Rgb>, want: seq<Rgb>, plane: nat)
    requires |got| == CanvasSize && |next| == CanvasSize && |want| == CanvasSize && plane < PlaneCount
    requires DecodedBefore(got, want, plane)
    requires forall q | OnPlane(q, plane) && q < CanvasSize :: next[q] == want[q]
    requires forall q | 0 <= q < CanvasSize && !OnPlane(q, plane) :: next[q] == got[q]
    ensures DecodedBefore(next, want, plane + 1)
  {
    forall q | 0 <= q < CanvasSize
      ensures next[q] == if q % PlaneCount < plane + 1 then want[q] else Transparency
    {
      OnPlaneResidue(q, plane);
    }
  }

  /** One turn of the decoder's plane loop: decode plane `plane`, then go on from where it stopped. */
  lemma DecodePlanesStep(data: seq<byte>, pal: Option<Palette>, plane: nat, src: nat, canvas: seq<Rgb>, used: map<byte, Rgb>)
    requires plane < PlaneCount && |canvas| == CanvasSize
    requires DecodePlane(data, pal, Cursor(src, plane, canvas, used)).Ok?
    ensures var done := DecodePlane(data, pal, Cursor(src, plane, canvas, used)).value;
      DecodePlanes(data, pal, plane, src, canvas, used) == DecodePlanes(data, pal, plane + 1, done.src, done.canvas, done.used)
  {
  }

  /**
   * Decoding the first of the encoded planes `plane`..3 over a canvas
   * whose earlier planes are done: the decoder reads that plane's bytes,
   * stops where the next plane's bytes start, and has one more plane done.
   */
  lemma FirstPlaneRoundTrip(data: seq<byte>, P: Palette, canvas: seq<Rgb>, mapping: map<Rgb, byte>, rule: SkipRule,
                            plane: nat, src: nat, got: seq<Rgb>, used: map<byte, Rgb>)
    requires |canvas| == CanvasSize && |got| == CanvasSize && plane < PlaneCount
    requires rule == Corrected || HazardFree(canvas)
    requires Faithful(canvas, mapping, P)
    requires EncodePlanes(canvas, mapping, rule, plane).Ok?
    requires IsAt(data, src, StreamBytes(EncodePlanes(canvas, mapping, rule, plane).value))
    requires DecodedBefore(got, canvas, plane)
    ensures EncodePlanes(canvas, mapping, rule, plane + 1).Ok?
    ensures var r := DecodePlane(data, Some(P), Cursor(src, plane, got, used));
      var rest := StreamBytes(EncodePlanes(canvas, mapping, rule, plane + 1).value);
      && r.Ok? && |r.value.canvas| == CanvasSize
      && DecodedBefore(r.value.canvas, canvas, plane + 1)
      && r.value.src + |rest| == src + |StreamBytes(EncodePlanes(canvas, mapping, rule, plane).value)|
  {
    var cs, rest := FirstPlaneShows(data, P, canvas, mapping, rule, plane, src);
    PlaneDecodedOver(data, P, canvas, cs, Cursor(src, plane, got, used));
  }

  /** Where the bytes of planes `plane`..3 occur, those of planes `plane + 1`..3 occur at their end. */
  lemma LaterPlanesAt(data: seq<byte>, canvas: seq<Rgb>, mapping: map<Rgb, byte>, rule: SkipRule,
                      plane: nat, src: nat, next: nat)
    requires |canvas| == CanvasSize && plane < PlaneCount
    requires EncodePlanes(canvas, mapping, rule, plane).Ok?
    requires IsAt(data, src, StreamBytes(EncodePlanes(canvas, mapping, rule, plane).value))
    requires EncodePlanes(canvas, mapping, rule, plane + 1).Ok?
    requires next + |StreamBytes(EncodePlanes(canvas, mapping, rule, plane + 1).value)|
      == src + |StreamBytes(EncodePlanes(canvas, mapping, rule, plane).value)|
    ensures IsAt(data, next, StreamBytes(EncodePlanes(canvas, mapping, rule, plane + 1).value))
  {
    PlanesSplit(canvas, mapping, rule, plane);
    var head := StreamBytes(EncodeFrom(canvas, mapping, rule, plane).value);
    var rest := StreamBytes(EncodePlanes(canvas, mapping, rule, plane + 1).value);
    IsAtSplit(data, src, head, rest);
    IsAtSame(data, src + |head|, next, rest);
  }

  /**
   * The encoded planes `plane`..3 in `data`: the commands `cs` of plane
   * `plane`, which show the canvas along it, then the bytes `rest` of the
   * later planes.
   */
  lemma FirstPlaneShows(data: seq<byte>, P: Palette, canvas: seq<Rgb>, mapping: map<Rgb, byte>, rule: SkipRule,
                        plane: nat, src: nat) returns (cs: seq<Command>, rest: seq<byte>)
    requires |canvas| == CanvasSize && plane < PlaneCount
    requires rule == Corrected || HazardFree(canvas)
    requires Faithful(canvas, mapping, P)
    requires EncodePlanes(canvas, mapping, rule, plane).Ok?
    requires IsAt(data, src, StreamBytes(EncodePlanes(canvas, mapping, rule, plane).value))
    ensures EncodePlanes(canvas, mapping, rule, plane + 1).Ok?
    ensures rest == StreamBytes(EncodePlanes(canvas, mapping, rule, plane + 1).value)
    ensures forall i | 0 <= i < |cs| :: Encodable(cs[i])
    ensures PlaneShows(cs, plane, canvas, P)
    ensures IsAt(data, src, StreamBytes(cs))
    ensures |StreamBytes(cs)| + |rest| == |StreamBytes(EncodePlanes(canvas, mapping, rule, plane).value)|
  {
    PlanesSplit(canvas, mapping, rule, plane);
    cs := EncodeFrom(canvas, mapping, rule, plane).value;
    rest := StreamBytes(EncodePlanes(canvas, mapping, rule, plane + 1).value);
    EncodeShows(canvas, mapping, P, rule, plane);
    IsAtSplit(data, src, StreamBytes(cs), rest);
  }

  /** The encoded planes `plane`..3 are plane `plane`'s commands followed by those of the later planes. */
  lemma PlanesSplit(canvas: seq<Rgb>, mapping: map<Rgb, byte>, rule: SkipRule, plane: nat)
    requires |canvas| == CanvasSize && plane < PlaneCount
    requires EncodePlanes(canvas, mapping, rule, plane).Ok?
    ensures EncodeFrom(canvas, mapping, rule, plane).Ok? && EncodePlanes(canvas, mapping, rule, plane + 1).Ok?
    ensures StreamBytes(EncodePlanes(canvas, mapping, rule, plane).value)
      == StreamBytes(EncodeFrom(canvas, mapping, rule, plane).value) + StreamBytes(EncodePlanes(canvas, mapping, rule, plane + 1).value)
  {
    EncodePlanesStep(canvas, mapping, rule, plane);
    StreamBytesAppend(EncodeFrom(canvas, mapping, rule, plane).value, EncodePlanes(canvas, mapping, rule, plane + 1).value);
  }

  /** Decoding plane `c.pos` from commands that show `want`, over a canvas whose earlier planes are done, gets one more plane done. */
  lemma PlaneDecodedOver(data: seq<byte>, P: Palette, want: seq<Rgb>, cs: seq<Command>, c: Cursor)
    requires |want| == CanvasSize && |c.canvas| == CanvasSize && c.pos < PlaneCount
    requires forall i | 0 <= i < |cs| :: Encodable(cs[i])
    requires PlaneShows(cs, c.pos, want, P)
    requires IsAt(data, c.src, StreamBytes(cs))
    requires DecodedBefore(c.canvas, want, c.pos)
    ensures var r := DecodePlane(data, Some(P), c);
      && r.Ok? && |r.value.canvas| == CanvasSize
      && DecodedBefore(r.value.canvas, want, c.pos + 1)
      && r.value.src == c.src + |StreamBytes(cs)|
  {
    PlaneStillBlank(c.canvas, want, c.pos);
    PlaneDecodes(data, P, cs, c, want);
    DecodePlaneFrame(data, Some(P), c);
    PlaneDone(c.canvas, DecodePlane(data, Some(P), c).value.canvas, want, c.pos);
  }

  /**
   * Decoding the encoded planes `plane`..3 over a canvas whose earlier
   * planes are done: the decoder reads exactly their bytes and ends with
   * the sampled canvas.
   */
  lemma {:induction false} PlanesRoundTrip(data: seq<byte>, P: Palette, canvas: seq<Rgb>, mapping: map<Rgb, byte>, rule: SkipRule,
                                           plane: nat, src: nat, got: seq<Rgb>, used: map<byte, Rgb>)
    requires |canvas| == CanvasSize && |got| == CanvasSize && plane <= PlaneCount
    requires rule == Corrected || HazardFree(canvas)
    requires Faithful(canvas, mapping, P)
    requires EncodePlanes(canvas, mapping, rule, plane).Ok?
    requires IsAt(data, src, StreamBytes(EncodePlanes(canvas, mapping, rule, plane).value))
    requires DecodedBefore(got, canvas, plane)
    decreases PlaneCount - plane
    ensures var r := DecodePlanes(data, Some(P), plane, src, got, used);
      && r.Ok? && r.value.src == src + |StreamBytes(EncodePlanes(canvas, mapping, rule, plane).value)|
      && r.value.canvas == canvas
  {
    if plane == PlaneCount {
      assert got == canvas;
    } else {
      FirstPlaneRoundTrip(data, P, canvas, mapping, rule, plane, src, got, used);
      var done := DecodePlane(data, Some(P), Cursor(src, plane, got, used)).value;
      LaterPlanesAt(data, canvas, mapping, rule, plane, src, done.src);
      DecodePlanesStep(data, Some(P), plane, src, got, used);
      PlanesRoundTrip(data, P, canvas, mapping, rule, plane + 1, done.src, done.canvas, done.used);
    }
  }

  /** Two valid images of one size with the same pixels are the same image. */
  lemma SameImage(a: Image, b: Image)
    requires a.Valid() && b.Valid() && a.width == b.width && a.height == b.height
    requires forall x, y | 0 <= x < a.width && 0 <= y < a.height :: a.At(x, y) == b.At(x, y)
    ensures a == b
  {
    forall y | 0 <= y < a.height
      ensures a.rows[y] == b.rows[y]
    {
      forall x | 0 <= x < a.width
        ensures a.rows[y][x] == b.rows[y][x]
      {
        assert a.At(x, y) == b.At(x, y);
      }
    }
  }

  /**
   * The whole stream: every opaque position of a faithful canvas is
   * mapped, so all four planes encode, and decoding their bytes from a
   * blank canvas gives the canvas back.
   */
  lemma CanvasRoundTrip(canvas: seq<Rgb>, mapping: map<Rgb, byte>, P: Palette, rule: SkipRule, data: seq<byte>)
    requires |canvas| == CanvasSize
    requires rule == Corrected || HazardFree(canvas)
    requires Faithful(canvas, mapping, P)
    ensures EncodePlanes(canvas, mapping, rule, 0).Ok?
    ensures IsAt(data, 0, StreamBytes(EncodePlanes(canvas, mapping, rule, 0).value)) ==>
      var r := DecodePlanes(data, Some(P), 0, 0, BlankCanvas(), map[]);
      r.Ok? && r.value.canvas == canvas
  {
    AllPlanesMapped(canvas, mapping);
    EncodePlanesFromOk(canvas, mapping, rule, 0);
    if IsAt(data, 0, StreamBytes(EncodePlanes(canvas, mapping, rule, 0).value)) {
      PlanesRoundTrip(data, P, canvas, mapping, rule, 0, 0, BlankCanvas(), map[]);
    }
  }

  /** A file whose planes decode to an image's sampled canvas, with the image's size, decodes to that image. */
  lemma DecodedImage(img: Image, f: VbmFile)
    requires img.Valid() && img.width <= VirtualWidth && img.height <= VirtualHeight
    requires f.width == img.width && f.height == img.height
    requires var d := DecodePlanes(f.data, f.palette, 0, 0, BlankCanvas(), map[]);
      d.Ok? && d.value.canvas == SampleCanvas(img)
    ensures ToImage(f).Ok? && ToImage(f).value.0 == img
  {
    var r := ToImage(f);
    forall x, y | 0 <= x < img.width && 0 <= y < img.height
      ensures r.value.0.At(x, y) == img.At(x, y)
    {
      PixelAtCanvas(img, x, y);
    }
    SameImage(r.value.0, img);
  }

  /**
   * `ToImage` undoes `EncodePixels`: for an image that fits the canvas,
   * a palette whose entry for each opaque colour's index is that colour,
   * and a SKIP rule that drops only trailing runs, the stream (followed by
   * any bytes at all) decodes to the original image.
   */
  lemma ImageRoundTrip(img: Image, mapping: map<Rgb, byte>, P: Palette, rule: SkipRule, tail: seq<byte>)
    requires img.Valid() && img.width <= VirtualWidth && img.height <= VirtualHeight
    requires rule == Corrected || HazardFree(SampleCanvas(img))
    requires Faithful(SampleCanvas(img), mapping, P)
    ensures EncodePixels(img, mapping, rule).Ok?
    ensures var r := ToImage(VbmFile(img.width, img.height, EncodePixels(img, mapping, rule).value + tail, Some(P)));
      r.Ok? && r.value.0 == img
  {
    var canvas := SampleCanvas(img);
    CanvasRoundTrip(canvas, mapping, P, rule, []);
    var stream := EncodePixels(img, mapping, rule).value;
    var data := stream + tail;
    assert IsAt(data, 0, stream) by {
      assert data[0..|stream|] == stream;
    }
    CanvasRoundTrip(canvas, mapping, P, rule, data);
    DecodedImage(img, VbmFile(img.width, img.height, data, Some(P)));
  }

  /**
   * The whole file: converting an image and reading the file back gives
   * the header's size, the embedded palette in DAC precision, and data
   * that decodes - against the quantized embedded palette, or against the
   * palette the caller supplies when none is embedded - to the image.
   * The length word must not have wrapped.
   */
  lemma FileRoundTrip(img: Image, mapping: map<Rgb, byte>, embed: Option<Palette>, P: Palette, rule: SkipRule)
    requires img.Valid() && img.width <= VirtualWidth && img.height <= VirtualHeight
    requires rule == Corrected || HazardFree(SampleCanvas(img))
    requires Faithful(SampleCanvas(img), mapping, P)
    requires embed.Some? ==> Quantized(embed) == Some(P)
    requires EncodePixels(img, mapping, rule).Ok? ==> |EncodePixels(img, mapping, rule).value| + 4 * img.height < U16Limit
    ensures Convert(img, mapping, embed, rule).Ok?
    ensures var f := Read(Convert(img, mapping, embed, rule).value);
      && f.Ok?
      && (f.value.palette.Some? <==> embed.Some?)
      && (embed.Some? ==> f.value.palette == Some(P))
      && var r := ToImage(f.value.(palette := Some(P)));
         r.Ok? && r.value.0 == img
  {
    var tail := TableBytes(VisibilityTable(img));
    ImageRoundTrip(img, mapping, P, rule, tail);
    ReadConvert(img, mapping, embed, rule);
    var f := Read(Convert(img, mapping, embed, rule).value).value;
    assert f.(palette := Some(P)) == VbmFile(img.width, img.height, EncodePixels(img, mapping, rule).value + tail, Some(P));
  }
}
