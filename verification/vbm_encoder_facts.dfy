/**
 * When `ToVbmConverter`'s plane loop succeeds: encoding fails exactly on an
 * opaque pixel whose colour has no palette index.
 */
module VbmEncoderFacts {
  import opened Base
  import opened VbmFormat
  import opened VbmEncoder

  /**
   * `m` positions from `pos` on, stepping by 4, are the longest run of
   * one kind the budget allows: they all lie in the canvas and have that
   * kind, and unless the budget is spent the next one is past the canvas
   * or of the other kind.
   */
  ghost predicate MaximalRun(canvas: seq<Rgb>, pos: nat, transparent: bool, budget: nat, m: nat)
    requires |canvas| == CanvasSize
  {
    && m <= budget
    && (forall k | 0 <= k < m :: RunPos(pos, k) < CanvasSize && (canvas[RunPos(pos, k)] == Transparency) == transparent)
    && (m < budget ==> pos + 4 * m >= CanvasSize || (canvas[pos + 4 * m] == Transparency) != transparent)
  }

  /** `RunLength` is the one maximal run. */
  lemma RunLengthMaximal(canvas: seq<Rgb>, pos: nat, transparent: bool, budget: nat, m: nat)
    requires |canvas| == CanvasSize
    ensures RunLength(canvas, pos, transparent, budget) == m <==> MaximalRun(canvas, pos, transparent, budget, m)
  {
    var n := RunLength(canvas, pos, transparent, budget);
    RunUniform(canvas, pos, transparent, budget);
    assert RunPos(pos, n) == pos + 4 * n && RunPos(pos, m) == pos + 4 * m;
    assert forall k | 0 <= k < n :: RunPos(pos, k) <= pos + 4 * (n - 1);
  }

  /** Every opaque position of the plane from `pos` has an index. */
  ghost predicate PlaneMapped(canvas: seq<Rgb>, mapping: map<Rgb, byte>, pos: nat)
    requires |canvas| == CanvasSize
  {
    forall q | OnPlane(q, pos) && q < CanvasSize && canvas[q] != Transparency :: canvas[q] in mapping
  }

  /** A plane from `pos` is a run of `n` positions followed by the plane from `pos + 4 n`. */
  lemma PlaneSplit(pos: nat, n: nat)
    ensures forall q :: OnPlane(q, pos) <==> (OnPlane(q, pos) && q < pos + 4 * n) || OnPlane(q, pos + 4 * n)
  {
  }

  /** A position of the plane from `pos` before `pos + 4 n` is the `k`-th step of the run, for some `k < n`. */
  lemma RunStep(q: int, pos: nat, n: nat)
    requires OnPlane(q, pos) && q < pos + 4 * n
    ensures 0 <= (q - pos) / 4 < n && q == RunPos(pos, (q - pos) / 4)
  {
  }

  /** Mapping a plane is mapping its first run and the rest of it. */
  lemma PlaneMappedSplit(canvas: seq<Rgb>, mapping: map<Rgb, byte>, pos: nat, n: nat)
    requires |canvas| == CanvasSize
    ensures PlaneMapped(canvas, mapping, pos) <==>
      && PlaneMapped(canvas, mapping, pos + 4 * n)
      && forall k | 0 <= k < n && RunPos(pos, k) < CanvasSize && canvas[RunPos(pos, k)] != Transparency ::
           canvas[RunPos(pos, k)] in mapping
  {
    PlaneSplit(pos, n);
    forall q | OnPlane(q, pos) && q < pos + 4 * n {
      RunStep(q, pos, n);
    }
    forall k | 0 <= k < n
      ensures OnPlane(RunPos(pos, k), pos)
    {
    }
  }

  /** Past the canvas a plane has no positions. */
  lemma EmptyPlaneMapped(canvas: seq<Rgb>, mapping: map<Rgb, byte>, pos: nat)
    requires |canvas| == CanvasSize && pos >= CanvasSize
    ensures PlaneMapped(canvas, mapping, pos)
  {
  }

  /** A transparent run needs no index: the plane is mapped iff the rest of it is. */
  lemma TransparentRunMapped(canvas: seq<Rgb>, mapping: map<Rgb, byte>, pos: nat)
    requires |canvas| == CanvasSize && pos < CanvasSize && canvas[pos] == Transparency
    ensures PlaneMapped(canvas, mapping, pos)
      <==> PlaneMapped(canvas, mapping, pos + 4 * RunLength(canvas, pos, true, MaxCount))
  {
    RunUniform(canvas, pos, true, MaxCount);
    PlaneMappedSplit(canvas, mapping, pos, RunLength(canvas, pos, true, MaxCount));
  }

  /** An opaque run is mapped iff its COPY indices exist. */
  lemma OpaqueRunMapped(canvas: seq<Rgb>, mapping: map<Rgb, byte>, pos: nat)
    requires |canvas| == CanvasSize && pos < CanvasSize && canvas[pos] != Transparency
    ensures var n := RunLength(canvas, pos, false, MaxCount);
      PlaneMapped(canvas, mapping, pos) <==>
        CopyIndices(canvas, mapping, pos, n).Ok? && PlaneMapped(canvas, mapping, pos + 4 * n)
  {
    RunUniform(canvas, pos, false, MaxCount);
    CopyIndicesMapped(canvas, mapping, pos, RunLength(canvas, pos, false, MaxCount));
    PlaneMappedSplit(canvas, mapping, pos, RunLength(canvas, pos, false, MaxCount));
  }

  /** A plane is encoded iff every opaque position it samples is mapped. */
  lemma {:induction false} EncodeFromOk(canvas: seq<Rgb>, mapping: map<Rgb, byte>, rule: SkipRule, pos: nat)
    requires |canvas| == CanvasSize
    decreases CanvasSize - pos, 1
    ensures EncodeFrom(canvas, mapping, rule, pos).Ok? <==> PlaneMapped(canvas, mapping, pos)
  {
    if pos >= CanvasSize {
      EmptyPlaneMapped(canvas, mapping, pos);
    } else if canvas[pos] == Transparency {
      TransparentRunOk(canvas, mapping, rule, pos);
    } else {
      OpaqueRunOk(canvas, mapping, rule, pos);
    }
  }

  lemma {:induction false} TransparentRunOk(canvas: seq<Rgb>, mapping: map<Rgb, byte>, rule: SkipRule, pos: nat)
    requires |canvas| == CanvasSize && pos < CanvasSize && canvas[pos] == Transparency
    decreases CanvasSize - pos, 0
    ensures EncodeFrom(canvas, mapping, rule, pos).Ok? <==> PlaneMapped(canvas, mapping, pos)
  {
    EncodeFromOk(canvas, mapping, rule, pos + 4 * RunLength(canvas, pos, true, MaxCount));
    EncodeTransparentRun(canvas, mapping, rule, pos);
    TransparentRunMapped(canvas, mapping, pos);
  }

  lemma {:induction false} OpaqueRunOk(canvas: seq<Rgb>, mapping: map<Rgb, byte>, rule: SkipRule, pos: nat)
    requires |canvas| == CanvasSize && pos < CanvasSize && canvas[pos] != Transparency
    decreases CanvasSize - pos, 0
    ensures EncodeFrom(canvas, mapping, rule, pos).Ok? <==> PlaneMapped(canvas, mapping, pos)
  {
    EncodeFromOk(canvas, mapping, rule, pos + 4 * RunLength(canvas, pos, false, MaxCount));
    EncodeOpaqueRun(canvas, mapping, rule, pos);
    OpaqueRunMapped(canvas, mapping, pos);
  }

  /** Every opaque position of the planes `plane`..3 has an index. */
  ghost predicate PlanesMapped(canvas: seq<Rgb>, mapping: map<Rgb, byte>, plane: nat)
    requires |canvas| == CanvasSize && plane <= PlaneCount
    decreases PlaneCount - plane
  {
    plane == PlaneCount || (PlaneMapped(canvas, mapping, plane) && PlanesMapped(canvas, mapping, plane + 1))
  }

  /** The four planes together are every position of the canvas. */
  lemma AllPlanesMapped(canvas: seq<Rgb>, mapping: map<Rgb, byte>)
    requires |canvas| == CanvasSize
    ensures PlanesMapped(canvas, mapping, 0) <==>
      forall q | 0 <= q < CanvasSize && canvas[q] != Transparency :: canvas[q] in mapping
  {
    assert PlanesMapped(canvas, mapping, 0) <==>
      PlaneMapped(canvas, mapping, 0) && PlaneMapped(canvas, mapping, 1)
      && PlaneMapped(canvas, mapping, 2) && PlaneMapped(canvas, mapping, 3);
    forall q | 0 <= q < CanvasSize
      ensures OnPlane(q, q % PlaneCount)
    {
      OnPlaneResidue(q, q % PlaneCount);
    }
  }

  /** The planes from `plane` on are encoded iff every opaque position they sample is mapped. */
  lemma {:induction false} EncodePlanesFromOk(canvas: seq<Rgb>, mapping: map<Rgb, byte>, rule: SkipRule, plane: nat)
    requires |canvas| == CanvasSize && plane <= PlaneCount
    decreases PlaneCount - plane
    ensures EncodePlanes(canvas, mapping, rule, plane).Ok? <==> PlanesMapped(canvas, mapping, plane)
  {
    if plane < PlaneCount {
      EncodePlanesFromOk(canvas, mapping, rule, plane + 1);
      EncodePlanesStep(canvas, mapping, rule, plane);
      EncodeFromOk(canvas, mapping, rule, plane);
    }
  }

  /** The canvas position of pixel (x, y) reads that pixel back. */
  lemma PixelAtCanvas(img: Image, x: nat, y: nat)
    requires img.Valid() && x < img.width && y < img.height && x < VirtualWidth
    ensures PixelAt(img, y * VirtualWidth + x) == img.At(x, y)
  {
    assert (y * VirtualWidth + x) % VirtualWidth == x;
    assert (y * VirtualWidth + x) / VirtualWidth == y;
  }

  /**
   * `EncodePixels` fails exactly when some opaque pixel of the part of the
   * image that fits the canvas has a colour missing from the map.
   */
  lemma EncodeSucceeds(img: Image, mapping: map<Rgb, byte>, rule: SkipRule)
    requires img.Valid()
    ensures EncodePixels(img, mapping, rule).Ok? <==>
      forall x, y | 0 <= x < img.width && x < VirtualWidth && 0 <= y < img.height && y < VirtualHeight
        && img.At(x, y) != Transparency :: img.At(x, y) in mapping
  {
    EncodePlanesFromOk(SampleCanvas(img), mapping, rule, 0);
    AllPlanesMapped(SampleCanvas(img), mapping);
    forall x, y | 0 <= x < img.width && x < VirtualWidth && 0 <= y < img.height && y < VirtualHeight
      ensures y * VirtualWidth + x < CanvasSize && PixelAt(img, y * VirtualWidth + x) == img.At(x, y)
    {
      PixelAtCanvas(img, x, y);
    }
  }
}
