/**
 * The SKIP guard of `EncodePixels` as written: a transparent run's SKIP is
 * written only when the run stops at least one plane step before the end
 * of the canvas. A run that stops on one of the canvas's last four
 * positions (an opaque pixel there, after a transparent one) loses its
 * SKIP, and the pixels after it are drawn at the start of their plane.
 */
module SkipFinding {
  import opened Base
  import opened Palettes
  import opened VbmFormat
  import opened VbmDecoder
  import opened VbmEncoder
  import opened VbmEncoderFacts
  import opened VbmRoundTrip

  /** A full-canvas image, transparent except for colour `c` at (x, y). */
  function SinglePixel(x: nat, y: nat, c: Rgb): (img: Image)
    requires x < VirtualWidth && y < VirtualHeight
    ensures img.Valid() && img.width == VirtualWidth && img.height == VirtualHeight
  {
    Image(VirtualWidth, VirtualHeight,
          seq(VirtualHeight, j => seq(VirtualWidth, i => if i == x && j == y then c else Transparency)))
  }

  /** The image whose only pixel is the bottom-right corner. */
  function Corner(c: Rgb): (img: Image)
    ensures img.Valid() && img.width == VirtualWidth && img.height == VirtualHeight
  {
    SinglePixel(VirtualWidth - 1, VirtualHeight - 1, c)
  }

  /** The canvas of a single-pixel image holds `c` at `y * 320 + x` only. */
  lemma SinglePixelCanvas(x: nat, y: nat, c: Rgb)
    requires x < VirtualWidth && y < VirtualHeight
    ensures forall q | 0 <= q < CanvasSize ::
      SampleCanvas(SinglePixel(x, y, c))[q] == if q == y * VirtualWidth + x then c else Transparency
  {
    var img := SinglePixel(x, y, c);
    forall q | 0 <= q < CanvasSize
      ensures SampleCanvas(img)[q] == if q == y * VirtualWidth + x then c else Transparency
    {
      var i := q % VirtualWidth;
      var j := q / VirtualWidth;
      assert q == j * VirtualWidth + i;
      assert PixelAt(img, q) == img.At(i, j);
    }
  }

  /** A plane transparent from `pos` to the end of the canvas, within one run's budget, is a lone END. */
  lemma TransparentToEnd(canvas: seq<Rgb>, mapping: map<Rgb, byte>, rule: SkipRule, pos: nat)
    requires |canvas| == CanvasSize && pos < CanvasSize && CanvasSize <= pos + 4 * MaxCount
    requires forall k: nat | RunPos(pos, k) < CanvasSize :: canvas[RunPos(pos, k)] == Transparency
    ensures EncodeFrom(canvas, mapping, rule, pos) == Ok([End])
  {
    var m := (CanvasSize - pos + 3) / 4;
    RunLengthMaximal(canvas, pos, true, MaxCount, m);
    EncodeDroppedRun(canvas, mapping, rule, pos);
  }

  /** A lone pixel at `t`, after transparent positions only, is one COPY of its index. */
  lemma LonePixel(canvas: seq<Rgb>, c: Rgb, idx: byte, rule: SkipRule, t: nat)
    requires |canvas| == CanvasSize && t < CanvasSize && CanvasSize <= t + 4 + 4 * MaxCount
    requires canvas[t] == c != Transparency
    requires forall k: nat | RunPos(RunPos(t, 1), k) < CanvasSize :: canvas[RunPos(RunPos(t, 1), k)] == Transparency
    ensures EncodeFrom(canvas, map[c := idx], rule, t) == Ok([Copy([idx]), End])
  {
    var mapping := map[c := idx];
    var next := RunPos(t, 1);
    if next < CanvasSize {
      assert canvas[RunPos(next, 0)] == Transparency;
      TransparentToEnd(canvas, mapping, rule, next);
    }
    assert RunLength(canvas, next, false, MaxCount - 1) == 0;
    assert EncodeFrom(canvas, mapping, rule, next) == Ok([End]);
    LoneIndices(canvas, c, idx, t);
    EncodeOpaqueRun(canvas, mapping, rule, t);
    var r := EncodeFrom(canvas, mapping, rule, t);
    assert r.Ok? && r.value == [Copy([idx])] + [End];
    assert [Copy([idx])] + [End] == [Copy([idx]), End];
  }

  /** The COPY of a lone opaque pixel holds its one index. */
  lemma LoneIndices(canvas: seq<Rgb>, c: Rgb, idx: byte, t: nat)
    requires |canvas| == CanvasSize && t < CanvasSize && canvas[t] == c
    ensures CopyIndices(canvas, map[c := idx], t, 1) == Ok([idx])
  {
    assert RunPos(t, 0) == t;
    assert CopyIndices(canvas, map[c := idx], t, 0) == Ok([]);
    assert [] + [idx] == [idx];
  }

  /** Four planes' commands, back to back. */
  lemma FourPlanes(canvas: seq<Rgb>, mapping: map<Rgb, byte>, rule: SkipRule, last: seq<Command>)
    requires |canvas| == CanvasSize
    requires EncodeFrom(canvas, mapping, rule, 0) == Ok([End])
    requires EncodeFrom(canvas, mapping, rule, 1) == Ok([End])
    requires EncodeFrom(canvas, mapping, rule, 2) == Ok([End])
    requires EncodeFrom(canvas, mapping, rule, 3) == Ok(last)
    ensures EncodePlanes(canvas, mapping, rule, 0) == Ok([End, End, End] + last)
  {
    EncodePlanesStep(canvas, mapping, rule, 3);
    EncodePlanesStep(canvas, mapping, rule, 2);
    EncodePlanesStep(canvas, mapping, rule, 1);
    EncodePlanesStep(canvas, mapping, rule, 0);
    ThreeEnds(last);
  }

  lemma ThreeEnds(last: seq<Command>)
    ensures [End] + ([End] + ([End] + (last + []))) == [End, End, End] + last
  {
    assert last + [] == last;
    assert [End] + ([End] + ([End] + last)) == [End, End, End] + last;
  }

  /** A canvas transparent everywhere but at `t`, which holds `c`. */
  ghost predicate LoneAt(canvas: seq<Rgb>, t: nat, c: Rgb)
  {
    && |canvas| == CanvasSize && t < CanvasSize && canvas[t] == c
    && forall q | 0 <= q < CanvasSize && q != t :: canvas[q] == Transparency
  }

  /** The canvas of a single-pixel image is a lone pixel. */
  lemma SinglePixelLone(x: nat, y: nat, c: Rgb)
    requires x < VirtualWidth && y < VirtualHeight
    ensures LoneAt(SampleCanvas(SinglePixel(x, y, c)), y * VirtualWidth + x, c)
  {
    SinglePixelCanvas(x, y, c);
  }

  /** Planes 0 to 2 of a canvas whose only pixel lies on plane 3 are lone ENDs. */
  lemma EmptyLowPlanes(canvas: seq<Rgb>, c: Rgb, mapping: map<Rgb, byte>, rule: SkipRule, t: nat)
    requires LoneAt(canvas, t, c) && t % 4 == 3
    ensures forall p | 0 <= p < PlaneCount - 1 :: EncodeFrom(canvas, mapping, rule, p) == Ok([End])
  {
    forall p | 0 <= p < PlaneCount - 1
      ensures EncodeFrom(canvas, mapping, rule, p) == Ok([End])
    {
      forall k: nat | RunPos(p, k) < CanvasSize
        ensures canvas[RunPos(p, k)] == Transparency
      {
        assert (RunPos(p, k)) % 4 == p;
      }
      TransparentToEnd(canvas, mapping, rule, p);
    }
  }

  /** Plane 3 of a canvas whose only pixel is the last position: one transparent run, then the pixel. */
  lemma CornerPlane(canvas: seq<Rgb>, c: Rgb, idx: byte, rule: SkipRule)
    requires LoneAt(canvas, CanvasSize - 1, c) && c != Transparency
    ensures var skip := (CanvasSize - PlaneCount) / 4;
      EncodeFrom(canvas, map[c := idx], rule, 3)
        == if rule == AsWritten then Ok([Copy([idx]), End]) else Ok([Skip(skip), Copy([idx]), End])
  {
    var mapping := map[c := idx];
    var t := CanvasSize - 1;
    var m := (CanvasSize - PlaneCount) / 4;
    RunLengthMaximal(canvas, 3, true, MaxCount, m);
    assert 3 + 4 * m == t;
    LonePixel(canvas, c, idx, rule, t);
    if rule == AsWritten {
      EncodeDroppedRun(canvas, mapping, rule, 3);
    } else {
      EncodeSkipRun(canvas, mapping, rule, 3);
      assert [Skip(m)] + [Copy([idx]), End] == [Skip(m), Copy([idx]), End];
    }
  }

  /** Plane 3 of a canvas whose only pixel is position 3: the pixel, then nothing but transparency. */
  lemma FirstPlane3(canvas: seq<Rgb>, c: Rgb, idx: byte, rule: SkipRule)
    requires LoneAt(canvas, 3, c) && c != Transparency
    ensures EncodeFrom(canvas, map[c := idx], rule, 3) == Ok([Copy([idx]), End])
  {
    LonePixel(canvas, c, idx, rule, 3);
  }

  /** The bytes of four planes whose last holds one COPY, after an optional SKIP. */
  lemma ShortStreamBytes(idx: byte, skip: nat)
    requires 0 < skip <= MaxCount
    ensures StreamBytes([End, End, End] + [Copy([idx]), End]) == [0, 0, 0, 0, 0, 0, 1, 0xC0, idx, 0, 0]
    ensures StreamBytes([End, End, End] + [Skip(skip), Copy([idx]), End])
      == [0, 0, 0, 0, 0, 0, (skip % 256) as byte, (0x40 + skip / 256) as byte, 1, 0xC0, idx, 0, 0]
  {
    var copy := [Copy([idx]), End];
    assert StreamBytes(copy) == [1, 0xC0, idx, 0, 0] by {
      assert copy[1..] == [End];
      assert StreamBytes([End]) == [0, 0] by {
        assert [End][1..] == [];
      }
    }
    var skipped := [Skip(skip)] + copy;
    assert skipped[1..] == copy;
    assert StreamBytes(skipped) == [(skip % 256) as byte, (0x40 + skip / 256) as byte, 1, 0xC0, idx, 0, 0];
    StreamBytesAppend([End, End, End], copy);
    StreamBytesAppend([End, End, End], skipped);
    assert StreamBytes([End, End, End]) == [0, 0, 0, 0, 0, 0] by {
      assert [End, End, End][1..] == [End, End];
      assert [End, End][1..] == [End];
      assert [End][1..] == [];
    }
    assert skipped == [Skip(skip), Copy([idx]), End];
  }

  /** The commands of a canvas whose only pixel is its last position. */
  lemma CornerCommands(canvas: seq<Rgb>, c: Rgb, idx: byte, rule: SkipRule)
    requires LoneAt(canvas, CanvasSize - 1, c) && c != Transparency
    ensures var skip := (CanvasSize - PlaneCount) / 4;
      EncodePlanes(canvas, map[c := idx], rule, 0)
        == if rule == AsWritten then Ok([End, End, End] + [Copy([idx]), End])
           else Ok([End, End, End] + [Skip(skip), Copy([idx]), End])
  {
    var mapping := map[c := idx];
    var skip := (CanvasSize - PlaneCount) / 4;
    EmptyLowPlanes(canvas, c, mapping, rule, CanvasSize - 1);
    CornerPlane(canvas, c, idx, rule);
    if rule == AsWritten {
      FourPlanes(canvas, mapping, rule, [Copy([idx]), End]);
    } else {
      FourPlanes(canvas, mapping, rule, [Skip(skip), Copy([idx]), End]);
    }
  }

  /** The commands of a canvas whose only pixel is position 3. */
  lemma FirstCommands(canvas: seq<Rgb>, c: Rgb, idx: byte, rule: SkipRule)
    requires LoneAt(canvas, 3, c) && c != Transparency
    ensures EncodePlanes(canvas, map[c := idx], rule, 0) == Ok([End, End, End] + [Copy([idx]), End])
  {
    var mapping := map[c := idx];
    EmptyLowPlanes(canvas, c, mapping, rule, 3);
    FirstPlane3(canvas, c, idx, rule);
    FourPlanes(canvas, mapping, rule, [Copy([idx]), End]);
  }

  /** The corner image's bytes: the as-written guard drops plane 3's SKIP of 15999, the corrected one keeps it. */
  lemma CornerEncoding(c: Rgb, idx: byte, rule: SkipRule)
    requires c != Transparency
    ensures rule == AsWritten ==> EncodePixels(Corner(c), map[c := idx], rule) == Ok([0, 0, 0, 0, 0, 0, 1, 0xC0, idx, 0, 0])
    ensures rule == Corrected ==>
      EncodePixels(Corner(c), map[c := idx], rule) == Ok([0, 0, 0, 0, 0, 0, 0x7F, 0x7E, 1, 0xC0, idx, 0, 0])
  {
    var skip := (CanvasSize - PlaneCount) / 4;
    SinglePixelLone(VirtualWidth - 1, VirtualHeight - 1, c);
    CornerCommands(SampleCanvas(Corner(c)), c, idx, rule);
    assert skip == 15999;
    assert (skip % 256) as byte == 0x7F && (0x40 + skip / 256) as byte == 0x7E;
    ShortStreamBytes(idx, skip);
  }

  /** The image whose only pixel is at (3, 0) has the bytes of the as-written corner image, under either rule. */
  lemma MovedEncoding(c: Rgb, idx: byte, rule: SkipRule)
    requires c != Transparency
    ensures EncodePixels(SinglePixel(3, 0, c), map[c := idx], rule) == Ok([0, 0, 0, 0, 0, 0, 1, 0xC0, idx, 0, 0])
  {
    SinglePixelLone(3, 0, c);
    FirstCommands(SampleCanvas(SinglePixel(3, 0, c)), c, idx, rule);
    ShortStreamBytes(idx, 1);
  }

  /**
   * The as-written encoder on the corner image: the bytes hold no SKIP
   * for plane 3, so they are exactly the bytes of the image whose pixel
   * is at (3, 0), and they decode to that image.
   */
  lemma CornerPixelMoves(c: Rgb, idx: byte, P: Palette)
    requires c != Transparency && P[idx] == c
    ensures !HazardFree(SampleCanvas(Corner(c)))
    ensures EncodePixels(Corner(c), map[c := idx], AsWritten) == Ok([0, 0, 0, 0, 0, 0, 1, 0xC0, idx, 0, 0])
    ensures EncodePixels(Corner(c), map[c := idx], AsWritten) == EncodePixels(SinglePixel(3, 0, c), map[c := idx], Corrected)
    ensures var r := ToImage(VbmFile(VirtualWidth, VirtualHeight, EncodePixels(Corner(c), map[c := idx], AsWritten).value, Some(P)));
      && r.Ok? && r.value.0 == SinglePixel(3, 0, c) != Corner(c)
      && r.value.0.At(3, 0) == c && r.value.0.At(VirtualWidth - 1, VirtualHeight - 1) == Transparency
  {
    var moved := SinglePixel(3, 0, c);
    var mapping := map[c := idx];
    SinglePixelLone(VirtualWidth - 1, VirtualHeight - 1, c);
    SinglePixelLone(3, 0, c);
    assert SampleCanvas(Corner(c))[CanvasSize - 1 - PlaneCount] == Transparency;
    CornerEncoding(c, idx, AsWritten);
    MovedEncoding(c, idx, Corrected);
    assert Faithful(SampleCanvas(moved), mapping, P);
    ImageRoundTrip(moved, mapping, P, Corrected, []);
    assert EncodePixels(moved, mapping, Corrected).value + [] == EncodePixels(moved, mapping, Corrected).value;
    assert moved.At(3, 0) != Corner(c).At(3, 0);
  }

  /** With the corrected guard the corner image keeps its SKIP and decodes back to itself. */
  lemma CornerPixelKept(c: Rgb, idx: byte, P: Palette)
    requires c != Transparency && P[idx] == c
    ensures EncodePixels(Corner(c), map[c := idx], Corrected)
      == Ok([0, 0, 0, 0, 0, 0, 0x7F, 0x7E, 1, 0xC0, idx, 0, 0])
    ensures var r := ToImage(VbmFile(VirtualWidth, VirtualHeight, EncodePixels(Corner(c), map[c := idx], Corrected).value, Some(P)));
      r.Ok? && r.value.0 == Corner(c)
  {
    var mapping := map[c := idx];
    SinglePixelLone(VirtualWidth - 1, VirtualHeight - 1, c);
    CornerEncoding(c, idx, Corrected);
    assert Faithful(SampleCanvas(Corner(c)), mapping, P);
    ImageRoundTrip(Corner(c), mapping, P, Corrected, []);
    assert EncodePixels(Corner(c), mapping, Corrected).value + [] == EncodePixels(Corner(c), mapping, Corrected).value;
  }
}
