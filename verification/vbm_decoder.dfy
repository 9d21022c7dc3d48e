/**
 * `VbmFile.ToImage`: decode the four interleaved planes of command words
 * into the 320x200 canvas, recording which palette index produced which
 * colour, then crop to the file's own width and height.
 */
module VbmDecoder {
  import opened Base
  import opened Palettes
  import opened VbmFormat

  /** A parsed `.vbm` file: header size, the image data region, and the embedded (or chosen) palette. */
  datatype VbmFile = VbmFile(width: int, height: int, data: seq<byte>, palette: Option<Palette>)

  datatype DecodeError =
    | DataExhausted      // a word or an index byte read past the end of the data
    | MissingPalette     // a pixel is written but no palette is set
    | OutsideCanvas      // a pixel is written at a position past the canvas
    | CropOutsideCanvas  // the header's size does not fit the canvas

  /** The decoder's state: data cursor, canvas cursor, canvas, and the used-colour map. */
  datatype Cursor = Cursor(src: nat, pos: nat, canvas: seq<Rgb>, used: map<byte, Rgb>)

  /** The canvas before any plane is decoded: every position transparent. */
  function BlankCanvas(): (c: seq<Rgb>)
    ensures |c| == CanvasSize
    ensures forall q | 0 <= q < CanvasSize :: c[q] == Transparency
  {
    seq(CanvasSize, _ => Transparency)
  }

  /** Every recorded index maps to its palette colour. */
  ghost predicate UsedFromPalette(used: map<byte, Rgb>, p: Palette)
  {
    forall i | i in used :: used[i] == p[i]
  }

  /** Every pixel of the canvas is transparent or a colour the used-colour map records. */
  ghost predicate Recorded(canvas: seq<Rgb>, used: map<byte, Rgb>)
  {
    forall q | 0 <= q < |canvas| :: canvas[q] == Transparency || canvas[q] in used.Values
  }

  /**
   * Writing index `index` at the canvas cursor: look the colour up
   * (`GetColorFromPalette`), record it, then store it (`PutPixel`, whose
   * row `pos / 320` must exist).
   */
  function Paint(pal: Option<Palette>, index: byte, c: Cursor): (r: Result<Cursor, DecodeError>)
    requires |c.canvas| == CanvasSize
    ensures r.Ok? <==> pal.Some? && c.pos < CanvasSize
    ensures pal.None? ==> r == Err(MissingPalette)
    ensures r.Ok? ==> r.value.src == c.src && r.value.pos == c.pos && |r.value.canvas| == CanvasSize
    ensures r.Ok? ==> r.value.canvas[c.pos] == pal.value[index]
    ensures r.Ok? ==> forall q | 0 <= q < CanvasSize && q != c.pos :: r.value.canvas[q] == c.canvas[q]
    ensures r.Ok? ==> index in r.value.used && r.value.used[index] == pal.value[index]
    ensures r.Ok? ==> forall i | i in c.used && i != index :: i in r.value.used && r.value.used[i] == c.used[i]
    ensures r.Ok? ==> r.value.used.Keys == c.used.Keys + {index}
  {
    if pal.None? then Err(MissingPalette)
    else
      var color := pal.value[index];
      var used := c.used[index := color];
      if c.pos >= CanvasSize then Err(OutsideCanvas)
      else Ok(c.(canvas := c.canvas[c.pos := color], used := used))
  }

  /**
   * The inner `while (count-- > 0)` loop of one SKIP, REPEAT or COPY
   * command: each step optionally reads and writes, then moves the canvas
   * cursor by 4. SKIP reads nothing; REPEAT reads the byte at the data
   * cursor without consuming it; COPY consumes one byte per step.
   */
  function Steps(data: seq<byte>, pal: Option<Palette>, tag: int, count: nat, c: Cursor): (r: Result<Cursor, DecodeError>)
    requires tag == SkipTag || tag == RepeatTag || tag == CopyTag
    requires |c.canvas| == CanvasSize
    decreases count
    ensures r.Ok? ==> |r.value.canvas| == CanvasSize
    ensures r.Ok? ==> r.value.pos == c.pos + 4 * count
    ensures r.Ok? ==> r.value.src == if tag == CopyTag then c.src + count else c.src
    ensures r.Ok? && (tag == SkipTag || pal.None?) ==> r.value.canvas == c.canvas && r.value.used == c.used
  {
    if count == 0 then Ok(c)
    else if tag == SkipTag then Steps(data, pal, tag, count - 1, c.(pos := c.pos + 4))
    else if c.src >= |data| then Err(DataExhausted)
    else
      var painted :- Paint(pal, data[c.src], c);
      var src := if tag == CopyTag then c.src + 1 else c.src;
      Steps(data, pal, tag, count - 1, painted.(src := src, pos := c.pos + 4))
  }

  /** A run writes only the plane positions it visits: every other pixel keeps its colour. */
  lemma {:induction false} StepsFrame(data: seq<byte>, pal: Option<Palette>, tag: int, count: nat, c: Cursor)
    requires tag == SkipTag || tag == RepeatTag || tag == CopyTag
    requires |c.canvas| == CanvasSize && Steps(data, pal, tag, count, c).Ok?
    decreases count
    ensures forall q | 0 <= q < CanvasSize && !(OnPlane(q, c.pos) && q < c.pos + 4 * count) ::
      Steps(data, pal, tag, count, c).value.canvas[q] == c.canvas[q]
  {
    if count > 0 && tag != SkipTag {
      var painted := Paint(pal, data[c.src], c).value;
      var src := if tag == CopyTag then c.src + 1 else c.src;
      var next := painted.(src := src, pos := c.pos + 4);
      StepsFrame(data, pal, tag, count - 1, next);
      forall q | 0 <= q < CanvasSize && !(OnPlane(q, c.pos) && q < c.pos + 4 * count)
        ensures !(OnPlane(q, next.pos) && q < next.pos + 4 * (count - 1)) && q != c.pos
      {
        if OnPlane(q, next.pos) {
          OnPlaneLater(q, c.pos, 1);
        }
      }
    }
  }

  /**
   * The `while (true)` loop of one plane: read a word; tag 0 ends the
   * plane, any other tag runs its steps. A REPEAT then consumes its index
   * byte, even when its count is 0.
   */
  function DecodePlane(data: seq<byte>, pal: Option<Palette>, c: Cursor): (r: Result<Cursor, DecodeError>)
    requires |c.canvas| == CanvasSize
    decreases |data| - c.src
    ensures r.Ok? ==> |r.value.canvas| == CanvasSize && r.value.src >= c.src + 2
    ensures r.Ok? && pal.None? ==> r.value.canvas == c.canvas && r.value.used == c.used
  {
    if c.src + 2 > |data| then Err(DataExhausted)
    else
      var w := ReadWord(data, c.src);
      var tag := WordTag(w);
      var count := WordCount(w);
      var next := c.(src := c.src + 2);
      if tag == EndTag then Ok(next)
      else
        var after :- Steps(data, pal, tag, count, next);
        var resumed := if tag == RepeatTag then after.(src := after.src + 1) else after;
        DecodePlane(data, pal, resumed)
  }

  /** A plane writes only its own positions: every pixel of the other planes keeps its colour. */
  lemma {:induction false} DecodePlaneFrame(data: seq<byte>, pal: Option<Palette>, c: Cursor)
    requires |c.canvas| == CanvasSize && DecodePlane(data, pal, c).Ok?
    decreases |data| - c.src
    ensures forall q | 0 <= q < CanvasSize && !OnPlane(q, c.pos) :: DecodePlane(data, pal, c).value.canvas[q] == c.canvas[q]
  {
    var w := ReadWord(data, c.src);
    var tag := WordTag(w);
    var count := WordCount(w);
    if tag != EndTag {
      var next := c.(src := c.src + 2);
      StepsFrame(data, pal, tag, count, next);
      var after := Steps(data, pal, tag, count, next).value;
      var resumed := if tag == RepeatTag then after.(src := after.src + 1) else after;
      DecodePlaneFrame(data, pal, resumed);
      forall q | 0 <= q < CanvasSize && !OnPlane(q, c.pos)
        ensures !OnPlane(q, resumed.pos)
      {
        if OnPlane(q, resumed.pos) {
          OnPlaneLater(q, c.pos, count);
        }
      }
    }
  }

  /** The `for (planeCtr ...)` loop: planes `plane`..3, in order, from one shared data cursor. */
  function DecodePlanes(data: seq<byte>, pal: Option<Palette>, plane: nat, src: nat, canvas: seq<Rgb>, used: map<byte, Rgb>)
    : (r: Result<Cursor, DecodeError>)
    requires plane <= PlaneCount && |canvas| == CanvasSize
    decreases PlaneCount - plane
    ensures r.Ok? ==> |r.value.canvas| == CanvasSize && r.value.src >= src + 2 * (PlaneCount - plane)
    ensures r.Ok? ==> forall q | 0 <= q < CanvasSize && q % 4 < plane :: r.value.canvas[q] == canvas[q]
    ensures r.Ok? && pal.None? ==> r.value.canvas == canvas && r.value.used == used
  {
    if plane == PlaneCount then Ok(Cursor(src, plane, canvas, used))
    else
      assert forall q | 0 <= q < CanvasSize && q % 4 < plane :: !OnPlane(q, plane) by {
        forall q | 0 <= q < CanvasSize && q % 4 < plane
          ensures !OnPlane(q, plane)
        {
          OnPlaneResidue(q, plane);
        }
      }
      var done :- DecodePlane(data, pal, Cursor(src, plane, canvas, used));
      DecodePlaneFrame(data, pal, Cursor(src, plane, canvas, used));
      DecodePlanes(data, pal, plane + 1, done.src, done.canvas, done.used)
  }

  /** The rows of the top-left `w` x `h` corner of a canvas. */
  function CanvasRows(canvas: seq<Rgb>, w: nat, h: nat): (rows: seq<seq<Rgb>>)
    requires |canvas| == CanvasSize && w <= VirtualWidth && h <= VirtualHeight
    ensures Image(w, h, rows).Valid()
  {
    seq(h, y requires 0 <= y < h => seq(w, x requires 0 <= x < w => canvas[y * VirtualWidth + x]))
  }

  /** `CropImage`: the top-left `w` x `h` corner; a rectangle outside the canvas fails. */
  function Crop(canvas: seq<Rgb>, w: int, h: int): (r: Result<Image, DecodeError>)
    requires |canvas| == CanvasSize
    ensures r.Ok? <==> 0 <= w <= VirtualWidth && 0 <= h <= VirtualHeight
    ensures r.Ok? ==> r.value.Valid() && r.value.width == w && r.value.height == h
    ensures r.Ok? ==> forall x, y | 0 <= x < w && 0 <= y < h :: r.value.At(x, y) == canvas[y * VirtualWidth + x]
  {
    if !(0 <= w <= VirtualWidth && 0 <= h <= VirtualHeight) then Err(CropOutsideCanvas)
    else Ok(Image(w, h, CanvasRows(canvas, w, h)))
  }

  /**
   * `ToImage`: decode all four planes, then crop when the header's size
   * differs from the canvas. It succeeds iff decoding does and the size
   * fits the canvas; the image is the top-left corner of the decoded
   * canvas; the used-colour map records exactly the index bytes the
   * planes' REPEAT and COPY commands paint, sends each to its palette
   * colour, and every pixel is transparent or a recorded colour.
   */
  function ToImage(f: VbmFile): (r: Result<(Image, map<byte, Rgb>), DecodeError>)
    ensures var d := DecodePlanes(f.data, f.palette, 0, 0, BlankCanvas(), map[]);
      && (r.Ok? <==> d.Ok? && 0 <= f.width <= VirtualWidth && 0 <= f.height <= VirtualHeight)
      && (r.Ok? ==> r.value.0.Valid() && r.value.0.width == f.width && r.value.0.height == f.height)
      && (r.Ok? ==> forall x, y | 0 <= x < f.width && 0 <= y < f.height ::
            r.value.0.At(x, y) == d.value.canvas[y * VirtualWidth + x])
      && (r.Ok? ==> r.value.1 == d.value.used)
    ensures r.Ok? ==> f.palette.Some? ==> UsedFromPalette(r.value.1, f.palette.value)
    ensures r.Ok? ==> f.palette.Some? ==> forall x, y | 0 <= x < f.width && 0 <= y < f.height ::
      r.value.0.At(x, y) == Transparency || r.value.0.At(x, y) in r.value.1.Values
    ensures r.Ok? ==> f.palette.None? ==> r.value.1 == map[]
    ensures r.Ok? ==> ScanPlanes(f.data, 0, 0).Some? && r.value.1.Keys == ScanPlanes(f.data, 0, 0).value.indices
  {
    var decoded :- DecodePlanes(f.data, f.palette, 0, 0, BlankCanvas(), map[]);
    DecodedUsed(f.data, f.palette);
    var image :- CropToHeader(decoded.canvas, f.width, f.height);
    Ok((image, decoded.used))
  }

  /** The canvas as an image of the header's size: cropped when that size differs from the canvas. */
  function CropToHeader(canvas: seq<Rgb>, w: int, h: int): (r: Result<Image, DecodeError>)
    requires |canvas| == CanvasSize
    ensures r.Ok? <==> 0 <= w <= VirtualWidth && 0 <= h <= VirtualHeight
    ensures r.Ok? ==> r.value.Valid() && r.value.width == w && r.value.height == h
    ensures r.Ok? ==> forall x, y | 0 <= x < w && 0 <= y < h :: r.value.At(x, y) == canvas[y * VirtualWidth + x]
  {
    if w != VirtualWidth || h != VirtualHeight then Crop(canvas, w, h)
    else Ok(Image(VirtualWidth, VirtualHeight, CanvasRows(canvas, VirtualWidth, VirtualHeight)))
  }

  /**
   * The four planes decoded from a blank canvas: the used-colour map
   * records exactly the index bytes their commands paint, each with its
   * palette colour, and every pixel is transparent or a recorded colour.
   */
  lemma DecodedUsed(data: seq<byte>, pal: Option<Palette>)
    requires DecodePlanes(data, pal, 0, 0, BlankCanvas(), map[]).Ok?
    ensures var d := DecodePlanes(data, pal, 0, 0, BlankCanvas(), map[]).value;
      && ScanPlanes(data, 0, 0).Some? && d.used.Keys == ScanPlanes(data, 0, 0).value.indices
      && (pal.Some? ==> UsedFromPalette(d.used, pal.value) && Recorded(d.canvas, d.used))
  {
    PlanesKeys(data, pal, 0, 0, BlankCanvas(), map[]);
    if pal.Some? {
      PlanesRecord(data, pal.value, 0, 0, BlankCanvas(), map[]);
    }
  }

  // ---------------------------------------------------------------------
  // The used-colour map stays faithful
  // ---------------------------------------------------------------------

  /** Painting keeps the used-colour map faithful to the palette and every pixel accounted for. */
  lemma PaintRecords(P: Palette, index: byte, c: Cursor)
    requires |c.canvas| == CanvasSize && Paint(Some(P), index, c).Ok?
    requires UsedFromPalette(c.used, P)
    ensures var r := Paint(Some(P), index, c).value;
      && UsedFromPalette(r.used, P)
      && (Recorded(c.canvas, c.used) ==> Recorded(r.canvas, r.used))
  {
  }

  /** A run keeps the used-colour map faithful to the palette and every pixel accounted for. */
  lemma {:induction false} StepsRecord(data: seq<byte>, P: Palette, tag: int, count: nat, c: Cursor)
    requires tag == SkipTag || tag == RepeatTag || tag == CopyTag
    requires |c.canvas| == CanvasSize && Steps(data, Some(P), tag, count, c).Ok?
    requires UsedFromPalette(c.used, P)
    decreases count
    ensures var r := Steps(data, Some(P), tag, count, c).value;
      && UsedFromPalette(r.used, P)
      && (Recorded(c.canvas, c.used) ==> Recorded(r.canvas, r.used))
  {
    if count > 0 {
      var next := StepRecords(data, P, tag, count, c);
      StepsRecord(data, P, tag, count - 1, next);
    }
  }

  /** The first step of a run keeps the used-colour map faithful and every pixel accounted for. */
  lemma StepRecords(data: seq<byte>, P: Palette, tag: int, count: nat, c: Cursor) returns (next: Cursor)
    requires tag == SkipTag || tag == RepeatTag || tag == CopyTag
    requires |c.canvas| == CanvasSize && 0 < count && Steps(data, Some(P), tag, count, c).Ok?
    requires UsedFromPalette(c.used, P)
    ensures |next.canvas| == CanvasSize
    ensures Steps(data, Some(P), tag, count, c) == Steps(data, Some(P), tag, count - 1, next)
    ensures UsedFromPalette(next.used, P) && (Recorded(c.canvas, c.used) ==> Recorded(next.canvas, next.used))
  {
    if tag == SkipTag {
      next := c.(pos := c.pos + 4);
    } else {
      PaintRecords(P, data[c.src], c);
      var painted := Paint(Some(P), data[c.src], c).value;
      var src := if tag == CopyTag then c.src + 1 else c.src;
      next := painted.(src := src, pos := c.pos + 4);
    }
  }

  /** A plane keeps the used-colour map faithful to the palette and every pixel accounted for. */
  lemma {:induction false} PlaneRecords(data: seq<byte>, P: Palette, c: Cursor)
    requires |c.canvas| == CanvasSize && DecodePlane(data, Some(P), c).Ok?
    requires UsedFromPalette(c.used, P)
    decreases |data| - c.src
    ensures var r := DecodePlane(data, Some(P), c).value;
      && UsedFromPalette(r.used, P)
      && (Recorded(c.canvas, c.used) ==> Recorded(r.canvas, r.used))
  {
    var w := ReadWord(data, c.src);
    var tag := WordTag(w);
    if tag != EndTag {
      var next := c.(src := c.src + 2);
      StepsRecord(data, P, tag, WordCount(w), next);
      var after := Steps(data, Some(P), tag, WordCount(w), next).value;
      var resumed := if tag == RepeatTag then after.(src := after.src + 1) else after;
      PlaneRecords(data, P, resumed);
    }
  }

  /** All planes keep the used-colour map faithful to the palette and every pixel accounted for. */
  lemma {:induction false} PlanesRecord(data: seq<byte>, P: Palette, plane: nat, src: nat, canvas: seq<Rgb>, used: map<byte, Rgb>)
    requires plane <= PlaneCount && |canvas| == CanvasSize
    requires DecodePlanes(data, Some(P), plane, src, canvas, used).Ok?
    requires UsedFromPalette(used, P)
    decreases PlaneCount - plane
    ensures var r := DecodePlanes(data, Some(P), plane, src, canvas, used).value;
      && UsedFromPalette(r.used, P)
      && (Recorded(canvas, used) ==> Recorded(r.canvas, r.used))
  {
    if plane < PlaneCount {
      var c := Cursor(src, plane, canvas, used);
      PlaneRecords(data, P, c);
      var done := DecodePlane(data, Some(P), c).value;
      PlanesRecord(data, P, plane + 1, done.src, done.canvas, done.used);
    }
  }
  // ---------------------------------------------------------------------
  // Which indices the used-colour map records
  // ---------------------------------------------------------------------

  /**
   * The index bytes a run of `count` steps paints, read from the data
   * without a palette or a canvas: none for a SKIP or an empty run, the
   * one byte of a REPEAT, and every byte of a COPY.
   */
  ghost function RunIndices(data: seq<byte>, tag: int, count: nat, src: nat): set<byte>
  {
    if tag == SkipTag || count == 0 then {}
    else if tag == RepeatTag then (if src < |data| then {data[src]} else {})
    else set k | src <= k < src + count && k < |data| :: data[k]
  }

  /** Where a scan of command words stops, and the index bytes its commands paint. */
  datatype Scan = Scan(next: nat, indices: set<byte>)

  /**
   * The command words of one plane from `src`, walked without painting:
   * each word is followed by its REPEAT byte or its COPY bytes, and the
   * end word stops the walk. `None` when the words or bytes run out.
   */
  ghost function ScanPlane(data: seq<byte>, src: nat): (r: Option<Scan>)
    decreases |data| - src
    ensures r.Some? ==> src + 2 <= r.value.next <= |data|
  {
    if src + 2 > |data| then None
    else
      var w := ReadWord(data, src);
      var tag := WordTag(w);
      var count := WordCount(w);
      var body := src + 2;
      if tag == EndTag then Some(Scan(body, {}))
      else
        var next := if tag == CopyTag then body + count else if tag == RepeatTag then body + 1 else body;
        if next > |data| then None
        else match ScanPlane(data, next)
          case None => None
          case Some(later) => Some(Scan(later.next, RunIndices(data, tag, count, body) + later.indices))
  }

  /** The command words of planes `plane`..3, walked one plane after the other from `src`. */
  ghost function ScanPlanes(data: seq<byte>, plane: nat, src: nat): (r: Option<Scan>)
    decreases PlaneCount - plane
    ensures r.Some? ==> src <= r.value.next
  {
    if plane >= PlaneCount then Some(Scan(src, {}))
    else match ScanPlane(data, src)
      case None => None
      case Some(first) =>
        match ScanPlanes(data, plane + 1, first.next)
        case None => None
        case Some(later) => Some(Scan(later.next, first.indices + later.indices))
  }

  /** The first COPY byte, then the bytes after it, are the bytes of the whole COPY. */
  lemma CopyIndicesSplit(data: seq<byte>, src: nat, count: nat)
    requires 0 < count && src < |data|
    ensures RunIndices(data, CopyTag, count, src)
      == {data[src]} + RunIndices(data, CopyTag, count - 1, src + 1)
  {
    var whole := RunIndices(data, CopyTag, count, src);
    var tail := RunIndices(data, CopyTag, count - 1, src + 1);
    forall i | i in whole
      ensures i in {data[src]} + tail
    {
      var k :| src <= k < src + count && k < |data| && data[k] == i;
      if k > src {
        assert i in tail;
      }
    }
  }

  /** A run adds to the used-colour map exactly the index bytes it paints. */
  lemma {:induction false} StepsKeys(data: seq<byte>, pal: Option<Palette>, tag: int, count: nat, c: Cursor)
    requires tag == SkipTag || tag == RepeatTag || tag == CopyTag
    requires |c.canvas| == CanvasSize && Steps(data, pal, tag, count, c).Ok?
    decreases count
    ensures Steps(data, pal, tag, count, c).value.used.Keys == c.used.Keys + RunIndices(data, tag, count, c.src)
  {
    if count > 0 {
      var next := FirstStepKeys(data, pal, tag, count, c);
      StepsKeys(data, pal, tag, count - 1, next);
      var head: set<byte> := if tag == SkipTag then {} else {data[c.src]};
      RunIndicesStep(data, tag, count, c.src);
      calc {
        Steps(data, pal, tag, count, c).value.used.Keys;
        next.used.Keys + RunIndices(data, tag, count - 1, next.src);
        (c.used.Keys + head) + RunIndices(data, tag, count - 1, next.src);
        c.used.Keys + (head + RunIndices(data, tag, count - 1, next.src));
      }
    }
  }

  /** The indices of a run are those of its first step, then those of the steps after it. */
  lemma RunIndicesStep(data: seq<byte>, tag: int, count: nat, src: nat)
    requires tag == SkipTag || tag == RepeatTag || tag == CopyTag
    requires 0 < count && (tag != SkipTag ==> src < |data|)
    ensures var head: set<byte> := if tag == SkipTag then {} else {data[src]};
      RunIndices(data, tag, count, src)
        == head + RunIndices(data, tag, count - 1, if tag == CopyTag then src + 1 else src)
  {
    if tag == CopyTag {
      CopyIndicesSplit(data, src, count);
    }
  }

  /** The first step of a run records the index byte it paints, if any, and the run goes on from there. */
  lemma FirstStepKeys(data: seq<byte>, pal: Option<Palette>, tag: int, count: nat, c: Cursor) returns (next: Cursor)
    requires tag == SkipTag || tag == RepeatTag || tag == CopyTag
    requires |c.canvas| == CanvasSize && 0 < count && Steps(data, pal, tag, count, c).Ok?
    ensures |next.canvas| == CanvasSize
    ensures Steps(data, pal, tag, count, c) == Steps(data, pal, tag, count - 1, next)
    ensures next.src == if tag == CopyTag then c.src + 1 else c.src
    ensures tag == SkipTag ==> next.used == c.used
    ensures tag != SkipTag ==> c.src < |data| && next.used.Keys == c.used.Keys + {data[c.src]}
  {
    if tag == SkipTag {
      next := c.(pos := c.pos + 4);
    } else {
      var painted := Paint(pal, data[c.src], c).value;
      var src := if tag == CopyTag then c.src + 1 else c.src;
      next := painted.(src := src, pos := c.pos + 4);
    }
  }

  /**
   * A decoded plane stops where the walk of its command words stops, and
   * adds to the used-colour map exactly the index bytes those words paint.
   */
  lemma {:induction false} PlaneKeys(data: seq<byte>, pal: Option<Palette>, c: Cursor)
    requires |c.canvas| == CanvasSize && DecodePlane(data, pal, c).Ok?
    decreases |data| - c.src
    ensures var r := DecodePlane(data, pal, c).value;
      && ScanPlane(data, c.src).Some?
      && ScanPlane(data, c.src).value.next == r.src
      && r.used.Keys == c.used.Keys + ScanPlane(data, c.src).value.indices
  {
    var w := ReadWord(data, c.src);
    var tag := WordTag(w);
    var count := WordCount(w);
    if tag == EndTag {
      PlaneEnds(data, pal, c);
    } else {
      var resumed := PlaneResumes(data, pal, c);
      PlaneKeys(data, pal, resumed);
      var later := ScanPlane(data, resumed.src).value;
      ScanPlaneStep(data, c.src, resumed.src, later);
      var run := RunIndices(data, tag, count, c.src + 2);
      calc {
        DecodePlane(data, pal, c).value.used.Keys;
        resumed.used.Keys + later.indices;
        (c.used.Keys + run) + later.indices;
        c.used.Keys + (run + later.indices);
      }
    }
  }

  /** A plane whose first word is the end word stops after it, painting nothing. */
  lemma PlaneEnds(data: seq<byte>, pal: Option<Palette>, c: Cursor)
    requires |c.canvas| == CanvasSize
    requires c.src + 2 <= |data| && WordTag(ReadWord(data, c.src)) == EndTag
    ensures DecodePlane(data, pal, c) == Ok(c.(src := c.src + 2))
    ensures ScanPlane(data, c.src) == Some(Scan(c.src + 2, {}))
  {
  }

  /**
   * A plane's first word is a run: the plane goes on from the cursor that
   * run leaves, past a REPEAT's byte, having recorded the run's indices.
   */
  lemma PlaneResumes(data: seq<byte>, pal: Option<Palette>, c: Cursor) returns (resumed: Cursor)
    requires |c.canvas| == CanvasSize && DecodePlane(data, pal, c).Ok?
    requires c.src + 2 <= |data| && WordTag(ReadWord(data, c.src)) != EndTag
    ensures var tag := WordTag(ReadWord(data, c.src));
      var count := WordCount(ReadWord(data, c.src));
      && |resumed.canvas| == CanvasSize
      && resumed.src == (if tag == CopyTag then c.src + 2 + count else if tag == RepeatTag then c.src + 3 else c.src + 2)
      && resumed.used.Keys == c.used.Keys + RunIndices(data, tag, count, c.src + 2)
    ensures DecodePlane(data, pal, c) == DecodePlane(data, pal, resumed)
  {
    var w := ReadWord(data, c.src);
    var tag := WordTag(w);
    var count := WordCount(w);
    var next := c.(src := c.src + 2);
    StepsKeys(data, pal, tag, count, next);
    var after := Steps(data, pal, tag, count, next).value;
    resumed := if tag == RepeatTag then after.(src := after.src + 1) else after;
  }

  /** One word of the walk: a run's word and bytes, then the walk from the next word. */
  lemma ScanPlaneStep(data: seq<byte>, src: nat, next: nat, later: Scan)
    requires src + 2 <= |data| && WordTag(ReadWord(data, src)) != EndTag
    requires var tag := WordTag(ReadWord(data, src));
      var count := WordCount(ReadWord(data, src));
      next == if tag == CopyTag then src + 2 + count else if tag == RepeatTag then src + 3 else src + 2
    requires ScanPlane(data, next) == Some(later)
    ensures ScanPlane(data, src)
      == Some(Scan(later.next, RunIndices(data, WordTag(ReadWord(data, src)), WordCount(ReadWord(data, src)), src + 2) + later.indices))
  {
  }

  /**
   * Decoding planes `plane`..3 stops where the walk of their command
   * words stops, and adds to the used-colour map exactly the index bytes
   * those words paint.
   */
  lemma {:induction false} PlanesKeys(data: seq<byte>, pal: Option<Palette>, plane: nat, src: nat, canvas: seq<Rgb>, used: map<byte, Rgb>)
    requires plane <= PlaneCount && |canvas| == CanvasSize
    requires DecodePlanes(data, pal, plane, src, canvas, used).Ok?
    decreases PlaneCount - plane
    ensures var r := DecodePlanes(data, pal, plane, src, canvas, used).value;
      && ScanPlanes(data, plane, src).Some?
      && ScanPlanes(data, plane, src).value.next == r.src
      && r.used.Keys == used.Keys + ScanPlanes(data, plane, src).value.indices
  {
    if plane < PlaneCount {
      var c := Cursor(src, plane, canvas, used);
      PlaneKeys(data, pal, c);
      var done := DecodePlane(data, pal, c).value;
      PlanesKeys(data, pal, plane + 1, done.src, done.canvas, done.used);
    }
  }
}
