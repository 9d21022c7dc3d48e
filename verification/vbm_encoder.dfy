/**
 * `ToVbmConverter`: encode an image into a `.vbm` file. The header, the
 * optional embedded palette in DAC form, the command stream (SKIP and COPY
 * runs per plane, never REPEAT) and the per-row visibility table.
 */
module VbmEncoder {
  import opened Base
  import opened Palettes
  import opened ColorUtils
  import opened VbmFormat

  /** `GetPaletteIndex` throws `KeyNotFoundException` for a colour missing from the map. */
  datatype EncodeError = UnmappedColor(color: Rgb)

  /**
   * When a SKIP run is written. The source writes it iff `pos + 4 < endPos`
   * after the run; that also drops a SKIP that ends just before the last
   * position of a plane, so `Corrected` writes it iff the run stops inside
   * the canvas (`pos < endPos`), which is what omitting only a trailing run
   * needs.
   */
  datatype SkipRule = AsWritten | Corrected

  predicate SkipWritten(rule: SkipRule, next: int)
  {
    match rule
    case AsWritten => next + PlaneCount < CanvasSize
    case Corrected => next < CanvasSize
  }

  // ---------------------------------------------------------------------
  // The command stream (EncodePixels)
  // ---------------------------------------------------------------------

  /** `GetPixel`: the canvas position's pixel; outside the image it reads as transparent. */
  function PixelAt(img: Image, pos: int): Rgb
    requires img.Valid() && pos >= 0
  {
    var x := pos % VirtualWidth;
    var y := pos / VirtualWidth;
    if x >= img.width || y >= img.height then Transparency else img.At(x, y)
  }

  /** What `GetPixel` reads at every position of the virtual canvas. */
  function SampleCanvas(img: Image): (canvas: seq<Rgb>)
    requires img.Valid()
    ensures |canvas| == CanvasSize
    ensures forall q | 0 <= q < CanvasSize :: canvas[q] == PixelAt(img, q)
  {
    seq(CanvasSize, q requires 0 <= q < CanvasSize => PixelAt(img, q))
  }

  /**
   * A run of a plane: how many positions `pos`, `pos + 4`, ... lie inside
   * the canvas and are transparent (or, if `transparent` is false,
   * opaque), stopping after `budget` of them. Both inner loops of
   * `EncodePixels` count runs this way with a budget of `MaxCount`.
   */
  function RunLength(canvas: seq<Rgb>, pos: nat, transparent: bool, budget: nat): (n: nat)
    requires |canvas| == CanvasSize
    decreases budget
    ensures n <= budget && (n == 0 || pos + 4 * (n - 1) < CanvasSize)
    ensures n < budget ==> pos + 4 * n >= CanvasSize || (canvas[pos + 4 * n] == Transparency) != transparent
    ensures 0 < budget && pos < CanvasSize && (canvas[pos] == Transparency) == transparent ==> n >= 1
  {
    if budget == 0 || pos >= CanvasSize || (canvas[pos] == Transparency) != transparent then 0
    else 1 + RunLength(canvas, pos + 4, transparent, budget - 1)
  }

  /** Every position of a run has the run's kind. */
  lemma {:induction false} RunUniform(canvas: seq<Rgb>, pos: nat, transparent: bool, budget: nat)
    requires |canvas| == CanvasSize
    decreases budget
    ensures forall k | 0 <= k < RunLength(canvas, pos, transparent, budget) ::
      (canvas[RunPos(pos, k)] == Transparency) == transparent
  {
    if budget > 0 && pos < CanvasSize && (canvas[pos] == Transparency) == transparent {
      RunUniform(canvas, pos + 4, transparent, budget - 1);
      RunShift(canvas, pos, transparent, RunLength(canvas, pos + 4, transparent, budget - 1));
    }
  }

  /** A run from `pos + 4` with one more matching position in front of it is a run from `pos`. */
  lemma RunShift(canvas: seq<Rgb>, pos: nat, transparent: bool, rest: nat)
    requires |canvas| == CanvasSize && pos < CanvasSize && (canvas[pos] == Transparency) == transparent
    requires rest == 0 || pos + 4 + 4 * (rest - 1) < CanvasSize
    requires forall j | 0 <= j < rest :: (canvas[RunPos(RunPos(pos, 1), j)] == Transparency) == transparent
    ensures forall k | 0 <= k < 1 + rest :: (canvas[RunPos(pos, k)] == Transparency) == transparent
  {
    forall k | 0 <= k < 1 + rest
      ensures (canvas[RunPos(pos, k)] == Transparency) == transparent
    {
      if k > 0 {
        var j := k - 1;
        assert (canvas[RunPos(RunPos(pos, 1), j)] == Transparency) == transparent;
      }
    }
  }

  /**
   * The index bytes of a COPY run: `map[colour]` for each of its `n`
   * positions, failing on the first colour missing from the map.
   */
  function CopyIndices(canvas: seq<Rgb>, mapping: map<Rgb, byte>, pos: nat, n: nat): (r: Result<seq<byte>, EncodeError>)
    requires |canvas| == CanvasSize && (n == 0 || pos + 4 * (n - 1) < CanvasSize)
    ensures r.Ok? ==> |r.value| == n
    ensures r.Err? ==> r.error.color !in mapping
  {
    if n == 0 then Ok([])
    else
      var init :- CopyIndices(canvas, mapping, pos, n - 1);
      var c := canvas[RunPos(pos, n - 1)];
      if c !in mapping then Err(UnmappedColor(c)) else Ok(init + [mapping[c]])
  }

  /** A COPY run's indices exist iff every colour of the run is mapped, and are the run's colours' indices. */
  lemma {:induction false} CopyIndicesMapped(canvas: seq<Rgb>, mapping: map<Rgb, byte>, pos: nat, n: nat)
    requires |canvas| == CanvasSize && (n == 0 || pos + 4 * (n - 1) < CanvasSize)
    ensures CopyIndices(canvas, mapping, pos, n).Ok? <==> forall k | 0 <= k < n :: canvas[RunPos(pos, k)] in mapping
    ensures CopyIndices(canvas, mapping, pos, n).Ok? ==>
      forall k | 0 <= k < n :: CopyIndices(canvas, mapping, pos, n).value[k] == mapping[canvas[RunPos(pos, k)]]
  {
    if n > 0 {
      CopyIndicesMapped(canvas, mapping, pos, n - 1);
    }
  }

  /** The commands the plane loop emits: SKIP and COPY only, with counts 1..0x3FFF, and one End last. */
  ghost predicate EmittedPlane(cs: seq<Command>)
  {
    && |cs| >= 1
    && cs[|cs| - 1] == End
    && forall i | 0 <= i < |cs| - 1 :: RunCommand(cs[i])
  }

  /** A SKIP or COPY command the plane loop writes: a non-empty run within the 14-bit count. */
  predicate RunCommand(c: Command)
  {
    || (c.Skip? && 1 <= c.count <= MaxCount)
    || (c.Copy? && 1 <= |c.indices| <= MaxCount)
  }

  /** Writing a run in front of an emitted plane keeps it emitted. */
  lemma EmittedPrepend(c: Command, rest: seq<Command>)
    requires RunCommand(c) && EmittedPlane(rest)
    ensures EmittedPlane([c] + rest)
  {
    var cs := [c] + rest;
    forall i | 0 <= i < |cs| - 1
      ensures RunCommand(cs[i])
    {
      if i > 0 {
        assert cs[i] == rest[i - 1];
      }
    }
  }

  /** One pass of the plane loop's body: how many positions it consumes and the commands it writes. */
  datatype Run = Run(length: nat, written: seq<Command>)

  /**
   * The body of `while (pos < endPos)` at `pos`: a transparent run, written
   * as a SKIP when the rule says so, or an opaque run written as a COPY of
   * its indices.
   */
  function NextRun(canvas: seq<Rgb>, mapping: map<Rgb, byte>, rule: SkipRule, pos: nat): (r: Result<Run, EncodeError>)
    requires |canvas| == CanvasSize && pos < CanvasSize
    ensures r.Ok? ==> 1 <= r.value.length && |r.value.written| <= 1
    ensures r.Ok? && |r.value.written| == 1 ==> RunCommand(r.value.written[0])
  {
    if canvas[pos] == Transparency then
      var n := RunLength(canvas, pos, true, MaxCount);
      Ok(Run(n, if SkipWritten(rule, pos + 4 * n) then [Skip(n)] else []))
    else
      var n := RunLength(canvas, pos, false, MaxCount);
      var indices :- CopyIndices(canvas, mapping, pos, n);
      Ok(Run(n, [Copy(indices)]))
  }

  /**
   * The `while (pos < endPos)` loop of one plane from canvas position
   * `pos` on, then its end-of-plane word.
   */
  function EncodeFrom(canvas: seq<Rgb>, mapping: map<Rgb, byte>, rule: SkipRule, pos: nat): (r: Result<seq<Command>, EncodeError>)
    requires |canvas| == CanvasSize
    decreases CanvasSize - pos
    ensures r.Ok? ==> |r.value| >= 1 && r.value[|r.value| - 1] == End
    ensures r.Ok? ==> forall i | 0 <= i < |r.value| :: Encodable(r.value[i]) && !r.value[i].Repeat?
  {
    if pos >= CanvasSize then Ok([End])
    else
      var run :- NextRun(canvas, mapping, rule, pos);
      var rest :- EncodeFrom(canvas, mapping, rule, pos + 4 * run.length);
      WrittenThenRest(run.written, rest);
      Ok(run.written + rest)
  }

  /** What a pass writes in front of an encodable, REPEAT-free rest keeps it so. */
  lemma WrittenThenRest(written: seq<Command>, rest: seq<Command>)
    requires |written| <= 1 && (|written| == 1 ==> RunCommand(written[0]))
    requires forall i | 0 <= i < |rest| :: Encodable(rest[i]) && !rest[i].Repeat?
    ensures forall i | 0 <= i < |written + rest| :: Encodable((written + rest)[i]) && !(written + rest)[i].Repeat?
  {
    var cs := written + rest;
    forall i | 0 <= i < |cs|
      ensures Encodable(cs[i]) && !cs[i].Repeat?
    {
      if i >= |written| {
        assert cs[i] == rest[i - |written|];
      }
    }
  }

  /** A plane the loop encodes is SKIP and COPY runs within the 14-bit count, then one End. */
  lemma {:induction false} EncodeFromEmitted(canvas: seq<Rgb>, mapping: map<Rgb, byte>, rule: SkipRule, pos: nat)
    requires |canvas| == CanvasSize && EncodeFrom(canvas, mapping, rule, pos).Ok?
    decreases CanvasSize - pos
    ensures EmittedPlane(EncodeFrom(canvas, mapping, rule, pos).value)
  {
    if pos < CanvasSize {
      var run := NextRun(canvas, mapping, rule, pos).value;
      var rest := EncodeFrom(canvas, mapping, rule, pos + 4 * run.length).value;
      EncodeFromEmitted(canvas, mapping, rule, pos + 4 * run.length);
      if |run.written| == 1 {
        assert run.written == [run.written[0]];
        EmittedPrepend(run.written[0], rest);
      }
    }
  }

  /** A transparent run from `pos` never fails: the plane fails only where its rest does. */
  lemma EncodeTransparentRun(canvas: seq<Rgb>, mapping: map<Rgb, byte>, rule: SkipRule, pos: nat)
    requires |canvas| == CanvasSize && pos < CanvasSize && canvas[pos] == Transparency
    ensures var n := RunLength(canvas, pos, true, MaxCount);
      EncodeFrom(canvas, mapping, rule, pos).Ok? <==> EncodeFrom(canvas, mapping, rule, pos + 4 * n).Ok?
  {
    var n := RunLength(canvas, pos, true, MaxCount);
    if EncodeFrom(canvas, mapping, rule, pos + 4 * n).Ok? {
      if SkipWritten(rule, pos + 4 * n) {
        EncodeSkipRun(canvas, mapping, rule, pos);
      } else {
        EncodeDroppedRun(canvas, mapping, rule, pos);
      }
    }
  }

  /** A transparent run whose SKIP the rule writes: that SKIP, then the rest of the plane. */
  lemma EncodeSkipRun(canvas: seq<Rgb>, mapping: map<Rgb, byte>, rule: SkipRule, pos: nat)
    requires |canvas| == CanvasSize && pos < CanvasSize && canvas[pos] == Transparency
    requires var n := RunLength(canvas, pos, true, MaxCount);
      EncodeFrom(canvas, mapping, rule, pos + 4 * n).Ok? && SkipWritten(rule, pos + 4 * n)
    ensures var n := RunLength(canvas, pos, true, MaxCount);
      EncodeFrom(canvas, mapping, rule, pos) == Ok([Skip(n)] + EncodeFrom(canvas, mapping, rule, pos + 4 * n).value)
  {
  }

  /** A transparent run whose SKIP the rule drops: the plane is just its rest. */
  lemma EncodeDroppedRun(canvas: seq<Rgb>, mapping: map<Rgb, byte>, rule: SkipRule, pos: nat)
    requires |canvas| == CanvasSize && pos < CanvasSize && canvas[pos] == Transparency
    requires !SkipWritten(rule, pos + 4 * RunLength(canvas, pos, true, MaxCount))
    ensures EncodeFrom(canvas, mapping, rule, pos) == EncodeFrom(canvas, mapping, rule, pos + 4 * RunLength(canvas, pos, true, MaxCount))
  {
    var rest := EncodeFrom(canvas, mapping, rule, pos + 4 * RunLength(canvas, pos, true, MaxCount));
    if rest.Ok? {
      assert [] + rest.value == rest.value;
    }
  }

  /**
   * An opaque run from `pos`: a COPY of the run's indices in front of the
   * rest of the plane, failing where the run's colours or the rest do.
   */
  lemma EncodeOpaqueRun(canvas: seq<Rgb>, mapping: map<Rgb, byte>, rule: SkipRule, pos: nat)
    requires |canvas| == CanvasSize && pos < CanvasSize && canvas[pos] != Transparency
    ensures var n := RunLength(canvas, pos, false, MaxCount);
      var indices := CopyIndices(canvas, mapping, pos, n);
      var rest := EncodeFrom(canvas, mapping, rule, pos + 4 * n);
      EncodeFrom(canvas, mapping, rule, pos).Ok? <==> indices.Ok? && rest.Ok?
    ensures var n := RunLength(canvas, pos, false, MaxCount);
      var indices := CopyIndices(canvas, mapping, pos, n);
      var rest := EncodeFrom(canvas, mapping, rule, pos + 4 * n);
      indices.Ok? && rest.Ok? ==> EncodeFrom(canvas, mapping, rule, pos).value == [Copy(indices.value)] + rest.value
  {
  }

  /** The commands of planes `plane`..3, in order. */
  function EncodePlanes(canvas: seq<Rgb>, mapping: map<Rgb, byte>, rule: SkipRule, plane: nat): (r: Result<seq<Command>, EncodeError>)
    requires |canvas| == CanvasSize && plane <= PlaneCount
    decreases PlaneCount - plane
    ensures r.Ok? ==> forall i | 0 <= i < |r.value| :: Encodable(r.value[i]) && !r.value[i].Repeat?
  {
    if plane == PlaneCount then Ok([])
    else
      var cs :- EncodeFrom(canvas, mapping, rule, plane);
      var rest :- EncodePlanes(canvas, mapping, rule, plane + 1);
      Ok(cs + rest)
  }

  /** The planes from `plane` on: plane `plane`'s commands, then those of the planes after it. */
  lemma EncodePlanesStep(canvas: seq<Rgb>, mapping: map<Rgb, byte>, rule: SkipRule, plane: nat)
    requires |canvas| == CanvasSize && plane < PlaneCount
    ensures EncodePlanes(canvas, mapping, rule, plane).Ok?
      <==> EncodeFrom(canvas, mapping, rule, plane).Ok? && EncodePlanes(canvas, mapping, rule, plane + 1).Ok?
    ensures EncodePlanes(canvas, mapping, rule, plane).Ok? ==>
      EncodePlanes(canvas, mapping, rule, plane).value
        == EncodeFrom(canvas, mapping, rule, plane).value + EncodePlanes(canvas, mapping, rule, plane + 1).value
  {
  }

  /** `EncodePixels`: the bytes of all four planes' commands. */
  function EncodePixels(img: Image, mapping: map<Rgb, byte>, rule: SkipRule): Result<seq<byte>, EncodeError>
    requires img.Valid()
  {
    var cs :- EncodePlanes(SampleCanvas(img), mapping, rule, 0);
    Ok(StreamBytes(cs))
  }

  // ---------------------------------------------------------------------
  // The visibility table (WriteBlockDescription)
  // ---------------------------------------------------------------------

  /** One row's (Skip, Hide) pair; before the final pass Skip is the leftmost opaque column and Hide one past the rightmost. */
  datatype HideDesc = HideDesc(skip: int, hide: int)

  /** The initial pair: Skip = 0xFFFF marks a row with no opaque pixel yet. */
  const NoOpaque: int := 0xFFFF

  /** The table's `ushort` column and row counters terminate only for these sizes. */
  predicate TableTerminates(img: Image)
  {
    img.width + 3 < U16Limit && img.height < U16Limit
  }

  /** A column holding an opaque pixel in row `y`. */
  predicate OpaqueColumn(img: Image, y: nat, j: nat)
    requires img.Valid() && y < img.height
  {
    j < img.width && img.At(j, y) != Transparency
  }

  /** The loop body for pixel (j, y): widen the pair to cover an opaque column. */
  function Widen(d: HideDesc, pix: Rgb, j: nat): HideDesc
  {
    if pix == Transparency then d
    else HideDesc(if j < d.skip then j else d.skip, if j >= d.hide then j + 1 else d.hide)
  }

  /**
   * Column `c` has been visited once the passes `0..bpl-1` are done and
   * pass `bpl` has reached column `j`.
   */
  predicate Seen(bpl: int, j: int, c: int)
  {
    c % PlaneCount < bpl || (c % PlaneCount == bpl && c < j)
  }

  /**
   * `d` is what the loops hold for row `y` after visiting the `Seen`
   * columns: still the initial pair if none of them is opaque, otherwise
   * the leftmost and one past the rightmost opaque seen column.
   */
  ghost predicate Summarizes(img: Image, y: nat, d: HideDesc, bpl: int, j: int)
    requires img.Valid() && y < img.height
  {
    && ((forall c: nat | Seen(bpl, j, c) :: !OpaqueColumn(img, y, c)) ==> d == HideDesc(NoOpaque, 0))
    && ((exists c: nat | Seen(bpl, j, c) :: OpaqueColumn(img, y, c)) ==>
          && 0 <= d.skip < d.hide
          && Seen(bpl, j, d.skip) && OpaqueColumn(img, y, d.skip)
          && Seen(bpl, j, d.hide - 1) && OpaqueColumn(img, y, d.hide - 1)
          && forall c: nat | Seen(bpl, j, c) && OpaqueColumn(img, y, c) :: d.skip <= c < d.hide)
  }

  /** Two visit states that have seen the same opaque columns summarize alike. */
  lemma SummarizesSameSeen(img: Image, y: nat, d: HideDesc, b1: int, j1: int, b2: int, j2: int)
    requires img.Valid() && y < img.height
    requires forall c: nat | OpaqueColumn(img, y, c) :: Seen(b1, j1, c) == Seen(b2, j2, c)
    requires Summarizes(img, y, d, b1, j1)
    ensures Summarizes(img, y, d, b2, j2)
  {
  }

  /** The only column of pass `j % 4` in `[j, j + 4)` is `j` itself. */
  lemma SeenStep(bpl: int, j: nat)
    requires j % PlaneCount == bpl
    ensures forall c: nat :: Seen(bpl, j + 4, c) == (Seen(bpl, j, c) || c == j)
  {
    forall c: nat
      ensures Seen(bpl, j + 4, c) == (Seen(bpl, j, c) || c == j)
    {
      if c % PlaneCount == bpl && j <= c < j + 4 {
        assert (c - j) % PlaneCount == 0;
      }
    }
  }

  /** Visiting column `j` extends the summary by that column. */
  lemma WidenSummarizes(img: Image, y: nat, d: HideDesc, bpl: int, j: nat)
    requires img.Valid() && y < img.height && j < img.width < NoOpaque && j % PlaneCount == bpl
    requires Summarizes(img, y, d, bpl, j)
    ensures Summarizes(img, y, Widen(d, img.At(j, y), j), bpl, j + 4)
  {
    SeenStep(bpl, j);
    var d' := Widen(d, img.At(j, y), j);
    if !OpaqueColumn(img, y, j) {
      SummarizesSameSeen(img, y, d, bpl, j, bpl, j + 4);
    } else if forall c: nat | Seen(bpl, j, c) :: !OpaqueColumn(img, y, c) {
      assert d' == HideDesc(j, j + 1);
      assert forall c: nat | Seen(bpl, j + 4, c) && OpaqueColumn(img, y, c) :: c == j;
    } else {
      assert forall c: nat | Seen(bpl, j + 4, c) && OpaqueColumn(img, y, c) :: c == j || Seen(bpl, j, c);
    }
  }

  /** Past the row's end, pass `bpl` has seen every column it will. */
  lemma PassDone(img: Image, y: nat, d: HideDesc, bpl: int, j: nat)
    requires img.Valid() && y < img.height && j >= img.width
    requires Summarizes(img, y, d, bpl, j)
    ensures Summarizes(img, y, d, bpl + 1, 0)
  {
    SummarizesSameSeen(img, y, d, bpl, j, bpl + 1, 0);
  }

  /** The inner `for (j = bpl; j < image.Width; j += 4)` loop of pass `bpl` over one row. */
  function ScanColumns(img: Image, y: nat, bpl: int, j: nat, d: HideDesc): (r: HideDesc)
    requires img.Valid() && y < img.height && img.width < NoOpaque && j % PlaneCount == bpl
    requires Summarizes(img, y, d, bpl, j)
    decreases img.width - j
    ensures Summarizes(img, y, r, bpl + 1, 0)
  {
    if j >= img.width then
      PassDone(img, y, d, bpl, j);
      d
    else
      WidenSummarizes(img, y, d, bpl, j);
      assert (j + 4) % PlaneCount == bpl;
      ScanColumns(img, y, bpl, j + 4, Widen(d, img.At(j, y), j))
  }

  /** Starting pass `b` sees what the passes before it saw. */
  lemma StartPass(img: Image, y: nat, d: HideDesc, b: int)
    requires img.Valid() && y < img.height && 0 <= b < PlaneCount
    requires Summarizes(img, y, d, b, 0)
    ensures Summarizes(img, y, d, b, b)
  {
    SummarizesSameSeen(img, y, d, b, 0, b, b);
  }

  /**
   * All four `bpl` passes over row `y`: the initial pair iff the row has
   * no opaque pixel, otherwise its leftmost opaque column and one past its
   * rightmost.
   */
  function ScanRow(img: Image, y: nat): (r: HideDesc)
    requires img.Valid() && y < img.height && img.width < NoOpaque
    ensures (forall c: nat :: !OpaqueColumn(img, y, c)) <==> r == HideDesc(NoOpaque, 0)
    ensures (exists c: nat :: OpaqueColumn(img, y, c)) ==>
      && 0 <= r.skip < r.hide
      && OpaqueColumn(img, y, r.skip) && OpaqueColumn(img, y, r.hide - 1)
      && forall c: nat | OpaqueColumn(img, y, c) :: r.skip <= c < r.hide
  {
    var d0 := HideDesc(NoOpaque, 0);
    var d1 := ScanColumns(img, y, 0, 0, d0);
    StartPass(img, y, d1, 1);
    var d2 := ScanColumns(img, y, 1, 1, d1);
    StartPass(img, y, d2, 2);
    var d3 := ScanColumns(img, y, 2, 2, d2);
    StartPass(img, y, d3, 3);
    var r := ScanColumns(img, y, 3, 3, d3);
    SummarizesSameSeen(img, y, r, 4, 0, 4, 4);
    r
  }

  /** A scanned pair: the initial pair, or a non-empty column span that fits a `ushort`. */
  predicate RowPair(d: HideDesc)
  {
    d == HideDesc(NoOpaque, 0) || 0 <= d.skip < d.hide < U16Limit
  }

  /** A stored pair: two `ushort`s. */
  predicate StoredPair(d: HideDesc)
  {
    0 <= d.skip < U16Limit && 0 <= d.hide < U16Limit
  }

  /**
   * The second pass for one row, given the pending skip `cnt` carried from
   * the row above: the row's stored pair and the next pending skip.
   */
  function StoreRow(d: HideDesc, pending: int): (r: (HideDesc, int))
    ensures RowPair(d) ==> StoredPair(r.0)
    ensures 0 <= r.1 < U16Limit
  {
    if d.skip == NoOpaque then
      (HideDesc(U16((pending + VirtualWidth) / 4), d.hide), 0)
    else
      var s := U16(d.skip - d.skip % 4);
      var h := U16((d.hide + 3) - (d.hide + 3) % 4);
      (HideDesc(U16((pending + s) / 4), U16((h - s) / 4)), U16(VirtualWidth - h))
  }

  /** The second pass over the scanned pairs, from a pending skip on. */
  function StoreRows(scanned: seq<HideDesc>, pending: int): (r: seq<HideDesc>)
    ensures |r| == |scanned|
    ensures (forall i | 0 <= i < |scanned| :: RowPair(scanned[i])) ==> forall i | 0 <= i < |r| :: StoredPair(r[i])
  {
    if |scanned| == 0 then []
    else
      var (row, next) := StoreRow(scanned[0], pending);
      var rest := StoreRows(scanned[1..], next);
      assert forall i | 1 <= i < 1 + |rest| :: ([row] + rest)[i] == rest[i - 1];
      [row] + rest
  }

  /** The pending skip left after the last row (never written). */
  function FinalPending(scanned: seq<HideDesc>, pending: int): int
  {
    if |scanned| == 0 then pending else FinalPending(scanned[1..], StoreRow(scanned[0], pending).1)
  }

  /** The scanned pairs of all rows, top to bottom. */
  function ScanRows(img: Image): (r: seq<HideDesc>)
    requires img.Valid() && TableTerminates(img)
    ensures |r| == img.height
    ensures forall y | 0 <= y < |r| :: RowPair(r[y])
  {
    seq(img.height, y requires 0 <= y < img.height => ScanRow(img, y))
  }

  /** The stored table: one pair of `ushort`s per image row. */
  function VisibilityTable(img: Image): (r: seq<HideDesc>)
    requires img.Valid() && TableTerminates(img)
    ensures |r| == img.height
    ensures forall y | 0 <= y < |r| :: StoredPair(r[y])
  {
    StoreRows(ScanRows(img), 0)
  }

  /** The table's bytes: each row's Skip then Hide, as little-endian `ushort`s. */
  function TableBytes(rows: seq<HideDesc>): (r: seq<byte>)
    requires forall i | 0 <= i < |rows| :: StoredPair(rows[i])
    ensures |r| == 4 * |rows|
    ensures forall i | 0 <= i < |rows| :: ReadWord(r, 4 * i) == rows[i].skip && ReadWord(r, 4 * i + 2) == rows[i].hide
  {
    if |rows| == 0 then []
    else
      assert StoredPair(rows[0]);
      var head := WordBytes(rows[0].skip) + WordBytes(rows[0].hide);
      var rest := TableBytes(rows[1..]);
      var r := head + rest;
      assert forall k | 4 <= k < |r| :: r[k] == rest[k - 4];
      assert forall i | 1 <= i < |rows| :: rows[i] == rows[1..][i - 1];
      assert ReadWord(r, 0) == rows[0].skip && ReadWord(r, 2) == rows[0].hide;
      r
  }

  // ---------------------------------------------------------------------
  // The file (Convert, WritePalette)
  // ---------------------------------------------------------------------

  /** `WritePalette`: each entry in DAC form, laid out like an `.act` file. */
  function WritePalette(p: Palette): (r: seq<byte>)
    ensures |r| == ActSize
    ensures forall i | 0 <= i < ColorsPerPalette :: Triplet(r, i) == ColorToDac(p[i])
  {
    var dac: Palette := seq(ColorsPerPalette, i requires 0 <= i < ColorsPerPalette => ColorToDac(p[i]));
    assert forall i | 0 <= i < ColorsPerPalette :: dac[i] == ColorToDac(p[i]);
    WriteToAct(dac)
  }

  /** Header size: flag, length, width and height words. */
  const HeaderSize: int := 8

  /** The four header words are read back from their offsets, whatever follows them. */
  lemma HeaderWords(a: int, b: int, c: int, d: int, rest: seq<byte>)
    requires 0 <= a < U16Limit && 0 <= b < U16Limit && 0 <= c < U16Limit && 0 <= d < U16Limit
    ensures var h := WordBytes(a) + WordBytes(b) + WordBytes(c) + WordBytes(d) + rest;
      && ReadWord(h, 0) == a && ReadWord(h, 2) == b && ReadWord(h, 4) == c && ReadWord(h, 6) == d
  {
    var h := WordBytes(a) + WordBytes(b) + WordBytes(c) + WordBytes(d) + rest;
    assert h[0] == WordBytes(a)[0] && h[1] == WordBytes(a)[1];
    assert h[2] == WordBytes(b)[0] && h[3] == WordBytes(b)[1];
    assert h[4] == WordBytes(c)[0] && h[5] == WordBytes(c)[1];
    assert h[6] == WordBytes(d)[0] && h[7] == WordBytes(d)[1];
  }

  /** The bytes of a file: header words, palette bytes, then the body the length word counts. */
  function FileBytes(flag: int, width: int, height: int, paletteBytes: seq<byte>, body: seq<byte>): (r: seq<byte>)
    requires 0 <= flag < U16Limit && 0 <= width < U16Limit && 0 <= height < U16Limit
    ensures |r| == HeaderSize + |paletteBytes| + |body|
    ensures ReadWord(r, 0) == flag && ReadWord(r, 2) == |body| % U16Limit
    ensures ReadWord(r, 4) == width && ReadWord(r, 6) == height
    ensures r[HeaderSize..HeaderSize + |paletteBytes|] == paletteBytes
    ensures r[HeaderSize + |paletteBytes|..] == body
  {
    HeaderWords(flag, U16(|body|), width, height, paletteBytes + body);
    var r := WordBytes(flag) + WordBytes(U16(|body|)) + WordBytes(width) + WordBytes(height)
      + (paletteBytes + body);
    assert r[HeaderSize..HeaderSize + |paletteBytes|] == paletteBytes;
    assert r[HeaderSize + |paletteBytes|..] == body;
    r
  }

  /**
   * The layout of a `.vbm` file around a command stream: the header (flag
   * word, length word, width, height), the palette when embedding, the
   * stream, then the visibility table. The length word, patched last,
   * counts the stream AND the table, cut to 16 bits.
   */
  predicate LaidOut(img: Image, embed: Option<Palette>, stream: seq<byte>, file: seq<byte>)
    requires img.Valid() && TableTerminates(img)
  {
    var start := HeaderSize + (if embed.Some? then ActSize else 0);
    && |file| == start + |stream| + 4 * img.height
    && ReadWord(file, 0) == (if embed.Some? then 1 else 0)
    && ReadWord(file, 2) == (|stream| + 4 * img.height) % U16Limit
    && ReadWord(file, 4) == img.width
    && ReadWord(file, 6) == img.height
    && (embed.Some? ==> file[HeaderSize..start] == WritePalette(embed.value))
    && file[start..] == stream + TableBytes(VisibilityTable(img))
  }

  /** `Convert`: the file laid out around the encoded stream; an unmapped colour fails the whole conversion. */
  function Convert(img: Image, mapping: map<Rgb, byte>, embed: Option<Palette>, rule: SkipRule)
    : (r: Result<seq<byte>, EncodeError>)
    requires img.Valid() && (EncodePixels(img, mapping, rule).Ok? ==> TableTerminates(img))
    ensures r.Ok? <==> EncodePixels(img, mapping, rule).Ok?
    ensures r.Ok? ==> LaidOut(img, embed, EncodePixels(img, mapping, rule).value, r.value)
  {
    var encoded := EncodePixels(img, mapping, rule);
    if encoded.Err? then Err(encoded.error)
    else
      assert TableTerminates(img);
      Ok(LayOut(img, embed, encoded.value))
  }

  /** The file `Convert` writes around a command stream that encoded without error. */
  function LayOut(img: Image, embed: Option<Palette>, stream: seq<byte>): (r: seq<byte>)
    requires img.Valid() && TableTerminates(img)
    ensures LaidOut(img, embed, stream, r)
  {
    var table := TableBytes(VisibilityTable(img));
    assert |table| == 4 * img.height;
    var paletteBytes := if embed.Some? then WritePalette(embed.value) else [];
    assert |paletteBytes| == (if embed.Some? then ActSize else 0);
    FileBytes(if embed.Some? then 1 else 0, img.width, img.height, paletteBytes, stream + table)
  }

  // ---------------------------------------------------------------------
  // What the visibility table states
  // ---------------------------------------------------------------------

  /** A scanned pair of an image no wider than the canvas. */
  predicate CanvasRowPair(d: HideDesc)
  {
    d == HideDesc(NoOpaque, 0) || 0 <= d.skip < d.hide <= VirtualWidth
  }

  /** A pending skip the second pass can carry: whole 4-pixel groups within one canvas row. */
  predicate PendingSkip(pending: int)
  {
    0 <= pending <= VirtualWidth && pending % 4 == 0
  }

  /**
   * For one row of an image no wider than the canvas, the stored pair
   * counts 4-pixel groups and nothing wraps: an empty row skips the
   * pending groups plus a whole canvas row and shows nothing; otherwise
   * the row skips the pending groups up to a window `[s, h)` aligned to 4
   * that holds `[skip, hide)` with less than 4 to spare at either end,
   * shows the window, and leaves the rest of the canvas row pending.
   */
  lemma StoreRowWindow(d: HideDesc, pending: int)
    requires CanvasRowPair(d) && PendingSkip(pending)
    ensures var (r, next) := StoreRow(d, pending);
      && PendingSkip(next)
      && (d.skip == NoOpaque ==> 4 * r.skip == pending + VirtualWidth && r.hide == 0 && next == 0)
      && (d.skip != NoOpaque ==>
            var s := 4 * r.skip - pending;
            var h := s + 4 * r.hide;
            && s % 4 == 0 && h % 4 == 0
            && 0 <= s <= d.skip < s + 4
            && d.hide <= h < d.hide + 4 && h <= VirtualWidth
            && r.hide > 0
            && next == VirtualWidth - h)
  {
    if d.skip == NoOpaque {
      assert (pending + VirtualWidth) % 4 == 0;
    } else {
      var s := d.skip - d.skip % 4;
      var h := (d.hide + 3) - (d.hide + 3) % 4;
      assert 0 <= s <= d.skip < s + 4 && s % 4 == 0;
      assert d.hide <= h < d.hide + 4 && h % 4 == 0 && h <= VirtualWidth;
      assert (pending + s) % 4 == 0 && (h - s) % 4 == 0;
    }
  }

  /** Skipped plus shown pixels over all rows of a stored table. */
  function TableSpan(rows: seq<HideDesc>): int
  {
    if |rows| == 0 then 0 else 4 * (rows[0].skip + rows[0].hide) + TableSpan(rows[1..])
  }

  /**
   * The second pass accounts for every pixel: the groups it skips and
   * shows, plus what is still pending after the last row, cover the
   * pending groups it started with and one canvas row per row.
   */
  lemma {:induction false} StoreRowsAccount(scanned: seq<HideDesc>, pending: int)
    requires forall i | 0 <= i < |scanned| :: CanvasRowPair(scanned[i])
    requires PendingSkip(pending)
    ensures PendingSkip(FinalPending(scanned, pending))
    ensures TableSpan(StoreRows(scanned, pending)) + FinalPending(scanned, pending)
      == VirtualWidth * |scanned| + pending
  {
    if |scanned| > 0 {
      StoreRowWindow(scanned[0], pending);
      var (row, next) := StoreRow(scanned[0], pending);
      StoreRowsAccount(scanned[1..], next);
      assert StoreRows(scanned, pending) == [row] + StoreRows(scanned[1..], next);
      assert ([row] + StoreRows(scanned[1..], next))[1..] == StoreRows(scanned[1..], next);
    }
  }

  /** Row `y` of the stored table is stored with the skip pending after the rows above it. */
  lemma {:induction false} StoreRowsAt(scanned: seq<HideDesc>, pending: int, y: nat)
    requires y < |scanned|
    ensures StoreRows(scanned, pending)[y] == StoreRow(scanned[y], FinalPending(scanned[..y], pending)).0
  {
    if y > 0 {
      var next := StoreRow(scanned[0], pending).1;
      StoreRowsAt(scanned[1..], next, y - 1);
      assert scanned[1..][..y - 1] == scanned[..y][1..];
      assert scanned[1..][y - 1] == scanned[y];
    }
  }

  /** A pending skip that survives any prefix of rows. */
  lemma {:induction false} FinalPendingBounded(scanned: seq<HideDesc>, pending: int)
    requires forall i | 0 <= i < |scanned| :: CanvasRowPair(scanned[i])
    requires PendingSkip(pending)
    ensures PendingSkip(FinalPending(scanned, pending))
  {
    if |scanned| > 0 {
      StoreRowWindow(scanned[0], pending);
      FinalPendingBounded(scanned[1..], StoreRow(scanned[0], pending).1);
    }
  }

  /** Scanned pairs of an image no wider than the canvas stay within it. */
  lemma ScannedInCanvas(img: Image)
    requires img.Valid() && img.width <= VirtualWidth && img.height < U16Limit
    ensures forall y | 0 <= y < img.height :: CanvasRowPair(ScanRows(img)[y])
  {
  }

  /**
   * The table for an image no wider than the canvas: every pixel of the
   * canvas rows is either skipped, shown, or still pending at the end.
   */
  lemma TableAccounts(img: Image)
    requires img.Valid() && img.width <= VirtualWidth && img.height < U16Limit
    ensures TableSpan(VisibilityTable(img)) + FinalPending(ScanRows(img), 0) == VirtualWidth * img.height
  {
    ScannedInCanvas(img);
    StoreRowsAccount(ScanRows(img), 0);
  }

  /**
   * Row `y` of the table for an image no wider than the canvas: with the
   * groups pending from the rows above, the row's shown window holds
   * every opaque pixel of the row, starts and ends within 3 columns of the
   * outermost ones, and is empty iff the row has no opaque pixel.
   */
  lemma TableRowWindow(img: Image, y: nat)
    requires img.Valid() && img.width <= VirtualWidth && img.height < U16Limit && y < img.height
    ensures var pending := FinalPending(ScanRows(img)[..y], 0);
      var row := VisibilityTable(img)[y];
      var s := 4 * row.skip - pending;
      var h := s + 4 * row.hide;
      && PendingSkip(pending)
      && ((forall c: nat :: !OpaqueColumn(img, y, c)) <==> row.hide == 0)
      && ((forall c: nat :: !OpaqueColumn(img, y, c)) ==> s == VirtualWidth)
      && (forall c: nat | OpaqueColumn(img, y, c) :: s <= c < h)
      && ((exists c: nat :: OpaqueColumn(img, y, c)) ==>
            OpaqueColumn(img, y, ScanRows(img)[y].skip) && ScanRows(img)[y].skip < s + 4
            && OpaqueColumn(img, y, ScanRows(img)[y].hide - 1) && h < ScanRows(img)[y].hide + 4)
  {
    var scanned := ScanRows(img);
    ScannedInCanvas(img);
    FinalPendingBounded(scanned[..y], 0);
    StoreRowsAt(scanned, 0, y);
    StoreRowWindow(scanned[y], FinalPending(scanned[..y], 0));
  }

  /** A canvas-sized, fully transparent image: every row skips 80 groups and shows none. */
  lemma TransparentTable(img: Image)
    requires img.Valid() && img.width <= VirtualWidth && img.height < U16Limit
    requires forall x, y | 0 <= x < img.width && 0 <= y < img.height :: img.At(x, y) == Transparency
    ensures forall y | 0 <= y < img.height :: VisibilityTable(img)[y] == HideDesc(VirtualWidth / 4, 0)
  {
    forall y | 0 <= y < img.height
      ensures VisibilityTable(img)[y] == HideDesc(VirtualWidth / 4, 0)
    {
      TableRowWindow(img, y);
      ScanRowsEmptyPending(img, y);
    }
  }

  /** With no opaque pixel anywhere, nothing is ever pending. */
  lemma {:induction false} ScanRowsEmptyPending(img: Image, y: nat)
    requires img.Valid() && img.width <= VirtualWidth && img.height < U16Limit && y <= img.height
    requires forall x, y | 0 <= x < img.width && 0 <= y < img.height :: img.At(x, y) == Transparency
    ensures FinalPending(ScanRows(img)[..y], 0) == 0
  {
    if y > 0 {
      ScanRowsEmptyPending(img, y - 1);
      var scanned := ScanRows(img);
      assert scanned[y - 1] == HideDesc(NoOpaque, 0);
      FinalPendingSnoc(scanned[..y - 1], scanned[y - 1], 0);
      assert scanned[..y] == scanned[..y - 1] + [scanned[y - 1]];
    }
  }

  /** The pending skip after one more row. */
  lemma {:induction false} FinalPendingSnoc(scanned: seq<HideDesc>, d: HideDesc, pending: int)
    ensures FinalPending(scanned + [d], pending) == StoreRow(d, FinalPending(scanned, pending)).1
  {
    if |scanned| > 0 {
      assert (scanned + [d])[1..] == scanned[1..] + [d];
      FinalPendingSnoc(scanned[1..], d, StoreRow(scanned[0], pending).1);
    }
  }
}
