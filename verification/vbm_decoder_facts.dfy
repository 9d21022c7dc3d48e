/**
 * What one command word does to the decoder of `VbmFile.ToImage`: SKIP,
 * REPEAT and COPY runs, the end-of-plane word, and decoding without a
 * palette.
 */
module VbmDecoderFacts {
  import opened Base
  import opened Palettes
  import opened VbmFormat
  import opened VbmDecoder

  /** The word at the data cursor, and what follows it. */
  lemma WordAt(data: seq<byte>, src: nat, w: int, rest: seq<byte>)
    requires 0 <= w < U16Limit && IsAt(data, src, WordBytes(w) + rest)
    ensures src + 2 <= |data| && ReadWord(data, src) == w && IsAt(data, src + 2, rest)
  {
    IsAtSplit(data, src, WordBytes(w), rest);
    IsAtIndex(data, src, WordBytes(w), 0);
    IsAtIndex(data, src, WordBytes(w), 1);
  }

  /** A word whose tag is 0 ends the plane, whatever its count; the cursor moves past the word only. */
  lemma EndWord(data: seq<byte>, pal: Option<Palette>, c: Cursor)
    requires |c.canvas| == CanvasSize && c.src + 2 <= |data| && ReadWord(data, c.src) < TagUnit
    ensures DecodePlane(data, pal, c) == Ok(c.(src := c.src + 2))
  {
  }

  /**
   * A SKIP, REPEAT or COPY word: its steps, then (for REPEAT) one more
   * byte consumed, then the rest of the plane from there.
   */
  lemma RunWord(data: seq<byte>, pal: Option<Palette>, c: Cursor, tag: int, count: int)
    requires |c.canvas| == CanvasSize && c.src + 2 <= |data|
    requires SkipTag <= tag <= CopyTag && 0 <= count <= MaxCount
    requires ReadWord(data, c.src) == MakeWord(tag, count)
    ensures var after := Steps(data, pal, tag, count, c.(src := c.src + 2));
      && (after.Err? ==> DecodePlane(data, pal, c) == Err(after.error))
      && (after.Ok? ==>
            DecodePlane(data, pal, c)
              == DecodePlane(data, pal, if tag == RepeatTag then after.value.(src := after.value.src + 1) else after.value))
  {
    WordFields(tag, count, 0);
  }

  /** A SKIP of `n` steps reads nothing, writes nothing, and moves the canvas cursor by `4 n`, even past the canvas. */
  lemma {:induction false} SkipSteps(data: seq<byte>, pal: Option<Palette>, n: nat, c: Cursor)
    requires |c.canvas| == CanvasSize
    ensures Steps(data, pal, SkipTag, n, c) == Ok(c.(pos := c.pos + 4 * n))
  {
    if n > 0 {
      SkipSteps(data, pal, n - 1, c.(pos := c.pos + 4));
    }
  }

  /**
   * A COPY of the bytes at the data cursor consumes exactly those bytes
   * and writes `P[b_k]` at its `k`-th position, provided every position
   * it writes lies on the canvas.
   */
  lemma {:induction false} CopySteps(data: seq<byte>, P: Palette, bytes: seq<byte>, c: Cursor)
    requires |c.canvas| == CanvasSize && IsAt(data, c.src, bytes)
    requires |bytes| == 0 || c.pos + 4 * (|bytes| - 1) < CanvasSize
    ensures var r := Steps(data, Some(P), CopyTag, |bytes|, c);
      && r.Ok? && r.value.src == c.src + |bytes| && r.value.pos == c.pos + 4 * |bytes|
      && forall k | 0 <= k < |bytes| :: r.value.canvas[RunPos(c.pos, k)] == P[bytes[k]]
  {
    if |bytes| > 0 {
      var next := CopyFirstStep(data, P, bytes, c);
      CopySteps(data, P, bytes[1..], next);
      StepsKeepBehind(data, Some(P), CopyTag, |bytes| - 1, next, c.pos);
      CopyPrepend(Steps(data, Some(P), CopyTag, |bytes| - 1, next).value.canvas, c.pos, bytes, P);
    }
  }

  /** The first step of a COPY: paint the first byte's colour at the cursor, consume that byte, move on by 4. */
  lemma CopyFirstStep(data: seq<byte>, P: Palette, bytes: seq<byte>, c: Cursor) returns (next: Cursor)
    requires |c.canvas| == CanvasSize && IsAt(data, c.src, bytes) && |bytes| > 0 && c.pos < CanvasSize
    ensures |next.canvas| == CanvasSize && next.src == c.src + 1 && next.pos == c.pos + 4
    ensures next.canvas[c.pos] == P[bytes[0]] && IsAt(data, next.src, bytes[1..])
    ensures Steps(data, Some(P), CopyTag, |bytes|, c) == Steps(data, Some(P), CopyTag, |bytes| - 1, next)
  {
    IsAtIndex(data, c.src, bytes, 0);
    assert bytes == bytes[..1] + bytes[1..];
    IsAtSplit(data, c.src, bytes[..1], bytes[1..]);
    var painted := Paint(Some(P), data[c.src], c).value;
    next := painted.(src := c.src + 1, pos := c.pos + 4);
  }

  /** The colours of a COPY's first byte and of the rest of its run, one step on, make the whole run. */
  lemma CopyPrepend(a: seq<Rgb>, pos: nat, bytes: seq<byte>, P: Palette)
    requires |bytes| > 0 && pos + 4 * (|bytes| - 1) < |a| && a[pos] == P[bytes[0]]
    requires forall k | 0 <= k < |bytes| - 1 :: a[RunPos(RunPos(pos, 1), k)] == P[bytes[1..][k]]
    ensures forall k | 0 <= k < |bytes| :: a[RunPos(pos, k)] == P[bytes[k]]
  {
    forall k | 1 <= k < |bytes|
      ensures a[RunPos(pos, k)] == P[bytes[k]]
    {
      assert bytes[1..][k - 1] == bytes[k];
      assert RunPos(pos, k) == pos + 4 + 4 * (k - 1);
    }
  }

  /**
   * A REPEAT of `n` steps reads the byte at the data cursor without
   * consuming it and writes its palette colour at every position, provided
   * every position it writes lies on the canvas.
   */
  lemma {:induction false} RepeatSteps(data: seq<byte>, P: Palette, n: nat, c: Cursor)
    requires |c.canvas| == CanvasSize && c.src < |data|
    requires n == 0 || c.pos + 4 * (n - 1) < CanvasSize
    ensures var r := Steps(data, Some(P), RepeatTag, n, c);
      && r.Ok? && r.value.src == c.src && r.value.pos == c.pos + 4 * n
      && Filled(r.value.canvas, c.pos, n, P[data[c.src]])
  {
    if n > 0 {
      var next := RepeatFirstStep(data, P, n, c);
      RepeatSteps(data, P, n - 1, next);
      StepsKeepBehind(data, Some(P), RepeatTag, n - 1, next, c.pos);
      RunPrepend(Steps(data, Some(P), RepeatTag, n - 1, next).value.canvas, c.pos, next.pos, n - 1, P[data[c.src]]);
    }
  }

  /** A run leaves the positions behind its start alone. */
  lemma StepsKeepBehind(data: seq<byte>, pal: Option<Palette>, tag: int, count: nat, c: Cursor, q: int)
    requires tag == SkipTag || tag == RepeatTag || tag == CopyTag
    requires |c.canvas| == CanvasSize && Steps(data, pal, tag, count, c).Ok?
    requires 0 <= q < c.pos && q < CanvasSize
    ensures Steps(data, pal, tag, count, c).value.canvas[q] == c.canvas[q]
  {
    StepsFrame(data, pal, tag, count, c);
  }

  /** The first step of a REPEAT: paint the byte's colour at the cursor, keep the data cursor, move on by 4. */
  lemma RepeatFirstStep(data: seq<byte>, P: Palette, n: nat, c: Cursor) returns (next: Cursor)
    requires |c.canvas| == CanvasSize && c.src < |data| && 0 < n && c.pos < CanvasSize
    ensures |next.canvas| == CanvasSize && next.src == c.src && next.pos == c.pos + 4
    ensures next.canvas[c.pos] == P[data[c.src]]
    ensures Steps(data, Some(P), RepeatTag, n, c) == Steps(data, Some(P), RepeatTag, n - 1, next)
  {
    var painted := Paint(Some(P), data[c.src], c).value;
    next := painted.(src := c.src, pos := c.pos + 4);
  }

  /** The `n` positions of a run from `pos` hold `colour`. */
  ghost predicate Filled(a: seq<Rgb>, pos: nat, n: nat, colour: Rgb)
  {
    forall k | 0 <= k < n :: RunPos(pos, k) < |a| && a[RunPos(pos, k)] == colour
  }

  /** A run of one colour from `start`, preceded one step earlier by that colour, is a run one longer. */
  lemma RunPrepend(a: seq<Rgb>, pos: nat, start: nat, m: nat, colour: Rgb)
    requires start == pos + 4 && pos < |a| && a[pos] == colour && Filled(a, start, m, colour)
    ensures Filled(a, pos, m + 1, colour)
  {
    forall k | 1 <= k < m + 1
      ensures RunPos(pos, k) < |a| && a[RunPos(pos, k)] == colour
    {
      assert RunPos(pos, k) == RunPos(start, k - 1);
    }
  }

  /** A run whose every step left `colour` leaves it on every plane position the run covers. */
  lemma RunFill(pos: nat, n: nat, colour: Rgb, a: seq<Rgb>)
    requires |a| == CanvasSize && (n == 0 || pos + 4 * (n - 1) < CanvasSize) && Filled(a, pos, n, colour)
    ensures forall q | OnPlane(q, pos) && q < pos + 4 * n :: a[q] == colour
  {
    forall q | OnPlane(q, pos) && q < pos + 4 * n
      ensures a[q] == colour
    {
      var k := (q - pos) / 4;
      assert q == RunPos(pos, k) && 0 <= k < n;
    }
  }

  /** A whole SKIP command: the word is consumed and the canvas cursor moves on by the count. */
  lemma SkipCommand(data: seq<byte>, pal: Option<Palette>, c: Cursor, n: int)
    requires |c.canvas| == CanvasSize && 0 <= n <= MaxCount
    requires IsAt(data, c.src, CommandBytes(Skip(n)))
    ensures DecodePlane(data, pal, c) == DecodePlane(data, pal, c.(src := c.src + 2, pos := c.pos + 4 * n))
  {
    assert CommandBytes(Skip(n)) == WordBytes(MakeWord(SkipTag, n)) + [];
    WordAt(data, c.src, MakeWord(SkipTag, n), []);
    SkipSteps(data, pal, n, c.(src := c.src + 2));
    RunWord(data, pal, c, SkipTag, n);
  }

  /**
   * A whole REPEAT command: exactly one data byte is consumed after the
   * word, whatever the count (0 included), and the covered positions take
   * that byte's colour while the rest of the canvas is kept.
   */
  lemma RepeatCommand(data: seq<byte>, P: Palette, c: Cursor, n: int, index: byte)
    requires |c.canvas| == CanvasSize && 0 <= n <= MaxCount
    requires IsAt(data, c.src, CommandBytes(Repeat(n, index)))
    requires n == 0 || c.pos + 4 * (n - 1) < CanvasSize
    ensures Steps(data, Some(P), RepeatTag, n, c.(src := c.src + 2)).Ok?
    ensures var after := Steps(data, Some(P), RepeatTag, n, c.(src := c.src + 2)).value;
      && DecodePlane(data, Some(P), c) == DecodePlane(data, Some(P), after.(src := c.src + 3))
      && after.pos == c.pos + 4 * n
      && (forall q | OnPlane(q, c.pos) && q < c.pos + 4 * n :: after.canvas[q] == P[index])
      && (forall q | 0 <= q < CanvasSize && !(OnPlane(q, c.pos) && q < c.pos + 4 * n) :: after.canvas[q] == c.canvas[q])
  {
    WordAt(data, c.src, MakeWord(RepeatTag, n), [index]);
    IsAtIndex(data, c.src + 2, [index], 0);
    RepeatSteps(data, P, n, c.(src := c.src + 2));
    StepsFrame(data, Some(P), RepeatTag, n, c.(src := c.src + 2));
    RunFill(c.pos, n, P[index], Steps(data, Some(P), RepeatTag, n, c.(src := c.src + 2)).value.canvas);
    RunWord(data, Some(P), c, RepeatTag, n);
  }

  /**
   * A whole COPY command: exactly its count of data bytes is consumed
   * after the word, and its `k`-th position takes the colour of the `k`-th
   * byte.
   */
  lemma CopyCommand(data: seq<byte>, P: Palette, c: Cursor, indices: seq<byte>)
    requires |c.canvas| == CanvasSize && |indices| <= MaxCount
    requires IsAt(data, c.src, CommandBytes(Copy(indices)))
    requires |indices| == 0 || c.pos + 4 * (|indices| - 1) < CanvasSize
    ensures Steps(data, Some(P), CopyTag, |indices|, c.(src := c.src + 2)).Ok?
    ensures var after := Steps(data, Some(P), CopyTag, |indices|, c.(src := c.src + 2)).value;
      && DecodePlane(data, Some(P), c) == DecodePlane(data, Some(P), after)
      && after.src == c.src + 2 + |indices| && after.pos == c.pos + 4 * |indices|
      && (forall k | 0 <= k < |indices| :: after.canvas[RunPos(c.pos, k)] == P[indices[k]])
      && (forall q | 0 <= q < CanvasSize && !(OnPlane(q, c.pos) && q < c.pos + 4 * |indices|) :: after.canvas[q] == c.canvas[q])
  {
    WordAt(data, c.src, MakeWord(CopyTag, |indices|), indices);
    CopySteps(data, P, indices, c.(src := c.src + 2));
    StepsFrame(data, Some(P), CopyTag, |indices|, c.(src := c.src + 2));
    RunWord(data, Some(P), c, CopyTag, |indices|);
  }

  /** A REPEAT or COPY step without a palette fails; only SKIP and empty runs survive it. */
  lemma {:induction false} NullPaletteSteps(data: seq<byte>, tag: int, count: nat, c: Cursor)
    requires tag == SkipTag || tag == RepeatTag || tag == CopyTag
    requires |c.canvas| == CanvasSize
    ensures Steps(data, None, tag, count, c).Ok? <==> tag == SkipTag || count == 0
  {
    if tag == SkipTag {
      SkipSteps(data, None, count, c);
    }
  }

  /** With any palette, steps that succeed without one give the same cursor. */
  lemma NullPaletteStepsAgree(data: seq<byte>, P: Palette, tag: int, count: nat, c: Cursor)
    requires tag == SkipTag || tag == RepeatTag || tag == CopyTag
    requires |c.canvas| == CanvasSize
    requires Steps(data, None, tag, count, c).Ok?
    ensures Steps(data, Some(P), tag, count, c) == Steps(data, None, tag, count, c)
  {
    NullPaletteSteps(data, tag, count, c);
    if tag == SkipTag {
      SkipSteps(data, None, count, c);
      SkipSteps(data, Some(P), count, c);
    }
  }

  /**
   * A missing palette matters only when a pixel is written: a plane that
   * decodes without a palette decodes the same with any palette.
   */
  lemma {:induction false} NullPalettePlane(data: seq<byte>, P: Palette, c: Cursor)
    requires |c.canvas| == CanvasSize
    requires DecodePlane(data, None, c).Ok?
    decreases |data| - c.src
    ensures DecodePlane(data, Some(P), c) == DecodePlane(data, None, c)
  {
    var w := ReadWord(data, c.src);
    var tag := WordTag(w);
    var count := WordCount(w);
    if tag != EndTag {
      var next := c.(src := c.src + 2);
      NullPaletteStepsAgree(data, P, tag, count, next);
      var after := Steps(data, None, tag, count, next).value;
      var resumed := if tag == RepeatTag then after.(src := after.src + 1) else after;
      NullPalettePlane(data, P, resumed);
    }
  }

  /** A plane of SKIP words, then an end word. */
  predicate SkipsThenEnd(cs: seq<Command>)
  {
    && |cs| >= 1 && cs[|cs| - 1] == End
    && forall i | 0 <= i < |cs| - 1 :: cs[i].Skip? && 0 <= cs[i].count <= MaxCount
  }

  /** Total SKIP steps of a command sequence. */
  function SkipTotal(cs: seq<Command>): int
  {
    if |cs| == 0 then 0 else (if cs[0].Skip? then cs[0].count else 0) + SkipTotal(cs[1..])
  }

  /**
   * A plane holding only SKIP words and its end word decodes under any
   * palette, even none: it reads exactly its words, writes nothing, and
   * moves the canvas cursor by the skipped steps.
   */
  lemma {:induction false} SkipOnlyPlane(data: seq<byte>, pal: Option<Palette>, c: Cursor, cs: seq<Command>)
    requires |c.canvas| == CanvasSize && SkipsThenEnd(cs)
    requires forall i | 0 <= i < |cs| :: Encodable(cs[i])
    requires IsAt(data, c.src, StreamBytes(cs))
    decreases |cs|
    ensures DecodePlane(data, pal, c).Ok?
    ensures DecodePlane(data, pal, c).value.src == c.src + 2 * |cs|
    ensures DecodePlane(data, pal, c).value.canvas == c.canvas
    ensures DecodePlane(data, pal, c).value.pos == c.pos + 4 * SkipTotal(cs)
  {
    if |cs| == 1 {
      assert StreamBytes(cs) == WordBytes(MakeWord(EndTag, 0)) + [];
      WordAt(data, c.src, MakeWord(EndTag, 0), []);
      EndWord(data, pal, c);
    } else {
      var next := SkipOnlyHead(data, pal, c, cs);
      SkipOnlyPlane(data, pal, next, cs[1..]);
    }
  }

  /** The first SKIP word of such a plane: the plane goes on past it, `count` steps further along. */
  lemma SkipOnlyHead(data: seq<byte>, pal: Option<Palette>, c: Cursor, cs: seq<Command>) returns (next: Cursor)
    requires |c.canvas| == CanvasSize && SkipsThenEnd(cs) && |cs| > 1
    requires forall i | 0 <= i < |cs| :: Encodable(cs[i])
    requires IsAt(data, c.src, StreamBytes(cs))
    ensures next == c.(src := c.src + 2, pos := c.pos + 4 * cs[0].count)
    ensures DecodePlane(data, pal, c) == DecodePlane(data, pal, next)
    ensures SkipsThenEnd(cs[1..]) && forall i | 0 <= i < |cs[1..]| :: Encodable(cs[1..][i])
    ensures IsAt(data, next.src, StreamBytes(cs[1..]))
  {
    var n := cs[0].count;
    next := c.(src := c.src + 2, pos := c.pos + 4 * n);
    assert StreamBytes(cs) == WordBytes(MakeWord(SkipTag, n)) + StreamBytes(cs[1..]);
    WordAt(data, c.src, MakeWord(SkipTag, n), StreamBytes(cs[1..]));
    SkipSteps(data, pal, n, c.(src := c.src + 2));
    RunWord(data, pal, c, SkipTag, n);
    assert forall i | 0 <= i < |cs[1..]| :: cs[1..][i] == cs[i + 1];
  }

  // ---------------------------------------------------------------------
  // What a plane's commands paint
  // ---------------------------------------------------------------------

  /**
   * The commands `cs` of one plane, run from canvas position `pos` over a
   * canvas transparent along the plane, leave it showing `expected` there:
   * a SKIP passes over transparent positions, a REPEAT or COPY paints
   * palette colours inside the canvas, and the end word comes last, after
   * which the rest of the plane is transparent.
   */
  ghost predicate PlaneShows(cs: seq<Command>, pos: nat, expected: seq<Rgb>, P: Palette)
    requires |expected| == CanvasSize
    decreases |cs|
  {
    && |cs| >= 1
    && match cs[0]
       case End =>
         && |cs| == 1
         && forall q | OnPlane(q, pos) && q < CanvasSize :: expected[q] == Transparency
       case Skip(n) =>
         && n >= 0
         && (forall q | OnPlane(q, pos) && q < pos + 4 * n && q < CanvasSize :: expected[q] == Transparency)
         && PlaneShows(cs[1..], pos + 4 * n, expected, P)
       case Repeat(n, index) =>
         && n >= 0 && (n == 0 || pos + 4 * (n - 1) < CanvasSize)
         && (forall q | OnPlane(q, pos) && q < pos + 4 * n :: expected[q] == P[index])
         && PlaneShows(cs[1..], pos + 4 * n, expected, P)
       case Copy(indices) =>
         && (|indices| == 0 || pos + 4 * (|indices| - 1) < CanvasSize)
         && (forall k | 0 <= k < |indices| :: expected[RunPos(pos, k)] == P[indices[k]])
         && PlaneShows(cs[1..], pos + 4 * |indices|, expected, P)
  }

  /** The bytes of a plane: its first command's, then the rest's. */
  lemma StreamHead(cs: seq<Command>)
    requires |cs| >= 1 && forall i | 0 <= i < |cs| :: Encodable(cs[i])
    ensures StreamBytes(cs) == CommandBytes(cs[0]) + StreamBytes(cs[1..])
  {
  }

  /** The state before decoding a plane whose commands `cs` show `expected`. */
  ghost predicate ReadyToShow(data: seq<byte>, P: Palette, cs: seq<Command>, c: Cursor, expected: seq<Rgb>)
  {
    && |c.canvas| == CanvasSize && |expected| == CanvasSize
    && (forall i | 0 <= i < |cs| :: Encodable(cs[i]))
    && PlaneShows(cs, c.pos, expected, P)
    && IsAt(data, c.src, StreamBytes(cs))
    && forall q | OnPlane(q, c.pos) && q < CanvasSize :: c.canvas[q] == Transparency
  }

  /** The plane decoded: exactly its bytes read, and `expected` along it. */
  ghost predicate Shown(data: seq<byte>, P: Palette, cs: seq<Command>, c: Cursor, expected: seq<Rgb>)
    requires ReadyToShow(data, P, cs, c, expected)
  {
    var r := DecodePlane(data, Some(P), c);
    && r.Ok? && r.value.src == c.src + |StreamBytes(cs)|
    && forall q | OnPlane(q, c.pos) && q < CanvasSize :: r.value.canvas[q] == expected[q]
  }

  /**
   * Decoding a plane whose commands show `expected`: the decoder reads
   * exactly the plane's bytes and leaves `expected` along the plane.
   */
  lemma PlaneDecodes(data: seq<byte>, P: Palette, cs: seq<Command>, c: Cursor, expected: seq<Rgb>)
    requires |c.canvas| == CanvasSize && |expected| == CanvasSize
    requires forall i | 0 <= i < |cs| :: Encodable(cs[i])
    requires PlaneShows(cs, c.pos, expected, P)
    requires IsAt(data, c.src, StreamBytes(cs))
    requires forall q | OnPlane(q, c.pos) && q < CanvasSize :: c.canvas[q] == Transparency
    ensures var r := DecodePlane(data, Some(P), c);
      && r.Ok? && r.value.src == c.src + |StreamBytes(cs)|
      && forall q | OnPlane(q, c.pos) && q < CanvasSize :: r.value.canvas[q] == expected[q]
  {
    ShownFrom(data, P, cs, c, expected);
  }

  lemma ShownFrom(data: seq<byte>, P: Palette, cs: seq<Command>, c: Cursor, expected: seq<Rgb>)
    requires ReadyToShow(data, P, cs, c, expected)
    decreases |cs|, 1
    ensures Shown(data, P, cs, c, expected)
  {
    StreamHead(cs);
    IsAtSplit(data, c.src, CommandBytes(cs[0]), StreamBytes(cs[1..]));
    match cs[0]
    case End =>
      assert CommandBytes(End) == WordBytes(MakeWord(EndTag, 0)) + [];
      WordAt(data, c.src, MakeWord(EndTag, 0), []);
      EndWord(data, Some(P), c);
    case Skip(n) => SkipShown(data, P, cs, c, expected);
    case Repeat(n, index) => RepeatShown(data, P, cs, c, expected);
    case Copy(indices) => CopyShown(data, P, cs, c, expected);
  }

  lemma SkipShown(data: seq<byte>, P: Palette, cs: seq<Command>, c: Cursor, expected: seq<Rgb>)
    requires ReadyToShow(data, P, cs, c, expected) && |cs| >= 1 && cs[0].Skip?
    decreases |cs|, 0
    ensures Shown(data, P, cs, c, expected)
  {
    var n := cs[0].count;
    StreamHead(cs);
    IsAtSplit(data, c.src, CommandBytes(cs[0]), StreamBytes(cs[1..]));
    var after := c.(src := c.src + 2, pos := c.pos + 4 * n);
    SkipCommand(data, Some(P), c, n);
    RestReady(data, P, cs, c, after, expected);
    ShownFrom(data, P, cs[1..], after, expected);
    PlaneTail(data, P, c, after, expected, n, Transparency);
  }

  lemma RepeatShown(data: seq<byte>, P: Palette, cs: seq<Command>, c: Cursor, expected: seq<Rgb>)
    requires ReadyToShow(data, P, cs, c, expected) && |cs| >= 1 && cs[0].Repeat?
    decreases |cs|, 0
    ensures Shown(data, P, cs, c, expected)
  {
    var n, index := cs[0].count, cs[0].index;
    StreamHead(cs);
    IsAtSplit(data, c.src, CommandBytes(cs[0]), StreamBytes(cs[1..]));
    RepeatCommand(data, P, c, n, index);
    var after := Steps(data, Some(P), RepeatTag, n, c.(src := c.src + 2)).value;
    var resumed := after.(src := c.src + 3);
    RestReady(data, P, cs, c, resumed, expected);
    ShownFrom(data, P, cs[1..], resumed, expected);
    PlaneTail(data, P, c, resumed, expected, n, P[index]);
  }

  lemma CopyShown(data: seq<byte>, P: Palette, cs: seq<Command>, c: Cursor, expected: seq<Rgb>)
    requires ReadyToShow(data, P, cs, c, expected) && |cs| >= 1 && cs[0].Copy?
    decreases |cs|, 0
    ensures Shown(data, P, cs, c, expected)
  {
    var after := CopyFirst(data, P, cs, c, expected);
    RestReady(data, P, cs, c, after, expected);
    ShownFrom(data, P, cs[1..], after, expected);
    CopyTail(data, P, c, after, expected, |cs[0].indices|);
    StreamHead(cs);
  }

  /** The COPY that starts a plane: where it leaves the decoder, and the colours it leaves on its run. */
  lemma CopyFirst(data: seq<byte>, P: Palette, cs: seq<Command>, c: Cursor, expected: seq<Rgb>) returns (after: Cursor)
    requires ReadyToShow(data, P, cs, c, expected) && |cs| >= 1 && cs[0].Copy?
    ensures FirstRunDone(data, P, cs, c, after, expected)
    ensures DecodePlane(data, Some(P), c) == DecodePlane(data, Some(P), after)
    ensures forall q | OnPlane(q, c.pos) && q < c.pos + 4 * |cs[0].indices| && q < CanvasSize :: after.canvas[q] == expected[q]
  {
    var indices := cs[0].indices;
    StreamHead(cs);
    IsAtSplit(data, c.src, CommandBytes(cs[0]), StreamBytes(cs[1..]));
    CopyCommand(data, P, c, indices);
    after := Steps(data, Some(P), CopyTag, |indices|, c.(src := c.src + 2)).value;
    CopyRunColours(cs, c.pos, expected, P, after.canvas);
  }

  /** A canvas holding a plane's first COPY run's colours agrees with the expected canvas along that run. */
  lemma CopyRunColours(cs: seq<Command>, pos: nat, expected: seq<Rgb>, P: Palette, a: seq<Rgb>)
    requires |expected| == CanvasSize && |a| == CanvasSize && PlaneShows(cs, pos, expected, P) && cs[0].Copy?
    requires forall k | 0 <= k < |cs[0].indices| :: a[RunPos(pos, k)] == P[cs[0].indices[k]]
    ensures forall q | OnPlane(q, pos) && q < pos + 4 * |cs[0].indices| && q < CanvasSize :: a[q] == expected[q]
  {
    CopyShows(cs, pos, expected, P);
    RunPositions(pos, cs[0].indices, P, a, expected);
  }

  /** A plane that starts with a COPY shows the copied colours at the run's positions. */
  lemma CopyShows(cs: seq<Command>, pos: nat, expected: seq<Rgb>, P: Palette)
    requires |expected| == CanvasSize && PlaneShows(cs, pos, expected, P) && cs[0].Copy?
    ensures |cs[0].indices| == 0 || pos + 4 * (|cs[0].indices| - 1) < CanvasSize
    ensures forall k | 0 <= k < |cs[0].indices| :: expected[RunPos(pos, k)] == P[cs[0].indices[k]]
  {
  }

  /** How many plane positions a command covers. */
  function Covered(cmd: Command): int
  {
    match cmd
    case End => 0
    case Skip(n) => n
    case Repeat(n, _) => n
    case Copy(indices) => |indices|
  }

  /**
   * The first command of a plane has run: `after` is at the end of its
   * run and of its bytes, and only the run's positions changed.
   */
  ghost predicate FirstRunDone(data: seq<byte>, P: Palette, cs: seq<Command>, c: Cursor, after: Cursor, expected: seq<Rgb>)
  {
    && ReadyToShow(data, P, cs, c, expected) && |cs| >= 1 && !cs[0].End?
    && |after.canvas| == CanvasSize
    && after.pos == c.pos + 4 * Covered(cs[0]) && after.src == c.src + |CommandBytes(cs[0])|
    && forall q | 0 <= q < CanvasSize && !(OnPlane(q, c.pos) && q < after.pos) :: after.canvas[q] == c.canvas[q]
  }

  /**
   * After the first command of a plane, from the end of its run and of its
   * bytes, the rest of the plane is ready to decode.
   */
  lemma RestReady(data: seq<byte>, P: Palette, cs: seq<Command>, c: Cursor, after: Cursor, expected: seq<Rgb>)
    requires FirstRunDone(data, P, cs, c, after, expected)
    ensures ReadyToShow(data, P, cs[1..], after, expected)
  {
    RestReadyBytes(data, P, cs, c, after, expected);
    RestReadyBlank(data, P, cs, c, after, expected);
    RestReadyShows(data, P, cs, c, after, expected);
  }

  /** The rest of the plane's bytes start where the first command's end. */
  lemma RestReadyBytes(data: seq<byte>, P: Palette, cs: seq<Command>, c: Cursor, after: Cursor, expected: seq<Rgb>)
    requires FirstRunDone(data, P, cs, c, after, expected)
    ensures forall i | 0 <= i < |cs[1..]| :: Encodable(cs[1..][i])
    ensures IsAt(data, after.src, StreamBytes(cs[1..]))
  {
    TailEncodable(cs);
    RestBytes(data, cs, c.src);
  }

  /** The rest of the plane is still transparent after the first run. */
  lemma RestReadyBlank(data: seq<byte>, P: Palette, cs: seq<Command>, c: Cursor, after: Cursor, expected: seq<Rgb>)
    requires FirstRunDone(data, P, cs, c, after, expected)
    ensures forall q | OnPlane(q, after.pos) && q < CanvasSize :: after.canvas[q] == Transparency
  {
    NextRunTransparent(c, Covered(cs[0]), after);
  }

  /** The rest of the commands show the rest of the plane. */
  lemma RestReadyShows(data: seq<byte>, P: Palette, cs: seq<Command>, c: Cursor, after: Cursor, expected: seq<Rgb>)
    requires FirstRunDone(data, P, cs, c, after, expected)
    ensures PlaneShows(cs[1..], after.pos, expected, P)
  {
    ShowsTail(cs, c.pos, expected, P);
  }

  /** The bytes of the commands after the first follow the first command's bytes. */
  lemma RestBytes(data: seq<byte>, cs: seq<Command>, src: nat)
    requires |cs| >= 1 && forall i | 0 <= i < |cs| :: Encodable(cs[i])
    requires IsAt(data, src, StreamBytes(cs))
    ensures IsAt(data, src + |CommandBytes(cs[0])|, StreamBytes(cs[1..]))
  {
    StreamHead(cs);
    IsAtSplit(data, src, CommandBytes(cs[0]), StreamBytes(cs[1..]));
  }

  /** The commands after the first are encodable when all are. */
  lemma TailEncodable(cs: seq<Command>)
    requires |cs| >= 1 && forall i | 0 <= i < |cs| :: Encodable(cs[i])
    ensures forall i | 0 <= i < |cs[1..]| :: Encodable(cs[1..][i])
  {
    assert forall i | 0 <= i < |cs[1..]| :: cs[1..][i] == cs[i + 1];
  }

  /**
   * After a run of `n` steps the rest of the plane is still transparent:
   * the run touched only its own positions.
   */
  lemma NextRunTransparent(c: Cursor, n: int, after: Cursor)
    requires |c.canvas| == CanvasSize && |after.canvas| == CanvasSize && n >= 0
    requires after.pos == c.pos + 4 * n
    requires forall q | OnPlane(q, c.pos) && q < CanvasSize :: c.canvas[q] == Transparency
    requires forall q | 0 <= q < CanvasSize && !(OnPlane(q, c.pos) && q < c.pos + 4 * n) :: after.canvas[q] == c.canvas[q]
    ensures forall q | OnPlane(q, after.pos) && q < CanvasSize :: after.canvas[q] == Transparency
  {
    forall q | OnPlane(q, after.pos) && q < CanvasSize
      ensures after.canvas[q] == Transparency
    {
      assert OnPlane(q, c.pos);
    }
  }

  /** The commands after the first show the rest of the plane from the end of its run. */
  lemma ShowsTail(cs: seq<Command>, pos: nat, expected: seq<Rgb>, P: Palette)
    requires |expected| == CanvasSize && PlaneShows(cs, pos, expected, P) && !cs[0].End?
    ensures PlaneShows(cs[1..], pos + 4 * Covered(cs[0]), expected, P)
  {
  }

  /**
   * Joining a run that left `colour` on its positions to the rest of the
   * plane decoded after it.
   */
  lemma PlaneTail(data: seq<byte>, P: Palette, c: Cursor, after: Cursor, expected: seq<Rgb>, n: int, colour: Rgb)
    requires |c.canvas| == CanvasSize && |after.canvas| == CanvasSize && |expected| == CanvasSize && n >= 0
    requires after.pos == c.pos + 4 * n
    requires forall q | OnPlane(q, c.pos) && q < c.pos + 4 * n && q < CanvasSize :: after.canvas[q] == colour && expected[q] == colour
    requires var r := DecodePlane(data, Some(P), after);
      r.Ok? && forall q | OnPlane(q, after.pos) && q < CanvasSize :: r.value.canvas[q] == expected[q]
    ensures var r := DecodePlane(data, Some(P), after);
      forall q | OnPlane(q, c.pos) && q < CanvasSize :: r.value.canvas[q] == expected[q]
  {
    var r := DecodePlane(data, Some(P), after).value;
    DecodePlaneFrame(data, Some(P), after);
    forall q | OnPlane(q, c.pos) && q < CanvasSize
      ensures r.canvas[q] == expected[q]
    {
      if q >= after.pos {
        OnPlaneAfter(q, c.pos, n);
      }
    }
  }

  /** Joining a run that left `expected` on its positions to the rest of the plane decoded after it. */
  lemma CopyTail(data: seq<byte>, P: Palette, c: Cursor, after: Cursor, expected: seq<Rgb>, n: int)
    requires |c.canvas| == CanvasSize && |after.canvas| == CanvasSize && |expected| == CanvasSize && n >= 0
    requires after.pos == c.pos + 4 * n
    requires forall q | OnPlane(q, c.pos) && q < c.pos + 4 * n && q < CanvasSize :: after.canvas[q] == expected[q]
    requires var r := DecodePlane(data, Some(P), after);
      r.Ok? && forall q | OnPlane(q, after.pos) && q < CanvasSize :: r.value.canvas[q] == expected[q]
    ensures var r := DecodePlane(data, Some(P), after);
      forall q | OnPlane(q, c.pos) && q < CanvasSize :: r.value.canvas[q] == expected[q]
  {
    var r := DecodePlane(data, Some(P), after).value;
    DecodePlaneFrame(data, Some(P), after);
    forall q | OnPlane(q, c.pos) && q < CanvasSize
      ensures r.canvas[q] == expected[q]
    {
      if q >= after.pos {
        OnPlaneAfter(q, c.pos, n);
      }
    }
  }

  /** Two canvases that both hold a COPY run's colours agree on the whole run. */
  lemma RunPositions(pos: nat, indices: seq<byte>, P: Palette, a: seq<Rgb>, b: seq<Rgb>)
    requires |a| == CanvasSize && |b| == CanvasSize && (|indices| == 0 || pos + 4 * (|indices| - 1) < CanvasSize)
    requires forall k | 0 <= k < |indices| :: a[RunPos(pos, k)] == P[indices[k]]
    requires forall k | 0 <= k < |indices| :: b[RunPos(pos, k)] == P[indices[k]]
    ensures forall q | OnPlane(q, pos) && q < pos + 4 * |indices| && q < CanvasSize :: a[q] == b[q]
  {
    var n := |indices|;
    forall q | OnPlane(q, pos) && q < pos + 4 * n && q < CanvasSize
      ensures a[q] == b[q]
    {
      var k := (q - pos) / 4;
      assert q == RunPos(pos, k) && 0 <= k < n;
      assert a[RunPos(pos, k)] == P[indices[k]] == b[RunPos(pos, k)];
    }
  }
}
