/**
 * What the VBM raster reader and writer share: the fixed 320x200 virtual
 * canvas, the transparency colour, images as grids of colours, and the
 * 16-bit command words (a 2-bit tag over a 14-bit count).
 */
module VbmFormat {
  import opened Base

  /** `VbmConverter.VirtualWidth` and `VirtualHeight`. */
  const VirtualWidth: int := 320
  const VirtualHeight: int := 200

  /** Positions of the flattened, row-major virtual canvas. */
  const CanvasSize: int := VirtualWidth * VirtualHeight

  /** `VbmConverter.Transparency`: the colour of pixels no command writes. */
  const Transparency: Rgb := Rgb(255, 0, 255)

  /** The canvas is split into four interleaved planes (positions p, p+4, p+8, ...). */
  const PlaneCount: int := 4

  /** Weight of the tag field: a word is `tag * TagUnit + count`. */
  const TagUnit: int := 16384

  /** Largest count a command word can carry (`0x3FFF`). */
  const MaxCount: int := TagUnit - 1

  const EndTag: int := 0
  const SkipTag: int := 1
  const RepeatTag: int := 2
  const CopyTag: int := 3

  /** Canvas position `q` is visited by a plane cursor that starts at `start` and moves by 4. */
  predicate OnPlane(q: int, start: int)
  {
    q >= start && (q - start) % PlaneCount == 0
  }

  /** The `k`-th position a plane cursor visits from `start`. */
  function RunPos(start: int, k: int): int
  {
    start + PlaneCount * k
  }

  /** A cursor that moved on by whole steps visits a subset of what it visited before. */
  lemma OnPlaneLater(q: int, start: int, steps: nat)
    requires OnPlane(q, start + PlaneCount * steps)
    ensures OnPlane(q, start)
  {
  }

  /** A position a cursor visits at or after whole steps is visited by the cursor moved on by those steps. */
  lemma OnPlaneAfter(q: int, start: int, steps: nat)
    requires OnPlane(q, start) && q >= start + PlaneCount * steps
    ensures OnPlane(q, start + PlaneCount * steps)
  {
  }

  /** The positions of plane `p` are exactly those congruent to `p` modulo 4. */
  lemma OnPlaneResidue(q: int, p: int)
    requires 0 <= p < PlaneCount && q >= 0
    ensures OnPlane(q, p) <==> q % PlaneCount == p
  {
  }

  /** An image of `width` x `height` pixels, stored row by row. */
  datatype Image = Image(width: nat, height: nat, rows: seq<seq<Rgb>>) {

    predicate Valid()
    {
      |rows| == height && forall y | 0 <= y < height :: |rows[y]| == width
    }

    /** `image[x, y]`. */
    function At(x: nat, y: nat): Rgb
      requires Valid() && x < width && y < height
    {
      rows[y][x]
    }
  }

  /** The tag of a command word: its top two bits (`v >> 14`). */
  function WordTag(w: int): (tag: int)
    requires 0 <= w < U16Limit
    ensures 0 <= tag < 4
  {
    w / TagUnit
  }

  /** The count of a command word: its low fourteen bits (`v & 0x3FFF`). */
  function WordCount(w: int): (count: int)
    requires 0 <= w < U16Limit
    ensures 0 <= count <= MaxCount
  {
    w % TagUnit
  }

  /** The word `(tag << 14) | count` the writer builds. */
  function MakeWord(tag: int, count: int): (w: int)
    requires 0 <= tag < 4 && 0 <= count <= MaxCount
    ensures 0 <= w < U16Limit
  {
    tag * TagUnit + count
  }

  /** Tag and count are recovered from a built word, and every word is built from its fields. */
  lemma WordFields(tag: int, count: int, w: int)
    requires 0 <= tag < 4 && 0 <= count <= MaxCount
    requires 0 <= w < U16Limit
    ensures WordTag(MakeWord(tag, count)) == tag && WordCount(MakeWord(tag, count)) == count
    ensures MakeWord(WordTag(w), WordCount(w)) == w
  {
  }

  /**
   * The commands of a plane's stream, decoded once from their words. A
   * repeat's index byte follows its word; a copy's indices follow its word
   * and their number is its count.
   */
  datatype Command = End | Skip(count: int) | Repeat(count: int, index: byte) | Copy(indices: seq<byte>)

  /** A command whose count fits its 14-bit field. */
  predicate Encodable(c: Command)
  {
    match c
    case End => true
    case Skip(n) => 0 <= n <= MaxCount
    case Repeat(n, _) => 0 <= n <= MaxCount
    case Copy(indices) => |indices| <= MaxCount
  }

  /** The bytes of one command: its word, then the bytes it carries. */
  function CommandBytes(c: Command): seq<byte>
    requires Encodable(c)
  {
    match c
    case End => WordBytes(MakeWord(EndTag, 0))
    case Skip(n) => WordBytes(MakeWord(SkipTag, n))
    case Repeat(n, index) => WordBytes(MakeWord(RepeatTag, n)) + [index]
    case Copy(indices) => WordBytes(MakeWord(CopyTag, |indices|)) + indices
  }

  /** The bytes of a command sequence, back to back. */
  function StreamBytes(cs: seq<Command>): seq<byte>
    requires forall i | 0 <= i < |cs| :: Encodable(cs[i])
  {
    if |cs| == 0 then [] else CommandBytes(cs[0]) + StreamBytes(cs[1..])
  }

  /** The bytes of a concatenation are the concatenation of the bytes. */
  lemma {:induction false} StreamBytesAppend(a: seq<Command>, b: seq<Command>)
    requires forall i | 0 <= i < |a| :: Encodable(a[i])
    requires forall i | 0 <= i < |b| :: Encodable(b[i])
    ensures forall i | 0 <= i < |a + b| :: Encodable((a + b)[i])
    ensures StreamBytes(a + b) == StreamBytes(a) + StreamBytes(b)
  {
    if |a| > 0 {
      assert (a + b)[1..] == a[1..] + b;
      StreamBytesAppend(a[1..], b);
    } else {
      assert a + b == b;
    }
  }
}
