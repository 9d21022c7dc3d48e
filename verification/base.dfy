/**
 * Shared vocabulary of the converters: bytes, optional values, results with
 * an error payload, 24-bit colours and little-endian 16-bit words.
 */
module Base {

  /** An unsigned 8-bit value, as C#'s `byte`. */
  type byte = x: int | 0 <= x < 256

  /** Number of distinct values of a C# `ushort`. */
  const U16Limit: int := 65536

  /** A value that may be absent (a C# `null` reference). */
  datatype Option<+T> = None | Some(value: T)

  /** The outcome of an operation that may throw; usable with `:-`. */
  datatype Result<+T, +E> = Ok(value: T) | Err(error: E) {

    predicate IsFailure() {
      Err?
    }

    function PropagateFailure<U>(): Result<U, E>
      requires Err?
    {
      Err(error)
    }

    function Extract(): T
      requires Ok?
    {
      value
    }
  }

  /** ImageSharp's `Rgb24`: three 8-bit channels. */
  datatype Rgb = Rgb(r: byte, g: byte, b: byte)

  const Black: Rgb := Rgb(0, 0, 0)

  /** C#'s unchecked conversion of an `int` to `ushort`: wrap modulo 2^16. */
  function U16(x: int): (r: int)
    ensures 0 <= r < U16Limit
    ensures 0 <= x < U16Limit ==> r == x
    ensures (r - x) % U16Limit == 0
  {
    x % U16Limit
  }

  /** The prefix of `body` that a 16-bit length word, wrapped modulo 2^16, still counts. */
  function CutToU16(body: seq<byte>): (r: seq<byte>)
    ensures |r| == U16(|body|) && r <= body
    ensures |body| < U16Limit ==> r == body
  {
    body[..|body| % U16Limit]
  }

  /** `BinaryWriter.Write(ushort)`: the low byte first, then the high byte. */
  function WordBytes(v: int): (r: seq<byte>)
    requires 0 <= v < U16Limit
    ensures |r| == 2
    ensures r[0] as int + 256 * (r[1] as int) == v
  {
    [v % 256, v / 256]
  }

  /** `BitConverter.ToUInt16` / `BinaryReader.ReadUInt16` at offset `at`. */
  function ReadWord(data: seq<byte>, at: nat): (v: int)
    requires at + 2 <= |data|
    ensures 0 <= v < U16Limit
  {
    data[at] as int + 256 * (data[at + 1] as int)
  }

  /** Reading back a written word gives the word, whatever follows it. */
  lemma ReadWordBytes(v: int, rest: seq<byte>)
    requires 0 <= v < U16Limit
    ensures ReadWord(WordBytes(v) + rest, 0) == v
  {
    var w := WordBytes(v) + rest;
    assert w[0] == WordBytes(v)[0] && w[1] == WordBytes(v)[1];
  }

  /** `bytes` occurs in `data` starting at offset `at`. */
  ghost predicate IsAt(data: seq<byte>, at: nat, bytes: seq<byte>)
  {
    at + |bytes| <= |data| && forall k | 0 <= k < |bytes| :: data[at + k] == bytes[k]
  }

  /** An occurrence stays put under a change of how its offset is written. */
  lemma IsAtSame(data: seq<byte>, at: nat, at2: nat, bytes: seq<byte>)
    requires at == at2 && IsAt(data, at, bytes)
    ensures IsAt(data, at2, bytes)
  {
  }

  /** Splitting an occurrence of `a + b` into an occurrence of each part. */
  lemma IsAtSplit(data: seq<byte>, at: nat, a: seq<byte>, b: seq<byte>)
    requires IsAt(data, at, a + b)
    ensures IsAt(data, at, a)
    ensures IsAt(data, at + |a|, b)
  {
    forall k | 0 <= k < |a|
      ensures data[at + k] == a[k]
    {
      assert (a + b)[k] == a[k];
    }
    forall k | 0 <= k < |b|
      ensures data[at + |a| + k] == b[k]
    {
      assert (a + b)[|a| + k] == b[k];
    }
  }

  /** The bytes of an occurrence, one by one. */
  lemma IsAtIndex(data: seq<byte>, at: nat, bytes: seq<byte>, k: nat)
    requires IsAt(data, at, bytes)
    requires k < |bytes|
    ensures data[at + k] == bytes[k]
  {
  }
}
