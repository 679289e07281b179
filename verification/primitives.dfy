/**
 * Bytes, the fixed-width integers of the C# source, and the big-endian reads and
 * writes of System.Buffers.Binary.BinaryPrimitives that every codec is built on.
 *
 * A read outside the buffer throws in C#; here it is the `OutOfBounds` fault.
 */
module Primitives {

  type byte = b: int | 0 <= b < 0x100
  type Bytes = seq<byte>
  type int16 = x: int | -0x8000 <= x < 0x8000
  type int32 = x: int | -0x8000_0000 <= x < 0x8000_0000

  const INT32_MAX: int32 := 0x7FFF_FFFF

  /**
   * Why a read or write fails: the exceptions the source can throw, one
   * constructor per cause, and two outcomes the model adds. The corrected
   * string reader refuses a negative length, and the fuel bound of the
   * as-written reader can run out where the source would still be looping.
   */
  datatype Fault =
    | OutOfBounds      // index or slice outside the buffer
    | UnsupportedTag   // a value tag missing from the decode table
    | InvalidName      // an attribute name that is empty or white space only
    | DuplicateKey     // Dictionary.Add with a key already present
    | NotImplemented   // an Encode that throws NotImplementedException
    | InvalidDateTime  // a DateTimeOffset the runtime refuses to build
    | NotSingle        // Enumerable.Single without exactly one match
    | NegativeLength   // a length field that reads as negative, refused by the corrected reader
    | OutOfFuel        // the as-written reader's fuel bound is used up

  datatype Result<+T> = Ok(value: T) | Err(fault: Fault) {
    predicate IsFailure() { Err? }

    function PropagateFailure<U>(): Result<U>
      requires Err?
    {
      Err(fault)
    }

    function Extract(): T
      requires Ok?
    {
      value
    }
  }

  datatype Option<+T> = None | Some(value: T)

  /** The low 16 bits of `n` read as a signed short: C#'s unchecked `(short)` cast. */
  function Wrap16(n: int): (r: int16)
    ensures (r - n) % 0x10000 == 0
    ensures -0x8000 <= n < 0x8000 ==> r == n
  {
    var u := n % 0x10000;
    if u < 0x8000 then u else u - 0x10000
  }

  /** The low 32 bits of `n` read as a signed int: unchecked `int` arithmetic. */
  function Wrap32(n: int): (r: int32)
    ensures (r - n) % 0x1_0000_0000 == 0
    ensures -0x8000_0000 <= n < 0x8000_0000 ==> r == n
  {
    var u := n % 0x1_0000_0000;
    if u < 0x8000_0000 then u else u - 0x1_0000_0000
  }

  /** BinaryPrimitives.WriteInt16BigEndian: two's complement, high byte first. */
  function WriteInt16(x: int16): (r: Bytes)
    ensures |r| == 2
  {
    var u := x % 0x10000;
    [u / 0x100, u % 0x100]
  }

  /** The signed short whose big-endian bytes are `hi`, `lo`. */
  function ToInt16(hi: byte, lo: byte): int16
  {
    var u := hi * 0x100 + lo;
    if u < 0x8000 then u else u - 0x10000
  }

  /** BinaryPrimitives.WriteInt32BigEndian. */
  function WriteInt32(x: int32): (r: Bytes)
    ensures |r| == 4
  {
    var u := x % 0x1_0000_0000;
    [u / 0x100_0000, (u / 0x1_0000) % 0x100, (u / 0x100) % 0x100, u % 0x100]
  }

  /** The signed int whose big-endian bytes are `b0` .. `b3`. */
  function ToInt32(b0: byte, b1: byte, b2: byte, b3: byte): int32
  {
    var u := ((b0 * 0x100 + b1) * 0x100 + b2) * 0x100 + b3;
    if u < 0x8000_0000 then u else u - 0x1_0000_0000
  }

  /** BinaryPrimitives.ReadInt16BigEndian(buffer.Slice(off, 2)). */
  function ReadInt16(buf: Bytes, off: int): (r: Result<int16>)
    ensures r.Ok? <==> 0 <= off && off + 2 <= |buf|
  {
    if 0 <= off && off + 2 <= |buf| then Ok(ToInt16(buf[off], buf[off + 1])) else Err(OutOfBounds)
  }

  /** BinaryPrimitives.ReadInt32BigEndian(buffer.Slice(off, 4)). */
  function ReadInt32(buf: Bytes, off: int): (r: Result<int32>)
    ensures r.Ok? <==> 0 <= off && off + 4 <= |buf|
  {
    if 0 <= off && off + 4 <= |buf| then Ok(ToInt32(buf[off], buf[off + 1], buf[off + 2], buf[off + 3]))
    else Err(OutOfBounds)
  }

  /** Reading back what WriteInt16 wrote gives the original short. */
  lemma Int16RoundTrip(x: int16)
    ensures ToInt16(WriteInt16(x)[0], WriteInt16(x)[1]) == x
  {
    var u := x % 0x10000;
    assert u / 0x100 * 0x100 + u % 0x100 == u;
  }

  /** Reading back what WriteInt32 wrote gives the original int. */
  lemma Int32RoundTrip(x: int32)
    ensures var w := WriteInt32(x); ToInt32(w[0], w[1], w[2], w[3]) == x
  {
    var u := x % 0x1_0000_0000;
    var q1 := u / 0x100;
    var q2 := q1 / 0x100;
    assert u == q1 * 0x100 + u % 0x100;
    assert q1 == q2 * 0x100 + q1 % 0x100;
    assert q2 == (q2 / 0x100) * 0x100 + q2 % 0x100;
    assert u / 0x1_0000 == q2;
    assert u / 0x100_0000 == q2 / 0x100;
  }

  /** The bytes `e` sit in `buf` starting at `off`. */
  ghost predicate At(buf: Bytes, off: int, e: Bytes)
  {
    0 <= off && off + |e| <= |buf| && buf[off..off + |e|] == e
  }

  lemma AtSplit(buf: Bytes, off: int, a: Bytes, b: Bytes)
    requires At(buf, off, a + b)
    ensures At(buf, off, a) && At(buf, off + |a|, b)
  {
    assert buf[off..off + |a|] == (a + b)[..|a|];
    assert buf[off + |a|..off + |a| + |b|] == (a + b)[|a|..];
  }

  lemma AtIndex(buf: Bytes, off: int, e: Bytes, i: int)
    requires At(buf, off, e)
    requires 0 <= i < |e|
    ensures buf[off + i] == e[i]
  {
    assert buf[off..off + |e|][i] == e[i];
  }
}
