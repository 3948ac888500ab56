/** Bytes, fixed-width integers and the random-access file read.

    The image file is an in-memory byte sequence; `ReadAt` reproduces the
    contract of Go's `os.File.ReadAt` on it.
 */
module Bytes {
  type byte = b: int | 0 <= b < 256

  const TWO_32: int := 0x1_0000_0000
  const TWO_63: int := 0x8000_0000_0000_0000
  const TWO_64: int := 0x1_0000_0000_0000_0000

  type u64 = x: int | 0 <= x < TWO_64

  /** Go's `int64(x)` for a `uint64` x: two's-complement reinterpretation. */
  function Int64OfUint64(x: u64): (r: int)
    ensures -TWO_63 <= r < TWO_63
    ensures r >= 0 <==> x < TWO_63
    ensures (r - x) % TWO_64 == 0
  {
    if x < TWO_63 then x else x - TWO_64
  }

  /** A sequence of `n` zero bytes, the contents of a fresh `make([]byte, n)`. */
  function Zeros(n: nat): (z: seq<byte>)
    ensures |z| == n
    ensures forall i :: 0 <= i < n ==> z[i] == 0
  {
    seq(n, _ => 0)
  }

  /** What `ReadAt` reports besides the bytes. */
  datatype ReadStatus = Complete | EndOfFile | Failed

  /** The buffer after the read and the error that came with it. */
  datatype ReadResult = ReadResult(buf: seq<byte>, status: ReadStatus)

  /** The bytes of `file` from `off` to its end (none when `off` is past it). */
  function Tail(file: seq<byte>, off: nat): (t: seq<byte>)
    ensures off <= |file| ==> t == file[off..]
    ensures off >= |file| ==> t == []
  {
    if off < |file| then file[off..] else []
  }

  /** `f.ReadAt(make([]byte, n), off)` on a file whose contents are `file`.
      A negative offset is an error before anything is read; an empty read
      at a non-negative offset succeeds, even past the end; otherwise the
      bytes available from `off` are copied, the rest of the buffer keeps
      its zeros, and a short read reports `io.EOF`. */
  function ReadAt(file: seq<byte>, off: int, n: nat): (r: ReadResult)
    ensures |r.buf| == n
    ensures r.status == Failed <==> off < 0
    ensures r.status == Complete <==> 0 <= off && (n == 0 || off + n <= |file|)
    ensures r.status == Complete && n > 0 ==> r.buf == file[off..off + n]
    ensures r.status == EndOfFile ==>
              |Tail(file, off)| < n && r.buf == Tail(file, off) + Zeros(n - |Tail(file, off)|)
  {
    if off < 0 then ReadResult(Zeros(n), Failed)
    else if n == 0 then ReadResult([], Complete)
    else if off + n <= |file| then ReadResult(file[off..off + n], Complete)
    else ReadResult(Tail(file, off) + Zeros(n - |Tail(file, off)|), EndOfFile)
  }

  /** `binary.Read(r, binary.BigEndian, &x)` for an `int32` x. */
  function BigEndianInt32(b: seq<byte>): (r: int)
    requires |b| == 4
    ensures -0x8000_0000 <= r < 0x8000_0000
    ensures r < 0 <==> b[0] >= 0x80
  {
    var u := ((b[0] as int * 256 + b[1]) * 256 + b[2]) * 256 + b[3];
    if u < 0x8000_0000 then u else u - TWO_32
  }

  /** Splitting a 32-bit value into base-256 digits by repeated division
      and putting them back together gives the value. */
  lemma SplitDigits(u: nat)
    requires u < TWO_32
    ensures var q1 := u / 256; var q2 := q1 / 256;
      q2 / 256 < 256 && ((q2 / 256 * 256 + q2 % 256) * 256 + q1 % 256) * 256 + u % 256 == u
  {
    var q1 := u / 256;
    var q2 := q1 / 256;
    assert u == q1 * 256 + u % 256;
    assert q1 == q2 * 256 + q1 % 256;
    assert q2 == q2 / 256 * 256 + q2 % 256;
  }

  /** Conversely, dividing a number written with base-256 digits gives the
      digits back. */
  lemma JoinDigits(b0: nat, b1: nat, b2: nat, b3: nat)
    requires b0 < 256 && b1 < 256 && b2 < 256 && b3 < 256
    ensures var q2 := b0 * 256 + b1; var q1 := q2 * 256 + b2; var u := q1 * 256 + b3;
      && u % 256 == b3 && u / 256 == q1
      && q1 % 256 == b2 && q1 / 256 == q2
      && q2 % 256 == b1 && q2 / 256 == b0
  {
  }

  /** The four big-endian bytes of a two's-complement `int32`, as
      `binary.Write` produces them; reading them back gives `x`. */
  function Int32BigEndian(x: int): (b: seq<byte>)
    requires -0x8000_0000 <= x < 0x8000_0000
    ensures |b| == 4
    ensures BigEndianInt32(b) == x
  {
    var u := if x < 0 then x + TWO_32 else x;
    SplitDigits(u);
    var q1 := u / 256;
    var q2 := q1 / 256;
    [q2 / 256, q2 % 256, q1 % 256, u % 256]
  }

  /** Encoding inverts decoding for every four bytes. */
  lemma Int32BigEndianRoundTrip(b: seq<byte>)
    requires |b| == 4
    ensures Int32BigEndian(BigEndianInt32(b)) == b
  {
    JoinDigits(b[0], b[1], b[2], b[3]);
  }
}
