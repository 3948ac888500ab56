/** Unsigned LEB128 varints, exactly as Go's `binary.Uvarint` reads them.

    Seven payload bits per byte, least significant group first, the high bit
    of a byte set when another byte follows.  Go answers with a value and a
    byte count: the count is positive on success, 0 when the buffer ends
    before a terminating byte, and negative (minus the bytes examined) when
    the value would not fit in 64 bits.
 */
module Varint {
  import opened Bytes

  /** `binary.MaxVarintLen64`. */
  const MAX_VARINT_LEN64: nat := 10

  function Pow128(i: nat): (p: nat)
    ensures p >= 1
  {
    if i == 0 then 1 else 128 * Pow128(i - 1)
  }

  /** Reference reading of a byte string as base-128 digits, least
      significant first, ignoring the continuation bits. */
  function Base128(bs: seq<byte>): nat
  {
    if bs == [] then 0 else bs[0] % 128 + 128 * Base128(bs[1..])
  }

  /** What `binary.Uvarint` returns. */
  datatype Decoded = Decoded(value: u64, count: int)

  /** Go's loop, from byte `i` with the value `x` accumulated so far.  Go
      ORs `b & 0x7f` shifted by `7 * i` into `x`; `x` is below `128^i`, so
      the OR is this sum. */
  function UvarintFrom(buf: seq<byte>, i: nat, x: int): (r: (int, int))
    requires i <= |buf|
    decreases |buf| - i
  {
    if i == |buf| then (0, 0)
    else if i == MAX_VARINT_LEN64 then (0, -(i + 1))
    else if buf[i] < 0x80 then
      if i == MAX_VARINT_LEN64 - 1 && buf[i] > 1 then (0, -(i + 1))
      else (x + buf[i] * Pow128(i), i + 1)
    else UvarintFrom(buf, i + 1, x + (buf[i] % 0x80) * Pow128(i))
  }

  lemma Pow128Nine()
    ensures Pow128(9) == TWO_63
  {
    assert Pow128(1) == 128;
    assert Pow128(3) == 128 * 128 * 128;
    assert Pow128(6) == Pow128(3) * Pow128(3);
  }

  lemma {:induction false} Pow128Mono(i: nat, j: nat)
    requires i <= j
    ensures Pow128(i) <= Pow128(j)
    decreases j - i
  {
    if i < j {
      Pow128Mono(i, j - 1);
    }
  }

  lemma Pow128Large(i: nat)
    ensures i >= MAX_VARINT_LEN64 ==> Pow128(i) >= TWO_64
  {
    Pow128Nine();
    if i >= MAX_VARINT_LEN64 {
      Pow128Mono(10, i);
    }
  }

  lemma {:induction false} Base128Snoc(bs: seq<byte>, b: byte)
    ensures Base128(bs + [b]) == Base128(bs) + Pow128(|bs|) * (b % 128)
  {
    if bs != [] {
      assert (bs + [b])[1..] == bs[1..] + [b];
      Base128Snoc(bs[1..], b);
      var p := Pow128(|bs| - 1);
      var a := Base128(bs[1..]);
      var c := b % 128;
      assert Base128(bs + [b]) == bs[0] % 128 + 128 * (a + p * c);
      assert Pow128(|bs|) == 128 * p;
      ShiftDigit(a, p, c);
    }
  }

  lemma ShiftDigit(a: int, p: int, c: int)
    ensures 128 * (a + p * c) == 128 * a + (128 * p) * c
  {
  }

  /** One more digit: the accumulator stays the reading of the prefix and
      stays below the next power. */
  lemma AccumulateStep(buf: seq<byte>, i: nat, x: nat)
    requires i < |buf| && x == Base128(buf[..i]) && x < Pow128(i)
    ensures x + (buf[i] % 128) * Pow128(i) == Base128(buf[..i + 1])
    ensures x + (buf[i] % 128) * Pow128(i) < Pow128(i + 1)
  {
    assert buf[..i + 1] == buf[..i] + [buf[i]];
    Base128Snoc(buf[..i], buf[i]);
    MulMonoIf(buf[i] % 128, 127, Pow128(i));
  }

  lemma MulMonoIf(a: nat, b: nat, p: nat)
    ensures a <= b ==> a * p <= b * p
  {
  }

  /** The loop's answer when byte `i` ends the varint. */
  lemma TerminalBound(x: nat, b: nat, i: nat)
    requires i < MAX_VARINT_LEN64 && b < 0x80 && x < Pow128(i)
    requires i == MAX_VARINT_LEN64 - 1 ==> b <= 1
    ensures x + b * Pow128(i) < TWO_64
  {
    Pow128Nine();
    var p := Pow128(i);
    if i < MAX_VARINT_LEN64 - 1 {
      Pow128Mono(i + 1, 9);
      assert x + b * p < 128 * p;
    } else {
      assert x + b * p < 2 * p;
    }
  }

  /** What the loop computes from position `i` on. */
  lemma {:induction false} UvarintFromSpec(buf: seq<byte>, i: nat, x: nat)
    requires i <= |buf| && i <= MAX_VARINT_LEN64
    requires x == Base128(buf[..i]) && x < Pow128(i)
    ensures var (v, c) := UvarintFrom(buf, i, x);
      && c <= |buf|
      && (c <= 0 ==> v == 0)
      && (c > 0 ==> 0 <= v < TWO_64 && v == Base128(buf[..c]))
    decreases |buf| - i
  {
    if i == |buf| {
    } else if i == MAX_VARINT_LEN64 {
    } else if buf[i] < 0x80 {
      if !(i == MAX_VARINT_LEN64 - 1 && buf[i] > 1) {
        TerminalValue(buf, i, x);
      }
    } else {
      AccumulateStep(buf, i, x);
      UvarintFromSpec(buf, i + 1, x + (buf[i] % 0x80) * Pow128(i));
    }
  }

  /** The loop answers 0 exactly when the buffer ends, within ten bytes,
      before any byte without the continuation bit. */
  lemma {:induction false} UvarintFromShort(buf: seq<byte>, i: nat, x: int)
    requires i <= |buf| && i <= MAX_VARINT_LEN64
    requires forall j :: 0 <= j < i ==> buf[j] >= 0x80
    ensures UvarintFrom(buf, i, x).1 == 0 <==>
              |buf| <= MAX_VARINT_LEN64 && forall j :: 0 <= j < |buf| ==> buf[j] >= 0x80
    decreases |buf| - i
  {
    if i < |buf| && i < MAX_VARINT_LEN64 && buf[i] >= 0x80 {
      UvarintFromShort(buf, i + 1, x + (buf[i] % 0x80) * Pow128(i));
    }
  }

  /** The value the loop returns at an accepted terminating byte is the
      base-128 reading of the bytes so far, and fits in 64 bits. */
  lemma TerminalValue(buf: seq<byte>, i: nat, x: nat)
    requires i < |buf| && i < MAX_VARINT_LEN64 && buf[i] < 0x80
    requires i == MAX_VARINT_LEN64 - 1 ==> buf[i] <= 1
    requires x == Base128(buf[..i]) && x < Pow128(i)
    ensures x + buf[i] * Pow128(i) == Base128(buf[..i + 1])
    ensures x + buf[i] * Pow128(i) < TWO_64
  {
    AccumulateStep(buf, i, x);
    TerminalBound(x, buf[i], i);
    assert buf[i] % 128 == buf[i];
  }

  /** Byte `k` ends a varint Go accepts: it is the first byte without the
      continuation bit, it is among the first ten, and as the tenth it
      carries at most the one bit left of 64. */
  predicate TerminalAt(buf: seq<byte>, k: int)
  {
    && 0 <= k < |buf| && k < MAX_VARINT_LEN64 && buf[k] < 0x80
    && (forall j :: 0 <= j < k ==> buf[j] >= 0x80)
    && (k == MAX_VARINT_LEN64 - 1 ==> buf[k] <= 1)
  }

  /** The first `n` bytes all carry the continuation bit. */
  predicate Continued(buf: seq<byte>, n: nat)
    requires n <= |buf|
  {
    forall j :: 0 <= j < n ==> buf[j] >= 0x80
  }

  /** No byte of `buf` ends a varint Go accepts. */
  predicate NoTerminal(buf: seq<byte>)
  {
    forall k :: 0 <= k < |buf| ==> !TerminalAt(buf, k)
  }

  /** Which count the loop answers from position `i` on, whatever the
      value accumulated so far. */
  lemma {:induction false} UvarintFromCount(buf: seq<byte>, i: nat, x: nat)
    requires i <= |buf| && i <= MAX_VARINT_LEN64
    requires forall j :: 0 <= j < i ==> buf[j] >= 0x80
    ensures var c := UvarintFrom(buf, i, x).1;
      && (c > 0 ==> TerminalAt(buf, c - 1))
      && (c <= 0 ==> NoTerminal(buf))
      && (c == -(MAX_VARINT_LEN64 + 1) <==> |buf| > MAX_VARINT_LEN64 && Continued(buf, MAX_VARINT_LEN64))
      && (c == -(MAX_VARINT_LEN64 as int) <==>
            && |buf| >= MAX_VARINT_LEN64 && Continued(buf, MAX_VARINT_LEN64 - 1)
            && 1 < buf[MAX_VARINT_LEN64 - 1] < 0x80)
      && (c < 0 ==> c == -(MAX_VARINT_LEN64 as int) || c == -(MAX_VARINT_LEN64 + 1))
    decreases |buf| - i
  {
    if i == |buf| {
    } else if i == MAX_VARINT_LEN64 {
    } else if buf[i] < 0x80 {
      assert TerminalAt(buf, i) <==> !(i == MAX_VARINT_LEN64 - 1 && buf[i] > 1);
    } else {
      UvarintFromCount(buf, i + 1, x + (buf[i] % 0x80) * Pow128(i));
    }
  }

  /** `binary.Uvarint(buf)`. */
  function Uvarint(buf: seq<byte>): (d: Decoded)
    ensures d.count <= |buf| && d.count <= MAX_VARINT_LEN64
    ensures d.count <= 0 ==> d.value == 0
    ensures d.count > 0 ==>
              && d.value == Base128(buf[..d.count])
              && buf[d.count - 1] < 0x80
              && forall j :: 0 <= j < d.count - 1 ==> buf[j] >= 0x80
    ensures d.count == 0 <==>
              |buf| <= MAX_VARINT_LEN64 && forall j :: 0 <= j < |buf| ==> buf[j] >= 0x80
    ensures d.count > 0 ==> TerminalAt(buf, d.count - 1)
    ensures d.count <= 0 ==> NoTerminal(buf)
    ensures d.count == -(MAX_VARINT_LEN64 + 1) <==> |buf| > MAX_VARINT_LEN64 && Continued(buf, MAX_VARINT_LEN64)
    ensures d.count == -(MAX_VARINT_LEN64 as int) <==>
              && |buf| >= MAX_VARINT_LEN64 && Continued(buf, MAX_VARINT_LEN64 - 1)
              && 1 < buf[MAX_VARINT_LEN64 - 1] < 0x80
    ensures d.count < 0 ==> d.count == -(MAX_VARINT_LEN64 as int) || d.count == -(MAX_VARINT_LEN64 + 1)
  {
    UvarintFromSpec(buf, 0, 0);
    UvarintFromShort(buf, 0, 0);
    UvarintFromCount(buf, 0, 0);
    var (v, c) := UvarintFrom(buf, 0, 0);
    Decoded(v, c)
  }

  /** Go also accepts encodings longer than needed: a zero spelled in two
      bytes reads as zero and consumes both. */
  lemma NonMinimalZero(rest: seq<byte>)
    ensures Uvarint([0x80, 0x00] + rest) == Decoded(0, 2)
  {
    var buf := [0x80, 0x00] + rest;
    assert TerminalAt(buf, 1);
    assert buf[..2] == [0x80, 0x00];
    assert Base128(buf[..2]) == 0 + 128 * Base128([0x00]);
  }

  /** `binary.PutUvarint`: the minimal encoding of `v`. */
  function PutUvarint(v: nat): (bs: seq<byte>)
    ensures |bs| >= 1
    decreases v
  {
    if v < 0x80 then [v] else [v % 0x80 + 0x80] + PutUvarint(v / 0x80)
  }

  lemma {:induction false} PutUvarintDecodesAt(buf: seq<byte>, i: nat, x: nat, v: nat)
    requires x < Pow128(i) && x + Pow128(i) * v < TWO_64
    requires i == 0 || v > 0
    requires i + |PutUvarint(v)| <= |buf| && buf[i..i + |PutUvarint(v)|] == PutUvarint(v)
    ensures UvarintFrom(buf, i, x) == (x + Pow128(i) * v, i + |PutUvarint(v)|)
    decreases v
  {
    var enc := PutUvarint(v);
    assert buf[i] == enc[0];
    EncodingFits(i, x, v);
    if v < 0x80 {
      LastByteDecodes(buf, i, x, v);
    } else {
      var v' := v / 0x80;
      var x' := x + (v % 0x80) * Pow128(i);
      NextDigit(i, x, v);
      ContinuationByte(buf, i, x, v);
      PutUvarintDecodesAt(buf, i + 1, x', v');
    }
  }

  /** A byte without the continuation bit ends the varint there, with its
      digit added at weight `128^i`. */
  lemma LastByteDecodes(buf: seq<byte>, i: nat, x: nat, v: nat)
    requires i < MAX_VARINT_LEN64 && i < |buf| && buf[i] == v < 0x80
    requires x + Pow128(i) * v < TWO_64
    ensures UvarintFrom(buf, i, x) == (x + Pow128(i) * v, i + 1)
  {
    LastDigitFits(i, x, v);
  }

  /** A byte with the continuation bit adds its low seven bits at weight
      `128^i` and hands over to byte `i + 1`, where the encoding of the
      rest of `v` sits. */
  lemma ContinuationByte(buf: seq<byte>, i: nat, x: int, v: nat)
    requires v >= 0x80 && i < MAX_VARINT_LEN64
    requires i + |PutUvarint(v)| <= |buf| && buf[i..i + |PutUvarint(v)|] == PutUvarint(v)
    ensures UvarintFrom(buf, i, x) == UvarintFrom(buf, i + 1, x + (v % 0x80) * Pow128(i))
    ensures i + 1 + |PutUvarint(v / 0x80)| == i + |PutUvarint(v)|
    ensures buf[i + 1..i + 1 + |PutUvarint(v / 0x80)|] == PutUvarint(v / 0x80)
  {
    var enc := PutUvarint(v);
    assert buf[i] == enc[0] == v % 0x80 + 0x80;
    assert buf[i] % 0x80 == v % 0x80;
    assert buf[i + 1..i + 1 + |PutUvarint(v / 0x80)|] == enc[1..];
  }

  /** A last digit in the tenth byte can only be 0 or 1. */
  lemma LastDigitFits(i: nat, x: nat, v: nat)
    requires x + Pow128(i) * v < TWO_64
    ensures i == MAX_VARINT_LEN64 - 1 ==> v <= 1
  {
    if i == MAX_VARINT_LEN64 - 1 {
      Pow128Nine();
      MulMonoIf(2, v, Pow128(i));
    }
  }

  /** Emitting the low digit of `v` at byte `i` keeps the accumulator below
      the next power and leaves the rest of `v` for byte `i + 1`. */
  lemma NextDigit(i: nat, x: nat, v: nat)
    requires x < Pow128(i)
    ensures x + (v % 0x80) * Pow128(i) < Pow128(i + 1)
    ensures (x + (v % 0x80) * Pow128(i)) + Pow128(i + 1) * (v / 0x80) == x + Pow128(i) * v
  {
    DigitSplit(x, Pow128(i), v);
    assert v % 0x80 <= 127;
    MulMonoIf(v % 0x80, 127, Pow128(i));
  }

  /** A value that still has digits to emit fits only below byte 10. */
  lemma EncodingFits(i: nat, x: nat, v: nat)
    requires x + Pow128(i) * v < TWO_64
    requires i == 0 || v > 0
    ensures i < MAX_VARINT_LEN64
  {
    Pow128Large(i);
    if i != 0 {
      MulMonoIf(1, v, Pow128(i));
    }
  }

  lemma DigitSplit(x: nat, p: nat, v: nat)
    ensures x + p * v == (x + (v % 0x80) * p) + (128 * p) * (v / 0x80)
  {
    assert v == v % 0x80 + 0x80 * (v / 0x80);
    assert p * v == p * (v % 0x80) + p * (0x80 * (v / 0x80));
  }

  /** Reading back the encoding of any 64-bit value gives that value and
      the encoding's length, whatever bytes follow it. */
  lemma PutUvarintRoundTrip(v: u64, rest: seq<byte>)
    ensures Uvarint(PutUvarint(v) + rest) == Decoded(v, |PutUvarint(v)|)
  {
    var buf := PutUvarint(v) + rest;
    assert buf[0..|PutUvarint(v)|] == PutUvarint(v);
    PutUvarintDecodesAt(buf, 0, 0, v);
  }
}
