/** Byte buffers: bounds-aware reads, big-endian numbers and the in-place `read`/`write` helpers. */
module Bytes {
  type byte = x: int | 0 <= x < 256

  /** The outcome of reading memory: a value, or a read outside the allocated buffer (undefined in C++). */
  datatype Access<+T> = Overrun | Got(value: T) {
    predicate IsFailure() {
      Overrun?
    }

    function PropagateFailure<U>(): Access<U>
      requires Overrun?
    {
      Overrun
    }

    function Extract(): T
      requires Got?
    {
      value
    }
  }

  datatype Option<+T> = None | Some(value: T)

  const TWO_TO_THE_16 := 0x1_0000
  const TWO_TO_THE_32 := 0x1_0000_0000
  const TWO_TO_THE_64 := 0x1_0000_0000_0000_0000

  /** Unsigned subtraction with wrap-around at the given modulus. */
  function WrappedMinus(modulus: nat, a: nat, b: nat): (r: nat)
    requires modulus > 0
    ensures b <= a < modulus ==> r == a - b
    ensures a < b <= modulus ==> r == a + modulus - b
  {
    (a - b) % modulus
  }

  function Power(base: nat, e: nat): nat {
    if e == 0 then 1 else base * Power(base, e - 1)
  }

  /** The number whose big-endian base-256 digits are `bs`. */
  function BigEndian(bs: seq<byte>): nat {
    if bs == [] then 0 else BigEndian(bs[..|bs| - 1]) * 256 + bs[|bs| - 1]
  }

  /** Byte `k` of `v`, counted from the least significant: shift right `k` bytes, then mask. */
  function Digit(v: nat, k: nat): byte {
    if k == 0 then v % 256 else Digit(v / 256, k - 1)
  }

  /** The `width` low-order base-256 digits of `v`, most significant first. */
  function ToBytes(v: nat, width: nat): (bs: seq<byte>)
    ensures |bs| == width
  {
    seq(width, i requires 0 <= i < width => Digit(v, width - 1 - i))
  }

  function NumberAt(mem: seq<byte>, at: nat, width: nat): Access<nat> {
    if at + width <= |mem| then Got(BigEndian(mem[at..at + width])) else Overrun
  }

  lemma {:induction false} NumberRoundTrip(v: nat, width: nat)
    requires v < Power(256, width)
    ensures BigEndian(ToBytes(v, width)) == v
  {
    if width > 0 {
      NumberRoundTrip(v / 256, width - 1);
      forall i | 0 <= i < width - 1
        ensures ToBytes(v, width)[i] == ToBytes(v / 256, width - 1)[i]
      {
        assert Digit(v, width - 1 - i) == Digit(v / 256, width - 2 - i);
      }
      var bs := ToBytes(v, width);
      assert bs[..width - 1] == ToBytes(v / 256, width - 1);
      assert Digit(v, 0) == v % 256;
    }
  }

  /** Network byte order: of two and of four bytes read, the first counts most. */
  lemma NetworkOrder(a: byte, b: byte, c: byte, d: byte)
    ensures BigEndian([a, b]) == 256 * a + b
    ensures BigEndian([a, b, c, d]) == 0x100_0000 * a + 0x1_0000 * b + 256 * c + d
  {
    BigEndianNext([], a);
    BigEndianNext([a], b);
    BigEndianNext([a, b], c);
    BigEndianNext([a, b, c], d);
    assert [] + [a] == [a] && [a] + [b] == [a, b] && [a, b] + [c] == [a, b, c] && [a, b, c] + [d] == [a, b, c, d];
  }

  /** Of two and of four bytes written, too. */
  lemma NetworkBytes(a: byte, b: byte, c: byte, d: byte)
    ensures ToBytes(256 * a + b, 2) == [a, b]
    ensures ToBytes(0x100_0000 * a + 0x1_0000 * b + 256 * c + d, 4) == [a, b, c, d]
  {
    var ab: nat := 256 * a + b;
    var abc: nat := 256 * ab + c;
    var abcd: nat := 256 * abc + d;
    DigitNext(a as nat, b);
    DigitNext(ab, c);
    DigitNext(abc, d);
    assert Digit(a as nat, 0) == a;
    assert ToBytes(ab, 2) == [Digit(ab, 1), Digit(ab, 0)];
    assert ToBytes(abcd, 4) == [Digit(abcd, 3), Digit(abcd, 2), Digit(abcd, 1), Digit(abcd, 0)];
  }

  lemma BigEndianNext(bs: seq<byte>, b: byte)
    ensures BigEndian(bs + [b]) == 256 * BigEndian(bs) + b
  {
    var longer := bs + [b];
    assert longer[..|bs|] == bs && longer[|bs|] == b && longer != [];
  }

  lemma DigitNext(v: nat, b: byte)
    ensures Digit(256 * v + b, 0) == b && forall k: nat :: Digit(256 * v + b, k + 1) == Digit(v, k)
  {
    assert (256 * v + b) / 256 == v;
  }

  lemma Powers()
    ensures Power(256, 2) == TWO_TO_THE_16 && Power(256, 4) == TWO_TO_THE_32 && Power(256, 8) == TWO_TO_THE_64
  {
    assert Power(256, 1) == 256;
    assert Power(256, 3) == 256 * Power(256, 2);
    assert Power(256, 5) == 256 * Power(256, 4);
    assert Power(256, 7) == 256 * Power(256, 6);
  }

  /** A number written into memory is read back from it. */
  lemma NumberAtEncoded(mem: seq<byte>, at: nat, v: nat, width: nat)
    requires v < Power(256, width)
    requires at + width <= |mem| && mem[at..at + width] == ToBytes(v, width)
    ensures NumberAt(mem, at, width) == Got(v)
  {
    NumberRoundTrip(v, width);
  }

  // Bitwise OR on natural numbers, one binary digit at a time.

  function BitOr(a: nat, b: nat): nat {
    if a == 0 && b == 0 then 0
    else (if a % 2 == 1 || b % 2 == 1 then 1 else 0) + 2 * BitOr(a / 2, b / 2)
  }

  function Bit(v: nat, k: nat): bool {
    if k == 0 then v % 2 == 1 else Bit(v / 2, k - 1)
  }

  /** A bit of the OR is set exactly when it is set in one of the operands. */
  lemma {:induction false} BitOrBits(a: nat, b: nat, k: nat)
    ensures Bit(BitOr(a, b), k) <==> Bit(a, k) || Bit(b, k)
    decreases k
  {
    var r := BitOr(a, b);
    assert r % 2 == (if a % 2 == 1 || b % 2 == 1 then 1 else 0) && r / 2 == BitOr(a / 2, b / 2);
    if k > 0 {
      BitOrBits(a / 2, b / 2, k - 1);
    }
  }

  lemma {:induction false} BitOrAssociative(a: nat, b: nat, c: nat)
    ensures BitOr(BitOr(a, b), c) == BitOr(a, BitOr(b, c))
  {
    if a != 0 || b != 0 || c != 0 {
      BitOrAssociative(a / 2, b / 2, c / 2);
    }
  }

  lemma {:induction false} BitOrZero(a: nat)
    ensures BitOr(0, a) == a && BitOr(a, 0) == a
  {
    if a != 0 {
      BitOrZero(a / 2);
    }
  }

  /** `v << k`. */
  function ShiftLeft(v: nat, k: nat): nat {
    if k == 0 then v else 2 * ShiftLeft(v, k - 1)
  }

  lemma {:induction false} ShiftTwice(v: nat, j: nat, k: nat)
    ensures ShiftLeft(ShiftLeft(v, j), k) == ShiftLeft(v, j + k)
  {
    if k > 0 {
      ShiftTwice(v, j, k - 1);
    }
  }

  lemma {:induction false} ShiftOr(a: nat, b: nat, k: nat)
    ensures BitOr(ShiftLeft(a, k), ShiftLeft(b, k)) == ShiftLeft(BitOr(a, b), k)
  {
    if k > 0 {
      ShiftOr(a, b, k - 1);
    }
  }

  /** ORing bits into free low-order places adds them. */
  lemma {:induction false} OrLowBits(a: nat, b: nat, k: nat)
    requires b < ShiftLeft(1, k)
    ensures BitOr(ShiftLeft(a, k), b) == ShiftLeft(a, k) + b
  {
    if k == 0 {
      BitOrZero(a);
    } else {
      OrLowBits(a, b / 2, k - 1);
    }
  }

  lemma ShiftByte(v: nat)
    ensures ShiftLeft(v, 8) == 256 * v
  {
    assert ShiftLeft(v, 1) == 2 * v;
    assert ShiftLeft(v, 3) == 4 * ShiftLeft(v, 1);
    assert ShiftLeft(v, 5) == 4 * ShiftLeft(v, 3);
    assert ShiftLeft(v, 7) == 4 * ShiftLeft(v, 5);
  }

  lemma AppendShiftedByte(x: nat, val: byte, k: nat)
    ensures BitOr(ShiftLeft(x, 8 + k), ShiftLeft(val, k)) == ShiftLeft(256 * x + val, k)
  {
    ShiftByte(x);
    ShiftByte(1);
    OrLowBits(x, val, 8);
    ShiftTwice(x, 8, k);
    ShiftOr(256 * x, val, k);
  }

  lemma {:induction false} ShiftZero(k: nat)
    ensures ShiftLeft(0, k) == 0
  {
    if k > 0 {
      ShiftZero(k - 1);
    }
  }

  /** `read`: ORs the big-endian number at `at` into the caller's target. It shifts in 32 bits. */
  method Read(mem: array<byte>, at: nat, width: nat, target: nat) returns (r: Access<nat>)
    requires width <= 4
    ensures r == match NumberAt(mem[..], at, width)
                 case Overrun => Overrun
                 case Got(v) => Got(BitOr(target, v))
  {
    if at + width > mem.Length {
      return Overrun;
    }
    ghost var bs := mem[at..at + width];
    var result := target;
    ShiftZero(8 * width);
    BitOrZero(target);
    for i := 0 to width
      invariant result == BitOr(target, ShiftLeft(BigEndian(bs[..i]), 8 * (width - i)))
    {
      var val := mem[at + i];
      var shifted := ShiftLeft(val, 8 * (width - i - 1));
      BitOrAssociative(target, ShiftLeft(BigEndian(bs[..i]), 8 * (width - i)), shifted);
      AppendShiftedByte(BigEndian(bs[..i]), val, 8 * (width - i - 1));
      assert bs[..i + 1][..i] == bs[..i];
      result := BitOr(result, shifted);
    }
    assert bs[..width] == bs;
    return Got(result);
  }

  /** Memory after the bytes `bs` are stored at `at`. */
  function Stored(mem: seq<byte>, at: nat, bs: seq<byte>): (r: seq<byte>)
    requires at + |bs| <= |mem|
    ensures |r| == |mem|
  {
    mem[..at] + bs + mem[at + |bs|..]
  }

  /** Storing two adjacent pieces is storing their concatenation. */
  lemma StoredTwice(mem: seq<byte>, at: nat, a: seq<byte>, b: seq<byte>)
    requires at + |a| + |b| <= |mem|
    ensures Stored(Stored(mem, at, a), at + |a|, b) == Stored(mem, at, a + b)
  {
  }

  /** Storing changes nothing in front of what is stored and nothing behind it. */
  lemma StoredElsewhere(mem: seq<byte>, at: nat, bs: seq<byte>)
    requires at + |bs| <= |mem|
    ensures Stored(mem, at, bs)[..at] == mem[..at] && Stored(mem, at, bs)[at + |bs|..] == mem[at + |bs|..]
  {
  }

  lemma StoredNothing(mem: seq<byte>, at: nat)
    requires at <= |mem|
    ensures Stored(mem, at, []) == mem
  {
  }

  /** What was stored can be read back. */
  lemma StoredSlice(mem: seq<byte>, at: nat, bs: seq<byte>)
    requires at + |bs| <= |mem|
    ensures Stored(mem, at, bs)[at..at + |bs|] == bs
  {
  }

  method StoreByte(mem: array<byte>, at: nat, b: byte)
    requires at < mem.Length
    modifies mem
    ensures mem[..] == Stored(old(mem[..]), at, [b])
  {
    mem[at] := b;
  }

  /** `write` and `to_bytes`: stores a number most significant byte first. They shift in 32 bits. */
  method Write(mem: array<byte>, at: nat, v: nat, width: nat) returns (next: nat)
    requires width <= 4 && at + width <= mem.Length
    modifies mem
    ensures next == at + width
    ensures mem[..] == Stored(old(mem[..]), at, ToBytes(v, width))
  {
    hide Stored, Digit;
    ghost var start, done := mem[..], [];
    StoredNothing(start, at);
    for i := 0 to width
      invariant done == ToBytes(v, width)[..i] && mem[..] == Stored(start, at, done)
    {
      StoredTwice(start, at, done, [Digit(v, width - 1 - i)]);
      StoreByte(mem, at + i, Digit(v, width - 1 - i));
      done := done + [Digit(v, width - 1 - i)];
    }
    assert ToBytes(v, width)[..width] == ToBytes(v, width);
    return at + width;
  }

  /** `copy`: stores a run of bytes one by one. */
  method Copy(mem: array<byte>, at: nat, bs: seq<byte>)
    requires at + |bs| <= mem.Length
    modifies mem
    ensures mem[..] == Stored(old(mem[..]), at, bs)
  {
    hide Stored;
    ghost var start, done := mem[..], [];
    StoredNothing(start, at);
    for i := 0 to |bs|
      invariant done == bs[..i] && mem[..] == Stored(start, at, done)
    {
      StoredTwice(start, at, done, [bs[i]]);
      StoreByte(mem, at + i, bs[i]);
      done := done + [bs[i]];
    }
    assert bs[..|bs|] == bs;
  }
}
