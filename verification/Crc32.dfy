/** The CRC-32 of the hex editor: a branch-free bit loop, and the polynomial arithmetic it computes.
    A register holds a polynomial over the two-element field of degree below 32, reflected: bit 31 is the
    coefficient of 1 and bit 0 that of the 31st power. */
module Crc32 {
  import opened Bits
  import opened Bytes

  /** The generator polynomial of section 8 of RFC 1952, without its leading term. */
  const POLY := 0xedb8_8320
  const ONE := 0x8000_0000
  const ALL_ONES := 0xffff_ffff

  /** Multiplication by x modulo the generator, written with the branch of RFC 1952. */
  function MulX(r: nat): nat {
    if r % 2 == 1 then Xor(POLY, r / 2) else r / 2
  }

  /** Multiplication by the n-th power of x. */
  function Shift(n: nat, r: nat): nat {
    if n == 0 then r else MulX(Shift(n - 1, r))
  }

  /** The remainder of a polynomial given by its coefficients, highest power first: schoolbook division,
      one coefficient at a time. */
  function Remainder(bits: seq<bool>): nat {
    if bits == [] then 0
    else Xor(MulX(Remainder(bits[..|bits| - 1])), if bits[|bits| - 1] then ONE else 0)
  }

  /** The n lowest binary digits of w, lowest first. */
  function Digits(w: nat, n: nat): (s: seq<bool>)
    ensures |s| == n
  {
    if n == 0 then [] else [w % 2 == 1] + Digits(w / 2, n - 1)
  }

  /** The coefficients of a message: bytes in order, least significant bit of each first. */
  function MessageBits(data: seq<byte>): (s: seq<bool>)
    ensures |s| == 8 * |data|
  {
    if data == [] then [] else Digits(data[0], 8) + MessageBits(data[1..])
  }

  /** The register after feeding a message to it. */
  function Register(r: nat, data: seq<byte>): nat
    decreases |data|
  {
    if data == [] then r else Register(Shift(8, Xor(r, data[0])), data[1..])
  }

  function Crc(data: seq<byte>): int {
    ALL_ONES - Register(ALL_ONES, data)
  }

  // ----- the loop of the program -----

  /** crc32: complement, feed every byte, complement. */
  method Checksum(data: seq<byte>) returns (crc: int)
    ensures crc == Crc(data)
    ensures 0 <= crc < WORD
  {
    var r := ALL_ONES;
    var i := 0;
    while i < |data|
      invariant 0 <= i <= |data| && 0 <= r < WORD
      invariant Register(ALL_ONES, data) == Register(r, data[i..])
    {
      assert data[i..][1..] == data[i + 1..];
      FeedBound(r, data[i]);
      r := BitLoop(Xor(r, data[i]));
      i := i + 1;
    }
    crc := ALL_ONES - r;
  }

  /** The inner loop: subtracting one from the low bit and complementing gives a mask of all ones or all
      zeros; 32-bit arithmetic wraps around. */
  method BitLoop(start: nat) returns (r: nat)
    requires start < WORD
    ensures r == Shift(8, start) && r < WORD
  {
    r := start;
    for k := 0 to 8
      invariant r == Shift(k, start) && r < WORD
    {
      var t: nat := ALL_ONES - (r % 2 - 1) % WORD;
      MaskIsBranch(r, t);
      MulXBound(r);
      r := Xor(r / 2, And(POLY, t));
    }
  }

  lemma MaskIsBranch(r: nat, t: nat)
    requires t == ALL_ONES - (r % 2 - 1) % WORD
    ensures Xor(r / 2, And(POLY, t)) == MulX(r)
  {
    if r % 2 == 1 {
      assert t == ALL_ONES;
      Pow2Values();
      AndOnes(POLY, 32);
      XorComm(POLY, r / 2);
    } else {
      assert t == 0;
      AndZero(POLY);
      XorZero(r / 2);
    }
  }

  lemma {:induction false} AndOnes(a: nat, n: nat)
    requires a < Pow2(n)
    ensures And(a, Pow2(n) - 1) == a
  {
    if a != 0 {
      assert (Pow2(n) - 1) / 2 == Pow2(n - 1) - 1;
      AndOnes(a / 2, n - 1);
    }
  }

  lemma MulXBound(r: nat)
    requires r < WORD
    ensures MulX(r) < WORD
  {
    Pow2Values();
    XorBound(POLY, r / 2, 32);
  }

  lemma {:induction false} ShiftBound(n: nat, r: nat)
    requires r < WORD
    ensures Shift(n, r) < WORD
  {
    if n > 0 {
      ShiftBound(n - 1, r);
      MulXBound(Shift(n - 1, r));
    }
  }

  lemma FeedBound(r: nat, b: byte)
    requires r < WORD
    ensures Xor(r, b) < WORD && Shift(8, Xor(r, b)) < WORD
  {
    Pow2Values();
    XorBound(r, b, 32);
    ShiftBound(8, Xor(r, b));
  }

  // ----- multiplication by x is linear -----

  lemma XorSwap(a: nat, b: nat, c: nat, d: nat)
    ensures Xor(Xor(a, b), Xor(c, d)) == Xor(Xor(a, c), Xor(b, d))
  {
    XorAssoc(a, b, Xor(c, d));
    XorAssoc(b, c, d);
    XorComm(b, c);
    XorAssoc(c, b, d);
    XorAssoc(a, c, Xor(b, d));
  }

  lemma MulXLinear(a: nat, b: nat)
    ensures MulX(Xor(a, b)) == Xor(MulX(a), MulX(b))
  {
    XorDigits(a, b);
    var p, q := a / 2, b / 2;
    if a % 2 == 1 && b % 2 == 1 {
      XorSwap(POLY, p, POLY, q);
      XorSelf(POLY);
      XorZero(Xor(p, q));
    } else if a % 2 == 1 {
      XorAssoc(POLY, p, q);
    } else if b % 2 == 1 {
      XorAssoc(p, POLY, q);
      XorComm(p, POLY);
      XorAssoc(POLY, p, q);
    }
  }

  lemma {:induction false} ShiftLinear(n: nat, a: nat, b: nat)
    ensures Shift(n, Xor(a, b)) == Xor(Shift(n, a), Shift(n, b))
  {
    if n > 0 {
      ShiftLinear(n - 1, a, b);
      MulXLinear(Shift(n - 1, a), Shift(n - 1, b));
    }
  }

  lemma {:induction false} ShiftAdd(m: nat, n: nat, r: nat)
    ensures Shift(m, Shift(n, r)) == Shift(m + n, r)
  {
    if m > 0 {
      ShiftAdd(m - 1, n, r);
    }
  }

  /** w with n zero digits appended. */
  function Double(n: nat, w: nat): nat {
    if n == 0 then w else 2 * Double(n - 1, w)
  }

  /** Digits above the lowest n ride along: they are shifted down unchanged. */
  lemma {:induction false} ShiftOut(n: nat, w: nat)
    ensures Shift(n, Double(n, w)) == w
  {
    if n > 0 {
      ShiftAdd(n - 1, 1, Double(n, w));
      assert Shift(1, Double(n, w)) == MulX(Double(n, w)) == Double(n - 1, w);
      ShiftOut(n - 1, w);
    }
  }

  lemma Double8(w: nat)
    ensures Double(8, w) == 0x100 * w
  {
    assert Double(1, w) == 2 * w;
    assert Double(2, w) == 4 * w;
    assert Double(3, w) == 8 * w;
    assert Double(4, w) == 16 * w;
    assert Double(5, w) == 32 * w;
    assert Double(6, w) == 64 * w;
  }

  lemma {:induction false} DoublePow2(n: nat)
    ensures Double(n, 1) == Pow2(n)
  {
    if n > 0 {
      DoublePow2(n - 1);
    }
  }

  // ----- the register is a polynomial remainder -----

  /** Feeding single coefficients, first to last. */
  function FeedBits(r: nat, bits: seq<bool>): nat
    decreases |bits|
  {
    if bits == [] then r else FeedBits(MulX(Xor(r, if bits[0] then 1 else 0)), bits[1..])
  }

  /** What is left of w above its lowest n digits. */
  function Above(w: nat, n: nat): nat {
    if n == 0 then w else Above(w / 2, n - 1)
  }

  lemma {:induction false} AboveNone(w: nat, n: nat)
    requires w < Pow2(n)
    ensures Above(w, n) == 0
  {
    if n > 0 {
      AboveNone(w / 2, n - 1);
    }
  }

  /** Feeding n digits at once is feeding them one by one. */
  lemma {:induction false} FeedDigits(r: nat, w: nat, n: nat)
    ensures Shift(n, Xor(r, w)) == Xor(FeedBits(r, Digits(w, n)), Above(w, n))
    decreases n
  {
    if n > 0 {
      var r' := MulX(Xor(r, w % 2));
      assert Digits(w, n)[1..] == Digits(w / 2, n - 1);
      calc {
        Shift(n, Xor(r, w));
        { ShiftAdd(n - 1, 1, Xor(r, w)); assert Shift(1, Xor(r, w)) == MulX(Xor(r, w)); }
        Shift(n - 1, MulX(Xor(r, w)));
        { SplitLow(r, w); }
        Shift(n - 1, Xor(r', w / 2));
        { FeedDigits(r', w / 2, n - 1); }
        Xor(FeedBits(r', Digits(w / 2, n - 1)), Above(w / 2, n - 1));
        Xor(FeedBits(r, Digits(w, n)), Above(w, n));
      }
    }
  }

  lemma SplitLow(r: nat, w: nat)
    ensures MulX(Xor(r, w)) == Xor(MulX(Xor(r, w % 2)), w / 2)
  {
    var m, c, h := MulX(r), MulX(w % 2), w / 2;
    calc {
      MulX(Xor(r, w));
      { MulXLinear(r, w); MulXSplit(w); }
      Xor(m, Xor(c, h));
      { XorAssoc(m, c, h); }
      Xor(Xor(m, c), h);
      { MulXLinear(r, w % 2); }
      Xor(MulX(Xor(r, w % 2)), h);
    }
  }

  lemma MulXSplit(w: nat)
    ensures MulX(w) == Xor(MulX(w % 2), w / 2)
  {
    XorZero(POLY);
    XorZero(w / 2);
    assert MulX(1) == Xor(POLY, 0) == POLY && MulX(0) == 0;
  }

  lemma {:induction false} FeedBitsConcat(r: nat, a: seq<bool>, b: seq<bool>)
    ensures FeedBits(r, a + b) == FeedBits(FeedBits(r, a), b)
    decreases |a|
  {
    if a == [] {
      assert a + b == b;
    } else {
      assert (a + b)[1..] == a[1..] + b;
      FeedBitsConcat(MulX(Xor(r, if a[0] then 1 else 0)), a[1..], b);
    }
  }

  lemma {:induction false} RegisterBits(r: nat, data: seq<byte>)
    ensures Register(r, data) == FeedBits(r, MessageBits(data))
    decreases |data|
  {
    if data != [] {
      Pow2Values();
      AboveNone(data[0], 8);
      FeedDigits(r, data[0], 8);
      XorZero(FeedBits(r, Digits(data[0], 8)));
      RegisterBits(Shift(8, Xor(r, data[0])), data[1..]);
      FeedBitsConcat(r, Digits(data[0], 8), MessageBits(data[1..]));
    }
  }

  /** A coefficient enters at bit 0, that is, multiplied by the 31st power of x. */
  lemma EntryPower()
    ensures Shift(32, ONE) == MulX(1)
  {
    assert Pow2(31) == ONE by {
      Pow2Values();
    }
    DoublePow2(31);
    ShiftOut(31, 1);
  }

  lemma RemainderStep(m: nat, bit: bool)
    ensures Xor(MulX(Shift(32, m)), MulX(if bit then 1 else 0)) == Shift(32, Xor(MulX(m), if bit then ONE else 0))
  {
    var d := if bit then ONE else 0;
    EntryPower();
    ShiftZero(32);
    assert Shift(32, d) == MulX(if bit then 1 else 0);
    ShiftAdd(32, 1, m);
    assert Shift(1, m) == MulX(m);
    ShiftLinear(32, MulX(m), d);
  }

  lemma {:induction false} FeedBitsIsRemainder(r: nat, bits: seq<bool>)
    ensures FeedBits(r, bits) == Xor(Shift(|bits|, r), Shift(32, Remainder(bits)))
  {
    if bits == [] {
      ShiftZero(32);
      XorZero(r);
    } else {
      var n := |bits| - 1;
      var c := if bits[n] then 1 else 0;
      var m := Remainder(bits[..n]);
      var p, q := Shift(n, r), Shift(32, m);
      calc {
        FeedBits(r, bits);
        { assert bits == bits[..n] + [bits[n]]; FeedBitsConcat(r, bits[..n], [bits[n]]); }
        MulX(Xor(FeedBits(r, bits[..n]), c));
        { FeedBitsIsRemainder(r, bits[..n]); }
        MulX(Xor(Xor(p, q), c));
        { MulXLinear(Xor(p, q), c); MulXLinear(p, q); }
        Xor(Xor(MulX(p), MulX(q)), MulX(c));
        { XorAssoc(MulX(p), MulX(q), MulX(c)); }
        Xor(MulX(p), Xor(MulX(q), MulX(c)));
        { RemainderStep(m, bits[n]); }
        Xor(Shift(n + 1, r), Shift(32, Remainder(bits)));
      }
    }
  }

  lemma {:induction false} ShiftZero(n: nat)
    ensures Shift(n, 0) == 0
  {
    if n > 0 {
      ShiftZero(n - 1);
    }
  }

  /** The register after a message is the remainder, modulo the generator polynomial, of the initial value
      times x^(8 * length) plus the message times x^32. */
  lemma RegisterIsRemainder(r: nat, data: seq<byte>)
    ensures Register(r, data) == Xor(Shift(8 * |data|, r), Shift(32, Remainder(MessageBits(data))))
  {
    RegisterBits(r, data);
    FeedBitsIsRemainder(r, MessageBits(data));
  }

  // ----- the step is a bijection on 32-bit states -----

  /** Division by x modulo the generator: the top bit tells whether the generator was added. */
  function DivX(r: nat): nat {
    if r >= ONE then 2 * Xor(r, POLY) + 1 else 2 * r
  }

  /** The top digit of an exclusive or of two n-digit numbers. */
  lemma {:induction false} XorTop(a: nat, b: nat, n: nat)
    requires a < Pow2(n + 1) && b < Pow2(n + 1)
    ensures Xor(a, b) >= Pow2(n) <==> ((a >= Pow2(n)) != (b >= Pow2(n)))
  {
    if n > 0 {
      XorTop(a / 2, b / 2, n - 1);
      XorDigits(a, b);
    } else {
      XorDigits(a, b);
    }
  }

  lemma DivAfterMul(r: nat)
    requires r < WORD
    ensures DivX(MulX(r)) == r
  {
    Pow2Values();
    XorTop(POLY, r / 2, 31);
    XorComm(POLY, r / 2);
    XorCancel(r / 2, POLY);
  }

  lemma MulAfterDiv(r: nat)
    requires r < WORD
    ensures DivX(r) < WORD && MulX(DivX(r)) == r
  {
    Pow2Values();
    XorTop(r, POLY, 31);
    XorComm(r, POLY);
    XorCancel(POLY, r);
  }

  lemma MulXBijective(r: nat)
    requires r < WORD
    ensures MulX(r) < WORD && DivX(MulX(r)) == r
    ensures DivX(r) < WORD && MulX(DivX(r)) == r
  {
    MulXBound(r);
    DivAfterMul(r);
    MulAfterDiv(r);
  }

  lemma {:induction false} ShiftInjective(n: nat, a: nat, b: nat)
    requires a < WORD && b < WORD && Shift(n, a) == Shift(n, b)
    ensures a == b
  {
    if n > 0 {
      ShiftBound(n - 1, a);
      ShiftBound(n - 1, b);
      MulXBijective(Shift(n - 1, a));
      MulXBijective(Shift(n - 1, b));
      ShiftInjective(n - 1, a, b);
    }
  }

  // ----- error detection -----

  lemma {:induction false} RegisterConcat(r: nat, a: seq<byte>, b: seq<byte>)
    ensures Register(r, a + b) == Register(Register(r, a), b)
    decreases |a|
  {
    if a == [] {
      assert a + b == b;
    } else {
      assert (a + b)[1..] == a[1..] + b;
      RegisterConcat(Shift(8, Xor(r, a[0])), a[1..], b);
    }
  }

  lemma {:induction false} RegisterBound(r: nat, data: seq<byte>)
    requires r < WORD
    ensures Register(r, data) < WORD
    decreases |data|
  {
    if data != [] {
      FeedBound(r, data[0]);
      RegisterBound(Shift(8, Xor(r, data[0])), data[1..]);
    }
  }

  lemma {:induction false} RegisterInjective(a: nat, b: nat, data: seq<byte>)
    requires a < WORD && b < WORD && Register(a, data) == Register(b, data)
    ensures a == b
    decreases |data|
  {
    if data != [] {
      var c := data[0];
      FeedBound(a, c);
      FeedBound(b, c);
      RegisterInjective(Shift(8, Xor(a, c)), Shift(8, Xor(b, c)), data[1..]);
      ShiftInjective(8, Xor(a, c), Xor(b, c));
      XorCancel(a, c);
      XorCancel(b, c);
    }
  }

  /** Feeding bytes one after the other is feeding the number they spell, at once. */
  lemma {:induction false} RegisterAtOnce(r: nat, data: seq<byte>)
    ensures Register(r, data) == Shift(8 * |data|, Xor(r, Unpack(data)))
    decreases |data|
  {
    if data == [] {
      XorZero(r);
    } else {
      var rest := Unpack(data[1..]);
      var n := |data| - 1;
      calc {
        Register(r, data);
        { RegisterAtOnce(Shift(8, Xor(r, data[0])), data[1..]); }
        Shift(8 * n, Xor(Shift(8, Xor(r, data[0])), rest));
        { Double8(rest); ShiftOut(8, rest); }
        Shift(8 * n, Xor(Shift(8, Xor(r, data[0])), Shift(8, 0x100 * rest)));
        { ShiftLinear(8, Xor(r, data[0]), 0x100 * rest); ShiftAdd(8 * n, 8, Xor(Xor(r, data[0]), 0x100 * rest)); }
        Shift(8 * |data|, Xor(Xor(r, data[0]), 0x100 * rest));
        { XorAssoc(r, data[0], 0x100 * rest); XorByte(data[0], rest); }
        Shift(8 * |data|, Xor(r, Unpack(data)));
      }
    }
  }

  /** Numbers without a common digit add up. */
  lemma XorByte(b: byte, v: nat)
    ensures Xor(b, 0x100 * v) == b + 0x100 * v
  {
    Pow2Values();
    XorDisjoint(b, v, 8);
  }

  lemma {:induction false} XorDisjoint(a: nat, v: nat, n: nat)
    requires a < Pow2(n)
    ensures Xor(a, Pow2(n) * v) == a + Pow2(n) * v
  {
    if n == 0 {
      XorZero(v);
    } else {
      XorDisjoint(a / 2, v, n - 1);
      var w := Pow2(n - 1) * v;
      Twice(Pow2(n - 1), v);
      XorDigits(a, 2 * w);
      assert 2 * w / 2 == w && 2 * w % 2 == 0;
    }
  }

  lemma {:induction false} UnpackInjective(a: seq<byte>, b: seq<byte>)
    requires |a| == |b| && Unpack(a) == Unpack(b)
    ensures a == b
  {
    if a != [] {
      assert a[0] == Unpack(a) % 0x100 && b[0] == Unpack(b) % 0x100;
      UnpackInjective(a[1..], b[1..]);
      assert a == [a[0]] + a[1..] && b == [b[0]] + b[1..];
    }
  }

  lemma {:induction false} UnpackBound(a: seq<byte>)
    ensures Unpack(a) < Pow2(8 * |a|)
  {
    if a != [] {
      UnpackBound(a[1..]);
      var p := Pow2(8 * |a[1..]|);
      assert 8 * |a| == 8 * |a[1..]| + 8;
      Pow2Add(8 * |a[1..]|, 8);
      Pow2Values();
    }
  }

  lemma {:induction false} Pow2Monotone(m: nat, n: nat)
    requires m <= n
    ensures Pow2(m) <= Pow2(n)
  {
    if m < n {
      Pow2Monotone(m, n - 1);
    }
  }

  /** Two different messages that agree outside one window of at most four bytes never have the same
      checksum. */
  lemma BurstDetected(before: seq<byte>, a: seq<byte>, b: seq<byte>, after: seq<byte>)
    requires |a| == |b| <= 4 && a != b
    ensures Crc(before + a + after) != Crc(before + b + after)
  {
    var r := Register(ALL_ONES, before);
    RegisterBound(ALL_ONES, before);
    RegisterConcat(ALL_ONES, before, a);
    RegisterConcat(ALL_ONES, before, b);
    RegisterConcat(ALL_ONES, before + a, after);
    RegisterConcat(ALL_ONES, before + b, after);
    RegisterBound(r, a);
    RegisterBound(r, b);
    WindowInjective(r, a, b);
    if Register(Register(r, a), after) == Register(Register(r, b), after) {
      RegisterInjective(Register(r, a), Register(r, b), after);
    }
  }

  lemma WindowInjective(r: nat, a: seq<byte>, b: seq<byte>)
    requires r < WORD && |a| == |b| <= 4 && a != b
    ensures Register(r, a) != Register(r, b)
  {
    var u, v := Unpack(a), Unpack(b);
    RegisterAtOnce(r, a);
    RegisterAtOnce(r, b);
    UnpackBound(a);
    UnpackBound(b);
    Pow2Monotone(8 * |a|, 32);
    Pow2Values();
    XorBound(r, u, 32);
    XorBound(r, v, 32);
    if Register(r, a) == Register(r, b) {
      ShiftInjective(8 * |a|, Xor(r, u), Xor(r, v));
      XorCancel(r, u);
      XorCancel(r, v);
      UnpackInjective(a, b);
    }
  }

  // ----- the constants -----

  /** The k-th power of x in a register. */
  function Power(k: nat): nat
    requires k < 32
  {
    Pow2(31 - k)
  }

  lemma PowersOfTwo()
    ensures Pow2(5) == 0x20 && Pow2(8) == 0x100 && Pow2(9) == 0x200 && Pow2(15) == 0x8000
    ensures Pow2(19) == 0x8_0000 && Pow2(20) == 0x10_0000 && Pow2(21) == 0x20_0000 && Pow2(23) == 0x80_0000
    ensures Pow2(24) == 0x100_0000 && Pow2(26) == 0x400_0000 && Pow2(27) == 0x800_0000
    ensures Pow2(29) == 0x2000_0000 && Pow2(30) == 0x4000_0000 && Pow2(31) == 0x8000_0000
  {
    Pow2Values();
  }

  /** The generator is x^32 + x^26 + x^23 + x^22 + x^16 + x^12 + x^11 + x^10 + x^8 + x^7 + x^5 + x^4 + x^2 + x + 1. */
  lemma Generator()
    ensures POLY == Power(26) + Power(23) + Power(22) + Power(16) + Power(12) + Power(11) + Power(10) + Power(8)
                    + Power(7) + Power(5) + Power(4) + Power(2) + Power(1) + Power(0)
  {
    PowersOfTwo();
  }

  /** A step multiplies by x: each power becomes the next one, and the 31st the rest of the generator. */
  lemma StepsOfPowers(k: nat)
    requires k < 32
    ensures MulX(Power(k)) == if k < 31 then Power(k + 1) else POLY
  {
    if k == 31 {
      XorZero(POLY);
    }
  }

  /** The checksum of nothing is zero, and that of four bytes of ones is all ones: a register starts as all ones, and
      the result is complemented. */
  lemma SmallChecksums()
    ensures Crc([]) == 0 && Crc([255, 255, 255, 255]) == 0xffff_ffff
  {
    UnpackFour(255, 255, 255, 255);
    RegisterAtOnce(ALL_ONES, [255, 255, 255, 255]);
    XorSelf(ALL_ONES);
    ShiftZero(32);
  }

  lemma {:induction false} XorComplement(r: nat, n: nat)
    requires r < Pow2(n)
    ensures Xor(r, Pow2(n) - 1 - r) == Pow2(n) - 1
  {
    if n > 0 {
      XorComplement(r / 2, n - 1);
      XorDigits(r, Pow2(n) - 1 - r);
      assert (Pow2(n) - 1 - r) / 2 == Pow2(n - 1) - 1 - r / 2;
    }
  }

  /** A message with its checksum behind it, lowest byte first, always has the same checksum. */
  lemma Residue(data: seq<byte>)
    ensures 0 <= Crc(data) < WORD && Crc(data + Pack(Crc(data))) == Crc([0, 0, 0, 0])
  {
    var r := Register(ALL_ONES, data);
    RegisterBound(ALL_ONES, data);
    var crc: nat := Crc(data);
    RegisterConcat(ALL_ONES, data, Pack(crc));
    RegisterAtOnce(r, Pack(crc));
    UnpackPack(crc);
    Complement(r);
    ZeroRegister();
  }

  lemma Complement(r: nat)
    requires r < WORD
    ensures Xor(r, ALL_ONES - r) == ALL_ONES
  {
    Pow2Values();
    XorComplement(r, 32);
  }

  lemma ZeroRegister()
    ensures Register(ALL_ONES, [0, 0, 0, 0]) == Shift(32, ALL_ONES)
  {
    RegisterAtOnce(ALL_ONES, [0, 0, 0, 0]);
    UnpackFour(0, 0, 0, 0);
    XorZero(ALL_ONES);
  }
}
