/** CRC-32 as the gateway computes it (one bit at a time), against the table-driven sample
    code of section 8 of RFC 1952, and its error-detection guarantee for short bursts.

    A 32-bit register is the sequence of its 32 bits, lowest first; `Value` and `WordOf`
    convert between a register and the unsigned number it holds. */
module Crc32 {
  import opened Folds

  type byte = x: int | 0 <= x < 256
  type Word = w: seq<bool> | |w| == 32 witness seq(32, i => false)

  function Bit(n: nat, i: nat): bool
    decreases i
  {
    if i == 0 then n % 2 == 1 else Bit(n / 2, i - 1)
  }

  function WordOf(n: nat): Word { seq(32, i requires 0 <= i < 32 => Bit(n, i)) }

  function Value(bits: seq<bool>): nat {
    if bits == [] then 0 else (if bits[0] then 1 else 0) + 2 * Value(bits[1..])
  }

  lemma DoubleAndAdd(bit: bool, v: nat)
    ensures var n: nat := (if bit then 1 else 0) + 2 * v; n / 2 == v && (n % 2 == 1 <==> bit)
  {
  }

  lemma {:induction false} BitOfValue(bits: seq<bool>, i: nat)
    requires i < |bits|
    ensures Bit(Value(bits), i) == bits[i]
    decreases i
  {
    DoubleAndAdd(bits[0], Value(bits[1..]));
    if i > 0 { BitOfValue(bits[1..], i - 1); }
  }

  lemma ValueInjective(a: Word, b: Word)
    requires Value(a) == Value(b)
    ensures a == b
  {
    forall i | 0 <= i < 32 ensures a[i] == b[i] {
      BitOfValue(a, i);
      BitOfValue(b, i);
    }
  }

  lemma {:induction false} ValueBound(bits: seq<bool>, k: nat, bound: nat)
    requires |bits| == k && bound == Power2(k)
    ensures Value(bits) < bound
  {
    if k > 0 { ValueBound(bits[1..], k - 1, Power2(k - 1)); }
  }

  function Power2(k: nat): (p: nat)
    ensures p > 0
  {
   if k == 0 then 1 else 2 * Power2(k - 1)
  }

  lemma PowerOf32()
    ensures Power2(8) == 0x100 && Power2(32) == 0x1_0000_0000
  {
    assert Power2(8) == 0x100 by { assert Power2(4) == 0x10; }
    assert Power2(16) == 0x1_0000 by { assert Power2(12) == 0x1000; }
    assert Power2(24) == 0x100_0000 by { assert Power2(20) == 0x10_0000; }
    assert Power2(28) == 0x1000_0000;
  }

  // ----- The operators of the loop

  function Xor(a: Word, b: Word): Word { seq(32, i requires 0 <= i < 32 => a[i] != b[i]) }

  function And(a: Word, b: Word): Word { seq(32, i requires 0 <= i < 32 => a[i] && b[i]) }

  function ShiftRight(a: Word, n: nat): Word { seq(32, i requires 0 <= i < 32 => i + n < 32 && a[i + n]) }

  function Complement(a: Word): Word { seq(32, i requires 0 <= i < 32 => !a[i]) }

  /** Two's complement negation of a word that is 0 or 1: no ones or 32 ones. */
  function NegateBit(a: Word): Word { seq(32, i => a[0]) }

  const POLYNOMIAL: Word := WordOf(0xEDB8_8320)
  const ONE: Word := WordOf(1)
  const ALL_ONES: Word := seq(32, i => true)

  // ----- The bit loop of the gateway

  function ShiftBit(crc: Word): Word {
    Xor(ShiftRight(crc, 1), And(POLYNOMIAL, NegateBit(And(crc, ONE))))
  }

  function AddByte(crc: Word, b: byte): Word {
    Iterate(ShiftBit, 8, Xor(crc, WordOf(b)))
  }

  function Register(payload: seq<byte>): Word {
    Fold(AddByte, ALL_ONES, payload)
  }

  function Checksum(payload: seq<byte>): (crc: nat)
    ensures crc < 0x1_0000_0000
  {
    var w := Complement(Register(payload));
    PowerOf32();
    ValueBound(w, 32, Power2(32));
    Value(w)
  }

  // ----- Section 8 of RFC 1952: one table lookup a byte

  function TableShift(c: Word): Word {
    if c[0] then Xor(POLYNOMIAL, ShiftRight(c, 1)) else ShiftRight(c, 1)
  }

  function TableEntry(n: Word): Word {
    Iterate(TableShift, 8, n)
  }

  function LowByte(c: Word): Word { And(c, WordOf(0xFF)) }

  function TableStep(c: Word, b: byte): Word {
    Xor(TableEntry(LowByte(Xor(c, WordOf(b)))), ShiftRight(c, 8))
  }

  function TableChecksum(bytes: seq<byte>): nat {
    Value(Xor(Fold(TableStep, Xor(WordOf(0), ALL_ONES), bytes), ALL_ONES))
  }

  lemma {:induction false} ZeroBits(i: nat)
    ensures !Bit(0, i)
  {
    if i > 0 { ZeroBits(i - 1); }
  }

  lemma OneBits()
    ensures ONE[0] && forall i :: 1 <= i < 32 ==> !ONE[i]
  {
    forall i | 1 <= i < 32 ensures !ONE[i] { ZeroBits(i - 1); }
  }

  lemma {:induction false} HighBitsOfByte(n: nat, k: nat, i: nat)
    requires n < Power2(k) && k <= i
    ensures !Bit(n, i)
    decreases i
  {
    if k == 0 {
      ZeroBits(i);
    } else if i > 0 {
      HighBitsOfByte(n / 2, k - 1, i - 1);
    }
  }

  lemma {:induction false} LowBitsOfOnes(k: nat, i: nat)
    requires i < k
    ensures Bit(Power2(k) - 1, i)
    decreases i
  {
    if i > 0 {
      assert (Power2(k) - 1) / 2 == Power2(k - 1) - 1;
      LowBitsOfOnes(k - 1, i - 1);
    }
  }

  lemma ByteMask()
    ensures forall i :: 0 <= i < 32 ==> WordOf(0xFF)[i] == (i < 8)
  {
    assert Power2(8) == 0x100;
    forall i | 0 <= i < 32 ensures WordOf(0xFF)[i] == (i < 8) {
      if i < 8 { LowBitsOfOnes(8, i); } else { HighBitsOfByte(0xFF, 8, i); }
    }
  }

  lemma ByteIsShort(b: byte)
    ensures ShiftRight(WordOf(b), 8) == WordOf(0)
  {
    assert Power2(8) == 0x100;
    forall i | 0 <= i < 32 ensures ShiftRight(WordOf(b), 8)[i] == WordOf(0)[i] {
      ZeroBits(i);
      if i + 8 < 32 { HighBitsOfByte(b, 8, i + 8); }
    }
  }

  lemma ShiftAgrees(c: Word)
    ensures ShiftBit(c) == TableShift(c)
  {
    OneBits();
    assert ShiftBit(c) == TableShift(c);
  }

  predicate LowZeros(n: nat, w: Word) {
    forall i :: 0 <= i < n && i < 32 ==> !w[i]
  }

  function Half(w: Word): Word { ShiftRight(w, 1) }

  lemma ShiftOfEven(l: Word, h: Word)
    requires !h[0]
    ensures ShiftBit(Xor(l, h)) == Xor(ShiftBit(l), Half(h))
  {
    ShiftAgrees(l);
    ShiftAgrees(Xor(l, h));
    assert TableShift(Xor(l, h)) == Xor(TableShift(l), Half(h));
  }

  lemma HalfLast(w: Word, n: nat)
    ensures Half(ShiftRight(w, n)) == ShiftRight(w, n + 1)
  {
  }

  lemma {:induction false} Halves(w: Word, n: nat)
    ensures Iterate(Half, n, w) == ShiftRight(w, n)
  {
    if n > 0 {
      IterateLast(Half, n - 1, w);
      Halves(w, n - 1);
      HalfLast(w, n - 1);
    }
  }

  lemma EightShiftsSplit(l: Word, h: Word)
    requires LowZeros(8, h)
    ensures Iterate(ShiftBit, 8, Xor(l, h)) == Xor(Iterate(ShiftBit, 8, l), ShiftRight(h, 8))
  {
    forall k: nat, x, y {:trigger LowZeros(k, y), Xor(x, y)} | 0 < k && LowZeros(k, y)
      ensures ShiftBit(Xor(x, y)) == Xor(ShiftBit(x), Half(y))
    {
      ShiftOfEven(x, y);
    }
    forall k: nat, y {:trigger LowZeros(k, y)} | 0 < k && LowZeros(k, y) ensures LowZeros(k - 1, Half(y)) {}
    Halves(h, 8);
    IterateSplits(ShiftBit, Xor, Half, LowZeros, 8, l, h);
  }

  lemma EntryAgrees(n: Word)
    ensures Iterate(ShiftBit, 8, n) == TableEntry(n)
  {
    forall x ensures ShiftBit(x) == TableShift(x) { ShiftAgrees(x); }
    IterateAgrees(ShiftBit, TableShift, 8, n);
  }

  /** The bits above the lowest byte. */
  function HighBytes(c: Word): Word { seq(32, i requires 0 <= i < 32 => 8 <= i && c[i]) }

  lemma SplitAtByte(x: Word)
    ensures x == Xor(LowByte(x), HighBytes(x))
  {
    ByteMask();
  }

  lemma HighBytesIgnoreByte(crc: Word, b: byte)
    ensures ShiftRight(HighBytes(Xor(crc, WordOf(b))), 8) == ShiftRight(crc, 8)
  {
    forall i | 8 <= i < 32 ensures !WordOf(b)[i] {
      assert Power2(8) == 0x100;
      HighBitsOfByte(b, 8, i);
    }
  }

  lemma ByteAgrees(crc: Word, b: byte)
    ensures AddByte(crc, b) == TableStep(crc, b)
  {
    var x := Xor(crc, WordOf(b));
    SplitAtByte(x);
    EightShiftsSplit(LowByte(x), HighBytes(x));
    EntryAgrees(LowByte(x));
    HighBytesIgnoreByte(crc, b);
  }

  /** For every byte string the gateway's bit loop and the table-driven CRC agree. */
  lemma BitLoopIsTableDriven(payload: seq<byte>)
    ensures Checksum(payload) == TableChecksum(payload)
  {
    forall c, b ensures AddByte(c, b) == TableStep(c, b) { ByteAgrees(c, b); }
    FoldAgrees(AddByte, TableStep, ALL_ONES, payload);
    forall i | 0 <= i < 32 ensures Xor(WordOf(0), ALL_ONES)[i] { ZeroBits(i); }
    assert Xor(WordOf(0), ALL_ONES) == ALL_ONES;
    assert Xor(Register(payload), ALL_ONES) == Complement(Register(payload));
  }

  // ----- Burst errors

  predicate Low(w: Word) { w[0] }

  /** The bits of a byte in the order in which the CRC consumes them, least significant first. */
  function ByteBits(b: byte): seq<bool> {
    LowBits(Low, Half, WordOf(b), 8)
  }

  function Bits(payload: seq<byte>): seq<bool> {
    Expand(ByteBits, payload)
  }

  function AddBit(crc: Word, bit: bool): Word {
    ShiftBit(crc[0 := crc[0] != bit])
  }

  lemma LowBitFirst(t: Word, r: Word)
    ensures ShiftBit(Xor(t, r)) == Xor(AddBit(t, Low(r)), Half(r))
  {
    var u: Word := t[0 := t[0] != r[0]];
    var even: Word := r[0 := false];
    assert Xor(t, r) == Xor(u, even);
    ShiftOfEven(u, even);
    assert Half(even) == Half(r);
  }

  lemma XorZero(w: Word)
    ensures Xor(w, WordOf(0)) == w
  {
    forall i | 0 <= i < 32 ensures !WordOf(0)[i] { ZeroBits(i); }
  }

  lemma MixingBits()
    ensures forall x, y :: ShiftBit(Xor(x, y)) == Xor(AddBit(x, Low(y)), Half(y))
  {
    forall x, y ensures ShiftBit(Xor(x, y)) == Xor(AddBit(x, Low(y)), Half(y)) { LowBitFirst(x, y); }
  }

  lemma ByteIsEightBits(crc: Word, b: byte)
    ensures AddByte(crc, b) == Fold(AddBit, crc, ByteBits(b))
  {
    MixingBits();
    IterateIsFold(ShiftBit, AddBit, Xor, Low, Half, 8, crc, WordOf(b));
    Halves(WordOf(b), 8);
    ByteIsShort(b);
    XorZero(Fold(AddBit, crc, ByteBits(b)));
  }

  lemma BytesAreBits(crc: Word, payload: seq<byte>)
    ensures Fold(AddByte, crc, payload) == Fold(AddBit, crc, Bits(payload))
  {
    forall c, b ensures AddByte(c, b) == Fold(AddBit, c, ByteBits(b)) { ByteIsEightBits(c, b); }
    FoldExpand(AddByte, AddBit, ByteBits, crc, payload);
  }

  lemma {:induction false} BitsDetermine(m: nat, n: nat, k: nat)
    requires m < Power2(k) && n < Power2(k)
    requires forall i :: 0 <= i < k ==> Bit(m, i) == Bit(n, i)
    ensures m == n
  {
    if k > 0 {
      assert Bit(m, 0) == Bit(n, 0);
      forall i | 0 <= i < k - 1 ensures Bit(m / 2, i) == Bit(n / 2, i) {
        assert Bit(m, i + 1) == Bit(n, i + 1);
      }
      BitsDetermine(m / 2, n / 2, k - 1);
    }
  }

  lemma LowAndHalfDetermine(x: Word, y: Word)
    requires Low(x) == Low(y) && Half(x) == Half(y)
    ensures x == y
  {
    forall i | 0 < i < 32 ensures x[i] == y[i] { assert Half(x)[i - 1] == Half(y)[i - 1]; }
  }

  lemma WordOfByteInjective(a: byte, b: byte)
    requires WordOf(a) == WordOf(b)
    ensures a == b
  {
    assert Power2(8) == 0x100;
    forall i | 0 <= i < 8 ensures Bit(a, i) == Bit(b, i) { assert WordOf(a)[i] == WordOf(b)[i]; }
    BitsDetermine(a, b, 8);
  }

  lemma ByteBitsInjective(a: byte, b: byte)
    requires ByteBits(a) == ByteBits(b)
    ensures a == b
  {
    ByteIsShort(a);
    ByteIsShort(b);
    Halves(WordOf(a), 8);
    Halves(WordOf(b), 8);
    forall x: Word, y: Word | Low(x) == Low(y) && Half(x) == Half(y) ensures x == y { LowAndHalfDetermine(x, y); }
    LowBitsInjective(Low, Half, WordOf(a), WordOf(b), 8);
    WordOfByteInjective(a, b);
  }

  lemma {:induction false} BitsInjective(p: seq<byte>, q: seq<byte>)
    requires |p| == |q| && Bits(p) == Bits(q)
    ensures p == q
  {
    if p != [] {
      var a, b := Bits(p[1..]), Bits(q[1..]);
      assert Bits(p)[..8] == ByteBits(p[0]) && Bits(q)[..8] == ByteBits(q[0]);
      assert Bits(p)[8..] == a && Bits(q)[8..] == b;
      BitsInjective(p[1..], q[1..]);
      ByteBitsInjective(p[0], q[0]);
      assert p == [p[0]] + p[1..] && q == [q[0]] + q[1..];
    }
  }

  lemma BitOfByte(n: nat, i: nat)
    ensures Bit(n, i + 8) == Bit(n / 256, i)
  {
    assert Bit(n, i + 8) == Bit(n / 2 / 2, i + 6);
    assert Bit(n / 2 / 2, i + 6) == Bit(n / 2 / 2 / 2 / 2, i + 4);
    assert Bit(n / 2 / 2 / 2 / 2, i + 4) == Bit(n / 2 / 2 / 2 / 2 / 2 / 2, i + 2);
    assert n / 2 / 2 / 2 / 2 / 2 / 2 / 2 / 2 == n / 256;
  }

  /** The top coefficient of the polynomial is set, so a shift can be undone. */
  lemma PolynomialTop()
    ensures POLYNOMIAL[31]
  {
    BitOfByte(0xEDB8_8320, 23);
    BitOfByte(0xED_B883, 15);
    BitOfByte(0xEDB8, 7);
    assert Bit(0xED, 7) by { assert Bit(0xE, 3); }
  }

  lemma ShiftTop(c: Word)
    ensures ShiftBit(c)[31] == c[0]
    ensures forall i :: 0 <= i < 31 ==> ShiftBit(c)[i] == (c[i + 1] != (c[0] && POLYNOMIAL[i]))
  {
    PolynomialTop();
    ShiftAgrees(c);
  }

  lemma AddBitInjective(c: Word, d: Word, bit: bool)
    requires AddBit(c, bit) == AddBit(d, bit)
    ensures c == d
  {
    var x: Word, y: Word := c[0 := c[0] != bit], d[0 := d[0] != bit];
    ShiftTop(x);
    ShiftTop(y);
    forall i | 0 < i < 32 ensures c[i] == d[i] {
      assert ShiftBit(x)[i - 1] == ShiftBit(y)[i - 1];
    }
  }

  /** With `k` bits still to come the two registers differ in some bit that `k` shifts cannot drop. */
  predicate Separated(k: nat, c: Word, d: Word) {
    exists i :: k <= i < 32 && c[i] != d[i]
  }

  lemma SeparationIsKept(k: nat, s: Word, t: Word, a: bool, b: bool)
    requires k <= 31 && Separated(k + 1, s, t)
    ensures Separated(k, AddBit(s, a), AddBit(t, b))
  {
    var x: Word, y: Word := s[0 := s[0] != a], t[0 := t[0] != b];
    ShiftTop(x);
    ShiftTop(y);
    var i :| k + 1 <= i < 32 && s[i] != t[i];
    if x[0] != y[0] {
      assert ShiftBit(x)[31] != ShiftBit(y)[31];
    } else {
      assert ShiftBit(x)[i - 1] != ShiftBit(y)[i - 1];
    }
  }

  lemma FirstBitSeparates(c: Word, x: seq<bool>, y: seq<bool>)
    requires 0 < |x| == |y| <= 32 && x[0] != y[0]
    ensures Fold(AddBit, c, x) != Fold(AddBit, c, y)
  {
    ShiftTop(c[0 := c[0] != x[0]]);
    ShiftTop(c[0 := c[0] != y[0]]);
    assert AddBit(c, x[0])[31] != AddBit(c, y[0])[31];
    forall k: nat, s, t, a, b | k < 31 && Separated(k + 1, s, t)
      ensures Separated(k, AddBit(s, a), AddBit(t, b))
    {
      SeparationIsKept(k, s, t, a, b);
    }
    FoldRelated(AddBit, Separated, 31, AddBit(c, x[0]), AddBit(c, y[0]), x[1..], y[1..]);
  }

  /** From the same register, two different bit strings of equal length up to 32 end in different registers. */
  lemma WindowSeparates(c: Word, x: seq<bool>, y: seq<bool>)
    requires |x| == |y| <= 32 && x != y
    ensures Fold(AddBit, c, x) != Fold(AddBit, c, y)
  {
    forall t, us, vs | 0 < |us| == |vs| <= 32 && us[0] != vs[0]
      ensures Fold(AddBit, t, us) != Fold(AddBit, t, vs)
    {
      FirstBitSeparates(t, us, vs);
    }
    FoldSeparates(AddBit, 32, c, x, y);
  }

  lemma FoldInThree(c: Word, a: seq<bool>, lo: nat, hi: nat)
    requires lo <= hi <= |a|
    ensures Fold(AddBit, c, a) == Fold(AddBit, Fold(AddBit, Fold(AddBit, c, a[..lo]), a[lo..hi]), a[hi..])
  {
    SplitInThree(a, lo, hi);
    FoldConcat(AddBit, c, a[..lo], a[lo..hi] + a[hi..]);
    FoldConcat(AddBit, Fold(AddBit, c, a[..lo]), a[lo..hi], a[hi..]);
  }

  lemma ComplementInjective(a: Word, b: Word)
    requires Complement(a) == Complement(b)
    ensures a == b
  {
    forall i | 0 <= i < 32 ensures a[i] == b[i] { assert Complement(a)[i] == Complement(b)[i]; }
  }

  /** Two messages agree outside the `width` bits that start at bit `from`. */
  ghost predicate DifferOnlyWithin(p: seq<byte>, q: seq<byte>, from: nat, width: nat) {
    && |Bits(p)| == |Bits(q)|
    && forall k :: 0 <= k < |Bits(p)| && !(from <= k < from + width) ==> Bits(p)[k] == Bits(q)[k]
  }

  lemma DifferentRegisters(p: seq<byte>, q: seq<byte>)
    requires Register(p) != Register(q)
    ensures Checksum(p) != Checksum(q)
  {
    if Checksum(p) == Checksum(q) {
      ValueInjective(Complement(Register(p)), Complement(Register(q)));
      ComplementInjective(Register(p), Register(q));
      assert false;
    }
  }

  lemma SuffixKeepsDifference(s: Word, t: Word, bits: seq<bool>)
    requires s != t
    ensures Fold(AddBit, s, bits) != Fold(AddBit, t, bits)
  {
    forall x, y, bit | AddBit(x, bit) == AddBit(y, bit) ensures x == y { AddBitInjective(x, y, bit); }
    FoldInjective(AddBit, s, t, bits);
  }

  /** Any change confined to 32 consecutive bits changes the checksum, whatever the length. */
  lemma BurstChangesChecksum(p: seq<byte>, q: seq<byte>, from: nat)
    requires |p| == |q| && p != q
    requires DifferOnlyWithin(p, q, from, 32)
    ensures Checksum(p) != Checksum(q)
  {
    BitsInjectiveContra(p, q);
    BurstChangesRegister(ALL_ONES, Bits(p), Bits(q), from);
    BytesAreBits(ALL_ONES, p);
    BytesAreBits(ALL_ONES, q);
    DifferentRegisters(p, q);
  }

  lemma BitsInjectiveContra(p: seq<byte>, q: seq<byte>)
    requires |p| == |q| && p != q
    ensures Bits(p) != Bits(q)
  {
    if Bits(p) == Bits(q) { BitsInjective(p, q); }
  }

  lemma BurstChangesRegister(start: Word, a: seq<bool>, b: seq<bool>, from: nat)
    requires |a| == |b| && a != b
    requires forall k :: 0 <= k < |a| && !(from <= k < from + 32) ==> a[k] == b[k]
    ensures Fold(AddBit, start, a) != Fold(AddBit, start, b)
  {
    var lo := if from < |a| then from else |a|;
    var hi := if from + 32 < |a| then from + 32 else |a|;
    assert a[..lo] == b[..lo] && a[hi..] == b[hi..];
    SplitInThree(a, lo, hi);
    SplitInThree(b, lo, hi);
    assert a[lo..hi] != b[lo..hi];
    var c := Fold(AddBit, start, a[..lo]);
    WindowSeparates(c, a[lo..hi], b[lo..hi]);
    SuffixKeepsDifference(Fold(AddBit, c, a[lo..hi]), Fold(AddBit, c, b[lo..hi]), a[hi..]);
    FoldInThree(start, a, lo, hi);
    FoldInThree(start, b, lo, hi);
  }
}
