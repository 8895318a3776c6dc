/** What the checksum is, without the constant or the loop that compute it: the remainder of a
    polynomial division over GF(2), as section 3.2.9 of IEEE 802.3-2012 defines the frame check
    sequence. A polynomial is the set of the exponents whose coefficient is 1. */
module CrcRemainder {
  import opened Folds
  import opened Crc32

  type Poly = set<nat>

  /** x^32 + x^26 + x^23 + x^22 + x^16 + x^12 + x^11 + x^10 + x^8 + x^7 + x^5 + x^4 + x^2 + x + 1 */
  const GENERATOR: Poly := {32, 26, 23, 22, 16, 12, 11, 10, 8, 7, 5, 4, 2, 1, 0}

  function Add(a: Poly, b: Poly): Poly { (a - b) + (b - a) }

  /** The product with x^k. */
  function Raise(a: Poly, k: nat): Poly { set e | e in a :: e + k }

  /** The product of `g` with the polynomial whose coefficients are `q`, highest first. */
  function Times(q: seq<bool>, g: Poly): Poly {
    if q == [] then {}
    else Add(Raise(Times(q[..|q| - 1], g), 1), if q[|q| - 1] then g else {})
  }

  /** The polynomial with these coefficients, highest first. */
  function PolyOf(bits: seq<bool>): Poly { set e: nat | e < |bits| && Coefficient(bits, e) }

  predicate Coefficient(bits: seq<bool>, e: nat)
    requires e < |bits|
  {
    bits[|bits| - 1 - e]
  }

  /** The first byte has the highest exponents, and in each byte the least significant bit has. */
  function MessagePoly(payload: seq<byte>): Poly { set e: nat | e < 8 * |payload| && MessageBit(payload, e) }

  predicate MessageBit(payload: seq<byte>, e: nat)
    requires e < 8 * |payload|
  {
    Bit(payload[|payload| - 1 - e / 8], 7 - e % 8)
  }

  /** Complemented, and with the least significant bit as the coefficient of x^31. */
  function ChecksumPoly(crc: nat): Poly { set e: nat | e < 32 && ChecksumBit(crc, e) }

  predicate ChecksumBit(crc: nat, e: nat)
    requires e < 32
  {
    !Bit(crc, 31 - e)
  }

  /** All exponents below `n`. */
  function Ones(n: nat): (a: Poly)
    ensures forall e: nat :: e in a <==> e < n
  {
    if n == 0 then {} else Ones(n - 1) + {n - 1}
  }

  /** Preset to 32 ones: the message times x^32, with its first 32 coefficients complemented. */
  function Dividend(payload: seq<byte>): Poly {
    Add(Raise(Ones(32), 8 * |payload|), Raise(MessagePoly(payload), 32))
  }

  /** `crc` is the CRC-32 of `payload`: dividing leaves it as the remainder. */
  ghost predicate IsCrc(payload: seq<byte>, crc: nat) {
    && crc < 0x1_0000_0000
    && exists q: seq<bool> :: |q| == 8 * |payload| && Dividend(payload) == Add(Times(q, GENERATOR), ChecksumPoly(crc))
  }

  predicate Below(a: Poly, n: nat) { forall e :: e in a ==> e < n }

  // ----- Sums and shifts

  lemma RaiseHas(a: Poly, k: nat, e: nat)
    ensures e in Raise(a, k) <==> e >= k && e - k in a
  {
    if e >= k && e - k in a { assert e - k + k == e; }
  }

  lemma RaiseAdd(a: Poly, b: Poly, k: nat)
    ensures Raise(Add(a, b), k) == Add(Raise(a, k), Raise(b, k))
  {
    forall e: nat ensures e in Raise(Add(a, b), k) <==> e in Add(Raise(a, k), Raise(b, k)) {
      RaiseHas(a, k, e);
      RaiseHas(b, k, e);
      RaiseHas(Add(a, b), k, e);
    }
  }

  lemma RaiseTwice(a: Poly, j: nat, k: nat)
    ensures Raise(Raise(a, j), k) == Raise(a, j + k)
  {
    forall e: nat ensures e in Raise(Raise(a, j), k) <==> e in Raise(a, j + k) {
      RaiseHas(Raise(a, j), k, e);
      if e >= k { RaiseHas(a, j, e - k); }
      RaiseHas(a, j + k, e);
    }
  }

  // ----- One bit of the loop is one step of the division

  function RegisterPoly(w: Word): Poly { set e: nat | e < 32 && RegisterBit(w, e) }

  predicate RegisterBit(w: Word, e: nat)
    requires e < 32
  {
    w[31 - e]
  }

  /** `g` is of degree 32, and below that the constant of the loop holds its coefficients. */
  ghost predicate IsGenerator(g: Poly) {
    32 in g && Below(g, 33) && forall e: nat :: e < 32 ==> (RegisterBit(POLYNOMIAL, e) <==> e in g)
  }

  lemma FirstByte()
    ensures !Bit(0xEDB88320, 0) && !Bit(0xEDB88320, 1) && !Bit(0xEDB88320, 2) && !Bit(0xEDB88320, 3)
    ensures !Bit(0xEDB88320, 4) && Bit(0xEDB88320, 5) && !Bit(0xEDB88320, 6) && !Bit(0xEDB88320, 7)
  {
  }

  lemma SecondByte()
    ensures Bit(0xEDB883, 0) && Bit(0xEDB883, 1) && !Bit(0xEDB883, 2) && !Bit(0xEDB883, 3)
    ensures !Bit(0xEDB883, 4) && !Bit(0xEDB883, 5) && !Bit(0xEDB883, 6) && Bit(0xEDB883, 7)
  {
  }

  lemma ThirdByte()
    ensures !Bit(0xEDB8, 0) && !Bit(0xEDB8, 1) && !Bit(0xEDB8, 2) && Bit(0xEDB8, 3)
    ensures Bit(0xEDB8, 4) && Bit(0xEDB8, 5) && !Bit(0xEDB8, 6) && Bit(0xEDB8, 7)
  {
  }

  lemma FourthByte()
    ensures Bit(0xED, 0) && !Bit(0xED, 1) && Bit(0xED, 2) && Bit(0xED, 3)
    ensures !Bit(0xED, 4) && Bit(0xED, 5) && Bit(0xED, 6) && Bit(0xED, 7)
  {
  }

  lemma GeneratorBits()
    ensures IsGenerator(GENERATOR)
  {
    FirstByte();
    SecondByte();
    ThirdByte();
    FourthByte();
    forall i | 0 <= i < 32 ensures POLYNOMIAL[i] == TakeByte(i) {
      if i >= 8 { BitOfByte(0xEDB8_8320, i - 8); }
      if i >= 16 { BitOfByte(0xED_B883, i - 16); }
      if i >= 24 { BitOfByte(0xEDB8, i - 24); }
    }
    forall e: nat | e < 32 ensures RegisterBit(POLYNOMIAL, e) <==> e in GENERATOR {
      assert POLYNOMIAL[31 - e] == TakeByte(31 - e);
    }
  }

  /** The bits of the constant, byte by byte. */
  function TakeByte(i: nat): bool {
    if i < 8 then Bit(0xEDB8_8320, i)
    else if i < 16 then Bit(0xED_B883, i - 8)
    else if i < 24 then Bit(0xEDB8, i - 16)
    else Bit(0xED, i - 24)
  }

  lemma StepDivides(w: Word, bit: bool, g: Poly)
    requires IsGenerator(g)
    ensures RegisterPoly(AddBit(w, bit))
            == Add(Add(Raise(RegisterPoly(w), 1), if bit then {32} else {}), if w[0] != bit then g else {})
  {
    var u: Word := w[0 := w[0] != bit];
    ShiftTop(u);
    PolynomialTop();
    var r := RegisterPoly(AddBit(w, bit));
    var s := Add(Add(Raise(RegisterPoly(w), 1), if bit then {32} else {}), if w[0] != bit then g else {});
    assert RegisterBit(POLYNOMIAL, 0);
    forall e: nat ensures e in r <==> e in s {
      RaiseHas(RegisterPoly(w), 1, e);
      if 0 < e < 32 {
        assert RegisterBit(AddBit(w, bit), e) == (u[32 - e] != (u[0] && RegisterBit(POLYNOMIAL, e)));
        assert e > 1 ==> u[32 - e] == RegisterBit(w, e - 1);
      }
    }
  }

  lemma PolyOfSnoc(bits: seq<bool>, bit: bool)
    ensures PolyOf(bits + [bit]) == Add(Raise(PolyOf(bits), 1), if bit then {0} else {})
  {
    forall e: nat ensures e in PolyOf(bits + [bit]) <==> e in Add(Raise(PolyOf(bits), 1), if bit then {0} else {}) {
      RaiseHas(PolyOf(bits), 1, e);
    }
  }

  /** Shifting in bits divides: what has been shifted in, on top of the raised start value, is a
      multiple of the generator plus the register. */
  lemma {:induction false} RegisterIsRemainder(w: Word, bits: seq<bool>) returns (q: seq<bool>)
    ensures |q| == |bits|
    ensures Add(Raise(RegisterPoly(w), |bits|), Raise(PolyOf(bits), 32))
            == Add(Times(q, GENERATOR), RegisterPoly(Fold(AddBit, w, bits)))
  {
    if bits == [] {
      q := [];
      RaiseByZero(RegisterPoly(w));
      assert Raise(PolyOf(bits), 32) == {};
    } else {
      var n := |bits| - 1;
      var init, bit := bits[..n], bits[n];
      var before := Fold(AddBit, w, init);
      q := RegisterIsRemainder(w, init);
      FoldLast(AddBit, w, init, bit);
      assert bits == init + [bit];
      var t := before[0] != bit;
      GeneratorBits();
      StepDivides(before, bit, GENERATOR);
      DividendSnoc(RegisterPoly(w), init, bit);
      RaiseAdd(Times(q, GENERATOR), RegisterPoly(before), 1);
      Regroup(Raise(Times(q, GENERATOR), 1), Raise(RegisterPoly(before), 1), if bit then {32} else {},
              if t then GENERATOR else {});
      assert (q + [t])[..n] == q;
      q := q + [t];
    }
  }

  lemma RaiseByZero(a: Poly)
    ensures Raise(a, 0) == a
  {
    forall e: nat ensures e in Raise(a, 0) <==> e in a { RaiseHas(a, 0, e); }
  }

  lemma DividendSnoc(start: Poly, init: seq<bool>, bit: bool)
    ensures Add(Raise(start, |init| + 1), Raise(PolyOf(init + [bit]), 32))
            == Add(Raise(Add(Raise(start, |init|), Raise(PolyOf(init), 32)), 1), if bit then {32} else {})
  {
    var carry: Poly := if bit then {0} else {};
    PolyOfSnoc(init, bit);
    RaiseAdd(Raise(PolyOf(init), 1), carry, 32);
    RaiseTwice(PolyOf(init), 1, 32);
    RaiseTwice(PolyOf(init), 32, 1);
    RaiseTwice(start, |init|, 1);
    RaiseAdd(Raise(start, |init|), Raise(PolyOf(init), 32), 1);
    assert Raise(carry, 32) == if bit then {32} else {};
  }

  lemma Regroup(a: Poly, b: Poly, c: Poly, d: Poly)
    ensures Add(Add(a, b), c) == Add(Add(a, d), Add(Add(b, c), d))
  {
  }

  // ----- The bits of the message

  lemma {:induction false} LowBitsAt(w: Word, n: nat, k: nat)
    requires k < n <= 32
    ensures LowBits(Low, Half, w, n)[k] == w[k]
    decreases n
  {
    if k > 0 { LowBitsAt(Half(w), n - 1, k - 1); }
  }

  lemma {:induction false} BitsAt(payload: seq<byte>, j: nat, k: nat)
    requires j < |payload| && k < 8
    ensures |Bits(payload)| == 8 * |payload|
    ensures Bits(payload)[8 * j + k] == Bit(payload[j], k)
  {
    var first, rest := ByteBits(payload[0]), Bits(payload[1..]);
    assert Bits(payload) == first + rest && |first| == 8;
    if |payload| > 1 {
      BitsAt(payload[1..], if j == 0 then 0 else j - 1, k);
    } else {
      assert rest == [];
    }
    if j == 0 {
      LowBitsAt(WordOf(payload[0]), 8, k);
    } else {
      assert rest[8 * (j - 1) + k] == Bits(payload)[8 * j + k];
    }
  }

  lemma MessageBits(payload: seq<byte>)
    ensures |Bits(payload)| == 8 * |payload| && PolyOf(Bits(payload)) == MessagePoly(payload)
  {
    if payload != [] {
      BitsAt(payload, 0, 0);
      var n := |payload|;
      forall e: nat | e < 8 * n ensures Coefficient(Bits(payload), e) == MessageBit(payload, e) {
        BitsAt(payload, n - 1 - e / 8, 7 - e % 8);
      }
    }
  }

  // ----- The checksum

  lemma ChecksumIsCrc(payload: seq<byte>)
    ensures IsCrc(payload, Checksum(payload))
  {
    var bits, last := Bits(payload), Register(payload);
    MessageBits(payload);
    BytesAreBits(ALL_ONES, payload);
    var q := RegisterIsRemainder(ALL_ONES, bits);
    forall e: nat ensures e in RegisterPoly(ALL_ONES) <==> e in Ones(32) {
      assert e < 32 ==> RegisterBit(ALL_ONES, e);
    }
    forall e: nat | e < 32 ensures ChecksumBit(Checksum(payload), e) == RegisterBit(last, e) {
      BitOfValue(Complement(last), 31 - e);
    }
    assert ChecksumPoly(Checksum(payload)) == RegisterPoly(last);
  }

  // ----- There is only one remainder

  lemma {:induction false} TopOfMultiple(q: seq<bool>, g: Poly)
    requires q != [] && q[0] && 32 in g && Below(g, 33)
    ensures |q| + 31 in Times(q, g) && Below(Times(q, g), |q| + 32)
  {
    var n := |q| - 1;
    if n == 0 {
      assert Times(q[..0], g) == {};
      assert Times(q, g) == g;
    } else {
      TopOfMultiple(q[..n], g);
      RaiseHas(Times(q[..n], g), 1, |q| + 31);
    }
  }

  lemma {:induction false} LeadingZero(q: seq<bool>, g: Poly)
    requires q != [] && !q[0]
    ensures Times(q, g) == Times(q[1..], g)
  {
    var n := |q| - 1;
    if n == 0 {
      assert Times(q[..0], g) == {};
    } else {
      LeadingZero(q[..n], g);
      assert q[1..][..n - 1] == q[..n][1..];
    }
  }

  /** A multiple of the generator with only exponents below 32 is zero. */
  lemma {:induction false} NoSmallMultiple(q: seq<bool>, g: Poly)
    requires 32 in g && Below(g, 33) && Below(Times(q, g), 32)
    ensures Times(q, g) == {}
  {
    if q != [] {
      if q[0] {
        TopOfMultiple(q, g);
        assert false;
      } else {
        LeadingZero(q, g);
        NoSmallMultiple(q[1..], g);
      }
    }
  }

  function Both(p: seq<bool>, q: seq<bool>): (r: seq<bool>)
    requires |p| == |q|
    ensures |r| == |p|
  {
    seq(|p|, k requires 0 <= k < |p| => p[k] != q[k])
  }

  lemma {:induction false} TimesAdds(p: seq<bool>, q: seq<bool>, g: Poly)
    requires |p| == |q|
    ensures Times(Both(p, q), g) == Add(Times(p, g), Times(q, g))
  {
    if p != [] {
      var n := |p| - 1;
      TimesAdds(p[..n], q[..n], g);
      assert Both(p, q)[..n] == Both(p[..n], q[..n]);
      RaiseAdd(Times(p[..n], g), Times(q[..n], g), 1);
    }
  }

  lemma ChecksumPolyDetermines(c: nat, d: nat)
    requires c < 0x1_0000_0000 && d < 0x1_0000_0000 && ChecksumPoly(c) == ChecksumPoly(d)
    ensures c == d
  {
    forall i | 0 <= i < 32 ensures Bit(c, i) == Bit(d, i) {
      assert ChecksumBit(c, 31 - i) <==> 31 - i in ChecksumPoly(c);
      assert ChecksumBit(d, 31 - i) <==> 31 - i in ChecksumPoly(d);
    }
    PowerOf32();
    BitsDetermine(c, d, 32);
  }

  /** Dividing by a polynomial of degree 32 leaves only one remainder. */
  lemma RemainderIsUnique(p: seq<bool>, r: Poly, q: seq<bool>, s: Poly, g: Poly)
    requires |p| == |q| && 32 in g && Below(g, 33) && Below(r, 32) && Below(s, 32)
    requires Add(Times(p, g), r) == Add(Times(q, g), s)
    ensures r == s
  {
    TimesAdds(p, q, g);
    Cancel(Times(p, g), r, Times(q, g), s);
    NoSmallMultiple(Both(p, q), g);
    SameWhenNothingDiffers(r, s);
  }

  /** The checksum is the CRC-32 of IEEE 802.3, and no other number is. */
  lemma ChecksumIsTheCrc(payload: seq<byte>, crc: nat)
    ensures IsCrc(payload, crc) <==> crc == Checksum(payload)
  {
    ChecksumIsCrc(payload);
    if IsCrc(payload, crc) {
      var d, c := Dividend(payload), Checksum(payload);
      var p :| |p| == 8 * |payload| && d == Add(Times(p, GENERATOR), ChecksumPoly(c));
      var q :| |q| == 8 * |payload| && d == Add(Times(q, GENERATOR), ChecksumPoly(crc));
      GeneratorBits();
      RemainderIsUnique(p, ChecksumPoly(c), q, ChecksumPoly(crc), GENERATOR);
      ChecksumPolyDetermines(c, crc);
    }
  }

  lemma Cancel(a: Poly, r: Poly, b: Poly, s: Poly)
    requires Add(a, r) == Add(b, s)
    ensures Add(a, b) == Add(r, s)
  {
    forall e: nat ensures e in Add(a, b) <==> e in Add(r, s) {
      assert e in Add(a, r) <==> e in Add(b, s);
    }
  }

  lemma SameWhenNothingDiffers(a: Poly, b: Poly)
    requires Add(a, b) == {}
    ensures a == b
  {
    forall e: nat ensures e in a <==> e in b { assert e !in Add(a, b); }
  }

  /** The two nested loops, with the final complement. */
  method ComputeCrc32(payload: seq<byte>) returns (r: nat)
    ensures IsCrc(payload, r)
    ensures r == Checksum(payload) == TableChecksum(payload)
  {
    var crc := ALL_ONES;
    for i := 0 to |payload|
      invariant crc == Register(payload[..i])
    {
      FoldLast(AddByte, ALL_ONES, payload[..i], payload[i]);
      assert payload[..i + 1] == payload[..i] + [payload[i]];
      crc := Xor(crc, WordOf(payload[i]));
      ghost var mixed := crc;
      for bit := 0 to 8
        invariant crc == Iterate(ShiftBit, bit, mixed)
      {
        IterateLast(ShiftBit, bit, mixed);
        crc := Xor(ShiftRight(crc, 1), And(POLYNOMIAL, NegateBit(And(crc, ONE))));
      }
    }
    assert payload[..|payload|] == payload;
    r := Value(Complement(crc));
    BitLoopIsTableDriven(payload);
    ChecksumIsCrc(payload);
  }
}
