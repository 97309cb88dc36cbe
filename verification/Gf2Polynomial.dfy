/** Polynomials over GF(2) as sets of exponents, and the meaning of the CRC
    register: the unique remainder modulo the generator of section 8 of RFC 1952. */
module Gf2Polynomial {
  import opened Bytes
  import opened ShiftRegister
  import Crc32
  import opened WordBits

  type Polynomial = set<nat>

  /** Coefficients add modulo 2. */
  function Add(p: Polynomial, q: Polynomial): Polynomial {
    (p - q) + (q - p)
  }

  /** Multiplication by `x^n`. */
  function TimesX(p: Polynomial, n: nat): (r: Polynomial)
    ensures forall e: nat :: e in r <==> e >= n && e - n in p
  {
    var r := set d | d in p :: d + n;
    assert forall e: nat :: e >= n && e - n in p ==> e in r by {
      forall e: nat | e >= n && e - n in p ensures e in r {
        var d := e - n;
        assert d in p && e == d + n;
      }
    }
    r
  }

  /** The multiple of `g` by the polynomial with coefficients `q`, highest first. */
  function Product(q: seq<bool>, g: Polynomial): Polynomial {
    if q == [] then {}
    else
      var n := |q| - 1;
      Add(TimesX(Product(q[..n], g), 1), if q[n] then g else {})
  }

  /** x^32 + x^26 + x^23 + x^22 + x^16 + x^12 + x^11 + x^10 + x^8 + x^7 + x^5 + x^4 + x^2 + x + 1 */
  function Divisor(): Polynomial {
    GENERATOR_EXPONENTS + {32}
  }

  predicate Coefficient(bits: seq<bool>, e: nat) {
    e < |bits| && bits[|bits| - 1 - e]
  }

  /** Bits as coefficients, the first bit highest: the message in transmission
      order, and the reflected reading of the register, whose bit 0 is x^31. */
  function PolynomialOf(bits: seq<bool>): (p: Polynomial)
    ensures forall e: nat :: e in p <==> Coefficient(bits, e)
  {
    set e: nat | e < |bits| && Coefficient(bits, e)
  }

  /** What the register divides: the initial register ahead of the message, and
      the message followed by 32 zero bits. */
  function Dividend(r: Register, bits: seq<bool>): Polynomial {
    Add(TimesX(PolynomialOf(r), |bits|), TimesX(PolynomialOf(bits), 32))
  }

  ghost predicate IsRemainder(rem: Polynomial, dividend: Polynomial) {
    && (forall e :: e in rem ==> e < 32)
    && exists q: seq<bool> :: Add(rem, dividend) == Product(q, Divisor())
  }

  // Existence ------------------------------------------------------------------

  /** The bits the register drops, which are the coefficients of the quotient. */
  function Quotient(r: Register, bits: seq<bool>): (q: seq<bool>) {
    if bits == [] then []
    else
      var n := |bits| - 1;
      Quotient(r, bits[..n]) + [Serial(r, bits[..n])[0] != bits[n]]
  }

  lemma TimesXAdds(p: Polynomial, q: Polynomial, n: nat)
    ensures TimesX(Add(p, q), n) == Add(TimesX(p, n), TimesX(q, n))
  {
  }

  lemma AddAssociates(p: Polynomial, q: Polynomial, r: Polynomial)
    ensures Add(Add(p, q), r) == Add(p, Add(q, r))
  {
  }

  /** A term added on both sides cancels. */
  lemma CommonTermCancels(p: Polynomial, q: Polynomial, common: Polynomial, t: Polynomial)
    ensures Add(Add(p, Add(common, t)), Add(q, common)) == Add(Add(p, q), t)
  {
  }

  lemma StepReflected(r: Register)
    ensures PolynomialOf(Step(r)) == Add(TimesX(PolynomialOf(r), 1), if r[0] then Divisor() else {})
  {
    var p := PolynomialOf(r);
    var added: Polynomial := if r[0] then Divisor() else {};
    forall e: nat ensures e in PolynomialOf(Step(r)) <==> e in Add(TimesX(p, 1), added) {
      hide Step, Divisor, Coefficient;
      StepCoefficient(r, e);
      assert e in TimesX(p, 1) <==> e > 0 && Coefficient(r, e - 1);
    }
  }

  /** The coefficients after a step. The term that is shifted out at 32 cancels. */
  lemma StepCoefficient(r: Register, e: nat)
    ensures Coefficient(Step(r), e) <==> (e > 0 && Coefficient(r, e - 1)) != (r[0] && e in Divisor())
  {
    if e == 32 {
      assert Coefficient(r, 31) == r[0];
    } else if 0 < e < 32 {
      assert Shift(r)[31 - e] == r[32 - e];
      assert Coefficient(r, e - 1) == r[32 - e];
    }
  }

  lemma FeedReflected(r: Register, bit: bool, carry: Polynomial, quotient: Polynomial)
    requires carry == if bit then {32} else {}
    requires quotient == if r[0] != bit then Divisor() else {}
    ensures PolynomialOf(Feed(r, bit)) == Add(TimesX(PolynomialOf(r), 1), Add(carry, quotient))
  {
    var s := r[0 := r[0] != bit];
    StepReflected(s);
    TopFlipped(r, s, bit);
    AddAssociates(TimesX(PolynomialOf(r), 1), carry, quotient);
  }

  lemma TopFlipped(r: Register, s: Register, bit: bool)
    requires s == r[0 := r[0] != bit]
    ensures TimesX(PolynomialOf(s), 1) == Add(TimesX(PolynomialOf(r), 1), if bit then {32} else {})
  {
    forall e: nat ensures Coefficient(s, e) == (Coefficient(r, e) != (bit && e == 31)) {
      if e < 31 {
        assert s[31 - e] == r[31 - e];
      }
    }
  }

  lemma AppendedBit(bits: seq<bool>, bit: bool)
    ensures PolynomialOf(bits + [bit]) == Add(TimesX(PolynomialOf(bits), 1), if bit then {0} else {})
  {
    var all := bits + [bit];
    forall e: nat ensures Coefficient(all, e) <==> if e == 0 then bit else Coefficient(bits, e - 1) {
      if 1 <= e <= |bits| {
        assert all[|bits| - e] == bits[|bits| - e];
      }
    }
  }

  lemma TimesXTwice(p: Polynomial, m: nat, n: nat)
    ensures TimesX(TimesX(p, m), n) == TimesX(p, m + n)
  {
  }

  lemma ConstantShifted(bit: bool, low: Polynomial, carry: Polynomial)
    requires low == (if bit then {0} else {}) && carry == if bit then {32} else {}
    ensures TimesX(low, 32) == carry
  {
  }

  lemma DividendGrows(r: Register, bits: seq<bool>, bit: bool, carry: Polynomial)
    requires carry == if bit then {32} else {}
    ensures Dividend(r, bits + [bit]) == Add(TimesX(Dividend(r, bits), 1), carry)
  {
    hide PolynomialOf, TimesX, Add;
    var (p, m) := (PolynomialOf(r), PolynomialOf(bits));
    var low: Polynomial := if bit then {0} else {};
    AppendedBit(bits, bit);
    TimesXAdds(TimesX(m, 1), low, 32);
    ConstantShifted(bit, low, carry);
    TimesXTwice(m, 1, 32);
    TimesXTwice(m, 32, 1);
    TimesXTwice(p, |bits|, 1);
    TimesXAdds(TimesX(p, |bits|), TimesX(m, 32), 1);
    AddAssociates(TimesX(p, |bits| + 1), TimesX(m, 33), carry);
  }

  lemma QuotientStep(r: Register, init: seq<bool>, bit: bool)
    ensures Product(Quotient(r, init + [bit]), Divisor()) ==
            Add(TimesX(Product(Quotient(r, init), Divisor()), 1),
                if Serial(r, init)[0] != bit then Divisor() else {})
  {
    var q := Quotient(r, init + [bit]);
    assert (init + [bit])[..|init|] == init;
    assert q == Quotient(r, init) + [Serial(r, init)[0] != bit];
    assert q[..|q| - 1] == Quotient(r, init);
  }

  lemma SerialOne(s: Register, bit: bool)
    ensures Serial(s, [bit]) == Feed(s, bit)
  {
    assert [bit][1..] == [];
  }

  lemma DivisionStep(r: Register, init: seq<bool>, bit: bool)
    requires Add(PolynomialOf(Serial(r, init)), Dividend(r, init)) == Product(Quotient(r, init), Divisor())
    ensures Add(PolynomialOf(Serial(r, init + [bit])), Dividend(r, init + [bit]))
         == Product(Quotient(r, init + [bit]), Divisor())
  {
    hide PolynomialOf, TimesX, Add, Dividend, Divisor, Quotient, Product, Serial;
    var s := Serial(r, init);
    var carry: Polynomial := if bit then {32} else {};
    var top: Polynomial := if s[0] != bit then Divisor() else {};
    SerialSplits(r, init, [bit]);
    SerialOne(s, bit);
    FeedReflected(s, bit, carry, top);
    DividendGrows(r, init, bit, carry);
    QuotientStep(r, init, bit);
    TimesXAdds(PolynomialOf(s), Dividend(r, init), 1);
    CommonTermCancels(TimesX(PolynomialOf(s), 1), TimesX(Dividend(r, init), 1), carry, top);
  }

  lemma EmptyDivision(r: Register)
    ensures Add(PolynomialOf(Serial(r, [])), Dividend(r, [])) == Product(Quotient(r, []), Divisor())
  {
    assert TimesX(PolynomialOf(r), 0) == PolynomialOf(r);
    assert TimesX(PolynomialOf([]), 32) == {};
  }

  /** Remainder plus dividend is the quotient times the divisor. */
  lemma {:induction false} DivisionIdentity(r: Register, bits: seq<bool>)
    ensures Add(PolynomialOf(Serial(r, bits)), Dividend(r, bits)) == Product(Quotient(r, bits), Divisor())
    decreases |bits|
  {
    hide PolynomialOf, TimesX, Add, Dividend, Divisor, Quotient, Product, Serial;
    if bits == [] {
      EmptyDivision(r);
    } else {
      var init := bits[..|bits| - 1];
      DivisionIdentity(r, init);
      DivisionStep(r, init, bits[|bits| - 1]);
      assert bits == init + [bits[|bits| - 1]];
    }
  }

  // Uniqueness -----------------------------------------------------------------

  lemma {:induction false} ProductAdds(p: seq<bool>, q: seq<bool>, g: Polynomial)
    requires |p| == |q|
    ensures Add(Product(p, g), Product(q, g)) == Product(Xor(p, q), g)
    decreases |p|
  {
    if p != [] {
      var n := |p| - 1;
      ProductAdds(p[..n], q[..n], g);
      assert Xor(p, q)[..n] == Xor(p[..n], q[..n]);
      assert TimesX(Add(Product(p[..n], g), Product(q[..n], g)), 1)
          == Add(TimesX(Product(p[..n], g), 1), TimesX(Product(q[..n], g), 1));
    }
  }

  lemma {:induction false} ProductOfZeros(q: seq<bool>, g: Polynomial)
    requires AllFalse(q)
    ensures Product(q, g) == {}
    decreases |q|
  {
    if q != [] {
      ProductOfZeros(q[..|q| - 1], g);
    }
  }

  lemma {:induction false} ProductPads(zeros: seq<bool>, q: seq<bool>, g: Polynomial)
    requires AllFalse(zeros)
    ensures Product(zeros + q, g) == Product(q, g)
    decreases |q|
  {
    if q == [] {
      assert zeros + q == zeros;
      ProductOfZeros(zeros, g);
    } else {
      var n := |q| - 1;
      assert (zeros + q)[..|zeros| + n] == zeros + q[..n];
      ProductPads(zeros, q[..n], g);
    }
  }

  lemma HighTermSurvives(p: Polynomial, d: nat, last: bool, g: Polynomial)
    requires d >= 32 && d in p && forall e :: e in g ==> e <= 32
    ensures d + 1 in Add(TimesX(p, 1), if last then g else {})
  {
    assert d + 1 in TimesX(p, 1);
  }

  /** A nonzero multiple of a divisor of degree 32 has degree at least 32. */
  lemma {:induction false} NonzeroMultipleIsLong(q: seq<bool>, g: Polynomial) returns (e: nat)
    requires !AllFalse(q) && 32 in g && forall e :: e in g ==> e <= 32
    ensures e >= 32 && e in Product(q, g)
    decreases |q|
  {
    var n := |q| - 1;
    if AllFalse(q[..n]) {
      ProductOfZeros(q[..n], g);
      assert q[n];
      e := 32;
    } else {
      var d := NonzeroMultipleIsLong(q[..n], g);
      e := d + 1;
      HighTermSurvives(Product(q[..n], g), d, q[n], g);
    }
  }

  lemma SameLengthQuotientsAgree(a: Polynomial, b: Polynomial, d: Polynomial, p: seq<bool>, q: seq<bool>)
    requires forall e :: e in a || e in b ==> e < 32
    requires |p| == |q|
    requires Add(a, d) == Product(p, Divisor()) && Add(b, d) == Product(q, Divisor())
    ensures a == b
  {
    hide Product;
    ProductAdds(p, q, Divisor());
    var x := Xor(p, q);
    assert Add(Add(a, d), Add(b, d)) == Add(a, b);
    if AllFalse(x) {
      ProductOfZeros(x, Divisor());
      forall e: nat ensures e in a <==> e in b {
        assert e !in Add(a, b);
      }
    } else {
      var e := NonzeroMultipleIsLong(x, Divisor());
      assert false;
    }
  }

  lemma RemainderUnique(a: Polynomial, b: Polynomial, d: Polynomial)
    requires IsRemainder(a, d) && IsRemainder(b, d)
    ensures a == b
  {
    var p: seq<bool> :| Add(a, d) == Product(p, Divisor());
    var q: seq<bool> :| Add(b, d) == Product(q, Divisor());
    var (zp, zq) := (seq(|q|, _ => false), seq(|p|, _ => false));
    ProductPads(zp, p, Divisor());
    ProductPads(zq, q, Divisor());
    SameLengthQuotientsAgree(a, b, d, zp + p, zq + q);
  }

  lemma ReflectedInjective(r: Register, s: Register)
    requires PolynomialOf(r) == PolynomialOf(s)
    ensures r == s
  {
    forall i | 0 <= i < 32 ensures r[i] == s[i] {
      assert (31 - i in PolynomialOf(r)) == r[i];
      assert (31 - i in PolynomialOf(s)) == s[i];
    }
  }

  // The register is the remainder ----------------------------------------------

  lemma SerialIsRemainder(r: Register, s: Register, bits: seq<bool>)
    ensures s == Serial(r, bits) <==> IsRemainder(PolynomialOf(s), Dividend(r, bits))
  {
    DivisionIdentity(r, bits);
    assert IsRemainder(PolynomialOf(Serial(r, bits)), Dividend(r, bits));
    if IsRemainder(PolynomialOf(s), Dividend(r, bits)) {
      RemainderUnique(PolynomialOf(s), PolynomialOf(Serial(r, bits)), Dividend(r, bits));
      ReflectedInjective(s, Serial(r, bits));
    }
  }

  /** For every message and every initial register, a word is what the CRC loop
      returns exactly when its reflection is the remainder of the dividend. */
  lemma CrcIsRemainder(c: bv32, result: bv32, bytes: seq<byte>)
    ensures result == Crc32.Update(c, bytes) <==>
            IsRemainder(PolynomialOf(Bits(result)), Dividend(Bits(c), BitsOf(bytes)))
  {
    Crc32.UpdateRefines(c, bytes);
    SerialIsRemainder(Bits(c), Bits(result), BitsOf(bytes));
    if Bits(result) == Bits(Crc32.Update(c, bytes)) {
      BitsInjective(result, Crc32.Update(c, bytes));
    }
  }
}
