/** The 32-bit linear feedback register of CRC-32 as a sequence of bits, least
    significant first, and its GF(2) algebra: linearity, injectivity, whole
    words against single bits, and short bursts. */
module ShiftRegister {
  type Register = r: seq<bool> | |r| == 32 witness seq(32, _ => false)

  function Zero(): (z: Register)
    ensures forall i :: 0 <= i < 32 ==> !z[i]
  {
    seq(32, _ => false)
  }

  /** The exponents below 32 of the generator polynomial. */
  const GENERATOR_EXPONENTS: set<nat> := {26, 23, 22, 16, 12, 11, 10, 8, 7, 5, 4, 2, 1, 0}

  /** The generator, reflected: bit `i` is the coefficient of `x^(31-i)`. */
  function Generator(): (g: Register)
    ensures forall i :: 0 <= i < 32 ==> g[i] == (31 - i in GENERATOR_EXPONENTS)
  {
    seq(32, i requires 0 <= i < 32 => 31 - i in GENERATOR_EXPONENTS)
  }

  function Xor(a: seq<bool>, b: seq<bool>): (d: seq<bool>)
    requires |a| == |b|
    ensures |d| == |a|
    ensures forall i :: 0 <= i < |a| ==> d[i] == (a[i] != b[i])
  {
    seq(|a|, i requires 0 <= i < |a| => a[i] != b[i])
  }

  function Shift(r: Register): Register {
    r[1..] + [false]
  }

  function Step(r: Register): Register {
    if r[0] then Xor(Shift(r), Generator()) else Shift(r)
  }

  function Steps(r: Register, n: nat): Register
    decreases n, r
  {
    if n == 0 then r else Steps(Step(r), n - 1)
  }

  function Feed(r: Register, bit: bool): Register {
    Step(r[0 := r[0] != bit])
  }

  /** The register fed one message bit at a time. */
  function Serial(r: Register, bits: seq<bool>): Register
    decreases bits
  {
    if bits == [] then r else Serial(Feed(r, bits[0]), bits[1..])
  }

  /** A word of at most 32 bits, extended with zeros to the width of the register. */
  function Widen(bits: seq<bool>): Register
    requires |bits| <= 32
  {
    bits + seq(32 - |bits|, _ => false)
  }

  ghost predicate AllFalse(bits: seq<bool>) {
    forall i :: 0 <= i < |bits| ==> !bits[i]
  }

  // Linearity and injectivity --------------------------------------------------

  lemma StepLinear(a: Register, b: Register)
    ensures Step(Xor(a, b)) == Xor(Step(a), Step(b))
  {
    assert Shift(Xor(a, b)) == Xor(Shift(a), Shift(b));
  }

  /** The generator's top bit is set, so the dropped bit can be read back. */
  lemma StepInjective(a: Register, b: Register)
    requires Step(a) == Step(b)
    ensures a == b
  {
    assert Generator()[31];
    assert a[0] == Step(a)[31] && b[0] == Step(b)[31];
    forall i | 1 <= i < 32 ensures a[i] == b[i] {
      assert Shift(a)[i - 1] == a[i] && Shift(b)[i - 1] == b[i];
      assert Step(a)[i - 1] == Step(b)[i - 1];
    }
    assert a == b;
  }

  lemma StepOfZero()
    ensures Step(Zero()) == Zero()
  {
    assert Shift(Zero()) == Zero();
  }

  lemma {:induction false} StepsInjective(a: Register, b: Register, n: nat)
    requires Steps(a, n) == Steps(b, n)
    ensures a == b
    decreases n
  {
    if n > 0 {
      StepsInjective(Step(a), Step(b), n - 1);
      StepInjective(a, b);
    }
  }

  lemma {:induction false} StepsOfZero(n: nat)
    ensures Steps(Zero(), n) == Zero()
    decreases n
  {
    if n > 0 {
      StepOfZero();
      StepsOfZero(n - 1);
    }
  }

  lemma StepsNonzero(r: Register, n: nat)
    requires r != Zero()
    ensures Steps(r, n) != Zero()
  {
    if Steps(r, n) == Zero() {
      StepsOfZero(n);
      StepsInjective(r, Zero(), n);
    }
  }

  lemma FeedLinear(r: Register, r': Register, x: bool, y: bool)
    ensures Xor(Feed(r, x), Feed(r', y)) == Feed(Xor(r, r'), x != y)
  {
    var (a, b) := (r[0 := r[0] != x], r'[0 := r'[0] != y]);
    assert Xor(a, b) == Xor(r, r')[0 := Xor(r, r')[0] != (x != y)];
    StepLinear(a, b);
  }

  lemma {:induction false} SerialLinear(r: Register, r': Register, a: seq<bool>, b: seq<bool>)
    requires |a| == |b|
    ensures Xor(Serial(r, a), Serial(r', b)) == Serial(Xor(r, r'), Xor(a, b))
    decreases a
  {
    if a != [] {
      FeedLinear(r, r', a[0], b[0]);
      assert Xor(a, b)[1..] == Xor(a[1..], b[1..]);
      SerialLinear(Feed(r, a[0]), Feed(r', b[0]), a[1..], b[1..]);
    }
  }

  lemma {:induction false} SerialSplits(r: Register, a: seq<bool>, b: seq<bool>)
    ensures Serial(r, a + b) == Serial(Serial(r, a), b)
    decreases a
  {
    if a == [] {
      assert a + b == b;
    } else {
      assert (a + b)[1..] == a[1..] + b;
      SerialSplits(Feed(r, a[0]), a[1..], b);
    }
  }

  lemma {:induction false} SerialOfZeros(r: Register, bits: seq<bool>)
    requires AllFalse(bits)
    ensures Serial(r, bits) == Steps(r, |bits|)
    decreases bits
  {
    if bits != [] {
      assert r[0 := r[0] != bits[0]] == r;
      SerialOfZeros(Step(r), bits[1..]);
    }
  }

  // Whole words ----------------------------------------------------------------

  /** Adding up to 32 message bits at once and then stepping is the same as
      feeding them one at a time. */
  lemma {:induction false} WordEqualsSerial(r: Register, bits: seq<bool>)
    requires |bits| <= 32
    ensures Steps(Xor(r, Widen(bits)), |bits|) == Serial(r, bits)
    decreases bits
  {
    if bits == [] {
      assert Xor(r, Widen(bits)) == r;
    } else {
      var low := Zero()[0 := bits[0]];
      var high := Widen(bits)[0 := false];
      assert Xor(r, Widen(bits)) == Xor(Xor(r, low), high);
      assert Xor(r, low) == r[0 := r[0] != bits[0]];
      StepLinear(Xor(r, low), high);
      assert Step(high) == Widen(bits[1..]);
      WordEqualsSerial(Feed(r, bits[0]), bits[1..]);
    }
  }

  /** At most 32 bits that are not all zero leave a zero register nonzero. */
  lemma ShortBurstSurvives(bits: seq<bool>)
    requires |bits| <= 32 && !AllFalse(bits)
    ensures Serial(Zero(), bits) != Zero()
  {
    var w := Widen(bits);
    WordEqualsSerial(Zero(), bits);
    assert Xor(Zero(), w) == w;
    var i :| 0 <= i < |bits| && bits[i];
    assert w[i] != Zero()[i];
    StepsNonzero(w, |bits|);
  }

  /** A difference confined to at most 32 positions, whatever surrounds it. */
  lemma PaddedBurstSurvives(before: seq<bool>, burst: seq<bool>, after: seq<bool>)
    requires AllFalse(before) && AllFalse(after)
    requires |burst| <= 32 && !AllFalse(burst)
    ensures Serial(Zero(), before + (burst + after)) != Zero()
  {
    SerialSplits(Zero(), before, burst + after);
    SerialOfZeros(Zero(), before);
    StepsOfZero(|before|);
    SerialSplits(Zero(), burst, after);
    ShortBurstSurvives(burst);
    SerialOfZeros(Serial(Zero(), burst), after);
    StepsNonzero(Serial(Zero(), burst), |after|);
  }

  lemma WindowSplits(d: seq<bool>, first: nat, last: nat, at: nat)
    requires first <= last <= |d| && at < |d| && d[at]
    requires forall i :: 0 <= i < |d| && !(first <= i < last) ==> !d[i]
    ensures d == d[..first] + (d[first..last] + d[last..])
    ensures AllFalse(d[..first]) && AllFalse(d[last..]) && !AllFalse(d[first..last])
  {
    assert d[first..last][at - first];
  }

  /** Two bit strings that differ, and only inside a window of at most 32
      positions, drive any register apart. */
  lemma BurstSeparates(r: Register, a: seq<bool>, b: seq<bool>, first: nat, last: nat)
    requires |a| == |b| && a != b
    requires first <= last <= |a| && last - first <= 32
    requires forall i :: 0 <= i < |a| && !(first <= i < last) ==> a[i] == b[i]
    ensures Serial(r, a) != Serial(r, b)
  {
    var d := Xor(a, b);
    var at :| 0 <= at < |a| && a[at] != b[at];
    WindowSplits(d, first, last, at);
    PaddedBurstSurvives(d[..first], d[first..last], d[last..]);
    SerialLinear(r, r, a, b);
    XorSelf(r);
  }

  lemma XorSelf(r: Register)
    ensures Xor(r, r) == Zero()
  {
  }
}
