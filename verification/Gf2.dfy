/** 32-bit registers as polynomials over GF(2), lowest power in the most significant bit. The operations are
    named so that proofs about them can be equational. */
module Gf2 {

  /** The CRC-32 polynomial without its leading term. */
  const POLY: bv32 := 0xedb88320

  function Add(a: bv32, b: bv32): bv32 {
    a ^ b
  }

  function Half(c: bv32): bv32 {
    c >> 1
  }

  function Double(c: bv32): bv32 {
    c << 1
  }

  predicate Odd(c: bv32) {
    c & 1 == 1
  }

  /** Multiplication by x modulo the polynomial: one zero bit through the shift register. */
  function Step(c: bv32): bv32 {
    if Odd(c) then Add(POLY, Half(c)) else Half(c)
  }

  /** `n` zero bits through the shift register. */
  function Steps(c: bv32, n: nat): bv32
    decreases n
  {
    if n == 0 then c else Steps(Step(c), n - 1)
  }

  lemma AddComm(a: bv32, b: bv32)
    ensures Add(a, b) == Add(b, a)
  {
  }

  lemma AddAssoc(a: bv32, b: bv32, c: bv32)
    ensures Add(Add(a, b), c) == Add(a, Add(b, c))
  {
  }

  lemma AddZero(a: bv32)
    ensures Add(a, 0) == a && Add(0, a) == a && Add(a, a) == 0
  {
  }

  lemma AddCancels(a: bv32, b: bv32, c: bv32)
    requires Add(a, c) == Add(b, c)
    ensures a == b
  {
  }

  lemma OddAdd(a: bv32, b: bv32)
    ensures Odd(Add(a, b)) == (Odd(a) != Odd(b))
  {
  }

  lemma HalfAdd(a: bv32, b: bv32)
    ensures Half(Add(a, b)) == Add(Half(a), Half(b))
  {
  }

  lemma DoubleAdd(a: bv32, b: bv32)
    ensures Double(Add(a, b)) == Add(Double(a), Double(b))
  {
  }

  /** The shift register is linear. */
  lemma StepAdd(a: bv32, b: bv32)
    ensures Step(Add(a, b)) == Add(Step(a), Step(b))
  {
    hide Add, Half, Odd;
    var p, x, y := POLY, Half(a), Half(b);
    OddAdd(a, b);
    HalfAdd(a, b);
    // both odd
    AddAssoc(p, x, Add(p, y));
    AddAssoc(x, p, y);
    AddComm(x, p);
    AddAssoc(p, x, y);
    AddAssoc(p, p, Add(x, y));
    AddZero(p);
    AddZero(Add(x, y));
  }

  lemma {:induction false} StepsAdd(a: bv32, b: bv32, n: nat)
    ensures Steps(Add(a, b), n) == Add(Steps(a, n), Steps(b, n))
    decreases n
  {
    hide Add, Step;
    if n > 0 {
      StepAdd(a, b);
      StepsAdd(Step(a), Step(b), n - 1);
    }
  }

  lemma {:induction false} StepsCompose(c: bv32, m: nat, n: nat)
    ensures Steps(Steps(c, m), n) == Steps(c, m + n)
    decreases m
  {
    hide Step;
    if m > 0 {
      StepsCompose(Step(c), m - 1, n);
    }
  }

  lemma {:induction false} StepsZero(n: nat)
    ensures Steps(0, n) == 0
  {
    if n > 0 {
      assert Step(0) == 0;
      StepsZero(n - 1);
    }
  }

  lemma StepInjective(a: bv32, b: bv32)
    requires Step(a) == Step(b)
    ensures a == b
  {
  }

  /** The shift register is a bijection: no two registers become the same. */
  lemma {:induction false} StepsInjective(a: bv32, b: bv32, n: nat)
    requires Steps(a, n) == Steps(b, n)
    ensures a == b
    decreases n
  {
    hide Step;
    if n > 0 {
      StepsInjective(Step(a), Step(b), n - 1);
      StepInjective(a, b);
    }
  }

  lemma Unroll8(c: bv32)
    ensures Steps(c, 8) == Step(Step(Step(Step(Step(Step(Step(Step(c))))))))
  {
    hide Step;
    assert Steps(c, 8) == Steps(Step(Step(Step(Step(c)))), 4);
  }

  /** A register whose low byte is zero is only shifted. */
  lemma ZeroByteShifts(c: bv32)
    requires c & 0xff == 0
    ensures Steps(c, 8) == c >> 8
  {
    assert !Odd(c) && !Odd(c >> 1) && !Odd(c >> 2) && !Odd(c >> 3);
    assert !Odd(c >> 4) && !Odd(c >> 5) && !Odd(c >> 6) && !Odd(c >> 7);
    assert Half(c) == c >> 1 && Half(c >> 1) == c >> 2 && Half(c >> 2) == c >> 3 && Half(c >> 3) == c >> 4;
    assert Half(c >> 4) == c >> 5 && Half(c >> 5) == c >> 6 && Half(c >> 6) == c >> 7 && Half(c >> 7) == c >> 8;
    Unroll8(c);
  }

  /** One byte through the register by way of its low byte alone: why one table look-up does eight bits. */
  lemma ByteSplits(c: bv32)
    ensures Steps(c, 8) == Add(Steps(c & 0xff, 8), c >> 8)
  {
    hide Add, Step;
    var low, rest := c & 0xff, c & 0xffffff00;
    LowAndRest(c);
    StepsAdd(low, rest, 8);
    ZeroByteShifts(rest);
  }

  lemma LowAndRest(c: bv32)
    ensures c == Add(c & 0xff, c & 0xffffff00)
    ensures (c & 0xffffff00) & 0xff == 0 && (c & 0xffffff00) >> 8 == c >> 8
  {
  }

  // Matrices: 32 columns, column i is the image of the register with bit i set.

  function Unit(i: nat): bv32 {
    if i == 0 then 1 else Double(Unit(i - 1))
  }

  /** gf2_matrix_times. */
  function MatVec(mat: seq<bv32>, vec: bv32): bv32
    decreases |mat|
  {
    if mat == [] then 0
    else Add(if Odd(vec) then mat[0] else 0, MatVec(mat[1..], Half(vec)))
  }

  /** The matrix is the operator of `n` zero bits. */
  ghost predicate Operator(mat: seq<bv32>, n: nat) {
    |mat| == 32 && forall i :: 0 <= i < 32 ==> mat[i] == Steps(Unit(i), n)
  }

  /** A word put together from its bits, starting with unit `u`. */
  function Spread(v: bv32, u: bv32, len: nat): bv32
    decreases len
  {
    if len == 0 then 0 else Add(if Odd(v) then u else 0, Spread(Half(v), Double(u), len - 1))
  }

  /** The word has no bits from `len` on. */
  predicate Fits(v: bv32, len: nat) {
    if len == 0 then v == 0 else Fits(Half(v), len - 1)
  }

  lemma DoubleZero()
    ensures Double(0) == 0
  {
  }

  lemma {:induction false} SpreadDoubles(v: bv32, u: bv32, len: nat)
    ensures Spread(v, Double(u), len) == Double(Spread(v, u, len))
    decreases len
  {
    hide Add, Double, Half, Odd;
    DoubleZero();
    if len > 0 {
      SpreadDoubles(Half(v), Double(u), len - 1);
      DoubleAdd(if Odd(v) then u else 0, Spread(Half(v), Double(u), len - 1));
    }
  }

  lemma BitAndRest(v: bv32)
    ensures Add(if Odd(v) then 1 else 0, Double(Half(v))) == v
  {
  }

  lemma {:induction false} SpreadIsIdentity(v: bv32, len: nat)
    requires Fits(v, len)
    ensures Spread(v, 1, len) == v
    decreases len
  {
    hide Add, Double, Half, Odd;
    if len > 0 {
      SpreadIsIdentity(Half(v), len - 1);
      SpreadDoubles(Half(v), 1, len - 1);
      BitAndRest(v);
    }
  }

  lemma Halves8(v: bv32)
    ensures Half(Half(Half(Half(Half(Half(Half(Half(v)))))))) == v >> 8
  {
  }

  lemma Doubles8(v: bv32)
    ensures Double(Double(Double(Double(Double(Double(Double(Double(v)))))))) == v << 8
  {
  }

  lemma FitsByte(v: bv32, len: nat)
    requires len >= 8
    ensures Fits(v, len) == Fits(v >> 8, len - 8)
  {
    hide Half;
    Halves8(v);
    var h2 := Half(Half(v));
    var h4 := Half(Half(h2));
    var h6 := Half(Half(h4));
    assert Fits(v, len) == Fits(Half(v), len - 1) == Fits(h2, len - 2);
    assert Fits(h2, len - 2) == Fits(Half(h2), len - 3) == Fits(h4, len - 4);
    assert Fits(h4, len - 4) == Fits(Half(h4), len - 5) == Fits(h6, len - 6);
    assert Fits(h6, len - 6) == Fits(Half(h6), len - 7) == Fits(Half(Half(h6)), len - 8);
  }

  lemma ShiftedOut(v: bv32)
    ensures v >> 8 >> 8 >> 8 >> 8 == 0
  {
  }

  lemma EveryWordFits(v: bv32)
    ensures Fits(v, 32)
  {
    hide Half;
    var v1 := v >> 8;
    var v2 := v1 >> 8;
    var v3 := v2 >> 8;
    FitsByte(v, 32);
    FitsByte(v1, 24);
    FitsByte(v2, 16);
    FitsByte(v3, 8);
    ShiftedOut(v);
  }

  lemma UnitByte(i: nat)
    ensures Unit(i + 8) == Unit(i) << 8
  {
    hide Double;
    Doubles8(Unit(i));
    assert Unit(i + 4) == Double(Double(Double(Double(Unit(i))))) by { assert Unit(i + 2) == Double(Double(Unit(i))); }
    assert Unit(i + 6) == Double(Double(Unit(i + 4)));
  }

  lemma UnitValues()
    ensures Unit(0) == 1 && Unit(1) == 2 && Unit(2) == 4 && Unit(3) == 8
    ensures Unit(4) == 16 && Unit(5) == 32 && Unit(6) == 64 && Unit(7) == 128
  {
    assert Unit(2) == 4;
    assert Unit(4) == 16;
    assert Unit(6) == 64;
  }

  lemma UnitBelowTop(i: nat)
    requires i <= 30
    ensures Unit(i) <= 0x40000000
  {
    UnitValues();
    if i >= 8 { UnitByte(i - 8); }
    if i >= 16 { UnitByte(i - 16); }
    if i >= 24 { UnitByte(i - 24); }
    var r := if i >= 24 then i - 24 else if i >= 16 then i - 16 else if i >= 8 then i - 8 else i;
    assert Unit(r) <= 128 && (i >= 24 ==> Unit(r) <= 64);
  }

  /** The operator of one zero bit moves unit `i` to unit `i - 1`. */
  lemma StepUnit(i: nat)
    requires 1 <= i <= 31
    ensures Step(Unit(i)) == Unit(i - 1)
  {
    UnitBelowTop(i - 1);
    DoubleThenStep(Unit(i - 1));
  }

  lemma DoubleThenStep(u: bv32)
    requires u <= 0x40000000
    ensures Step(Double(u)) == u
  {
  }

  lemma {:induction false} ColumnsSum(mat: seq<bv32>, v: bv32, i: nat, n: nat)
    requires Operator(mat, n) && i <= 32
    ensures MatVec(mat[i..], v) == Steps(Spread(v, Unit(i), 32 - i), n)
    decreases 32 - i
  {
    hide Add, Odd, Half, Double, Step;
    if i == 32 {
      StepsZero(n);
    } else {
      var u := if Odd(v) then Unit(i) else 0;
      assert mat[i..][1..] == mat[i + 1..];
      assert Unit(i + 1) == Double(Unit(i));
      ColumnsSum(mat, Half(v), i + 1, n);
      StepsAdd(u, Spread(Half(v), Unit(i + 1), 32 - i - 1), n);
      StepsZero(n);
    }
  }

  /** A matrix whose columns are the images of the units is the operator, on every register. */
  lemma OperatorApplies(mat: seq<bv32>, v: bv32, n: nat)
    requires Operator(mat, n)
    ensures MatVec(mat, v) == Steps(v, n)
  {
    hide Add, Odd, Half, Double, Step;
    assert mat[0..] == mat;
    ColumnsSum(mat, v, 0, n);
    EveryWordFits(v);
    SpreadIsIdentity(v, 32);
  }
}
