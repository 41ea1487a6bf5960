/** Adler-32: deferred reduction against the sums of section 8.2 of RFC 1950, and the combination of two sums. */
module Adler32 {
  import opened Common

  const BASE := 65521
  const NMAX := 5552

  /** `unsigned long`, 32 bits wide: every value stored in one is proved to fit. */
  type word = x: int | 0 <= x < 0x1_0000_0000

  // The reference.

  function Sum1(a: nat, buf: seq<byte>): nat {
    if buf == [] then a else Sum1(a, buf[..|buf| - 1]) + buf[|buf| - 1]
  }

  function Sum2(a: nat, b: nat, buf: seq<byte>): nat {
    if buf == [] then b else Sum2(a, b, buf[..|buf| - 1]) + Sum1(a, buf)
  }

  /** The two halves of a checksum. */
  function Low(adler: nat): nat {
    adler % 65536
  }

  function High(adler: nat): nat {
    adler / 65536 % 65536
  }

  function Join(s1: nat, s2: nat): nat
    requires s1 < 65536
  {
    s1 + 65536 * s2
  }

  /** The running checksum: both sums modulo 65521, taken once at the end. */
  function Adler(adler: nat, buf: seq<byte>): (r: nat)
  {
    Join(Sum1(Low(adler), buf) % BASE, Sum2(Low(adler), High(adler), buf) % BASE)
  }

  /** Section 8.2 of RFC 1950 word for word: both sums are reduced after every byte. */
  function Rfc1950(s1: nat, s2: nat, buf: seq<byte>): (nat, nat) {
    if buf == [] then (s1 % BASE, s2 % BASE)
    else
      var (t1, t2) := Rfc1950(s1, s2, buf[..|buf| - 1]);
      var u1 := (t1 + buf[|buf| - 1]) % BASE;
      (u1, (t2 + u1) % BASE)
  }

  lemma ModAdds(a: int, b: int, c: int, d: int)
    requires a % BASE == c % BASE && b % BASE == d % BASE
    ensures (a + b) % BASE == (c + d) % BASE
  {
  }

  lemma ModShifts(x: int, k: int)
    ensures (x + BASE * k) % BASE == x % BASE
  {
  }

  lemma MulMonotone(x: nat, y: nat, x': nat, y': nat)
    requires x <= x' && y <= y'
    ensures x * y <= x' * y'
  {
    assert x' * y' == x * y + x * (y' - y) + (x' - x) * y';
  }

  /** Reducing once at the end is the same as reducing after every byte. */
  lemma {:induction false} DeferredReduction(s1: nat, s2: nat, buf: seq<byte>)
    ensures Rfc1950(s1, s2, buf) == (Sum1(s1, buf) % BASE, Sum2(s1, s2, buf) % BASE)
    decreases |buf|
  {
    if buf != [] {
      var front, b := buf[..|buf| - 1], buf[|buf| - 1];
      DeferredReduction(s1, s2, front);
      ModAdds(Sum1(s1, front) % BASE, b, Sum1(s1, front), b);
      ModAdds(Sum2(s1, s2, front) % BASE, Sum1(s1, buf) % BASE, Sum2(s1, s2, front), Sum1(s1, buf));
    }
  }

  // Division-free reduction.

  /** CHOP: 65536 is 15 modulo 65521. */
  function Chop(a: nat): (r: nat)
    ensures r % BASE == a % BASE
  {
    ModShifts(a % 65536 + 15 * (a / 65536), a / 65536);
    a % 65536 + 15 * (a / 65536)
  }

  function OneSubtraction(a: nat): nat {
    if a >= BASE then a - BASE else a
  }

  /** MOD28. */
  function Mod28(a: nat): (r: nat)
    ensures a < 0x1000_0000 ==> r == a % BASE
  {
    OneSubtraction(Chop(a))
  }

  /** MOD. */
  function Mod(a: nat): (r: nat)
    ensures a < 0x1_0000_0000 ==> r == a % BASE
  {
    Mod28(Chop(a))
  }

  /** First step of MOD63: 65536 squared is 225 modulo 65521. */
  function Fold32(a: nat): (r: nat)
    ensures r % BASE == a % BASE
  {
    var tmp := a / 0x1_0000_0000;
    ModShifts(a % 0x1_0000_0000 + 225 * tmp, 65551 * tmp);
    a % 0x1_0000_0000 + (256 * tmp - 32 * tmp + tmp)
  }

  /** MOD63. */
  function Mod63(a: nat): nat {
    OneSubtraction(Chop(Chop(Fold32(a))))
  }

  lemma Mod63Bounds(a: nat)
    requires a < 0x8000_0000_0000_0000
    ensures Chop(Chop(Fold32(a))) < 2 * BASE
  {
    assert Fold32(a) < 0x100_0000_0000;
    assert Chop(Fold32(a)) < 0x1000_0000;
  }

  /** The three folds of MOD63 leave at most one subtraction for every non-negative 64-bit length. */
  lemma Mod63IsMod(a: nat)
    requires a < 0x8000_0000_0000_0000
    ensures Mod63(a) == a % BASE
  {
    hide Fold32, Chop;
    Mod63Bounds(a);
    var z := Chop(Chop(Fold32(a)));
    assert z % BASE == a % BASE;
  }

  function Reduce(a: nat, noDivide: bool): (r: nat)
    ensures a < 0x1_0000_0000 ==> r == a % BASE
  {
    if noDivide then Mod(a) else a % BASE
  }

  function Reduce28(a: nat, noDivide: bool): (r: nat)
    ensures a < 0x1000_0000 ==> r == a % BASE
  {
    if noDivide then Mod28(a) else a % BASE
  }

  // How large the sums can get.

  lemma {:induction false} SumBounds(a: nat, b: nat, buf: seq<byte>)
    ensures Sum1(a, buf) <= a + 255 * |buf|
    ensures 2 * Sum2(a, b, buf) <= 2 * b + 2 * |buf| * a + 255 * |buf| * (|buf| + 1)
    decreases |buf|
  {
    if buf != [] {
      SumBounds(a, b, buf[..|buf| - 1]);
      var n := |buf|;
      assert 2 * (n - 1) * a + 2 * a == 2 * n * a;
      assert 255 * (n - 1) * n + 2 * 255 * n == 255 * n * (n + 1);
    }
  }

  /** `n` bytes of 255, the run with the largest sums. */
  function Full(n: nat): seq<byte> {
    seq(n, _ => 255)
  }

  lemma {:induction false} FullSums(a: nat, b: nat, n: nat)
    ensures Sum1(a, Full(n)) == a + 255 * n && 2 * Sum2(a, b, Full(n)) == 2 * b + 2 * n * a + 255 * n * (n + 1)
    decreases n
  {
    if n > 0 {
      FullSums(a, b, n - 1);
      assert Full(n)[..n - 1] == Full(n - 1);
      OneMoreFull(a, n);
    }
  }

  lemma OneMoreFull(a: nat, n: nat)
    requires n > 0
    ensures 2 * (n - 1) * a + 255 * (n - 1) * n + 2 * (a + 255 * n) == 2 * n * a + 255 * n * (n + 1)
  {
    assert 2 * (n - 1) * a + 2 * a == 2 * n * a;
    assert 255 * (n - 1) * n + 2 * 255 * n == 255 * n * (n + 1);
  }

  /** From reduced values the second accumulator can leave 32 bits exactly when the run is longer than NMAX. */
  lemma NmaxIsLargest(n: nat)
    ensures Sum2(BASE - 1, BASE - 1, Full(n)) <= 0xffff_ffff <==> n <= NMAX
  {
    hide Sum2, Full;
    FullSums(BASE - 1, BASE - 1, n);
    FullProduct(n);
  }

  lemma FullProduct(n: nat)
    ensures 2 * (BASE - 1) + 2 * n * (BASE - 1) + 255 * n * (n + 1) <= 2 * 0xffff_ffff + 1 <==> n <= NMAX
  {
    if n <= NMAX {
      MulMonotone(n, n + 1, NMAX, NMAX + 1);
    } else {
      MulMonotone(NMAX + 1, NMAX + 2, n, n + 1);
    }
    assert 255 * n * (n + 1) == 255 * (n * (n + 1));
  }

  /** Within a block both accumulators fit, even from starting values that are not reduced. */
  lemma BlockFits(a: nat, b: nat, buf: seq<byte>)
    requires a < 65536 && b < 65536 && |buf| <= NMAX
    ensures Sum1(a, buf) < 0x1_0000_0000 && Sum2(a, b, buf) < 0x1_0000_0000
  {
    SumBounds(a, b, buf);
    var n := |buf|;
    MulMonotone(n, a, NMAX, 65535);
    MulMonotone(n, n + 1, NMAX, NMAX + 1);
    assert 2 * n * a == 2 * (n * a) && 255 * n * (n + 1) == 255 * (n * (n + 1));
  }

  /** Reducing the start of a run does not change the sums modulo 65521. */
  lemma {:induction false} StartReduced(a: nat, b: nat, buf: seq<byte>)
    ensures Sum1(a % BASE, buf) % BASE == Sum1(a, buf) % BASE
    ensures Sum2(a % BASE, b % BASE, buf) % BASE == Sum2(a, b, buf) % BASE
    decreases |buf|
  {
    if buf != [] {
      var front, c := buf[..|buf| - 1], buf[|buf| - 1];
      StartReduced(a, b, front);
      ModAdds(Sum1(a % BASE, front), c, Sum1(a, front), c);
      ModAdds(Sum2(a % BASE, b % BASE, front), Sum1(a % BASE, buf), Sum2(a, b, front), Sum1(a, buf));
    }
  }

  lemma {:induction false} SumsConcat(a: nat, b: nat, x: seq<byte>, y: seq<byte>)
    ensures Sum1(a, x + y) == Sum1(Sum1(a, x), y)
    ensures Sum2(a, b, x + y) == Sum2(Sum1(a, x), Sum2(a, b, x), y)
    decreases |y|
  {
    if y == [] {
      assert x + y == x;
    } else {
      SumsConcat(a, b, x, y[..|y| - 1]);
      assert (x + y)[..|x + y| - 1] == x + y[..|y| - 1];
    }
  }

  /** The sums of `x`, reduced, carried on over `y`. */
  lemma SumsContinue(a: nat, b: nat, x: seq<byte>, y: seq<byte>)
    ensures Sum1(Sum1(a, x) % BASE, y) % BASE == Sum1(a, x + y) % BASE
    ensures Sum2(Sum1(a, x) % BASE, Sum2(a, b, x) % BASE, y) % BASE == Sum2(a, b, x + y) % BASE
  {
    SumsConcat(a, b, x, y);
    StartReduced(Sum1(a, x), Sum2(a, b, x), y);
  }

  lemma OneMore(a: nat, b: nat, buf: seq<byte>, from: nat, i: nat)
    requires from <= i < |buf|
    ensures Sum1(a, buf[from..i + 1]) == Sum1(a, buf[from..i]) + buf[i]
    ensures Sum2(a, b, buf[from..i + 1]) == Sum2(a, b, buf[from..i]) + Sum1(a, buf[from..i + 1])
  {
    assert buf[from..i + 1][..i - from] == buf[from..i];
  }

  /** DO1, `n` times. From a block start with halves of 16 bits the accumulators stay within 32 bits. */
  method DoBytes(buf: array<byte>, ghost from: nat, i0: nat, n: nat, ghost a: nat, ghost b: nat, adler0: word, sum0: word)
    returns (adler: word, sum2: word)
    requires from <= i0 && i0 + n <= buf.Length && i0 + n - from <= NMAX
    requires a < 65536 && b < 65536
    requires adler0 == Sum1(a, buf[from..i0]) && sum0 == Sum2(a, b, buf[from..i0])
    ensures adler == Sum1(a, buf[from..i0 + n]) && sum2 == Sum2(a, b, buf[from..i0 + n])
  {
    adler, sum2 := adler0, sum0;
    for k := 0 to n
      invariant adler == Sum1(a, buf[from..i0 + k]) && sum2 == Sum2(a, b, buf[from..i0 + k])
    {
      OneMore(a, b, buf[..], from, i0 + k);
      BlockFits(a, b, buf[from..i0 + k + 1]);
      assert buf[..][from..i0 + k + 1] == buf[from..i0 + k + 1] && buf[..][from..i0 + k] == buf[from..i0 + k];
      adler := adler + buf[i0 + k];
      sum2 := sum2 + adler;
    }
  }

  /** The sums over `buf[..i]`, reduced at least modulo 65521; they start from halves that need not be. */
  ghost predicate Running(adler: nat, sum2: nat, a: nat, b: nat, buf: seq<byte>) {
    && adler < 65536 && sum2 < 65536
    && adler % BASE == Sum1(a, buf) % BASE && sum2 % BASE == Sum2(a, b, buf) % BASE
    && (buf != [] ==> adler < BASE && sum2 < BASE)
  }

  lemma RunningOn(adler: nat, sum2: nat, a: nat, b: nat, buf: seq<byte>, i: nat, j: nat)
    requires i < j <= |buf| && Running(adler, sum2, a, b, buf[..i])
    ensures Running(Sum1(adler, buf[i..j]) % BASE, Sum2(adler, sum2, buf[i..j]) % BASE, a, b, buf[..j])
  {
    hide Sum1, Sum2;
    StartReduced(adler, sum2, buf[i..j]);
    SumsContinue(a, b, buf[..i], buf[i..j]);
    assert buf[..i] + buf[i..j] == buf[..j];
  }

  lemma OneByteSums(a: nat, b: nat, buf: seq<byte>)
    requires |buf| == 1
    ensures Sum1(a, buf) == a + buf[0] && Sum2(a, b, buf) == b + a + buf[0]
  {
    assert buf[..0] == [];
    assert Sum1(a, []) == a && Sum2(a, b, []) == b;
  }

  lemma ShortBounds(a: nat, b: nat, buf: seq<byte>)
    requires a < 65536 && b < 65536 && |buf| < 16
    ensures Sum1(a, buf) < 2 * BASE && Sum2(a, b, buf) < 0x1000_0000
  {
    SumBounds(a, b, buf);
    MulMonotone(|buf|, a, 15, 65535);
    MulMonotone(|buf|, |buf| + 1, 15, 16);
    assert 2 * |buf| * a == 2 * (|buf| * a) && 255 * |buf| * (|buf| + 1) == 255 * (|buf| * (|buf| + 1));
  }

  /** DO16, `n` times. */
  method DoSixteens(buf: array<byte>, ghost from: nat, i0: nat, n: nat, ghost a: nat, ghost b: nat, adler0: word, sum0: word)
    returns (adler: word, sum2: word)
    requires from <= i0 && i0 + 16 * n <= buf.Length && i0 + 16 * n - from <= NMAX
    requires a < 65536 && b < 65536
    requires adler0 == Sum1(a, buf[from..i0]) && sum0 == Sum2(a, b, buf[from..i0])
    ensures adler == Sum1(a, buf[from..i0 + 16 * n]) && sum2 == Sum2(a, b, buf[from..i0 + 16 * n])
  {
    adler, sum2 := adler0, sum0;
    for k := 0 to n
      invariant adler == Sum1(a, buf[from..i0 + 16 * k]) && sum2 == Sum2(a, b, buf[from..i0 + 16 * k])
    {
      adler, sum2 := DoBytes(buf, from, i0 + 16 * k, 16, a, b, adler, sum2);
    }
  }

  /** A run of at most NMAX bytes, sixteen at a time and then one by one, and the reductions behind it. */
  method ReducedRun(buf: array<byte>, i: nat, len: nat, adler0: word, sum0: word, noDivide: bool, ghost a: nat, ghost b: nat)
    returns (adler: word, sum2: word)
    requires 1 <= len <= NMAX && i + len <= buf.Length
    requires Running(adler0, sum0, a, b, buf[..i])
    ensures Running(adler, sum2, a, b, buf[..i + len])
  {
    hide Sum1, Sum2, Chop;
    NothingYet(adler0, sum0, buf[i..i]);
    var n := len / 16;
    adler, sum2 := DoSixteens(buf, i, i, n, adler0, sum0, adler0, sum0);
    adler, sum2 := DoBytes(buf, i, i + 16 * n, len - 16 * n, adler0, sum0, adler, sum2);
    adler, sum2 := Reduce(adler, noDivide), Reduce(sum2, noDivide);
    ghost var s: seq<byte> := buf[..];
    assert s[..i] == buf[..i] && s[i..i + len] == buf[i..i + len] && s[..i + len] == buf[..i + len];
    RunningOn(adler0, sum0, a, b, s, i, i + len);
  }

  /** The loops of adler32_z for sixteen bytes and more: full blocks of NMAX bytes, then what remains. */
  method LongSums(buf: array<byte>, len0: nat, a: word, b: word, noDivide: bool) returns (adler: word, sum2: word)
    requires 16 <= len0 <= buf.Length && a < 65536 && b < 65536
    ensures adler == Sum1(a, buf[..len0]) % BASE && sum2 == Sum2(a, b, buf[..len0]) % BASE
  {
    hide Sum1, Sum2;
    adler, sum2 := a, b;
    var i: nat, len: nat := 0, len0;
    NothingYet(a, b, buf[..0]);
    while len >= NMAX
      invariant i + len == len0 && Running(adler, sum2, a, b, buf[..i])
    {
      adler, sum2 := ReducedRun(buf, i, NMAX, adler, sum2, noDivide, a, b);
      i, len := i + NMAX, len - NMAX;
    }
    if len > 0 {
      adler, sum2 := ReducedRun(buf, i, len, adler, sum2, noDivide, a, b);
    }
  }

  lemma NothingYet(a: nat, b: nat, buf: seq<byte>)
    requires buf == []
    ensures Sum1(a, buf) == a && Sum2(a, b, buf) == b
  {
  }

  /** The path of adler32_z for a single byte, with one subtraction for each sum. */
  method OneByteSum(start: word, c: byte) returns (r: word)
    ensures r == Adler(start, [c]) <==> High(start) + (Low(start) + c) % BASE < 2 * BASE
  {
    var sum2: word, adler: word := High(start), Low(start);
    adler := adler + c;
    if adler >= BASE { adler := adler - BASE; }
    sum2 := sum2 + adler;
    if sum2 >= BASE { sum2 := sum2 - BASE; }
    OneByteSums(Low(start), High(start), [c]);
    OneByteExact(Low(start) + c, High(start), adler, sum2);
    r := Join(adler, sum2);
  }

  /** From 0xfffffff0 a byte of 0 gives a second half of 65534, which is not reduced. */
  method OneByteUnreduced() returns (r: word)
    ensures r != Adler(0xffff_fff0, [0])
  {
    r := OneByteSum(0xffff_fff0, 0);
  }

  lemma OneByteExact(a: nat, b: nat, adler: nat, sum2: nat)
    requires a < 2 * BASE && b < 65536 && adler == OneSubtraction(a) && sum2 == OneSubtraction(b + adler)
    ensures adler == a % BASE
    ensures Join(adler, sum2) == Join(a % BASE, (b + a) % BASE) <==> b + a % BASE < 2 * BASE
  {
    ModAdds(b, a % BASE, b, a);
  }

  /** The path of adler32_z for fewer than sixteen bytes: one subtraction is enough for the first sum. */
  method ShortSums(buf: array<byte>, len: nat, a: word, b: word, noDivide: bool) returns (adler: word, sum2: word)
    requires len < 16 && len <= buf.Length && a < 65536 && b < 65536
    ensures adler == Sum1(a, buf[..len]) % BASE && sum2 == Sum2(a, b, buf[..len]) % BASE
  {
    hide Sum1, Sum2, Chop;
    NothingYet(a, b, buf[0..0]);
    ShortBounds(a, b, buf[..len]);
    assert buf[0..len] == buf[..len];
    adler, sum2 := DoBytes(buf, 0, 0, len, a, b, a, b);
    if adler >= BASE { adler := adler - BASE; }
    sum2 := Reduce28(sum2, noDivide);
  }

  /** adler32_z. The checksum is that of the reference for every length and every starting value, except that the
      one-byte path subtracts only once: from a second half that was not reduced it can come out not reduced. */
  method Adler32Z(start: word, buf: array?<byte>, len: nat, noDivide: bool) returns (r: word)
    requires if buf == null then len != 1 else len <= buf.Length
    ensures buf == null ==> r == 1
    ensures buf != null && len != 1 ==> r == Adler(start, buf[..len])
    ensures buf != null && len == 1 ==>
      (r == Adler(start, buf[..len]) <==> High(start) + (Low(start) + buf[0]) % BASE < 2 * BASE)
  {
    hide Sum1, Sum2, Chop;
    var sum2: word, adler: word := High(start), Low(start);
    if len == 1 {
      assert buf[..1] == [buf[0]];
      r := OneByteSum(start, buf[0]);
      return;
    }
    if buf == null { return 1; }
    if len < 16 {
      adler, sum2 := ShortSums(buf, len, adler, sum2, noDivide);
    } else {
      adler, sum2 := LongSums(buf, len, adler, sum2, noDivide);
    }
    r := Join(adler, sum2);
  }

  // Combining.

  lemma {:induction false} SumsShift(a: nat, b: nat, buf: seq<byte>)
    ensures Sum1(a, buf) == a + Sum1(0, buf)
    ensures Sum2(a, b, buf) == b + |buf| * a + Sum2(0, 0, buf)
    decreases |buf|
  {
    if buf != [] {
      var front := buf[..|buf| - 1];
      SumsShift(a, b, front);
      assert |buf| * a == |front| * a + a;
    }
  }

  /** The sums of a concatenation from the sums of its parts, each begun at 1 and 0. */
  lemma SumsOfConcatenation(x: seq<byte>, y: seq<byte>)
    ensures Sum1(1, x + y) == Sum1(1, x) + Sum1(1, y) - 1
    ensures Sum2(1, 0, x + y) == Sum2(1, 0, x) + Sum2(1, 0, y) + |y| * (Sum1(1, x) - 1)
  {
    hide Sum1, Sum2;
    SumsConcat(1, 0, x, y);
    SumsShift(Sum1(1, x), Sum2(1, 0, x), y);
    SumsShift(1, 0, y);
    LessOne(|y|, Sum1(1, x));
  }

  lemma ModMultiplies(a: nat, b: nat)
    ensures (a % BASE) * (b % BASE) % BASE == a * b % BASE
  {
    var q, r, s, t := a / BASE, a % BASE, b / BASE, b % BASE;
    var k := q * b + r * s;
    assert a * b == r * t + BASE * k by {
      assert a == BASE * q + r && b == BASE * s + t;
      assert a * b == BASE * q * b + r * b;
      assert r * b == r * (BASE * s) + r * t;
      assert BASE * q * b == BASE * (q * b) && r * (BASE * s) == BASE * (r * s);
    }
    ModShifts(r * t, k);
  }

  lemma SubtractionsSuffice(t: nat)
    ensures t < 3 * BASE ==> OneSubtraction(OneSubtraction(t)) == t % BASE
    ensures t < 4 * BASE ==> OneSubtraction(if t >= 2 * BASE then t - 2 * BASE else t) == t % BASE
  {
  }

  /** `s1 | (s2 << 16)` in 32 bits, for an `s1` of at most 17. */
  function OrJoin(s1: nat, s2: nat): (r: word)
    requires s1 < 0x2_0000
    ensures r % 65536 == s1 % 65536 && (s1 < 65536 ==> r == Join(s1, s2 % 65536))
  {
    var high := s2 % 65536;
    if s1 < 65536 then s1 + 65536 * high else s1 - 65536 + 65536 * (high - high % 2 + 1)
  }

  /** The four conditional subtractions that end adler32_combine_: they suffice exactly below these multiples. */
  method FinalSubtractions(sum10: word, sum20: word) returns (r: word)
    requires sum10 < 3 * BASE + 30 && sum20 < 4 * BASE + 30
    ensures r == Join(sum10 % BASE, sum20 % BASE) <==> sum10 < 3 * BASE && sum20 < 4 * BASE
  {
    hide OrJoin, Join;
    var sum1, sum2 := sum10, sum20;
    SubtractionsSuffice(sum1);
    SubtractionsSuffice(sum2);
    if sum1 >= BASE { sum1 := sum1 - BASE; }
    if sum1 >= BASE { sum1 := sum1 - BASE; }
    if sum2 >= 2 * BASE { sum2 := sum2 - 2 * BASE; }
    if sum2 >= BASE { sum2 := sum2 - BASE; }
    r := OrJoin(sum1, sum2);
    JoinIsExact(sum10, sum20, sum1, sum2);
  }

  /** What is left above BASE after the subtractions spoils the half it is in. */
  lemma JoinIsExact(sum10: nat, sum20: nat, sum1: nat, sum2: nat)
    requires sum1 == if sum10 < 3 * BASE then sum10 % BASE else sum10 - 2 * BASE
    requires sum2 == if sum20 < 4 * BASE then sum20 % BASE else sum20 - 3 * BASE
    requires sum10 < 3 * BASE + 30 && sum20 < 4 * BASE + 30
    ensures OrJoin(sum1, sum2) == Join(sum10 % BASE, sum20 % BASE) <==> sum10 < 3 * BASE && sum20 < 4 * BASE
  {
    JoinHalves(sum10 % BASE, sum20 % BASE);
    if sum1 < 65536 {
      JoinHalves(sum1, sum2 % 65536);
      if sum20 >= 4 * BASE { HighSpoiled(sum20, sum2); }
    }
    if sum10 >= 3 * BASE { LowSpoiled(sum10, sum1); }
  }

  lemma HighSpoiled(sum20: nat, sum2: nat)
    requires sum2 == sum20 - 3 * BASE && sum20 < 4 * BASE + 30
    ensures sum20 >= 4 * BASE ==> sum2 % 65536 != sum20 % BASE
  {
  }

  lemma LowSpoiled(sum10: nat, sum1: nat)
    requires sum1 == sum10 - 2 * BASE && sum10 < 3 * BASE + 30
    ensures sum10 >= 3 * BASE ==> sum1 % 65536 != sum10 % BASE
  {
  }

  lemma JoinHalves(s1: nat, s2: nat)
    requires s1 < 65536 && s2 < 65536
    ensures Join(s1, s2) % 65536 == s1 && Join(s1, s2) / 65536 == s2
  {
  }

  /** The halves are such that the conditional subtractions of adler32_combine_ reduce the sums; reduced halves always are. */
  predicate Combinable(adler1: word, adler2: word, len2: nat) {
    var rem := len2 % BASE;
    && Low(adler1) + Low(adler2) <= 2 * BASE
    && rem * Low(adler1) % BASE + High(adler1) + High(adler2) - rem < 3 * BASE
  }

  lemma ReducedCombine(adler1: word, adler2: word, len2: nat)
    requires Low(adler1) < BASE && High(adler1) < BASE && Low(adler2) < BASE && High(adler2) < BASE
    ensures Combinable(adler1, adler2, len2)
  {
    var rem, low := len2 % BASE, Low(adler1);
    ModBounds(rem * low);
    if rem == 0 {
      assert rem * low == 0;
    }
  }

  /** Halves of 65535 are not: their sum needs three subtractions. */
  lemma UnreducedCombine()
    ensures !Combinable(0xffff, 0xffff, 0)
  {
  }

  lemma ModBounds(x: nat)
    ensures 0 <= x % BASE < BASE
  {
  }

  lemma HalvesFit(adler: nat)
    ensures Low(adler) < 65536 && High(adler) < 65536
  {
  }

  /** adler32_combine_: every intermediate value fits in 32 bits, and the result is right exactly for combinable halves. */
  method Adler32Combine(adler1: word, adler2: word, len2: int, noDivide: bool) returns (r: word)
    requires len2 < 0x8000_0000_0000_0000
    ensures len2 < 0 ==> r == 0xffff_ffff
    ensures len2 >= 0 ==>
      (r == Join((Low(adler1) + Low(adler2) - 1) % BASE,
                 (High(adler1) + High(adler2) + len2 % BASE * (Low(adler1) - 1)) % BASE)
       <==> Combinable(adler1, adler2, len2))
  {
    hide Mod63, Mod, Join, Low, High;
    HalvesFit(adler1);
    HalvesFit(adler2);
    if len2 < 0 { return 0xffff_ffff; }
    if noDivide { Mod63IsMod(len2); }
    var rem: word := if noDivide then Mod63(len2) else len2 % BASE;
    var sum1: word := Low(adler1);
    MulMonotone(rem, sum1, 65520, 65535);
    ghost var product := rem * sum1;
    var sum2: word := rem * sum1;
    sum2 := Reduce(sum2, noDivide);
    sum1 := sum1 + (Low(adler2) + BASE - 1);
    sum2 := sum2 + (High(adler1) + High(adler2) + BASE - rem);
    ModShifts(Low(adler1) + Low(adler2) - 1, 1);
    CombineCongruent(product, High(adler1) + High(adler2), rem);
    LessOne(rem, Low(adler1));
    r := FinalSubtractions(sum1, sum2);
  }

  lemma LessOne(x: int, y: int)
    ensures x * (y - 1) == x * y - x
  {
  }

  lemma CombineCongruent(product: nat, s: int, rem: int)
    ensures (product % BASE + (s + BASE - rem)) % BASE == (s + (product - rem)) % BASE
  {
    ModAdds(product % BASE, s - rem, product, s - rem);
    ModShifts(product % BASE + (s - rem), 1);
  }

  lemma JoinSplits(s1: nat, s2: nat)
    requires s1 < 65536 && s2 < 65536
    ensures Low(Join(s1, s2)) == s1 && High(Join(s1, s2)) == s2
  {
  }

  /** adler32_combine of the checksums of two messages is the checksum of their concatenation. */
  method Adler32CombineMessages(x: seq<byte>, y: seq<byte>, noDivide: bool) returns (r: word)
    requires |y| < 0x8000_0000_0000_0000
    ensures r == Adler(1, x + y)
  {
    hide Sum1, Sum2, Low, High, Join;
    StartIsOne();
    var a1, b1, a2, b2 := Sum1(1, x), Sum2(1, 0, x), Sum1(1, y), Sum2(1, 0, y);
    JoinSplits(a1 % BASE, b1 % BASE);
    JoinSplits(a2 % BASE, b2 % BASE);
    AdlerFits(1, x);
    AdlerFits(1, y);
    SumsShift(1, 0, x);
    ReducedCombine(Adler(1, x), Adler(1, y), |y|);
    r := Adler32Combine(Adler(1, x), Adler(1, y), |y|, noDivide);
    SumsOfConcatenation(x, y);
    CombinedSums(a1, b1, a2, b2, |y|);
  }

  lemma StartIsOne()
    ensures Low(1) == 1 && High(1) == 0
  {
  }

  lemma AdlerFits(adler: nat, buf: seq<byte>)
    ensures Adler(adler, buf) < 0x1_0000_0000
  {
  }

  lemma CombinedSums(a1: nat, b1: nat, a2: nat, b2: nat, n: nat)
    requires a1 >= 1
    ensures (a1 % BASE + a2 % BASE - 1) % BASE == (a1 + a2 - 1) % BASE
    ensures (b1 % BASE + b2 % BASE + n % BASE * (a1 % BASE - 1)) % BASE == (b1 + b2 + n * (a1 - 1)) % BASE
  {
    ModAdds(a1 % BASE, a2 % BASE - 1, a1, a2 - 1);
    ModMultiplies(n, a1);
    var p, q := n % BASE * (a1 % BASE), n * a1;
    LessOne(n % BASE, a1 % BASE);
    LessOne(n, a1);
    CombinedHigh(b1, b2, p, q, n);
  }

  lemma CombinedHigh(b1: nat, b2: nat, p: nat, q: nat, n: nat)
    requires p % BASE == q % BASE
    ensures (b1 % BASE + b2 % BASE + (p - n % BASE)) % BASE == (b1 + b2 + (q - n)) % BASE
  {
    ModAdds(b1 % BASE, b2 % BASE, b1, b2);
    ModAdds(p, 0 - n % BASE, q, 0 - n);
    ModAdds(b1 % BASE + b2 % BASE, p - n % BASE, b1 + b2, q - n);
  }
}
