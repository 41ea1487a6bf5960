/** The table-driven forms of CRC-32 and the combination of two CRCs. */
module Crc32Tables {
  import opened Gf2
  import opened Crc32

  /** ZSWAP32. */
  function Swap(q: bv32): bv32 {
    ((q >> 24) & 0xff) + ((q >> 8) & 0xff00) + ((q & 0xff00) << 8) + ((q & 0xff) << 24)
  }

  function Low8(c: bv32): bv8 {
    (c & 0xff) as bv8
  }

  /** The reference, byte by byte. */
  function CrcBytes(c: bv32, buf: seq<bv8>): bv32 {
    Register(c, MessageBits(buf))
  }

  lemma PackFour(x0: bool, x1: bool, x2: bool, x3: bool, rest: seq<bool>)
    ensures Pack([x0, x1, x2, x3] + rest)
         == Add(BitWord(x0), Double(Add(BitWord(x1), Double(Add(BitWord(x2), Double(Add(BitWord(x3), Double(Pack(rest)))))))))
  {
    hide Add, Double, BitWord;
    var s3, s2, s1, s0 := [x3] + rest, [x2, x3] + rest, [x1, x2, x3] + rest, [x0, x1, x2, x3] + rest;
    assert s3[1..] == rest && s2[1..] == s3 && s1[1..] == s2 && s0[1..] == s1;
    assert Pack(s3) == Add(BitWord(x3), Double(Pack(rest)));
    assert Pack(s2) == Add(BitWord(x2), Double(Pack(s3)));
    assert Pack(s1) == Add(BitWord(x1), Double(Pack(s2)));
    assert Pack(s0) == Add(BitWord(x0), Double(Pack(s1)));
  }

  lemma PackByte(b: bv8)
    ensures Pack(BitsOf(b)) == b as bv32
  {
    hide Add, Double, BitWord, Pack;
    PackEight(b & 1 == 1, b & 2 == 2, b & 4 == 4, b & 8 == 8, b & 16 == 16, b & 32 == 32, b & 64 == 64, b & 128 == 128);
    HornerByte(b);
  }

  lemma PackEight(x0: bool, x1: bool, x2: bool, x3: bool, x4: bool, x5: bool, x6: bool, x7: bool)
    ensures Pack([x0, x1, x2, x3, x4, x5, x6, x7])
         == Add(BitWord(x0), Double(Add(BitWord(x1), Double(Add(BitWord(x2), Double(Add(BitWord(x3), Double(
            Add(BitWord(x4), Double(Add(BitWord(x5), Double(Add(BitWord(x6), Double(Add(BitWord(x7), Double(0))))))))))))))))
  {
    hide Add, Double, BitWord, Pack;
    var high := [x4, x5, x6, x7];
    assert [x0, x1, x2, x3, x4, x5, x6, x7] == [x0, x1, x2, x3] + high && high == high + [];
    PackFour(x0, x1, x2, x3, high);
    PackFour(x4, x5, x6, x7, []);
    PackNothing();
  }

  lemma PackNothing()
    ensures Pack([]) == 0
  {
  }

  lemma HornerByte(b: bv8)
    ensures Add(BitWord(b & 1 == 1), Double(Add(BitWord(b & 2 == 2), Double(Add(BitWord(b & 4 == 4), Double(
            Add(BitWord(b & 8 == 8), Double(Add(BitWord(b & 16 == 16), Double(Add(BitWord(b & 32 == 32), Double(
            Add(BitWord(b & 64 == 64), Double(Add(BitWord(b & 128 == 128), Double(0)))))))))))))))) == b as bv32
  {
  }

  lemma OneByte(c: bv32, b: bv8)
    ensures CrcBytes(c, [b]) == Steps(Add(c, b as bv32), 8)
  {
    hide Add, Pack;
    assert MessageBits([b]) == BitsOf(b) + MessageBits([]) == BitsOf(b);
    RegisterPacked(c, BitsOf(b));
    PackByte(b);
  }

  lemma CrcBytesConcat(c: bv32, a: seq<bv8>, b: seq<bv8>)
    ensures CrcBytes(c, a + b) == CrcBytes(CrcBytes(c, a), b)
  {
    MessageConcat(a, b);
    RegisterConcat(c, MessageBits(a), MessageBits(b));
  }

  function Index(b: bv8): (n: nat)
    ensures n < 256
  {
    b as int
  }

  /** Entry `b` of row `k` is the register after the byte `b` and `k` zero bytes. */
  ghost predicate EntryOk(t: array2<bv32>, k: nat, b: bv8)
    requires k < 4 && t.Length0 == 8 && t.Length1 == 256
    reads t
  {
    t[k, Index(b)] == Steps(b as bv32, 8 * (k + 1))
  }

  /** Row `k + 4` is the byte reversal of row `k`. */
  ghost predicate SwappedOk(t: array2<bv32>, k: nat, b: bv8)
    requires k < 4 && t.Length0 == 8 && t.Length1 == 256
    reads t
  {
    t[k + 4, Index(b)] == Swap(Steps(b as bv32, 8 * (k + 1)))
  }

  ghost predicate TableOk(t: array2<bv32>)
    reads t
  {
    && t.Length0 == 8 && t.Length1 == 256
    && (forall b: bv8, k: nat :: k < 4 ==> EntryOk(t, k, b))
    && (forall b: bv8, k: nat :: k < 4 ==> SwappedOk(t, k, b))
  }

  /** One look-up and a shift take one byte. */
  lemma LookUpTakesByte(c: bv32, b: bv8, entry: bv32)
    requires entry == Steps(Low8(Add(c, b as bv32)) as bv32, 8)
    ensures Add(entry, c >> 8) == CrcBytes(c, [b])
  {
    hide Add, Step, CrcBytes;
    OneByte(c, b);
    var x := Add(c, b as bv32);
    ByteSplits(x);
    ByteDropsOut(c, b);
    LowIsMask(x);
  }

  lemma ByteDropsOut(c: bv32, b: bv8)
    ensures Add(c, b as bv32) >> 8 == c >> 8
  {
  }

  lemma LowIsMask(x: bv32)
    ensures Low8(x) as bv32 == x & 0xff
  {
  }

  /** The word that four bytes form in memory order on a little-endian machine. */
  function LittleWord(b0: bv8, b1: bv8, b2: bv8, b3: bv8): bv32 {
    b0 as bv32 | (b1 as bv32 << 8) | (b2 as bv32 << 16) | (b3 as bv32 << 24)
  }

  function BigWord(b0: bv8, b1: bv8, b2: bv8, b3: bv8): bv32 {
    (b0 as bv32 << 24) | (b1 as bv32 << 16) | (b2 as bv32 << 8) | b3 as bv32
  }

  lemma SwapAdd(a: bv32, b: bv32)
    ensures Swap(Add(a, b)) == Add(Swap(a), Swap(b))
  {
  }

  lemma SwapTwice(a: bv32)
    ensures Swap(Swap(a)) == a
  {
  }

  lemma SwapShifts(a: bv32)
    ensures Swap(a >> 8) == Swap(a) << 8
  {
  }

  lemma SwapWord(b0: bv8, b1: bv8, b2: bv8, b3: bv8)
    ensures BigWord(b0, b1, b2, b3) == Swap(LittleWord(b0, b1, b2, b3))
  {
  }

  // Moving a word up and down by bytes.

  function Up(x: bv32): bv32 {
    x << 8
  }

  function Down(x: bv32): bv32 {
    x >> 8
  }

  function Low(x: bv32): bv32 {
    x & 0xff
  }

  predicate IsByte(x: bv32) {
    x <= 0xff
  }

  lemma WordAdd(a: bv32, b: bv32, c: bv32, d: bv32)
    ensures Add(Add(Add(a, b), c), d) == Add(a, Add(b, Add(c, d)))
  {
    hide Add;
    AddAssoc(a, b, c);
    AddAssoc(a, Add(b, c), d);
    AddAssoc(b, c, d);
  }

  lemma WordParts(b0: bv8, b1: bv8, b2: bv8, b3: bv8)
    ensures LittleWord(b0, b1, b2, b3)
         == Add(b0 as bv32, Add(Up(b1 as bv32), Add(Up(Up(b2 as bv32)), Up(Up(Up(b3 as bv32))))))
  {
  }

  lemma RegisterParts(c: bv32)
    ensures c == Add(Low(c), Add(Up(Low(Down(c))), Add(Up(Up(Low(Down(Down(c))))), Up(Up(Up(Down(Down(Down(c)))))))))
    ensures IsByte(Low(c)) && IsByte(Low(Down(c))) && IsByte(Low(Down(Down(c)))) && IsByte(Down(Down(Down(c))))
  {
  }

  lemma UpDown(x: bv32)
    requires x <= 0xffffff
    ensures Down(Up(x)) == x && Low(Up(x)) == 0
  {
  }

  lemma UpBounds(b: bv32)
    requires IsByte(b)
    ensures b <= 0xffffff && Up(b) <= 0xffffff && Up(Up(b)) <= 0xffffff
  {
  }

  lemma UpStepsDown(x: bv32)
    requires x <= 0xffffff
    ensures Steps(Up(x), 8) == x
  {
    UpDown(x);
    ZeroByteShifts(Up(x));
  }

  /** A byte `k` places up the register comes down to the low byte after `k` zero bytes. */
  lemma ByteDescends(b: bv32)
    requires IsByte(b)
    ensures Steps(Up(b), 8) == b && Steps(Up(Up(b)), 16) == b && Steps(Up(Up(Up(b))), 24) == b
  {
    hide Step, Up, IsByte;
    UpBounds(b);
    UpStepsDown(b);
    UpStepsDown(Up(b));
    UpStepsDown(Up(Up(b)));
    StepsCompose(Up(Up(b)), 8, 8);
    StepsCompose(Up(Up(Up(b))), 8, 16);
  }

  lemma NextByte(x: bv32, n: nat, up: bv32, b: bv8)
    requires Steps(up, n) == b as bv32
    ensures CrcBytes(Steps(x, n), [b]) == Steps(Add(x, up), n + 8)
  {
    hide Add, Step, CrcBytes;
    OneByte(Steps(x, n), b);
    StepsAdd(x, up, n);
    StepsCompose(Add(x, up), n, 8);
  }

  lemma ByteWide(b: bv8)
    ensures IsByte(b as bv32)
  {
  }

  /** Four bytes are added to the register as one word. */
  lemma FourBytes(c: bv32, b0: bv8, b1: bv8, b2: bv8, b3: bv8)
    ensures CrcBytes(c, [b0, b1, b2, b3]) == Steps(Add(c, LittleWord(b0, b1, b2, b3)), 32)
  {
    hide Add, Step, CrcBytes, LittleWord, Up, IsByte;
    var w0: bv32, w1: bv32, w2: bv32, w3: bv32 := b0 as bv32, b1 as bv32, b2 as bv32, b3 as bv32;
    assert [b0, b1, b2, b3] == [b0] + ([b1] + ([b2] + [b3]));
    CrcBytesConcat(c, [b0], [b1] + ([b2] + [b3]));
    CrcBytesConcat(CrcBytes(c, [b0]), [b1], [b2] + [b3]);
    CrcBytesConcat(CrcBytes(CrcBytes(c, [b0]), [b1]), [b2], [b3]);
    ByteWide(b1);
    ByteWide(b2);
    ByteWide(b3);
    ByteDescends(w1);
    ByteDescends(w2);
    ByteDescends(w3);
    var u1, u2, u3 := Up(w1), Up(Up(w2)), Up(Up(Up(w3)));
    var x0 := Add(c, w0);
    OneByte(c, b0);
    NextByte(x0, 8, u1, b1);
    var x1 := Add(x0, u1);
    NextByte(x1, 16, u2, b2);
    var x2 := Add(x1, u2);
    NextByte(x2, 24, u3, b3);
    WordParts(b0, b1, b2, b3);
    WordAdd(Add(c, w0), u1, u2, u3);
    AddAssoc(c, w0, Add(u1, Add(u2, u3)));
  }

  /** Four look-ups, one for each byte of the register, take 32 zero bits. */
  lemma WordSplits(x: bv32)
    ensures Steps(x, 32) == Add(Steps(Low(x), 32), Add(Steps(Low(Down(x)), 24),
                            Add(Steps(Low(Down(Down(x))), 16), Steps(Down(Down(Down(x))), 8))))
  {
    hide Add, Step, Up, Down, Low, IsByte;
    var b0, b1, b2, b3 := Low(x), Low(Down(x)), Low(Down(Down(x))), Down(Down(Down(x)));
    RegisterParts(x);
    var u1, u2, u3 := Up(b1), Up(Up(b2)), Up(Up(Up(b3)));
    StepsAdd(u2, u3, 32);
    StepsAdd(u1, Add(u2, u3), 32);
    StepsAdd(b0, Add(u1, Add(u2, u3)), 32);
    ByteDescends(b1);
    ByteDescends(b2);
    ByteDescends(b3);
    StepsCompose(u1, 8, 24);
    StepsCompose(u2, 16, 16);
    StepsCompose(u3, 24, 8);
  }

  // Building the tables.

  const TERMS: seq<nat> := [0, 1, 2, 4, 5, 7, 8, 10, 11, 12, 16, 22, 23, 26]

  function TermBit(n: nat): bv32
    requires n <= 31
  {
    1 << (31 - n)
  }

  function Pattern(terms: seq<nat>): bv32
    requires forall i :: 0 <= i < |terms| ==> terms[i] <= 31
  {
    if terms == [] then 0 else Pattern(terms[..|terms| - 1]) | TermBit(terms[|terms| - 1])
  }

  /** The exclusive-or pattern made from the terms of the polynomial is the constant. */
  lemma PatternIsPoly()
    ensures Pattern(TERMS) == POLY
  {
    hide TermBit;
    var t := TERMS;
    assert t[..14] == t && t[..0] == [];
    TermValues();
    PatternStep(t, 0); PatternStep(t, 1); PatternStep(t, 2); PatternStep(t, 3); PatternStep(t, 4);
    PatternStep(t, 5); PatternStep(t, 6); PatternStep(t, 7); PatternStep(t, 8); PatternStep(t, 9);
    PatternStep(t, 10); PatternStep(t, 11); PatternStep(t, 12); PatternStep(t, 13);
  }

  lemma TermValues()
    ensures TermBit(0) == 0x80000000 && TermBit(1) == 0x40000000 && TermBit(2) == 0x20000000 && TermBit(4) == 0x08000000
    ensures TermBit(5) == 0x04000000 && TermBit(7) == 0x01000000 && TermBit(8) == 0x00800000 && TermBit(10) == 0x00200000
    ensures TermBit(11) == 0x00100000 && TermBit(12) == 0x00080000 && TermBit(16) == 0x00008000
    ensures TermBit(22) == 0x00000200 && TermBit(23) == 0x00000100 && TermBit(26) == 0x00000020
  {
  }

  lemma PatternStep(t: seq<nat>, i: nat)
    requires i < |t| && forall j :: 0 <= j < |t| ==> t[j] <= 31
    ensures Pattern(t[..i + 1]) == Pattern(t[..i]) | TermBit(t[i])
  {
    assert t[..i + 1][..i] == t[..i];
  }

  lemma IndexIsByte(n: nat, b: bv8)
    requires n < 256 && Index(b) == n
    ensures b == n as bv8
  {
  }

  lemma IndexOfByte(n: nat)
    requires n < 256
    ensures Index(n as bv8) == n
  {
  }

  lemma StepIs(c: bv32)
    ensures (if c & 1 == 1 then POLY ^ (c >> 1) else c >> 1) == Step(c)
    ensures Steps(c, 1) == Step(c)
  {
  }

  /** One more zero byte behind a register, by look-up in row 0. */
  lemma LookUpTakesZero(c: bv32, entry: bv32)
    requires entry == Steps(Low8(c) as bv32, 8)
    ensures Add(entry, c >> 8) == Steps(c, 8)
  {
    hide Add, Step;
    ByteSplits(c);
    LowIsMask(c);
  }

  /** The register after one byte, bit by bit. */
  method ByteRegister(b: bv8, poly: bv32) returns (c: bv32)
    requires poly == POLY
    ensures c == Steps(b as bv32, 8)
  {
    hide Step;
    c := b as bv32;
    for k := 0 to 8
      invariant c == Steps(b as bv32, k)
    {
      StepsCompose(b as bv32, k, 1);
      StepIs(c);
      c := if c & 1 == 1 then poly ^ (c >> 1) else c >> 1;
    }
  }

  /** Store an entry of row `k`; the others stay. */
  method Store(t: array2<bv32>, k: nat, n: nat, c: bv32)
    requires t.Length0 == 8 && t.Length1 == 256 && k < 4 && n < 256
    requires c == Steps((n as bv8) as bv32, 8 * (k + 1))
    modifies t
    ensures EntryOk(t, k, n as bv8)
    ensures forall b: bv8, j: nat :: j < 4 && old(EntryOk(t, j, b)) ==> EntryOk(t, j, b)
    ensures forall b: bv8, j: nat :: j < 4 && old(SwappedOk(t, j, b)) ==> SwappedOk(t, j, b)
  {
    hide Step, Steps, Swap;
    IndexOfByte(n);
    t[k, n] := c;
    forall b: bv8, j: nat | j < 4 && old(EntryOk(t, j, b))
      ensures EntryOk(t, j, b)
    {
      if j == k && Index(b) == n { IndexIsByte(n, b); }
    }
  }

  /** Store the byte reversal of an entry. */
  method StoreSwapped(t: array2<bv32>, k: nat, n: nat, c: bv32)
    requires t.Length0 == 8 && t.Length1 == 256 && k < 4 && n < 256
    requires c == Steps((n as bv8) as bv32, 8 * (k + 1))
    modifies t
    ensures SwappedOk(t, k, n as bv8)
    ensures forall b: bv8, j: nat :: j < 4 && old(EntryOk(t, j, b)) ==> EntryOk(t, j, b)
    ensures forall b: bv8, j: nat :: j < 4 && old(SwappedOk(t, j, b)) ==> SwappedOk(t, j, b)
  {
    hide Step, Steps, Swap;
    IndexOfByte(n);
    t[k + 4, n] := Swap(c);
    forall b: bv8, j: nat | j < 4 && old(SwappedOk(t, j, b))
      ensures SwappedOk(t, j, b)
    {
      if j == k && Index(b) == n { IndexIsByte(n, b); }
    }
  }

  lemma EntryIs(t: array2<bv32>, k: nat, b: bv8)
    requires k < 4 && t.Length0 == 8 && t.Length1 == 256 && EntryOk(t, k, b)
    ensures t[k, Index(b)] == Steps(b as bv32, 8 * (k + 1))
  {
  }

  /** make_crc_table. */
  method MakeCrcTable() returns (t: array2<bv32>)
    ensures fresh(t) && TableOk(t)
  {
    hide Step, Steps, Swap, EntryOk, SwappedOk, Index, TermBit, Pattern;
    t := new bv32[8, 256];
    var poly := MakePattern();
    var n := 0;
    while n < 256
      invariant 0 <= n <= 256
      invariant forall b: bv8 :: Index(b) < n ==> EntryOk(t, 0, b)
    {
      var c := ByteRegister(n as bv8, poly);
      Store(t, 0, n, c);
      forall b: bv8 | Index(b) < n + 1
        ensures EntryOk(t, 0, b)
      {
        if Index(b) == n { IndexIsByte(n, b); }
      }
      n := n + 1;
    }
    n := 0;
    while n < 256
      invariant 0 <= n <= 256
      invariant forall b: bv8 :: EntryOk(t, 0, b)
      invariant forall b: bv8, k: nat :: k < 4 && Index(b) < n ==> EntryOk(t, k, b)
      invariant forall b: bv8, k: nat :: k < 4 && Index(b) < n ==> SwappedOk(t, k, b)
    {
      FillColumn(t, n, n as bv8);
      forall b: bv8, k: nat | k < 4 && Index(b) < n + 1
        ensures EntryOk(t, k, b) && SwappedOk(t, k, b)
      {
        if Index(b) == n { IndexIsByte(n, b); }
      }
      n := n + 1;
    }
  }

  method MakePattern() returns (poly: bv32)
    ensures poly == POLY
  {
    hide TermBit;
    poly := 0;
    assert TERMS[..0] == [];
    for n := 0 to |TERMS|
      invariant poly == Pattern(TERMS[..n])
    {
      PatternStep(TERMS, n);
      poly := poly | TermBit(TERMS[n]);
    }
    assert TERMS[..|TERMS|] == TERMS;
    PatternIsPoly();
  }

  /** The second loop of make_crc_table for one byte: rows 1 to 3, and the byte reversals of all four. */
  method FillColumn(t: array2<bv32>, n: nat, b: bv8)
    requires t.Length0 == 8 && t.Length1 == 256 && n < 256 && b == n as bv8
    requires forall b: bv8 :: EntryOk(t, 0, b)
    modifies t
    ensures forall k: nat :: k < 4 ==> EntryOk(t, k, b)
    ensures forall k: nat :: k < 4 ==> SwappedOk(t, k, b)
    ensures forall b: bv8, j: nat :: j < 4 && old(EntryOk(t, j, b)) ==> EntryOk(t, j, b)
    ensures forall b: bv8, j: nat :: j < 4 && old(SwappedOk(t, j, b)) ==> SwappedOk(t, j, b)
  {
    hide Step, Steps, Swap, EntryOk, SwappedOk, Low8;
    IndexOfByte(n);
    EntryIs(t, 0, b);
    var c := t[0, n];
    StoreSwapped(t, 0, n, c);
    for k := 1 to 4
      invariant c == Steps(b as bv32, 8 * k)
      invariant forall j: nat :: j < k ==> EntryOk(t, j, b)
      invariant forall j: nat :: j < k ==> SwappedOk(t, j, b)
      invariant forall b': bv8 :: EntryOk(t, 0, b')
      invariant forall b': bv8, j: nat :: j < 4 && old(EntryOk(t, j, b')) ==> EntryOk(t, j, b')
      invariant forall b': bv8, j: nat :: j < 4 && old(SwappedOk(t, j, b')) ==> SwappedOk(t, j, b')
    {
      EntryIs(t, 0, Low8(c));
      LookUpTakesZero(c, t[0, Index(Low8(c))]);
      StepsCompose(b as bv32, 8 * k, 8);
      c := Add(t[0, Index(Low8(c))], c >> 8);
      Store(t, k, n, c);
      StoreSwapped(t, k, n, c);
    }
  }

  // The three ways to run a buffer through the register.

  /** DO1: one look-up. */
  method DoOne(t: array2<bv32>, c: bv32, b: bv8) returns (r: bv32)
    requires TableOk(t)
    ensures r == CrcBytes(c, [b])
  {
    hide Step, Steps, CrcBytes, Low8;
    var x := Low8(c ^ b as bv32);
    EntryIs(t, 0, x);
    AddIsXor(c, b as bv32);
    LookUpTakesByte(c, b, t[0, Index(x)]);
    r := Add(t[0, Index(x)], c >> 8);
  }

  lemma AddIsXor(a: bv32, b: bv32)
    ensures Add(a, b) == a ^ b
  {
  }

  /** crc32_z without the word forms: eight bytes at a time, then one by one. */
  method Crc32Bytewise(t: array2<bv32>, crc: bv32, buf: array<bv8>, len0: nat) returns (r: bv32)
    requires TableOk(t) && len0 <= buf.Length
    ensures r == Crc(crc, buf[..len0])
  {
    hide Step, Add, TableOk, CrcBytes, MessageBits, Register;
    var i, len := 0, len0;
    r := Complement(crc);
    NoBytes(r);
    while len >= 8
      invariant i + len == len0 && r == CrcBytes(Complement(crc), buf[..i])
    {
      for k := 0 to 8
        invariant r == CrcBytes(Complement(crc), buf[..i + k])
      {
        OneMore(Complement(crc), buf[..], i + k);
        r := DoOne(t, r, buf[i + k]);
      }
      i, len := i + 8, len - 8;
    }
    while len > 0
      invariant i + len == len0 && r == CrcBytes(Complement(crc), buf[..i])
    {
      OneMore(Complement(crc), buf[..], i);
      r := DoOne(t, r, buf[i]);
      i, len := i + 1, len - 1;
    }
    CrcIs(crc, buf[..len0]);
    r := Complement(r);
  }

  lemma NoBytes(c: bv32)
    ensures CrcBytes(c, []) == c
  {
  }

  lemma CrcIs(crc: bv32, buf: seq<bv8>)
    ensures Crc(crc, buf) == Complement(CrcBytes(Complement(crc), buf))
  {
  }

  lemma OneMore(c: bv32, s: seq<bv8>, i: nat)
    requires i < |s|
    ensures CrcBytes(c, s[..i + 1]) == CrcBytes(CrcBytes(c, s[..i]), [s[i]])
  {
    hide CrcBytes;
    assert s[..i + 1] == s[..i] + [s[i]];
    CrcBytesConcat(c, s[..i], [s[i]]);
  }

  lemma FourMore(c: bv32, s: seq<bv8>, i: nat)
    requires i + 4 <= |s|
    ensures CrcBytes(c, s[..i + 4]) == CrcBytes(CrcBytes(c, s[..i]), [s[i], s[i + 1], s[i + 2], s[i + 3]])
  {
    hide CrcBytes;
    assert s[..i + 4] == s[..i] + [s[i], s[i + 1], s[i + 2], s[i + 3]];
    CrcBytesConcat(c, s[..i], [s[i], s[i + 1], s[i + 2], s[i + 3]]);
  }

  /** DOLIT4: four look-ups for a word in little-endian order. */
  method DoLit4(t: array2<bv32>, c0: bv32, b0: bv8, b1: bv8, b2: bv8, b3: bv8) returns (c: bv32)
    requires TableOk(t)
    ensures c == CrcBytes(c0, [b0, b1, b2, b3])
  {
    hide Step, Steps, CrcBytes, Low8, Byte1, Byte2, Byte3, Low, Down, Add, LittleWord;
    c := Add(c0, LittleWord(b0, b1, b2, b3));
    FourBytes(c0, b0, b1, b2, b3);
    WordSplits(c);
    LowParts(c);
    EntryIs(t, 3, Low8(c));
    EntryIs(t, 2, Byte1(c));
    EntryIs(t, 1, Byte2(c));
    EntryIs(t, 0, Byte3(c));
    WordAdd(t[3, Index(Low8(c))], t[2, Index(Byte1(c))], t[1, Index(Byte2(c))], t[0, Index(Byte3(c))]);
    c := Add(Add(Add(t[3, Index(Low8(c))], t[2, Index(Byte1(c))]), t[1, Index(Byte2(c))]), t[0, Index(Byte3(c))]);
  }

  /** crc32_little: bytes up to a word boundary, eight words at a time, single words, the remaining bytes.
      `address` is where the buffer lies in memory. */
  method Crc32Little(t: array2<bv32>, crc: bv32, buf: array<bv8>, len0: nat, address: nat) returns (c: bv32)
    requires TableOk(t) && len0 <= buf.Length
    ensures c == Crc(crc, buf[..len0])
  {
    hide Step, Add, TableOk, CrcBytes, MessageBits, Register;
    var i, len := 0, len0;
    c := Complement(crc);
    NoBytes(c);
    while len > 0 && (address + i) % 4 != 0
      invariant i + len == len0 && c == CrcBytes(Complement(crc), buf[..i])
    {
      OneMore(Complement(crc), buf[..], i);
      c := DoOne(t, c, buf[i]);
      i, len := i + 1, len - 1;
    }
    while len >= 32
      invariant i + len == len0 && c == CrcBytes(Complement(crc), buf[..i])
    {
      for k := 0 to 8
        invariant c == CrcBytes(Complement(crc), buf[..i + 4 * k])
      {
        var j := i + 4 * k;
        FourMore(Complement(crc), buf[..], j);
        c := DoLit4(t, c, buf[j], buf[j + 1], buf[j + 2], buf[j + 3]);
      }
      i, len := i + 32, len - 32;
    }
    while len >= 4
      invariant i + len == len0 && c == CrcBytes(Complement(crc), buf[..i])
    {
      FourMore(Complement(crc), buf[..], i);
      c := DoLit4(t, c, buf[i], buf[i + 1], buf[i + 2], buf[i + 3]);
      i, len := i + 4, len - 4;
    }
    while len > 0
      invariant i + len == len0 && c == CrcBytes(Complement(crc), buf[..i])
    {
      OneMore(Complement(crc), buf[..], i);
      c := DoOne(t, c, buf[i]);
      i, len := i + 1, len - 1;
    }
    CrcIs(crc, buf[..len0]);
    c := Complement(c);
  }

  // Big-endian: the same with the register kept byte-reversed.

  lemma SwappedIs(t: array2<bv32>, k: nat, b: bv8)
    requires k < 4 && t.Length0 == 8 && t.Length1 == 256 && SwappedOk(t, k, b)
    ensures t[k + 4, Index(b)] == Swap(Steps(b as bv32, 8 * (k + 1)))
  {
  }

  /** Index of the byte-wise step: the top byte of the register is the low byte of the unreversed one. */
  function BigIndex(c: bv32, b: bv8): bv8 {
    ((c >> 24) ^ b as bv32) as bv8
  }

  lemma SwappedIndex(r: bv32, b: bv8)
    ensures BigIndex(Swap(r), b) == Low8(Add(r, b as bv32))
  {
  }

  function Byte1(c: bv32): bv8 {
    Low8(c >> 8)
  }

  function Byte2(c: bv32): bv8 {
    Low8(c >> 16)
  }

  function Byte3(c: bv32): bv8 {
    (c >> 24) as bv8
  }

  lemma LowParts(x: bv32)
    ensures Low8(x) as bv32 == Low(x) && Byte1(x) as bv32 == Low(Down(x))
    ensures Byte2(x) as bv32 == Low(Down(Down(x))) && Byte3(x) as bv32 == Down(Down(Down(x)))
  {
  }

  lemma SwappedParts(x: bv32)
    ensures Low8(Swap(x)) == Byte3(x) && Byte1(Swap(x)) == Byte2(x)
    ensures Byte2(Swap(x)) == Byte1(x) && Byte3(Swap(x)) == Low8(x)
  {
  }

  lemma SwapComplement(c: bv32)
    ensures Complement(Swap(c)) == Swap(Complement(c))
  {
  }

  lemma EntryShift(entry: bv32, r: bv32)
    ensures Add(Swap(entry), Up(Swap(r))) == Swap(Add(entry, r >> 8))
  {
    SwapAdd(entry, r >> 8);
    SwapShifts(r);
  }

  /** One look-up in the reversed table. */
  method DoBigOne(t: array2<bv32>, c: bv32, b: bv8, ghost r: bv32) returns (c': bv32)
    requires TableOk(t) && c == Swap(r)
    ensures c' == Swap(CrcBytes(r, [b]))
  {
    hide Step, Steps, CrcBytes, Low8, Swap, Add, BigIndex, Up;
    var x := BigIndex(c, b);
    SwappedIndex(r, b);
    SwappedIs(t, 0, x);
    ghost var entry := Steps(x as bv32, 8);
    LookUpTakesByte(r, b, entry);
    EntryShift(entry, r);
    c' := Add(t[4, Index(x)], Up(c));
  }

  /** DOBIG4: four look-ups for a word in big-endian order. */
  method DoBig4(t: array2<bv32>, c0: bv32, b0: bv8, b1: bv8, b2: bv8, b3: bv8, ghost r: bv32) returns (c: bv32)
    requires TableOk(t) && c0 == Swap(r)
    ensures c == Swap(CrcBytes(r, [b0, b1, b2, b3]))
  {
    hide Step, Steps, CrcBytes, Low8, Byte1, Byte2, Byte3, Low, Down, Add, Swap, LittleWord, BigWord;
    c := Add(c0, BigWord(b0, b1, b2, b3));
    ghost var x := Add(r, LittleWord(b0, b1, b2, b3));
    SwapWord(b0, b1, b2, b3);
    SwapAdd(r, LittleWord(b0, b1, b2, b3));
    SwappedParts(x);
    FourBytes(r, b0, b1, b2, b3);
    WordSplits(x);
    LowParts(x);
    SwappedIs(t, 0, Low8(c));
    SwappedIs(t, 1, Byte1(c));
    SwappedIs(t, 2, Byte2(c));
    SwappedIs(t, 3, Byte3(c));
    ghost var e3, e2, e1, e0 := Steps(Low(x), 32), Steps(Low(Down(x)), 24), Steps(Low(Down(Down(x))), 16), Steps(Down(Down(Down(x))), 8);
    SwapAdd(e1, e0);
    SwapAdd(e2, Add(e1, e0));
    SwapAdd(e3, Add(e2, Add(e1, e0)));
    WordReverse(Swap(e0), Swap(e1), Swap(e2), Swap(e3));
    c := Add(Add(Add(t[4, Index(Low8(c))], t[5, Index(Byte1(c))]), t[6, Index(Byte2(c))]), t[7, Index(Byte3(c))]);
  }

  lemma WordReverse(a: bv32, b: bv32, c: bv32, d: bv32)
    ensures Add(Add(Add(a, b), c), d) == Add(d, Add(c, Add(b, a)))
  {
    hide Add;
    AddComm(Add(Add(a, b), c), d);
    AddComm(Add(a, b), c);
    AddComm(a, b);
  }

  /** crc32_big. */
  method Crc32Big(t: array2<bv32>, crc: bv32, buf: array<bv8>, len0: nat, address: nat) returns (c: bv32)
    requires TableOk(t) && len0 <= buf.Length
    ensures c == Crc(crc, buf[..len0])
  {
    hide Step, Add, TableOk, CrcBytes, MessageBits, Register, Swap;
    var i, len := 0, len0;
    ghost var start := Complement(crc);
    c := Complement(Swap(crc));
    SwapComplement(crc);
    NoBytes(start);
    while len > 0 && (address + i) % 4 != 0
      invariant i + len == len0 && c == Swap(CrcBytes(start, buf[..i]))
    {
      OneMore(start, buf[..], i);
      c := DoBigOne(t, c, buf[i], CrcBytes(start, buf[..i]));
      i, len := i + 1, len - 1;
    }
    while len >= 32
      invariant i + len == len0 && c == Swap(CrcBytes(start, buf[..i]))
    {
      for k := 0 to 8
        invariant c == Swap(CrcBytes(start, buf[..i + 4 * k]))
      {
        var j := i + 4 * k;
        FourMore(start, buf[..], j);
        c := DoBig4(t, c, buf[j], buf[j + 1], buf[j + 2], buf[j + 3], CrcBytes(start, buf[..j]));
      }
      i, len := i + 32, len - 32;
    }
    while len >= 4
      invariant i + len == len0 && c == Swap(CrcBytes(start, buf[..i]))
    {
      FourMore(start, buf[..], i);
      c := DoBig4(t, c, buf[i], buf[i + 1], buf[i + 2], buf[i + 3], CrcBytes(start, buf[..i]));
      i, len := i + 4, len - 4;
    }
    while len > 0
      invariant i + len == len0 && c == Swap(CrcBytes(start, buf[..i]))
    {
      OneMore(start, buf[..], i);
      c := DoBigOne(t, c, buf[i], CrcBytes(start, buf[..i]));
      i, len := i + 1, len - 1;
    }
    CrcIs(crc, buf[..len0]);
    ghost var r := CrcBytes(start, buf[..len0]);
    SwapComplement(r);
    SwapTwice(Complement(r));
    c := Swap(Complement(c));
  }

  /** crc32_z: 0 for a missing buffer, otherwise the form for the byte order of the machine. */
  method Crc32Z(t: array2<bv32>, crc: bv32, buf: array?<bv8>, len: nat, address: nat, littleEndian: bool) returns (c: bv32)
    requires TableOk(t) && (buf != null ==> len <= buf.Length)
    ensures c == if buf == null then 0 else Crc(crc, buf[..len])
  {
    hide TableOk, Crc;
    if buf == null { return 0; }
    if littleEndian {
      c := Crc32Little(t, crc, buf, len, address);
    } else {
      c := Crc32Big(t, crc, buf, len, address);
    }
  }
}
