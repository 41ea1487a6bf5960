/** The clock solver of pm.c: dividers and PLL multiplier for a requested pair of clocks, and the registers they go to. */
module ClockSpeed {
  import opened Common

  /** uint32_t. */
  type word = x: int | 0 <= x < 0x1_0000_0000

  const EXTAL_CLK := 24_000_000
  const PLL_N := 2
  /** EXTAL_CLK / PLL_N: the PLL runs at a multiple of this. */
  const UNIT := 12_000_000
  /** The multiples of UNIT next to 100 and 500 MHz, inside. */
  const MIN_PLL := 108_000_000
  const MAX_PLL := 492_000_000
  const DIV_COUNT := 10
  const SDRAM_TREF := 7813

  /** div_data. */
  function Div(i: nat): (d: nat)
    ensures 1 <= d <= 32
  {
    match i
    case 0 => 1 case 1 => 2 case 2 => 3 case 3 => 4 case 4 => 6
    case 5 => 8 case 6 => 12 case 7 => 16 case 8 => 24 case _ => 32
  }

  lemma {:induction false} DivGrows(i: nat, j: nat)
    requires i <= j
    ensures Div(i) <= Div(j)
  {
  }

  /** Divider `i` brings `hz` down to `limit`, and no smaller one does. */
  ghost predicate FirstDivider(i: nat, hz: nat, limit: nat) {
    i <= DIV_COUNT && (i < DIV_COUNT ==> hz / Div(i) <= limit) && forall j :: 0 <= j < i ==> hz / Div(j) > limit
  }

  /** The loops that look for a divider. */
  method FindDivider(hz: word, limit: word) returns (i: nat)
    ensures FirstDivider(i, hz, limit)
  {
    i := 0;
    while i < DIV_COUNT && hz / Div(i) > limit
      invariant i <= DIV_COUNT && forall j :: 0 <= j < i ==> hz / Div(j) > limit
    {
      i := i + 1;
    }
  }

  lemma MulBoth(a: nat, b: nat, c: nat, d: nat)
    requires a <= c && b <= d
    ensures a * b <= c * d
  {
    assert c * d == a * d + (c - a) * d;
    assert a * d == a * b + a * (d - b);
  }

  lemma QuotientFalls(hz: nat, d: nat, e: nat)
    requires 1 <= d <= e
    ensures hz / e <= hz / d
  {
    if hz / e > hz / d {
      MulBoth(d, hz / d + 1, e, hz / e);
    }
  }

  /** Divider `i` brings `hz` down to `limit` and is a multiple of the CPU's, and no smaller one does both. */
  ghost predicate FirstMemoryDivider(i: nat, hz: nat, limit: nat, cdiv: nat) {
    && i <= DIV_COUNT && (i < DIV_COUNT ==> hz / Div(i) <= limit && Div(i) % Div(cdiv) == 0)
    && forall j :: 0 <= j < i ==> hz / Div(j) > limit || Div(j) % Div(cdiv) != 0
  }

  /** The loop that makes the memory divider a multiple of the CPU divider. */
  method FindMultiple(hz: word, limit: word, cdiv: nat, mdiv: nat) returns (i: nat)
    requires FirstDivider(mdiv, hz, limit) && mdiv < DIV_COUNT
    ensures FirstMemoryDivider(i, hz, limit, cdiv)
  {
    i := mdiv;
    while i < DIV_COUNT && Div(i) % Div(cdiv) != 0
      invariant mdiv <= i <= DIV_COUNT
      invariant i < DIV_COUNT ==> hz / Div(i) <= limit
      invariant forall j :: 0 <= j < i ==> hz / Div(j) > limit || Div(j) % Div(cdiv) != 0
    {
      DivGrows(mdiv, i + 1);
      QuotientFalls(hz, Div(mdiv), Div(i + 1));
      i := i + 1;
    }
  }

  // The PLL.

  /** The slowest CPU clock that a divider can make of the slowest PLL clock. */
  const MIN_CPU := 3_375_000

  lemma SlowPll(i: nat)
    requires i < DIV_COUNT
    ensures MIN_PLL / Div(i) * Div(i) == MIN_PLL && MIN_PLL / Div(i) >= MIN_CPU
    ensures i > 0 ==> Div(i) <= 2 * Div(i - 1)
  {
    match i
    case 0 => case 1 => case 2 => case 3 => case 4 => case 5 => case 6 => case 7 => case 8 => case _ =>
  }

  /** Some divider brings the PLL clock down to the CPU clock asked for. */
  ghost predicate Reachable(hz: nat, cpu: nat) {
    exists i :: 0 <= i < DIV_COUNT && hz / Div(i) <= cpu
  }

  /** The PLL clock nearest to what is aimed at for a CPU clock: that clock itself, within the limits of the PLL, or what the
      smallest possible divider makes of a slow one. */
  ghost predicate AimedAt(cpu: nat, hz: nat) {
    if cpu >= MIN_PLL then hz == Min(cpu, MAX_PLL)
    else exists p :: 0 <= p < DIV_COUNT && FirstDivider(p, MIN_PLL, cpu) && hz == cpu * Div(p)
  }

  lemma AllReachable(hz: nat, cpu: nat, i: nat)
    requires i < DIV_COUNT && hz <= cpu * Div(i)
    ensures forall h :: 0 <= h <= hz ==> Reachable(h, cpu)
  {
    forall h | 0 <= h <= hz
      ensures Reachable(h, cpu)
    {
      assert h / Div(i) <= cpu;
    }
  }

  /** The PLL clock aimed at, before it is rounded to a multiple of UNIT. */
  method PllTarget(cpu: word) returns (hz: Option<word>)
    ensures hz.Some? ==> forall h :: 0 <= h <= hz.value ==> Reachable(h, cpu)
    ensures hz == None <==> cpu < MIN_CPU
    ensures hz.Some? ==> MIN_PLL <= hz.value <= MAX_PLL
    ensures hz.Some? ==> AimedAt(cpu, hz.value)
  {
    var h: word := cpu;
    if cpu < MIN_PLL {
      var pmul := FindDivider(MIN_PLL, cpu);
      if pmul >= DIV_COUNT {
        SlowPll(9);
        assert MIN_PLL / Div(9) > cpu;
        return None;
      }
      SlowPll(pmul);
      MulBoth(MIN_PLL / Div(pmul), Div(pmul), cpu, Div(pmul));
      assert MIN_PLL / Div(0) > cpu;
      SlowPll(pmul - 1);
      MulBoth(cpu, Div(pmul - 1), MIN_PLL / Div(pmul - 1), Div(pmul - 1));
      MulBoth(cpu, Div(pmul), cpu, 2 * Div(pmul - 1));
      h := cpu * Div(pmul);
      AllReachable(h, cpu, pmul);
    } else {
      AllReachable(h, cpu, 0);
    }
    h := Min(Max(h, MIN_PLL), MAX_PLL);
    return Some(h);
  }

  /** EXTAL_CLK * M / N, in 32 bits. */
  function PllClock(m: nat): (hz: word)
    ensures m <= 178 ==> hz == UNIT * m
  {
    EXTAL_CLK * m % 0x1_0000_0000 / PLL_N
  }

  /** The first choice of PLL clock for a fast CPU. */
  function FastPll(cpu: nat): nat {
    Min(cpu, MAX_PLL) / UNIT * UNIT
  }

  /** The requests for which the memory could run at the clock of the PLL. */
  predicate BothFast(cpu: nat, mem: nat) {
    cpu >= MIN_PLL && mem >= FastPll(cpu)
  }

  /** The requests that keep the PLL within its limits: unless both clocks are fast, all; otherwise those where twice the
      lower clock is one the PLL can make. */
  predicate Sound(cpu: nat, mem: nat) {
    BothFast(cpu, mem) ==> MIN_PLL <= 2 * Min(cpu, mem) % 0x1_0000_0000 < MAX_PLL + UNIT
  }

  /** Below 2^31 Hz this is a limit of 252 MHz on the lower clock. */
  lemma SoundBelow252MHz(cpu: nat, mem: nat)
    requires cpu < 0x8000_0000 && mem < 0x8000_0000
    ensures Sound(cpu, mem) <==> !BothFast(cpu, mem) || Min(cpu, mem) < 252_000_000
  {
  }

  /** Twice the lower of two clocks, in 32 bits. */
  function Twice(cpu: word, mem: word): word {
    2 * Min(cpu, mem) % 0x1_0000_0000
  }

  /** The requests that end in a division by zero: for them the memory would be set to a clock of 0 or above 1 GHz. */
  predicate OutOfScale(cpu: word, mem: word) {
    && BothFast(cpu, mem)
    && (Twice(cpu, mem) < UNIT || 2_004_000_000 <= Twice(cpu, mem) < 2_148_000_000 || Twice(cpu, mem) >= 4_152_000_000)
  }

  /** The requests for which 32 bits are enough for the PLL clock and the multiplier is at least 2. */
  predicate Readable(cpu: word, mem: word) {
    BothFast(cpu, mem) ==> 2 * UNIT <= Twice(cpu, mem) < 2_148_000_000
  }

  /** A choice of PLL multiplier and dividers. */
  datatype Choice = Choice(m: nat, cdiv: nat, mdiv: nat) {
    function Cpu(): nat {
      PllClock(m) / Div(cdiv)
    }

    function Mem(): nat {
      PllClock(m) / Div(mdiv)
    }

    /** The PLL is a multiple of 12 MHz between 108 and 492 MHz. */
    predicate PllInRange() {
      MIN_PLL <= UNIT * m <= MAX_PLL
    }

    predicate Dividers() {
      cdiv < DIV_COUNT && mdiv < DIV_COUNT && Div(mdiv) % Div(cdiv) == 0 && Div(mdiv) / Div(cdiv) < 24
    }
  }

  lemma Rounded(hz: nat)
    requires MIN_PLL <= hz <= MAX_PLL
    ensures 9 <= hz / UNIT <= 41 && MIN_PLL <= UNIT * (hz / UNIT) <= hz && UNIT * (hz / UNIT) == hz / UNIT * UNIT
  {
  }

  /** Divider `i` is allowed for the memory: slow enough, a multiple of the CPU divider, and less than 24 times it. */
  predicate Allowed(i: nat, hz: nat, limit: nat, cdiv: nat) {
    hz / Div(i) <= limit && Div(i) % Div(cdiv) == 0 && Div(i) / Div(cdiv) < 24
  }

  /** The dividers for a PLL clock, when there are allowed ones. */
  method ChooseDividers(hz: word, cpu: word, mem: word) returns (r: Option<(nat, nat)>, first: nat)
    requires Reachable(hz, cpu)
    ensures first < DIV_COUNT && FirstDivider(first, hz, cpu)
    ensures r == None <==> forall i :: 0 <= i < DIV_COUNT ==> !Allowed(i, hz, mem, first)
    ensures r.Some? ==> r.value.0 == first && r.value.1 < DIV_COUNT && FirstMemoryDivider(r.value.1, hz, mem, first) &&
                        Div(r.value.1) / Div(first) < 24
  {
    hide Div;
    var cdiv := FindDivider(hz, cpu);
    var mdiv := FindDivider(hz, mem);
    first := cdiv;
    if cdiv >= DIV_COUNT || mdiv >= DIV_COUNT { r := None; return; }
    mdiv := FindMultiple(hz, mem, cdiv, mdiv);
    if mdiv >= DIV_COUNT { r := None; return; }
    if Div(mdiv) / Div(cdiv) >= 24 {
      RatioGrows(mdiv, cdiv);
      r := None;
      return;
    }
    assert Allowed(mdiv, hz, mem, cdiv);
    r := Some((cdiv, mdiv));
  }

  /** What DS2_SetClockSpeed chooses, given the target of the PLL and the first divider for the CPU. It gives up exactly
      when no allowed divider brings the PLL clock down to the memory clock requested. */
  ghost predicate ChosenWith(cpu: word, mem: word, target: nat, first: nat, r: Option<Choice>) {
    var pll := target / UNIT * UNIT;
    && AimedAt(cpu, target) && first < DIV_COUNT && FirstDivider(first, pll, cpu)
    && (r == None <==> forall i :: 0 <= i < DIV_COUNT ==> !Allowed(i, pll, mem, first))
    && (r.Some? ==>
         if BothFast(cpu, mem) then r.value == Doubled(cpu, mem)
         else UNIT * r.value.m == pll && r.value.cdiv == first && FirstMemoryDivider(r.value.mdiv, pll, mem, first))
  }

  ghost predicate Chosen(cpu: word, mem: word, r: Option<Choice>) {
    if cpu < MIN_CPU then r == None else exists target, first :: ChosenWith(cpu, mem, target, first, r)
  }

  /** What a choice means for the request: the clocks are at most those asked for, the PLL is in range exactly for sound
      requests, the memory clock can be converted exactly unless the request is out of scale, and the multiplier is one that
      is read back exactly for readable ones. */
  ghost predicate Fits(cpu: word, mem: word, c: Choice) {
    && c.Dividers() && c.Cpu() <= cpu && c.Mem() <= mem && c.m <= 357 && (c.m == 0 ==> c.Mem() == 0)
    && (c.PllInRange() <==> Sound(cpu, mem))
    && (0 < c.Mem() <= 1_000_000_000 <==> !OutOfScale(cpu, mem))
    && (2 <= c.m <= 178 <==> Readable(cpu, mem))
    && (Sound(cpu, mem) ==> 0 < c.Cpu() && 0 < c.Mem())
  }

  lemma PlainFits(cpu: word, mem: word, c: Choice)
    requires !BothFast(cpu, mem) && c.PllInRange() && c.Dividers() && 0 < c.Cpu() <= cpu && 0 < c.Mem() <= mem
    ensures Fits(cpu, mem, c)
  {
    hide Div, Choice.Dividers, Choice.Cpu, FastPll, Twice;
    MemoryInScale(c);
  }

  lemma MemoryInScale(c: Choice)
    requires c.PllInRange()
    ensures 2 <= c.m <= 178 && c.Mem() <= 1_000_000_000
  {
    hide Div;
    assert 9 <= c.m <= 41;
  }

  /** The part of DS2_SetClockSpeed that chooses. */
  method Choose(cpu: word, mem: word) returns (r: Option<Choice>)
    ensures Chosen(cpu, mem, r)
    ensures r.Some? ==> Fits(cpu, mem, r.value)
    ensures BothFast(cpu, mem) ==> r == Some(Doubled(cpu, mem))
    ensures r == None ==> !OutOfScale(cpu, mem)
  {
    hide Allowed, Div, Fits, Reachable, AimedAt;
    var target := PllTarget(cpu);
    if target == None { return None; }
    Rounded(target.value);
    var m: nat := target.value / UNIT;
    var hz := PllClock(m);
    var dividers;
    ghost var first;
    dividers, first := ChooseDividers(hz, cpu, mem);
    if dividers == None {
      assert ChosenWith(cpu, mem, target.value, first, None);
      if BothFast(cpu, mem) { BothFastChosen(cpu, mem, None); }
      return None;
    }
    var (cdiv, mdiv) := dividers.value;
    if Div(mdiv) == 1 && hz / Div(cdiv) >= 100_000_000 {
      WhenBothFast(hz, cpu, mem, cdiv, mdiv);
      r := Some(Doubled(cpu, mem));
      DoubledFits(cpu, mem);
      assert ChosenWith(cpu, mem, target.value, first, r);
    } else {
      WhenNotBothFast(hz, cpu, mem, cdiv, mdiv);
      r := Some(Choice(m, cdiv, mdiv));
      PlainFits(cpu, mem, r.value);
      assert ChosenWith(cpu, mem, target.value, first, r);
    }
  }

  lemma RatioGrows(i: nat, cdiv: nat)
    ensures forall j :: i <= j ==> Div(j) / Div(cdiv) >= Div(i) / Div(cdiv)
  {
    forall j | i <= j
      ensures Div(j) / Div(cdiv) >= Div(i) / Div(cdiv)
    {
      DivGrows(i, j);
      QuotientRises(Div(i), Div(j), Div(cdiv));
    }
  }

  lemma QuotientRises(a: nat, b: nat, d: nat)
    requires a <= b && d >= 1
    ensures a / d <= b / d
  {
    if a / d > b / d {
      MulBoth(d, b / d + 1, d, a / d);
    }
  }

  /** What is chosen instead of a memory clock as fast as the PLL: twice the lower clock, divided by two. */
  function Doubled(cpu: word, mem: word): Choice {
    Choice(Twice(cpu, mem) / UNIT, 1, 1)
  }

  lemma DoubledFits(cpu: word, mem: word)
    requires BothFast(cpu, mem)
    ensures Fits(cpu, mem, Doubled(cpu, mem))
  {
  }

  /** When both clocks asked for are fast, a choice is always made. */
  lemma BothFastChosen(cpu: word, mem: word, r: Option<Choice>)
    requires BothFast(cpu, mem) && Chosen(cpu, mem, r)
    ensures r == Some(Doubled(cpu, mem))
  {
    var target: nat, first: nat :| ChosenWith(cpu, mem, target, first, r);
    var pll := FastPll(cpu);
    assert pll / Div(0) <= cpu;
    assert first == 0;
    assert Allowed(0, pll, mem, 0);
  }

  /** Both clocks at 300 MHz: the PLL is set to 600 MHz. */
  lemma PllTooFast(r: Option<Choice>)
    requires Chosen(300_000_000, 300_000_000, r)
    ensures r == Some(Choice(50, 1, 1)) && UNIT * r.value.m == 600_000_000 && !r.value.PllInRange()
  {
    BothFastChosen(300_000_000, 300_000_000, r);
  }

  /** Both clocks at 1010 MHz: the memory would be set to 1008 MHz, for which `_sdram_convert` divides by zero. */
  lemma MemoryTooFast(r: Option<Choice>)
    requires Chosen(1_010_000_000, 1_010_000_000, r)
    ensures r.Some? && r.value.Mem() == 1_008_000_000 && OutOfScale(1_010_000_000, 1_010_000_000)
  {
    BothFastChosen(1_010_000_000, 1_010_000_000, r);
  }

  lemma WhenBothFast(hz: nat, cpu: nat, mem: nat, cdiv: nat, mdiv: nat)
    requires MIN_PLL <= hz <= MAX_PLL && cdiv < DIV_COUNT && mdiv < DIV_COUNT
    requires cpu >= MIN_PLL ==> hz == FastPll(cpu)
    requires FirstDivider(cdiv, hz, cpu) && FirstMemoryDivider(mdiv, hz, mem, cdiv)
    requires Div(mdiv) == 1
    ensures BothFast(cpu, mem)
  {
    assert mdiv == 0;
  }

  lemma FirstOfBoth(hz: nat, cpu: nat, mem: nat, cdiv: nat, mdiv: nat)
    requires hz <= cpu && hz <= mem
    requires FirstDivider(cdiv, hz, cpu) && FirstMemoryDivider(mdiv, hz, mem, cdiv)
    ensures cdiv == 0 && mdiv == 0
  {
    assert hz / Div(0) == hz && Div(0) % Div(0) == 0;
    assert cdiv == 0;
    assert mdiv == 0;
  }

  lemma WhenNotBothFast(hz: nat, cpu: nat, mem: nat, cdiv: nat, mdiv: nat)
    requires MIN_PLL <= hz <= MAX_PLL && cdiv < DIV_COUNT && mdiv < DIV_COUNT
    requires cpu >= MIN_PLL ==> hz == FastPll(cpu)
    requires FirstDivider(cdiv, hz, cpu) && FirstMemoryDivider(mdiv, hz, mem, cdiv)
    requires !(Div(mdiv) == 1 && hz / Div(cdiv) >= 100_000_000)
    ensures !BothFast(cpu, mem) && 0 < hz / Div(cdiv) <= cpu && 0 < hz / Div(mdiv) <= mem
  {
    if BothFast(cpu, mem) {
      FirstOfBoth(hz, cpu, mem, cdiv, mdiv);
    }
  }

  // The registers. Bit fields are read and written as digits of the register's value.

  function PllM(cppcr: word): (m: nat)
    ensures m < 512
  {
    cppcr / 0x80_0000
  }

  function PllN(cppcr: word): nat {
    cppcr / 0x4_0000 % 32
  }

  function PllOd(cppcr: word): nat {
    cppcr / 0x1_0000 % 4
  }

  /** The PLL is enabled and not bypassed. */
  predicate PllOn(cppcr: word) {
    cppcr / 0x100 % 2 == 1 && cppcr / 0x200 % 2 == 0
  }

  function CDiv(cpccr: word): nat {
    cpccr % 16
  }

  function MDiv(cpccr: word): nat {
    cpccr / 0x1000 % 16
  }

  /** CPPCR with a new multiplier and divider of the PLL, in its upper 14 bits; what does not fit is lost. */
  function WithPll(cppcr: word, m: nat, n: nat): word {
    cppcr % 0x4_0000 + n % 32 * 0x4_0000 + m % 512 * 0x80_0000
  }

  /** CPCCR with new dividers in its lower 21 bits: that of the memory also for the buses between. */
  function WithDividers(cpccr: word, c: nat, m: nat): word {
    cpccr / 0x20_0000 * 0x20_0000 + 31 * 0x1_0000 + m % 16 * 0x1000 + m % 16 * 0x100 + m % 16 * 0x10 + c % 16
  }

  /** Bits below bit 18 do not depend on those above. */
  lemma LowBits(low: nat, k: nat)
    requires low < 0x4_0000
    ensures var x := low + 0x4_0000 * k;
      && x / 0x4_0000 == k && x / 0x1_0000 == low / 0x1_0000 + 4 * k
      && x / 0x100 == low / 0x100 + 0x400 * k && x / 0x200 == low / 0x200 + 0x200 * k
  {
  }

  lemma DigitKept(a: nat, k: nat, d: nat)
    requires d == 2 || d == 4
    ensures (a + d * k) % d == a % d
  {
  }

  /** The fields written are read back, and the others stay. */
  lemma PllReadBack(cppcr: word, m: nat, n: nat)
    requires m < 512 && n < 32
    ensures var after := WithPll(cppcr, m, n);
      PllM(after) == m && PllN(after) == n && PllOd(after) == PllOd(cppcr) && PllOn(after) == PllOn(cppcr)
  {
    var low, k0, k := cppcr % 0x4_0000, cppcr / 0x4_0000, n + 32 * m;
    var after := WithPll(cppcr, m, n);
    assert cppcr == low + 0x4_0000 * k0 && after == low + 0x4_0000 * k;
    LowBits(low, k0);
    LowBits(low, k);
    SameLowFields(cppcr, after, low, k0, k);
    assert after / 0x80_0000 == m by { assert after == low + 0x4_0000 * n + 0x80_0000 * m; }
  }

  lemma SameLowFields(x: word, y: word, low: nat, j: nat, k: nat)
    requires x / 0x1_0000 == low / 0x1_0000 + 4 * j && y / 0x1_0000 == low / 0x1_0000 + 4 * k
    requires x / 0x100 == low / 0x100 + 0x400 * j && y / 0x100 == low / 0x100 + 0x400 * k
    requires x / 0x200 == low / 0x200 + 0x200 * j && y / 0x200 == low / 0x200 + 0x200 * k
    ensures PllOd(x) == PllOd(y) && PllOn(x) == PllOn(y)
  {
    DigitKept(low / 0x1_0000, j, 4);
    DigitKept(low / 0x1_0000, k, 4);
    DigitKept(low / 0x100, 0x200 * j, 2);
    DigitKept(low / 0x100, 0x200 * k, 2);
    DigitKept(low / 0x200, 0x100 * j, 2);
    DigitKept(low / 0x200, 0x100 * k, 2);
  }

  lemma LowDigit(c: nat, k: nat)
    requires c < 16
    ensures (c + 16 * k) % 16 == c && (c + 16 * k) / 16 == k
  {
  }

  lemma FourthDigit(low: nat, k: nat)
    requires low < 0x1000
    ensures (low + 0x1000 * k) / 0x1000 == k
  {
  }

  lemma DividersReadBack(cpccr: word, c: nat, m: nat)
    requires c < 16 && m < 16
    ensures CDiv(WithDividers(cpccr, c, m)) == c && MDiv(WithDividers(cpccr, c, m)) == m
  {
    var high, x := cpccr / 0x20_0000, WithDividers(cpccr, c, m);
    assert x == c + 16 * (high * 0x2_0000 + 31 * 0x1000 + m * 0x111);
    LowDigit(c, high * 0x2_0000 + 31 * 0x1000 + m * 0x111);
    assert x == (m * 0x110 + c) + 0x1000 * (m + 16 * (high * 0x20 + 31));
    FourthDigit(m * 0x110 + c, m + 16 * (high * 0x20 + 31));
    LowDigit(m, high * 0x20 + 31);
  }

  /** The PLL clock that is read back after a multiplier was written. */
  function ReadBackHz(m: nat): word {
    UNIT * ((m + 510) % 512 + 2) % 0x1_0000_0000
  }

  /** The multiplier is written less 2, and 32 bits are cut to 9. */
  lemma MultiplierField(m: nat)
    requires m <= 357
    ensures (m - 2) % 0x1_0000_0000 % 512 == (m + 510) % 512
  {
  }

  lemma PllCut(cppcr: word, m: nat, n: nat)
    ensures WithPll(cppcr, m % 512, n) == WithPll(cppcr, m, n)
  {
  }

  lemma PllReadBackExact(m: nat)
    requires 1 <= m <= 357
    ensures if 2 <= m <= 178 then ReadBackHz(m) == PllClock(m) else ReadBackHz(m) / 2 != PllClock(m) / 2
  {
  }

  /** The clocks read back are those reported exactly for readable requests. */
  lemma ReadBackIsExact(cpu: word, mem: word, c: Choice)
    requires Fits(cpu, mem, c) && 0 < c.Mem()
    requires BothFast(cpu, mem) ==> c == Doubled(cpu, mem)
    ensures ReadBackHz(c.m) / Div(c.cdiv) == c.Cpu() && ReadBackHz(c.m) / Div(c.mdiv) == c.Mem() <==> Readable(cpu, mem)
  {
    hide ReadBackHz, PllClock;
    PllReadBackExact(c.m);
    assert c.m < 2 || c.m > 178 ==> Div(c.cdiv) == 2;
  }

  /** The divisor that out_div_shifts stands for. */
  function OutDivider(od: nat): (d: nat)
    ensures d >= 1
  {
    if od == 0 then 1 else if od == 3 then 4 else 2
  }

  datatype Outcome = Success | Einval | DivisionByZero

  class ClockRegisters {
    var cpccr: word
    var cppcr: word
    var rtcor: nat
    var rtcnt: nat

    /** What DS2_GetClockSpeed computes from the registers, in 32 bits. */
    function PllHz(): word
      reads this
    {
      if PllOn(cppcr) then EXTAL_CLK / OutDivider(PllOd(cppcr)) / (PllN(cppcr) + 2) * (PllM(cppcr) + 2) % 0x1_0000_0000
      else EXTAL_CLK
    }

    /** DS2_GetClockSpeed, when the divider fields hold indices of the table. */
    method GetClockSpeed() returns (cpu: nat, mem: nat)
      requires CDiv(cpccr) < DIV_COUNT && MDiv(cpccr) < DIV_COUNT
      ensures cpu == PllHz() / Div(CDiv(cpccr)) && mem == PllHz() / Div(MDiv(cpccr))
    {
      var hz := PllHz();
      cpu := hz / Div(CDiv(cpccr));
      mem := hz / Div(MDiv(cpccr));
    }

    /** _sdram_convert: false where it would divide by zero. */
    method SdramConvert(hz: nat) returns (ok: bool)
      modifies this`rtcor, this`rtcnt
      ensures ok <==> 0 < hz <= 1_000_000_000
      ensures ok ==> 1 <= rtcor <= 0xff && rtcnt == rtcor - 1
    {
      if hz == 0 { return false; }
      var ns: nat := 1_000_000_000 / hz;
      if ns == 0 { return false; }
      var delay: nat := SDRAM_TREF / ns / 64 + 1;
      if delay > 0xff { delay := 0xff; }
      rtcor := delay;
      rtcnt := delay - 1;
      ok := true;
    }

    /** DS2_SetClockSpeed, up to the wait for the PLL. The clocks are at most those asked for, a division by zero occurs
        exactly for requests out of scale, and the registers hold what was chosen. */
    method SetClockSpeed(cpu0: word, mem0: word) returns (r: Outcome, cpu: nat, mem: nat, ghost chosen: Option<Choice>)
      modifies this
      ensures Chosen(cpu0, mem0, chosen) && (r == Einval <==> chosen == None)
      ensures r == Einval ==> cpu == cpu0 && mem == mem0 && cpccr == old(cpccr) && cppcr == old(cppcr)
      ensures r == DivisionByZero <==> OutOfScale(cpu0, mem0)
      ensures r == Success ==> Fits(cpu0, mem0, chosen.value) && cpu == chosen.value.Cpu() && mem == chosen.value.Mem()
      ensures r == Success ==> (BothFast(cpu0, mem0) ==> chosen.value == Doubled(cpu0, mem0))
      ensures r == Success ==> cpu <= cpu0 && 0 < mem <= mem0
      ensures r == Success ==> CDiv(cpccr) == chosen.value.cdiv && MDiv(cpccr) == chosen.value.mdiv
      ensures r == Success && old(PllOn(cppcr) && PllOd(cppcr) == 0) ==>
        PllHz() == ReadBackHz(chosen.value.m)
    {
      hide Div, Sound, Chosen, Choice.Cpu, Choice.Mem, Choice.Dividers, Choice.PllInRange, PllClock,
           PllOd, CDiv, MDiv, PllOn, PllHz, OutOfScale, Readable, BothFast;
      var choice := Choose(cpu0, mem0);
      chosen := choice;
      cpu, mem := cpu0, mem0;
      if choice == None { r := Einval; return; }
      var c := choice.value;
      cpu, mem := c.Cpu(), c.Mem();
      var ok := SdramConvert(mem);
      if !ok { r := DivisionByZero; return; }
      WriteRegisters(c);
      r := Success;
    }

    /** The register writes. */
    method WriteRegisters(c: Choice)
      requires c.Dividers() && c.m <= 357
      modifies this`cpccr, this`cppcr
      ensures CDiv(cpccr) == c.cdiv && MDiv(cpccr) == c.mdiv
      ensures old(PllOn(cppcr) && PllOd(cppcr) == 0) ==> PllHz() == ReadBackHz(c.m)
    {
      hide Div, PllM, PllN, PllOd, CDiv, MDiv, WithPll, WithDividers, PllOn;
      var m: nat := (c.m - 2) % 0x1_0000_0000;
      DividersReadBack(cpccr, c.cdiv, c.mdiv);
      PllReadBack(cppcr, (c.m + 510) % 512, 0);
      MultiplierField(c.m);
      PllCut(cppcr, m, 0);
      cpccr := WithDividers(cpccr, c.cdiv, c.mdiv);
      cppcr := WithPll(cppcr, m, 0);
    }

    constructor (cpccr0: word, cppcr0: word)
      ensures cpccr == cpccr0 && cppcr == cppcr0
    {
      cpccr, cppcr, rtcor, rtcnt := cpccr0, cppcr0, 0, 0;
    }
  }

  /** Setting the clocks and reading them back, with the PLL on and its output divider off: the clocks read are those that
      were reported as achieved, exactly for readable requests. */
  method SetThenGet(regs: ClockRegisters, cpu0: word, mem0: word) returns (r: Outcome, cpu: nat, mem: nat, cpuRead: nat, memRead: nat)
    requires PllOn(regs.cppcr) && PllOd(regs.cppcr) == 0
    modifies regs
    ensures r == DivisionByZero <==> OutOfScale(cpu0, mem0)
    ensures r == Success ==> cpu <= cpu0 && mem <= mem0 && (cpuRead == cpu && memRead == mem <==> Readable(cpu0, mem0))
  {
    hide Sound, Div, PllOn, PllOd, CDiv, MDiv, PllClock, OutOfScale, Readable, BothFast, Chosen, ClockRegisters.PllHz, ReadBackHz;
    ghost var chosen;
    r, cpu, mem, chosen := regs.SetClockSpeed(cpu0, mem0);
    cpuRead, memRead := 0, 0;
    if r == Success {
      cpuRead, memRead := regs.GetClockSpeed();
      ReadBackIsExact(cpu0, mem0, chosen.value);
    }
  }

  lemma ThirdOfThePll(cpu: word, r: Option<Choice>)
    requires cpu in {360_000_000, 396_000_000} && Chosen(cpu, cpu / 3, r)
    ensures r == Some(Choice(cpu / UNIT, 0, 2))
  {
    var target: nat, first: nat :| ChosenWith(cpu, cpu / 3, target, first, r);
    assert target == cpu && FastPll(cpu) == cpu;
    assert cpu / Div(0) == cpu;
    assert first == 0;
    assert Allowed(2, cpu, cpu / 3, 0);
    var i := r.value.mdiv;
    assert cpu / Div(2) <= cpu / 3 && Div(2) % Div(0) == 0;
    assert i <= 2;
    assert cpu / Div(1) > cpu / 3;
    assert i == 2;
  }

  lemma HalfOfThePll(r: Option<Choice>)
    requires Chosen(60_000_000, 60_000_000, r)
    ensures r == Some(Choice(10, 1, 1))
  {
    hide FirstDivider, FirstMemoryDivider, Allowed;
    var cpu: word := 60_000_000;
    var target: nat, first: nat :| ChosenWith(cpu, cpu, target, first, r);
    var p: nat :| p < DIV_COUNT && FirstDivider(p, MIN_PLL, cpu) && target == cpu * Div(p);
    SecondDivider(MIN_PLL, cpu, p);
    assert target == 120_000_000 && target / UNIT * UNIT == target;
    SecondDivider(target, cpu, first);
    SecondMemoryDivider(r, first);
  }

  lemma SecondDivider(hz: nat, limit: nat, i: nat)
    requires FirstDivider(i, hz, limit) && hz > limit && hz / 2 <= limit
    ensures i == 1
  {
    assert hz / Div(0) > limit && hz / Div(1) <= limit;
  }

  lemma SecondMemoryDivider(r: Option<Choice>, first: nat)
    requires first == 1 && (r == None <==> forall i :: 0 <= i < DIV_COUNT ==> !Allowed(i, 120_000_000, 60_000_000, first))
    requires r.Some? ==> UNIT * r.value.m == 120_000_000 && r.value.cdiv == first &&
                         FirstMemoryDivider(r.value.mdiv, 120_000_000, 60_000_000, first)
    ensures r == Some(Choice(10, 1, 1))
  {
    assert Allowed(1, 120_000_000, 60_000_000, 1);
    assert 120_000_000 / Div(0) > 60_000_000 && 120_000_000 / Div(1) <= 60_000_000 && Div(1) % Div(first) == 0;
    assert r.value.mdiv == 1;
  }

  /** DS2_LowClockSpeed, DS2_NominalClockSpeed and DS2_HighClockSpeed: the documented clocks are reached exactly. */
  method StandardSpeed(regs: ClockRegisters, cpu0: word, mem0: word) returns (r: Outcome, cpu: nat, mem: nat)
    requires (cpu0, mem0) in {(60_000_000, 60_000_000), (360_000_000, 120_000_000), (396_000_000, 132_000_000)}
    modifies regs
    ensures r == Success && cpu == cpu0 && mem == mem0
  {
    hide Chosen, Sound;
    ghost var chosen;
    StandardIsSound(cpu0, mem0);
    r, cpu, mem, chosen := regs.SetClockSpeed(cpu0, mem0);
    if cpu0 == 60_000_000 { HalfOfThePll(chosen); } else { ThirdOfThePll(cpu0, chosen); }
  }

  lemma StandardIsSound(cpu: nat, mem: nat)
    requires (cpu, mem) in {(60_000_000, 60_000_000), (360_000_000, 120_000_000), (396_000_000, 132_000_000)}
    ensures Sound(cpu, mem)
  {
  }
}
