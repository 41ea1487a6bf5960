/** CRC-32: the fast forms against the shift register that takes one message bit at a time. */
module Crc32 {
  import opened Gf2

  // The reference: a message is a sequence of bits, the register takes them one by one.

  function BitWord(bit: bool): bv32 {
    if bit then 1 else 0
  }

  function Register(c: bv32, bits: seq<bool>): bv32
    decreases |bits|
  {
    if bits == [] then c else Register(Step(Add(c, BitWord(bits[0]))), bits[1..])
  }

  /** The bits of a byte, least significant first. */
  function BitsOf(b: bv8): (r: seq<bool>)
    ensures |r| == 8
  {
    [b & 1 == 1, b & 2 == 2, b & 4 == 4, b & 8 == 8, b & 16 == 16, b & 32 == 32, b & 64 == 64, b & 128 == 128]
  }

  function MessageBits(buf: seq<bv8>): (r: seq<bool>)
    ensures |r| == 8 * |buf|
  {
    if buf == [] then [] else BitsOf(buf[0]) + MessageBits(buf[1..])
  }

  function Complement(c: bv32): bv32 {
    Add(c, 0xffffffff)
  }

  /** What crc32 promises: the register, complemented before and after. */
  function Crc(crc: bv32, buf: seq<bv8>): bv32 {
    Complement(Register(Complement(crc), MessageBits(buf)))
  }

  // Lemmas about the reference.

  lemma {:induction false} RegisterConcat(c: bv32, x: seq<bool>, y: seq<bool>)
    ensures Register(c, x + y) == Register(Register(c, x), y)
    decreases |x|
  {
    hide Add, Step;
    if x == [] {
      assert x + y == y;
    } else {
      RegisterConcat(Step(Add(c, BitWord(x[0]))), x[1..], y);
      assert (x + y)[1..] == x[1..] + y;
    }
  }

  lemma {:induction false} MessageConcat(a: seq<bv8>, b: seq<bv8>)
    ensures MessageBits(a + b) == MessageBits(a) + MessageBits(b)
    decreases |a|
  {
    hide BitsOf;
    if a == [] {
      assert a + b == b;
    } else {
      MessageConcat(a[1..], b);
      assert (a + b)[1..] == a[1..] + b;
      var x, y, z := BitsOf(a[0]), MessageBits(a[1..]), MessageBits(b);
      assert x + (y + z) == x + y + z;
    }
  }

  /** Running on is the same as starting over with the concatenation. */
  lemma CrcConcat(crc: bv32, a: seq<bv8>, b: seq<bv8>)
    ensures Crc(Crc(crc, a), b) == Crc(crc, a + b)
  {
    hide Add, Register;
    MessageConcat(a, b);
    RegisterConcat(Complement(crc), MessageBits(a), MessageBits(b));
    var r := Register(Complement(crc), MessageBits(a));
    AddAssoc(r, 0xffffffff, 0xffffffff);
    AddZero(r);
    AddZero(0xffffffff);
  }

  lemma {:induction false} RegisterLinear(c: bv32, d: bv32, bits: seq<bool>)
    ensures Register(Add(c, d), bits) == Add(Steps(c, |bits|), Register(d, bits))
    decreases |bits|
  {
    hide Add, Step;
    if bits != [] {
      var w := BitWord(bits[0]);
      AddAssoc(c, d, w);
      StepAdd(c, Add(d, w));
      RegisterLinear(Step(c), Step(Add(d, w)), bits[1..]);
    }
  }

  // Packing: up to 32 bits can be added to the register at once.

  function Pack(bits: seq<bool>): bv32
    decreases |bits|
  {
    if bits == [] then 0 else Add(BitWord(bits[0]), Double(Pack(bits[1..])))
  }

  lemma {:induction false} PackFits(bits: seq<bool>)
    requires |bits| <= 32
    ensures Fits(Pack(bits), |bits|)
    decreases |bits|
  {
    if bits != [] {
      PackFits(bits[1..]);
      PackHalf(bits);
    }
  }

  lemma {:induction false} TopClear(v: bv32, len: nat)
    requires Fits(v, len) && len <= 31
    ensures Half(Double(v)) == v
  {
    hide Add, Odd;
    FitsMore(v, len, 31);
    assert Fits(v, 31);
    Fits31(v);
    HalfOfDouble(v);
  }

  lemma HalfOfDouble(v: bv32)
    requires v <= 0x7fffffff
    ensures Half(Double(v)) == v
  {
  }

  lemma {:induction false} FitsMore(v: bv32, len: nat, len': nat)
    requires Fits(v, len) && len <= len'
    ensures Fits(v, len')
    decreases len'
  {
    hide Half;
    if len' > len {
      if len == 0 {
        assert Half(0) == 0 by { HalfZero(); }
        FitsMore(Half(v), 0, len' - 1);
      } else {
        FitsMore(Half(v), len - 1, len' - 1);
      }
    } else if len > 0 {
      FitsMore(Half(v), len - 1, len' - 1);
    }
  }

  lemma HalfZero()
    ensures Half(0) == 0
  {
  }

  lemma Fits31(v: bv32)
    requires Fits(v, 31)
    ensures v <= 0x7fffffff
  {
    var v1 := v >> 8;
    var v2 := v1 >> 8;
    var v3 := v2 >> 8;
    FitsByte(v, 31);
    FitsByte(v1, 23);
    FitsByte(v2, 15);
    assert Fits(v3, 7);
    Fits7(v3);
    FromTopByte(v);
  }

  lemma Fits7(v: bv32)
    requires Fits(v, 7)
    ensures v <= 0x7f
  {
    SevenHalves(v);
    ShiftedAway(v);
  }

  lemma SevenHalves(v: bv32)
    requires Fits(v, 7)
    ensures Half(Half(Half(Half(Half(Half(Half(v))))))) == 0
  {
    hide Half;
    var h2 := Half(Half(v));
    var h4 := Half(Half(h2));
    assert Fits(v, 7) == Fits(Half(v), 6) == Fits(h2, 5);
    assert Fits(h2, 5) == Fits(Half(h2), 4) == Fits(h4, 3);
    assert Fits(h4, 3) == Fits(Half(h4), 2) == Fits(Half(Half(h4)), 1) == Fits(Half(Half(Half(h4))), 0);
  }

  lemma ShiftedAway(v: bv32)
    requires Half(Half(Half(Half(Half(Half(Half(v))))))) == 0
    ensures v <= 0x7f
  {
  }

  lemma FromTopByte(v: bv32)
    requires v >> 8 >> 8 >> 8 <= 0x7f
    ensures v <= 0x7fffffff
  {
  }

  lemma {:induction false} PackHalf(bits: seq<bool>)
    requires 1 <= |bits| <= 32 && Fits(Pack(bits[1..]), |bits| - 1)
    ensures Half(Pack(bits)) == Pack(bits[1..]) && Odd(Pack(bits)) == bits[0]
  {
    var p := Pack(bits[1..]);
    TopClear(p, |bits| - 1);
    WordOnTop(p, bits[0]);
  }

  lemma WordOnTop(p: bv32, bit: bool)
    ensures Half(Add(BitWord(bit), Double(p))) == Half(Double(p)) && Odd(Add(BitWord(bit), Double(p))) == bit
  {
  }

  /** Up to 32 message bits go through the register as one addition and as many zero bits. */
  lemma {:induction false} RegisterPacked(c: bv32, bits: seq<bool>)
    requires |bits| <= 32
    ensures Register(c, bits) == Steps(Add(c, Pack(bits)), |bits|)
    decreases |bits|
  {
    if bits == [] {
      AddZero(c);
    } else {
      RegisterPacked(Step(Add(c, BitWord(bits[0]))), bits[1..]);
      PackFits(bits[1..]);
      PackedStep(c, BitWord(bits[0]), Pack(bits[1..]), |bits| - 1);
    }
  }

  lemma PackedStep(c: bv32, w: bv32, p: bv32, len: nat)
    requires Fits(p, len) && len <= 31
    ensures Step(Add(c, Add(w, Double(p)))) == Add(Step(Add(c, w)), p)
  {
    hide Add, Odd;
    AddAssoc(c, w, Double(p));
    StepAdd(Add(c, w), Double(p));
    TopClear(p, len);
    EvenDouble(p);
  }

  lemma EvenDouble(p: bv32)
    ensures !Odd(Double(p))
  {
  }

  lemma {:induction false} PackInjective(x: seq<bool>, y: seq<bool>)
    requires |x| == |y| <= 32 && Pack(x) == Pack(y)
    ensures x == y
    decreases |x|
  {
    hide Add, Odd, Half, Double;
    if x != [] {
      PackFits(x[1..]);
      PackFits(y[1..]);
      PackHalf(x);
      PackHalf(y);
      PackInjective(x[1..], y[1..]);
      assert x == [x[0]] + x[1..] && y == [y[0]] + y[1..];
    }
  }

  /** Two messages that differ only within a burst of at most 32 bits have the same register exactly when the
      bursts are equal: every error burst up to the width of the register is detected, wherever it is. */
  lemma BurstDetected(c: bv32, before: seq<bool>, x: seq<bool>, y: seq<bool>, after: seq<bool>)
    requires |x| == |y| <= 32
    ensures Register(c, before + x + after) == Register(c, before + y + after) <==> x == y
  {
    hide Add;
    if Register(c, before + x + after) == Register(c, before + y + after) {
      var b := Register(c, before);
      RegisterConcat(c, before + x, after);
      RegisterConcat(c, before, x);
      RegisterConcat(c, before + y, after);
      RegisterConcat(c, before, y);
      RegisterInjective(Register(b, x), Register(b, y), after);
      RegisterPacked(b, x);
      RegisterPacked(b, y);
      StepsInjective(Add(b, Pack(x)), Add(b, Pack(y)), |x|);
      AddComm(b, Pack(x));
      AddComm(b, Pack(y));
      AddCancels(Pack(x), Pack(y), b);
      PackInjective(x, y);
    }
  }

  lemma {:induction false} RegisterInjective(c: bv32, d: bv32, bits: seq<bool>)
    requires Register(c, bits) == Register(d, bits)
    ensures c == d
    decreases |bits|
  {
    hide Add, Step;
    if bits != [] {
      var w := BitWord(bits[0]);
      RegisterInjective(Step(Add(c, w)), Step(Add(d, w)), bits[1..]);
      StepInjective(Add(c, w), Add(d, w));
      AddCancels(c, d, w);
    }
  }

  lemma {:induction false} MessageInjective(a: seq<bv8>, b: seq<bv8>)
    requires |a| == |b| && MessageBits(a) == MessageBits(b)
    ensures a == b
    decreases |a|
  {
    if a != [] {
      assert BitsOf(a[0]) == MessageBits(a)[..8] && BitsOf(b[0]) == MessageBits(b)[..8];
      ByteInjective(a[0], b[0]);
      assert MessageBits(a[1..]) == MessageBits(a)[8..] && MessageBits(b[1..]) == MessageBits(b)[8..];
      MessageInjective(a[1..], b[1..]);
      assert a == [a[0]] + a[1..] && b == [b[0]] + b[1..];
    }
  }

  lemma ByteInjective(a: bv8, b: bv8)
    requires BitsOf(a) == BitsOf(b)
    ensures a == b
  {
    var x, y := BitsOf(a), BitsOf(b);
    assert x[0] == y[0] && x[1] == y[1] && x[2] == y[2] && x[3] == y[3];
    assert x[4] == y[4] && x[5] == y[5] && x[6] == y[6] && x[7] == y[7];
  }

  /** Changing up to four consecutive bytes of a message, keeping its length, always changes its CRC. */
  lemma FourBytesDetected(crc: bv32, before: seq<bv8>, x: seq<bv8>, y: seq<bv8>, after: seq<bv8>)
    requires |x| == |y| <= 4
    ensures Crc(crc, before + x + after) == Crc(crc, before + y + after) <==> x == y
  {
    hide Add, Register;
    if Crc(crc, before + x + after) == Crc(crc, before + y + after) {
      MessageConcat(before + x, after);
      MessageConcat(before, x);
      MessageConcat(before + y, after);
      MessageConcat(before, y);
      var c := Complement(crc);
      AddCancels(Register(c, MessageBits(before + x + after)), Register(c, MessageBits(before + y + after)), 0xffffffff);
      BurstDetected(c, MessageBits(before), MessageBits(x), MessageBits(y), MessageBits(after));
      MessageInjective(x, y);
    }
  }
}
