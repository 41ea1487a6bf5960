/** Types and small arithmetic shared by the models of the zlib sources. */
module Common {

  type byte = x: int | 0 <= x < 256

  datatype Option<+T> = None | Some(value: T)

  function Min(a: int, b: int): int {
    if a < b then a else b
  }

  function Max(a: int, b: int): int {
    if a < b then b else a
  }

  const TWO32: int := 0x1_0000_0000

  /** Unsigned 32-bit subtraction, with the wrap-around of C's `uInt`. */
  function Sub32(a: int, b: int): (r: nat)
    ensures r < TWO32
  {
    (a - b) % TWO32
  }

  lemma Sub32Slides(a: int, b: int, w: int)
    ensures Sub32(a - w, Sub32(b, w)) == Sub32(a, b)
  {
  }

  lemma Sub32OfNext(a: int)
    ensures Sub32(a + 1, a) == 1
  {
  }

  function Pow2(n: nat): (r: nat)
    ensures r >= 1
  {
    if n == 0 then 1 else 2 * Pow2(n - 1)
  }

  lemma {:induction false} Pow2Grows(a: nat, b: nat)
    requires a <= b
    ensures Pow2(a) <= Pow2(b)
    decreases b
  {
    if a < b {
      Pow2Grows(a, b - 1);
    }
  }

  lemma Pow2Sizes()
    ensures Pow2(7) == 128 && Pow2(9) == 512 && Pow2(15) == 32768
  {
    assert Pow2(7) == 2 * Pow2(6) == 4 * Pow2(5) == 8 * Pow2(4) == 16 * Pow2(3) == 32 * Pow2(2);
    assert Pow2(9) == 2 * Pow2(8) == 4 * Pow2(7);
    assert Pow2(15) == 2 * Pow2(14) == 4 * Pow2(13) == 8 * Pow2(12) == 16 * Pow2(11) == 32 * Pow2(10) == 64 * Pow2(9);
  }

  lemma SizesFit(windowBits: nat, memLevel: nat)
    requires 9 <= windowBits <= 15 && 1 <= memLevel <= 9
    ensures 512 <= Pow2(windowBits) <= 32768 && 128 <= Pow2(memLevel + 6) <= 32768
  {
    Pow2Sizes();
    Pow2Grows(9, windowBits);
    Pow2Grows(windowBits, 15);
    Pow2Grows(7, memLevel + 6);
    Pow2Grows(memLevel + 6, 15);
  }

  lemma ModUnique(x: int, w: nat, q: int, r: nat)
    requires r < w && x == w * q + r
    ensures x % w == r && x / w == q
  {
    var d := x / w - q;
    assert w * d == r - x % w by {
      assert x == w * (x / w) + x % w;
      assert w * d == w * (x / w) - w * q;
    }
    MulSign(w, d);
  }

  lemma MulSign(w: nat, d: int)
    ensures d >= 1 ==> w * d >= w
    ensures d <= 0 ==> w * d <= 0
    ensures d <= -1 ==> w * d + w <= 0
  {
    if d >= 1 {
      assert w * d == w + w * (d - 1);
    } else if d <= -1 {
      assert w * d == w * (d + 1) - w;
    }
  }

  /** Two positions less than `w` apart use different slots of an array indexed modulo `w`. */
  lemma SlotsDiffer(a: nat, b: nat, w: nat)
    requires b < a < b + w
    ensures a % w != b % w
  {
    if a % w == b % w {
      var d := a / w - b / w;
      assert w * d == a - b by {
        assert a == w * (a / w) + a % w && b == w * (b / w) + b % w;
        assert w * d == w * (a / w) - w * (b / w);
      }
      MulSign(w, d);
    }
  }

  lemma SlotSlides(a: nat, w: nat)
    requires 0 < w <= a
    ensures (a - w) % w == a % w
  {
    assert a == w * (a / w) + a % w;
    assert w * (a / w - 1) == w * (a / w) - w;
    ModUnique(a - w, w, a / w - 1, a % w);
  }

  lemma SliceOfSlice(d: seq<byte>, a: nat, b: nat, from: nat, to: nat)
    requires a <= b <= |d| && from <= to <= b - a
    ensures d[a..b][from..to] == d[a + from..a + to]
  {
    var l, r := d[a..b][from..to], d[a + from..a + to];
    assert |l| == |r|;
    assert forall i :: 0 <= i < |l| ==> l[i] == d[a..b][from + i] == d[a + (from + i)] == r[i];
  }
}
