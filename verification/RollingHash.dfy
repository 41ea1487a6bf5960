/** The rolling hash of deflate: `h = ((h << hash_shift) ^ c) & hash_mask`. */
module RollingHash {
  import opened Common

  /** `hash_bits`; the size of the table and the shift follow from it. */
  datatype HashKey = HashKey(bits: nat) {
    ghost predicate Valid() {
      8 <= bits <= 16
    }

    function Size(): nat {
      Pow2(bits)
    }

    function Shift(): nat {
      (bits + 2) / 3
    }
  }

  // Words are natural numbers, taken apart one bit at a time.

  function Xor(a: nat, b: nat): nat
    decreases a + b
  {
    if a == 0 && b == 0 then 0 else (a + b) % 2 + 2 * Xor(a / 2, b / 2)
  }

  /** The low `j` bits of a word: masking with `(1 << j) - 1`. */
  function Low(x: nat, j: nat): (r: nat)
    ensures r < Pow2(j)
  {
    if j == 0 then 0 else x % 2 + 2 * Low(x / 2, j - 1)
  }

  function ShiftLeft(x: nat, s: nat): nat {
    if s == 0 then x else 2 * ShiftLeft(x, s - 1)
  }

  /** UPDATE_HASH. */
  function Update(k: HashKey, h: nat, c: byte): (r: nat)
    ensures r < k.Size()
  {
    Low(Xor(ShiftLeft(h, k.Shift()), c), k.bits)
  }

  function Hash3(k: HashKey, a: byte, b: byte, c: byte): (r: nat)
    ensures r < k.Size()
  {
    Update(k, Update(k, Update(k, 0, a), b), c)
  }

  lemma {:induction false} LowHalves(x: nat, j: nat)
    requires j > 0
    ensures Low(x, j) / 2 == Low(x / 2, j - 1) && Low(x, j) % 2 == x % 2
  {
  }

  lemma {:induction false} XorHalves(a: nat, b: nat)
    ensures Xor(a, b) / 2 == Xor(a / 2, b / 2) && Xor(a, b) % 2 == (a + b) % 2
  {
    assert Xor(0, 0) == 0;
  }

  lemma {:induction false} XorLow(a: nat, b: nat, j: nat)
    ensures Low(Xor(a, b), j) == Xor(Low(a, j), Low(b, j))
    decreases j
  {
    if j > 0 {
      XorLow(a / 2, b / 2, j - 1);
      XorHalves(a, b);
      LowHalves(Xor(a, b), j);
      LowHalves(a, j);
      LowHalves(b, j);
      var l, r := Low(Xor(a, b), j), Xor(Low(a, j), Low(b, j));
      XorHalves(Low(a, j), Low(b, j));
      assert l / 2 == r / 2;
      ParityAdds(Low(a, j), Low(b, j), a, b);
      assert l % 2 == r % 2;
    } else {
      assert Xor(0, 0) == 0;
    }
  }

  lemma ParityAdds(a: nat, b: nat, c: nat, d: nat)
    requires a % 2 == c % 2 && b % 2 == d % 2
    ensures (a + b) % 2 == (c + d) % 2
  {
  }

  lemma {:induction false} XorCancels(u: nat, a: nat, b: nat)
    requires Xor(u, a) == Xor(u, b)
    ensures a == b
    decreases u + a + b
  {
    if u + a + b > 0 {
      XorHalves(u, a);
      XorHalves(u, b);
      XorCancels(u / 2, a / 2, b / 2);
      ParityCancels(u, a, b);
      assert a == a / 2 * 2 + a % 2 && b == b / 2 * 2 + b % 2;
    }
  }

  lemma ParityCancels(u: nat, a: nat, b: nat)
    requires (u + a) % 2 == (u + b) % 2
    ensures a % 2 == b % 2
  {
  }

  lemma {:induction false} LowFits(x: nat, j: nat)
    requires x < Pow2(j)
    ensures Low(x, j) == x
  {
    if j > 0 {
      LowFits(x / 2, j - 1);
    }
  }

  lemma {:induction false} LowLow(x: nat, j: nat, k: nat)
    requires j <= k
    ensures Low(Low(x, k), j) == Low(x, j)
  {
    if j > 0 {
      LowLow(x / 2, j - 1, k - 1);
      LowHalves(x, k);
    }
  }

  lemma {:induction false} ShiftAgrees(h: nat, h': nat, s: nat, j: nat, j': nat)
    requires Low(h, j) == Low(h', j) && j' <= j + s
    ensures Low(ShiftLeft(h, s), j') == Low(ShiftLeft(h', s), j')
    decreases s
  {
    if s == 0 {
      LowLow(h, j', j);
      LowLow(h', j', j);
    } else if j' > 0 {
      ShiftAgrees(h, h', s - 1, j, j' - 1);
    }
  }

  /** Keys that agree on their low `j` bits agree on `j + hash_shift` low bits after one update. */
  lemma UpdateAgrees(k: HashKey, h: nat, h': nat, c: byte, j: nat, j': nat)
    requires Low(h, j) == Low(h', j)
    requires j' <= j + k.Shift() && j' <= k.bits
    ensures Low(Update(k, h, c), j') == Low(Update(k, h', c), j')
  {
    var x, x' := ShiftLeft(h, k.Shift()), ShiftLeft(h', k.Shift());
    ShiftAgrees(h, h', k.Shift(), j, j');
    LowLow(Xor(x, c), j', k.bits);
    LowLow(Xor(x', c), j', k.bits);
    XorLow(x, c, j');
    XorLow(x', c, j');
  }

  /** After three updates no older byte takes part in the key: `hash_shift * 3 >= hash_bits`. */
  lemma Forgets(k: HashKey, x: nat, a: byte, b: byte, c: byte)
    ensures Update(k, Update(k, Update(k, x, a), b), c) == Hash3(k, a, b, c)
  {
    var s := k.Shift();
    var j1 := Min(s, k.bits);
    var j2 := Min(2 * s, k.bits);
    var x1, y1 := Update(k, x, a), Update(k, 0, a);
    var x2, y2 := Update(k, x1, b), Update(k, y1, b);
    UpdateAgrees(k, x, 0, a, 0, j1);
    UpdateAgrees(k, x1, y1, b, j1, j2);
    UpdateAgrees(k, x2, y2, c, j2, k.bits);
    LowFits(Update(k, x2, c), k.bits);
    LowFits(Update(k, y2, c), k.bits);
  }

  lemma {:induction false} ByteFits(k: HashKey, j: nat)
    requires k.Valid() && 8 <= j <= k.bits
    ensures 256 <= Pow2(j)
    decreases j
  {
    if j == 8 {
      assert Pow2(8) == 2 * Pow2(7) == 4 * Pow2(6) == 8 * Pow2(5) == 16 * Pow2(4);
    } else {
      ByteFits(k, j - 1);
    }
  }

  lemma {:induction false} XorZero(a: nat)
    ensures Xor(0, a) == a
  {
    if a > 0 {
      XorZero(a / 2);
    }
  }

  lemma {:induction false} ShiftZero(s: nat)
    ensures ShiftLeft(0, s) == 0
  {
    if s > 0 {
      ShiftZero(s - 1);
    }
  }

  /** Setting the key to a byte is the same as updating a cleared key with it. */
  lemma FirstByte(k: HashKey, a: byte)
    requires k.Valid()
    ensures Update(k, 0, a) == a
  {
    XorZero(a);
    ShiftZero(k.Shift());
    ByteFits(k, k.bits);
    LowFits(a, k.bits);
  }

  /** With the first two bytes equal, equal keys force the third bytes to be equal. */
  lemma ThirdByte(k: HashKey, a: byte, b: byte, c: byte, c': byte)
    requires k.Valid()
    requires Hash3(k, a, b, c) == Hash3(k, a, b, c')
    ensures c == c'
  {
    var u := ShiftLeft(Update(k, Update(k, 0, a), b), k.Shift());
    XorLow(u, c, k.bits);
    XorLow(u, c', k.bits);
    ByteFits(k, k.bits);
    LowFits(c, k.bits);
    LowFits(c', k.bits);
    XorCancels(Low(u, k.bits), c, c');
  }
}
