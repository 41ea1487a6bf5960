/** The part of the formats of RFC 1950 and RFC 1951 that level 0 uses: a bit-level reader for stored blocks and for the
    empty block that marks a partial flush, and the zlib wrapper around them. */
module Rfc1951 {
  import opened Common
  import Adler32

  // Bits, least significant first (section 3.1.1 of RFC 1951).

  function Bits(n: nat, k: nat): (r: seq<bool>)
    ensures |r| == k
  {
    if k == 0 then [] else [n % 2 == 1] + Bits(n / 2, k - 1)
  }

  function Value(bits: seq<bool>): (r: nat)
    ensures r < Pow2(|bits|)
  {
    if bits == [] then 0 else (if bits[0] then 1 else 0) + 2 * Value(bits[1..])
  }

  lemma {:induction false} ValueOfBits(n: nat, k: nat)
    requires n < Pow2(k)
    ensures Value(Bits(n, k)) == n
  {
    if k > 0 {
      ValueOfBits(n / 2, k - 1);
      assert Bits(n, k)[1..] == Bits(n / 2, k - 1);
    }
  }

  lemma TwiceProduct(p: nat, b: nat)
    ensures 2 * p * b == 2 * (p * b)
  {
  }

  lemma HalfOfSum(a: nat, h: nat)
    ensures (a + 2 * h) / 2 == a / 2 + h && (a + 2 * h) % 2 == a % 2
  {
  }

  lemma BitsStep(n: nat, k: nat)
    requires k > 0
    ensures Bits(n, k) == [n % 2 == 1] + Bits(n / 2, k - 1)
  {
  }

  lemma BitsSplit(n: nat, a: nat, h: nat, j: nat, b: nat, k: nat)
    requires j > 0 && n / 2 == a / 2 + h && n % 2 == a % 2
    requires Bits(a / 2 + h, j - 1 + k) == Bits(a / 2, j - 1) + Bits(b, k)
    ensures Bits(n, j + k) == Bits(a, j) + Bits(b, k)
  {
    hide Bits;
    BitsStep(n, j + k);
    BitsStep(a, j);
  }

  lemma {:induction false} BitsConcat(a: nat, j: nat, b: nat, k: nat)
    requires a < Pow2(j)
    ensures Bits(a + Pow2(j) * b, j + k) == Bits(a, j) + Bits(b, k)
  {
    if j > 0 {
      var h := Pow2(j - 1) * b;
      var n := a + 2 * h;
      TwiceProduct(Pow2(j - 1), b);
      HalfOfSum(a, h);
      BitsConcat(a / 2, j - 1, b, k);
      BitsSplit(n, a, h, j, b, k);
    } else {
      assert a + Pow2(j) * b == b;
    }
  }

  function ByteBits(s: seq<byte>): (r: seq<bool>)
    ensures |r| == 8 * |s|
  {
    if s == [] then [] else ByteBits(s[..|s| - 1]) + Bits(s[|s| - 1], 8)
  }

  lemma {:induction false} ByteBitsConcat(s: seq<byte>, t: seq<byte>)
    ensures ByteBits(s + t) == ByteBits(s) + ByteBits(t)
    decreases |t|
  {
    hide Bits;
    if t == [] {
      assert s + t == s;
    } else {
      var front, b := t[..|t| - 1], t[|t| - 1];
      ByteBitsConcat(s, front);
      assert (s + t)[..|s + t| - 1] == s + front && (s + t)[|s + t| - 1] == b;
      assert ByteBits(s) + ByteBits(front) + Bits(b, 8) == ByteBits(s) + (ByteBits(front) + Bits(b, 8));
    }
  }

  lemma ByteBitsOne(b: byte)
    ensures ByteBits([b]) == Bits(b, 8)
  {
    assert [b][..0] == [];
  }

  /** The `n` bytes whose bits start at `pos`. */
  function Bytes(z: seq<bool>, pos: nat, n: nat): (r: seq<byte>)
    requires pos + 8 * n <= |z|
    ensures |r| == n
  {
    if n == 0 then [] else
      ByteRange(z, pos + 8 * (n - 1));
      Bytes(z, pos, n - 1) + [Value(z[pos + 8 * (n - 1)..pos + 8 * (n - 1) + 8])]
  }

  lemma ByteRange(z: seq<bool>, pos: nat)
    requires pos + 8 <= |z|
    ensures Value(z[pos..pos + 8]) < 256
  {
    assert Pow2(8) == 2 * Pow2(7);
    Pow2Sizes();
  }

  lemma ByteValue(b: byte)
    ensures Value(Bits(b, 8)) == b
  {
    hide Bits, Value;
    assert Pow2(8) == 2 * Pow2(7);
    Pow2Sizes();
    ValueOfBits(b, 8);
  }

  lemma {:induction false} BytesOfByteBits(z: seq<bool>, s: seq<byte>, after: seq<bool>)
    ensures Bytes(z + ByteBits(s) + after, |z|, |s|) == s
    decreases |s|
  {
    hide Bits, Value;
    if s != [] {
      var front, b := s[..|s| - 1], s[|s| - 1];
      var all := z + ByteBits(s) + after;
      assert all == z + ByteBits(front) + (Bits(b, 8) + after);
      BytesOfByteBits(z, front, Bits(b, 8) + after);
      assert all[|z| + 8 * |front|..|z| + 8 * |front| + 8] == Bits(b, 8);
      ByteValue(b);
    }
  }

  // Reading blocks (sections 3.2.3 and 3.2.4).

  /** What was read: the data, whether the last block was met, and the position after it. */
  datatype Inflated = Inflated(data: seq<byte>, ended: bool, end: nat)

  /** Bits skipped to reach a byte boundary. */
  function Padding(pos: nat): (n: nat)
    ensures n < 8 && (pos + n) % 8 == 0
  {
    (8 - pos % 8) % 8
  }

  /** One block: a stored block, or a static block holding nothing but the end-of-block code. */
  function ReadBlock(z: seq<bool>, pos: nat): (r: Option<Inflated>)
    ensures r.Some? ==> pos < r.value.end <= |z|
  {
    if pos + 3 > |z| then None
    else if !z[pos + 1] && !z[pos + 2] then ReadStored(z, pos + 3 + Padding(pos + 3), z[pos])
    else if z[pos + 1] && !z[pos + 2] && pos + 10 <= |z| && Value(z[pos + 3..pos + 10]) == 0 then
      Some(Inflated([], z[pos], pos + 10))
    else None
  }

  /** LEN, NLEN and the bytes, from a byte boundary. */
  function ReadStored(z: seq<bool>, p: nat, last: bool): (r: Option<Inflated>)
    ensures r.Some? ==> p < r.value.end <= |z|
  {
    if p + 32 > |z| then None else
    var len, nlen := Value(z[p..p + 16]), Value(z[p + 16..p + 32]);
    if len + nlen != 65535 || p + 32 + 8 * len > |z| then None
    else Some(Inflated(Bytes(z, p + 32, len), last, p + 32 + 8 * len))
  }

  /** Blocks up to the last one, or up to the end of what is there. */
  function Inflate(z: seq<bool>, pos: nat): (r: Option<Inflated>)
    ensures r.Some? ==> r.value.end <= |z| && (!r.value.ended ==> r.value.end == |z|)
    decreases |z| - pos
  {
    if pos >= |z| then if pos == |z| then Some(Inflated([], false, pos)) else None
    else match ReadBlock(z, pos)
      case None => None
      case Some(b) =>
        if b.ended then Some(b) else
        match Inflate(z, b.end)
        case None => None
        case Some(i) => Some(i.(data := b.data + i.data))
  }

  lemma {:induction false} BytesStable(z: seq<bool>, x: seq<bool>, pos: nat, n: nat)
    requires pos + 8 * n <= |z|
    ensures Bytes(z + x, pos, n) == Bytes(z, pos, n)
    decreases n
  {
    if n > 0 {
      BytesStable(z, x, pos, n - 1);
      var p := pos + 8 * (n - 1);
      assert (z + x)[p..p + 8] == z[p..p + 8];
    }
  }

  lemma StoredStable(z: seq<bool>, x: seq<bool>, p: nat, last: bool)
    requires ReadStored(z, p, last).Some?
    ensures ReadStored(z + x, p, last) == ReadStored(z, p, last)
  {
    hide Value, Bytes;
    assert (z + x)[p..p + 16] == z[p..p + 16] && (z + x)[p + 16..p + 32] == z[p + 16..p + 32];
    BytesStable(z, x, p + 32, Value(z[p..p + 16]));
  }

  /** More bits behind a block do not change it. */
  lemma BlockStable(z: seq<bool>, x: seq<bool>, pos: nat)
    requires ReadBlock(z, pos).Some?
    ensures ReadBlock(z + x, pos) == ReadBlock(z, pos)
  {
    hide Value, ReadStored, Padding;
    if !z[pos + 1] && !z[pos + 2] {
      StoredStable(z, x, pos + 3 + Padding(pos + 3), z[pos]);
    } else {
      assert (z + x)[pos + 3..pos + 10] == z[pos + 3..pos + 10];
    }
  }

  /** What follows the last block is not looked at. */
  lemma {:induction false} EndedStable(z: seq<bool>, x: seq<bool>, pos: nat)
    requires Inflate(z, pos).Some? && Inflate(z, pos).value.ended
    ensures Inflate(z + x, pos) == Inflate(z, pos)
    decreases |z| - pos
  {
    BlockStable(z, x, pos);
    var b := ReadBlock(z, pos).value;
    if !b.ended {
      EndedStable(z, x, b.end);
    }
  }

  /** Blocks added at the end of an unfinished stream are read after those already there. */
  lemma {:induction false} InflateAppends(z: seq<bool>, x: seq<bool>, pos: nat, more: Inflated)
    requires Inflate(z, pos).Some? && !Inflate(z, pos).value.ended
    requires Inflate(z + x, |z|) == Some(more)
    ensures Inflate(z + x, pos) == Some(more.(data := Inflate(z, pos).value.data + more.data))
    decreases |z| - pos
  {
    hide ReadBlock;
    if pos < |z| {
      BlockStable(z, x, pos);
      var b := ReadBlock(z, pos).value;
      InflateAppends(z, x, b.end, more);
      assert b.data + (Inflate(z, b.end).value.data + more.data) == Inflate(z, pos).value.data + more.data;
    } else {
      assert Inflate(z, pos).value.data + more.data == more.data;
    }
  }

  // Writing blocks.

  function Zeros(n: nat): (r: seq<bool>)
    ensures |r| == n && forall i :: 0 <= i < n ==> !r[i]
  {
    seq(n, i => false)
  }

  /** Block type and padding of a stored block that starts at bit `pos`. */
  function StoredStart(pos: nat, last: bool): seq<bool> {
    [last, false, false] + Zeros(Padding(pos + 3))
  }

  /** LEN and NLEN. */
  function Lengths(len: nat): seq<bool> {
    Bits(len, 16) + Bits(Max(65535 - len, 0), 16)
  }

  function StoredBits(pos: nat, data: seq<byte>, last: bool): seq<bool> {
    StoredStart(pos, last) + Lengths(|data|) + ByteBits(data)
  }

  lemma StoredReads(z: seq<bool>, data: seq<byte>, last: bool)
    requires |data| <= 65535
    ensures var all := z + StoredBits(|z|, data, last);
      ReadBlock(all, |z|) == Some(Inflated(data, last, |all|))
  {
    hide Bits, Value, ByteBits;
    var all := z + StoredBits(|z|, data, last);
    var p := |z| + 3 + Padding(|z| + 3);
    assert Pow2(16) == 2 * Pow2(15);
    Pow2Sizes();
    assert all[p..p + 16] == Bits(|data|, 16);
    assert all[p + 16..p + 32] == Bits(65535 - |data|, 16);
    ValueOfBits(|data|, 16);
    ValueOfBits(65535 - |data|, 16);
    var before := z + StoredStart(|z|, last) + Lengths(|data|);
    assert all == before + ByteBits(data) + [];
    BytesOfByteBits(before, data, []);
  }

  /** A stored block added to an unfinished stream adds its bytes, and ends the stream when it is marked last. */
  lemma AddStored(z: seq<bool>, start: nat, sofar: seq<byte>, data: seq<byte>, last: bool)
    requires Inflate(z, start) == Some(Inflated(sofar, false, |z|)) && |data| <= 65535
    ensures var all := z + StoredBits(|z|, data, last);
      Inflate(all, start) == Some(Inflated(sofar + data, last, |all|))
  {
    hide ReadBlock, StoredBits;
    var x := StoredBits(|z|, data, last);
    StoredReads(z, data, last);
    var all := z + x;
    assert Inflate(all, |z|) == Some(Inflated(data, last, |all|)) by {
      if !last {
        assert Inflate(all, |all|) == Some(Inflated([], false, |all|));
        assert data + [] == data;
      }
    }
    InflateAppends(z, x, start, Inflated(data, last, |all|));
  }

  /** Block type and end-of-block code of an empty static block. */
  function MarkerBits(): seq<bool> {
    Bits(2, 3) + Bits(0, 7)
  }

  lemma MarkerReads(z: seq<bool>)
    ensures ReadBlock(z + MarkerBits(), |z|) == Some(Inflated([], false, |z| + 10))
  {
    var all := z + MarkerBits();
    assert Bits(2, 3) == [false] + Bits(1, 2) == [false] + ([true] + Bits(0, 1)) == [false, true, false];
    assert all[|z|..|z| + 3] == [false, true, false];
    assert all[|z| + 3..|z| + 10] == Bits(0, 7);
    ValueOfBits(0, 7);
  }

  /** The empty static block adds nothing and ends nothing. */
  lemma AddMarker(z: seq<bool>, start: nat, sofar: seq<byte>)
    requires Inflate(z, start) == Some(Inflated(sofar, false, |z|))
    ensures Inflate(z + MarkerBits(), start) == Some(Inflated(sofar, false, |z| + 10))
  {
    hide ReadBlock, Bits;
    var all := z + MarkerBits();
    MarkerReads(z);
    var none: seq<byte> := [];
    assert none + none == none;
    assert Inflate(all, |all|) == Some(Inflated([], false, |all|));
    assert Inflate(all, |z|) == Some(Inflated([], false, |all|));
    InflateAppends(z, MarkerBits(), start, Inflated([], false, |all|));
    assert sofar + [] == sofar;
  }

  // The zlib wrapper (section 2.2 of RFC 1950).

  /** Sixteen bits, most significant byte first. */
  function Msb(w: nat): (r: seq<byte>)
    ensures |r| == 2
  {
    [w / 256 % 256, w % 256]
  }

  /** CMF and FLG: method 8 with a window of at most 32K, no preset dictionary, and the check bits. */
  predicate ValidHeader(cmf: byte, flg: byte) {
    cmf % 16 == 8 && cmf / 16 <= 7 && (256 * cmf + flg) % 31 == 0 && flg / 32 % 2 == 0
  }

  /** The data of a zlib stream: header, blocks up to the last, and the Adler-32 of the data. */
  function ZlibDecode(s: seq<byte>): Option<seq<byte>> {
    if |s| < 2 || !ValidHeader(s[0], s[1]) then None
    else match Inflate(ByteBits(s), 16)
      case None => None
      case Some(i) =>
        var end := (i.end + 7) / 8;
        var adler := Adler32.Adler(1, i.data);
        if i.ended && |s| == end + 4 && s[end..] == Msb(adler / 65536) + Msb(adler % 65536) then Some(i.data) else None
  }
}
