/** Level 0: deflate_stored under the deflate driver, down to the bytes put out. */
module StoredStream {
  import opened Common
  import opened Rfc1951
  import opened Zlib
  import Adler32

  const MAX_STORED := 65535

  type WindowBits = x: int | 9 <= x <= 15 witness 15

  /** `value` shifted right by `k` bits. */
  function ShiftRight(value: nat, k: nat): nat {
    if k == 0 then value else ShiftRight(value / 2, k - 1)
  }

  /** What is shifted out, and what is left. */
  lemma {:induction false} ShiftSplits(value: nat, k: nat) returns (lo: nat)
    ensures lo < Pow2(k) && value == lo + Pow2(k) * ShiftRight(value, k)
  {
    if k == 0 {
      lo := 0;
    } else {
      var rest := ShiftSplits(value / 2, k - 1);
      lo := value % 2 + 2 * rest;
      var hi := ShiftRight(value, k);
      assert 2 * (Pow2(k - 1) * hi) == Pow2(k) * hi;
    }
  }

  lemma {:induction false} Pow2Adds(a: nat, b: nat)
    ensures Pow2(a) * Pow2(b) == Pow2(a + b)
  {
    if a > 0 {
      Pow2Adds(a - 1, b);
      assert Pow2(a) * Pow2(b) == 2 * (Pow2(a - 1) * Pow2(b));
    }
  }

  lemma Pow2Eight()
    ensures Pow2(8) == 256 && Pow2(16) == 65536
  {
    assert Pow2(8) == 2 * Pow2(7) && Pow2(16) == 2 * Pow2(15);
    Pow2Sizes();
  }

  lemma ShortBits(s: seq<byte>, w: nat)
    requires w < 65536
    ensures ByteBits(s + [w % 256, w / 256]) == ByteBits(s) + Bits(w, 16)
  {
    hide Bits, ByteBits;
    Pow2Eight();
    BitsConcat(w % 256, 8, w / 256, 8);
    ByteBitsOne(w % 256);
    ByteBitsOne(w / 256);
    ByteBitsConcat([w % 256], [w / 256]);
    ByteBitsConcat(s, [w % 256] + [w / 256]);
    assert [w % 256] + [w / 256] == [w % 256, w / 256];
  }

  lemma OneByteBits(s: seq<byte>, b: byte)
    ensures ByteBits(s + [b]) == ByteBits(s) + Bits(b, 8)
  {
    assert (s + [b])[..|s|] == s;
  }

  /** The buffer with `value` set above its `bv` valid bits. */
  function OrShifted(bb: nat, bv: nat, value: nat): nat {
    bb + Pow2(bv) * value
  }

  lemma MulLe(p: nat, a: nat, b: nat)
    requires a <= b
    ensures p * a <= p * b
  {
    var d: nat := b - a;
    assert p * b == p * a + p * d;
  }

  lemma ProductBelow(p: nat, v: nat, q: nat)
    requires v < q
    ensures p * v + p <= p * q
  {
    MulLe(p, v + 1, q);
    assert p * (v + 1) == p * v + p;
  }

  lemma QuotientBelow(lo: nat, q: nat, hi: nat, r: nat)
    requires lo + q * hi < q * r
    ensures hi < r
  {
    if hi >= r {
      MulLe(q, r, hi);
    }
  }

  lemma ShiftedOut(bb: nat, p: nat, q: nat, value: nat, hi: nat, lo: nat)
    requires bb < p && p * q == 65536 && lo < q && value == lo + q * hi
    ensures bb + p * lo < 65536 && (bb + p * value) % 65536 == bb + p * lo
  {
    assert p * value == p * lo + 65536 * hi by {
      assert p * (q * hi) == p * q * hi;
      assert p * value == p * lo + p * (q * hi);
    }
    ProductBelow(p, lo, q);
  }

  /** The bits of a value that crosses the end of the 16-bit buffer: the full buffer, then what is left of the value. */
  lemma BufferOverflows(bb: nat, bv: nat, value: nat, length: nat)
    requires bv <= 16 && bb < Pow2(bv) && value < Pow2(length) && bv + length > 16
    ensures var rest := bv + length - 16;
      && ShiftRight(value, 16 - bv) < Pow2(rest)
      && Bits(bb, bv) + Bits(value, length) ==
         Bits(OrShifted(bb, bv, value) % 65536, 16) + Bits(ShiftRight(value, 16 - bv), rest)
  {
    hide Bits, Pow2, ShiftRight;
    var rest := bv + length - 16;
    Pow2Adds(bv, 16 - bv);
    Pow2Eight();
    Pow2Adds(16 - bv, rest);
    var hi := ShiftRight(value, 16 - bv);
    var lo := ShiftSplits(value, 16 - bv);
    QuotientBelow(lo, Pow2(16 - bv), hi, Pow2(rest));
    ShiftedOut(bb, Pow2(bv), Pow2(16 - bv), value, hi, lo);
    BitsConcat(lo, 16 - bv, hi, rest);
    BitsConcat(bb, bv, lo, 16 - bv);
    assert Bits(bb, bv) + (Bits(lo, 16 - bv) + Bits(hi, rest)) == Bits(bb, bv) + Bits(lo, 16 - bv) + Bits(hi, rest);
  }

  /** Adding a value above the valid bits of the buffer. */
  lemma BufferGrows(bb: nat, bv: nat, value: nat, length: nat)
    requires bb < Pow2(bv) && value < Pow2(length)
    ensures Bits(OrShifted(bb, bv, value), bv + length) == Bits(bb, bv) + Bits(value, length)
    ensures OrShifted(bb, bv, value) < Pow2(bv + length)
  {
    hide Bits, Pow2;
    BitsConcat(bb, bv, value, length);
    Pow2Adds(bv, length);
    ProductBelow(Pow2(bv), value, Pow2(length));
  }

  lemma {:induction false} ZeroBits(k: nat)
    ensures Bits(0, k) == Zeros(k)
  {
    if k > 0 {
      ZeroBits(k - 1);
      assert Zeros(k) == [false] + Zeros(k - 1);
    }
  }

  /** Rounding the buffer up to `k` bits adds zeros. */
  lemma BitsPad(bb: nat, bv: nat, k: nat)
    requires bb < Pow2(bv) && bv <= k
    ensures Bits(bb, k) == Bits(bb, bv) + Zeros(k - bv) && bb < Pow2(k)
  {
    hide Bits, Pow2;
    BitsConcat(bb, bv, 0, k - bv);
    ZeroBits(k - bv);
    Pow2Grows(bv, k);
  }

  /** LEN and NLEN as bytes. */
  function LengthBytes(len: nat): (r: seq<byte>)
    requires len <= MAX_STORED
    ensures |r| == 4
  {
    [len % 256, len / 256, (65535 - len) % 256, (65535 - len) / 256]
  }

  /** The window ends with the input up to `held`. */
  ghost predicate Mirror(win: seq<byte>, strstart: nat, input: seq<byte>, held: nat) {
    strstart <= |win| && strstart <= held <= |input| && win[..strstart] == input[held - strstart..held]
  }

  lemma MirrorAgrees(win: seq<byte>, strstart: nat, input: seq<byte>, input': seq<byte>, held: nat)
    requires Mirror(win, strstart, input, held) && input <= input'
    ensures Mirror(win, strstart, input', held)
  {
    assert input'[held - strstart..held] == input[held - strstart..held];
  }

  lemma PrefixAgrees(a: seq<byte>, b: seq<byte>, n: nat)
    requires n <= |a|
    ensures (a + b)[..n] == a[..n]
  {
  }

  lemma MirrorGrows(win: seq<byte>, win': seq<byte>, strstart: nat, n: nat, input: seq<byte>, held: nat)
    requires Mirror(win, strstart, input, held) && strstart + n <= |win'| && held + n <= |input| && |win| == |win'|
    requires win'[..strstart] == win[..strstart] && win'[strstart..strstart + n] == input[held..held + n]
    ensures Mirror(win', strstart + n, input, held + n)
  {
    assert win'[..strstart + n] == win'[..strstart] + win'[strstart..strstart + n];
    assert input[held - strstart..held + n] == input[held - strstart..held] + input[held..held + n];
  }

  lemma MirrorSlides(win: seq<byte>, win': seq<byte>, strstart: nat, w: nat, input: seq<byte>, held: nat)
    requires Mirror(win, strstart, input, held) && w <= strstart && |win| == |win'|
    requires win'[..strstart - w] == win[w..strstart]
    ensures Mirror(win', strstart - w, input, held)
  {
    assert win'[..strstart - w] == win[..strstart][w..];
    assert input[held - strstart..held][w..] == input[held - (strstart - w)..held];
  }

  lemma MirrorPart(win: seq<byte>, strstart: nat, input: seq<byte>, held: nat, from: nat, to: nat)
    requires Mirror(win, strstart, input, held) && from <= to <= strstart
    ensures win[from..to] == input[held - strstart + from..held - strstart + to]
  {
    assert win[from..to] == win[..strstart][from..to];
    SliceOfSlice(input, held - strstart, held, from, to);
  }

  /** The bits `z` from `start` on are blocks that hold `data`; when the last one is among them, `tail` more bits follow. */
  ghost predicate Holds(z: seq<bool>, start: nat, data: seq<byte>, ended: bool, tail: nat) {
    tail <= |z| && Inflate(z, start) == Some(Inflated(data, ended, |z| - tail))
  }

  /** A stored block takes its bytes from `data`. */
  lemma HoldsMore(z: seq<bool>, start: nat, data: seq<byte>, done: nat, to: nat, last: bool)
    requires done <= to <= |data| && to - done <= MAX_STORED
    requires Holds(z, start, data[..done], false, 0)
    ensures Holds(z + StoredBits(|z|, data[done..to], last), start, data[..to], last, 0)
  {
    hide StoredBits, Inflate;
    AddStored(z, start, data[..done], data[done..to], last);
    assert data[..done] + data[done..to] == data[..to];
  }

  /** How few bytes stored blocks can take: five for each block besides the data, and no block holds more than 65535. */
  ghost predicate Sized(sent: int, overhead: int, done: int, count: int, ended: bool) {
    sent >= overhead + done + 5 * count && done <= MAX_STORED * count && (ended ==> count >= 1)
  }

  lemma AdlerContinues(x: seq<byte>, y: seq<byte>)
    ensures Adler32.Adler(Adler32.Adler(1, x), y) == Adler32.Adler(1, x + y)
  {
    hide Adler32.Sum1, Adler32.Sum2;
    Adler32.StartIsOne();
    var a, b := Adler32.Sum1(1, x) % Adler32.BASE, Adler32.Sum2(1, 0, x) % Adler32.BASE;
    Adler32.JoinSplits(a, b);
    Adler32.SumsContinue(1, 0, x, y);
  }

  /** A z_stream at level 0 together with its deflate_state. */
  class Stream {
    const wBits: WindowBits
    const wSize: nat
    const window: array<byte>
    const pendingBuf: array<byte>

    // The caller's side: all input handed over so far, how much of it was read, what may still be read of it; all
    // output written through next_out so far, and the room for more.
    var input: seq<byte>
    var totalIn: nat
    var availIn: nat
    var output: seq<byte>
    var availOut: nat
    var adler: nat

    var status: Status
    var wrap: int
    var lastFlush: int
    var pendingOut: nat
    var pending: nat
    var biBuf: nat
    var biValid: nat
    var strstart: nat
    var blockStart: nat
    var insert: nat
    var matches: nat
    var highWater: nat

    /** Input mirrored by the window, input at the last restart of the window, and input put out in blocks. */
    ghost var held: nat
    ghost var restart: nat
    ghost var done: nat
    /** Where the blocks start in the output, what follows them, how many stored blocks there are and whether the
        last one is out. */
    ghost var start: nat
    ghost var tail: nat
    ghost var count: nat
    ghost var ended: bool

    /** The buffer of pending output. Bytes are put at index `pending`, so they follow the pending bytes only while
        none of those was taken out. */
    ghost predicate BufferOk()
      reads this`pendingOut, this`pending, this`biBuf, this`biValid
    {
      && pendingOut + pending <= pendingBuf.Length
      && (pending == 0 ==> pendingOut == 0)
      && biValid <= 16 && biBuf < Pow2(biValid)
    }

    /** All bytes of the stream so far, put out or pending. */
    ghost function Sent(): (s: seq<byte>)
      reads this`pendingOut, this`pending, this`output, pendingBuf
      ensures pendingOut + pending <= pendingBuf.Length ==> |s| == |output| + pending
    {
      if pendingOut + pending <= pendingBuf.Length then output + pendingBuf[pendingOut..pendingOut + pending] else output
    }

    /** All bits of the stream so far. */
    ghost function AllBits(): (z: seq<bool>)
      reads this`pendingOut, this`pending, this`output, this`biBuf, this`biValid, pendingBuf
      ensures |z| == 8 * |Sent()| + biValid
    {
      ByteBits(Sent()) + Bits(biBuf, biValid)
    }

    /** put_byte. */
    method PutByte(b: byte)
      requires BufferOk() && pendingOut == 0 && pending < pendingBuf.Length
      modifies this`pending, pendingBuf
      ensures BufferOk() && pending == old(pending) + 1 && Sent() == old(Sent()) + [b]
    {
      pendingBuf[pending] := b;
      pending := pending + 1;
      assert pendingBuf[..pending] == old(pendingBuf[..pending]) + [b];
    }

    /** put_short of trees.c: least significant byte first. */
    method PutShort(w: nat)
      requires BufferOk() && pendingOut == 0 && pending + 2 <= pendingBuf.Length && w < 65536
      modifies this`pending, pendingBuf
      ensures BufferOk() && pending == old(pending) + 2 && Sent() == old(Sent()) + [w % 256, w / 256]
    {
      PutByte(w % 256);
      PutByte(w / 256);
    }

    /** putShortMSB. */
    method PutShortMsb(w: nat)
      requires BufferOk() && pendingOut == 0 && pending + 2 <= pendingBuf.Length && w < 65536
      modifies this`pending, pendingBuf
      ensures BufferOk() && pending == old(pending) + 2 && Sent() == old(Sent()) + Msb(w)
    {
      PutByte(w / 256);
      PutByte(w % 256);
    }

    /** send_bits. */
    method SendBits(value: nat, length: nat)
      requires BufferOk() && pendingOut == 0 && pending + 2 <= pendingBuf.Length
      requires 1 <= length <= 15 && value < Pow2(length)
      modifies this`pending, this`biBuf, this`biValid, pendingBuf
      ensures BufferOk() && AllBits() == old(AllBits()) + Bits(value, length) && old(Sent()) <= Sent()
      ensures if old(biValid) > 16 - length then pending == old(pending) + 2 && biValid == old(biValid) + length - 16
              else pending == old(pending) && biValid == old(biValid) + length
    {
      hide Sent, Bits, ByteBits, Pow2, OrShifted, ShiftRight;
      ghost var sent, bits := Sent(), Bits(biBuf, biValid) + Bits(value, length);
      if biValid > 16 - length {
        BufferOverflows(biBuf, biValid, value, length);
        var full := OrShifted(biBuf, biValid, value) % 65536;
        PutShort(full);
        ShortBits(sent, full);
        biBuf := ShiftRight(value, 16 - biValid);
        biValid := biValid + length - 16;
        assert AllBits() == ByteBits(sent) + Bits(full, 16) + Bits(biBuf, biValid) == ByteBits(sent) + bits;
      } else {
        BufferGrows(biBuf, biValid, value, length);
        biBuf := OrShifted(biBuf, biValid, value);
        biValid := biValid + length;
      }
    }

    /** bi_flush: at most 7 bits stay in the buffer. */
    method BiFlush()
      requires BufferOk() && (biValid >= 8 ==> pendingOut == 0 && pending + 2 <= pendingBuf.Length)
      modifies this`pending, this`biBuf, this`biValid, pendingBuf
      ensures BufferOk() && AllBits() == old(AllBits()) && biValid == old(biValid) % 8 && old(Sent()) <= Sent()
      ensures pending == old(pending) + old(biValid) / 8 && (old(biValid) < 8 ==> Sent() == old(Sent()))
    {
      hide Sent, Bits, ByteBits, Pow2;
      ghost var sent := Sent();
      Pow2Eight();
      if biValid == 16 {
        ShortBits(sent, biBuf);
        PutShort(biBuf);
        biBuf := 0;
        biValid := 0;
        BitsPad(0, 0, 0);
      } else if biValid >= 8 {
        ByteLeaves(sent, biBuf, biValid);
        PutByte(biBuf % 256);
        biBuf := biBuf / 256;
        biValid := biValid - 8;
      }
    }

    /** bi_windup: the bits in the buffer are put out, padded with zeros to a byte boundary. */
    method BiWindup()
      requires BufferOk() && pendingOut == 0 && pending + 2 <= pendingBuf.Length
      modifies this`pending, this`biBuf, this`biValid, pendingBuf
      ensures BufferOk() && AllBits() == old(AllBits()) + Zeros(Padding(old(biValid))) && biValid == 0 && old(Sent()) <= Sent()
      ensures pending == old(pending) + (old(biValid) + 7) / 8
    {
      hide Sent, Bits, ByteBits, Pow2;
      ghost var sent := Sent();
      Pow2Eight();
      if biValid > 8 {
        BitsPad(biBuf, biValid, 16);
        ShortBits(sent, biBuf);
        PutShort(biBuf);
      } else if biValid > 0 {
        BitsPad(biBuf, biValid, 8);
        OneByteBits(sent, biBuf);
        PutByte(biBuf);
      }
      biBuf := 0;
      biValid := 0;
      BitsPad(0, 0, 0);
    }

    /** flush_pending. */
    method FlushPending()
      requires BufferOk() && (biValid >= 8 ==> pendingOut == 0 && pending + 2 <= pendingBuf.Length)
      modifies this`pending, this`pendingOut, this`output, this`availOut, this`biBuf, this`biValid, pendingBuf
      ensures BufferOk() && AllBits() == old(AllBits()) && biValid == old(biValid) % 8 && old(Sent()) <= Sent()
      ensures old(biValid) < 8 ==> Sent() == old(Sent())
      ensures var n := old(pending) + old(biValid) / 8;
        && pending == Max(n - old(availOut), 0) && availOut == Max(old(availOut) - n, 0)
        && |output| == |old(output)| + Min(n, old(availOut)) && old(output) <= output
    {
      hide Sent, ByteBits, Bits, Pow2;
      BiFlush();
      TakeOut();
    }

    method TakeOut()
      requires BufferOk()
      modifies this`pending, this`pendingOut, this`output, this`availOut
      ensures BufferOk() && Sent() == old(Sent())
      ensures pending == Max(old(pending) - old(availOut), 0) && availOut == Max(old(availOut) - old(pending), 0)
      ensures |output| == |old(output)| + Min(old(pending), old(availOut)) && old(output) <= output
    {
      var len := pending;
      if len > availOut { len := availOut; }
      if len == 0 { return; }
      assert pendingBuf[pendingOut..pendingOut + pending] ==
        pendingBuf[pendingOut..pendingOut + len] + pendingBuf[pendingOut + len..pendingOut + pending];
      output := output + pendingBuf[pendingOut..pendingOut + len];
      pendingOut := pendingOut + len;
      availOut := availOut - len;
      pending := pending - len;
      if pending == 0 {
        pendingOut := 0;
      }
    }

    /** Block type of a stored block, and the padding behind it. */
    method StartStored(last: bool)
      requires BufferOk() && biValid <= 7 && pendingOut == 0 && pending + 4 <= pendingBuf.Length
      modifies this`pending, this`biBuf, this`biValid, pendingBuf
      ensures BufferOk() && AllBits() == old(AllBits()) + StoredStart(|old(AllBits())|, last) && biValid == 0
      ensures pending == old(pending) + (old(biValid) + 10) / 8 && old(Sent()) <= Sent()
    {
      hide Sent, Bits, ByteBits, Zeros, Padding, StoredStart;
      TypeBits(last);
      StartBits(AllBits(), |Sent()|, biValid, last);
      SendBits(if last then 1 else 0, 3);
      BiWindup();
    }

    /** _tr_stored_block: the `len` bytes at `from` of the window as one stored block. */
    method TrStoredBlock(from: nat, len: nat, last: bool)
      requires BufferOk() && biValid <= 7 && pendingOut == 0 && len <= MAX_STORED && from + len <= window.Length
      requires pending + (biValid + 42) / 8 + len <= pendingBuf.Length && window != pendingBuf
      modifies this`pending, this`biBuf, this`biValid, pendingBuf
      ensures BufferOk() && AllBits() == old(AllBits()) + StoredBits(|old(AllBits())|, window[from..from + len], last)
      ensures biValid == 0 && pending == old(pending) + (old(biValid) + 42) / 8 + len && old(Sent()) <= Sent()
      ensures pending >= 4 + len && pendingBuf[pending - len - 4..pending - len] == LengthBytes(len)
    {
      hide Sent, Bits, ByteBits, StoredStart, StoredBits;
      ghost var z := AllBits();
      StartStored(last);
      StoredBytes(z, Sent(), window[from..from + len], last);
      PutLengths(len);
      ghost var lengths := pendingBuf[pending - 4..pending];
      PutWindow(from, len);
      assert pendingBuf[pending - len - 4..pending - len] == lengths;
    }

    /** LEN and its complement. */
    method PutLengths(len: nat)
      requires BufferOk() && pendingOut == 0 && pending + 4 <= pendingBuf.Length && len <= MAX_STORED
      modifies this`pending, pendingBuf
      ensures BufferOk() && pending == old(pending) + 4 && pendingBuf[pending - 4..pending] == LengthBytes(len)
      ensures Sent() == old(Sent()) + [len % 256, len / 256] + [(65535 - len) % 256, (65535 - len) / 256]
    {
      hide Pow2;
      PutShort(len);
      PutShort(65535 - len);
      assert Sent()[|Sent()| - 4..] == LengthBytes(len);
      assert pendingBuf[pending - 4..pending] == Sent()[|Sent()| - 4..];
    }

    /** While nothing was taken out of the pending output. */
    lemma FreshSent()
      requires pendingOut == 0 && pending <= pendingBuf.Length
      ensures Sent() == output + pendingBuf[..pending]
    {
      assert pendingBuf[0..pending] == pendingBuf[..pending];
    }

    /** The copy of a block from the window to the pending output. */
    method PutWindow(from: nat, len: nat)
      requires BufferOk() && pendingOut == 0 && from + len <= window.Length && pending + len <= pendingBuf.Length
      requires window != pendingBuf
      modifies this`pending, pendingBuf
      ensures BufferOk() && Sent() == old(Sent()) + window[from..from + len] && pending == old(pending) + len
      ensures pendingBuf[..old(pending)] == old(pendingBuf[..pending])
    {
      hide Pow2, Sent;
      FreshSent();
      ghost var was, part := pendingBuf[..], window[from..from + len];
      forall i | 0 <= i < len {
        pendingBuf[pending + i] := window[from + i];
      }
      CopiedBehind(was, pendingBuf[..], pending, part);
      pending := pending + len;
      FreshSent();
    }

    /** The writes over the lengths. */
    method WriteLengths(len: nat)
      requires 4 <= pending <= pendingBuf.Length && len <= MAX_STORED
      modifies pendingBuf
      ensures pendingBuf[pending - 4..pending] == LengthBytes(len) && pendingBuf[..pending - 4] == old(pendingBuf[..pending - 4])
    {
      pendingBuf[pending - 4] := len % 256;
      pendingBuf[pending - 3] := len / 256;
      pendingBuf[pending - 2] := (65535 - len) % 256;
      pendingBuf[pending - 1] := (65535 - len) / 256;
    }

    /** The lengths of the empty block just put are replaced. */
    method PatchLengths(ghost z: seq<bool>, len: nat, ghost last: bool)
      requires BufferOk() && pendingOut == 0 && 4 <= pending && len <= MAX_STORED && biValid == 0
      requires AllBits() == z + StoredBits(|z|, [], last) && pendingBuf[pending - 4..pending] == LengthBytes(0)
      modifies pendingBuf
      ensures AllBits() == z + StoredStart(|z|, last) + Lengths(len)
      ensures |Sent()| == |old(Sent())| && Sent()[..|Sent()| - 4] == old(Sent())[..|Sent()| - 4]
    {
      hide Bits, ByteBits, StoredStart, StoredBits, Lengths, Pow2, Zeros, Sent, LengthBytes;
      ghost var sent := output + pendingBuf[..pending - 4];
      BitsPad(0, 0, 0);
      SentEnds(0);
      LengthsReplaced(z, sent, last, len);
      WriteLengths(len);
      SentEnds(len);
    }

    lemma SentEnds(len: nat)
      requires pendingOut == 0 && 4 <= pending <= pendingBuf.Length && len <= MAX_STORED
      requires pendingBuf[pending - 4..pending] == LengthBytes(len)
      ensures Sent() == output + pendingBuf[..pending - 4] + LengthBytes(len)
    {
      hide LengthBytes;
      assert pendingBuf[..pending] == pendingBuf[..pending - 4] + LengthBytes(len);
      assert pendingBuf[0..0 + pending] == pendingBuf[..pending];
    }

    /** The header of a stored block that is copied directly: that of an empty block, with its lengths replaced. */
    method DirectHeader(len: nat, last: bool)
      requires BufferOk() && biValid <= 7 && pending == 0 && len <= MAX_STORED
      requires availOut >= (biValid + 42) / 8 && pendingBuf.Length >= 8 && window != pendingBuf
      modifies this`pending, this`pendingOut, this`output, this`availOut, this`biBuf, this`biValid, pendingBuf
      ensures BufferOk() && AllBits() == old(AllBits()) + StoredStart(|old(AllBits())|, last) + Lengths(len)
      ensures pending == biValid == 0 && availOut == old(availOut) - (old(biValid) + 42) / 8
      ensures |output| == |old(output)| + (old(biValid) + 42) / 8 && old(Sent()) <= Sent()
    {
      hide Sent, Bits, ByteBits, StoredStart, StoredBits, Lengths, Pow2;
      ghost var z := AllBits();
      TrStoredBlock(0, 0, last);
      assert window[0..0] == [];
      ghost var sent := Sent();
      PatchLengths(z, len, last);
      PrefixKept(old(Sent()), sent, Sent());
      FlushPending();
    }

    // What holds between the steps of deflate_stored.

    ghost predicate Shape() {
      && 512 <= wSize <= 32768 && window.Length == 2 * wSize
      && 512 <= pendingBuf.Length && window != pendingBuf
    }

    /** The unread input is the rest of the input, and the checksum covers what was read. */
    ghost predicate InputOk()
      reads this`input, this`totalIn, this`availIn, this`wrap, this`adler
    {
      totalIn + availIn == |input| && (wrap != 0 ==> adler == Adler32.Adler(1, input[..totalIn]))
    }

    /** The window ends with the input up to `held`, and has kept the last `wSize` bytes of it. */
    ghost predicate WindowOk()
      reads this`input, this`strstart, this`held, this`restart, this`highWater, this`insert, this`matches, window
    {
      && Mirror(window[..], strstart, input, held) && held <= |input|
      && strstart < 2 * wSize && strstart <= highWater <= 2 * wSize
      && restart <= held && strstart >= Min(held - restart, wSize)
      && insert <= wSize && matches <= 2
    }

    /** Conservation: what is out in blocks, what waits in the window and what is unread make up the input. While input
        was copied past the window, nothing waits in it. */
    ghost predicate Conserved()
      reads this`totalIn, this`strstart, this`blockStart, this`held, this`done
    {
      && blockStart <= strstart && done + (strstart - blockStart) == totalIn && held <= totalIn
      && (held < totalIn ==> blockStart == strstart)
    }

    /** The bits put out are blocks that hold the first `done` bytes of the input. */
    ghost predicate Written()
      reads this`input, this`pendingOut, this`pending, this`output, this`biBuf, this`biValid, this`done, this`start,
            this`tail, this`count, this`ended, pendingBuf
    {
      && done <= |input| && Holds(AllBits(), start, input[..done], ended, tail)
      && Sized(|Sent()|, start / 8 + tail / 8, done, count, ended) && (ended ==> biValid == 0)
    }

    ghost predicate Running()
      reads this`input, this`totalIn, this`availIn, this`wrap, this`adler, this`strstart, this`blockStart, this`held,
            this`restart, this`highWater, this`insert, this`matches, this`pendingOut, this`pending, this`output,
            this`biBuf, this`biValid, this`done, this`start, this`tail, this`count, this`ended, window, pendingBuf
    {
      Shape() && BufferOk() && biValid <= 7 && InputOk() && WindowOk() && Conserved() && Written()
    }

    /** read_buf: at most `size` bytes of the input. */
    method ReadBuf(size: nat) returns (buf: seq<byte>)
      requires InputOk() && wrap >= 0 && wrap <= 1
      modifies this`totalIn, this`availIn, this`adler
      ensures InputOk() && totalIn == old(totalIn) + |buf| && availIn == old(availIn) - |buf|
      ensures |buf| == Min(old(availIn), size) && buf == input[old(totalIn)..totalIn]
    {
      hide Adler32.Adler;
      var len := availIn;
      if len > size { len := size; }
      if len == 0 { return []; }
      availIn := availIn - len;
      buf := input[totalIn..totalIn + len];
      if wrap == 1 {
        AdlerContinues(input[..totalIn], buf);
        assert input[..totalIn] + buf == input[..totalIn + len];
        adler := Adler32.Adler(adler, buf);
      }
      totalIn := totalIn + len;
    }

    /** Bytes written straight to next_out. */
    method PutOut(bytes: seq<byte>)
      requires BufferOk() && pending == 0 && biValid == 0 && |bytes| <= availOut
      modifies this`output, this`availOut
      ensures BufferOk() && AllBits() == old(AllBits()) + ByteBits(bytes) && old(Sent()) <= Sent()
      ensures |output| == |old(output)| + |bytes| && availOut == old(availOut) - |bytes|
    {
      hide ByteBits, Pow2;
      ghost var sent := Sent();
      ByteBitsConcat(sent, bytes);
      BitsPad(0, 0, 0);
      output := output + bytes;
      availOut := availOut - |bytes|;
      assert Sent() == sent + bytes;
    }

    /** Bytes that wait in the window, copied to next_out. */
    method CopyWaiting(n: nat)
      requires BufferOk() && pending == 0 && biValid == 0 && WindowOk() && Conserved() && totalIn <= |input|
      requires 0 < n <= strstart - blockStart && n <= availOut
      modifies this`output, this`availOut, this`blockStart, this`done
      ensures BufferOk() && WindowOk() && Conserved() && done == old(done) + n <= |input| && blockStart == old(blockStart) + n
      ensures AllBits() == old(AllBits()) + ByteBits(input[old(done)..done]) && old(Sent()) <= Sent()
      ensures |output| == |old(output)| + n && availOut == old(availOut) - n
    {
      hide Sent, ByteBits, Bits, Pow2;
      MirrorPart(window[..], strstart, input, held, blockStart, blockStart + n);
      PutOut(window[blockStart..blockStart + n]);
      blockStart := blockStart + n;
      done := done + n;
    }

    /** Unread input, copied to next_out. */
    method CopyUnread(n: nat)
      requires BufferOk() && pending == 0 && biValid == 0 && InputOk() && Conserved() && 0 <= wrap <= 1
      requires blockStart == strstart && n <= availIn && n <= availOut
      modifies this`output, this`availOut, this`totalIn, this`availIn, this`adler, this`done
      ensures BufferOk() && InputOk() && Conserved() && done == old(done) + n <= |input|
      ensures AllBits() == old(AllBits()) + ByteBits(input[old(done)..done]) && old(Sent()) <= Sent()
      ensures |output| == |old(output)| + n && availOut == old(availOut) - n
      ensures availIn == old(availIn) - n && totalIn == old(totalIn) + n
    {
      hide Sent, ByteBits, Bits, Pow2, Adler32.Adler;
      var buf := ReadBuf(n);
      PutOut(buf);
      done := done + n;
    }

    /** The bytes of a directly copied block: first those that wait in the window, then unread input. */
    method DirectData(len0: nat)
      requires BufferOk() && pending == 0 && biValid == 0 && InputOk() && WindowOk() && Conserved()
      requires 0 <= wrap <= 1 && len0 <= (strstart - blockStart) + availIn && len0 <= availOut
      modifies this`output, this`availOut, this`totalIn, this`availIn, this`adler, this`blockStart, this`done
      ensures BufferOk() && InputOk() && WindowOk() && Conserved() && done == old(done) + len0 <= |input|
      ensures AllBits() == old(AllBits()) + ByteBits(input[old(done)..done]) && old(Sent()) <= Sent()
      ensures |output| == |old(output)| + len0 && availOut == old(availOut) - len0
      ensures availIn == old(availIn) - Max(len0 - old(strstart - blockStart), 0)
    {
      hide Sent, AllBits, BufferOk, WindowOk, ByteBits, Bits, Pow2, Adler32.Adler;
      var left: nat, len: nat := strstart - blockStart, len0;
      ghost var z, done0 := AllBits(), done;
      NoByteBits(input, done);
      if left != 0 {
        if left > len { left := len; }
        if left != 0 { CopyWaiting(left); }
        len := len - left;
      }
      assert AllBits() == z + ByteBits(input[done0..done]);
      if len != 0 {
        ghost var done1 := done;
        CopyUnread(len);
        ByteBitsSlices(input, done0, done1, done);
        ghost var a, b := ByteBits(input[done0..done1]), ByteBits(input[done1..done]);
        assert z + a + b == z + (a + b);
      }
    }

    /** What waits in the window and what is unread. */
    function Ahead(): int
      reads this`strstart, this`blockStart, this`availIn
    {
      strstart - blockStart + availIn
    }

    /** With `room` in the output and `total` bytes ahead no block can be put straight out: there is no room for its `header`, or
        the block is not worthwhile. */
    predicate Stuck(flush: Flush, header: int, room: int, total: int) {
      || room < header
      || var len := Min(Min(MAX_STORED, total), room - header);
         len < Min(pendingBuf.Length - 5, wSize) && ((len == 0 && flush != Finish) || flush == NoFlush || len != total)
    }

    /** Whether deflate_stored puts a block of `len` bytes straight out. */
    predicate Worthwhile(len: nat, left: nat, flush: Flush)
      reads this`availIn
    {
      !(len < Min(pendingBuf.Length - 5, wSize) && ((len == 0 && flush != Finish) || flush == NoFlush || len != left + availIn))
    }

    /** The length of the next directly copied block. */
    method DirectLength(have: nat, left: nat) returns (len: nat)
      ensures len == Min(Min(MAX_STORED, left + availIn), have)
    {
      len := MAX_STORED;
      if len > left + availIn { len := left + availIn; }
      if len > have { len := have; }
    }

    /** A directly copied block. */
    method DirectBlock(len: nat, last: bool)
      requires Running() && !ended && tail == 0 && pending == 0 && 0 <= wrap <= 1
      requires len <= MAX_STORED && len <= (strstart - blockStart) + availIn && (biValid + 42) / 8 + len <= availOut
      modifies this`output, this`availOut, this`totalIn, this`availIn, this`adler, this`blockStart, this`done, this`count,
               this`ended, this`pending, this`pendingOut, this`biBuf, this`biValid, pendingBuf
      ensures Running() && pending == 0 && biValid == 0 && ended == last && old(Sent()) <= Sent() && done == old(done) + len
      ensures |output| + availOut == |old(output)| + old(availOut)
      ensures availOut == old(availOut) - (old(biValid) + 42) / 8 - len
      ensures availIn == old(availIn) - Max(len - old(strstart - blockStart), 0)
    {
      hide Sent, WindowOk, InputOk, Conserved, Holds, ByteBits, Bits, StoredStart, StoredBits, Lengths, Pow2;
      ghost var z, done0 := AllBits(), done;
      DirectHeader(len, last);
      DirectData(len);
      count := count + 1;
      ended := last;
      StoredAssembles(z, AllBits(), input[done0..done], last);
      HoldsMore(z, start, input, done0, done, last);
    }

    /** One round of the loop that copies blocks directly; `wrote` is false where the loop is left. */
    method DirectStep(flush: Flush) returns (wrote: bool, last: bool)
      requires Running() && !ended && tail == 0 && pending == 0 && 0 <= wrap <= 1
      modifies this`output, this`availOut, this`totalIn, this`availIn, this`adler, this`blockStart, this`done, this`count,
               this`ended, this`pending, this`pendingOut, this`biBuf, this`biValid, pendingBuf
      ensures Running() && pending == 0 && last == ended && old(Sent()) <= Sent()
      ensures last ==> wrote && flush == Finish && availIn == 0 && blockStart == strstart
      ensures |output| + availOut == |old(output)| + old(availOut)
      ensures if wrote then availOut < old(availOut) && biValid == 0 else availOut == old(availOut) && availIn == old(availIn) && blockStart == old(blockStart)
      ensures !wrote ==> Stuck(flush, (biValid + 42) / 8, availOut, Ahead())
      ensures Ample(flush, old(strstart - blockStart), old(biValid), old(availIn), old(availOut)) ==>
        && wrote && strstart == blockStart && biValid == 0 && last == (old(availIn) <= MAX_STORED)
        && availIn == old(availIn) - Min(old(availIn), MAX_STORED)
        && availOut == old(availOut) - 5 - Min(old(availIn), MAX_STORED)
    {
      hide Written, BufferOk, InputOk, WindowOk;
      var have: nat := (biValid + 42) / 8;
      if availOut < have { return false, false; }
      have := availOut - have;
      var left: nat := strstart - blockStart;
      var len := DirectLength(have, left);
      if !Worthwhile(len, left, flush) { return false, false; }
      last := flush == Finish && len == left + availIn;
      DirectBlock(len, last);
      wrote := true;
    }

    /** The loop that copies blocks directly to next_out. */
    method DirectBlocks(flush: Flush) returns (last: bool)
      requires Running() && !ended && tail == 0 && pending == 0 && 0 <= wrap <= 1
      modifies this`output, this`availOut, this`totalIn, this`availIn, this`adler, this`blockStart, this`done, this`count,
               this`ended, this`pending, this`pendingOut, this`biBuf, this`biValid, pendingBuf
      ensures Running() && pending == 0 && last == ended && old(Sent()) <= Sent()
      ensures last ==> flush == Finish && availIn == 0 && blockStart == strstart
      ensures |output| + availOut == |old(output)| + old(availOut) && availOut <= old(availOut)
      ensures availOut == old(availOut) ==> availIn == old(availIn) && blockStart == old(blockStart)
      ensures !last ==> Stuck(flush, (biValid + 42) / 8, availOut, Ahead())
      ensures Ample(flush, old(strstart - blockStart), old(biValid), old(availIn), old(availOut)) ==>
        last && availOut == old(availOut) - old(availIn) - 5 * Pieces(old(availIn))
    {
      hide Written, BufferOk, InputOk, WindowOk, Sent, Stuck;
      ghost var ample := Ample(flush, strstart - blockStart, biValid, availIn, availOut);
      while true
        invariant Running() && !ended && pending == 0 && |output| + availOut == |old(output)| + old(availOut)
        invariant old(Sent()) <= Sent() && availOut <= old(availOut)
        invariant availOut == old(availOut) ==> availIn == old(availIn) && blockStart == old(blockStart)
        invariant ample ==> Ample(flush, strstart - blockStart, biValid, availIn, availOut)
        invariant ample ==> availOut - availIn - 5 * Pieces(availIn) == old(availOut) - old(availIn) - 5 * Pieces(old(availIn))
        decreases availOut
      {
        ghost var sent := Sent();
        var wrote;
        wrote, last := DirectStep(flush);
        PrefixTrans(old(Sent()), sent, Sent());
        if !wrote || last { return; }
      }
    }

    /** zmemcpy into the window behind what it holds. */
    method AppendToWindow(bytes: seq<byte>)
      requires Shape() && Mirror(window[..], strstart, input, held) && strstart + |bytes| <= 2 * wSize
      requires held + |bytes| <= |input| && bytes == input[held..held + |bytes|]
      modifies this`strstart, this`held, window
      ensures Mirror(window[..], strstart, input, held)
      ensures strstart == old(strstart) + |bytes| && held == old(held) + |bytes|
    {
      forall i | 0 <= i < |bytes| {
        window[strstart + i] := bytes[i];
      }
      MirrorGrows(old(window[..]), window[..], strstart, |bytes|, input, held);
      strstart := strstart + |bytes|;
      held := held + |bytes|;
    }

    /** The upper half of the window moves down. */
    method SlideDown()
      requires Shape() && Mirror(window[..], strstart, input, held) && wSize <= strstart <= 2 * wSize && matches <= 2
      modifies this`strstart, this`matches, window
      ensures Mirror(window[..], strstart, input, held) && strstart == old(strstart) - wSize && matches <= 2
    {
      strstart := strstart - wSize;
      forall i | 0 <= i < strstart {
        window[i] := window[wSize + i];
      }
      if matches < 2 { matches := matches + 1; }
      MirrorSlides(old(window[..]), window[..], old(strstart), wSize, input, held);
    }

    /** The window takes over the last `wSize` of the `used` bytes that were copied past it, or all of them. */
    method KeepHistory(used: nat)
      requires Shape() && InputOk() && WindowOk() && Conserved() && used > 0 && held + used == totalIn
      modifies this`strstart, this`blockStart, this`insert, this`matches, this`highWater, this`held, window
      ensures WindowOk() && Conserved() && held == totalIn && blockStart == strstart
    {
      hide Adler32.Adler, Mirror;
      if used >= wSize {
        matches := 2;
        RestartWindow();
      } else {
        ExtendHistory(used);
      }
      blockStart := strstart;
      insert := insert + Min(used, wSize - insert);
      if highWater < strstart { highWater := strstart; }
    }

    /** Fewer than `wSize` bytes go behind what the window holds; it slides when they do not fit. */
    method ExtendHistory(used: nat)
      requires Shape() && WindowOk() && 0 < used < wSize && held + used == totalIn <= |input|
      modifies this`strstart, this`matches, this`held, window
      ensures Mirror(window[..], strstart, input, held) && held == totalIn && matches <= 2
      ensures strstart < 2 * wSize && strstart >= Min(held - restart, wSize)
    {
      hide Mirror;
      if 2 * wSize - strstart <= used {
        SlideDown();
      }
      AppendToWindow(input[totalIn - used..totalIn]);
    }

    /** The window filled with the last `wSize` bytes read. */
    method RestartWindow()
      requires Shape() && wSize <= totalIn <= |input|
      modifies this`strstart, this`held, window
      ensures strstart == wSize && held == totalIn && Mirror(window[..], strstart, input, held)
    {
      var bytes := input[totalIn - wSize..totalIn];
      forall i | 0 <= i < wSize {
        window[i] := bytes[i];
      }
      strstart := wSize;
      held := totalIn;
      assert window[..][..wSize] == bytes;
    }

    /** Room in the window for unread input: it slides when it must and can. */
    method MakeRoom() returns (have: nat)
      requires Shape() && WindowOk() && Conserved() && held == totalIn
      modifies this`strstart, this`blockStart, this`matches, window
      ensures Mirror(window[..], strstart, input, held) && Conserved() && matches <= 2 && strstart <= highWater
      ensures have == 2 * wSize - strstart - 1
      ensures var n := Min(availIn, have); strstart + n >= Min(held + n - restart, wSize)
      ensures availIn <= have || blockStart < wSize
    {
      hide Mirror;
      have := 2 * wSize - strstart - 1;
      if availIn > have && blockStart >= wSize {
        blockStart := blockStart - wSize;
        SlideDown();
        have := have + wSize;
      }
    }

    /** Unread input goes to the window. */
    method FillRest()
      requires Shape() && InputOk() && WindowOk() && Conserved() && held == totalIn && 0 <= wrap <= 1
      modifies this`totalIn, this`availIn, this`adler, this`strstart, this`blockStart, this`matches, this`highWater,
               this`held, window
      ensures InputOk() && WindowOk() && Conserved() && held == totalIn
      ensures availIn == 0 || strstart - blockStart >= wSize
      ensures availIn + totalIn == old(availIn + totalIn) && totalIn >= old(totalIn)
      ensures totalIn == old(totalIn) ==> strstart - blockStart == old(strstart - blockStart)
    {
      hide Adler32.Adler, Mirror;
      var have := MakeRoom();
      if have > availIn { have := availIn; }
      if have != 0 {
        var buf := ReadBuf(have);
        AppendToWindow(buf);
      }
      if highWater < strstart { highWater := strstart; }
    }

    /** What could not be put out directly goes to the pending output as one block, if it is worth one. */
    method StoreToPending(flush: Flush) returns (last: bool)
      requires Running() && !ended && tail == 0 && pending == 0 && held == totalIn
      requires availIn == 0 || strstart - blockStart >= wSize
      requires Stuck(flush, (biValid + 42) / 8, availOut, Ahead()) && (flush !in {NoFlush, Finish} ==> Ahead() > 0)
      modifies this`output, this`availOut, this`blockStart, this`done, this`count, this`ended, this`pending, this`pendingOut,
               this`biBuf, this`biValid, pendingBuf
      ensures Running() && last == ended && old(Sent()) <= Sent()
      ensures last ==> flush == Finish && availIn == 0 && blockStart == strstart
      ensures |output| + availOut == |old(output)| + old(availOut) && availOut <= old(availOut)
      ensures availOut == 0 || (flush == NoFlush && availIn == 0)
    {
      hide Sent, WindowOk, InputOk, Written, BufferOk, Stuck;
      BlockIsAll(flush, biValid, availOut, strstart - blockStart, availIn);
      last := false;
      var header: nat := (biValid + 42) / 8;
      var have: nat := Min(pendingBuf.Length - header, MAX_STORED);
      var left: nat := strstart - blockStart;
      if left >= Min(have, wSize) || ((left != 0 || flush == Finish) && flush != NoFlush && availIn == 0 && left <= have) {
        var len := Min(left, have);
        last := flush == Finish && availIn == 0 && len == left;
        StoreBlock(len, last);
      }
    }

    /** A block from the window by way of the pending output, and out as far as there is room. */
    method StoreBlock(len: nat, last: bool)
      requires Running() && !ended && tail == 0 && pending == 0 && held == totalIn
      requires len <= MAX_STORED && len <= strstart - blockStart && (biValid + 42) / 8 + len <= pendingBuf.Length
      modifies this`output, this`availOut, this`blockStart, this`done, this`count, this`ended, this`pending, this`pendingOut,
               this`biBuf, this`biValid, pendingBuf
      ensures Running() && ended == last && old(Sent()) <= Sent() && blockStart == old(blockStart) + len
      ensures |output| + availOut == |old(output)| + old(availOut)
      ensures availOut == Max(old(availOut) - (old(biValid) + 42) / 8 - len, 0)
    {
      hide Sent, WindowOk, InputOk, Holds, Bits, ByteBits, StoredBits, Pow2, AllBits, Sized;
      PendingBlock(len, last);
      FlushPending();
    }

    /** The block that goes to the pending output takes more room than there is in the output, or everything there is. */
    lemma BlockIsAll(flush: Flush, valid: nat, room: nat, left: int, unread: nat)
      requires Shape() && valid <= 7 && left >= 0 && (unread == 0 || left >= wSize)
      requires Stuck(flush, (valid + 42) / 8, room, left + unread) && (flush !in {NoFlush, Finish} ==> left + unread > 0)
      ensures var header := (valid + 42) / 8;
        var have := Min(pendingBuf.Length - header, MAX_STORED);
        if left >= Min(have, wSize) || ((left != 0 || flush == Finish) && flush != NoFlush && unread == 0 && left <= have)
        then header + Min(left, have) >= room || (flush == NoFlush && unread == 0)
        else flush == NoFlush && unread == 0
    {
    }

    /** A block from the window to the pending output. */
    method PendingBlock(len: nat, last: bool)
      requires Running() && !ended && tail == 0 && pending == 0 && held == totalIn
      requires len <= MAX_STORED && len <= strstart - blockStart && (biValid + 42) / 8 + len <= pendingBuf.Length
      modifies this`blockStart, this`done, this`count, this`ended, this`pending, this`biBuf, this`biValid, pendingBuf
      ensures Running() && ended == last && old(Sent()) <= Sent() && biValid == 0
      ensures pending == (old(biValid) + 42) / 8 + len && blockStart == old(blockStart) + len
    {
      hide Mirror, Sent, InputOk, Holds, Bits, ByteBits, StoredBits, Pow2, AllBits;
      ghost var z := AllBits();
      MirrorPart(window[..], strstart, input, held, blockStart, blockStart + len);
      HoldsMore(z, start, input, done, done + len, last);
      TrStoredBlock(blockStart, len, last);
      blockStart := blockStart + len;
      done := done + len;
      count := count + 1;
      ended := last;
    }

    /** The first half of deflate_stored: direct copies, and the window brought up to date. */
    method DirectPart(flush: Flush) returns (last: bool)
      requires Running() && !ended && tail == 0 && pending == 0 && held == totalIn && 0 <= wrap <= 1
      modifies this`totalIn, this`availIn, this`output, this`availOut, this`adler, this`pending, this`pendingOut, this`biBuf,
               this`biValid, this`strstart, this`blockStart, this`insert, this`matches, this`highWater, this`held, this`done,
               this`count, this`ended, window, pendingBuf
      ensures Running() && pending == 0 && held == totalIn && last == ended && old(Sent()) <= Sent()
      ensures last ==> flush == Finish && availIn == 0 && blockStart == strstart
      ensures |output| + availOut == |old(output)| + old(availOut) && availOut <= old(availOut)
      ensures totalIn + availIn == old(totalIn + availIn) && totalIn >= old(totalIn)
      ensures totalIn == old(totalIn) && availOut == old(availOut) ==> strstart - blockStart == old(strstart - blockStart)
      ensures !last ==> Stuck(flush, (biValid + 42) / 8, availOut, Ahead())
      ensures Ample(flush, old(strstart - blockStart), old(biValid), old(availIn), old(availOut)) ==>
        last && availOut == old(availOut) - old(availIn) - 5 * Pieces(old(availIn))
    {
      hide Sent, AllBits, Written, BufferOk, WindowOk, Adler32.Adler, Stuck;
      var used: nat := availIn;
      last := DirectBlocks(flush);
      used := used - availIn;
      if used != 0 {
        KeepHistory(used);
      }
    }

    /** The second half of deflate_stored: the rest of the input goes to the window, and from there to the pending output. */
    method WindowPart(flush: Flush) returns (last: bool)
      requires Running() && !ended && tail == 0 && pending == 0 && held == totalIn && 0 <= wrap <= 1
      requires Stuck(flush, (biValid + 42) / 8, availOut, Ahead()) && (flush !in {NoFlush, Finish} ==> Ahead() > 0)
      modifies this`totalIn, this`availIn, this`output, this`availOut, this`adler, this`pending, this`pendingOut, this`biBuf,
               this`biValid, this`strstart, this`blockStart, this`matches, this`highWater, this`held, this`done,
               this`count, this`ended, window, pendingBuf
      ensures Running() && held == totalIn && last == ended && old(Sent()) <= Sent()
      ensures last ==> flush == Finish && availIn == 0 && blockStart == strstart
      ensures |output| + availOut == |old(output)| + old(availOut) && availOut <= old(availOut)
      ensures totalIn + availIn == old(totalIn + availIn) && totalIn >= old(totalIn)
      ensures availOut == 0 || (flush == NoFlush && availIn == 0)
    {
      hide Sent, AllBits, BufferOk, WindowOk, Holds, Adler32.Adler, Stuck;
      FillRest();
      last := StoreToPending(flush);
    }

    /** deflate_stored. */
    method DeflateStored(flush: Flush) returns (r: BlockState)
      requires Running() && !ended && tail == 0 && pending == 0 && held == totalIn && 0 <= wrap <= 1
      modifies this`totalIn, this`availIn, this`output, this`availOut, this`adler, this`pending, this`pendingOut, this`biBuf,
               this`biValid, this`strstart, this`blockStart, this`insert, this`matches, this`highWater, this`held, this`done,
               this`count, this`ended, window, pendingBuf
      ensures Running() && held == totalIn && old(Sent()) <= Sent()
      ensures (r in {FinishStarted, FinishDone}) == ended && (r in {FinishDone, BlockDone} ==> pending == 0)
      ensures ended ==> flush == Finish && availIn == 0 && blockStart == strstart
      ensures r == BlockDone ==> flush !in {NoFlush, Finish} && availIn == 0 && blockStart == strstart
      ensures |output| + availOut == |old(output)| + old(availOut) && availOut <= old(availOut)
      ensures totalIn + availIn == old(totalIn + availIn) && totalIn >= old(totalIn)
      ensures r in {NeedMore, FinishStarted} ==> availOut == 0 || (flush == NoFlush && availIn == 0)
      ensures r in {NeedMore, FinishStarted} && old(availOut) > 0 && (old(availIn) > 0 || flush !in {NoFlush, BlockFlush}) ==>
        availOut < old(availOut) || totalIn > old(totalIn)
      ensures Ample(flush, old(strstart - blockStart), old(biValid), old(availIn), old(availOut)) ==>
        r == FinishDone && availOut == old(availOut) - old(availIn) - 5 * Pieces(old(availIn))
    {
      hide Sent, AllBits, Written, BufferOk, InputOk, WindowOk, Stuck;
      var last := DirectPart(flush);
      if last { return FinishDone; }
      if flush != NoFlush && flush != Finish && availIn == 0 && strstart == blockStart { return BlockDone; }
      ghost var sent := Sent();
      last := WindowPart(flush);
      PrefixTrans(old(Sent()), sent, Sent());
      return if last then FinishStarted else NeedMore;
    }

    // The deflate driver.

    /** What was put around the blocks, and how far the stream has got. */
    ghost predicate Framed()
      reads this`status, this`wrap, this`adler, this`totalIn, this`strstart, this`blockStart, this`held, this`biValid,
            this`pending, this`pendingOut, this`output, this`start, this`tail, this`ended, this`done, pendingBuf
    {
      && held == totalIn && -1 <= wrap <= 1 && (ended ==> blockStart == strstart)
      && (status == InitState ==> wrap == 1 && totalIn == strstart == blockStart == 0 && biValid == 0 && pending == 0 && output == [])
      && start == (if wrap == 0 || status == InitState then 0 else 16)
      && (start == 16 ==> |Sent()| >= 2 && Sent()[..2] == Header(wBits))
      && tail == (if wrap < 0 then 32 else 0)
      && (wrap < 0 ==> ended && |Sent()| >= 6 && Sent()[|Sent()| - 4..] == Trailer(adler))
      && (status == FinishState <==> ended)
    }

    /** What holds between two calls of deflate. */
    ghost predicate Valid()
      reads this`input, this`totalIn, this`availIn, this`wrap, this`adler, this`strstart, this`blockStart, this`held,
            this`restart, this`highWater, this`insert, this`matches, this`pendingOut, this`pending, this`output,
            this`biBuf, this`biValid, this`done, this`start, this`tail, this`count, this`ended, this`status, window, pendingBuf
    {
      Running() && Framed()
    }

    /** _tr_align: an empty static block. */
    method TrAlign()
      requires BufferOk() && biValid <= 7 && pending == 0 && pendingBuf.Length >= 8
      modifies this`pending, this`biBuf, this`biValid, pendingBuf
      ensures BufferOk() && AllBits() == old(AllBits()) + MarkerBits() && biValid <= 7 && old(Sent()) <= Sent()
    {
      hide Sent, Bits, ByteBits;
      ghost var z := AllBits();
      Pow2Sizes();
      TypeBits(false);
      SendBits(2, 3);
      SendBits(0, 7);
      BiFlush();
      assert z + Bits(2, 3) + Bits(0, 7) == z + MarkerBits();
    }

    /** The empty block that marks a completed partial flush. */
    method PutStaticMarker()
      requires Valid() && !ended && pending == 0 && status == BusyState
      modifies this`pending, this`biBuf, this`biValid, pendingBuf
      ensures Valid() && pendingOut == 0 && old(Sent()) <= Sent() && |Sent()| > |old(Sent())|
    {
      hide Sent, InputOk, WindowOk, Inflate, Bits, ByteBits, MarkerBits;
      AddMarker(AllBits(), start, input[..done]);
      TrAlign();
    }

    /** The empty block that marks a completed flush. */
    method PutStoredMarker()
      requires Valid() && !ended && pending == 0 && status == BusyState
      modifies this`pending, this`biBuf, this`biValid, this`count, pendingBuf
      ensures biValid == 0
      ensures Valid() && pendingOut == 0 && old(Sent()) <= Sent() && |Sent()| > |old(Sent())|
    {
      hide Sent, InputOk, WindowOk, Holds, Bits, ByteBits, StoredBits;
      HoldsMore(AllBits(), start, input, done, done, false);
      assert window[0..0] == input[done..done];
      TrStoredBlock(0, 0, false);
      count := count + 1;
    }

    /** A full flush forgets the history, and nothing else, as nothing waits in the window. */
    method ForgetHistory()
      requires Valid() && !ended && strstart == blockStart && status == BusyState
      modifies this`strstart, this`blockStart, this`insert, this`restart
      ensures Valid() && strstart == blockStart
    {
      hide Sent, InputOk, Written;
      strstart := 0;
      blockStart := 0;
      insert := 0;
      restart := held;
    }

    /** flush_pending between the other steps of deflate. */
    method FlushMore()
      requires Valid() && (status == InitState ==> pending == 0)
      modifies this`pending, this`pendingOut, this`output, this`availOut, this`biBuf, this`biValid, pendingBuf
      ensures Valid() && Sent() == old(Sent()) && biValid == old(biValid)
      ensures pending == Max(old(pending) - old(availOut), 0) && availOut == Max(old(availOut) - old(pending), 0)
      ensures |output| + availOut == |old(output)| + old(availOut)
    {
      hide Sent, InputOk, WindowOk, Holds, Bits, ByteBits;
      FlushPending();
    }

    /** Nothing waits anywhere between the caller's input and the caller's output. */
    predicate AllOut()
      reads this`availIn, this`pending, this`strstart, this`blockStart
    {
      availIn == 0 && pending == 0 && strstart == blockStart
    }

    /** What deflate puts out after a completed flush. */
    method EndFlush(flush: Flush)
      requires Valid() && !ended && pending == 0 && status == BusyState && strstart == blockStart
      modifies this`output, this`availOut, this`pending, this`pendingOut, this`biBuf, this`biValid, this`strstart,
               this`blockStart,
               this`insert, this`restart, this`count, pendingBuf
      ensures Valid() && old(Sent()) <= Sent()
      ensures |output| + availOut == |old(output)| + old(availOut) && availOut <= old(availOut)
      ensures strstart == blockStart && (pending == 0 || availOut == 0) && (flush in {SyncFlush, FullFlush} ==> biValid == 0)
      ensures flush != BlockFlush && old(availOut) > 0 ==> availOut < old(availOut)
    {
      hide Valid, Sent;
      if flush == PartialFlush {
        PutStaticMarker();
      } else if flush != BlockFlush {
        PutStoredMarker();
        if flush == FullFlush {
          ForgetHistory();
        }
      }
      FlushMore();
    }

    /** The zlib header. */
    method PutHeader()
      requires Valid() && status == InitState
      modifies this`status, this`pending, this`adler, this`start, pendingBuf
      ensures Valid() && status == BusyState && pending == 2 && !ended && old(Sent()) <= Sent()
    {
      hide Adler32.Adler, WindowOk, ByteBits, Bits, Inflate;
      BitsPad(0, 0, 0);
      EmptyAdler();
      assert input[..0] == [];
      var header: nat := (8 + (wBits - 8) * 16) * 256;
      header := header + 31 - header % 31;
      PutShortMsb(header);
      adler := 1;
      status := BusyState;
      start := 16;
      assert Sent() == Header(wBits);
      NothingInflates(AllBits());
    }

    /** The header, as far as the output has room for it. */
    method HeaderOut()
      requires Valid() && status == InitState
      modifies this`status, this`adler, this`pending, this`pendingOut, this`output, this`availOut,
               this`biBuf, this`biValid, this`start, pendingBuf
      ensures Valid() && old(Sent()) <= Sent() && status == BusyState && !ended && biValid == 0
      ensures |output| + availOut == |old(output)| + old(availOut)
      ensures availOut == Max(old(availOut) - 2, 0) && pending == Max(2 - old(availOut), 0)
    {
      hide Running, Sent, Header;
      PutHeader();
      FlushMore();
    }

    /** deflate: the checks, the pending output and the header; a code when deflate must return right away. */
    method Begin(flush: Flush) returns (r: Option<ReturnCode>)
      requires Valid()
      modifies this`status, this`lastFlush, this`adler, this`pending, this`pendingOut, this`output, this`availOut,
               this`biBuf, this`biValid, this`start, pendingBuf
      ensures Valid() && old(Sent()) <= Sent() && |output| + availOut == |old(output)| + old(availOut) && availOut <= old(availOut)
      ensures r == match old(Entry(status, flush, lastFlush, availIn, availOut, pending))
                   case Some(code) => Some(code)
                   case None => if old(status == InitState && availOut < 2) then Some(Ok) else None
      ensures r == Some(Ok) ==> availOut == 0 < old(availOut)
      ensures r in {Some(StreamError), Some(BufError)} ==> Sent() == old(Sent())
      ensures r in {Some(StreamError), Some(BufError)} ==>
        (output == old(output) <==> r == Some(StreamError) || old(pending) == 0 || old(availOut) == 0)
      ensures r == None ==> pending == 0 && status != InitState && (ended ==> flush == Finish && availIn == 0)
      ensures r == None && availOut == 0 ==> availOut < old(availOut)
      ensures old(status) == InitState && old(availOut) > 2 && (flush == Finish || availIn > 0) ==>
        r == None && availOut == old(availOut) - 2 && biValid == 0
    {
      hide Valid, Sent, Rank;
      FrameSays();
      StatusSays();
      if status == FinishState && flush != Finish { return Some(StreamError); }
      if availOut == 0 { return Some(BufError); }
      var oldFlush := lastFlush;
      lastFlush := FlushCode(flush);
      if pending != 0 {
        FlushMore();
        if availOut == 0 {
          lastFlush := -1;
          return Some(Ok);
        }
      } else if availIn == 0 && Rank(FlushCode(flush)) <= Rank(oldFlush) && flush != Finish {
        return Some(BufError);
      }
      if status == FinishState && availIn != 0 { return Some(BufError); }
      if status == InitState {
        HeaderOut();
        if pending != 0 {
          lastFlush := -1;
          return Some(Ok);
        }
      }
      return None;
    }

    lemma FrameSays()
      requires Valid()
      ensures -1 <= wrap <= 1 && blockStart <= strstart
      ensures status == InitState ==> wrap == 1 && !ended && strstart == blockStart && biValid == 0 && pending == 0
    {
      hide Sent, Header, Trailer;
    }

    lemma StatusSays()
      requires Valid()
      ensures status == FinishState <==> ended
    {
      hide Running, Sent, Header, Trailer;
    }

    /** deflate: start a new block or continue the current one; true when deflate must return Z_OK. */
    method Continue(flush: Flush) returns (stop: bool)
      requires Valid() && pending == 0 && status != InitState && (ended ==> flush == Finish && availIn == 0)
      modifies this`status, this`lastFlush, this`totalIn, this`availIn, this`output, this`availOut, this`adler, this`pending,
               this`pendingOut, this`biBuf, this`biValid, this`strstart, this`blockStart, this`insert, this`matches,
               this`highWater, this`held, this`restart, this`done, this`count, this`ended, window, pendingBuf
      ensures Valid() && status != InitState && old(Sent()) <= Sent()
      ensures |output| + availOut == |old(output)| + old(availOut) && availOut <= old(availOut)
      ensures totalIn + availIn == old(totalIn + availIn) && totalIn >= old(totalIn)
      ensures !stop && flush == Finish ==> ended && pending == 0 && availIn == 0
      ensures stop ==> availOut == 0 || (flush == NoFlush && availIn == 0)
      ensures !stop && flush !in {NoFlush, Finish} ==> AllOut() && (flush in {SyncFlush, FullFlush} ==> biValid == 0)
      ensures ended ==> flush == Finish
      ensures !stop ==> availIn == 0
      ensures (stop || flush != Finish) && old(availOut) > 0 && (old(availIn) > 0 || flush !in {NoFlush, BlockFlush}) ==>
        availOut < old(availOut) || totalIn > old(totalIn)
      ensures old(!ended) && Ample(flush, old(strstart - blockStart), old(biValid), old(availIn), old(availOut)) ==>
        !stop && availOut == old(availOut) - old(availIn) - 5 * Pieces(old(availIn))
    {
      hide Valid, Sent;
      StatusSays();
      if availIn != 0 || (flush != NoFlush && status != FinishState) {
        var bstate := StoredRound(flush);
        StatusSays();
        if bstate == NeedMore || bstate == FinishStarted {
          if availOut == 0 {
            lastFlush := -1;
          }
          return true;
        }
        if bstate == BlockDone {
          ghost var sent := Sent();
          EndFlush(flush);
          PrefixTrans(old(Sent()), sent, Sent());
          if availOut == 0 {
            lastFlush := -1;
            return true;
          }
        }
      }
      return false;
    }

    /** The call of deflate_stored, and the state it leads to. */
    method StoredRound(flush: Flush) returns (r: BlockState)
      requires Valid() && pending == 0 && status == BusyState
      modifies this`status, this`totalIn, this`availIn, this`output, this`availOut, this`adler, this`pending,
               this`pendingOut, this`biBuf, this`biValid, this`strstart, this`blockStart, this`insert, this`matches,
               this`highWater, this`held, this`done, this`count, this`ended, window, pendingBuf
      ensures Valid() && status != InitState && old(Sent()) <= Sent()
      ensures (r in {FinishStarted, FinishDone}) == ended && (r in {FinishDone, BlockDone} ==> pending == 0)
      ensures ended ==> flush == Finish && availIn == 0
      ensures r == BlockDone ==> flush !in {NoFlush, Finish} && availIn == 0 && blockStart == strstart
      ensures |output| + availOut == |old(output)| + old(availOut) && availOut <= old(availOut)
      ensures totalIn + availIn == old(totalIn + availIn) && totalIn >= old(totalIn)
      ensures r in {NeedMore, FinishStarted} ==> availOut == 0 || (flush == NoFlush && availIn == 0)
      ensures r in {NeedMore, FinishStarted} && old(availOut) > 0 && (old(availIn) > 0 || flush !in {NoFlush, BlockFlush}) ==>
        availOut < old(availOut) || totalIn > old(totalIn)
      ensures Ample(flush, old(strstart - blockStart), old(biValid), old(availIn), old(availOut)) ==>
        r == FinishDone && availOut == old(availOut) - old(availIn) - 5 * Pieces(old(availIn))
    {
      hide Running, Sent;
      ghost var sent := Sent();
      r := DeflateStored(flush);
      if r == FinishStarted || r == FinishDone {
        status := FinishState;
      }
      if start == 16 { SameStart(sent, Sent()); }
    }

    /** The Adler-32 of the input behind the last block. */
    method PutTrailer()
      requires Valid() && ended && pending == 0 && wrap == 1
      modifies this`pending, this`wrap, this`tail, pendingBuf
      ensures Valid() && wrap == -1 && pending == 4 && old(Sent()) <= Sent()
    {
      hide Sent, Trailer, WindowOk, ByteBits, Bits, Inflate, Pow2, Adler32.Adler, Holds;
      AdlerIsWord(input[..totalIn]);
      ghost var sent := Sent();
      assert AllBits() == ByteBits(sent);
      HoldsTrailed(sent, Trailer(adler), start, input[..done]);
      PutSum();
      wrap := -wrap;
      tail := 32;
      assert AllBits() == ByteBits(Sent());
    }

    /** The checksum, most significant byte first. */
    method PutSum()
      requires BufferOk() && pending == 0 && pendingBuf.Length >= 4 && adler < 0x1_0000_0000
      modifies this`pending, pendingBuf
      ensures BufferOk() && pending == 4 && Sent() == old(Sent()) + Trailer(adler)
    {
      hide Sent, Pow2;
      PutShortMsb(adler / 65536);
      PutShortMsb(adler % 65536);
    }

    /** The trailer, as far as the output has room for it. */
    method TrailerOut()
      requires Valid() && ended && pending == 0 && wrap == 1
      modifies this`pending, this`pendingOut, this`output, this`availOut, this`biBuf, this`biValid, this`wrap, this`tail, pendingBuf
      ensures Valid() && wrap == -1 && old(Sent()) <= Sent()
      ensures |output| + availOut == |old(output)| + old(availOut)
      ensures availOut == Max(old(availOut) - 4, 0) && pending == Max(4 - old(availOut), 0)
    {
      hide Valid, Sent;
      StatusSays();
      PutTrailer();
      FlushMore();
    }

    /** deflate. */
    method DeflateCall(flush: Flush) returns (r: ReturnCode)
      requires Valid()
      modifies this`status, this`wrap, this`lastFlush, this`totalIn, this`availIn, this`output, this`availOut, this`adler,
               this`pending, this`pendingOut, this`biBuf, this`biValid, this`strstart, this`blockStart, this`insert,
               this`matches, this`highWater, this`held, this`restart, this`done, this`count, this`start, this`tail,
               this`ended, window, pendingBuf
      ensures Valid() && old(Sent()) <= Sent() && Abs(wrap) == Abs(old(wrap))
      ensures |output| + availOut == |old(output)| + old(availOut) && availOut <= old(availOut) && totalIn >= old(totalIn)
      ensures match old(Entry(status, flush, lastFlush, availIn, availOut, pending))
              case Some(code) => r == code
              case None => r in {Ok, StreamEnd}
      ensures r in {StreamError, BufError} ==> Sent() == old(Sent()) && totalIn == old(totalIn)
      ensures r in {StreamError, BufError} ==>
        (output == old(output) <==> r == StreamError || old(pending) == 0 || old(availOut) == 0)
      ensures r == Ok && flush != Finish ==> !ended
      ensures r == Ok ==> availOut == 0 || (flush != Finish && availIn == 0)
      ensures r == Ok && flush !in {NoFlush, Finish} && availOut > 0 ==> AllOut() && (flush in {SyncFlush, FullFlush} ==> biValid == 0)
      ensures r == StreamEnd ==> flush == Finish && ended && pending == 0 && availIn == 0 && wrap == -Abs(old(wrap))
      ensures r == Ok && (old(availIn) > 0 || flush !in {NoFlush, BlockFlush}) ==>
        availOut < old(availOut) || totalIn > old(totalIn)
      ensures old(status) == InitState && old(availOut) >= old(availIn) + 5 * Pieces(old(availIn)) + 6 && flush == Finish ==>
        r == StreamEnd && availOut == old(availOut) - old(availIn) - 5 * Pieces(old(availIn)) - 6
    {
      hide Valid, Sent, Entry;
      FrameSays();
      StatusSays();
      var first := Begin(flush);
      if first.Some? { return first.value; }
      FrameSays();
      ghost var sent := Sent();
      var stop := Continue(flush);
      PrefixTrans(old(Sent()), sent, Sent());
      if stop || flush != Finish { return Ok; }
      FrameSays();
      if wrap <= 0 { return StreamEnd; }
      sent := Sent();
      TrailerOut();
      PrefixTrans(old(Sent()), sent, Sent());
      return if pending != 0 then Ok else StreamEnd;
    }

    /** deflateInit2_ at level 0, for parameters that it accepts, without gzip wrapper. */
    constructor (windowBits: int, memLevel: int)
      requires var u := InitSetup(0, windowBits, memLevel); u.Some? && u.value.wrap <= 1
      ensures Valid() && input == [] && output == [] && !ended && availIn == availOut == totalIn == 0
      ensures var u := InitSetup(0, windowBits, memLevel).value; wrap == u.wrap && wBits == u.wBits && (wrap == 1 ==> status == InitState)
      ensures wSize == Pow2(wBits) && fresh(window) && fresh(pendingBuf)
    {
      hide Valid, InitSetup;
      var Setup(_, bits, wrap') := InitSetup(0, windowBits, memLevel).value;
      SizesFit(bits, memLevel);
      wBits, wSize := bits, Pow2(bits);
      window := new byte[2 * Pow2(bits)];
      pendingBuf := new byte[4 * Pow2(memLevel + 6)];
      input, totalIn, availIn, output, availOut, adler := [], 0, 0, [], 0, 1;
      status, wrap, lastFlush := if wrap' == 0 then BusyState else InitState, wrap', 0;
      pendingOut, pending, biBuf, biValid := 0, 0, 0, 0;
      strstart, blockStart, insert, matches, highWater := 0, 0, 0, 0, 0;
      held, restart, done, start, tail, count, ended := 0, 0, 0, 0, 0, 0, false;
      new;
      FreshIsValid();
    }

    lemma FreshIsValid()
      requires Shape() && wrap in {0, 1} && status == (if wrap == 0 then BusyState else InitState)
      requires input == [] && output == [] && adler == 1 && !ended
      requires totalIn == availIn == pendingOut == pending == biBuf == biValid == strstart == blockStart == insert == matches == 0
      requires highWater == held == restart == done == start == tail == count == 0
      ensures Valid()
    {
      hide Adler32.Adler, Inflate;
      EmptyAdler();
      assert input[..0] == [];
      assert AllBits() == [];
      NothingInflates(AllBits());
    }

    /** The caller provides more input and room for output. */
    method Supply(more: seq<byte>, room: nat)
      requires Valid()
      modifies this`input, this`availIn, this`availOut
      ensures Valid() && input == old(input) + more && availIn == old(availIn) + |more| && availOut == room
    {
      hide Sent, AllBits, Adler32.Adler, Holds, Mirror, BufferOk, Framed;
      MirrorAgrees(window[..], strstart, input, input + more, held);
      PrefixAgrees(input, more, totalIn);
      PrefixAgrees(input, more, done);
      input := input + more;
      availIn := availIn + |more|;
      availOut := room;
    }

    lemma InputSplits()
      requires Valid()
      ensures totalIn + availIn == |input|
    {
    }

    /** Conservation: the bytes held by the blocks put out, then the bytes waiting in the window, then the unread bytes
        are the whole input; and the window still holds the last `wSize` bytes read since its last restart. */
    lemma StreamConserves()
      requires Valid()
      ensures Inflate(AllBits(), start).Some? && blockStart <= strstart < window.Length && |input| - totalIn == availIn
      ensures Inflate(AllBits(), start).value.data + window[blockStart..strstart] + input[totalIn..] == input
      ensures strstart <= totalIn && window[..strstart] == input[totalIn - strstart..totalIn]
      ensures strstart >= Min(totalIn - restart, wSize)
      ensures pendingOut + pending <= pendingBuf.Length
    {
      hide Inflate, Sent, Adler32.Adler;
      MirrorPart(window[..], strstart, input, held, blockStart, strstart);
      assert input[..done] + input[done..totalIn] + input[totalIn..] == input;
    }

    /** After a completed flush that ends on a byte, the output so far is a stream of all input so far. */
    lemma FlushedDecodes()
      requires Valid() && !ended && AllOut() && biValid == 0
      ensures Inflate(ByteBits(output), start) == Some(Inflated(input, false, 8 * |output|))
    {
      hide Inflate, Adler32.Adler, ByteBits, Bits, Trailer, Pow2, WindowOk;
      BitsPad(0, 0, 0);
      assert Sent() == output;
      assert AllBits() == ByteBits(output);
      assert input[..totalIn] == input;
    }

    /** The finished stream is a zlib stream, or a raw deflate stream, of the whole input, and none of stored blocks is
        shorter than it can be. */
    lemma EndedDecodes()
      requires Valid() && ended && pending == 0 && availIn == 0 && wrap <= 0
      ensures if wrap < 0 then ZlibDecode(output) == Some(input)
              else Inflate(ByteBits(output), 0) == Some(Inflated(input, true, 8 * |output|))
      ensures |output| >= |input| + 5 * Pieces(|input|) + (if wrap < 0 then 6 else 0)
    {
      hide Inflate, Adler32.Adler, ByteBits, Bits, Trailer, Pow2, BufferOk, WindowOk;
      assert Sent() == output;
      assert AllBits() == ByteBits(output);
      assert input[..totalIn] == input;
      PiecesFew(|input|, count);
      if wrap < 0 {
        HeaderIsValid(wBits);
        TrailedDecodes(output, wBits, input);
      }
    }
  }

  /** The low byte of the bit buffer moves to the bytes. */
  lemma ByteLeaves(sent: seq<byte>, bb: nat, bv: nat)
    requires bb < Pow2(bv) && 8 <= bv
    ensures ByteBits(sent + [bb % 256]) + Bits(bb / 256, bv - 8) == ByteBits(sent) + Bits(bb, bv)
    ensures bb / 256 < Pow2(bv - 8)
  {
    hide Bits, ByteBits, Pow2;
    Pow2Eight();
    BitsConcat(bb % 256, 8, bb / 256, bv - 8);
    OneByteBits(sent, bb % 256);
    Pow2Adds(8, bv - 8);
  }

  lemma TypeBits(last: bool)
    ensures Bits(if last then 1 else 0, 3) == [last, false, false] && Pow2(3) == 8
  {
    assert Pow2(3) == 2 * Pow2(2) == 4 * Pow2(1);
    ZeroBits(2);
    assert Bits(if last then 1 else 0, 3) == [last] + Bits(0, 2);
  }

  /** The bytes of a stored block behind its start. */
  lemma StoredBytes(z: seq<bool>, sent: seq<byte>, data: seq<byte>, last: bool)
    requires |data| <= MAX_STORED && ByteBits(sent) == z + StoredStart(|z|, last)
    ensures var len := |data|;
      ByteBits(sent + [len % 256, len / 256] + [(65535 - len) % 256, (65535 - len) / 256] + data) == z + StoredBits(|z|, data, last)
  {
    hide Bits, ByteBits, StoredStart;
    var len := |data|;
    ShortBits(sent, len);
    ShortBits(sent + [len % 256, len / 256], 65535 - len);
    ByteBitsConcat(sent + [len % 256, len / 256] + [(65535 - len) % 256, (65535 - len) / 256], data);
    var a, b := Bits(len, 16), Bits(65535 - len, 16);
    assert z + StoredStart(|z|, last) + a + b + ByteBits(data) == z + (StoredStart(|z|, last) + (a + b) + ByteBits(data));
  }

  /** The padding depends only on the bits in the buffer. */
  lemma PaddingShifts(n: nat, k: nat)
    ensures Padding(8 * n + k) == Padding(k)
  {
    assert (8 * n + k) % 8 == k % 8 by { WholeBytes(n, k); }
  }

  lemma WholeBytes(n: nat, k: nat)
    ensures (8 * n + k) % 8 == k % 8
  {
  }

  lemma StartBits(z: seq<bool>, n: nat, k: nat, last: bool)
    requires |z| == 8 * n + k
    ensures z + [last, false, false] + Zeros(Padding(k + 3)) == z + StoredStart(|z|, last)
  {
    hide Padding, Zeros;
    PaddingShifts(n, k + 3);
    assert 8 * n + (k + 3) == |z| + 3;
  }

  /** The lengths of an empty stored block replaced by `len`. */
  lemma LengthsReplaced(z: seq<bool>, sent: seq<byte>, last: bool, len: nat)
    requires len <= MAX_STORED && ByteBits(sent + LengthBytes(0)) == z + StoredBits(|z|, [], last)
    ensures ByteBits(sent + LengthBytes(len)) == z + StoredStart(|z|, last) + Lengths(len)
  {
    hide ByteBits, StoredStart, Bits;
    LengthBits(sent, 0);
    LengthBits(sent, len);
    var whole := z + StoredStart(|z|, last) + Lengths(0);
    assert ByteBits([]) == [];
    assert z + StoredBits(|z|, [], last) == whole;
    assert whole[..|ByteBits(sent)|] == ByteBits(sent) == z + StoredStart(|z|, last);
  }

  lemma LengthBits(sent: seq<byte>, len: nat)
    requires len <= MAX_STORED
    ensures ByteBits(sent + LengthBytes(len)) == ByteBits(sent) + Lengths(len)
  {
    hide ByteBits, Bits;
    ShortBits(sent, len);
    ShortBits(sent + [len % 256, len / 256], 65535 - len);
    assert sent + [len % 256, len / 256] + [(65535 - len) % 256, (65535 - len) / 256] == sent + LengthBytes(len);
    var a, b := Bits(len, 16), Bits(65535 - len, 16);
    assert ByteBits(sent) + a + b == ByteBits(sent) + (a + b);
  }

  lemma NoByteBits(d: seq<byte>, i: nat)
    requires i <= |d|
    ensures ByteBits(d[i..i]) == []
  {
  }

  lemma ByteBitsSlices(d: seq<byte>, i: nat, j: nat, k: nat)
    requires i <= j <= k <= |d|
    ensures ByteBits(d[i..j]) + ByteBits(d[j..k]) == ByteBits(d[i..k])
  {
    ByteBitsConcat(d[i..j], d[j..k]);
    assert d[i..j] + d[j..k] == d[i..k];
  }

  lemma StoredAssembles(z: seq<bool>, all: seq<bool>, data: seq<byte>, last: bool)
    requires all == z + StoredStart(|z|, last) + Lengths(|data|) + ByteBits(data)
    ensures all == z + StoredBits(|z|, data, last)
  {
    hide ByteBits, StoredStart, Lengths;
    var a, b, c := StoredStart(|z|, last), Lengths(|data|), ByteBits(data);
    assert z + a + b + c == z + (a + b + c);
  }

  /** Stored blocks for `n` bytes when the output does not limit them. */
  function Pieces(n: nat): (k: nat)
    ensures k >= 1
  {
    if n <= MAX_STORED then 1 else 1 + Pieces(n - MAX_STORED)
  }

  /** All that is left to do is one directly copied run of blocks with room enough for it. */
  ghost predicate Ample(flush: Flush, left: int, biValid: nat, availIn: nat, availOut: nat) {
    flush == Finish && left == 0 && biValid == 0 && availOut >= availIn + 5 * Pieces(availIn)
  }

  lemma PrefixTrans(a: seq<byte>, b: seq<byte>, c: seq<byte>)
    requires a <= b <= c
    ensures a <= c
  {
  }

  lemma PrefixKept(a: seq<byte>, b: seq<byte>, c: seq<byte>)
    requires a <= b && |a| + 4 <= |b| == |c| && c[..|c| - 4] == b[..|c| - 4]
    ensures a <= c
  {
    assert forall i :: 0 <= i < |a| ==> a[i] == b[i] == b[..|c| - 4][i] == c[i];
  }

  /** The two bytes that start a zlib stream made at level 0 with a window of `2^wBits` bytes. */
  function Header(wBits: WindowBits): (r: seq<byte>)
    ensures |r| == 2
  {
    var header := (8 + (wBits - 8) * 16) * 256;
    Msb(header + 31 - header % 31)
  }

  function Trailer(adler: nat): (r: seq<byte>)
    ensures |r| == 4
  {
    Msb(adler / 65536) + Msb(adler % 65536)
  }

  lemma EmptyAdler()
    ensures Adler32.Adler(1, []) == 1
  {
    hide Adler32.Low, Adler32.High;
    Adler32.StartIsOne();
    Adler32.NothingYet(1, 0, []);
  }

  lemma NothingInflates(z: seq<bool>)
    ensures Inflate(z, |z|) == Some(Inflated([], false, |z|))
  {
  }

  function Abs(x: int): int {
    if x < 0 then -x else x
  }

  lemma SameStart(a: seq<byte>, b: seq<byte>)
    requires a <= b && |a| >= 2
    ensures b[..2] == a[..2]
  {
  }

  lemma AdlerIsWord(data: seq<byte>)
    ensures Adler32.Adler(1, data) < 0x1_0000_0000
  {
    Adler32.AdlerFits(1, data);
  }

  /** Bytes behind the last block leave the blocks as they are. */
  lemma HoldsTrailed(sent: seq<byte>, more: seq<byte>, start: nat, data: seq<byte>)
    requires Holds(ByteBits(sent), start, data, true, 0)
    ensures Holds(ByteBits(sent + more), start, data, true, 8 * |more|)
  {
    hide Inflate, ByteBits;
    ByteBitsConcat(sent, more);
    EndedStable(ByteBits(sent), ByteBits(more), start);
  }

  lemma HeaderBytes(wBits: WindowBits, cmf: byte, flg: byte)
    requires cmf == 8 + (wBits - 8) * 16 && flg == 31 - 256 * cmf % 31
    ensures Header(wBits) == [cmf, flg]
  {
  }

  /** The header names method 8, the size of the window and no dictionary, and passes the check of RFC 1950. */
  lemma HeaderIsValid(wBits: WindowBits)
    ensures ValidHeader(Header(wBits)[0], Header(wBits)[1]) && Header(wBits)[0] / 16 + 8 == wBits
  {
    hide Header;
    if wBits == 9 { HeaderBytes(9, 24, 25); }
    if wBits == 10 { HeaderBytes(10, 40, 21); }
    if wBits == 11 { HeaderBytes(11, 56, 17); }
    if wBits == 12 { HeaderBytes(12, 72, 13); }
    if wBits == 13 { HeaderBytes(13, 88, 9); }
    if wBits == 14 { HeaderBytes(14, 104, 5); }
    if wBits == 15 { HeaderBytes(15, 120, 1); }
  }

  lemma TrailedDecodes(s: seq<byte>, wBits: WindowBits, data: seq<byte>)
    requires |s| >= 6 && s[..2] == Header(wBits) && s[|s| - 4..] == Trailer(Adler32.Adler(1, data))
    requires Holds(ByteBits(s), 16, data, true, 32)
    ensures ZlibDecode(s) == Some(data)
  {
    hide Inflate, Adler32.Adler, ByteBits;
    HeaderIsValid(wBits);
    assert s[0] == s[..2][0] && s[1] == s[..2][1];
    var end := 8 * |s| - 32;
    assert (end + 7) / 8 == |s| - 4;
  }

  /** No fewer stored blocks than this can hold `n` bytes. */
  lemma {:induction false} PiecesFew(n: nat, count: nat)
    requires n <= MAX_STORED * count && count >= 1
    ensures count >= Pieces(n)
  {
    if n > MAX_STORED {
      PiecesFew(n - MAX_STORED, count - 1);
    }
  }

  /** Any sequence of calls, whatever the slices of input and output and the flushes: nothing is lost, and once the
      stream has ended it holds the whole input. */
  method AnyStoredRun(windowBits: int, memLevel: int, calls: seq<Call>) returns (s: Stream, last: ReturnCode)
    requires var u := InitSetup(0, windowBits, memLevel); u.Some? && u.value.wrap <= 1
    ensures s.Valid() && s.input == Supplied(calls)
    ensures s.blockStart <= s.strstart < s.window.Length && s.totalIn <= |s.input| && Inflate(s.AllBits(), s.start).Some?
    ensures Inflate(s.AllBits(), s.start).value.data + s.window[s.blockStart..s.strstart] + s.input[s.totalIn..] == Supplied(calls)
    ensures calls != [] && calls[|calls| - 1].flush in {SyncFlush, FullFlush} && last == Ok && s.availOut > 0 ==>
      Inflate(ByteBits(s.output), s.start) == Some(Inflated(Supplied(calls), false, 8 * |s.output|))
    ensures calls != [] && calls[|calls| - 1].flush !in {NoFlush, Finish} && last == Ok && s.availOut > 0 ==>
      s.pending == 0 && Inflate(s.AllBits(), s.start).value.data == Supplied(calls)
    ensures last == StreamEnd ==>
      if InitSetup(0, windowBits, memLevel).value.wrap == 1 then ZlibDecode(s.output) == Some(Supplied(calls))
      else Inflate(ByteBits(s.output), 0) == Some(Inflated(Supplied(calls), true, 8 * |s.output|))
  {
    hide Stream.Valid, Stream.Sent, Stream.AllBits, Inflate, ZlibDecode, ByteBits, InitSetup, Pow2;
    s := new Stream(windowBits, memLevel);
    ghost var wrap := s.wrap;
    last := Ok;
    var i := 0;
    while i < |calls|
      invariant 0 <= i <= |calls| && s.Valid() && s.input == Supplied(calls[..i])
      invariant fresh(s) && fresh(s.window) && fresh(s.pendingBuf)
      invariant Abs(s.wrap) == wrap
      invariant i > 0 && calls[i - 1].flush !in {NoFlush, Finish} && last == Ok && s.availOut > 0 ==>
        s.AllOut() && !s.ended && (calls[i - 1].flush in {SyncFlush, FullFlush} ==> s.biValid == 0)
      invariant last == StreamEnd ==> s.ended && s.pending == 0 && s.availIn == 0 && s.wrap + wrap == 0
    {
      s.Supply(calls[i].more, calls[i].room);
      last := s.DeflateCall(calls[i].flush);
      assert calls[..i + 1][..i] == calls[..i];
      i := i + 1;
    }
    assert calls[..i] == calls;
    s.StreamConserves();
    if last == StreamEnd {
      s.EndedDecodes();
    } else if calls != [] && calls[|calls| - 1].flush in {SyncFlush, FullFlush} && last == Ok && s.availOut > 0 {
      s.FlushedDecodes();
    }
    if s.AllOut() {
      assert s.window[s.blockStart..s.strstart] == [] && s.input[s.totalIn..] == [];
    }
  }

  /** `part` copied to index `at` of a buffer follows what was in front of it. */
  lemma CopiedBehind(before: seq<byte>, after: seq<byte>, at: nat, part: seq<byte>)
    requires at + |part| <= |before| == |after|
    requires forall k :: 0 <= k < at ==> after[k] == before[k]
    requires forall k :: at <= k < at + |part| ==> after[k] == part[k - at]
    ensures after[..at + |part|] == before[..at] + part && after[..at] == before[..at]
  {
  }
}
