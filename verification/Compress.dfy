/** compress2 at level 0 and compressBound. */
module Compress {
  import opened Common
  import opened Rfc1951
  import opened StoredStream
  import opened Zlib

  /** The largest value of a 32-bit `uInt` or `uLong`. */
  const MAX_WORD := 0xffff_ffff

  /** What compress2 makes of `n` bytes at level 0: the zlib header and trailer, and five bytes for each stored block. */
  function StoredSize(n: nat): nat {
    n + 5 * Pieces(n) + 6
  }

  /** The sum of compressBound before it is cut to 32 bits. */
  function BoundSum(sourceLen: nat): nat {
    sourceLen + sourceLen / 0x1000 + sourceLen / 0x4000 + sourceLen / 0x200_0000 + 13
  }

  /** compressBound, in 32-bit unsigned arithmetic. */
  function CompressBound(sourceLen: nat): nat {
    BoundSum(sourceLen) % (MAX_WORD + 1)
  }

  lemma {:induction false} PiecesCount(n: nat)
    ensures MAX_STORED * (Pieces(n) - 1) <= n && (n > 0 ==> MAX_STORED * (Pieces(n) - 1) < n)
  {
    if n > MAX_STORED {
      PiecesCount(n - MAX_STORED);
    }
  }

  /** The bound of compressBound is enough for level 0 exactly when its sum does not overflow. */
  lemma BoundSuffices(n: nat)
    requires n <= MAX_WORD
    ensures CompressBound(n) >= StoredSize(n) <==> BoundSum(n) <= MAX_WORD
  {
    PiecesCount(n);
    var k := Pieces(n) - 1;
    assert n / 0x1000 >= 5 * k;
    assert BoundSum(n) < n + (MAX_WORD + 1);
  }

  /** For the longest source of all the bound has overflowed to about a million. */
  lemma BoundTooSmall()
    ensures CompressBound(MAX_WORD) == 1_310_857 < StoredSize(MAX_WORD)
  {
  }

  /** Between the rounds of the loop of compress2: before the first nothing has been handed over, and after it everything. */
  ghost predicate Looping(stream: Stream, source: seq<byte>, destLen: nat, left: nat, sourceLen: nat, first: bool)
    reads stream
  {
    && Abs(stream.wrap) == 1 && |stream.output| + stream.availOut + left == destLen && stream.totalIn + stream.availIn == |stream.input|
    && (first ==> stream.input == [] && stream.availOut == 0 && left == destLen && sourceLen == |source| && stream.status == InitState)
    && (!first ==> stream.input == source && sourceLen == left == 0 && destLen < StoredSize(|source|))
  }

  /** One round of the loop of compress2. */
  method Round(stream: Stream, source: seq<byte>, left0: nat, sourceLen0: nat, ghost destLen: nat, ghost first: bool)
    returns (left: nat, sourceLen: nat, err: ReturnCode)
    requires stream.Valid() && Looping(stream, source, destLen, left0, sourceLen0, first)
    requires destLen <= MAX_WORD && |source| <= MAX_WORD
    modifies stream, stream.window, stream.pendingBuf
    ensures stream.Valid() && stream.input == source && |stream.output| <= destLen
    ensures err == Ok ==> Looping(stream, source, destLen, left, sourceLen, false)
    ensures err == Ok && !first ==> stream.availOut - stream.totalIn < old(stream.availOut - stream.totalIn)
    ensures err in {Ok, BufError, StreamEnd} && (err == BufError ==> destLen < StoredSize(|source|))
    ensures destLen >= StoredSize(|source|) ==> err == StreamEnd && |stream.output| == StoredSize(|source|)
    ensures err == StreamEnd ==> stream.ended && stream.pending == 0 && stream.availIn == 0 && stream.wrap == -1
  {
    hide Stream.Valid, Stream.Running, Stream.Framed, Stream.Sent, ZlibDecode, Pieces, Inflate, ByteBits;
    left, sourceLen := left0, sourceLen0;
    var room: nat, chunk: nat := stream.availOut, 0;
    if room == 0 {
      room := Min(left, MAX_WORD);
      left := left - room;
    }
    if stream.availIn == 0 {
      chunk := Min(sourceLen, MAX_WORD);
      sourceLen := sourceLen - chunk;
    }
    stream.Supply(source[|source| - sourceLen - chunk..|source| - sourceLen], room);
    err := stream.DeflateCall(if sourceLen != 0 then NoFlush else Finish);
    stream.InputSplits();
  }

  /** compress2 at level 0, with `destLen` the room in the destination. It succeeds exactly when the stored form fits, and
      then the destination holds a zlib stream of the source. */
  method Compress2Stored(destLen: nat, source: seq<byte>) returns (err: ReturnCode, dest: seq<byte>)
    requires destLen <= MAX_WORD && |source| <= MAX_WORD
    ensures |dest| <= destLen && err in {Ok, BufError}
    ensures err == Ok <==> destLen >= StoredSize(|source|)
    ensures err == Ok ==> ZlibDecode(dest) == Some(source) && |dest| == StoredSize(|source|)
  {
    hide Stream.Valid, Stream.Running, Stream.Framed, Stream.Sent, ZlibDecode, Pieces, Inflate, ByteBits;
    var left: nat, sourceLen: nat := destLen, |source|;
    var stream := new Stream(15, 8);
    ghost var first := true;
    while true
      invariant stream.Valid() && fresh(stream) && fresh(stream.window) && fresh(stream.pendingBuf)
      invariant Looping(stream, source, destLen, left, sourceLen, first)
      decreases first, stream.availOut + |source| - stream.totalIn
    {
      left, sourceLen, err := Round(stream, source, left, sourceLen, destLen, first);
      if err != Ok { break; }
      first := false;
    }
    dest := stream.output;
    if err == StreamEnd {
      stream.EndedDecodes();
      err := Ok;
    }
  }

  /** What compress2 is documented to do: with the room that compressBound asks for, it cannot fail at level 0. */
  method CompressWithinBound(source: seq<byte>) returns (dest: seq<byte>)
    requires BoundSum(|source|) <= MAX_WORD
    ensures |dest| <= CompressBound(|source|) && ZlibDecode(dest) == Some(source)
  {
    hide ZlibDecode;
    BoundSuffices(|source|);
    var err;
    err, dest := Compress2Stored(CompressBound(|source|), source);
  }
}
