/** What the tokens of a deflate block mean: the copy rule of section 3.2.3 of RFC 1951. */
module Lz77 {
  import opened Common

  datatype Token =
    | Literal(b: byte)
    | Copy(dist: nat, len: nat)

  /** Copies byte by byte, so that a copy longer than its distance repeats what it has just written. */
  function CopyBytes(out: seq<byte>, dist: nat, len: nat): (r: seq<byte>)
    requires 1 <= dist <= |out|
    ensures |r| == |out| + len
    decreases len
  {
    if len == 0 then out else CopyBytes(out + [out[|out| - dist]], dist, len - 1)
  }

  /** One token; `None` for a pair the format cannot carry or that reaches before the first byte. */
  function Expand(out: seq<byte>, t: Token): Option<seq<byte>> {
    match t
    case Literal(b) => Some(out + [b])
    case Copy(dist, len) =>
      if 3 <= len <= 258 && 1 <= dist <= 32768 && dist <= |out|
      then Some(CopyBytes(out, dist, len))
      else None
  }

  function DecodeFrom(out: seq<byte>, ts: seq<Token>): Option<seq<byte>> {
    if ts == [] then Some(out)
    else
      match DecodeFrom(out, ts[..|ts| - 1])
      case None => None
      case Some(before) => Expand(before, ts[|ts| - 1])
  }

  function Decode(ts: seq<Token>): Option<seq<byte>> {
    DecodeFrom([], ts)
  }

  /** The bytes at `pos` repeat, for `len` bytes, those `dist` before them. */
  ghost predicate Repeats(data: seq<byte>, pos: nat, dist: nat, len: nat) {
    && 1 <= dist <= pos
    && pos + len <= |data|
    && data[pos..pos + len] == data[pos - dist..pos - dist + len]
  }

  /** A copy over a place where the data repeats itself writes exactly the data. */
  lemma {:induction false} CopyIsExact(data: seq<byte>, pos: nat, dist: nat, len: nat)
    requires Repeats(data, pos, dist, len)
    ensures CopyBytes(data[..pos], dist, len) == data[..pos + len]
    decreases len
  {
    if len > 0 {
      var here, there := data[pos..pos + len], data[pos - dist..pos - dist + len];
      assert data[pos] == here[0] == there[0] == data[pos - dist];
      assert data[..pos] + [data[..pos][pos - dist]] == data[..pos + 1];
      assert data[pos + 1..pos + len] == here[1..];
      assert data[pos + 1 - dist..pos - dist + len] == there[1..];
      CopyIsExact(data, pos + 1, dist, len - 1);
    }
  }

  lemma DecodePush(out: seq<byte>, ts: seq<Token>, t: Token)
    ensures DecodeFrom(out, ts).None? ==> DecodeFrom(out, ts + [t]).None?
    ensures DecodeFrom(out, ts).Some? ==> DecodeFrom(out, ts + [t]) == Expand(DecodeFrom(out, ts).value, t)
  {
    assert (ts + [t])[..|ts|] == ts;
  }

  lemma {:induction false} DecodeConcat(out: seq<byte>, a: seq<Token>, b: seq<Token>)
    requires DecodeFrom(out, a).Some?
    ensures DecodeFrom(out, a + b) == DecodeFrom(DecodeFrom(out, a).value, b)
    decreases |b|
  {
    if b == [] {
      assert a + b == a;
    } else {
      var b' := b[..|b| - 1];
      DecodeConcat(out, a, b');
      assert (a + b)[..|a + b| - 1] == a + b';
    }
  }

  function TotalLength(ts: seq<Token>): nat {
    if ts == [] then 0
    else TotalLength(ts[..|ts| - 1]) + match ts[|ts| - 1] case Literal(_) => 1 case Copy(_, len) => len
  }

  lemma {:induction false} DecodedLength(out: seq<byte>, ts: seq<Token>)
    requires DecodeFrom(out, ts).Some?
    ensures |DecodeFrom(out, ts).value| == |out| + TotalLength(ts)
    decreases |ts|
  {
    if ts != [] {
      DecodedLength(out, ts[..|ts| - 1]);
    }
  }

  /** A block as handed to the entropy coder: its tokens, the same bytes raw when they are still in the
      window, the length claimed for it, and whether it is the last one. */
  datatype Block = Block(tokens: seq<Token>, raw: Option<seq<byte>>, length: nat, last: bool)

  /** The coded and the raw form of `b`, put after `before`, mean the same `b.length` bytes of `data`;
      the raw form fits the 16-bit length of a stored block (section 3.2.4 of RFC 1951). */
  ghost predicate BlockMeans(b: Block, before: seq<byte>, data: seq<byte>) {
    && DecodeFrom(before, b.tokens) == Some(data)
    && |data| == |before| + b.length
    && b.length == TotalLength(b.tokens)
    && (b.raw.Some? ==> before + b.raw.value == data && b.length <= 65535)
  }

  /** The blocks mean `data`, and none but the final one may be marked last. */
  ghost predicate BlocksMean(bs: seq<Block>, data: seq<byte>) {
    if bs == [] then data == []
    else
      var b := bs[|bs| - 1];
      && b.length <= |data|
      && BlockMeans(b, data[..|data| - b.length], data)
      && BlocksMean(bs[..|bs| - 1], data[..|data| - b.length])
      && (|bs| >= 2 ==> !bs[|bs| - 2].last)
  }

  function AllTokens(bs: seq<Block>): seq<Token> {
    if bs == [] then [] else AllTokens(bs[..|bs| - 1]) + bs[|bs| - 1].tokens
  }

  lemma AllTokensPush(bs: seq<Block>, b: Block)
    ensures AllTokens(bs + [b]) == AllTokens(bs) + b.tokens
  {
    assert (bs + [b])[..|bs|] == bs;
  }

  /** Blocks that mean the data one by one decode to it as one stream. */
  lemma {:induction false} BlocksDecode(bs: seq<Block>, data: seq<byte>)
    requires BlocksMean(bs, data)
    ensures Decode(AllTokens(bs)) == Some(data)
    decreases |bs|
  {
    if bs != [] {
      var b := bs[|bs| - 1];
      var before := data[..|data| - b.length];
      BlocksDecode(bs[..|bs| - 1], before);
      DecodeConcat([], AllTokens(bs[..|bs| - 1]), b.tokens);
    }
  }

  lemma BlocksPush(bs: seq<Block>, before: seq<byte>, b: Block, data: seq<byte>)
    requires BlocksMean(bs, before)
    requires BlockMeans(b, before, data)
    requires before == data[..|before|]
    requires bs != [] ==> !bs[|bs| - 1].last
    ensures BlocksMean(bs + [b], data)
  {
    assert (bs + [b])[..|bs|] == bs;
  }

  /** The last `size` bytes of an output. */
  function Tail(out: seq<byte>, size: nat): (r: seq<byte>)
    ensures |r| == Min(|out|, size)
  {
    if |out| <= size then out else out[|out| - size..]
  }

  /** A decoder that never looks back at its output, only at a window of fixed size behind it. */
  datatype Windowed = Windowed(out: seq<byte>, window: seq<byte>) {
    function Push(size: nat, b: byte): Windowed {
      Windowed(out + [b], Tail(window + [b], size))
    }

    function CopyInside(size: nat, dist: nat, len: nat): Windowed
      requires 1 <= dist <= |window| <= size
      decreases len
    {
      if len == 0 then this else Push(size, window[|window| - dist]).CopyInside(size, dist, len - 1)
    }
  }

  /** One token; `None` once a copy reaches out of the window. */
  function ExpandInside(d: Windowed, size: nat, t: Token): Option<Windowed>
    requires |d.window| <= size
  {
    match t
    case Literal(b) => Some(d.Push(size, b))
    case Copy(dist, len) => if 3 <= len <= 258 && 1 <= dist <= |d.window| then Some(d.CopyInside(size, dist, len)) else None
  }

  function DecodeInside(size: nat, ts: seq<Token>): (r: Option<Windowed>)
    ensures r.Some? ==> |r.value.window| <= size
  {
    if ts == [] then Some(Windowed([], []))
    else
      match DecodeInside(size, ts[..|ts| - 1])
      case None => None
      case Some(d) => WindowBounded(d, size, ts[|ts| - 1]); ExpandInside(d, size, ts[|ts| - 1])
  }

  lemma WindowBounded(d: Windowed, size: nat, t: Token)
    requires |d.window| <= size
    ensures ExpandInside(d, size, t).Some? ==> |ExpandInside(d, size, t).value.window| <= size
  {
    if t.Copy? && 3 <= t.len && 1 <= t.dist <= |d.window| {
      CopyBounded(d, size, t.dist, t.len);
    }
  }

  lemma {:induction false} CopyBounded(d: Windowed, size: nat, dist: nat, len: nat)
    requires 1 <= dist <= |d.window| <= size
    ensures |d.CopyInside(size, dist, len).window| <= size
    decreases len
  {
    hide Tail;
    if len > 0 {
      CopyBounded(d.Push(size, d.window[|d.window| - dist]), size, dist, len - 1);
    }
  }

  /** The state after `out` was written. */
  function After(out: seq<byte>, size: nat): Windowed {
    Windowed(out, Tail(out, size))
  }

  lemma TailPush(out: seq<byte>, size: nat, b: byte)
    ensures Tail(Tail(out, size) + [b], size) == Tail(out + [b], size)
  {
  }

  lemma TailAt(out: seq<byte>, size: nat, dist: nat)
    requires 1 <= dist <= |Tail(out, size)|
    ensures Tail(out, size)[|Tail(out, size)| - dist] == out[|out| - dist]
  {
  }

  lemma {:induction false} CopyInsideIsCopy(out: seq<byte>, size: nat, dist: nat, len: nat)
    requires 1 <= dist <= |Tail(out, size)|
    ensures After(out, size).CopyInside(size, dist, len) == After(CopyBytes(out, dist, len), size)
    decreases len
  {
    hide Tail;
    if len > 0 {
      var b := out[|out| - dist];
      TailPush(out, size, b);
      TailAt(out, size, dist);
      CopyInsideIsCopy(out + [b], size, dist, len - 1);
    }
  }

  predicate Within(size: nat, t: Token) {
    t.Copy? ==> t.dist <= size
  }

  predicate AllWithin(size: nat, ts: seq<Token>) {
    forall i :: 0 <= i < |ts| ==> Within(size, ts[i])
  }

  lemma ExpandInsideIsExpand(out: seq<byte>, size: nat, t: Token)
    requires size <= 32768
    ensures ExpandInside(After(out, size), size, t) ==
      if Expand(out, t).Some? && Within(size, t) then Some(After(Expand(out, t).value, size)) else None
  {
    match t
    case Literal(b) => TailPush(out, size, b);
    case Copy(dist, len) =>
      if 1 <= dist <= |Tail(out, size)| {
        CopyInsideIsCopy(out, size, dist, len);
      }
  }

  /** A window is enough exactly for tokens that reach no further back than its size: then it gives the same bytes. */
  lemma {:induction false} WindowSuffices(size: nat, ts: seq<Token>)
    requires size <= 32768
    ensures DecodeInside(size, ts) ==
      if Decode(ts).Some? && AllWithin(size, ts) then Some(After(Decode(ts).value, size)) else None
    decreases |ts|
  {
    hide Expand, ExpandInside, Tail, Within;
    if ts == [] {
      assert |Tail([], size)| == 0;
    } else {
      var ts', t := ts[..|ts| - 1], ts[|ts| - 1];
      WindowSuffices(size, ts');
      assert ts == ts' + [t];
      assert AllWithin(size, ts) == (AllWithin(size, ts') && Within(size, t));
      if Decode(ts').Some? && AllWithin(size, ts') {
        ExpandInsideIsExpand(Decode(ts').value, size, t);
      }
    }
  }
}
