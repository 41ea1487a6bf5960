/** The LZ77 engine of deflate: a sliding window with hash chains, resumable at any point. */
module Deflate {
  import opened Common
  import opened RollingHash
  import opened HashChains
  import opened Lz77
  import opened Zlib

  const MIN_MATCH := 3
  const MAX_MATCH := 258
  const MIN_LOOKAHEAD := MAX_MATCH + MIN_MATCH + 1
  const WIN_INIT := MAX_MATCH
  const TOO_FAR := 4096

  datatype Strategy = DefaultStrategy | Filtered | HuffmanOnly | Rle | Fixed

  /** One line of the configuration table. */
  datatype Config = Config(good: nat, lazy: nat, nice: nat, chain: nat)

  function Configuration(level: nat): (c: Config)
    requires 1 <= level <= 9
    ensures 4 <= c.lazy <= MAX_MATCH && c.chain >= 4
  {
    [ Config(4, 4, 8, 4), Config(4, 5, 16, 8), Config(4, 6, 32, 32),
      Config(4, 4, 16, 16), Config(8, 16, 32, 32), Config(8, 16, 128, 128),
      Config(8, 32, 128, 256), Config(32, 128, 258, 1024), Config(32, 258, 258, 4096)
    ][level - 1]
  }

  /** The hash key is right for the two bytes at `p`: one more update gives the key of the string at `p`. */
  ghost predicate KeyReady(k: HashKey, h: nat, win: seq<byte>, p: nat)
    requires p + 2 <= |win|
  {
    forall c: byte :: Update(k, h, c) == Hash3(k, win[p], win[p + 1], c)
  }

  lemma KeyAfter(k: HashKey, y: nat, h: nat, win: seq<byte>, p: nat)
    requires p + 2 <= |win|
    requires h == Update(k, Update(k, y, win[p]), win[p + 1])
    ensures KeyReady(k, h, win, p)
  {
    hide Update;
    forall c: byte
      ensures Update(k, h, c) == Hash3(k, win[p], win[p + 1], c)
    {
      Forgets(k, y, win[p], win[p + 1], c);
    }
  }

  lemma KeySlides(k: HashKey, h: nat, win: seq<byte>, p: nat, w: nat)
    requires w <= p && p + 2 <= |win| && KeyReady(k, h, win, p)
    ensures KeyReady(k, h, win[w..], p - w)
  {
    hide Update, Hash3;
  }

  /** What a run may put out: how it searches, its strategy, and the distance it may look back. */
  datatype Rule = Rule(lazy: bool, strategy: Strategy, reach: int) {
    predicate Permits(t: Token) {
      match t
      case Literal(_) => true
      case Copy(dist, len) =>
        && dist <= reach
        && strategy != HuffmanOnly
        && (strategy == Rle ==> dist == 1)
        && (lazy && strategy == Filtered ==> len > 5)
        && (lazy && len == MIN_MATCH ==> dist <= TOO_FAR)
    }

    predicate PermitsAll(ts: seq<Token>) {
      forall i :: 0 <= i < |ts| ==> Permits(ts[i])
    }
  }

  /** Where the last full flush was: between which blocks, and how many bytes into the input. */
  datatype Restart = Restart(block: nat, byte: nat)

  /** What follows the last full flush can be decoded without anything before it. */
  ghost predicate DecodesAlone(restart: Restart, blocks: seq<Block>, buffered: seq<Token>, data: seq<byte>, pos: int) {
    && restart.block <= |blocks| && restart.byte <= pos <= |data|
    && Decode(AllTokens(blocks[restart.block..]) + buffered) == Some(data[restart.byte..pos])
  }

  /** The tokens of `blocks` mean the first `start` bytes, those buffered continue up to `pos`, and all keep the rule. */
  ghost predicate TokensMean(rule: Rule, restart: Restart, blocks: seq<Block>, buffered: seq<Token>, data: seq<byte>, start: int, pos: int) {
    && 0 <= start <= pos <= |data|
    && BlocksMean(blocks, data[..start])
    && DecodeFrom(data[..start], buffered) == Some(data[..pos])
    && rule.PermitsAll(AllTokens(blocks) + buffered)
    && restart.byte <= start && DecodesAlone(restart, blocks, buffered, data, pos)
  }

  lemma TokensMeanGrow(rule: Rule, restart: Restart, blocks: seq<Block>, buffered: seq<Token>, data: seq<byte>, data': seq<byte>, start: int, pos: int)
    requires TokensMean(rule, restart, blocks, buffered, data, start, pos) && data <= data'
    ensures TokensMean(rule, restart, blocks, buffered, data', start, pos)
  {
    assert data'[..start] == data[..start] && data'[..pos] == data[..pos];
  }

  lemma RepeatsGrow(data: seq<byte>, data': seq<byte>, pos: nat, dist: nat, len: nat)
    requires Repeats(data, pos, dist, len) && data <= data'
    ensures Repeats(data', pos, dist, len)
  {
    assert data'[pos..pos + len] == data[pos..pos + len];
    assert data'[pos - dist..pos - dist + len] == data[pos - dist..pos - dist + len];
  }

  lemma RepeatsApart(data: seq<byte>, pos: nat, dist: nat, len: nat)
    requires Repeats(data, pos, dist, len)
    ensures 1 <= dist <= pos
  {
  }

  lemma MoreAlone(restart: Restart, blocks: seq<Block>, buffered: seq<Token>, data: seq<byte>, pos: int, t: Token, len: nat)
    requires DecodesAlone(restart, blocks, buffered, data, pos) && pos + len <= |data|
    requires Expand(data[restart.byte..pos], t) == Some(data[restart.byte..pos + len])
    ensures DecodesAlone(restart, blocks, buffered + [t], data, pos + len)
  {
    var since := AllTokens(blocks[restart.block..]);
    DecodePush([], since + buffered, t);
    assert since + (buffered + [t]) == since + buffered + [t];
  }

  lemma PushLiteral(rule: Rule, restart: Restart, blocks: seq<Block>, buffered: seq<Token>, data: seq<byte>, start: int, pos: int)
    requires TokensMean(rule, restart, blocks, buffered, data, start, pos) && pos < |data|
    ensures TokensMean(rule, restart, blocks, buffered + [Literal(data[pos])], data, start, pos + 1)
  {
    hide DecodesAlone;
    DecodePush(data[..start], buffered, Literal(data[pos]));
    assert data[restart.byte..pos] + [data[pos]] == data[restart.byte..pos + 1];
    assert data[..pos] + [data[pos]] == data[..pos + 1];
    MoreAlone(restart, blocks, buffered, data, pos, Literal(data[pos]), 1);
    assert AllTokens(blocks) + (buffered + [Literal(data[pos])]) == AllTokens(blocks) + buffered + [Literal(data[pos])];
  }

  lemma CopyAlone(data: seq<byte>, from: nat, pos: nat, dist: nat, len: nat)
    requires Repeats(data, pos, dist, len) && from + dist <= pos
    ensures CopyBytes(data[from..pos], dist, len) == data[from..pos + len]
  {
    var d, p := data[from..], pos - from;
    assert d[p..p + len] == data[pos..pos + len] && d[p - dist..p - dist + len] == data[pos - dist..pos - dist + len];
    CopyIsExact(d, p, dist, len);
    assert d[..p] == data[from..pos] && d[..p + len] == data[from..pos + len];
  }

  lemma PushCopy(rule: Rule, restart: Restart, blocks: seq<Block>, buffered: seq<Token>, data: seq<byte>, start: int, pos: nat, dist: nat, len: nat)
    requires TokensMean(rule, restart, blocks, buffered, data, start, pos)
    requires MIN_MATCH <= len <= MAX_MATCH && dist <= 32768 && Repeats(data, pos, dist, len)
    requires rule.Permits(Copy(dist, len)) && dist <= pos - restart.byte
    ensures TokensMean(rule, restart, blocks, buffered + [Copy(dist, len)], data, start, pos + len)
  {
    hide DecodesAlone, CopyBytes;
    DecodePush(data[..start], buffered, Copy(dist, len));
    CopyIsExact(data, pos, dist, len);
    CopyAlone(data, restart.byte, pos, dist, len);
    MoreAlone(restart, blocks, buffered, data, pos, Copy(dist, len), len);
    assert AllTokens(blocks) + (buffered + [Copy(dist, len)]) == AllTokens(blocks) + buffered + [Copy(dist, len)];
  }

  lemma BlockAlone(restart: Restart, blocks: seq<Block>, b: Block, data: seq<byte>, pos: int)
    requires DecodesAlone(restart, blocks, b.tokens, data, pos)
    ensures DecodesAlone(restart, blocks + [b], [], data, pos)
  {
    hide Decode, AllTokens;
    assert (blocks + [b])[restart.block..] == blocks[restart.block..] + [b];
    AllTokensPush(blocks[restart.block..], b);
    assert AllTokens((blocks + [b])[restart.block..]) + [] == AllTokens(blocks[restart.block..]) + b.tokens;
  }

  /** Handing the buffered tokens over as one block, with its bytes when the window still holds them. */
  lemma PushBlock(rule: Rule, restart: Restart, blocks: seq<Block>, b: Block, data: seq<byte>, start: int, pos: int)
    requires TokensMean(rule, restart, blocks, b.tokens, data, start, pos) && b.length == pos - start
    requires b.raw.Some? ==> b.raw.value == data[start..pos] && b.length <= 65535
    requires blocks != [] ==> !blocks[|blocks| - 1].last
    ensures TokensMean(rule, restart, blocks + [b], [], data, pos, pos)
  {
    hide DecodesAlone, AllTokens, BlocksMean;
    DecodedLength(data[..start], b.tokens);
    assert data[..start] + data[start..pos] == data[..pos];
    BlocksPush(blocks, data[..start], b, data[..pos]);
    BlockAlone(restart, blocks, b, data, pos);
    AllTokensPush(blocks, b);
    assert AllTokens(blocks + [b]) + [] == AllTokens(blocks) + b.tokens;
  }

  /** No tokens cover no bytes. */
  lemma EmptyCover(rule: Rule, restart: Restart, blocks: seq<Block>, data: seq<byte>, start: int, pos: int)
    requires TokensMean(rule, restart, blocks, [], data, start, pos)
    ensures start == pos
  {
    assert |data[..start]| == |data[..pos]|;
  }

  /** Between blocks a new start may be made. */
  lemma RestartHere(rule: Rule, restart: Restart, blocks: seq<Block>, data: seq<byte>, pos: int)
    requires TokensMean(rule, restart, blocks, [], data, pos, pos)
    ensures TokensMean(rule, Restart(|blocks|, pos), blocks, [], data, pos, pos)
  {
    assert blocks[|blocks|..] == [] && data[pos..pos] == [];
    assert AllTokens(blocks[|blocks|..]) + [] == [];
  }

  /** All blocks and the buffered tokens decode as one stream. */
  lemma TokensDecode(rule: Rule, restart: Restart, blocks: seq<Block>, buffered: seq<Token>, data: seq<byte>, start: int, pos: int)
    requires TokensMean(rule, restart, blocks, buffered, data, start, pos)
    ensures 0 <= pos <= |data| && Decode(AllTokens(blocks) + buffered) == Some(data[..pos])
    ensures rule.PermitsAll(AllTokens(blocks) + buffered) && DecodesAlone(restart, blocks, buffered, data, pos)
  {
    BlocksDecode(blocks, data[..start]);
    DecodeConcat([], AllTokens(blocks), buffered);
  }

  /** What is permitted lies inside a window that is larger than the reach. */
  lemma PermittedWithin(rule: Rule, ts: seq<Token>, size: nat)
    requires rule.PermitsAll(ts) && rule.reach <= size
    ensures AllWithin(size, ts)
  {
    forall i | 0 <= i < |ts|
      ensures Within(size, ts[i])
    {
      assert rule.Permits(ts[i]);
    }
  }

  /** The `n` bytes at `p` and at `q` are the same. */
  ghost predicate SameRun(win: seq<byte>, p: nat, q: nat, n: nat) {
    p + n <= |win| && q + n <= |win| && win[p..p + n] == win[q..q + n]
  }

  lemma RunOfOneByte(win: seq<byte>, b: byte, p: nat, n: nat)
    requires 1 <= p && p + n <= |win|
    requires forall i :: p - 1 <= i < p + n ==> win[i] == b
    ensures SameRun(win, p - 1, p, n)
  {
  }

  lemma SameRunExtends(win: seq<byte>, p: nat, q: nat, n: nat)
    requires SameRun(win, p, q, n) && p + n < |win| && q + n < |win| && win[p + n] == win[q + n]
    ensures SameRun(win, p, q, n + 1)
  {
    assert win[p..p + n + 1] == win[p..p + n] + [win[p + n]];
    assert win[q..q + n + 1] == win[q..q + n] + [win[q + n]];
  }

  lemma SameRunShrinks(win: seq<byte>, p: nat, q: nat, n: nat, m: nat)
    requires SameRun(win, p, q, n) && m <= n
    ensures SameRun(win, p, q, m)
  {
    assert win[p..p + m] == win[p..p + n][..m];
    assert win[q..q + m] == win[q..q + n][..m];
  }

  /** Length of the longest common run at `p` and `q`, at most `cap`. */
  function CommonRun(win: seq<byte>, p: nat, q: nat, cap: nat): (n: nat)
    ensures n <= cap
    decreases cap
  {
    if cap == 0 || p >= |win| || q >= |win| || win[p] != win[q] then 0 else 1 + CommonRun(win, p + 1, q + 1, cap - 1)
  }

  /** The common run is the longest: that far the bytes are the same, and there they differ. */
  lemma {:induction false} CommonRunIsLongest(win: seq<byte>, p: nat, q: nat, cap: nat)
    requires p + cap <= |win| && q + cap <= |win|
    ensures SameRun(win, p, q, CommonRun(win, p, q, cap))
    ensures CommonRun(win, p, q, cap) < cap ==> win[p + CommonRun(win, p, q, cap)] != win[q + CommonRun(win, p, q, cap)]
    decreases cap
  {
    hide SameRun;
    if cap > 0 && win[p] == win[q] {
      CommonRunIsLongest(win, p + 1, q + 1, cap - 1);
      SameRunPrepends(win, p, q, CommonRun(win, p + 1, q + 1, cap - 1));
    } else {
      NoRun(win, p, q);
    }
  }

  lemma NoRun(win: seq<byte>, p: nat, q: nat)
    requires p <= |win| && q <= |win|
    ensures SameRun(win, p, q, 0)
  {
  }

  lemma SameRunPrepends(win: seq<byte>, p: nat, q: nat, n: nat)
    requires p < |win| && q < |win| && win[p] == win[q] && SameRun(win, p + 1, q + 1, n)
    ensures SameRun(win, p, q, n + 1)
  {
    assert win[p..p + n + 1] == [win[p]] + win[p + 1..p + 1 + n];
    assert win[q..q + n + 1] == [win[q]] + win[q + 1..q + 1 + n];
  }

  /** A mismatch bounds the common run. */
  lemma {:induction false} RunStops(win: seq<byte>, p: nat, q: nat, cap: nat, i: nat)
    requires i < cap ==> p + i >= |win| || q + i >= |win| || win[p + i] != win[q + i]
    ensures CommonRun(win, p, q, cap) <= i
    decreases cap
  {
    if cap > 0 && i > 0 {
      RunStops(win, p + 1, q + 1, cap - 1, i - 1);
    }
  }

  lemma PutMore(a: seq<Token>, b: seq<Token>, t: Token)
    ensures a + (b + [t]) == a + b + [t]
  {
  }

  lemma RunIsShort(win: seq<byte>, p: nat)
    requires 1 <= p && p + MIN_MATCH < |win|
    requires win[p - 1] != win[p] || win[p - 1] != win[p + 1] || win[p - 1] != win[p + 2]
    ensures CommonRun(win, p - 1, p, MAX_MATCH) < MIN_MATCH
  {
    RunStops(win, p - 1, p, MAX_MATCH, if win[p - 1] != win[p] then 0 else if win[p - 1] != win[p + 1] then 1 else 2);
  }

  /** `len` bytes from `p` on repeat the byte before; either the next one does not, or no more are of interest. */
  lemma RunIs(win: seq<byte>, b: byte, p: nat, len: nat)
    requires 1 <= p && p + len < |win| && MIN_MATCH <= len <= MAX_MATCH
    requires forall i :: p - 1 <= i < p + len ==> win[i] == b
    requires len == MAX_MATCH || win[p + len] != b
    ensures CommonRun(win, p - 1, p, MAX_MATCH) == len
  {
    hide CommonRun, SameRun;
    RunOfOneByte(win, b, p, len);
    RunReaches(win, p - 1, p, MAX_MATCH, len);
    if len < MAX_MATCH {
      RunStops(win, p - 1, p, MAX_MATCH, len);
    }
  }

  /** The common run is at least as long as any stretch that is the same. */
  lemma {:induction false} RunReaches(win: seq<byte>, p: nat, q: nat, cap: nat, n: nat)
    requires n <= cap && SameRun(win, p, q, n)
    ensures CommonRun(win, p, q, cap) >= n
    decreases n
  {
    if n > 0 {
      assert win[p] == win[p..p + n][0] == win[q..q + n][0] == win[q];
      assert win[p + 1..p + n] == win[p..p + n][1..] && win[q + 1..q + n] == win[q..q + n][1..];
      RunReaches(win, p + 1, q + 1, cap - 1, n - 1);
    }
  }

  lemma RunIsSame(win: seq<byte>, p: nat)
    requires 1 <= p && p + MAX_MATCH <= |win|
    ensures SameRun(win, p - 1, p, CommonRun(win, p - 1, p, MAX_MATCH))
  {
    CommonRunIsLongest(win, p - 1, p, MAX_MATCH);
  }

  /** What one search for a match sees: the valid bytes of the window and all of it, the links, the dictionary,
      the string to match and the head of its chain. */
  datatype Search = Search(key: HashKey, wSize: nat, win: seq<byte>, full: seq<byte>, prev: seq<nat>, ins: set<nat>,
                           str: nat, hashHead: nat, cap: nat) {
    function MaxDist(): int {
      wSize - MIN_LOOKAHEAD
    }

    function Limit(): nat {
      if str > MaxDist() then str - Max(MaxDist(), 0) else 0
    }

    /** `str` has just been inserted, `hashHead` is the link it got, and it is close enough. */
    ghost predicate Valid() {
      && MaxDist() > 0
      && 0 < wSize == |prev|
      && Inserted(win, ins, str)
      && str != 0
      && (forall p: nat :: p in ins && str < p + wSize ==> Newest(key, win, ins, HashAt(key, win, p), p, prev[Slot(p, wSize)]))
      && hashHead == prev[Slot(str, wSize)] && hashHead != 0 && str - hashHead <= MaxDist()
    }

    /** An older string of the same bucket that the search may look at: strictly closer than MAX_DIST, or the
        head of the chain itself. */
    ghost predicate Candidate(r: nat) {
      && r in ins && r < str
      && HashAt(key, win, r) == HashAt(key, win, str)
      && (str - r < MaxDist() || r == hashHead)
    }

    /** Every candidate from `from` on has a common run with the string of at most `best` bytes. */
    ghost predicate NoneBetter(from: nat, best: nat) {
      forall r: nat :: Candidate(r) && r >= from ==> CommonRun(full, r, str, cap) <= best
    }

    /** The candidates from `from` on. */
    ghost function Seen(from: nat): set<nat> {
      set r | r in ins && Candidate(r) && r >= from
    }

    /** None of the `n` newest candidates has a common run with the string of more than `best` bytes. */
    ghost predicate NoneBetterOf(n: nat, best: nat) {
      forall r: nat :: Candidate(r) && |Seen(r)| <= n ==> CommonRun(full, r, str, cap) <= best
    }

    lemma NoneSeen()
      requires Valid()
      ensures |Seen(hashHead + 1)| == 0
    {
      hide HashAt;
      assert Newest(key, win, ins, HashAt(key, win, str), str, hashHead);
      assert Seen(hashHead + 1) == {};
    }

    /** Between a string and its link there is no candidate, so one more has been seen. */
    lemma OneMoreSeen(cur: nat, next: nat)
      requires Valid() && At(cur) && next == prev[Slot(cur, wSize)] && next > Limit()
      ensures |Seen(next + 1)| == |Seen(cur)| == |Seen(cur + 1)| + 1
    {
      hide HashAt;
      assert Newest(key, win, ins, HashAt(key, win, cur), cur, next);
      assert forall r: nat :: Candidate(r) && r > next ==> r >= cur;
      SeenGrows(cur, next);
    }

    lemma SeenGrows(cur: nat, next: nat)
      requires Candidate(cur) && next < cur && forall r: nat :: Candidate(r) && r > next ==> r >= cur
      ensures |Seen(next + 1)| == |Seen(cur)| == |Seen(cur + 1)| + 1
    {
      hide HashAt, Candidate;
      assert cur in ins by { InDictionary(cur); }
      assert Seen(cur) == Seen(cur + 1) + {cur};
      assert Seen(next + 1) == Seen(cur);
    }

    lemma InDictionary(r: nat)
      requires Candidate(r)
      ensures r in ins
    {
    }

    /** With `n` candidates seen, those not seen are not among the `n` newest. */
    lemma EnoughSeen(cur: nat, n: nat, best: nat)
      requires NoneBetter(cur, best) && |Seen(cur)| >= n
      ensures NoneBetterOf(n, best)
    {
      forall r: nat | Candidate(r) && |Seen(r)| <= n
        ensures r >= cur
      {
        if r < cur {
          assert r in Seen(r) && r !in Seen(cur) && Seen(cur) <= Seen(r);
          SmallerInside(Seen(cur), Seen(r), r);
        }
      }
    }

    lemma AllSeen(n: nat, best: nat)
      requires NoneBetter(0, best)
      ensures NoneBetterOf(n, best)
    {
    }

    /** The search has got to `cur`: a string of the right bucket that is not too old. */
    ghost predicate At(cur: nat) {
      && cur in ins && 1 <= cur < str && cur <= hashHead && str - cur <= MaxDist()
      && (cur > Limit() || cur == hashHead)
      && HashAt(key, win, cur) == HashAt(key, win, str)
    }

    lemma AtCandidate(cur: nat)
      requires At(cur)
      ensures Candidate(cur)
    {
    }

    lemma Starts()
      requires Valid()
      ensures At(hashHead) && NoneBetter(hashHead + 1, 0)
    {
      hide HashAt;
      assert Newest(key, win, ins, HashAt(key, win, str), str, hashHead);
    }

    /** Following a link skips no candidate, and where the links leave the permitted range none is left. */
    lemma Follows(cur: nat, best: nat)
      requires Valid() && At(cur) && NoneBetter(cur, best)
      ensures var next := prev[Slot(cur, wSize)];
        && next < cur
        && (next > Limit() ==> At(next) && NoneBetter(next + 1, best))
        && (next <= Limit() ==> NoneBetter(0, best))
    {
      hide HashAt;
      var next := prev[Slot(cur, wSize)];
      assert Newest(key, win, ins, HashAt(key, win, cur), cur, next);
      forall r: nat | Candidate(r) && r > next
        ensures r >= cur
      {
      }
      forall r: nat | Candidate(r) && next <= Limit()
        ensures r > next || r == hashHead
      {
      }
    }
  }

  /** How the buffered entry `(d, lc)` is read back by the entropy coder. */
  function TokenOf(d: nat, lc: byte): Token {
    if d == 0 then Literal(lc) else Copy(d, lc + MIN_MATCH)
  }

  function TokensOf(ds: seq<nat>, lcs: seq<byte>): (ts: seq<Token>)
    requires |ds| == |lcs|
    ensures |ts| == |ds|
  {
    seq(|ds|, i requires 0 <= i < |ds| => TokenOf(ds[i], lcs[i]))
  }

  class DeflateState {
    // Fixed for the life of the stream.
    const level: nat
    const strategy: Strategy
    const config: Config
    const wSize: nat
    const key: HashKey
    const litBufsize: nat
    const window: array<byte>
    const head: array<nat>
    const prev: array<nat>
    const dBuf: array<nat>
    const lBuf: array<byte>

    // The caller's side of the stream: unread input and room for output.
    var nextIn: seq<byte>
    var availOut: nat

    var status: Status
    var wrap: int
    var lastFlush: int
    var pending: nat

    var strstart: nat
    var lookahead: nat
    var blockStart: int
    var insert: nat
    var insH: nat
    var matchLength: nat
    var matchStart: nat
    var matchAvailable: bool
    var prevLength: nat
    var prevMatch: nat
    var highWater: nat
    var lastLit: nat

    /** Everything the caller supplied so far, how much of it was read, and the offset in it of window index 0. */
    ghost var data: seq<byte>
    ghost var consumed: nat
    ghost var base: nat
    /** Window positions in the dictionary, and the newest of them. */
    ghost var ins: set<nat>
    ghost var lastIns: nat
    /** Blocks handed to the entropy coder. */
    ghost var blocks: seq<Block>
    /** The last full flush. */
    ghost var restart: Restart

    function MaxDist(): int {
      wSize - MIN_LOOKAHEAD
    }

    predicate UsesHash() {
      strategy != HuffmanOnly && strategy != Rle
    }

    predicate IsSlow() {
      UsesHash() && level >= 4
    }

    /** What the level and the strategy allow to be put out. */
    function Rules(): Rule {
      Rule(IsSlow(), strategy, MaxDist())
    }

    ghost predicate Shape() {
      && 1 <= level <= 9 && config == Configuration(level)
      && 512 <= wSize <= 32768
      && key.Valid()
      && 128 <= litBufsize <= 32768
      && window.Length == 2 * wSize && prev.Length == wSize && head.Length == key.Size()
      && dBuf.Length == litBufsize && lBuf.Length == litBufsize
      && head != prev && head != dBuf && prev != dBuf && window != lBuf
      && window as object != head && window as object != prev && window as object != dBuf
      && lBuf as object != head && lBuf as object != prev && lBuf as object != dBuf
    }

    /** End of the valid bytes of the window. */
    ghost function End(): nat
      reads this`strstart, this`lookahead
    {
      strstart + lookahead
    }

    /** The valid part of the window as a value. */
    ghost function Win(): seq<byte>
      requires base <= consumed <= |data|
      reads this`data, this`consumed, this`base
    {
      data[base..consumed]
    }

    ghost predicate BytesOk()
      requires Shape()
      reads this`restart, this`base, this`data, this`consumed, window
    {
      && restart.byte <= base <= consumed <= |data|
      && |Win()| <= 2 * wSize && window[..|Win()|] == Win()
    }

    /** The window holds the most recent input, from index 0 to `End()`. */
    ghost predicate WindowOk()
      requires Shape()
      reads this`strstart, this`lookahead, this`restart, this`base, this`data, this`consumed, this`nextIn, window
    {
      && BytesOk()
      && nextIn == data[consumed..]
      && base + End() == consumed
    }

    /** Enough bytes behind the valid ones were written at least once. */
    ghost predicate Initialized()
      requires Shape()
      reads this`strstart, this`lookahead, this`highWater
    {
      && highWater <= 2 * wSize
      && (lookahead > 0 ==> highWater >= Min(2 * wSize, End() + WIN_INIT))
    }

    ghost predicate ChainsOk()
      requires Shape()
      reads this`strstart, this`lookahead, this`insert, this`insH, this`ins, this`lastIns, this`base, this`data, this`consumed, head, prev
    {
      && base + End() == consumed <= |data|
      && insert <= 2 && insert <= strstart
      && (insert > 0 ==> UsesHash() && lookahead + insert < MIN_MATCH)
      && Chains(key, wSize, Win(), head[..], prev[..], ins, lastIns)
      && (lastIns == 0 || lastIns < strstart - insert)
      && (UsesHash() && lookahead >= MIN_MATCH ==> KeyReady(key, insH, Win(), strstart))
    }

    ghost function Buffered(): (ts: seq<Token>)
      requires Shape() && lastLit <= litBufsize
      reads this`lastLit, dBuf, lBuf
      ensures |ts| == lastLit
    {
      TokensOf(dBuf[..lastLit], lBuf[..lastLit])
    }

    /** All tokens put out so far. */
    ghost function Put(): seq<Token>
      requires Shape() && lastLit <= litBufsize
      reads this`lastLit, this`blocks, dBuf, lBuf
    {
      AllTokens(blocks) + Buffered()
    }

    /** The buffered tokens cover the input up to window position `pos`; the buffer may have become full. */
    ghost predicate CoveredTo(pos: int)
      requires Shape()
      reads this`lastLit, this`blocks, this`data, this`restart, this`base, this`blockStart, dBuf, lBuf
    {
      && lastLit < litBufsize && blockStart <= pos
      && TokensMean(Rules(), restart, blocks, Buffered(), data, base + blockStart, base + pos)
    }

    /** All that was processed is covered by tokens, less the one literal deferred by lazy evaluation. */
    ghost predicate TokensOk()
      requires Shape()
      reads this`lastLit, this`blocks, this`data, this`restart, this`base, this`strstart, this`blockStart, this`matchAvailable, dBuf, lBuf
    {
      && lastLit < litBufsize - 1
      && CoveredTo(strstart - if matchAvailable then 1 else 0)
      && (strategy == HuffmanOnly ==> strstart - blockStart == lastLit)
    }

    /** The `len` bytes at window position `pos` repeat those at `from`, as far apart as the difference of the two
        gives modulo 2^32, which is within reach. */
    ghost predicate Found(pos: nat, from: nat, len: nat)
      reads this`restart, this`base, this`data
    {
      && Sub32(pos, from) <= Min(MaxDist(), base + pos - restart.byte)
      && Repeats(data, base + pos, Sub32(pos, from), len)
    }

    /** A repetition that may be put out. */
    ghost predicate TrueMatch(pos: nat, from: nat, len: nat)
      reads this`restart, this`base, this`data
    {
      Found(pos, from, len) && Rules().Permits(Copy(Sub32(pos, from), len))
    }

    /** A match kept for lazy evaluation is a true one, at the distance its fields give modulo 2^32. */
    ghost predicate MatchOk()
      requires Shape()
      reads this`matchLength, this`matchStart, this`matchAvailable, this`prevLength, this`strstart, this`lookahead, this`restart, this`base, this`data
    {
      && (matchAvailable ==> IsSlow() && strstart >= 1)
      && matchLength <= MAX_MATCH
      && (IsSlow() ==> matchLength >= 2)
      && (UsesHash() && !IsSlow() ==> prevLength == MIN_MATCH - 1)
      && (matchLength >= MIN_MATCH ==>
            && matchAvailable
            && matchLength <= lookahead + 1
            && TrueMatch(strstart - 1, matchStart, matchLength))
    }

    ghost predicate Open()
      reads this`blocks
    {
      blocks != [] ==> !blocks[|blocks| - 1].last
    }

    ghost predicate Finished()
      reads this`blocks, this`lookahead, this`lastLit, this`nextIn, this`blockStart, this`strstart, this`matchAvailable
    {
      && blocks != [] && blocks[|blocks| - 1].last
      && lookahead == 0 && lastLit == 0 && blockStart == strstart && !matchAvailable
    }

    ghost predicate Consistent()
      reads this`nextIn, this`strstart, this`lookahead, this`blockStart, this`insert, this`insH, this`matchLength,
            this`matchStart, this`matchAvailable, this`prevLength, this`highWater, this`lastLit, this`data,
            this`consumed, this`base, this`ins, this`lastIns, this`blocks, this`restart, window, head, prev, dBuf, lBuf
    {
      Shape() && WindowOk() && ChainsOk() && TokensOk() && MatchOk() && highWater <= 2 * wSize
    }

    ghost predicate Valid()
      reads this`nextIn, this`strstart, this`lookahead, this`blockStart, this`insert, this`insH, this`matchLength,
            this`matchStart, this`matchAvailable, this`prevLength, this`highWater, this`lastLit, this`data,
            this`consumed, this`base, this`ins, this`lastIns, this`blocks, this`restart, window, head, prev, dBuf, lBuf
    {
      Consistent() && Initialized()
    }

    /** Reading the window; only memory that was written before may be read. */
    function At(i: nat): byte
      requires Shape() && i < highWater <= 2 * wSize
      reads this`highWater, window
    {
      window[i]
    }

    /** INSERT_STRING. */
    method InsertString(str: nat) returns (hashHead: nat)
      requires Shape() && BytesOk()
      requires Chains(key, wSize, Win(), head[..], prev[..], ins, lastIns)
      requires lastIns < str || lastIns == 0 == str
      requires str + MIN_MATCH <= |Win()|
      requires KeyReady(key, insH, Win(), str)
      modifies this`insH, this`ins, this`lastIns, head, prev
      ensures BytesOk()
      ensures Chains(key, wSize, Win(), head[..], prev[..], ins, lastIns) && lastIns == str
      ensures KeyReady(key, insH, Win(), str + 1)
      ensures hashHead == prev[Slot(str, wSize)] && (str == 0 ==> hashHead == 0)
      ensures hashHead == old(head[HashAt(key, Win(), str)]) && ins == old(ins) + Between(str, str + 1)
    {
      hide Chains, Newest, Update;
      ghost var win: seq<byte>, head0: seq<nat>, prev0: seq<nat> := Win(), head[..], prev[..];
      assert window[..|win|][str + 2] == win[str + 2];
      insH := Update(key, insH, window[str + (MIN_MATCH - 1)]);
      assert insH == HashAt(key, win, str);
      hashHead := head[insH];
      prev[Slot(str, wSize)] := head[insH];
      head[insH] := str;
      BetweenOne(str);
      ins := ins + Between(str, str + 1);
      lastIns := str;
      if str == 0 {
        EmptyChains(key, wSize, win, head0, prev0, old(ins), insH);
      }
      InsertKeepsChains(key, wSize, win, head0, prev0, old(ins), old(lastIns), str);
      assert head[..] == head0[insH := str] && prev[..] == prev0[Slot(str, wSize) := head0[insH]];
      KeyAfter(key, Update(key, 0, win[str]), insH, win, str + 1);
    }

    /** slide_hash: one array. */
    method SlideArray(a: array<nat>)
      requires a.Length > 0
      modifies a
      ensures a[..] == SlidSeq(old(a[..]), wSize)
    {
      var n := a.Length;
      while n > 0
        invariant 0 <= n <= a.Length
        invariant forall i :: 0 <= i < n ==> a[i] == old(a[i])
        invariant forall i :: n <= i < a.Length ==> a[i] == Slid(old(a[i]), wSize)
      {
        n := n - 1;
        var m := a[n];
        a[n] := if m >= wSize then m - wSize else 0;
      }
    }

    /** read_buf, into the window at `at`. */
    method ReadBuf(at: nat, size: nat) returns (len: nat)
      requires Shape() && at + size <= 2 * wSize
      requires consumed <= |data| && nextIn == data[consumed..]
      modifies this`nextIn, this`consumed, window
      ensures len == Min(old(|nextIn|), size)
      ensures consumed == old(consumed) + len <= |data| && nextIn == data[consumed..]
      ensures window[..at + len] == old(window[..at]) + data[old(consumed)..consumed]
    {
      len := Min(|nextIn|, size);
      forall i | 0 <= i < len {
        window[at + i] := nextIn[i];
      }
      consumed := consumed + len;
      nextIn := nextIn[len..];
    }

    /** zmemcpy within the window, from the upper half to the lower one. */
    method MoveDown(n: nat)
      requires Shape() && n <= wSize
      modifies window
      ensures window[..n] == old(window[wSize..wSize + n])
    {
      forall i | 0 <= i < n {
        window[i] := window[wSize + i];
      }
    }

    /** slide_hash. */
    method SlideHash(ghost win: seq<byte>)
      requires Shape() && Chains(key, wSize, win, head[..], prev[..], ins, lastIns)
      requires wSize <= |win|
      modifies this`ins, this`lastIns, head, prev
      ensures Chains(key, wSize, win[wSize..], head[..], prev[..], ins, lastIns)
      ensures lastIns == Slid(old(lastIns), wSize) && ins == SlidSet(old(ins), wSize)
      ensures head[..] == SlidSeq(old(head[..]), wSize) && prev[..] == SlidSeq(old(prev[..]), wSize)
    {
      hide Chains;
      SlideKeepsChains(key, wSize, win, head[..], prev[..], ins, lastIns);
      SlideArray(head);
      SlideArray(prev);
      ins := SlidSet(ins, wSize);
      lastIns := Slid(lastIns, wSize);
    }

    /** The part of fill_window that moves the upper half of the window down, before slide_hash. */
    method SlideBytes(more: nat)
      requires Shape() && WindowOk() && TokensOk() && MatchOk()
      requires strstart >= wSize + MaxDist() && more == 2 * wSize - lookahead - strstart
      modifies this`matchStart, this`strstart, this`blockStart, this`base, window
      ensures WindowOk() && TokensOk() && MatchOk()
      ensures strstart == old(strstart) - wSize && base == old(base) + wSize && blockStart == old(blockStart) - wSize
    {
      hide TokensOk, MatchOk, Configuration;
      ghost var win := Win();
      MoveDown(wSize - more);
      matchStart := Sub32(matchStart, wSize);
      strstart := strstart - wSize;
      blockStart := blockStart - wSize;
      base := base + wSize;
      assert Win() == win[wSize..];
      PositionsShifted();
    }

    /** Positions moved together with the window mean the same input, and a match the same distance. */
    twostate lemma PositionsShifted()
      requires old(Shape() && TokensOk() && MatchOk()) && wSize <= old(strstart) - 1
      requires strstart == old(strstart) - wSize && blockStart == old(blockStart) - wSize && base == old(base) + wSize
      requires matchStart == Sub32(old(matchStart), wSize)
      requires unchanged(this`lastLit, this`blocks, this`restart, this`data, this`matchAvailable, this`matchLength, this`prevLength,
                         this`lookahead, dBuf, lBuf)
      ensures TokensOk() && MatchOk()
    {
      hide TokensMean, Repeats, TokensOf, Configuration, Rule.Permits;
      Sub32Slides(old(strstart) - 1, old(matchStart), wSize);
    }

    method SlideWindow(more: nat)
      requires Consistent()
      requires strstart >= wSize + MaxDist() && more == 2 * wSize - lookahead - strstart
      modifies this`matchStart, this`strstart, this`blockStart, this`base, this`ins, this`lastIns, window, head, prev
      ensures Consistent()
      ensures strstart == old(strstart) - wSize && base == old(base) + wSize && blockStart == old(blockStart) - wSize
      ensures ins == SlidSet(old(ins), wSize)
      ensures head[..] == SlidSeq(old(head[..]), wSize) && prev[..] == SlidSeq(old(prev[..]), wSize)
    {
      hide TokensOk, MatchOk, Chains, KeyReady;
      ghost var win := Win();
      SlideBytes(more);
      assert Win() == win[wSize..];
      SlideHash(win);
      if UsesHash() && lookahead >= MIN_MATCH {
        KeySlides(key, insH, win, old(strstart), wSize);
      }
    }

    /** The hash key of the two bytes at `str`. */
    method StartKey(str: nat)
      requires Shape() && BytesOk() && str + 2 <= |Win()|
      modifies this`insH
      ensures KeyReady(key, insH, Win(), str)
    {
      hide Update, Hash3;
      FirstByte(key, window[str]);
      assert window[str] == Win()[str] && window[str + 1] == Win()[str + 1] by {
        assert window[..|Win()|] == Win();
      }
      insH := window[str];
      insH := Update(key, insH, window[str + 1]);
      KeyAfter(key, 0, insH, Win(), str);
    }

    /** The part of fill_window that catches up with the strings left uninserted by an earlier flush. */
    method InsertPending()
      requires Shape() && WindowOk()
      requires insert <= 2 && insert <= strstart && (insert > 0 ==> UsesHash())
      requires Chains(key, wSize, Win(), head[..], prev[..], ins, lastIns) && (lastIns == 0 || lastIns < strstart - insert)
      requires lookahead + insert >= MIN_MATCH
      modifies this`insert, this`insH, this`ins, this`lastIns, head, prev
      ensures WindowOk() && ChainsOk() && insert <= old(insert) && (insert > 0 ==> lookahead + insert < MIN_MATCH)
      ensures ins == old(ins) + Between(strstart - old(insert), strstart - insert)
    {
      hide Chains, KeyReady, UsesHash, Between, HashAt, Slot;
      ghost var from: nat := strstart - insert;
      BetweenNone(from);
      var str := strstart - insert;
      StartKey(str);
      var stop := false;
      while insert > 0 && !stop
        invariant WindowOk()
        invariant insert <= 2 && str + insert == strstart && (insert > 0 ==> UsesHash())
        invariant stop == (lookahead + insert < MIN_MATCH)
        invariant Chains(key, wSize, Win(), head[..], prev[..], ins, lastIns) && (lastIns == 0 || lastIns < str)
        invariant lookahead + insert >= 2 && KeyReady(key, insH, Win(), str)
        invariant from <= str && ins == old(ins) + Between(from, str)
        decreases insert
      {
        var _ := InsertString(str);
        BetweenGrows(from, str);
        str := str + 1;
        insert := insert - 1;
        stop := lookahead + insert < MIN_MATCH;
      }
    }

    method ReadBehind(more: nat)
      requires Shape() && WindowOk() && MatchOk() && nextIn != [] && 2 <= more && End() + more == 2 * wSize
      modifies this`nextIn, this`consumed, this`lookahead, window
      ensures WindowOk() && MatchOk()
      ensures |nextIn| + lookahead == old(|nextIn| + lookahead) && lookahead > old(lookahead)
      ensures nextIn == [] || End() == 2 * wSize
      ensures old(Win()) == Win()[..old(End())]
    {
      hide Repeats;
      ghost var win: seq<byte>, start := Win(), consumed;
      assert window[..End()] == win;
      var n := ReadBuf(strstart + lookahead, more);
      lookahead := lookahead + n;
      assert Win() == win + data[start..consumed];
    }

    /** The part of fill_window that reads input behind the lookahead. */
    method ReadMore(more: nat)
      requires Consistent() && nextIn != [] && 2 <= more && End() + more == 2 * wSize
      modifies this`nextIn, this`consumed, this`ins, this`lastIns, this`lookahead, this`insert, this`insH, head, prev, window
      ensures Consistent()
      ensures |nextIn| + lookahead == old(|nextIn| + lookahead) && lookahead > old(lookahead)
      ensures nextIn == [] || End() == 2 * wSize
    {
      hide MatchOk, TokensOk, Chains, KeyReady;
      ghost var win := Win();
      ReadBehind(more);
      assert head[..] == old(head[..]) && prev[..] == old(prev[..]);
      GrowKeepsChains(key, wSize, win, Win(), head[..], prev[..], ins, lastIns);
      if lookahead + insert >= MIN_MATCH {
        InsertPending();
      }
    }

    /** zmemzero, behind the valid bytes. */
    method Zero(at: nat, n: nat)
      requires Shape() && WindowOk() && End() <= at && at + n <= 2 * wSize
      modifies window
      ensures WindowOk()
    {
      ghost var win: seq<byte> := window[..End()];
      forall i | at <= i < at + n {
        window[i] := 0;
      }
      assert window[..End()] == win;
    }

    /** The part of fill_window that zeroes the bytes behind the data that were never written. */
    method ZeroTail()
      requires Consistent()
      modifies this`highWater, window
      ensures Valid()
    {
      hide ChainsOk, TokensOk, MatchOk;
      if highWater < 2 * wSize {
        var curr := strstart + lookahead;
        if highWater < curr {
          var init := Min(2 * wSize - curr, WIN_INIT);
          Zero(curr, init);
          highWater := curr + init;
        } else if highWater < curr + WIN_INIT {
          var init := Min(curr + WIN_INIT - highWater, 2 * wSize - highWater);
          Zero(highWater, init);
          highWater := highWater + init;
        }
      }
    }

    /** fill_window. Whatever it moves or reads, the covered input and the pending match stay the same. One round of its
        loop is always enough: what the window has no room for is not missed. */
    method FillWindow()
      requires Valid() && lookahead < MIN_LOOKAHEAD
      modifies this`nextIn, this`consumed, this`matchStart, this`strstart, this`blockStart, this`base, this`ins,
               this`lastIns, this`lookahead,
               this`insert, this`insH, this`highWater, window, head, prev
      ensures Valid()
      ensures base + strstart == old(base + strstart) && base + blockStart == old(base + blockStart)
      ensures lookahead >= MIN_LOOKAHEAD || nextIn == []
      ensures strstart <= 2 * wSize - MIN_LOOKAHEAD
      ensures |nextIn| + lookahead == old(|nextIn| + lookahead)
    {
      hide WindowOk, ChainsOk, TokensOk, MatchOk;
      var more := Room();
      if strstart >= wSize + MaxDist() {
        SlideWindow(more);
        more := more + wSize;
      }
      if |nextIn| != 0 {
        ReadMore(more);
      }
      ZeroTail();
    }

    /** Free space at the end of the window. */
    function Room(): nat
      requires Shape() && WindowOk()
      reads this`strstart, this`lookahead, this`restart, this`base, this`data, this`consumed, this`nextIn, window
    {
      2 * wSize - lookahead - strstart
    }

    /** The comparison loop of longest_match, entered with the first three bytes known to be equal. It compares
        eight bytes between two tests for the end, and may look at one byte behind the longest match. */
    method MatchRun(cur: nat) returns (len: nat)
      requires Shape() && highWater <= 2 * wSize
      requires cur < strstart && strstart + MAX_MATCH < highWater
      requires SameRun(window[..], cur, strstart, MIN_MATCH)
      ensures MIN_MATCH <= len <= MAX_MATCH
      ensures SameRun(window[..], cur, strstart, len)
      ensures len < MAX_MATCH ==> window[cur + len] != window[strstart + len]
    {
      hide SameRun;
      ghost var win: seq<byte> := window[..];
      var strend := strstart + MAX_MATCH;
      var scan, mtch := strstart + 2, cur + 2;
      var n, equal := 0, true;
      while equal && (n % 8 != 0 || scan < strend)
        invariant 0 <= n <= MAX_MATCH - 2 && scan == strstart + 2 + n && mtch == cur + 2 + n
        invariant if equal && scan < strend then SameRun(win, cur, strstart, n + 3) else SameRun(win, cur, strstart, n + 2)
        invariant !equal ==> n > 0 && At(mtch) != At(scan)
        decreases MAX_MATCH - n
      {
        scan, mtch := scan + 1, mtch + 1;
        equal := At(scan) == At(mtch);
        n := n + 1;
        if equal && scan < strend {
          SameRunExtends(win, cur, strstart, n + 2);
        }
      }
      len := MAX_MATCH - (strend - scan);
    }

    /** The longest match the format and the input allow. */
    function MatchCap(): nat
      reads this`lookahead
    {
      Min(MAX_MATCH, lookahead)
    }

    /** Equal keys and two equal bytes make the third bytes equal, so byte 2 need not be compared. */
    lemma ThirdByteAgrees(cur: nat)
      requires Shape() && WindowOk()
      requires cur < strstart && strstart + MIN_MATCH <= End()
      requires HashAt(key, Win(), cur) == HashAt(key, Win(), strstart)
      requires window[cur] == window[strstart] && window[cur + 1] == window[strstart + 1]
      ensures SameRun(window[..], cur, strstart, MIN_MATCH)
    {
      hide Update;
      var win := Win();
      assert window[..End()] == win;
      assert win[cur] == window[cur] && win[cur + 1] == window[cur + 1] && win[cur + 2] == window[cur + 2];
      assert win[strstart] == window[strstart] && win[strstart + 1] == window[strstart + 1] && win[strstart + 2] == window[strstart + 2];
      ThirdByte(key, win[cur], win[cur + 1], win[cur + 2], win[strstart + 2]);
      var w: seq<byte> := window[..];
      assert w[cur..cur + 3] == [w[cur], w[cur + 1], w[cur + 2]];
      assert w[strstart..strstart + 3] == [w[strstart], w[strstart + 1], w[strstart + 2]];
    }

    /** One candidate of longest_match: 0 when the quick tests already rule out an improvement. */
    method TryCandidate(cur: nat, bestLen: nat) returns (len: nat)
      requires Shape() && WindowOk() && strstart + MAX_MATCH < highWater <= 2 * wSize
      requires cur < strstart <= 2 * wSize - MIN_LOOKAHEAD && lookahead >= MIN_MATCH
      requires 1 <= bestLen <= MAX_MATCH
      requires HashAt(key, Win(), cur) == HashAt(key, Win(), strstart)
      ensures len <= MAX_MATCH && SameRun(window[..], cur, strstart, len)
      ensures CommonRun(window[..], cur, strstart, MatchCap()) <= Max(bestLen, len)
    {
      hide HashAt, CommonRun;
      ghost var win: seq<byte> := window[..];
      if At(cur + bestLen) != At(strstart + bestLen) {
        RunStops(win, cur, strstart, MatchCap(), bestLen);
        return 0;
      }
      if At(cur + bestLen - 1) != At(strstart + bestLen - 1) {
        RunStops(win, cur, strstart, MatchCap(), bestLen - 1);
        return 0;
      }
      if At(cur) != At(strstart) {
        RunStops(win, cur, strstart, MatchCap(), 0);
        return 0;
      }
      if At(cur + 1) != At(strstart + 1) {
        RunStops(win, cur, strstart, MatchCap(), 1);
        return 0;
      }
      ThirdByteAgrees(cur);
      len := MatchRun(cur);
      RunStops(win, cur, strstart, MatchCap(), len);
    }

    function ChainLimit(): nat
      reads this`prevLength
    {
      if prevLength >= config.good then config.chain / 4 else config.chain
    }

    /** The search that longest_match makes from here. */
    ghost function CurrentSearch(hashHead: nat): Search
      requires base <= consumed <= |data|
      reads this, window, prev
    {
      Search(key, wSize, Win(), window[..], prev[..], ins, strstart, hashHead, MatchCap())
    }

    /** `matchStart` is within reach and its `len` bytes are those of the current string. */
    ghost predicate Matches(full: seq<byte>, len: nat)
      reads this`matchStart, this`strstart
    {
      1 <= matchStart < strstart && strstart - matchStart <= MaxDist() && SameRun(full, matchStart, strstart, len)
    }

    /** The search loop of longest_match; the bytes found equal may lie behind the end of the input. */
    method SearchChain(hashHead: nat, niceMatch: nat) returns (bestLen: nat)
      requires Shape() && WindowOk() && strstart + MAX_MATCH < highWater <= 2 * wSize
      requires CurrentSearch(hashHead).Valid()
      requires lookahead >= MIN_MATCH && strstart <= 2 * wSize - MIN_LOOKAHEAD
      requires 1 <= prevLength <= MAX_MATCH
      requires niceMatch == Min(config.nice, lookahead)
      modifies this`matchStart
      ensures prevLength <= bestLen <= MAX_MATCH
      ensures bestLen > prevLength ==> Matches(window[..], bestLen)
      ensures CommonRun(window[..], hashHead, strstart, MatchCap()) <= bestLen
      ensures bestLen > prevLength ==> old(CurrentSearch(hashHead)).Candidate(matchStart)
      ensures bestLen >= niceMatch || old(CurrentSearch(hashHead)).NoneBetterOf(ChainLimit(), bestLen)
    {
      hide SameRun, Search.Valid, Search.NoneBetter, Search.NoneBetterOf, Search.Seen, Slot, HashAt, CommonRun, Search.Candidate;
      ghost var search := CurrentSearch(hashHead);
      var chainLength := ChainLimit();
      bestLen := prevLength;
      var limit := if strstart > MaxDist() then strstart - MaxDist() else 0;
      var cur: nat := hashHead;
      search.Starts();
      search.NoneSeen();
      NoneBetterGrows(search, cur + 1, 0, bestLen);
      while true
        invariant search.At(cur)
        invariant |search.Seen(cur + 1)| + chainLength == ChainLimit() && chainLength >= 1
        invariant prevLength <= bestLen <= MAX_MATCH
        invariant bestLen > prevLength ==> Matches(search.full, bestLen) && search.Candidate(matchStart)
        invariant search.NoneBetter(cur + 1, bestLen)
        invariant cur < hashHead ==> CommonRun(search.full, hashHead, strstart, search.cap) <= bestLen
        decreases cur
      {
        var n := TryCandidate(cur, bestLen);
        assert window[..] == search.full && prev[..] == search.prev;
        OneMoreDone(search, cur, bestLen, Max(n, bestLen));
        if n > bestLen {
          matchStart := cur;
          bestLen := n;
          search.AtCandidate(cur);
          if n >= niceMatch { break; }
        }
        search.Follows(cur, bestLen);
        var next := prev[Slot(cur, wSize)];
        if next <= limit {
          search.AllSeen(ChainLimit(), bestLen);
          break;
        }
        search.OneMoreSeen(cur, next);
        cur := next;
        chainLength := chainLength - 1;
        if chainLength == 0 {
          search.EnoughSeen(cur + 1, ChainLimit(), bestLen);
          break;
        }
      }
      assert window[..] == search.full;
    }

    /** longest_match. A result above `prevLength` is a true match inside the input with one of the candidates; and unless
        it is as long as the nice length, none of as many of the newest candidates as the chain limit allows has a longer one. */
    method LongestMatch(hashHead: nat) returns (len: nat)
      requires Shape() && WindowOk() && Initialized()
      requires CurrentSearch(hashHead).Valid()
      requires lookahead >= MIN_MATCH && strstart <= 2 * wSize - MIN_LOOKAHEAD
      requires 1 <= prevLength <= MAX_MATCH
      modifies this`matchStart
      ensures Min(prevLength, lookahead) <= len <= MatchCap()
      ensures len > prevLength ==> Matches(window[..], len)
      ensures CommonRun(window[..], hashHead, strstart, MatchCap()) <= Max(len, prevLength)
      ensures len > prevLength ==> old(CurrentSearch(hashHead)).Candidate(matchStart)
      ensures len >= config.nice || old(CurrentSearch(hashHead)).NoneBetterOf(ChainLimit(), Max(len, prevLength))
    {
      hide CommonRun, SameRun, Search.Valid, Search.Candidate, Search.NoneBetterOf;
      ghost var search := CurrentSearch(hashHead);
      var bestLen := SearchChain(hashHead, Min(config.nice, lookahead));
      len := if bestLen <= lookahead then bestLen else lookahead;
      assert window[..] == search.full;
      if bestLen > prevLength {
        SameRunShrinks(search.full, matchStart, strstart, bestLen, len);
      }
      if Max(len, prevLength) >= search.cap {
        CapReached(search, ChainLimit(), Max(len, prevLength));
      } else {
        assert len == bestLen;
      }
    }

    /** _tr_tally_lit: true when the block must be flushed. */
    method TallyLit(c: byte) returns (bflush: bool)
      requires Shape() && lastLit < litBufsize - 1
      modifies this`lastLit, dBuf, lBuf
      ensures lastLit == old(lastLit) + 1 && bflush == (lastLit == litBufsize - 1)
      ensures Buffered() == old(Buffered()) + [Literal(c)]
    {
      dBuf[lastLit] := 0;
      lBuf[lastLit] := c;
      lastLit := lastLit + 1;
      bflush := lastLit == litBufsize - 1;
    }

    /** _tr_tally_dist: the distance is kept in 16 bits and the length in 8. */
    method TallyDist(distance: nat, length: nat) returns (bflush: bool)
      requires Shape() && lastLit < litBufsize - 1
      requires 1 <= distance <= 32768 && length + MIN_MATCH <= MAX_MATCH
      modifies this`lastLit, dBuf, lBuf
      ensures lastLit == old(lastLit) + 1 && bflush == (lastLit == litBufsize - 1)
      ensures Buffered() == old(Buffered()) + [Copy(distance, length + MIN_MATCH)]
    {
      dBuf[lastLit] := distance % 0x1_0000;
      lBuf[lastLit] := length % 0x100;
      lastLit := lastLit + 1;
      bflush := lastLit == litBufsize - 1;
    }

    /** flush_pending, counting bytes only. */
    method FlushPending()
      modifies this`pending, this`availOut
      ensures pending + old(availOut) == old(pending) + availOut
      ensures pending == 0 || availOut == 0
    {
      var len := Min(pending, availOut);
      availOut := availOut - len;
      pending := pending - len;
    }

    /** The bytes of the current block, when the window still holds all of them. */
    ghost function RawBlock(): Option<seq<byte>>
      requires blockStart <= strstart <= window.Length
      reads this`blockStart, this`strstart, window
    {
      if blockStart >= 0 then Some(window[blockStart..strstart]) else None
    }

    /** FLUSH_BLOCK_ONLY. What the entropy coder emits is not modelled, only that it takes the whole block. */
    method FlushBlockOnly(last: bool)
      requires Shape() && BytesOk() && Open()
      requires CoveredTo(strstart)
      requires base + strstart <= consumed && (blockStart >= 0 ==> strstart - blockStart <= 65535)
      modifies this`blocks, this`lastLit, this`blockStart, this`pending, this`availOut
      ensures blockStart == strstart && lastLit == 0 && CoveredTo(strstart)
      ensures Put() == old(Put())
      ensures blocks == old(blocks + [Block(Buffered(), RawBlock(), strstart - blockStart, last)])
      ensures pending == 0 || availOut == 0
    {
      hide TokensMean, TokensOf, AllTokens;
      ghost var put, was := Put(), blocks;
      ghost var b := Block(Buffered(), RawBlock(), strstart - blockStart, last);
      if blockStart >= 0 {
        WindowSlice(blockStart, strstart);
      }
      PushBlock(Rules(), restart, blocks, b, data, base + blockStart, base + strstart);
      blocks := blocks + [b];
      lastLit := 0;
      var emitted :| emitted >= 0;
      pending := pending + emitted;
      blockStart := strstart;
      FlushPending();
      BufferedEmpty();
      AllTokensPush(was, b);
      assert Put() == put;
    }

    lemma BufferedEmpty()
      requires Shape() && lastLit == 0
      ensures Buffered() == []
    {
    }

    lemma WindowSlice(from: nat, to: nat)
      requires Shape() && BytesOk() && from <= to <= |Win()|
      ensures window[from..to] == data[base + from..base + to]
    {
      var w: seq<byte> := window[..];
      assert w[0..|Win()|] == window[..|Win()|];
      SliceOfSlice(w, 0, |Win()|, from, to);
      SliceOfSlice(data, base, consumed, from, to);
    }

    /** Between inserting the current string and moving past it. */
    ghost predicate CurrentInserted()
      requires Shape()
      reads this`strstart, this`lookahead, this`insert, this`insH, this`ins, this`lastIns, this`base, this`data, this`consumed, head, prev
    {
      && base + End() == consumed <= |data|
      && insert <= 2 && insert <= strstart
      && (insert > 0 ==> UsesHash() && lookahead + insert < MIN_MATCH)
      && Chains(key, wSize, Win(), head[..], prev[..], ins, lastIns)
      && if lookahead >= MIN_MATCH
         then lastIns == strstart && KeyReady(key, insH, Win(), strstart + 1)
         else lastIns == 0 || lastIns < strstart - insert
    }

    /** The head of the chain of the string at `strstart`, before it is inserted. */
    ghost function CurrentHead(): nat
      requires Shape() && base <= consumed <= |data|
      reads this`strstart, this`lookahead, this`base, this`data, this`consumed, head
    {
      if lookahead >= MIN_MATCH then head[HashAt(key, Win(), strstart)] else 0
    }

    /** The start of a step of deflate_fast and deflate_slow: the string at `strstart` enters the dictionary. */
    method InsertCurrent() returns (hashHead: nat)
      requires Shape() && WindowOk() && ChainsOk() && UsesHash()
      modifies this`insH, this`ins, this`lastIns, head, prev
      ensures WindowOk() && CurrentInserted()
      ensures hashHead != 0 ==> lookahead >= MIN_MATCH && strstart != 0 && hashHead == prev[Slot(strstart, wSize)]
      ensures hashHead == old(CurrentHead())
      ensures ins == old(ins) + if lookahead >= MIN_MATCH then Between(strstart, strstart + 1) else {}
    {
      hide Chains, KeyReady, HashAt, Slot, Between, BytesOk;
      hashHead := 0;
      if lookahead >= MIN_MATCH {
        hashHead := InsertString(strstart);
      }
    }

    lemma SearchIsValid(hashHead: nat)
      requires Shape() && CurrentInserted() && lookahead >= MIN_MATCH
      requires strstart != 0 && hashHead == prev[Slot(strstart, wSize)] && hashHead != 0 && strstart - hashHead <= MaxDist()
      ensures CurrentSearch(hashHead).Valid()
    {
      hide Newest, HashAt, KeyReady;
    }

    /** A run in the window is a repetition in the input. */
    lemma RunInWindow(from: nat, pos: nat, len: nat)
      requires Shape() && BytesOk() && from < pos && pos + len <= |Win()| && SameRun(window[..], from, pos, len)
      ensures Repeats(data, base + pos, pos - from, len)
    {
      hide BytesOk, Configuration, Pow2;
      WindowInInput();
      WindowSlice(pos, pos + len);
      WindowSlice(from, from + len);
      assert window[..][from..from + len] == window[from..from + len] && window[..][pos..pos + len] == window[pos..pos + len];
    }

    lemma WindowInInput()
      requires Shape() && BytesOk()
      ensures base <= consumed <= |data| && |Win()| <= window.Length
    {
    }

    /** The match that was found, too. */
    lemma RunRepeats(len: nat)
      requires Shape() && BytesOk() && Matches(window[..], len) && strstart + len <= |Win()|
      ensures Sub32(strstart, matchStart) == strstart - matchStart
      ensures Repeats(data, base + strstart, strstart - matchStart, len)
    {
      hide WindowOk, MaxDist, Configuration, Repeats;
      RunInWindow(matchStart, strstart, len);
    }

    /** The match of the previous step, while the current one is evaluated. */
    ghost predicate PreviousOk()
      requires Shape()
      reads this`prevLength, this`prevMatch, this`matchAvailable, this`strstart, this`lookahead, this`restart, this`base, this`data
    {
      && (matchAvailable ==> strstart >= 1)
      && 2 <= prevLength <= MAX_MATCH
      && (prevLength >= MIN_MATCH ==>
            && matchAvailable
            && prevLength <= lookahead + 1
            && TrueMatch(strstart - 1, prevMatch, prevLength))
    }

    /** A match better than the previous one is a true match of the current string. */
    ghost predicate CurrentOk()
      requires Shape()
      reads this`prevLength, this`matchLength, this`matchStart, this`strstart, this`lookahead, this`restart, this`base, this`data
    {
      && 2 <= matchLength <= MAX_MATCH
      && (matchLength >= MIN_MATCH && matchLength > prevLength ==>
            && matchLength <= lookahead
            && TrueMatch(strstart, matchStart, matchLength))
    }

    /** The search for a match of the current string, in terms of the input. */
    method FindMatch(hashHead: nat) returns (len: nat)
      requires Shape() && WindowOk() && Initialized() && CurrentInserted()
      requires strstart <= 2 * wSize - MIN_LOOKAHEAD && 1 <= prevLength <= MAX_MATCH
      requires lookahead >= MIN_MATCH && strstart != 0 && hashHead == prev[Slot(strstart, wSize)]
      requires hashHead != 0 && strstart - hashHead <= MaxDist()
      modifies this`matchStart
      ensures WindowOk()
      ensures Min(prevLength, lookahead) <= len <= MAX_MATCH
      ensures len > prevLength ==> old(CurrentSearch(hashHead)).Candidate(matchStart)
      ensures len >= config.nice || old(CurrentSearch(hashHead)).NoneBetterOf(ChainLimit(), Max(len, prevLength))
      ensures CommonRun(window[..], hashHead, strstart, MatchCap()) <= Max(len, prevLength)
      ensures len > prevLength ==> len <= lookahead && Found(strstart, matchStart, len) && Sub32(strstart, matchStart) <= MaxDist()
    {
      hide CommonRun, CurrentInserted, Repeats, SameRun, Slot, Search.Valid, Search.NoneBetterOf, Search.Candidate;
      SearchIsValid(hashHead);
      len := LongestMatch(hashHead);
      if len > prevLength {
        RunRepeats(len);
      }
    }

    /** deflate_slow: remember the previous match and look for one at the current string. */
    method SlowSearch(hashHead: nat)
      requires Shape() && WindowOk() && Initialized() && CurrentInserted() && MatchOk() && IsSlow()
      requires strstart <= 2 * wSize - MIN_LOOKAHEAD
      requires hashHead != 0 ==> lookahead >= MIN_MATCH && strstart != 0 && hashHead == prev[Slot(strstart, wSize)]
      modifies this`prevLength, this`prevMatch, this`matchLength, this`matchStart
      ensures hashHead != 0 && old(matchLength) < config.lazy && strstart - hashHead <= MaxDist() ==>
        CommonRun(window[..], hashHead, strstart, MatchCap()) <= Max(prevLength, Max(matchLength, 5))
      ensures WindowOk() && PreviousOk() && CurrentOk() && prevLength == old(matchLength) && prevMatch == old(matchStart)
    {
      hide CommonRun, CurrentInserted, Found, Slot, WindowOk, Shape, Initialized, Search.NoneBetterOf, MatchCap;
      prevLength, prevMatch := matchLength, matchStart;
      matchLength := MIN_MATCH - 1;
      if hashHead != 0 && prevLength < config.lazy && strstart - hashHead <= MaxDist() {
        matchLength := FindMatch(hashHead);
        if matchLength <= 5
           && (strategy == Filtered || (matchLength == MIN_MATCH && Sub32(strstart, matchStart) > TOO_FAR)) {
          matchLength := MIN_MATCH - 1;
        }
      }
    }

    /** Everything up to `at` was inserted, as far as three bytes are there. */
    ghost predicate InsertedUpTo(at: nat, maxInsert: int)
      requires Shape() && base <= consumed <= |data|
      reads this`insH, this`ins, this`lastIns, this`base, this`data, this`consumed, head, prev
    {
      && Chains(key, wSize, Win(), head[..], prev[..], ins, lastIns)
      && lastIns <= at
      && maxInsert + MIN_MATCH == |Win()|
      && (at <= maxInsert ==> lastIns == at && KeyReady(key, insH, Win(), at + 1))
    }

    /** The string at the next position is inserted, if it has three bytes. */
    method InsertNextUpTo(maxInsert: int)
      requires Shape() && BytesOk() && InsertedUpTo(strstart, maxInsert)
      modifies this`strstart, this`insH, this`ins, this`lastIns, head, prev
      ensures BytesOk() && strstart == old(strstart) + 1 && InsertedUpTo(strstart, maxInsert)
      ensures ins == old(ins) + if strstart <= maxInsert then Between(strstart, strstart + 1) else {}
    {
      hide Chains, KeyReady, Slot, Between, HashAt;
      strstart := strstart + 1;
      if strstart <= maxInsert {
        var _ := InsertString(strstart);
      }
    }

    /** deflate_slow: insert the strings inside a match that is being emitted. */
    method InsertInsideMatch(maxInsert: int)
      requires Shape() && BytesOk() && prevLength >= 1 && InsertedUpTo(strstart, maxInsert)
      modifies this`prevLength, this`strstart, this`insH, this`ins, this`lastIns, head, prev
      ensures BytesOk() && strstart == old(strstart + prevLength) && InsertedUpTo(strstart, maxInsert)
      ensures ins == old(ins) + Between(old(strstart) + 1, Min(strstart, maxInsert) + 1)
    {
      hide InsertedUpTo, Between;
      BetweenNone(strstart + 1);
      if maxInsert < strstart { BetweenEmpty(strstart + 1, maxInsert + 1); }
      var more := true;
      while more
        invariant BytesOk() && InsertedUpTo(strstart, maxInsert)
        invariant strstart >= old(strstart) && ins == old(ins) + Between(old(strstart) + 1, Min(strstart, maxInsert) + 1)
        invariant strstart + prevLength == old(strstart + prevLength)
        invariant more == (prevLength != 0)
        decreases prevLength
      {
        InsertNextUpTo(maxInsert);
        if strstart <= maxInsert { BetweenGrows(old(strstart) + 1, strstart); }
        prevLength := prevLength - 1;
        more := prevLength != 0;
      }
    }

    /** _tr_tally_dist for a true match at `pos`. */
    method TallyMatch(pos: nat, from: nat, len: nat) returns (bflush: bool)
      requires Shape() && lastLit < litBufsize - 1 && CoveredTo(pos)
      requires MIN_MATCH <= len <= MAX_MATCH && TrueMatch(pos, from, len)
      modifies this`lastLit, dBuf, lBuf
      ensures CoveredTo(pos + len) && Put() == old(Put()) + [Copy(Sub32(pos, from), len)]
      ensures lastLit == old(lastLit) + 1 && bflush == (lastLit == litBufsize - 1)
    {
      hide AllTokens, TokensMean, TokensOf, Repeats;
      ghost var toks := Buffered();
      assert Sub32(pos, from) >= 1 by {
        RepeatsApart(data, base + pos, Sub32(pos, from), len);
      }
      bflush := TallyDist(Sub32(pos, from), len - MIN_MATCH);
      PushCopy(Rules(), restart, blocks, toks, data, base + blockStart, base + pos, Sub32(pos, from), len);
      PutMore(AllTokens(blocks), toks, Buffered()[|toks|]);
    }

    /** _tr_tally_lit for the byte at `pos`. */
    method TallyByte(pos: nat) returns (bflush: bool)
      requires Shape() && BytesOk() && lastLit < litBufsize - 1 && CoveredTo(pos) && pos < |Win()|
      modifies this`lastLit, dBuf, lBuf
      ensures CoveredTo(pos + 1) && Put() == old(Put()) + [Literal(window[pos])]
      ensures lastLit == old(lastLit) + 1 && bflush == (lastLit == litBufsize - 1)
    {
      hide AllTokens, TokensMean, TokensOf;
      ghost var toks := Buffered();
      assert window[pos] == data[base + pos] by {
        assert window[pos] == window[..|Win()|][pos];
      }
      bflush := TallyLit(window[pos]);
      PushLiteral(Rules(), restart, blocks, toks, data, base + blockStart, base + pos);
      PutMore(AllTokens(blocks), toks, Buffered()[|toks|]);
    }

    /** Every string of a match that was passed is inserted, as far as it has three bytes. */
    lemma MatchPassed(maxInsert: int)
      requires Shape() && BytesOk() && strstart >= 1 && base + End() == consumed && maxInsert + MIN_MATCH == |Win()|
      requires insert == 0 && InsertedUpTo(strstart - 1, maxInsert)
      ensures ChainsOk()
    {
      hide Chains, KeyReady, Configuration;
    }

    lemma CurrentIsUpTo(maxInsert: int)
      requires Shape() && WindowOk() && CurrentInserted() && maxInsert + MIN_MATCH == |Win()|
      ensures InsertedUpTo(strstart, maxInsert) && (insert > 0 ==> lookahead < MIN_MATCH - 1)
    {
      hide Chains, KeyReady, Configuration;
    }

    /** deflate_slow: move past a match that was emitted. */
    method LeaveMatch()
      requires Shape() && WindowOk() && Initialized() && CurrentInserted() && PreviousOk() && IsSlow()
      requires prevLength >= MIN_MATCH && strstart <= 2 * wSize - MIN_LOOKAHEAD
      modifies this`prevLength, this`strstart, this`lookahead, this`matchAvailable, this`matchLength,
               this`insH, this`ins, this`lastIns, head, prev
      ensures WindowOk() && Initialized() && ChainsOk() && MatchOk() && !matchAvailable
      ensures strstart == old(strstart - 1 + prevLength) && lookahead < old(lookahead)
    {
      hide TrueMatch, Shape, BytesOk, IsSlow, UsesHash, CurrentInserted, InsertedUpTo, ChainsOk;
      var maxInsert := strstart + lookahead - MIN_MATCH;
      WindowInInput();
      CurrentIsUpTo(maxInsert);
      lookahead := lookahead - (prevLength - 1);
      prevLength := prevLength - 2;
      InsertInsideMatch(maxInsert);
      matchAvailable := false;
      matchLength := MIN_MATCH - 1;
      strstart := strstart + 1;
      MatchPassed(maxInsert);
    }

    /** One byte further, keeping the match found at the byte left behind. */
    method Advance()
      requires Shape() && WindowOk() && Initialized() && CurrentInserted() && CurrentOk() && IsSlow()
      requires lookahead > 0 && matchAvailable && (matchLength >= MIN_MATCH ==> matchLength > prevLength)
      modifies this`strstart, this`lookahead
      ensures WindowOk() && Initialized() && ChainsOk() && MatchOk()
      ensures strstart == old(strstart) + 1 && lookahead == old(lookahead) - 1
    {
      hide Chains, KeyReady, TrueMatch;
      strstart := strstart + 1;
      lookahead := lookahead - 1;
    }

    /** At the end of the input all inserted strings end before the last two positions. */
    lemma InsertedBeforeEnd()
      requires Shape() && WindowOk() && ChainsOk() && lookahead == 0
      ensures lastIns == 0 || lastIns < strstart - 2
    {
      hide HashAt, Newest, KeyReady;
    }

    /** The end of every compression function, first part: the deferred literal and what is left to insert. */
    method SettleInput(newInsert: nat)
      requires Valid() && lookahead == 0
      requires newInsert == if UsesHash() then Min(strstart, MIN_MATCH - 1) else 0
      modifies this`insert, this`matchAvailable, this`lastLit, dBuf, lBuf
      ensures WindowOk() && Initialized() && ChainsOk() && MatchOk() && CoveredTo(strstart) && !matchAvailable
      ensures strategy == HuffmanOnly ==> strstart - blockStart == lastLit
      ensures insert == newInsert && Put() == old(Put()) + if old(matchAvailable) then [Literal(window[strstart - 1])] else []
    {
      hide Chains, KeyReady, TokensMean, TokensOf, TrueMatch;
      InsertedBeforeEnd();
      if matchAvailable {
        var _ := TallyByte(strstart - 1);
        matchAvailable := false;
      }
      insert := newInsert;
    }

    /** The end of every compression function: all input is processed, flush what is left. */
    method FinishInput(flush: Flush, newInsert: nat) returns (r: BlockState)
      requires Valid() && Open() && lookahead == 0 && nextIn == [] && flush != NoFlush
      requires newInsert == if UsesHash() then Min(strstart, MIN_MATCH - 1) else 0
      requires strstart <= 2 * wSize - MIN_LOOKAHEAD
      modifies this`availOut, this`pending, this`blockStart, this`insert, this`matchAvailable, this`lastLit, this`blocks,
               dBuf, lBuf
      ensures r in {NeedMore, FinishStarted} ==> availOut == 0
      ensures Valid() && !matchAvailable && old(blocks) <= blocks
      ensures if flush == Finish then r in {FinishStarted, FinishDone} && Finished() else r in {NeedMore, BlockDone} && Open()
      ensures lastLit == 0 && (r == FinishDone ==> pending == 0)
    {
      hide ChainsOk, TokensMean, TokensOf, MatchOk, Put, Buffered, AllTokens, RawBlock;
      SettleInput(newInsert);
      if flush == Finish {
        FlushBlockOnly(true);
        return if availOut == 0 then FinishStarted else FinishDone;
      }
      if lastLit > 0 {
        FlushBlockOnly(false);
        if availOut == 0 { return NeedMore; }
      }
      return BlockDone;
    }

    /** deflate_slow. */
    method DeflateSlow(flush: Flush) returns (r: BlockState)
      requires Valid() && Open() && IsSlow()
      modifies this`nextIn, this`availOut, this`pending, this`strstart, this`lookahead, this`blockStart, this`insert,
               this`insH, this`matchLength, this`matchStart, this`matchAvailable, this`prevLength, this`prevMatch,
               this`highWater, this`lastLit, this`consumed, this`base, this`ins, this`lastIns, this`blocks,
               window, head, prev, dBuf, lBuf
      ensures Valid() && old(blocks) <= blocks
      ensures if r in {FinishStarted, FinishDone} then flush == Finish && Finished() && nextIn == [] else Open()
      ensures r == BlockDone ==> flush !in {NoFlush, Finish} && lookahead == 0 && nextIn == [] && lastLit == 0 && !matchAvailable
      ensures r == NeedMore ==> availOut == 0 || (flush == NoFlush && nextIn == [])
      ensures (r == FinishStarted ==> availOut == 0) && (r == FinishDone ==> pending == 0)
    {
      hide ChainsOk, TokensMean, TokensOf, TrueMatch, TokensOk, Shape, Open, Finished, Put;
      while true
        invariant Valid() && Open() && old(blocks) <= blocks
        decreases |nextIn| + lookahead
      {
        if lookahead < MIN_LOOKAHEAD {
          FillWindow();
          if lookahead < MIN_LOOKAHEAD && flush == NoFlush { return NeedMore; }
          if lookahead == 0 { break; }
        }
        r := SlowStep();
        if r == NeedMore { return; }
      }
      r := FinishInput(flush, Min(strstart, MIN_MATCH - 1));
    }

    /** One step of deflate_slow; `NeedMore` when the output is full. */
    method SlowStep() returns (r: BlockState)
      requires Valid() && Open() && IsSlow() && lookahead > 0 && strstart <= 2 * wSize - MIN_LOOKAHEAD
      modifies this`availOut, this`pending, this`strstart, this`lookahead, this`blockStart,
               this`insH, this`matchLength, this`matchStart, this`matchAvailable, this`prevLength, this`prevMatch,
               this`lastLit, this`ins, this`lastIns, this`blocks, head, prev, dBuf, lBuf
      ensures Valid() && Open() && old(blocks) <= blocks && lookahead < old(lookahead)
      ensures if matchAvailable
              then strstart == old(strstart) + 1 && (old(matchLength) >= MIN_MATCH ==> matchLength > old(matchLength)) &&
                   Put() == old(Put()) + if old(matchAvailable) then [Literal(window[old(strstart) - 1])] else []
              else strstart == old(strstart - 1 + matchLength) && old(matchLength) >= MIN_MATCH &&
                   Put() == old(Put()) + [Copy(Sub32(old(strstart) - 1, old(matchStart)), old(matchLength))]
      ensures r in {NeedMore, BlockDone} && (r == NeedMore ==> availOut == 0)
    {
      hide Put, Buffered, AllTokens, CurrentInserted, CoveredTo, TrueMatch, Slot, ChainsOk, WindowOk;
      var hashHead := InsertCurrent();
      SlowSearch(hashHead);
      if prevLength >= MIN_MATCH && matchLength <= prevLength {
        r := EmitPrevious();
      } else if matchAvailable {
        r := EmitLiteral();
      } else {
        DeferLiteral();
        r := BlockDone;
      }
    }

    /** deflate_slow: nothing to compare with yet, decide at the next step. */
    method DeferLiteral()
      requires Shape() && WindowOk() && Initialized() && CurrentInserted() && CurrentOk() && TokensOk()
      requires IsSlow() && lookahead > 0 && !matchAvailable && (matchLength >= MIN_MATCH ==> matchLength > prevLength)
      modifies this`strstart, this`lookahead, this`matchAvailable
      ensures Valid() && lookahead < old(lookahead) && matchAvailable && strstart == old(strstart) + 1
    {
      hide CurrentInserted, TokensMean, TokensOf, TrueMatch, ChainsOk;
      matchAvailable := true;
      Advance();
    }

    /** deflate_slow: there was a match at the previous step and the current one is not better. */
    method EmitPrevious() returns (r: BlockState)
      requires Shape() && WindowOk() && Initialized() && CurrentInserted() && PreviousOk() && TokensOk() && Open()
      requires IsSlow() && prevLength >= MIN_MATCH && strstart <= 2 * wSize - MIN_LOOKAHEAD
      modifies this`availOut, this`pending, this`strstart, this`lookahead, this`blockStart,
               this`insH, this`matchLength, this`matchAvailable, this`prevLength,
               this`lastLit, this`ins, this`lastIns, this`blocks, head, prev, dBuf, lBuf
      ensures Valid() && Open() && old(blocks) <= blocks && lookahead < old(lookahead)
      ensures Put() == old(Put()) + [Copy(Sub32(old(strstart) - 1, old(prevMatch)), old(prevLength))]
      ensures !matchAvailable && strstart == old(strstart - 1 + prevLength)
      ensures r in {NeedMore, BlockDone} && (r == NeedMore ==> availOut == 0)
    {
      hide Put, Buffered, AllTokens, CurrentInserted, TokensMean, TokensOf, TrueMatch, ChainsOk, BytesOk, CoveredTo;
      var bflush := TallyMatch(strstart - 1, prevMatch, prevLength);
      LeaveMatch();
      r := FlushIfFull(bflush);
    }

    /** The deferred byte becomes a literal, and the block is flushed when it is full. */
    method PutDeferred()
      requires Shape() && BytesOk() && TokensOk() && Open() && matchAvailable && 1 <= strstart <= |Win()|
      requires base + strstart <= consumed && (blockStart >= 0 ==> strstart - blockStart <= 65535)
      modifies this`availOut, this`pending, this`blockStart, this`lastLit, this`blocks, dBuf, lBuf
      ensures Shape() && lastLit < litBufsize - 1 && CoveredTo(strstart)
      ensures old(blocks) <= blocks && Open() && Put() == old(Put()) + [Literal(window[strstart - 1])]
    {
      hide Put, Buffered, AllTokens, TokensMean, TokensOf, CoveredTo;
      var bflush := TallyByte(strstart - 1);
      if bflush {
        FlushBlockOnly(false);
      }
    }

    /** deflate_slow: the previous byte becomes a literal, because it had no match or the current one is better. */
    method EmitLiteral() returns (r: BlockState)
      requires Shape() && WindowOk() && Initialized() && CurrentInserted() && CurrentOk() && TokensOk() && Open()
      requires IsSlow() && lookahead > 0 && strstart >= 1 && strstart <= 2 * wSize - MIN_LOOKAHEAD
      requires matchAvailable && (matchLength >= MIN_MATCH ==> matchLength > prevLength)
      modifies this`availOut, this`pending, this`strstart, this`lookahead, this`blockStart, this`lastLit, this`blocks, dBuf, lBuf
      ensures Valid() && Open() && old(blocks) <= blocks && lookahead < old(lookahead)
      ensures Put() == old(Put()) + [Literal(window[old(strstart) - 1])] && strstart == old(strstart) + 1
      ensures r in {NeedMore, BlockDone} && (r == NeedMore ==> availOut == 0)
    {
      hide Put, Buffered, AllTokens, CurrentInserted, TokensMean, TokensOf, TrueMatch, ChainsOk, CoveredTo;
      PutDeferred();
      Advance();
      return if availOut == 0 then NeedMore else BlockDone;
    }

    /** The string at the next position is inserted. */
    method InsertNext()
      requires Shape() && BytesOk() && InsertedUpTo(strstart, |Win()| - MIN_MATCH) && strstart + 1 + MIN_MATCH <= |Win()|
      modifies this`strstart, this`insH, this`ins, this`lastIns, head, prev
      ensures BytesOk() && strstart == old(strstart) + 1
      ensures InsertedUpTo(strstart, |Win()| - MIN_MATCH) && ins == old(ins) + Between(strstart, strstart + 1)
    {
      hide Chains, KeyReady, Slot, Between, HashAt;
      strstart := strstart + 1;
      var _ := InsertString(strstart);
    }

    /** deflate_fast: insert the strings inside a short match. */
    method InsertInsideShortMatch()
      requires Shape() && BytesOk() && matchLength >= 1
      requires InsertedUpTo(strstart, |Win()| - MIN_MATCH) && strstart + matchLength + MIN_MATCH <= |Win()|
      modifies this`matchLength, this`strstart, this`insH, this`ins, this`lastIns, head, prev
      ensures BytesOk() && strstart == old(strstart + matchLength) && matchLength == 0
      ensures InsertedUpTo(strstart, |Win()| - MIN_MATCH) && ins == old(ins) + Between(old(strstart) + 1, strstart + 1)
    {
      hide InsertedUpTo, Between;
      BetweenNone(strstart + 1);
      var more := true;
      while more
        invariant BytesOk() && InsertedUpTo(strstart, |Win()| - MIN_MATCH)
        invariant strstart >= old(strstart) && ins == old(ins) + Between(old(strstart) + 1, strstart + 1)
        invariant strstart + matchLength == old(strstart + matchLength)
        invariant more == (matchLength != 0)
        decreases matchLength
      {
        InsertNext();
        BetweenGrows(old(strstart) + 1, strstart);
        matchLength := matchLength - 1;
        more := matchLength != 0;
      }
    }

    /** deflate_fast: start the hash key anew behind a long match. */
    method RestartKey()
      requires Shape() && BytesOk() && strstart + 1 < highWater <= 2 * wSize
      modifies this`insH
      ensures strstart + 2 <= |Win()| ==> KeyReady(key, insH, Win(), strstart)
    {
      hide Update, Hash3;
      FirstByte(key, window[strstart]);
      insH := At(strstart);
      insH := Update(key, insH, At(strstart + 1));
      if strstart + 2 <= |Win()| {
        assert window[..|Win()|][strstart] == window[strstart] && window[..|Win()|][strstart + 1] == window[strstart + 1];
        KeyAfter(key, 0, insH, Win(), strstart);
      }
    }

    /** deflate_fast: move past a match; its strings are inserted only when it is short. */
    method LeaveShortMatch()
      requires Shape() && WindowOk() && Initialized() && CurrentInserted() && UsesHash() && !IsSlow()
      requires MIN_MATCH <= matchLength <= MAX_MATCH && matchLength <= lookahead && strstart <= 2 * wSize - MIN_LOOKAHEAD
      modifies this`matchLength, this`strstart, this`lookahead, this`insH, this`ins, this`lastIns, head, prev
      ensures WindowOk() && Initialized() && ChainsOk()
      ensures strstart == old(strstart + matchLength) && lookahead < old(lookahead) && matchLength == 0
    {
      hide Chains, KeyReady, Shape, UsesHash, BytesOk;
      lookahead := lookahead - matchLength;
      if matchLength <= config.lazy && lookahead >= MIN_MATCH {
        matchLength := matchLength - 1;
        InsertInsideShortMatch();
        strstart := strstart + 1;
      } else {
        strstart := strstart + matchLength;
        matchLength := 0;
        RestartKey();
      }
    }

    /** One byte further. */
    method Pass()
      requires Shape() && WindowOk() && Initialized() && lookahead > 0
      requires if UsesHash() then CurrentInserted() else ChainsOk()
      modifies this`strstart, this`lookahead
      ensures WindowOk() && Initialized() && ChainsOk()
      ensures strstart == old(strstart) + 1 && lookahead == old(lookahead) - 1
    {
      hide Chains, KeyReady;
      strstart := strstart + 1;
      lookahead := lookahead - 1;
    }

    /** FLUSH_BLOCK when the token buffer is full. */
    method FlushIfFull(bflush: bool) returns (r: BlockState)
      requires Shape() && WindowOk() && Initialized() && ChainsOk() && MatchOk() && CoveredTo(strstart) && Open()
      requires !matchAvailable && bflush == (lastLit == litBufsize - 1)
      requires blockStart >= 0 ==> strstart - blockStart <= 65535
      requires strategy == HuffmanOnly ==> strstart - blockStart == lastLit
      modifies this`availOut, this`pending, this`blockStart, this`lastLit, this`blocks
      ensures Valid() && Open() && old(blocks) <= blocks
      ensures Put() == old(Put())
      ensures r in {NeedMore, BlockDone} && (r == NeedMore ==> availOut == 0)
    {
      hide AllTokens, TokensMean, TokensOf, ChainsOk, MatchOk;
      if bflush {
        FlushBlockOnly(false);
        if availOut == 0 { return NeedMore; }
      }
      return BlockDone;
    }

    /** No match: the current byte becomes a literal. */
    method PassLiteral() returns (bflush: bool)
      requires Shape() && WindowOk() && Initialized() && TokensOk() && lookahead > 0 && !matchAvailable
      requires if UsesHash() then CurrentInserted() else ChainsOk()
      modifies this`strstart, this`lookahead, this`lastLit, dBuf, lBuf
      ensures WindowOk() && Initialized() && ChainsOk() && CoveredTo(strstart)
      ensures Put() == old(Put()) + [Literal(window[old(strstart)])]
      ensures strstart == old(strstart) + 1 && lookahead == old(lookahead) - 1
      ensures lastLit == old(lastLit) + 1 && bflush == (lastLit == litBufsize - 1)
    {
      hide Put, Buffered, AllTokens, CurrentInserted, ChainsOk, TokensMean, TokensOf;
      bflush := TallyByte(strstart);
      Pass();
    }

    /** deflate_fast: emit the match at the current string. */
    method EmitShortMatch() returns (bflush: bool)
      requires Shape() && WindowOk() && Initialized() && CurrentInserted() && TokensOk() && UsesHash() && !IsSlow() && !matchAvailable
      requires MIN_MATCH <= matchLength <= MAX_MATCH && matchLength <= lookahead && strstart <= 2 * wSize - MIN_LOOKAHEAD
      requires TrueMatch(strstart, matchStart, matchLength)
      modifies this`matchLength, this`strstart, this`lookahead, this`insH, this`ins, this`lastIns, this`lastLit, head, prev,
               dBuf, lBuf
      ensures WindowOk() && Initialized() && ChainsOk() && CoveredTo(strstart) && matchLength == 0
      ensures Put() == old(Put()) + [Copy(Sub32(old(strstart), matchStart), old(matchLength))]
      ensures strstart == old(strstart + matchLength) && lookahead < old(lookahead)
      ensures bflush == (lastLit == litBufsize - 1)
    {
      hide Put, Buffered, AllTokens, CurrentInserted, ChainsOk, TokensMean, TokensOf, TrueMatch;
      bflush := TallyMatch(strstart, matchStart, matchLength);
      LeaveShortMatch();
    }

    /** deflate_fast: look for a match at the current string. */
    method FastSearch()
      requires Valid() && UsesHash() && !IsSlow() && lookahead > 0 && strstart <= 2 * wSize - MIN_LOOKAHEAD
      modifies this`insH, this`matchLength, this`matchStart, this`ins, this`lastIns, head, prev
      ensures WindowOk() && CurrentInserted() && matchLength <= MAX_MATCH
      ensures matchLength >= MIN_MATCH ==> matchLength <= lookahead && TrueMatch(strstart, matchStart, matchLength)
      ensures var h := old(CurrentHead());
        if h != 0 && strstart - h <= MaxDist() then CommonRun(window[..], h, strstart, MatchCap()) <= Max(matchLength, MIN_MATCH - 1)
        else matchLength < MIN_MATCH
    {
      hide CurrentInserted, CoveredTo, Found, Slot, ChainsOk, WindowOk, CommonRun, Search.NoneBetterOf, Search.Candidate, CurrentHead;
      var hashHead := InsertCurrent();
      if hashHead != 0 && strstart - hashHead <= MaxDist() {
        matchLength := FindMatch(hashHead);
      }
    }

    /** One step of deflate_fast. */
    method FastStep() returns (r: BlockState)
      requires Valid() && Open() && UsesHash() && !IsSlow() && lookahead > 0 && strstart <= 2 * wSize - MIN_LOOKAHEAD
      modifies this`availOut, this`pending, this`strstart, this`lookahead, this`blockStart,
               this`insH, this`matchLength, this`matchStart, this`lastLit, this`ins, this`lastIns, this`blocks, head, prev, dBuf, lBuf
      ensures Valid() && Open() && old(blocks) <= blocks && lookahead < old(lookahead)
      ensures Put() == old(Put()) + [if strstart == old(strstart) + 1 then Literal(window[old(strstart)])
                                     else Copy(Sub32(old(strstart), matchStart), strstart - old(strstart))]
      ensures var h := old(CurrentHead());
        if h != 0 && old(strstart) - h <= MaxDist()
        then CommonRun(window[..], h, old(strstart), old(MatchCap())) <= Max(strstart - old(strstart), MIN_MATCH - 1)
        else strstart == old(strstart) + 1
      ensures r in {NeedMore, BlockDone} && (r == NeedMore ==> availOut == 0)
    {
      hide Put, AllTokens, CurrentInserted, CoveredTo, TrueMatch, ChainsOk, WindowOk, Open, Buffered, End, CommonRun, CurrentHead;
      FastSearch();
      var bflush;
      if matchLength >= MIN_MATCH {
        bflush := EmitShortMatch();
      } else {
        bflush := PassLiteral();
      }
      r := FlushIfFull(bflush);
    }

    /** deflate_fast. */
    method DeflateFast(flush: Flush) returns (r: BlockState)
      requires Valid() && Open() && UsesHash() && !IsSlow()
      modifies this`nextIn, this`availOut, this`pending, this`strstart, this`lookahead, this`blockStart, this`insert,
               this`insH, this`matchLength, this`matchStart, this`matchAvailable, this`prevLength, this`prevMatch,
               this`highWater, this`lastLit, this`consumed, this`base, this`ins, this`lastIns, this`blocks,
               window, head, prev, dBuf, lBuf
      ensures Valid() && old(blocks) <= blocks
      ensures if r in {FinishStarted, FinishDone} then flush == Finish && Finished() && nextIn == [] else Open()
      ensures r == BlockDone ==> flush !in {NoFlush, Finish} && lookahead == 0 && nextIn == [] && lastLit == 0 && !matchAvailable
      ensures r == NeedMore ==> availOut == 0 || (flush == NoFlush && nextIn == [])
      ensures (r == FinishStarted ==> availOut == 0) && (r == FinishDone ==> pending == 0)
    {
      hide ChainsOk, TokensMean, TokensOf, TrueMatch, Shape, TokensOk, IsSlow;
      while true
        invariant Valid() && Open() && old(blocks) <= blocks
        decreases |nextIn| + lookahead
      {
        if lookahead < MIN_LOOKAHEAD {
          FillWindow();
          if lookahead < MIN_LOOKAHEAD && flush == NoFlush { return NeedMore; }
          if lookahead == 0 { break; }
        }
        r := FastStep();
        if r == NeedMore { return; }
      }
      r := FinishInput(flush, Min(strstart, MIN_MATCH - 1));
    }

    /** How often the byte before `pos` repeats from there, up to the longest match. */
    ghost function Run(pos: nat): nat
      reads window
    {
      if 1 <= pos then CommonRun(window[..], pos - 1, pos, MAX_MATCH) else 0
    }

    /** deflate_rle: the run at the current byte, looking no further than one byte behind the longest match; 0 when it is
        shorter than a match. */
    method RunLength() returns (len: nat)
      requires Shape() && 1 <= strstart && strstart + MAX_MATCH < highWater <= 2 * wSize
      ensures len == if Run(strstart) < MIN_MATCH then 0 else Run(strstart)
    {
      hide CommonRun, SameRun;
      var scan := strstart - 1;
      var b := At(scan);
      if b != At(scan + 1) || b != At(scan + 2) || b != At(scan + 3) {
        RunIsShort(window[..], strstart);
        return 0;
      }
      scan := scan + 3;
      var strend := strstart + MAX_MATCH;
      var n, equal := 0, true;
      while equal && (n % 8 != 0 || scan < strend)
        invariant 0 <= n <= MAX_MATCH - 2 && scan == strstart + 2 + n
        invariant forall i :: strstart - 1 <= i < scan ==> window[i] == b
        invariant if equal then window[scan] == b else window[scan] != b
        invariant !equal ==> n > 0
        decreases MAX_MATCH - n
      {
        scan := scan + 1;
        equal := b == At(scan);
        n := n + 1;
      }
      len := MAX_MATCH - (strend - scan);
      RunIs(window[..], b, strstart, len);
    }

    lemma RunIsTrueMatch(len: nat)
      requires Shape() && WindowOk() && strategy == Rle && 1 <= strstart && len <= lookahead
      requires SameRun(window[..], strstart - 1, strstart, len)
      ensures TrueMatch(strstart, strstart - 1, len)
    {
      hide Configuration, SameRun, Repeats, Sub32;
      Sub32OfNext(strstart - 1);
      RunInWindow(strstart - 1, strstart, len);
    }

    /** deflate_rle: look for a run at the current byte. */
    method RleSearch()
      requires Shape() && WindowOk() && Initialized() && strategy == Rle && lookahead > 0 && strstart + MAX_MATCH < 2 * wSize
      modifies this`matchLength
      ensures matchLength == if lookahead >= MIN_MATCH && Run(strstart) >= MIN_MATCH then Min(Run(strstart), lookahead) else 0
      ensures matchLength >= MIN_MATCH ==> matchLength <= MatchCap() && strstart >= 1 && TrueMatch(strstart, strstart - 1, matchLength)
    {
      hide TrueMatch, SameRun, WindowOk, CommonRun;
      matchLength := 0;
      if lookahead >= MIN_MATCH && strstart > 0 {
        var run := RunLength();
        matchLength := Min(run, lookahead);
        if run > 0 {
          RunIsSame(window[..], strstart);
          SameRunShrinks(window[..], strstart - 1, strstart, run, matchLength);
          RunIsTrueMatch(matchLength);
        }
      }
    }

    /** deflate_rle: emit the run at the current byte. */
    method EmitRun() returns (bflush: bool)
      requires Shape() && WindowOk() && Initialized() && ChainsOk() && TokensOk() && strategy == Rle && !matchAvailable
      requires MIN_MATCH <= matchLength <= MatchCap() && strstart >= 1 && TrueMatch(strstart, strstart - 1, matchLength)
      modifies this`matchLength, this`strstart, this`lookahead, this`lastLit, dBuf, lBuf
      ensures WindowOk() && Initialized() && ChainsOk() && CoveredTo(strstart) && matchLength == 0
      ensures Put() == old(Put()) + [Copy(1, old(matchLength))]
      ensures strstart == old(strstart + matchLength) && lookahead < old(lookahead)
      ensures bflush == (lastLit == litBufsize - 1)
    {
      hide Put, Buffered, AllTokens, Chains, KeyReady, TokensMean, TokensOf, TrueMatch, BytesOk, CoveredTo;
      bflush := TallyMatch(strstart, strstart - 1, matchLength);
      lookahead := lookahead - matchLength;
      strstart := strstart + matchLength;
      matchLength := 0;
    }

    /** One step of deflate_rle. */
    method RleStep() returns (r: BlockState)
      requires Valid() && Open() && strategy == Rle && lookahead > 0 && strstart + MAX_MATCH < 2 * wSize
      modifies this`availOut, this`pending, this`strstart, this`lookahead, this`blockStart, this`matchLength, this`lastLit,
               this`blocks, dBuf, lBuf
      ensures Valid() && Open() && old(blocks) <= blocks && lookahead < old(lookahead)
      ensures var n := if old(lookahead) >= MIN_MATCH && Run(old(strstart)) >= MIN_MATCH then Min(Run(old(strstart)), old(lookahead)) else 1;
        strstart == old(strstart) + n && Put() == old(Put()) + [if n == 1 then Literal(window[old(strstart)]) else Copy(1, n)]
      ensures r in {NeedMore, BlockDone} && (r == NeedMore ==> availOut == 0)
    {
      hide Put, Buffered, AllTokens, Run, CoveredTo, TrueMatch, ChainsOk;
      RleSearch();
      var bflush;
      if matchLength >= MIN_MATCH {
        bflush := EmitRun();
      } else {
        bflush := PassLiteral();
      }
      r := FlushIfFull(bflush);
    }

    /** deflate_rle. */
    method DeflateRle(flush: Flush) returns (r: BlockState)
      requires Valid() && Open() && strategy == Rle
      modifies this`nextIn, this`availOut, this`pending, this`strstart, this`lookahead, this`blockStart, this`insert,
               this`insH, this`matchLength, this`matchStart, this`matchAvailable, this`prevLength, this`prevMatch,
               this`highWater, this`lastLit, this`consumed, this`base, this`ins, this`lastIns, this`blocks,
               window, head, prev, dBuf, lBuf
      ensures Valid() && old(blocks) <= blocks
      ensures if r in {FinishStarted, FinishDone} then flush == Finish && Finished() && nextIn == [] else Open()
      ensures r == BlockDone ==> flush !in {NoFlush, Finish} && lookahead == 0 && nextIn == [] && lastLit == 0 && !matchAvailable
      ensures r == NeedMore ==> availOut == 0 || (flush == NoFlush && nextIn == [])
      ensures (r == FinishStarted ==> availOut == 0) && (r == FinishDone ==> pending == 0)
    {
      hide ChainsOk, TokensMean, TokensOf, TrueMatch, TokensOk, MatchOk, Configuration, Pow2, Run;
      while true
        invariant Valid() && Open() && old(blocks) <= blocks
        decreases |nextIn| + lookahead
      {
        if lookahead <= MAX_MATCH {
          FillWindow();
          if lookahead <= MAX_MATCH && flush == NoFlush { return NeedMore; }
          if lookahead == 0 { break; }
        }
        r := RleStep();
        if r == NeedMore { return; }
      }
      r := FinishInput(flush, 0);
    }

    /** One step of deflate_huff. */
    method HuffStep() returns (r: BlockState)
      requires Valid() && Open() && strategy == HuffmanOnly && lookahead > 0
      modifies this`availOut, this`pending, this`strstart, this`lookahead, this`blockStart, this`matchLength, this`lastLit,
               this`blocks, dBuf, lBuf
      ensures Valid() && Open() && old(blocks) <= blocks && lookahead < old(lookahead)
      ensures Put() == old(Put()) + [Literal(window[old(strstart)])]
      ensures r in {NeedMore, BlockDone} && (r == NeedMore ==> availOut == 0)
    {
      hide Put, Buffered, AllTokens, CoveredTo, TrueMatch, ChainsOk;
      matchLength := 0;
      var bflush := PassLiteral();
      r := FlushIfFull(bflush);
    }

    /** deflate_huff. */
    method DeflateHuff(flush: Flush) returns (r: BlockState)
      requires Valid() && Open() && strategy == HuffmanOnly
      modifies this`nextIn, this`availOut, this`pending, this`strstart, this`lookahead, this`blockStart, this`insert,
               this`insH, this`matchLength, this`matchStart, this`matchAvailable, this`prevLength, this`prevMatch,
               this`highWater, this`lastLit, this`consumed, this`base, this`ins, this`lastIns, this`blocks,
               window, head, prev, dBuf, lBuf
      ensures Valid() && old(blocks) <= blocks
      ensures if r in {FinishStarted, FinishDone} then flush == Finish && Finished() && nextIn == [] else Open()
      ensures r == BlockDone ==> flush !in {NoFlush, Finish} && lookahead == 0 && nextIn == [] && lastLit == 0 && !matchAvailable
      ensures r == NeedMore ==> availOut == 0 || (flush == NoFlush && nextIn == [])
      ensures (r == FinishStarted ==> availOut == 0) && (r == FinishDone ==> pending == 0)
    {
      hide ChainsOk, TokensMean, TokensOf, TrueMatch, Shape, WindowOk, TokensOk, MatchOk, Open, End, Valid;
      while true
        invariant Valid() && Open() && old(blocks) <= blocks
        decreases |nextIn| + lookahead
      {
        if lookahead == 0 {
          FillWindow();
          if lookahead == 0 {
            if flush == NoFlush { return NeedMore; }
            break;
          }
        }
        r := HuffStep();
        if r == NeedMore { return; }
      }
      r := FinishInput(flush, 0);
    }

    /** The state between two calls of deflate. */
    ghost predicate ValidStream()
      reads this`status, this`wrap, this`nextIn, this`strstart, this`lookahead, this`blockStart, this`insert, this`insH,
            this`matchLength, this`matchStart, this`matchAvailable, this`prevLength, this`highWater, this`lastLit, this`data,
            this`consumed, this`base, this`ins, this`lastIns, this`blocks, this`restart, window, head, prev, dBuf, lBuf
    {
      && Valid()
      && -2 <= wrap <= 2
      && (if status == FinishState then Finished() else Open())
    }

    /** Nothing waits anywhere between the caller's input and the caller's output. */
    predicate AllOut()
      reads this`nextIn, this`lookahead, this`lastLit, this`matchAvailable, this`pending
    {
      nextIn == [] && lookahead == 0 && lastLit == 0 && !matchAvailable && pending == 0
    }

    /** What the stream means: the blocks handed over and the tokens still buffered decode to the input read so
        far, up to the lookahead and the one literal deferred by lazy evaluation; and they keep the rule. */
    lemma StreamDecodes()
      requires Valid()
      ensures var covered := consumed - lookahead - (if matchAvailable then 1 else 0);
        0 <= covered <= |data| && Decode(Put()) == Some(data[..covered]) && DecodesAlone(restart, blocks, Buffered(), data, covered)
      ensures Rules().PermitsAll(Put()) && DecodeInside(wSize, Put()) == Some(After(Decode(Put()).value, wSize))
    {
      hide ChainsOk, MatchOk, TokensMean, TokensOf, Decode, AllTokens;
      TokensDecode(Rules(), restart, blocks, Buffered(), data, base + blockStart, base + strstart - if matchAvailable then 1 else 0);
      PermittedWithin(Rules(), Put(), wSize);
      WindowSuffices(wSize, Put());
    }

    /** When nothing waits, the blocks alone mean the whole input. */
    lemma AllInBlocks()
      requires Valid() && AllOut()
      ensures Put() == AllTokens(blocks) && consumed == |data| && Decode(AllTokens(blocks)) == Some(data)
    {
      hide ChainsOk, MatchOk, TokensMean, TokensOf, Decode, AllTokens;
      StreamDecodes();
      BufferedEmpty();
      assert data[..consumed] == data;
    }

    /** At the end of the stream the blocks alone mean the whole input. */
    lemma EndedStreamDecodes()
      requires ValidStream() && status == FinishState && nextIn == []
      ensures BlocksMean(blocks, data) && Decode(AllTokens(blocks)) == Some(data)
      ensures blocks != [] && blocks[|blocks| - 1].last && Put() == AllTokens(blocks)
    {
      hide ChainsOk, MatchOk, TokensOf, Decode, AllTokens, BlocksMean, DecodeFrom;
      assert data[..base + blockStart] == data;
      BlocksDecode(blocks, data);
    }

    /** More input at the end changes nothing about what was put out and what was found. */
    twostate lemma MoreInput()
      requires old(Shape() && WindowOk() && TokensOk() && MatchOk()) && old(data) <= data
      requires unchanged(this`lastLit, this`blocks, this`restart, this`base, this`strstart, this`blockStart, dBuf, lBuf)
      requires unchanged(this`matchAvailable, this`matchLength, this`matchStart, this`prevLength, this`lookahead, this`consumed)
      ensures TokensOk() && MatchOk()
    {
      hide TokensMean, TokensOf, Repeats, Shape, BytesOk, IsSlow, UsesHash, Sub32;
      TokensMeanGrow(Rules(), restart, blocks, Buffered(), old(data), data, base + blockStart, base + strstart - if matchAvailable then 1 else 0);
      if matchLength >= MIN_MATCH {
        RepeatsGrow(old(data), data, base + (strstart - 1), Sub32(strstart - 1, matchStart), matchLength);
      }
    }

    /** The caller provides more input and room for output. */
    method Supply(more: seq<byte>, room: nat)
      requires ValidStream()
      modifies this`data, this`nextIn, this`availOut
      ensures ValidStream() && data == old(data) + more && nextIn == old(nextIn) + more && availOut == room
    {
      hide Chains, KeyReady, TokensOk, MatchOk, Shape, Initialized, Open, UsesHash;
      ghost var win := Win();
      data := data + more;
      nextIn := nextIn + more;
      availOut := room;
      assert Win() == win;
      MoreInput();
    }

    /** An empty block, put out to mark a flush. */
    method PutMarker(raw: bool)
      requires Valid() && Open() && lastLit == 0 && lookahead == 0 && !matchAvailable
      modifies this`blocks, this`pending, this`blockStart
      ensures Valid() && Open() && blocks == old(blocks) + [Block([], if raw then Some([]) else None, 0, false)]
    {
      hide Chains, KeyReady, TokensMean, TokensOf, TrueMatch;
      BufferedEmpty();
      EmptyCover(Rules(), restart, blocks, data, base + blockStart, base + strstart);
      PushBlock(Rules(), restart, blocks, Block([], if raw then Some([]) else None, 0, false), data, base + blockStart, base + strstart);
      blocks := blocks + [Block([], if raw then Some([]) else None, 0, false)];
      blockStart := strstart;
      var emitted :| emitted >= 0;
      pending := pending + emitted;
    }

    /** CLEAR_HASH, and restart the window when nothing is left in it to process. */
    method ClearHistory()
      requires Valid() && lastLit == 0 && lookahead == 0 && !matchAvailable
      modifies this`strstart, this`blockStart, this`insert, this`base, this`ins, this`lastIns, head
      ensures Valid() && ins == {} && base == consumed && strstart == blockStart == 0
    {
      hide TokensMean, TokensOf, TrueMatch, Buffered, Chains, KeyReady;
      BufferedEmpty();
      EmptyCover(Rules(), restart, blocks, data, base + blockStart, base + strstart);
      ClearHead();
      if lookahead == 0 {
        base := base + strstart;
        strstart := 0;
        blockStart := 0;
        insert := 0;
      }
      ins, lastIns := {}, 0;
      NothingInside();
    }

    /** A window with nothing in it. */
    lemma NothingInside()
      requires Shape() && restart.byte <= base == consumed <= |data| && nextIn == data[consumed..] && highWater <= 2 * wSize
      requires strstart == lookahead == insert == lastLit == 0 == blockStart && ins == {} && lastIns == 0
      requires forall h :: 0 <= h < head.Length ==> head[h] == 0
      requires !matchAvailable && matchLength < MIN_MATCH && (IsSlow() ==> matchLength >= 2)
      requires UsesHash() && !IsSlow() ==> prevLength == MIN_MATCH - 1
      requires TokensMean(Rules(), restart, blocks, Buffered(), data, base, base)
      ensures Valid()
    {
      hide Newest, KeyReady, TokensMean, Buffered, Configuration;
      ClearedChains(key, wSize, Win(), head[..], prev[..]);
    }

    /** A full flush forgets the history: from here on nothing refers to what was before. */
    method ForgetHistory()
      requires Valid() && Open() && lastLit == 0 && lookahead == 0 && nextIn == [] && !matchAvailable
      modifies this`strstart, this`blockStart, this`insert, this`base, this`ins, this`lastIns, this`restart, head
      ensures Valid() && Open() && ins == {} && restart == Restart(|blocks|, |data|)
    {
      hide TokensMean, TokensOf, Buffered, ChainsOk, Initialized, Configuration;
      ClearHistory();
      BufferedEmpty();
      RestartHere(Rules(), restart, blocks, data, base);
      restart := Restart(|blocks|, base);
    }

    method ClearHead()
      requires Shape()
      modifies head
      ensures forall h :: 0 <= h < head.Length ==> head[h] == 0
    {
      forall h | 0 <= h < head.Length {
        head[h] := 0;
      }
    }

    /** The part of deflate that runs the compression function of the level and strategy. */
    method Compress(flush: Flush) returns (r: BlockState)
      requires Valid() && Open()
      modifies this`nextIn, this`availOut, this`pending, this`strstart, this`lookahead, this`blockStart, this`insert,
               this`insH, this`matchLength, this`matchStart, this`matchAvailable, this`prevLength, this`prevMatch,
               this`highWater, this`lastLit, this`consumed, this`base, this`ins, this`lastIns, this`blocks,
               window, head, prev, dBuf, lBuf
      ensures Valid() && old(blocks) <= blocks
      ensures if r in {FinishStarted, FinishDone} then flush == Finish && Finished() && nextIn == [] else Open()
      ensures r == BlockDone ==> flush !in {NoFlush, Finish} && lookahead == 0 && nextIn == [] && lastLit == 0 && !matchAvailable
      ensures r == NeedMore ==> availOut == 0 || (flush == NoFlush && nextIn == [])
      ensures (r == FinishStarted ==> availOut == 0) && (r == FinishDone ==> pending == 0)
    {
      hide WindowOk, ChainsOk, TokensOk, MatchOk;
      if strategy == HuffmanOnly {
        r := DeflateHuff(flush);
      } else if strategy == Rle {
        r := DeflateRle(flush);
      } else if level >= 4 {
        r := DeflateSlow(flush);
      } else {
        r := DeflateFast(flush);
      }
    }

    /** What deflate puts out after a completed flush. */
    method EndFlush(flush: Flush)
      requires Valid() && Open() && lastLit == 0 && lookahead == 0 && nextIn == [] && !matchAvailable
      modifies this`blocks, this`pending, this`strstart, this`blockStart, this`insert, this`base, this`ins, this`lastIns,
               this`restart, head
      ensures Valid() && Open() && lookahead == 0
      ensures if flush == FullFlush then ins == {} && restart == Restart(|blocks|, |data|) else restart == old(restart)
      ensures blocks == old(blocks) + if flush == BlockFlush then []
                                      else [Block([], if flush == PartialFlush then None else Some([]), 0, false)]
    {
      hide Valid;
      if flush == PartialFlush {
        PutMarker(false);
      } else if flush != BlockFlush {
        PutMarker(true);
        if flush == FullFlush {
          ForgetHistory();
        }
      }
    }

    /** The call of the compression function, and the state it leads to. */
    method Round(flush: Flush) returns (r: BlockState)
      requires ValidStream() && status != FinishState
      modifies this`status, this`nextIn, this`availOut, this`pending, this`strstart, this`lookahead, this`blockStart, this`insert,
               this`insH, this`matchLength, this`matchStart, this`matchAvailable, this`prevLength, this`prevMatch,
               this`highWater, this`lastLit, this`consumed, this`base, this`ins, this`lastIns, this`blocks,
               window, head, prev, dBuf, lBuf
      ensures ValidStream() && old(blocks) <= blocks
      ensures if r in {FinishStarted, FinishDone} then status == FinishState && flush == Finish && nextIn == [] && Finished()
              else status != FinishState
      ensures r == BlockDone ==> flush !in {NoFlush, Finish} && lookahead == 0 && nextIn == [] && lastLit == 0 && !matchAvailable
      ensures r == NeedMore ==> availOut == 0 || (flush == NoFlush && nextIn == [])
      ensures (r == FinishStarted ==> availOut == 0) && (r == FinishDone ==> pending == 0)
    {
      hide Valid;
      r := Compress(flush);
      if r == FinishStarted || r == FinishDone {
        status := FinishState;
      }
    }

    /** The end of a flush; true when the output is full. */
    method PutFlush(flush: Flush) returns (stop: bool)
      requires ValidStream() && status != FinishState && lookahead == 0 && nextIn == [] && lastLit == 0 && !matchAvailable
      modifies this`lastFlush, this`availOut, this`blocks, this`pending, this`strstart, this`blockStart, this`insert, this`base,
               this`ins, this`lastIns, this`restart, head
      ensures ValidStream() && old(blocks) <= blocks
      ensures restart == if flush == FullFlush then Restart(|blocks|, |data|) else old(restart)
      ensures if stop then availOut == 0 else AllOut()
    {
      hide Valid;
      EndFlush(flush);
      FlushPending();
      stop := availOut == 0;
      if stop {
        lastFlush := -1;
      }
    }

    /** deflate: start a new block or continue the current one; true when deflate must return Z_OK. */
    method Continue(flush: Flush) returns (stop: bool)
      requires ValidStream() && pending == 0 && (status == FinishState ==> flush == Finish && nextIn == [])
      modifies this`status, this`lastFlush,
               this`nextIn, this`availOut, this`pending, this`strstart, this`lookahead, this`blockStart, this`insert,
               this`insH, this`matchLength, this`matchStart, this`matchAvailable, this`prevLength, this`prevMatch,
               this`highWater, this`lastLit, this`consumed, this`base, this`ins, this`lastIns, this`blocks, this`restart,
               window, head, prev, dBuf, lBuf
      ensures ValidStream() && old(blocks) <= blocks && wrap == old(wrap)
      ensures flush != FullFlush ==> restart == old(restart)
      ensures !stop && flush == FullFlush ==> restart == Restart(|blocks|, |data|)
      ensures stop ==> availOut == 0 || (flush == NoFlush && nextIn == [])
      ensures !stop ==> nextIn == [] && pending == 0 && (flush == Finish ==> status == FinishState)
      ensures !stop && flush != NoFlush ==> AllOut()
    {
      hide Valid;
      if |nextIn| != 0 || lookahead != 0 || (flush != NoFlush && status != FinishState) {
        var bstate := Round(flush);
        if bstate == NeedMore || bstate == FinishStarted {
          if availOut == 0 {
            lastFlush := -1;
          }
          return true;
        }
        if bstate == BlockDone {
          stop := PutFlush(flush);
          return;
        }
      }
      return false;
    }

    /** Bytes of the gzip header without a header record, or of the zlib header. */
    function HeaderLength(): nat
      reads this`wrap
    {
      if wrap == 2 then 10 else 2
    }

    /** The header, as far as the output has room for it. */
    method HeaderOut()
      requires ValidStream() && status == InitState
      modifies this`status, this`pending, this`availOut
      ensures ValidStream() && status == BusyState
      ensures pending + old(availOut) == old(pending) + HeaderLength() + availOut && (pending == 0 || availOut == 0)
    {
      hide Valid, Open;
      pending := pending + HeaderLength();
      status := BusyState;
      FlushPending();
    }

    /** deflate: the checks, the pending output and the header; a code when deflate must return right away. */
    method Begin(flush: Flush) returns (r: Option<ReturnCode>)
      requires ValidStream()
      modifies this`status, this`lastFlush, this`pending, this`availOut
      ensures ValidStream() && wrap == old(wrap)
      ensures r == match old(Entry(status, flush, lastFlush, |nextIn|, availOut, pending))
                   case Some(code) => Some(code)
                   case None => if old(status == InitState && availOut - pending < HeaderLength()) then Some(Ok) else None
      ensures r == Some(Ok) ==> availOut == 0
      ensures r == None ==> pending == 0 && (status == FinishState ==> flush == Finish && nextIn == [])
    {
      hide ValidStream;
      if status == FinishState && flush != Finish { return Some(StreamError); }
      if availOut == 0 { return Some(BufError); }
      var oldFlush := lastFlush;
      lastFlush := FlushCode(flush);
      if pending != 0 {
        FlushPending();
        if availOut == 0 {
          lastFlush := -1;
          return Some(Ok);
        }
      } else if |nextIn| == 0 && Rank(FlushCode(flush)) <= Rank(oldFlush) && flush != Finish {
        return Some(BufError);
      }
      if status == FinishState && |nextIn| != 0 { return Some(BufError); }
      if status == InitState {
        HeaderOut();
        if pending != 0 {
          lastFlush := -1;
          return Some(Ok);
        }
      }
      return None;
    }

    /** The trailer, as far as the output has room for it. */
    method PutTrailer()
      requires ValidStream() && wrap > 0
      modifies this`wrap, this`pending, this`availOut
      ensures ValidStream() && wrap == -old(wrap)
      ensures pending == 0 || availOut == 0
    {
      hide Valid;
      pending := pending + if wrap == 2 then 8 else 4;
      FlushPending();
      wrap := -wrap;
    }

    /** deflate. */
    method DeflateCall(flush: Flush) returns (r: ReturnCode)
      requires ValidStream()
      modifies this`status, this`wrap, this`lastFlush,
               this`nextIn, this`availOut, this`pending, this`strstart, this`lookahead, this`blockStart, this`insert,
               this`insH, this`matchLength, this`matchStart, this`matchAvailable, this`prevLength, this`prevMatch,
               this`highWater, this`lastLit, this`consumed, this`base, this`ins, this`lastIns, this`blocks, this`restart,
               window, head, prev, dBuf, lBuf
      ensures ValidStream() && old(blocks) <= blocks
      ensures match old(Entry(status, flush, lastFlush, |nextIn|, availOut, pending))
              case Some(code) => r == code
              case None => r in {Ok, StreamEnd}
      ensures r in {StreamError, BufError} ==> blocks == old(blocks) && consumed == old(consumed)
      ensures flush != FullFlush ==> restart == old(restart)
      ensures r == Ok && flush == FullFlush && availOut > 0 ==> restart == Restart(|blocks|, |data|)
      ensures r == Ok ==> availOut == 0 || (flush != Finish && nextIn == [])
      ensures r == Ok && flush !in {NoFlush, Finish} && availOut > 0 ==> AllOut()
      ensures r == StreamEnd ==> flush == Finish && status == FinishState && AllOut()
    {
      hide Valid, ValidStream, Entry;
      var first := Begin(flush);
      if first.Some? { return first.value; }
      var stop := Continue(flush);
      if stop || flush != Finish { return Ok; }
      if wrap <= 0 { return StreamEnd; }
      PutTrailer();
      return if pending != 0 then Ok else StreamEnd;
    }

    /** deflateInit2_, for parameters that it accepts. */
    constructor (level0: int, strategy0: Strategy, windowBits: int, memLevel: int)
      requires var u := InitSetup(level0, windowBits, memLevel); u.Some? && u.value.level >= 1
      ensures ValidStream() && data == [] && blocks == [] && consumed == 0
      ensures var u := InitSetup(level0, windowBits, memLevel).value; level == u.level && wSize == Pow2(u.wBits) && wrap == u.wrap
      ensures strategy == strategy0
      ensures fresh(window) && fresh(head) && fresh(prev) && fresh(dBuf) && fresh(lBuf)
    {
      hide Configuration, ValidStream, InitSetup;
      var Setup(level', bits, wrap') := InitSetup(level0, windowBits, memLevel).value;
      SizesFit(bits, memLevel);
      level, strategy, config := level', strategy0, Configuration(level');
      wSize, key, litBufsize := Pow2(bits), HashKey(memLevel + 7), Pow2(memLevel + 6);
      window := new byte[2 * Pow2(bits)];
      prev := new nat[Pow2(bits)];
      head := new nat[Pow2(memLevel + 7)](i => 0);
      dBuf := new nat[Pow2(memLevel + 6)];
      lBuf := new byte[Pow2(memLevel + 6)];
      nextIn, availOut := [], 0;
      status, wrap, lastFlush, pending := if wrap' == 0 then BusyState else InitState, wrap', 0, 0;
      strstart, lookahead, blockStart, insert, insH := 0, 0, 0, 0, 0;
      matchLength, matchStart, matchAvailable, prevLength, prevMatch := MIN_MATCH - 1, 0, false, MIN_MATCH - 1, 0;
      highWater, lastLit := 0, 0;
      data, consumed, base, ins, lastIns, blocks, restart := [], 0, 0, {}, 0, [], Restart(0, 0);
      new;
      FreshIsValid();
    }

    lemma FreshIsValid()
      requires Shape() && 0 <= wrap <= 2 && status != FinishState
      requires nextIn == data == [] && blocks == [] && ins == {} && lastIns == 0
      requires restart == Restart(0, 0)
      requires strstart == lookahead == insert == highWater == lastLit == consumed == base == 0 == blockStart
      requires matchLength == prevLength == MIN_MATCH - 1 && !matchAvailable
      requires forall h :: 0 <= h < head.Length ==> head[h] == 0
      ensures ValidStream()
    {
      BufferedEmpty();
      NothingInside();
    }

  }

  lemma SmallerInside(a: set<nat>, b: set<nat>, x: nat)
    requires a <= b && x in b && x !in a
    ensures |a| < |b|
  {
    var rest := b - {x};
    assert a <= rest && b == rest + {x};
    SubsetSmaller(a, rest);
  }

  lemma {:induction false} SubsetSmaller(a: set<nat>, b: set<nat>)
    requires a <= b
    ensures |a| <= |b|
    decreases |a|
  {
    if x :| x in a {
      SubsetSmaller(a - {x}, b - {x});
    }
  }

  lemma NoneBetterGrows(s: Search, from: nat, best: nat, best': nat)
    requires s.NoneBetter(from, best) && best <= best'
    ensures s.NoneBetter(from, best')
  {
  }

  lemma OneMoreDone(s: Search, cur: nat, best: nat, best': nat)
    requires s.NoneBetter(cur + 1, best) && best <= best'
    requires CommonRun(s.full, cur, s.str, s.cap) <= best'
    ensures s.NoneBetter(cur, best')
  {
  }

  /** Nothing is better than a match of the longest permitted length. */
  lemma CapReached(s: Search, n: nat, best: nat)
    requires best >= s.cap
    ensures s.NoneBetterOf(n, best)
  {
  }

  /** Any sequence of calls, however the client slices input and output and whatever it flushes: the tokens decode
      to the input processed so far, and once the stream has ended, to the whole input. A decoder that keeps only a
      window of the size announced is enough, level and strategy restrict what is put out, and what follows a
      completed full flush can be decoded without anything before it. */
  method AnyRun(level: int, strategy: Strategy, windowBits: int, memLevel: int, calls: seq<Call>)
    returns (s: DeflateState, last: ReturnCode)
    requires var u := InitSetup(level, windowBits, memLevel); u.Some? && u.value.level >= 1
    ensures s.ValidStream() && s.data == Supplied(calls)
    ensures var covered := s.consumed - s.lookahead - (if s.matchAvailable then 1 else 0);
      && 0 <= covered <= |s.data| && Decode(s.Put()) == Some(s.data[..covered])
      && DecodeInside(s.wSize, s.Put()) == Some(After(s.data[..covered], s.wSize))
      && DecodesAlone(s.restart, s.blocks, s.Buffered(), s.data, covered)
    ensures var u := InitSetup(level, windowBits, memLevel).value;
      && s.wSize == Pow2(u.wBits)
      && Rule(u.level >= 4 && strategy !in {HuffmanOnly, Rle}, strategy, s.wSize - MIN_LOOKAHEAD).PermitsAll(s.Put())
    ensures calls != [] && calls[|calls| - 1].flush == FullFlush && last == Ok && s.availOut > 0 ==>
      s.restart == Restart(|s.blocks|, |s.data|)
    ensures calls != [] && calls[|calls| - 1].flush != NoFlush && last == Ok && s.availOut > 0 ==>
      s.pending == 0 && s.Put() == AllTokens(s.blocks) && Decode(AllTokens(s.blocks)) == Some(Supplied(calls))
    ensures last == StreamEnd ==> s.blocks != [] && s.blocks[|s.blocks| - 1].last && s.Put() == AllTokens(s.blocks)
    ensures last == StreamEnd ==> BlocksMean(s.blocks, Supplied(calls)) && Decode(AllTokens(s.blocks)) == Some(Supplied(calls))
  {
    hide DeflateState.Valid, DeflateState.Put, DeflateState.Buffered, DeflateState.Open, DeflateState.Finished, AllTokens, Decode,
         DecodesAlone, DecodeInside, BlocksMean, After, Pow2, InitSetup;
    s := new DeflateState(level, strategy, windowBits, memLevel);
    last := Ok;
    var i := 0;
    while i < |calls|
      invariant 0 <= i <= |calls| && s.ValidStream() && s.data == Supplied(calls[..i])
      invariant i > 0 && calls[i - 1].flush == FullFlush && last == Ok && s.availOut > 0 ==> s.restart == Restart(|s.blocks|, |s.data|)
      invariant var u := InitSetup(level, windowBits, memLevel).value;
        s.level == u.level && s.strategy == strategy && s.wSize == Pow2(u.wBits)
      invariant fresh(s) && fresh(s.window) && fresh(s.head) && fresh(s.prev) && fresh(s.dBuf) && fresh(s.lBuf)
      invariant i > 0 && calls[i - 1].flush != NoFlush && last == Ok && s.availOut > 0 ==> s.AllOut()
      invariant last == StreamEnd ==> s.status == FinishState && s.nextIn == []
    {
      s.Supply(calls[i].more, calls[i].room);
      last := s.DeflateCall(calls[i].flush);
      assert calls[..i + 1][..i] == calls[..i];
      i := i + 1;
    }
    assert calls[..i] == calls;
    s.StreamDecodes();
    if last == StreamEnd {
      s.EndedStreamDecodes();
    }
    if s.AllOut() {
      s.AllInBlocks();
    }
  }
}
