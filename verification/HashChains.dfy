/** The dictionary of deflate as values: `head`, `prev` indexed modulo the window size, and the set of
    positions that were inserted. Position 0 doubles as NIL and is never in the set. */
module HashChains {
  import opened Common
  import opened RollingHash

  /** The key of the string at `p`; 0 where no three bytes are left. */
  function HashAt(k: HashKey, win: seq<byte>, p: nat): (h: nat)
    ensures h < k.Size()
  {
    if p + 3 <= |win| then Hash3(k, win[p], win[p + 1], win[p + 2]) else 0
  }

  /** `p & w_mask`: the place of the link of position `p`. */
  function Slot(p: nat, w: nat): (r: nat)
    requires w > 0
    ensures r < w
  {
    p % w
  }

  /** The inserted positions: each has its three bytes in the window, and `last` is the newest (0 if none). */
  ghost predicate Inserted(win: seq<byte>, ins: set<nat>, last: nat) {
    && (forall p :: p in ins ==> 1 <= p <= last && p + 3 <= |win|)
    && (last != 0 ==> last in ins)
  }

  /** `q` is the newest inserted position below `below` whose three bytes hash to `h`, or NIL. */
  ghost predicate Newest(k: HashKey, win: seq<byte>, ins: set<nat>, h: nat, below: nat, q: nat) {
    && (q != 0 ==> q in ins && q < below && HashAt(k, win, q) == h)
    && (forall r: nat :: r in ins && r < below && HashAt(k, win, r) == h ==> r <= q)
  }

  /** Every head is the newest position of its bucket; the link kept for an inserted position among the last
      `w` is the newest older position of the same bucket. Older links may be garbage. */
  ghost predicate Chains(k: HashKey, w: nat, win: seq<byte>, head: seq<nat>, prev: seq<nat>, ins: set<nat>, last: nat) {
    && 0 < w == |prev|
    && |head| == k.Size()
    && Inserted(win, ins, last)
    && (forall h :: 0 <= h < |head| ==> Newest(k, win, ins, h, last + 1, head[h]))
    && (forall p :: p in ins && last < p + w ==> Newest(k, win, ins, HashAt(k, win, p), p, prev[Slot(p, w)]))
  }

  predicate NotNil(p: nat) {
    p != 0
  }

  /** The positions from `from` to `to`, without 0. */
  ghost function Between(from: nat, to: int): set<nat> {
    set p: nat | from <= p < to && NotNil(p)
  }

  lemma BetweenOne(p: nat)
    ensures Between(p, p + 1) == if p == 0 then {} else {p}
  {
    assert NotNil(p) == (p != 0);
  }

  lemma BetweenNone(from: nat)
    ensures Between(from, from) == {}
  {
  }

  lemma BetweenEmpty(from: nat, to: int)
    requires to <= from
    ensures Between(from, to) == {}
  {
  }

  lemma BetweenGrows(from: nat, to: nat)
    requires from <= to
    ensures Between(from, to + 1) == Between(from, to) + Between(to, to + 1)
  {
    hide NotNil;
  }

  /** INSERT_STRING keeps the chains. */
  lemma InsertKeepsChains(k: HashKey, w: nat, win: seq<byte>, head: seq<nat>, prev: seq<nat>, ins: set<nat>,
                          last: nat, str: nat)
    requires Chains(k, w, win, head, prev, ins, last)
    requires last < str || str == 0 == last
    requires str + 3 <= |win|
    ensures var h := HashAt(k, win, str);
      Chains(k, w, win, head[h := str], prev[Slot(str, w) := head[h]], ins + if str == 0 then {} else {str}, str)
  {
    hide Hash3, Between;
    var h := HashAt(k, win, str);
    var head', prev' := head[h := str], prev[Slot(str, w) := head[h]];
    var ins' := ins + if str == 0 then {} else {str};
    forall b | 0 <= b < |head'|
      ensures Newest(k, win, ins', b, str + 1, head'[b])
    {
      assert Newest(k, win, ins, b, last + 1, head[b]);
    }
    forall p | p in ins' && str < p + w
      ensures Newest(k, win, ins', HashAt(k, win, p), p, prev'[Slot(p, w)])
    {
      if p == str {
        assert Newest(k, win, ins, h, last + 1, head[h]);
      } else {
        SlotsDiffer(str, p, w);
        assert Newest(k, win, ins, HashAt(k, win, p), p, prev[Slot(p, w)]);
      }
    }
  }

  /** More bytes behind the valid ones do not disturb the chains. */
  lemma GrowKeepsChains(k: HashKey, w: nat, win: seq<byte>, win': seq<byte>, head: seq<nat>, prev: seq<nat>,
                        ins: set<nat>, last: nat)
    requires Chains(k, w, win, head, prev, ins, last)
    requires |win| <= |win'| && win == win'[..|win|]
    ensures Chains(k, w, win', head, prev, ins, last)
  {
    hide Hash3;
    forall p | p in ins
      ensures HashAt(k, win', p) == HashAt(k, win, p)
    {
    }
    forall h | 0 <= h < |head|
      ensures Newest(k, win', ins, h, last + 1, head[h])
    {
      assert Newest(k, win, ins, h, last + 1, head[h]);
    }
    forall p | p in ins && last < p + w
      ensures Newest(k, win', ins, HashAt(k, win', p), p, prev[Slot(p, w)])
    {
      assert Newest(k, win, ins, HashAt(k, win, p), p, prev[Slot(p, w)]);
    }
  }

  /** What slide_hash leaves in one entry. */
  function Slid(m: nat, w: nat): nat {
    if m >= w then m - w else 0
  }

  function SlidSeq(s: seq<nat>, w: nat): (r: seq<nat>)
    ensures |r| == |s|
  {
    seq(|s|, i requires 0 <= i < |s| => Slid(s[i], w))
  }

  ghost function SlidSet(ins: set<nat>, w: nat): set<nat> {
    set p | p in ins && p > w :: p - w
  }

  lemma SlotOfSlid(p: nat, w: nat)
    requires w > 0
    ensures Slot(p + w, w) == Slot(p, w)
  {
    SlotSlides(p + w, w);
  }

  lemma HashSlides(k: HashKey, w: nat, win: seq<byte>, p: nat)
    requires w <= |win| && p + w + 3 <= |win|
    ensures HashAt(k, win[w..], p) == HashAt(k, win, p + w)
  {
    hide Hash3;
  }

  /** Moving the upper half of the window down and slide_hash map every surviving chain to itself shifted by
      the window size: the slot of `p` keeps belonging to the same position. */
  lemma SlideKeepsChains(k: HashKey, w: nat, win: seq<byte>, head: seq<nat>, prev: seq<nat>, ins: set<nat>, last: nat)
    requires Chains(k, w, win, head, prev, ins, last)
    requires w <= |win|
    ensures Chains(k, w, win[w..], SlidSeq(head, w), SlidSeq(prev, w), SlidSet(ins, w), Slid(last, w))
  {
    hide HashAt, Newest, Slot;
    var win', head', prev', ins' := win[w..], SlidSeq(head, w), SlidSeq(prev, w), SlidSet(ins, w);
    assert last > w ==> last - w in ins';
    forall h | 0 <= h < |head'|
      ensures Newest(k, win', ins', h, Slid(last, w) + 1, head'[h])
    {
      NewestSlides(k, w, win, ins, h, last + 1, Slid(last, w) + 1, head[h]);
    }
    forall p | p in ins' && Slid(last, w) < p + w
      ensures Newest(k, win', ins', HashAt(k, win', p), p, prev'[Slot(p, w)])
    {
      SlotOfSlid(p, w);
      HashSlides(k, w, win, p);
      assert p + w in ins;
      NewestSlides(k, w, win, ins, HashAt(k, win, p + w), p + w, p, prev[Slot(p + w, w)]);
    }
  }

  lemma NewestSlides(k: HashKey, w: nat, win: seq<byte>, ins: set<nat>, h: nat, below: nat, below': nat, q: nat)
    requires forall p :: p in ins ==> p + 3 <= |win|
    requires Newest(k, win, ins, h, below, q) && w <= |win|
    requires forall p :: p in ins && p > w ==> (p < below <==> p - w < below')
    ensures Newest(k, win[w..], SlidSet(ins, w), h, below', Slid(q, w))
  {
    hide Hash3;
    var win', ins' := win[w..], SlidSet(ins, w);
    forall p | p in ins'
      ensures p + w in ins && p + 3 <= |win'| && HashAt(k, win', p) == HashAt(k, win, p + w)
    {
    }
    forall r: nat | r in ins' && r < below' && HashAt(k, win', r) == h
      ensures r <= Slid(q, w)
    {
      assert r + w in ins && HashAt(k, win, r + w) == h;
    }
    if q > w {
      assert q - w in ins';
      assert HashAt(k, win', q - w) == HashAt(k, win, q);
    }
  }

  /** CLEAR_HASH. */
  lemma ClearedChains(k: HashKey, w: nat, win: seq<byte>, head: seq<nat>, prev: seq<nat>)
    requires 0 < w == |prev| && |head| == k.Size()
    requires forall h :: 0 <= h < |head| ==> head[h] == 0
    ensures Chains(k, w, win, head, prev, {}, 0)
  {
  }

  /** With nothing inserted every chain is empty. */
  lemma EmptyChains(k: HashKey, w: nat, win: seq<byte>, head: seq<nat>, prev: seq<nat>, ins: set<nat>, h: nat)
    requires Chains(k, w, win, head, prev, ins, 0)
    ensures h < |head| ==> head[h] == 0
  {
    assert h < |head| ==> Newest(k, win, ins, h, 1, head[h]);
  }
}
