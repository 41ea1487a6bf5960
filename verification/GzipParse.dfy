/** Reading a gzip header back, as section 2.3 of RFC 1952 lays it out: an independent account of what the header means. */
module GzipParse {
  import opened Common
  import opened GzipHeader

  datatype Parsed = Parsed(head: GzHead, xfl: byte, length: nat)

  /** Where the first zero byte from `p` on stands. */
  function ZeroAt(s: seq<byte>, p: nat): (z: nat)
    requires p <= |s|
    ensures p <= z <= |s|
    decreases |s| - p
  {
    if p == |s| || s[p] == 0 then p else ZeroAt(s, p + 1)
  }

  /** Two bytes, least significant first. */
  function Little16(low: nat, high: nat): nat {
    low + 256 * high
  }

  function ParseExtra(s: seq<byte>, present: bool): (r: Option<(Option<seq<byte>>, nat)>)
    requires |s| >= 10
    ensures r.Some? ==> r.value.1 <= |s|
  {
    if !present then Some((None, 10))
    else if |s| < 12 || 12 + Little16(s[10], s[11]) > |s| then None
    else var len := Little16(s[10], s[11]); Some((Some(s[12..12 + len]), 12 + len))
  }

  function ParseString(s: seq<byte>, p: nat, present: bool): (r: Option<(Option<seq<byte>>, nat)>)
    requires p <= |s|
    ensures r.Some? ==> r.value.1 <= |s|
  {
    if !present then Some((None, p))
    else if ZeroAt(s, p) == |s| then None
    else Some((Some(s[p..ZeroAt(s, p)]), ZeroAt(s, p) + 1))
  }

  /** The CRC16 is checked against the CRC32 of all header bytes before it. */
  function ParseCrc(s: seq<byte>, p: nat, present: bool): Option<nat>
    requires p <= |s|
  {
    if !present then Some(p)
    else if p + 2 <= |s| && s[p..p + 2] == Crc16(Checksum(0, s[..p])) then Some(p + 2)
    else None
  }

  function Parse(s: seq<byte>): Option<Parsed> {
    if |s| < 10 || s[0] != 31 || s[1] != 139 || s[2] != 8 || s[3] >= 32 then None else
    var flags := s[3];
    match ParseExtra(s, flags / 4 % 2 == 1)
    case None => None
    case Some((extra, p)) =>
      match ParseString(s, p, flags / 8 % 2 == 1)
      case None => None
      case Some((name, q)) =>
        match ParseString(s, q, flags / 16 % 2 == 1)
        case None => None
        case Some((comment, r)) =>
          match ParseCrc(s, r, flags / 2 % 2 == 1)
          case None => None
          case Some(end) =>
            var time := Little16(s[4], s[5]) + 0x1_0000 * Little16(s[6], s[7]);
            Some(Parsed(GzHead(flags % 2 == 1, time, s[9], extra, name, comment, flags / 2 % 2 == 1), s[8], end))
  }

  lemma {:induction false} ZeroFound(s: seq<byte>, p: nat, n: nat)
    requires p + n < |s| && s[p + n] == 0 && forall i :: p <= i < p + n ==> s[i] != 0
    ensures ZeroAt(s, p) == p + n
    decreases n
  {
    if n > 0 {
      ZeroFound(s, p + 1, n - 1);
    }
  }

  lemma StringReads(s: seq<byte>, p: nat, str: Option<seq<byte>>)
    requires str.Some? ==> p + |str.value| + 1 <= |s| && s[p..p + |str.value| + 1] == str.value + [0] && 0 !in str.value
    requires p <= |s|
    ensures ParseString(s, p, str.Some?) == Some((str, p + if str.Some? then |str.value| + 1 else 0))
  {
    if str.Some? {
      var n := |str.value|;
      forall i | p <= i < p + n
        ensures s[i] == str.value[i - p]
      {
        assert s[i] == s[p..p + n + 1][i - p];
      }
      assert s[p + n] == s[p..p + n + 1][n];
      ZeroFound(s, p, n);
      assert s[p..p + n] == str.value;
    }
  }

  lemma FlagBits(h: GzHead)
    ensures var f := h.Flags();
      && (f % 2 == 1) == h.text && (f / 2 % 2 == 1) == h.hcrc && (f / 4 % 2 == 1) == h.extra.Some?
      && (f / 8 % 2 == 1) == h.name.Some? && (f / 16 % 2 == 1) == h.comment.Some?
  {
  }

  lemma TimeReads(time: nat)
    requires time < 0x1_0000_0000
    ensures time % 256 + 0x100 * (time / 0x100 % 256) + 0x1_0000 * (time / 0x1_0000 % 256) + 0x100_0000 * (time / 0x100_0000 % 256) == time
  {
  }

  lemma LengthReads(n: nat)
    ensures n % 256 + 256 * (n / 256 % 256) == n % 65536
  {
    var q := n / 256;
    assert n == 256 * q + n % 256 && q == 256 * (q / 256) + q % 256;
    assert n == 65536 * (q / 256) + (256 * (q % 256) + n % 256);
  }

  /** What a reader gets of the header record: the extra field is cut to the length that 16 bits can name. */
  function Visible(h: GzHead): GzHead {
    h.(extra := if h.extra.Some? then Some(h.Extra()) else None)
  }

  lemma ExtraReads(s: seq<byte>, h: GzHead, xfl: byte)
    requires var fixed := h.Fixed(xfl) + h.ExtraLength();
      |s| >= |fixed| + |h.Extra()| && s[0..|fixed|] == fixed && s[|fixed|..|fixed| + |h.Extra()|] == h.Extra()
    ensures ParseExtra(s, h.extra.Some?) == Some((Visible(h).extra, 10 + |h.ExtraLength()| + |h.Extra()|))
  {
    if h.extra.Some? {
      var fixed := h.Fixed(xfl) + h.ExtraLength();
      LengthReads(|h.extra.value|);
      assert s[10] == fixed[10] == h.ExtraLength()[0] && s[11] == fixed[11] == h.ExtraLength()[1];
    }
  }

  lemma FixedReads(s: seq<byte>, h: GzHead, xfl: byte)
    requires |s| >= 10 && s[..10] == h.Fixed(xfl)
    ensures s[0] == 31 && s[1] == 139 && s[2] == 8 && s[3] == h.Flags() && s[8] == xfl && s[9] == h.os
    ensures s[4] == h.time % 256 && s[5] == h.time / 0x100 % 256 && s[6] == h.time / 0x1_0000 % 256 && s[7] == h.time / 0x100_0000 % 256
  {
    assert forall i :: 0 <= i < 10 ==> s[i] == s[..10][i];
  }

  lemma Laid(h: GzHead, xfl: byte, rest: seq<byte>)
    ensures var f, e, n, c, s := h.Fixed(xfl) + h.ExtraLength(), h.Extra(), h.Name(), h.Comment(), h.Header(xfl) + rest;
      && |s| >= |f| + |e| + |n| + |c|
      && s[0..|f|] == f && s[..10] == h.Fixed(xfl) && s[|f|..|f| + |e|] == e
      && s[|f| + |e|..|f| + |e| + |n|] == n && s[|f| + |e| + |n|..|f| + |e| + |n| + |c|] == c
      && |h.Body(xfl)| == |f| + |e| + |n| + |c|
  {
    hide Checksum, Crc16, GzHead.Fixed, GzHead.Extra, GzHead.ExtraLength, GzHead.Name, GzHead.Comment;
    var f, e, n, c := h.Fixed(xfl) + h.ExtraLength(), h.Extra(), h.Name(), h.Comment();
    var crc := if h.hcrc then Crc16(Checksum(0, h.Body(xfl))) else [];
    var s := h.Header(xfl) + rest;
    FiveParts(f, e, n, c, crc + rest);
    assert s == f + e + n + c + (crc + rest);
    assert s[..10] == s[0..|f|][..10];
  }

  lemma NamesRead(h: GzHead, xfl: byte, rest: seq<byte>)
    requires h.WellFormed()
    ensures var s, p := h.Header(xfl) + rest, 10 + |h.ExtraLength()| + |h.Extra()|;
      && p + |h.Name()| + |h.Comment()| <= |s|
      && ParseString(s, p, h.name.Some?) == Some((h.name, p + |h.Name()|))
      && ParseString(s, p + |h.Name()|, h.comment.Some?) == Some((h.comment, p + |h.Name()| + |h.Comment()|))
      && p + |h.Name()| + |h.Comment()| == |h.Body(xfl)|
  {
    hide ParseString, GzHead.Body, GzHead.Header, GzHead.Fixed, GzHead.Extra, GzHead.ExtraLength;
    Laid(h, xfl, rest);
    var s, p := h.Header(xfl) + rest, 10 + |h.ExtraLength()| + |h.Extra()|;
    StringReads(s, p, h.name);
    StringReads(s, p + |h.Name()|, h.comment);
  }

  /** The header written is read back, whatever follows it. */
  lemma HeaderRoundTrip(h: GzHead, xfl: byte, rest: seq<byte>)
    requires h.WellFormed()
    ensures Parse(h.Header(xfl) + rest) == Some(Parsed(Visible(h), xfl, |h.Header(xfl)|))
  {
    hide ParseExtra, ParseString, ParseCrc, GzHead.Header, GzHead.Fixed, GzHead.Extra, GzHead.ExtraLength, GzHead.Name,
         GzHead.Comment, GzHead.Body, GzHead.Flags;
    var s := h.Header(xfl) + rest;
    Laid(h, xfl, rest);
    FixedReads(s, h, xfl);
    FlagBits(h);
    TimeReads(h.time);
    ExtraReads(s, h, xfl);
    NamesRead(h, xfl, rest);
    CrcReads(h, xfl, rest);
  }

  lemma CrcReads(h: GzHead, xfl: byte, rest: seq<byte>)
    ensures ParseCrc(h.Header(xfl) + rest, |h.Body(xfl)|, h.hcrc) == Some(|h.Header(xfl)|)
  {
    hide Checksum, Crc16, GzHead.Body;
    var s, p := h.Header(xfl) + rest, |h.Body(xfl)|;
    assert s[..p] == h.Body(xfl);
    if h.hcrc {
      assert s[p..p + 2] == Crc16(Checksum(0, h.Body(xfl)));
    }
  }
}
