/** The gzip header states of deflate, for any header record and any schedule of output space, against section 2.3 of
    RFC 1952. */
module GzipHeader {
  import opened Common
  import opened StoredStream
  import opened Zlib
  import Crc32

  const OS_CODE: byte := 3

  // The header of section 2.3.

  /** gz_header as the client sets it. Name and comment end at their first zero byte. */
  datatype GzHead = GzHead(text: bool, time: nat, os: byte, extra: Option<seq<byte>>, name: Option<seq<byte>>,
                           comment: Option<seq<byte>>, hcrc: bool) {
    predicate WellFormed() {
      && time < 0x1_0000_0000
      && (name.Some? ==> 0 !in name.value) && (comment.Some? ==> 0 !in comment.value)
    }

    /** FTEXT, FHCRC, FEXTRA, FNAME and FCOMMENT. */
    function Flags(): (r: nat)
      ensures r < 32
    {
      (if text then 1 else 0) + (if hcrc then 2 else 0) + (if extra.Some? then 4 else 0) + (if name.Some? then 8 else 0) +
      (if comment.Some? then 16 else 0)
    }

    /** ID1, ID2, CM, FLG, MTIME, XFL and OS. */
    function Fixed(xfl: byte): (r: seq<byte>)
      ensures |r| == 10
    {
      [31, 139, 8, Flags(), time % 256, time / 0x100 % 256, time / 0x1_0000 % 256, time / 0x100_0000 % 256, xfl, os]
    }

    /** The bytes of the extra field that are written: its length is cut to 16 bits. */
    function Extra(): (r: seq<byte>)
      ensures |r| < 65536
    {
      if extra.Some? then extra.value[..|extra.value| % 65536] else []
    }

    function ExtraLength(): seq<byte> {
      if extra.Some? then [|extra.value| % 256, |extra.value| / 256 % 256] else []
    }

    function Name(): (r: seq<byte>)
      ensures name.Some? ==> |r| >= 1
    {
      if name.Some? then name.value + [0] else []
    }

    function Comment(): (r: seq<byte>)
      ensures comment.Some? ==> |r| >= 1
    {
      if comment.Some? then comment.value + [0] else []
    }

    /** Everything that the CRC16 covers. */
    function Body(xfl: byte): seq<byte> {
      Fixed(xfl) + ExtraLength() + Extra() + Name() + Comment()
    }

    function Header(xfl: byte): seq<byte> {
      Body(xfl) + if hcrc then Crc16(Checksum(0, Body(xfl))) else []
    }
  }

  /** The header when the client gave none. */
  function PlainHeader(xfl: byte): (r: seq<byte>)
    ensures |r| == 10
  {
    [31, 139, 8, 0, 0, 0, 0, 0, xfl, OS_CODE]
  }

  function Words(s: seq<byte>): (r: seq<bv8>)
    ensures |r| == |s|
  {
    seq(|s|, i requires 0 <= i < |s| => s[i] as bv8)
  }

  /** crc32 on from `crc`. */
  function Checksum(crc: bv32, s: seq<byte>): bv32 {
    Crc32.Crc(crc, Words(s))
  }

  lemma ChecksumConcat(crc: bv32, a: seq<byte>, b: seq<byte>)
    ensures Checksum(Checksum(crc, a), b) == Checksum(crc, a + b)
  {
    hide Crc32.Crc;
    Crc32.CrcConcat(crc, Words(a), Words(b));
    assert Words(a) + Words(b) == Words(a + b);
  }

  function LowByte(crc: bv32): byte {
    (crc & 0xff) as int
  }

  function SecondByte(crc: bv32): byte {
    ((crc >> 8) & 0xff) as int
  }

  /** The two least significant bytes of the CRC32. */
  function Crc16(crc: bv32): (r: seq<byte>)
    ensures |r| == 2
  {
    [LowByte(crc), SecondByte(crc)]
  }

  datatype State = GzipState | ExtraState | NameState | CommentState | HcrcState | Busy

  class Writer {
    /** The stream and its pending output. */
    const s: Stream
    const head: Option<GzHead>
    const xfl: byte
    var status: State
    var gzindex: nat
    var adler: bv32
    var lastFlush: int

    /** Header bytes put so far, and how many of them the running checksum covers. */
    ghost var at: nat
    ghost var covered: nat

    constructor (s0: Stream, head0: Option<GzHead>, xfl0: byte)
      requires s0.BufferOk() && s0.biValid == 0 && s0.pendingBuf.Length >= 512 && s0.pending == 0 && s0.output == []
      requires head0.Some? ==> head0.value.WellFormed()
      ensures Between() && at == 0 && s == s0 && head == head0 && xfl == xfl0 && status == GzipState
    {
      s, head, xfl := s0, head0, xfl0;
      status, gzindex, adler, lastFlush, at, covered := GzipState, 0, 0, 0, 0, 0;
    }

    ghost function Target(): seq<byte> {
      if head.Some? then head.value.Header(xfl) else PlainHeader(xfl)
    }

    /** Where the current state starts in the header. */
    ghost function StateStart(): nat
      requires head.Some?
      reads this`status
    {
      var h := head.value;
      match status
      case GzipState => 0
      case ExtraState => 10 + |h.ExtraLength()|
      case NameState => 10 + |h.ExtraLength()| + |h.Extra()|
      case CommentState => 10 + |h.ExtraLength()| + |h.Extra()| + |h.Name()|
      case HcrcState => |h.Body(xfl)|
      case Busy => |h.Header(xfl)|
    }

    /** What a state has to put. */
    function StateBytes(): seq<byte>
      requires head.Some?
      reads this`status
    {
      var h := head.value;
      match status
      case GzipState => h.Fixed(xfl) + h.ExtraLength()
      case ExtraState => h.Extra()
      case NameState => h.Name()
      case CommentState => h.Comment()
      case HcrcState => if h.hcrc then Crc16(Checksum(0, h.Body(xfl))) else []
      case Busy => []
    }

    ghost predicate Buffer()
      reads s`pendingOut, s`pending, s`biBuf, s`biValid
    {
      s.BufferOk() && s.biValid == 0 && s.pendingBuf.Length >= 512
    }

    /** The bytes put so far start the header, and the state and its index say how many there are. */
    ghost predicate Going()
      reads this`status, this`gzindex, this`adler, this`at, this`covered, s`pendingOut, s`pending, s`biBuf, s`biValid, s`output, s.pendingBuf
    {
      && Buffer() && at <= |Target()| && s.Sent() == Target()[..at]
      && (if head.Some? then
            head.value.WellFormed() && at == StateStart() + gzindex && gzindex <= |StateBytes()|
          else
            status in {GzipState, Busy} && at == if status == Busy then 10 else 0)
      && (status == GzipState ==> gzindex == 0 && s.pending == 0)
      && covered <= at
      && (head.Some? && head.value.hcrc && status !in {GzipState, Busy} ==> adler == Checksum(0, Target()[..covered]))
    }

    /** The checksum covers all that was put. */
    ghost predicate Covered()
      reads this`status, this`gzindex, this`adler, this`at, this`covered, s`pendingOut, s`pending, s`biBuf, s`biValid, s`output, s.pendingBuf
    {
      Going() && (status !in {GzipState, Busy} ==> covered == at)
    }

    /** Between two calls, besides, a string that was begun is not yet at its end. */
    ghost predicate Valid()
      reads this`status, this`gzindex, this`adler, this`at, this`covered, s`pendingOut, s`pending, s`biBuf, s`biValid, s`output, s.pendingBuf
    {
      && Covered()
      && (head.Some? ==>
           && (status == NameState && head.value.name.Some? ==> gzindex < |StateBytes()|)
           && (status == CommentState && head.value.comment.Some? ==> gzindex < |StateBytes()|)
           && (status == HcrcState ==> gzindex == 0))
    }

    /** The bytes of the current state stand in the header where the state starts. */
    lemma StatePlaced()
      requires head.Some?
      ensures StateStart() + |StateBytes()| <= |Target()|
      ensures Target()[StateStart()..StateStart() + |StateBytes()|] == StateBytes()
    {
      hide Checksum, Crc16, GzHead.Fixed, GzHead.Extra, GzHead.ExtraLength, GzHead.Name, GzHead.Comment;
      var h := head.value;
      var crc := if h.hcrc then Crc16(Checksum(0, h.Body(xfl))) else [];
      FiveParts(h.Fixed(xfl) + h.ExtraLength(), h.Extra(), h.Name(), h.Comment(), crc);
      assert h.Header(xfl) == h.Body(xfl) + crc;
    }

    /** memcpy to the pending output. */
    method PutBytes(bytes: seq<byte>)
      requires Buffer() && s.pendingOut == 0 && s.pending + |bytes| <= s.pendingBuf.Length
      modifies s`pending, s.pendingBuf
      ensures Buffer() && s.pendingOut == 0 && s.pending == old(s.pending) + |bytes| && s.Sent() == old(s.Sent()) + bytes
    {
      hide Pow2;
      forall i | 0 <= i < |bytes| {
        s.pendingBuf[s.pending + i] := bytes[i];
      }
      s.pending := s.pending + |bytes|;
      assert s.pendingBuf[..s.pending] == old(s.pendingBuf[..s.pending]) + bytes;
    }

    /** What can be put before the pending output is full, and then again, until `beg` to the end is one run. */
    ghost predicate Filling(beg: nat)
      reads this`status, this`gzindex, this`adler, this`at, this`covered, s`pendingOut, s`pending, s`biBuf, s`biValid, s`output, s.pendingBuf
    {
      Going() && head.Some? && status !in {GzipState, Busy} && s.pendingOut == 0 && beg <= s.pending && at - covered == s.pending - beg
    }

    lemma FillingStarts()
      requires Covered() && head.Some? && s.pendingOut == 0 && status !in {GzipState, Busy}
      ensures Filling(s.pending) && gzindex <= |StateBytes()| && s.pending <= s.pendingBuf.Length && 512 <= s.pendingBuf.Length
    {
    }

    /** HCRC_UPDATE. */
    method HcrcUpdate(beg: nat)
      requires Filling(beg)
      modifies this`adler, this`covered
      ensures Covered()
    {
      hide Checksum, Pow2, GzHead.WellFormed;
      ghost var part := s.pendingBuf[beg..s.pending];
      assert part == s.Sent()[covered..at];
      PartCovered(Target(), covered, at);
      if head.value.hcrc && s.pending > beg {
        adler := Checksum(adler, s.pendingBuf[beg..s.pending]);
      }
      covered := at;
    }

    /** flush_pending in the middle of a state; false when the output is full and the call must end. */
    method FlushInState() returns (go: bool)
      requires Covered() && status !in {GzipState, Busy}
      modifies s`pending, s`pendingOut, s`output, s`availOut, s`biBuf, s`biValid, s.pendingBuf
      ensures Covered() && (go ==> s.pending == 0 == s.pendingOut && (head.Some? ==> Filling(0))) && (!go ==> s.availOut == 0)
      ensures |s.output| + s.availOut == |old(s.output)| + old(s.availOut)
    {
      hide Pow2, Checksum, GzHead.WellFormed;
      s.FlushPending();
      go := s.pending == 0;
    }

    /** Bytes of the current state, taken on from the index reached. */
    method PutOn(n: nat, ghost beg: nat)
      requires Filling(beg)
      requires gzindex + n <= |StateBytes()| && s.pending + n <= s.pendingBuf.Length
      modifies s`pending, s.pendingBuf, this`gzindex, this`at
      ensures Filling(beg) && s.pendingOut == 0 && s.pending == old(s.pending) + n && gzindex == old(gzindex) + n
    {
      hide Target, StateStart, StateBytes, Checksum, GzHead.WellFormed;
      StatePlaced();
      var bytes := StateBytes()[gzindex..gzindex + n];
      TargetGrows(Target(), StateStart(), |StateBytes()|, gzindex, n);
      PutBytes(bytes);
      gzindex := gzindex + n;
      at := at + n;
    }

    lemma NothingSent()
      requires Covered() && status == GzipState && head.Some?
      ensures at == 0 && s.Sent() == [] && s.pending == s.pendingOut == 0
    {
      hide Checksum, GzHead.WellFormed;
    }

    /** The fixed fields and the length of the extra field. */
    method PutFixedBytes(h: GzHead)
      requires Buffer() && s.pendingBuf.Length >= 512 && s.pending == s.pendingOut == 0 && s.Sent() == []
      modifies s`pending, s.pendingBuf
      ensures Buffer() && s.pendingOut == 0 && s.Sent() == h.Fixed(xfl) + h.ExtraLength() && s.pending == 10 + |h.ExtraLength()|
    {
      hide Buffer, GzHead.Flags;
      PutBytes([31, 139, 8, h.Flags(), h.time % 256, h.time / 0x100 % 256, h.time / 0x1_0000 % 256, h.time / 0x100_0000 % 256, xfl, h.os]);
      if h.extra.Some? {
        PutBytes([|h.extra.value| % 256, |h.extra.value| / 256 % 256]);
      }
    }

    /** GZIP_STATE with a header record. */
    method PutFixed()
      requires Covered() && status == GzipState && head.Some?
      modifies s`pending, s.pendingBuf, this`status, this`adler, this`at, this`covered
      ensures Valid() && status == ExtraState && gzindex == 0 && s.pendingOut == 0
    {
      hide Pow2, Checksum, GzHead.Fixed, GzHead.Extra, GzHead.ExtraLength, GzHead.Name, GzHead.Comment, GzHead.WellFormed,
           GzHead.Flags;
      var h := head.value;
      StatePlaced();
      NothingSent();
      PutFixedBytes(h);
      adler := 0;
      if h.hcrc {
        NothingSummed(adler);
        adler := Checksum(adler, s.pendingBuf[..s.pending]);
      }
      assert s.pendingBuf[..s.pending] == s.Sent();
      at := 10 + |h.ExtraLength()|;
      covered := at;
      status := ExtraState;
    }

    /** EXTRA_STATE; false when the output is full. */
    method ExtraPart() returns (go: bool)
      requires Covered() && status == ExtraState && head.Some? && s.pendingOut == 0
      modifies s`pending, s`pendingOut, s`output, s`availOut, s`biBuf, s`biValid, s.pendingBuf, this`status, this`gzindex,
               this`adler, this`at, this`covered
      ensures Valid() && (go ==> status == NameState && gzindex == 0 && s.pendingOut == 0)
      ensures !go ==> s.availOut == 0 && status == ExtraState
      ensures |s.output| + s.availOut == |old(s.output)| + old(s.availOut)
    {
      hide Going, Buffer, Checksum;
      FillingStarts();
      if head.value.extra.Some? {
        go := ExtraLoop();
        if !go { return; }
      }
      go := true;
      EnterState(NameState);
    }

    method ExtraLoop() returns (go: bool)
      requires Covered() && status == ExtraState && head.Some? && s.pendingOut == 0
      modifies s`pending, s`pendingOut, s`output, s`availOut, s`biBuf, s`biValid, s.pendingBuf, this`gzindex, this`adler,
               this`at, this`covered
      ensures Covered() && (go ==> gzindex == |StateBytes()| && s.pendingOut == 0) && (!go ==> s.availOut == 0)
      ensures |s.output| + s.availOut == |old(s.output)| + old(s.availOut)
    {
      hide Going, Filling, Buffer, StateBytes;
      FillingStarts();
      var beg: nat, left: nat := s.pending, |StateBytes()| - gzindex;
      while s.pending + left > s.pendingBuf.Length
        invariant s.pending <= s.pendingBuf.Length && Filling(beg) && status == ExtraState && left == |StateBytes()| - gzindex
        invariant |s.output| + s.availOut == |old(s.output)| + old(s.availOut)
        decreases left, s.pending
      {
        var copy: nat := s.pendingBuf.Length - s.pending;
        PutOn(copy, beg);
        HcrcUpdate(beg);
        go := FlushInState();
        if !go { return; }
        beg := 0;
        left := left - copy;
      }
      PutOn(left, beg);
      HcrcUpdate(beg);
      go := true;
    }

    /** The next state begins where a completed one ends. */
    method EnterState(next: State)
      requires Covered() && head.Some? && gzindex == |StateBytes()|
      requires (status, next) in {(ExtraState, NameState), (NameState, CommentState), (CommentState, HcrcState)}
      modifies this`status, this`gzindex
      ensures Valid() && status == next && gzindex == 0
    {
      hide Target, Checksum, GzHead.WellFormed, Buffer, GzHead.Fixed, GzHead.ExtraLength, GzHead.Extra, GzHead.Name, GzHead.Comment;
      assert |head.value.Fixed(xfl)| == 10;
      status := next;
      gzindex := 0;
    }

    /** NAME_STATE and COMMENT_STATE: a string with the zero byte that ends it; false when the output is full. */
    method StringPart(present: bool, next: State) returns (go: bool)
      requires Covered() && head.Some? && s.pendingOut == 0 && (status, next) in {(NameState, CommentState), (CommentState, HcrcState)}
      requires if present then EndsInZero(StateBytes(), gzindex) else gzindex == |StateBytes()| == 0
      modifies s`pending, s`pendingOut, s`output, s`availOut, s`biBuf, s`biValid, s.pendingBuf, this`status, this`gzindex,
               this`adler, this`at, this`covered
      ensures (go ==> Valid() && status == next && gzindex == 0 && s.pendingOut == 0)
      ensures !go ==> Covered() && s.availOut == 0 && status == old(status) && gzindex < |StateBytes()|
      ensures |s.output| + s.availOut == |old(s.output)| + old(s.availOut)
    {
      hide Going, Buffer, Checksum, EndsInZero, StateBytes;
      if present {
        go := StringLoop();
        if !go { return; }
      }
      go := true;
      EnterState(next);
    }

    method StringLoop() returns (go: bool)
      requires Covered() && head.Some? && s.pendingOut == 0 && status in {NameState, CommentState} && EndsInZero(StateBytes(), gzindex)
      modifies s`pending, s`pendingOut, s`output, s`availOut, s`biBuf, s`biValid, s.pendingBuf, this`gzindex, this`adler,
               this`at, this`covered
      ensures Covered() && (go ==> gzindex == |StateBytes()| && s.pendingOut == 0) && (!go ==> s.availOut == 0 && gzindex < |StateBytes()|)
      ensures |s.output| + s.availOut == |old(s.output)| + old(s.availOut)
    {
      hide Going, Filling, Buffer, StateBytes;
      FillingStarts();
      var beg := s.pending;
      while true
        invariant s.pending <= s.pendingBuf.Length && Filling(beg) && status == old(status) && EndsInZero(StateBytes(), gzindex)
        invariant |s.output| + s.availOut == |old(s.output)| + old(s.availOut)
        decreases |StateBytes()| - gzindex
      {
        if s.pending == s.pendingBuf.Length {
          HcrcUpdate(beg);
          go := FlushInState();
          if !go { return; }
          beg := 0;
        }
        var val := StateBytes()[gzindex];
        PutOn(1, beg);
        if val == 0 { break; }
      }
      HcrcUpdate(beg);
      go := true;
    }

    /** HCRC_STATE: the CRC16 of all that came before; false when the output is full. */
    method HcrcPart() returns (go: bool)
      requires Covered() && status == HcrcState && head.Some? && s.pendingOut == 0 && gzindex == 0
      modifies s`pending, s`pendingOut, s`output, s`availOut, s`biBuf, s`biValid, s.pendingBuf, this`status, this`adler, this`at
      ensures Valid() && (go ==> status == Busy && at == |Target()|) && (!go ==> s.availOut == 0)
      ensures |s.output| + s.availOut == |old(s.output)| + old(s.availOut)
    {
      hide Going, Buffer, Checksum;
      FillingStarts();
      if head.value.hcrc {
        if s.pending + 2 > s.pendingBuf.Length {
          go := FlushInState();
          if !go { return; }
        }
        PutCrc();
      } else {
        Skip();
      }
      go := true;
    }

    method PutCrc()
      requires Covered() && status == HcrcState && head.Some? && head.value.hcrc && s.pendingOut == 0 && gzindex == 0
      requires s.pending + 2 <= s.pendingBuf.Length
      modifies s`pending, s.pendingBuf, this`status, this`adler, this`at
      ensures Valid() && status == Busy && at == |Target()|
    {
      hide Checksum, LowByte, SecondByte, Pow2, GzHead.Body, GzHead.WellFormed;
      var h := head.value;
      assert Target() == h.Body(xfl) + Crc16(Checksum(0, h.Body(xfl)));
      assert Target()[..at] == h.Body(xfl);
      PutBytes([LowByte(adler), SecondByte(adler)]);
      adler := 0;
      at := at + 2;
      status := Busy;
      assert Target()[..at] == Target();
    }

    method Skip()
      requires Covered() && status == HcrcState && head.Some? && !head.value.hcrc && gzindex == 0
      modifies this`status
      ensures Valid() && status == Busy && at == |Target()|
    {
      hide Checksum, GzHead.Body, GzHead.WellFormed;
      assert head.value.Header(xfl) == head.value.Body(xfl);
      status := Busy;
    }

    /** GZIP_STATE without a header record. */
    method PutPlain()
      requires Covered() && status == GzipState && head == None
      modifies s`pending, s.pendingBuf, this`status, this`adler, this`at
      ensures Valid() && status == Busy && at == |Target()|
    {
      hide Checksum, Pow2;
      adler := 0;
      PutBytes([31, 139, 8, 0, 0, 0, 0, 0, xfl, OS_CODE]);
      status := Busy;
      at := 10;
    }

    /** The states of a header record, from the one that was reached; false when the output is full. */
    method RecordStates() returns (go: bool)
      requires Valid() && head.Some? && status !in {GzipState, Busy} && s.pendingOut == 0
      modifies s`pending, s`pendingOut, s`output, s`availOut, s`biBuf, s`biValid, s.pendingBuf, this`status, this`gzindex,
               this`adler, this`at, this`covered
      ensures Valid() && (go ==> status == Busy && at == |Target()|) && (!go ==> s.availOut == 0)
      ensures |s.output| + s.availOut == |old(s.output)| + old(s.availOut)
    {
      hide Going, Checksum, GzHead.Body;
      if status == ExtraState {
        go := ExtraPart();
        if !go { return; }
      }
      if status == NameState {
        StringStarts();
        go := StringPart(head.value.name.Some?, CommentState);
        if !go { return; }
      }
      if status == CommentState {
        StringStarts();
        go := StringPart(head.value.comment.Some?, HcrcState);
        if !go { return; }
      }
      go := HcrcPart();
    }

    lemma AtBoundary()
      requires Valid() && s.pending == 0
      ensures s.pendingOut == 0 && (head == None ==> status in {GzipState, Busy})
    {
    }

    lemma StringStarts()
      requires Valid() && head.Some? && status in {NameState, CommentState}
      ensures var present := if status == NameState then head.value.name.Some? else head.value.comment.Some?;
        if present then EndsInZero(StateBytes(), gzindex) else gzindex == |StateBytes()| == 0
    {
    }

    /** The header states of deflate; true when the header is out and compression may start. */
    method WriteHeader() returns (done: bool)
      requires Valid() && s.pending == 0 && status != Busy
      modifies s`pending, s`pendingOut, s`output, s`availOut, s`biBuf, s`biValid, s.pendingBuf, this`status, this`gzindex,
               this`adler, this`at, this`covered
      ensures Valid() && (done ==> status == Busy && at == |Target()| && s.pending == 0) && (!done ==> s.availOut == 0)
      ensures |s.output| + s.availOut == |old(s.output)| + old(s.availOut)
    {
      hide Covered;
      AtBoundary();
      var go := true;
      if status == GzipState && head == None {
        PutPlain();
      } else {
        if status == GzipState {
          PutFixed();
          go := RecordStates();
        } else {
          go := RecordStates();
        }
      }
      if !go { return false; }
      done := FlushHeader();
    }

    method FlushHeader() returns (done: bool)
      requires Valid() && status == Busy
      modifies s`pending, s`pendingOut, s`output, s`availOut, s`biBuf, s`biValid, s.pendingBuf
      ensures Valid() && done == (s.pending == 0) && (!done ==> s.availOut == 0)
      ensures |s.output| + s.availOut == |old(s.output)| + old(s.availOut)
    {
      hide Checksum, GzHead.WellFormed, Pow2;
      s.FlushPending();
      done := s.pending == 0;
    }

    /** Between two calls: until something is out nothing was begun, and then, until all is out, the last call is one that
        may be repeated. */
    ghost predicate Between()
      reads this, s`pendingOut, s`pending, s`biBuf, s`biValid, s`output, s.pendingBuf
    {
      && Valid()
      && if s.output == [] then status == GzipState && lastFlush == FlushCode(NoFlush)
         else |s.output| < |Target()| ==> lastFlush == -1
    }

    /** A call with room for `room` bytes that deflate refuses, before the header is out: one without room, or the first one
        with neither input nor a flush. */
    lemma Refused(flush: Flush, availIn: nat, room: nat)
      requires Between() && |s.output| < |Target()|
      ensures Entry(InitState, flush, lastFlush, availIn, room, s.pending) == Some(BufError) <==>
        room == 0 || (s.output == [] && flush == NoFlush && availIn == 0)
    {
      hide Covered;
      if s.output == [] { NothingBegun(); }
    }

    lemma NothingBegun()
      requires Between() && s.output == []
      ensures s.pending == 0
    {
      hide Checksum, GzHead.WellFormed;
    }

    /** One call of deflate with room for `room` bytes, as far as the header goes: nothing is returned where compression
        would start. */
    method Call(flush: Flush, availIn: nat, room: nat) returns (r: Option<ReturnCode>)
      requires Between()
      modifies s`pending, s`pendingOut, s`output, s`availOut, s`biBuf, s`biValid, s.pendingBuf, this`status, this`gzindex,
               this`adler, this`lastFlush, this`at, this`covered
      ensures Between() && s.output == Target()[..|s.output|]
      ensures if old(Entry(InitState, flush, lastFlush, availIn, room, s.pending)) == Some(BufError)
              then r == Some(BufError) && s.output == old(s.output)
              else |s.output| == Min(|old(s.output)| + room, |Target()|) && r in {None, Some(Ok)}
      ensures r == None ==> |s.output| == |Target()|
    {
      hide Covered, Valid;
      s.availOut := room;
      OutputStartsHeader();
      if room == 0 { return Some(BufError); }
      var oldFlush := lastFlush;
      lastFlush := FlushCode(flush);
      if s.pending != 0 {
        FlushPart();
        OutputStartsHeader();
        if s.availOut == 0 {
          lastFlush := -1;
          return Some(Ok);
        }
      } else if availIn == 0 && Rank(FlushCode(flush)) <= Rank(oldFlush) && flush != Finish {
        return Some(BufError);
      }
      if status != Busy {
        var done := WriteHeader();
        if !done {
          lastFlush := -1;
          r := Some(Ok);
        } else {
          r := None;
        }
      } else {
        AllPut();
        r := None;
      }
      OutputStartsHeader();
    }

    /** flush_pending at the start of a call. */
    method FlushPart()
      requires Valid() && s.pending != 0
      modifies s`pending, s`pendingOut, s`output, s`availOut, s`biBuf, s`biValid, s.pendingBuf
      ensures Valid() && (s.availOut > 0 ==> s.pending == 0) && |s.output| + s.availOut == |old(s.output)| + old(s.availOut)
    {
      hide Checksum, GzHead.WellFormed, Pow2;
      s.FlushPending();
    }

    /** What the client has got is the start of the header; it is all of it when nothing is left to put or pending. */
    lemma OutputStartsHeader()
      requires Valid()
      ensures |s.output| <= |Target()| && s.output == Target()[..|s.output|]
      ensures at == |Target()| && s.pending == 0 ==> |s.output| == |Target()|
    {
      hide Checksum, GzHead.WellFormed;
      assert s.output == s.Sent()[..|s.output|];
    }

    lemma TargetStarts()
      ensures |Target()| >= 10
    {
    }

    lemma AllPut()
      requires Valid() && status == Busy
      ensures at == |Target()|
    {
    }
  }

  lemma PartCovered(target: seq<byte>, from: nat, to: nat)
    requires from <= to <= |target|
    ensures Checksum(Checksum(0, target[..from]), target[..to][from..to]) == Checksum(0, target[..to])
  {
    hide Checksum;
    ChecksumConcat(0, target[..from], target[..to][from..to]);
    assert target[..from] + target[..to][from..to] == target[..to];
  }

  lemma FiveParts(a: seq<byte>, b: seq<byte>, c: seq<byte>, d: seq<byte>, e: seq<byte>)
    ensures var t := a + b + c + d + e;
      && t[0..|a|] == a && t[|a|..|a| + |b|] == b && t[|a| + |b|..|a| + |b| + |c|] == c
      && t[|a| + |b| + |c|..|a| + |b| + |c| + |d|] == d && t[|a + b + c + d|..|a + b + c + d| + |e|] == e
  {
  }

  lemma TargetGrows(target: seq<byte>, start: nat, length: nat, index: nat, n: nat)
    requires index + n <= length && start + length <= |target|
    ensures target[..start + index] + target[start..start + length][index..index + n] == target[..start + index + n]
  {
  }

  lemma NothingSummed(crc: bv32)
    requires crc == 0
    ensures Checksum(crc, []) == 0
  {
    assert Crc32.Crc(0, []) == 0 by {
      assert Words([]) == [];
    }
  }

  /** The only zero byte from `i` on is the last one. */
  ghost predicate EndsInZero(s: seq<byte>, i: nat) {
    i < |s| && s[|s| - 1] == 0 && forall j :: i <= j < |s| - 1 ==> s[j] != 0
  }

  /** A call of deflate: what is flushed, how much input there is and how much room. */
  datatype HeaderCall = HeaderCall(flush: Flush, availIn: nat, room: nat)

  /** The room that a sequence of calls gives to the header: that of all calls from the first one that deflate does not refuse. */
  function Space(calls: seq<HeaderCall>): nat {
    if calls == [] then 0
    else
      var before, c := Space(calls[..|calls| - 1]), calls[|calls| - 1];
      before + if before == 0 && c.flush == NoFlush && c.availIn == 0 then 0 else c.room
  }

  /** Whatever the calls, what comes out is the start of the header, as long as the space allows. */
  method AnySchedule(s: Stream, head: Option<GzHead>, xfl: byte, calls: seq<HeaderCall>) returns (w: Writer)
    requires s.BufferOk() && s.biValid == 0 && s.pendingBuf.Length >= 512 && s.pending == 0 && s.output == []
    requires head.Some? ==> head.value.WellFormed()
    modifies s, s.pendingBuf
    ensures s.output == w.Target()[..Min(Space(calls), |w.Target()|)] && w.head == head && w.xfl == xfl
  {
    hide Writer.Valid, Writer.Target, Entry;
    w := new Writer(s, head, xfl);
    var i := 0;
    while i < |calls|
      invariant 0 <= i <= |calls| && w.Between() && w.s == s && w.head == head && w.xfl == xfl && fresh(w)
      invariant |s.output| == Min(Space(calls[..i]), |w.Target()|)
    {
      var c := calls[i];
      assert calls[..i + 1][..i] == calls[..i];
      w.OutputStartsHeader();
      w.TargetStarts();
      if |s.output| < |w.Target()| { w.Refused(c.flush, c.availIn, c.room); }
      var r := w.Call(c.flush, c.availIn, c.room);
      i := i + 1;
    }
    assert calls[..i] == calls;
    w.OutputStartsHeader();
  }
}
