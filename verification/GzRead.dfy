/** The gz reader on files without gzip magic: a buffered, lazily seeking reader against a plain cursor with push-back. */
module GzRead {
  import opened Common

  datatype How = Look | Copy

  datatype Whence = SeekSet | SeekCur

  const MAX_GET := 0x4000_0000
  const INT_MAX := 0x7fff_ffff
  const NEWLINE: byte := 10

  // The plain cursor.

  /** A place in the file, and the bytes pushed back in front of it. */
  datatype Cursor = Cursor(pushed: seq<byte>, at: nat) {
    function Tell(): int {
      at - |pushed|
    }

    /** Everything that reading from here can deliver. */
    function Ahead(file: seq<byte>): seq<byte> {
      pushed + From(file, at)
    }

    function Advance(n: nat): Cursor {
      if n <= |pushed| then Cursor(pushed[n..], at) else Cursor([], at + (n - |pushed|))
    }
  }

  function From(file: seq<byte>, at: nat): seq<byte> {
    if at <= |file| then file[at..] else []
  }

  /** The bytes that gzgets delivers of `ahead`: at most `k`, and none behind the first newline. */
  function Line(ahead: seq<byte>, k: nat): (line: seq<byte>)
    ensures line <= ahead && |line| <= k
  {
    if k == 0 || ahead == [] then []
    else if ahead[0] == NEWLINE then ahead[..1]
    else [ahead[0]] + Line(ahead[1..], k - 1)
  }

  /** What a line is: it has no newline before its end, and it stops early only at a newline or at the end. */
  lemma {:induction false} LineIsLongest(ahead: seq<byte>, k: nat)
    ensures var line := Line(ahead, k);
      && (forall i :: 0 <= i < |line| - 1 ==> line[i] != NEWLINE)
      && (|line| == k || |line| == |ahead| || (line != [] && line[|line| - 1] == NEWLINE))
    decreases k
  {
    if k != 0 && ahead != [] && ahead[0] != NEWLINE {
      LineIsLongest(ahead[1..], k - 1);
    }
  }

  datatype Op = GetC | Read(len: nat) | GetS(size: int) | UngetC(c: int) | Seek(offset: int, whence: Whence) | Rewind | Tell

  datatype Result = Number(value: int) | Bytes(bytes: seq<byte>) | Null

  /** Where a seek asks to go. */
  function Target(c: Cursor, offset: int, whence: Whence): int {
    if whence == SeekSet then offset else c.Tell() + offset
  }

  /** The operations on the plain cursor. */
  function Apply(file: seq<byte>, c: Cursor, op: Op): (Cursor, Result) {
    var ahead := c.Ahead(file);
    match op
    case GetC => if ahead == [] then (c, Number(-1)) else (c.Advance(1), Number(ahead[0]))
    case Read(len) =>
      var n := Min(len, |ahead|);
      (c.Advance(n), Bytes(ahead[..n]))
    case GetS(size) =>
      var line := Line(ahead, Max(size - 1, 0));
      if line == [] then (c, Null) else (c.Advance(|line|), Bytes(line))
    case UngetC(ch) => if ch < 0 then (c, Number(-1)) else (Cursor([ch % 256] + c.pushed, c.at), Number(ch))
    case Seek(offset, whence) =>
      var target := Target(c, offset, whence);
      if target < 0 then (c, Number(-1)) else (Cursor([], target), Number(target))
    case Rewind => (Cursor([], 0), Number(0))
    case Tell => (c, Number(c.Tell()))
  }

  lemma SeekFails(file: seq<byte>, c: Cursor, offset: int, whence: Whence)
    requires Target(c, offset, whence) < 0
    ensures Apply(file, c, Seek(offset, whence)) == (c, Number(-1))
  {
  }

  /** What is left after `n` bytes. */
  lemma AdvanceDrops(file: seq<byte>, c: Cursor, n: nat)
    requires n <= |c.Ahead(file)|
    ensures c.Advance(n).Ahead(file) == c.Ahead(file)[n..] && c.Advance(n).Tell() == c.Tell() + n
  {
  }

  /** The file starts like a gzip file. */
  predicate Magic(file: seq<byte>) {
    |file| >= 2 && file[0] == 31 && file[1] == 139
  }

  /** `bytes` end in the file at `fd`. */
  ghost predicate EndsAt(bytes: seq<byte>, file: seq<byte>, fd: nat) {
    |bytes| <= fd && (bytes != [] ==> fd <= |file| && bytes == file[fd - |bytes|..fd])
  }

  lemma EndsLater(bytes: seq<byte>, more: seq<byte>, file: seq<byte>, fd: nat)
    requires EndsAt(bytes, file, fd)
    requires more != [] ==> fd + |more| <= |file| && more == file[fd..fd + |more|]
    ensures EndsAt(bytes + more, file, fd + |more|)
  {
    if more == [] {
      assert bytes + more == bytes;
    } else {
      assert file[fd - |bytes|..fd + |more|] == file[fd - |bytes|..fd] + file[fd..fd + |more|];
    }
  }

  lemma NothingEnds(file: seq<byte>, fd: nat)
    ensures EndsAt([], file, fd)
  {
  }

  lemma FromSplits(file: seq<byte>, from: nat, to: nat, part: seq<byte>)
    requires from <= to && (to > from ==> to <= |file| && part == file[from..to]) && |part| == to - from
    ensures From(file, from) == part + From(file, to)
  {
  }

  lemma WholeFile(bytes: seq<byte>, file: seq<byte>, fd: nat)
    requires EndsAt(bytes, file, fd) && |bytes| == fd > 0
    ensures bytes + From(file, fd) == file && fd <= |file|
  {
  }

  lemma DropMore(all: seq<byte>, k: nat, a: seq<byte>, b: seq<byte>)
    requires k <= |all| && all[k..] == a + b
    ensures k + |a| <= |all| && b == all[k + |a|..] && a == all[k..k + |a|]
  {
    assert all[k + |a|..] == all[k..][|a|..];
    assert all[k..k + |a|] == all[k..][..|a|];
  }

  lemma AdvanceStays(c: Cursor, n: nat)
    ensures c.at == 0 && c.Tell() + n <= 0 ==> c.Advance(n).at == 0
  {
  }

  /** Passing over `n` bytes from the start leads to place `n`, or to the end. */
  lemma SkipLands(file: seq<byte>, n: nat)
    ensures var passed := Min(n, |From(file, 0)|); var c := Cursor([], Min(n, |file|));
      From(file, 0)[passed..] == c.Ahead(file) && passed == c.Tell()
  {
  }

  lemma StaysPut(c: Cursor)
    ensures c.Advance(0) == c
  {
  }

  /** Reading one byte is getting it. */
  lemma OneRead(file: seq<byte>, c: Cursor, bytes: seq<byte>, c': Cursor)
    requires (c', Bytes(bytes)) == Apply(file, c, Read(1))
    ensures |bytes| <= 1 && (c', Number(if bytes == [] then -1 else bytes[0])) == Apply(file, c, GetC)
  {
    StaysPut(c);
  }

  lemma PushedAhead(file: seq<byte>, c: Cursor, b: byte)
    ensures Cursor([b] + c.pushed, c.at).Ahead(file) == [b] + c.Ahead(file) && Cursor([b] + c.pushed, c.at).Tell() == c.Tell() - 1
  {
    assert [b] + c.pushed + From(file, c.at) == [b] + (c.pushed + From(file, c.at));
  }

  /** The cursor of a gz file: until something was read of it, a seek waits for the next access, which takes it no further
      than to the end of the file. */
  datatype Place = Place(cursor: Cursor, copying: bool) {
    predicate Pending() {
      !copying && cursor.at > 0
    }

    function Settled(file: seq<byte>): Cursor {
      if Pending() then Cursor([], Min(cursor.at, |file|)) else cursor
    }

    /** One more byte can be pushed back: none is outstanding, or nothing but push-backs is buffered and they do not fill the
        output buffer. */
    predicate Room(want: nat) {
      Pending() || cursor.pushed == [] || (!copying && |cursor.pushed| < 2 * want)
    }
  }

  /** The operations that carry out a waiting seek. */
  predicate Accesses(op: Op) {
    op == GetC || (op.Read? && op.len > 0) || (op.GetS? && op.size > 0) || op.UngetC?
  }

  function ApplyAt(file: seq<byte>, p: Place, op: Op): (Place, Result) {
    if Accesses(op) then
      var c := p.Settled(file);
      var (c', r) := Apply(file, c, op);
      (Place(c', p.copying || c.Tell() > 0 || c'.Tell() > 0), r)
    else
      var (c', r) := Apply(file, p.cursor, op);
      (Place(c', p.copying && op != Rewind), r)
  }

  datatype Run = Run(place: Place, results: seq<Result>)

  /** The plain cursor over a sequence of operations. */
  function Plain(file: seq<byte>, ops: seq<Op>): Run {
    if ops == [] then Run(Place(Cursor([], 0), false), []) else
    var before := Plain(file, ops[..|ops| - 1]);
    var (p, r) := ApplyAt(file, before.place, ops[|ops| - 1]);
    Run(p, before.results + [r])
  }

  predicate Reads(op: Op) {
    op == GetC || (op.Read? && op.len > 0) || (op.GetS? && op.size > 1)
  }

  /** A seek that goes where it should, or fails and does nothing: to the start or behind it, or in front of the start and
      back from here while no seek waits. */
  predicate SeekPlain(p: Place, offset: int, whence: Whence) {
    var target := Target(p.cursor, offset, whence);
    target >= 0 || (!p.Pending() && target < p.cursor.Tell())
  }

  /** The clients considered: requests fit an `int`, seeks are plain, and nothing is pushed back before the first read. */
  ghost predicate Sensible(file: seq<byte>, ops: seq<Op>) {
    forall i :: 0 <= i < |ops| ==>
      match ops[i]
      case Read(len) => len <= INT_MAX
      case UngetC(_) => exists j :: 0 <= j < i && Reads(ops[j])
      case Seek(offset, whence) => SeekPlain(Plain(file, ops[..i]).place, offset, whence)
      case _ => true
  }

  /** There is room for every byte that is pushed back. */
  ghost predicate Fits(file: seq<byte>, want: nat, ops: seq<Op>) {
    forall i :: 0 <= i < |ops| && ops[i].UngetC? && ops[i].c >= 0 ==> Plain(file, ops[..i]).place.Room(want)
  }

  /** Of `all`, the first `got` bytes were delivered and `ahead` is still to come. */
  ghost predicate Delivered(all: seq<byte>, got: nat, head: seq<byte>, ahead: seq<byte>) {
    got <= |all| && head == all[..got] && ahead == all[got..]
  }

  lemma NoneDelivered(all: seq<byte>, head: seq<byte>)
    requires head == []
    ensures Delivered(all, 0, head, all)
  {
  }

  lemma DeliveredLength(all: seq<byte>, got: nat, head: seq<byte>, ahead: seq<byte>)
    requires Delivered(all, got, head, ahead)
    ensures |all| == got + |ahead|
  {
  }

  lemma DeliverMore(all: seq<byte>, got: nat, n: nat, head: seq<byte>, ahead: seq<byte>, head': seq<byte>, ahead': seq<byte>)
    requires Delivered(all, got, head, ahead)
    requires |head'| == got + n && head'[..got] == head && ahead == head'[got..] + ahead'
    ensures Delivered(all, got + n, head', ahead')
  {
    DropMore(all, got, head'[got..], ahead');
    assert all[..got + n] == all[..got] + all[got..got + n];
  }

  // Lines.

  lemma NoLine(ahead: seq<byte>)
    ensures Line(ahead, 0) == []
  {
  }

  lemma EmptyLine(k: nat)
    ensures Line([], k) == []
  {
  }

  /** None of the `n` bytes at `at` is a newline. */
  ghost predicate NoNewline(s: seq<byte>, at: nat, n: nat) {
    at + n <= |s| && forall i :: at <= i < at + n ==> s[i] != NEWLINE
  }

  lemma FirstSplits(s: seq<byte>, n: nat, rest: seq<byte>)
    requires 0 < n <= |s|
    ensures s[1..][n - 1..] == s[n..] && [s[0]] + (s[1..][..n - 1] + rest) == s[..n] + rest
  {
    assert [s[0]] + s[1..][..n - 1] == s[..n];
  }

  /** Bytes without a newline start the line, and the rest of it follows them. */
  lemma {:induction false} LineSplits(ahead: seq<byte>, k: nat, n: nat)
    requires n <= k && NoNewline(ahead, 0, n)
    ensures Line(ahead, k) == ahead[..n] + Line(ahead[n..], k - n)
    decreases n
  {
    if n == 0 {
      assert ahead[0..] == ahead;
    } else {
      var tail, rest := ahead[1..], Line(ahead[n..], k - n);
      LineSplits(tail, k - 1, n - 1);
      FirstSplits(ahead, n, rest);
      assert Line(ahead, k) == [ahead[0]] + Line(tail, k - 1);
    }
  }

  lemma LineStops(ahead: seq<byte>, k: nat)
    requires k > 0 && ahead != [] && ahead[0] == NEWLINE
    ensures Line(ahead, k) == [NEWLINE]
  {
  }

  lemma SameNewlines(a: seq<byte>, p: nat, b: seq<byte>, q: nat, n: nat)
    requires p + n <= |a| && q + n <= |b| && a[p..p + n] == b[q..q + n] && n > 0
    ensures NoNewline(a, p, n) ==> NoNewline(b, q, n)
    ensures NoNewline(a, p, n - 1) ==> NoNewline(b, q, n - 1)
    ensures a[p + n - 1] == b[q + n - 1]
  {
    forall i | q <= i < q + n
      ensures b[i] == a[p + (i - q)]
    {
      assert b[i] == b[q..q + n][i - q] == a[p..p + n][i - q];
    }
    assert b[q + n - 1] == a[p + (q + n - 1 - q)];
  }

  lemma SlicePrefix(s: seq<byte>, at: nat, n: nat)
    requires at + n <= |s|
    ensures forall m :: 0 <= m <= n && NoNewline(s, at, m) ==> NoNewline(s[..at + n], at, m)
  {
  }

  /** The line consists of the bytes delivered so far and the line that starts behind them. */
  ghost predicate LineSoFar(all: seq<byte>, got: nat, left: nat) {
    got <= |all| && Line(all, got + left) == all[..got] + Line(all[got..], left)
  }

  lemma NothingDelivered(all: seq<byte>, max: nat, head: seq<byte>)
    requires head == []
    ensures Delivered(all, 0, head, all) && LineSoFar(all, 0, max)
  {
    assert all[..0] + Line(all, max) == Line(all, max);
  }

  lemma LineEnds(all: seq<byte>, got: nat, left: nat, head: seq<byte>)
    requires LineSoFar(all, got, left) && Delivered(all, got, head, [])
    ensures head == Line(all, got + left)
  {
    EmptyLine(left);
    assert all[..got] + [] == all[..got];
  }

  /** One round of reading a line. */
  lemma LineRound(all: seq<byte>, got: nat, left: nat, n: nat, found: bool, head: seq<byte>, ahead: seq<byte>)
    requires LineSoFar(all, got, left) && 0 < n <= left && Delivered(all, got + n, head, ahead)
    requires if found then head[got + n - 1] == NEWLINE && NoNewline(head, got, n - 1) else NoNewline(head, got, n)
    ensures if found || n == left then head == Line(all, got + left) else LineSoFar(all, got + n, left - n)
  {
    hide Line;
    SameNewlines(head, got, all, got, n);
    var m: nat := if found then n - 1 else n;
    LineSplits(all[got..], left, m);
    LineAppends(all, got, m, Line(all[got + m..], left - m));
    if found {
      LineStops(all[got + m..], left - m);
      assert all[..got + m] + [NEWLINE] == all[..got + n];
    } else if n == left {
      NoLine(all[got + m..]);
      assert all[..got + m] + [] == all[..got + m];
    }
  }

  lemma LineAppends(all: seq<byte>, got: nat, m: nat, rest: seq<byte>)
    requires got + m <= |all|
    ensures all[..got] + (all[got..][..m] + rest) == all[..got + m] + rest && all[got..][m..] == all[got + m..]
  {
    assert all[..got] + all[got..][..m] == all[..got + m];
    assert all[..got] + (all[got..][..m] + rest) == all[..got] + all[got..][..m] + rest;
  }

  class GzFile {
    /** The bytes of the file from where the descriptor stood when it was opened. */
    const file: seq<byte>
    const want: nat
    const input: array<byte>
    const out: array<byte>

    var fd: nat
    var size: nat
    var availIn: nat
    var nextIn: nat
    var have: nat
    var next: nat
    var pos: int
    var how: How
    var direct: bool
    var eof: bool
    var past: bool
    var seek: bool
    var skip: nat
    /** A fatal error is set; it stays. */
    var failed: bool
    /** read(2) has failed. */
    ghost var ioError: bool

    /** The plain cursor that this reader stands for. */
    ghost var cursor: Cursor

    ghost predicate Buffers()
      reads this`size, this`next, this`have, this`nextIn
    {
      && nextIn <= want && 2 <= want == input.Length && out.Length == 2 * want && input != out
      && size in {0, want} && next + have <= out.Length && (have > 0 ==> size == want)
    }

    /** The file offset is what was delivered and what is buffered, and nothing is buffered elsewhere. */
    ghost predicate InStep()
      reads this`fd, this`size, this`availIn, this`have, this`pos, this`how, this`direct, this`eof
    {
      && pos + have == fd && availIn == 0 && direct
      && (if how == Look then fd == 0 && (eof ==> file == [] && size == want) else size == want)
      && (eof ==> fd >= |file|)
    }

    /** The bytes in front of the reader. */
    ghost function Ahead(): seq<byte>
      reads this`fd, this`have, this`next, out
    {
      if next + have <= out.Length then out[next..next + have] + From(file, fd) else []
    }

    ghost predicate Ready()
      reads this`fd, this`size, this`availIn, this`have, this`next, this`pos, this`how, this`direct, this`eof, this`nextIn
    {
      Buffers() && InStep() && !Magic(file)
    }

    /** The cursor is where the reader is, or where a pending seek will take it. */
    ghost predicate Stands()
      reads this`fd, this`have, this`next, this`pos, this`seek, this`skip, this`cursor, this`how, out
    {
      if seek then how == Look && have == 0 && skip > 0 && cursor == Cursor([], fd + skip)
      else
        && Ahead() == cursor.Ahead(file) && pos == cursor.Tell()
        && (how == Look ==> cursor.at == 0) && (cursor.pushed == [] ==> have < 2 * want)
    }

    ghost predicate Valid()
      reads this, out
    {
      !failed ==> Ready() && Stands() && !ioError
    }

    /** read(2): an error, the end of the file, or at least one byte and at most `get`. */
    method ReadFd(buf: array<byte>, from: nat, get: nat) returns (ret: int)
      requires 0 < get && from + get <= buf.Length
      modifies this`fd, this`ioError, buf
      ensures ioError == (old(ioError) || ret < 0)
      ensures ret <= get && fd == old(fd) + Max(ret, 0) && (ret == 0 ==> fd >= |file|)
      ensures ret > 0 ==> fd <= |file| && buf[from..from + ret] == file[old(fd)..fd]
      ensures buf[..from] == old(buf[..from])
    {
      var any: int :| any >= -1;
      ioError := ioError || any == -1;
      ret := if any == -1 then -1 else if fd >= |file| then 0 else Min(any + 1, Min(get, |file| - fd));
      if ret > 0 {
        FromFile(buf, from, ret);
        fd := fd + ret;
      }
    }

    /** `n` bytes of the file. */
    method FromFile(buf: array<byte>, from: nat, n: nat)
      requires from + n <= buf.Length && fd + n <= |file|
      modifies buf
      ensures buf[from..from + n] == file[fd..fd + n] && buf[..from] == old(buf[..from])
    {
      forall i | 0 <= i < n {
        buf[from + i] := file[fd + i];
      }
      assert forall i :: from <= i < from + n ==> buf[i] == file[fd + (i - from)];
    }

    /** gz_load: read until `len` bytes are there or the file ends. */
    method GzLoad(buf: array<byte>, from: nat, len: nat) returns (ok: bool, got: nat)
      requires 0 < len && from + len <= buf.Length && (eof ==> fd >= |file|) && !failed
      modifies this`fd, this`eof, this`have, this`failed, this`ioError, buf
      ensures ioError == (old(ioError) || !ok)
      ensures ok == !failed && (ok ==> have == old(have) && got <= len && fd == old(fd) + got)
      ensures ok && got > 0 ==> fd <= |file| && buf[from..from + got] == file[old(fd)..fd]
      ensures ok ==> buf[..from] == old(buf[..from]) && (eof ==> fd >= |file|) && (got < len ==> eof) && (old(eof) ==> eof)
    {
      got := 0;
      var ret: int := 0;
      while true
        invariant ioError == old(ioError)
        invariant !failed && have == old(have) && got < len && fd == old(fd) + got && (eof ==> fd >= |file|) && eof == old(eof)
        invariant got > 0 ==> fd <= |file| && buf[from..from + got] == file[old(fd)..fd]
        invariant buf[..from] == old(buf[..from])
        decreases len - got
      {
        var get: nat := len - got;
        if get > MAX_GET { get := MAX_GET; }
        ghost var before, fd0 := buf[..from + got], fd;
        ret := ReadFd(buf, from + got, get);
        if ret <= 0 { break; }
        assert buf[..from] == before[..from] && buf[from..from + got] == before[from..];
        assert buf[from..from + (got + ret)] == buf[from..from + got] + buf[from + got..from + got + ret];
        assert file[old(fd)..fd] == file[old(fd)..fd0] + file[fd0..fd];
        got := got + ret;
        if got >= len { break; }
      }
      if ret < 0 {
        failed := true;
        have := 0;
        return false, got;
      }
      if ret == 0 { eof := true; }
      return true, got;
    }

    /** The input buffer holds the last `availIn` bytes read from the file. */
    ghost predicate Loaded()
      reads this`fd, this`availIn, this`nextIn, input
    {
      nextIn + availIn <= input.Length && EndsAt(input[nextIn..nextIn + availIn], file, fd)
    }

    /** gz_avail: unread input moves to the start of the buffer, and the rest is loaded. */
    method GzAvail() returns (ok: bool)
      requires !failed && Loaded() && availIn < size == input.Length && (eof ==> fd >= |file|)
      modifies this`fd, this`eof, this`have, this`failed, this`ioError, this`availIn, this`nextIn, input
      ensures ioError == (old(ioError) || !ok)
      ensures ok == !failed && (ok ==> have == old(have) && Loaded() && (eof ==> fd >= |file|))
      ensures ok ==> fd - availIn == old(fd - availIn) && availIn >= old(availIn) && (availIn < size ==> eof) && (old(eof) ==> eof)
    {
      hide EndsAt;
      ok := true;
      if !eof {
        MoveInput();
        ok := LoadInput();
      }
    }

    /** The load of gz_avail, behind the input that is there. */
    method LoadInput() returns (ok: bool)
      requires !failed && Loaded() && nextIn == 0 && availIn < size == input.Length && !eof
      modifies this`fd, this`eof, this`have, this`failed, this`ioError, this`availIn, input
      ensures ioError == (old(ioError) || !ok)
      ensures ok == !failed && (ok ==> have == old(have) && Loaded() && (eof ==> fd >= |file|))
      ensures ok ==> fd - availIn == old(fd - availIn) && availIn >= old(availIn) && (availIn < size ==> eof)
    {
      hide EndsAt;
      var got;
      ghost var kept, fd0 := input[0..availIn], fd;
      ok, got := GzLoad(input, availIn, size - availIn);
      if !ok { return; }
      ghost var more := input[availIn..availIn + got];
      EndsLater(kept, more, file, fd0);
      assert input[0..availIn + got] == kept + more;
      availIn := availIn + got;
    }

    /** The copy loop of gz_avail, and the pointer it leaves. */
    method MoveInput()
      requires Loaded()
      modifies this`nextIn, input
      ensures Loaded() && nextIn == 0
    {
      hide EndsAt;
      var p: nat := 0;
      while p < availIn
        invariant p <= availIn && nextIn == old(nextIn)
        invariant forall i :: 0 <= i < p ==> input[i] == old(input[i + nextIn])
        invariant forall i :: nextIn + p <= i < input.Length ==> input[i] == old(input[i])
      {
        input[p] := input[nextIn + p];
        p := p + 1;
      }
      assert input[0..availIn] == old(input[nextIn..nextIn + availIn]);
      nextIn := 0;
    }

    /** gz_look on a file without gzip magic: copying starts, unless the file is empty. */
    method GzLook() returns (ok: bool)
      requires !failed && Ready() && how == Look && have == 0
      modifies this`fd, this`size, this`eof, this`have, this`next, this`failed, this`ioError, this`availIn, this`nextIn,
               this`how, this`direct, input, out
      ensures ok ==> how == old(how) || (how == Copy && have > 0)
      ensures ioError == (old(ioError) || !ok)
      ensures ok ==> size == want
      ensures ok == !failed && (ok ==> Ready() && Ahead() == old(Ahead()))
      ensures ok ==> if how == Look then have == 0 && eof else have > 0
    {
      hide EndsAt;
      NothingEnds(file, fd);
      if size == 0 {
        size := want;
        availIn, nextIn := 0, 0;
      }
      assert input[nextIn..nextIn] == [];
      if availIn < 2 {
        ok := GzAvail();
        if !ok { return; }
        if availIn == 0 { return; }
      }
      StartCopy();
      ok := true;
    }

    /** The end of gz_look: what was loaded to look for the magic bytes is the first data delivered. */
    method StartCopy()
      requires Buffers() && Loaded() && size == want && direct && 0 < availIn == fd && have == 0 == pos
      requires (eof ==> fd >= |file|) && !Magic(file)
      modifies this`have, this`next, this`availIn, this`how, this`direct, out
      ensures Ready() && how == Copy && have > 0 && Ahead() == file
    {
      hide EndsAt, Magic, From;
      WholeFile(input[nextIn..nextIn + availIn], file, fd);
      next := 0;
      CopyInput();
      have := availIn;
      availIn := 0;
      how, direct := Copy, true;
    }

    /** memcpy from the input buffer to the output buffer. */
    method CopyInput()
      requires nextIn + availIn <= input.Length && availIn <= out.Length && input != out
      modifies out
      ensures out[0..availIn] == input[nextIn..nextIn + availIn]
    {
      forall i | 0 <= i < availIn {
        out[i] := input[nextIn + i];
      }
    }

    /** gz_fetch: data for the empty output buffer, unless the end is reached. On a file without gzip magic one round of
        its loop is enough. */
    method GzFetch() returns (ok: bool)
      requires !failed && Ready() && have == 0
      modifies this`fd, this`size, this`eof, this`have, this`next, this`failed, this`ioError, this`availIn, this`nextIn,
               this`how, this`direct, input, out
      ensures ok ==> how == old(how) || (how == Copy && have > 0)
      ensures ioError == (old(ioError) || !ok)
      ensures ok ==> size == want
      ensures ok == !failed && (ok ==> Ready() && Ahead() == old(Ahead()))
      ensures ok ==> (have > 0 || eof) && (have == 0 ==> Ahead() == [])
    {
      match how {
        case Look => ok := GzLook();
        case Copy => ok := Refill();
      }
    }

    /** The output buffer loaded straight from the file. */
    method Refill() returns (ok: bool)
      requires !failed && Ready() && have == 0 && how == Copy
      modifies this`fd, this`eof, this`have, this`next, this`failed, this`ioError, out
      ensures ioError == (old(ioError) || !ok)
      ensures ok == !failed && (ok ==> Ready() && Ahead() == old(Ahead()) && (have > 0 || eof))
    {
      hide From, Ahead, Magic;
      Bare();
      var got;
      ghost var fd0 := fd;
      ok, got := GzLoad(out, 0, 2 * size);
      if !ok { return; }
      have := got;
      next := 0;
      FromSplits(file, fd0, fd, out[0..got]);
      Filled();
    }

    lemma Filled()
      requires next == 0 && have <= out.Length
      ensures Ahead() == out[0..have] + From(file, fd)
    {
    }

    /** gz_skip: `len` bytes are passed over, or all there are. */
    method GzSkip(len0: nat) returns (ok: bool)
      requires !failed && Ready()
      modifies this`fd, this`size, this`eof, this`have, this`next, this`pos, this`failed, this`ioError, this`availIn,
               this`nextIn, this`how, this`direct,
               input, out
      ensures ok && len0 > 0 ==> have < 2 * want
      ensures ioError == (old(ioError) || !ok)
      ensures ok ==> how == old(how) || (how == Copy && pos > 0)
      ensures size == want || size == old(size) || !ok
      ensures ok == !failed && (ok && len0 > 0 && old(have) == 0 ==> size == want)
      ensures ok ==> var n := Min(len0, |old(Ahead())|); Ready() && Ahead() == old(Ahead())[n..] && pos == old(pos) + n
    {
      hide Ahead, From;
      var len: nat := len0;
      ghost var all := Ahead();
      while len > 0
        invariant !failed && Ready() && len <= len0 && ioError == old(ioError) && (len == 0 < len0 ==> have < 2 * want)
        invariant how == old(how) || (how == Copy && (pos > 0 || (pos == 0 < have && len > 0)))
        invariant size == want || (len == len0 && have == old(have) && size == old(size))
        invariant len0 - len <= |all| && Ahead() == all[len0 - len..] && pos == old(pos) + (len0 - len)
        decreases len, have == 0 && !eof
      {
        if have != 0 {
          var n: nat := Min(have, len);
          ghost var part := out[next..next + n];
          Consume(n);
          DropMore(all, len0 - len, part, Ahead());
          len := len - n;
        } else if eof && availIn == 0 {
          AtEnd();
          break;
        } else {
          ok := GzFetch();
          if !ok { return; }
        }
      }
      ok := true;
    }

    lemma AtEnd()
      requires Ready() && have == 0 && eof
      ensures Ahead() == []
    {
    }

    /** `n` bytes of the output buffer are used up. */
    method Consume(n: nat)
      requires Ready() && n <= have
      modifies this`have, this`next, this`pos
      ensures Ready() && have == old(have) - n && pos == old(pos) + n && old(Ahead()) == old(out[next..next + n]) + Ahead()
    {
      ghost var a, b, c := out[next..next + n], out[next + n..next + have], From(file, fd);
      assert out[next..next + have] == a + b;
      assert a + b + c == a + (b + c);
      have := have - n;
      next := next + n;
      pos := pos + n;
    }

    /** Where the cursor is once a pending seek has been carried out: a seek that the file is too short for stops at its end. */
    ghost function Settled(): Cursor
      reads this`seek, this`cursor
    {
      if seek then Cursor([], Min(cursor.at, |file|)) else cursor
    }

    /** The place in the file of a plain cursor. */
    ghost function Where(): Place
      reads this`cursor, this`how
    {
      Place(cursor, how == Copy)
    }

    lemma SettledIsSettled()
      requires Ready() && Stands()
      ensures Settled() == Where().Settled(file) && (seek <==> Where().Pending())
    {
    }

    lemma WherePosition()
      requires Ready() && Stands()
      ensures !seek ==> pos == cursor.Tell()
    {
    }

    /** With room for a push-back the output buffer is not full. */
    lemma RoomMeans()
      requires Ready() && Stands() && Where().Room(want)
      ensures seek || have < 2 * want
    {
    }

    /** A seek waits only where nothing was read yet. */
    lemma SeekWaits()
      requires Ready() && Stands() && seek
      ensures how == Look && have == fd == pos == 0 && skip > 0 && cursor == Cursor([], skip) && Ahead() == From(file, 0)
    {
      Bare();
    }

    /** The first step of every read: a pending seek is carried out. */
    method Settle() returns (ok: bool)
      requires !failed && Ready() && Stands()
      modifies this`fd, this`size, this`eof, this`have, this`next, this`pos, this`failed, this`ioError, this`availIn,
               this`nextIn, this`how, this`direct, this`seek, this`cursor, input, out
      ensures ioError == (old(ioError) || !ok)
      ensures ok ==> (how == Copy <==> old(how) == Copy || (old(seek) && cursor.Tell() > 0)) && (old(seek) ==> have < 2 * want)
      ensures ok == !failed && (ok ==> Ready() && Stands() && !seek && cursor == old(Settled()))
      ensures ok && old(seek) ==> size == want
      ensures ok ==> size == want || size == old(size)
      ensures !old(seek) ==> ok && have == old(have) && size == old(size)
    {
      hide Valid, Ready, Ahead, From, Cursor.Ahead;
      ok := true;
      if seek {
        SeekWaits();
        seek := false;
        ghost var settled := Cursor([], Min(cursor.at, |file|));
        SkipLands(file, skip);
        ok := GzSkip(skip);
        cursor := settled;
        if ok { NothingLoaded(); }
      }
    }

    /** The loop of gz_read: up to `len0` bytes to the client's buffer. */
    method ReadLoop(buf: array<byte>, len0: nat) returns (ok: bool, got: nat)
      requires !failed && Ready() && len0 <= buf.Length && buf != input && buf != out
      modifies this`fd, this`size, this`eof, this`have, this`next, this`pos, this`failed, this`ioError, this`availIn,
               this`nextIn, this`how, this`direct, this`past, input, out, buf
      ensures ioError == (old(ioError) || !ok)
      ensures ok ==> how == old(how) || (how == Copy && pos > 0)
      ensures ok == !failed && (ok && len0 > 0 ==> size == want) && (ok ==> size == want || size == old(size))
      ensures ok ==> Ready() && got == Min(len0, |old(Ahead())|) && pos == old(pos) + got
      ensures ok ==> Delivered(old(Ahead()), got, buf[..got], Ahead())
      ensures ok ==> past == (old(past) || got < len0) && (len0 > 0 ==> have < 2 * want)
    {
      hide Ready, Ahead, From, Delivered, Magic;
      var len: nat := len0;
      ghost var all := Ahead();
      got := 0;
      NoneDelivered(all, buf[..0]);
      while len > 0
        invariant !failed && Ready() && got + len == len0 && past == old(past) && ioError == old(ioError)
        invariant how == old(how) || (how == Copy && (pos > 0 || (pos == 0 < have && len > 0)))
        invariant Delivered(all, got, buf[..got], Ahead()) && pos == old(pos) + got
        invariant (len == 0 < len0 ==> have < 2 * want && size == want) && (size == want || size == old(size))
        decreases len, have == 0 && !eof
      {
        var n: nat := len;
        ghost var head, ahead := buf[..got], Ahead();
        NothingLoaded();
        if have != 0 {
          if have < n { n := have; }
          ReadBuffered(buf, got, n);
        } else if eof && availIn == 0 {
          past := true;
          AtEnd();
          DeliveredLength(all, got, buf[..got], Ahead());
          return true, got;
        } else if how == Look || n < 2 * size {
          ok := GzFetch();
          if !ok { return; }
          continue;
        } else {
          ok, n := ReadDirect(buf, got, n);
          if !ok { return; }
        }
        DeliverMore(all, got, n, head, ahead, buf[..got + n], Ahead());
        len := len - n;
        got := got + n;
      }
      DeliveredLength(all, got, buf[..got], Ahead());
      ok := true;
    }

    lemma NothingLoaded()
      requires Ready()
      ensures next + have <= out.Length == 2 * want
      ensures availIn == 0 && 2 <= want && (have > 0 || eof || how == Copy ==> size == want) && (how == Look ==> pos + have == 0)
    {
    }

    /** Bytes of the output buffer are delivered. */
    method ReadBuffered(buf: array<byte>, at: nat, n: nat)
      requires Ready() && 0 < n <= have && at + n <= buf.Length && buf != out
      modifies this`have, this`next, this`pos, buf
      ensures Ready() && pos == old(pos) + n && have < 2 * want
      ensures buf[..at] == old(buf[..at]) && old(Ahead()) == buf[at..at + n] + Ahead()
      ensures old(next) + n <= out.Length && buf[at..at + n] == out[old(next)..old(next) + n]
    {
      hide Ready, Ahead, From, Magic;
      NothingLoaded();
      CopyOut(buf, at, n);
      Consume(n);
    }

    /** memcpy from the output buffer to the client's. */
    method CopyOut(buf: array<byte>, at: nat, n: nat)
      requires next + n <= out.Length && at + n <= buf.Length && buf != out
      modifies buf
      ensures buf[..at] == old(buf[..at]) && buf[at..at + n] == out[next..next + n]
    {
      forall i | 0 <= i < n {
        buf[at + i] := out[next + i];
      }
      assert forall i :: at <= i < at + n ==> buf[i] == out[next + (i - at)];
    }

    lemma Bare()
      requires have == 0 && next <= out.Length
      ensures Ahead() == From(file, fd)
    {
    }

    /** A large request is read straight into the client's buffer. */
    method ReadDirect(buf: array<byte>, at: nat, len: nat) returns (ok: bool, n: nat)
      requires !failed && Ready() && have == 0 && !eof && how == Copy && 0 < len && at + len <= buf.Length && buf != input && buf != out
      modifies this`fd, this`eof, this`have, this`failed, this`ioError, this`pos, buf
      ensures ioError == (old(ioError) || !ok)
      ensures ok == !failed
      ensures ok ==> n <= len && Ready() && have == 0 && (n < len ==> eof) && pos == old(pos) + n
      ensures ok ==> buf[..at] == old(buf[..at]) && old(Ahead()) == buf[at..at + n] + Ahead()
    {
      hide From, Ahead, Magic;
      Bare();
      ok, n := GzLoad(buf, at, len);
      if !ok { return; }
      Bare();
      pos := pos + n;
      ghost var fd0 := fd - n;
      FromSplits(file, fd0, fd, buf[at..at + n]);
    }

    /** gz_read. */
    method GzReadBytes(buf: array<byte>, len: nat) returns (ok: bool, got: nat)
      requires !failed && Ready() && Stands() && len <= buf.Length && buf != input && buf != out
      modifies this`fd, this`size, this`eof, this`have, this`next, this`pos, this`failed, this`ioError, this`availIn,
               this`nextIn, this`how, this`direct, this`past, this`seek, this`cursor, input, out, buf
      ensures ioError == (old(ioError) || !ok)
      ensures ok ==> if len == 0 then how == old(how) else (how == Copy <==> old(how) == Copy || old(Settled()).Tell() > 0 || cursor.Tell() > 0)
      ensures ok ==> size == want || (len == 0 && size == old(size))
      ensures ok == !failed && (ok ==> Ready() && Stands() && got <= len)
      ensures ok ==> (cursor, Bytes(buf[..got])) == Apply(file, if len == 0 then old(cursor) else old(Settled()), Read(len))
      ensures ok && len > 0 ==> past == (old(past) || got < len) && have < 2 * want && !seek
    {
      hide Ready, Ahead, From, Cursor.Ahead, Cursor.Advance, Cursor.Tell;
      if len == 0 {
        StaysPut(cursor);
        return true, 0;
      }
      NothingLoaded();
      ok := Settle();
      if !ok { return false, 0; }
      ok, got := ReadLoop(buf, len);
      if !ok { return false, 0; }
      NothingLoaded();
      AdvanceStays(cursor, got);
      AdvanceDrops(file, cursor, got);
      cursor := cursor.Advance(got);
    }

    /** gzread. */
    method Gzread(buf: array<byte>, len: nat) returns (r: int)
      requires Valid() && len <= buf.Length && buf != input && buf != out
      modifies this`fd, this`size, this`eof, this`have, this`next, this`pos, this`failed, this`ioError, this`availIn,
               this`nextIn, this`how, this`direct, this`past, this`seek, this`cursor, input, out, buf
      ensures !failed ==> if len == 0 then how == old(how) else (how == Copy <==> old(how) == Copy || old(Settled()).Tell() > 0 || cursor.Tell() > 0)
      ensures !old(failed) ==> (failed <==> ioError || len > INT_MAX)
      ensures Valid() && (old(failed) ==> failed) && (failed ==> r == -1)
      ensures !failed ==> size == want || (len == 0 && size == old(size))
      ensures !failed ==> 0 <= r <= len <= INT_MAX
      ensures !failed ==> (cursor, Bytes(buf[..r])) == Apply(file, if len == 0 then old(cursor) else old(Settled()), Read(len))
      ensures !failed && len > 0 ==> past == (old(past) || r < len) && have < 2 * want
    {
      hide Ready, Stands, Apply;
      if failed { return -1; }
      if len > INT_MAX {
        failed := true;
        have := 0;
        return -1;
      }
      var ok, got := GzReadBytes(buf, len);
      return if ok then got else -1;
    }

    /** gzgetc. */
    method Gzgetc() returns (r: int)
      requires Valid()
      modifies this`fd, this`size, this`eof, this`have, this`next, this`pos, this`failed, this`ioError, this`availIn,
               this`nextIn, this`how, this`direct, this`past, this`seek, this`cursor, input, out
      ensures !failed ==> (how == Copy <==> old(how) == Copy || old(Settled()).Tell() > 0 || cursor.Tell() > 0)
      ensures !old(failed) ==> (failed <==> ioError)
      ensures Valid() && (old(failed) ==> failed) && (failed ==> r == -1)
      ensures !failed ==> size == want
      ensures !failed ==> (cursor, Number(r)) == Apply(file, old(Settled()), GetC) && have < 2 * want
    {
      hide Ready, Stands, Apply;
      if failed { return -1; }
      if have != 0 {
        AtOrBefore();
        r := TakeOne();
        AtOrBefore();
        return;
      }
      var buf := new byte[1];
      var ok, got := GzReadBytes(buf, 1);
      if !ok { return -1; }
      OneRead(file, old(Settled()), buf[..got], cursor);
      r := if got < 1 then -1 else buf[0];
    }

    /** Before copying starts the position is at most 0. */
    lemma AtOrBefore()
      requires Ready() && Stands()
      ensures have != 0 ==> !seek
      ensures how == Look && !seek ==> cursor.Tell() <= 0
    {
    }

    /** The part of gzgetc that needs no more than the output buffer. */
    method TakeOne() returns (r: int)
      requires !failed && Ready() && Stands() && have != 0
      modifies this`have, this`next, this`pos, this`cursor
      ensures size == want && Ready() && Stands() && !seek && have < 2 * want
      ensures (cursor, Number(r)) == Apply(file, old(cursor), GetC)
    {
      hide Ready, From, Ahead, Cursor.Ahead, Cursor.Advance, Cursor.Tell;
      ghost var ahead := Ahead();
      r := FirstOut();
      NothingLoaded();
      AdvanceStays(cursor, 1);
      AdvanceDrops(file, cursor, 1);
      cursor := cursor.Advance(1);
    }

    method FirstOut() returns (r: byte)
      requires Ready() && have != 0
      modifies this`have, this`next, this`pos
      ensures size == want && Ready() && pos == old(pos) + 1 && have < 2 * want
      ensures |old(Ahead())| >= 1 && r == old(Ahead())[0] && Ahead() == old(Ahead())[1..]
    {
      hide Ready, Ahead, From, Magic;
      NothingLoaded();
      r := out[next];
      ghost var part := out[next..next + 1];
      Consume(1);
      assert part == [r];
    }

    /** memchr for a newline in the first `n` bytes of the output buffer. */
    method FindNewline(n: nat) returns (eol: Option<nat>)
      requires next + n <= out.Length
      ensures eol.None? ==> NoNewline(out[..], next, n)
      ensures eol.Some? ==> eol.value < n && out[next + eol.value] == NEWLINE && NoNewline(out[..], next, eol.value)
    {
      var i: nat := 0;
      while i < n
        invariant i <= n && NoNewline(out[..], next, i)
      {
        if out[next + i] == NEWLINE { return Some(i); }
        i := i + 1;
      }
      return None;
    }

    /** One round of the loop of gzgets: what the output buffer has of the line. */
    method LinePart(buf: array<byte>, at: nat, left: nat) returns (n: nat, found: bool)
      requires Ready() && 0 < have && 0 < left && at + left <= buf.Length && buf != out
      modifies this`have, this`next, this`pos, buf
      ensures Ready() && 0 < n <= left && pos == old(pos) + n && have < 2 * want
      ensures buf[..at] == old(buf[..at]) && old(Ahead()) == buf[at..at + n] + Ahead()
      ensures if found then buf[at + n - 1] == NEWLINE && NoNewline(buf[..], at, n - 1) else NoNewline(buf[..], at, n)
    {
      hide Ready, Ahead, From, Magic, NoNewline;
      NothingLoaded();
      n := if have > left then left else have;
      var eol := FindNewline(n);
      found := eol.Some?;
      if found { n := eol.value + 1; }
      ghost var from := next;
      ReadBuffered(buf, at, n);
      SameNewlines(out[..], from, buf[..], at, n);
    }

    /** The same, as a part of the whole line. */
    method LineTake(buf: array<byte>, got: nat, left: nat, ghost all: seq<byte>) returns (n: nat, found: bool)
      requires Ready() && 0 < have && 0 < left && got + left <= buf.Length && buf != out
      requires Delivered(all, got, buf[..got], Ahead()) && LineSoFar(all, got, left)
      modifies this`have, this`next, this`pos, buf
      ensures Ready() && 0 < n <= left && pos == old(pos) + n && have < 2 * want
      ensures Delivered(all, got + n, buf[..got + n], Ahead())
      ensures if found || n == left then buf[..got + n] == Line(all, got + left) else LineSoFar(all, got + n, left - n)
    {
      hide Ready, Ahead, From, Line, NoNewline, LineSoFar, Delivered;
      ghost var head, ahead := buf[..got], Ahead();
      n, found := LinePart(buf, got, left);
      DeliverMore(all, got, n, head, ahead, buf[..got + n], Ahead());
      SlicePrefix(buf[..], got, n);
      LineRound(all, got, left, n, found, buf[..got + n], Ahead());
    }

    /** The loop of gzgets. */
    method LineLoop(buf: array<byte>, max: nat) returns (ok: bool, got: nat)
      requires !failed && Ready() && 0 < max < buf.Length && buf != input && buf != out
      modifies this`fd, this`size, this`eof, this`have, this`next, this`pos, this`failed, this`ioError, this`availIn,
               this`nextIn, this`how, this`direct, this`past, input, out, buf
      ensures ioError == (old(ioError) || !ok)
      ensures ok ==> how == old(how) || (how == Copy && pos > 0)
      ensures ok ==> size == want
      ensures ok == !failed && (ok ==> got <= max && have < 2 * want)
      ensures ok ==> Ready() && pos == old(pos) + got && Delivered(old(Ahead()), got, buf[..got], Ahead())
      ensures ok ==> buf[..got] == Line(old(Ahead()), max)
    {
      hide Ready, Ahead, From, Line, LineSoFar, Delivered;
      var left := max;
      got := 0;
      ghost var all := Ahead();
      NothingDelivered(all, max, buf[..0]);
      while true
        invariant !failed && Ready() && 0 < left && got + left == max && pos == old(pos) + got && ioError == old(ioError)
        invariant how == old(how) || (how == Copy && pos > 0)
        invariant Delivered(all, got, buf[..got], Ahead()) && LineSoFar(all, got, left)
        invariant size == want || got == 0
        decreases left
      {
        NothingLoaded();
        if have == 0 {
          ok := GzFetch();
          if !ok { return; }
        }
        if have == 0 {
          past := true;
          LineEnds(all, got, left, buf[..got]);
          return true, got;
        }
        var n, found := LineTake(buf, got, left, all);
        got := got + n;
        left := left - n;
        if found || left == 0 { return true, got; }
      }
    }

    /** gzgets: the length of the string, or nothing for NULL. */
    method Gzgets(buf: array<byte>, len: int) returns (r: Option<nat>)
      requires Valid() && len <= buf.Length && buf != input && buf != out
      modifies this`fd, this`size, this`eof, this`have, this`next, this`pos, this`failed, this`ioError, this`availIn,
               this`nextIn, this`how, this`direct, this`past, this`seek, this`cursor, input, out, buf
      ensures !failed ==> if len < 1 then how == old(how) else (how == Copy <==> old(how) == Copy || old(Settled()).Tell() > 0 || cursor.Tell() > 0)
      ensures !old(failed) ==> (failed <==> ioError)
      ensures Valid() && (old(failed) ==> failed) && (failed ==> r == None)
      ensures !failed ==> size == want || (len < 2 && size == old(size))
      ensures r.Some? ==> 0 < r.value < len && buf[r.value] == 0
      ensures !failed ==>
        (var answer := if r == None then Null else Bytes(buf[..r.value]);
        (cursor, answer) == Apply(file, if len < 1 then old(cursor) else old(Settled()), GetS(len)))
    {
      hide Ready, Stands, Line;
      if len < 1 { NoLine(cursor.Ahead(file)); return None; }
      if failed { return None; }
      AtOrBefore();
      var ok := Settle();
      if !ok { return None; }
      if len - 1 == 0 { NoLine(cursor.Ahead(file)); return None; }
      var got;
      ok, got := LineStep(buf, len - 1);
      if ok { AtOrBefore(); }
      if !ok || got == 0 { return None; }
      buf[got] := 0;
      return Some(got);
    }

    method LineStep(buf: array<byte>, max: nat) returns (ok: bool, got: nat)
      requires !failed && Ready() && Stands() && !seek && 0 < max < buf.Length && buf != input && buf != out
      modifies this`fd, this`size, this`eof, this`have, this`next, this`pos, this`failed, this`ioError, this`availIn,
               this`nextIn, this`how, this`direct, this`past, this`cursor, input, out, buf
      ensures ioError == (old(ioError) || !ok)
      ensures ok ==> how == old(how) || (how == Copy && pos > 0)
      ensures ok ==> size == want
      ensures ok == !failed && got <= max
      ensures ok ==> Ready() && Stands() && !seek && pos == cursor.Tell() && buf[..got] == Line(old(cursor.Ahead(file)), max) && cursor == old(cursor).Advance(got)
    {
      hide Ready, Ahead, From, Line, Cursor.Ahead, Cursor.Advance, Cursor.Tell;
      ok, got := LineLoop(buf, max);
      if !ok { return false, 0; }
      NothingLoaded();
      AdvanceStays(cursor, got);
      AdvanceDrops(file, cursor, got);
      cursor := cursor.Advance(got);
    }

    /** gzungetc. A full output buffer is a fatal error. */
    method Gzungetc(c: int) returns (r: int)
      requires Valid() && (size != 0 || seek)
      modifies this`fd, this`size, this`eof, this`have, this`next, this`pos, this`failed, this`ioError, this`availIn,
               this`nextIn, this`how, this`direct, this`past, this`seek, this`cursor, input, out
      ensures !failed ==> (how == Copy <==> old(how) == Copy || old(Settled()).Tell() > 0 || cursor.Tell() > 0)
      ensures Valid() && (old(failed) ==> failed) && (failed ==> r == -1)
      ensures !failed ==> size == want
      ensures !failed ==> (cursor, Number(r)) == Apply(file, old(Settled()), UngetC(c))
      ensures !old(failed) ==> (failed <==> ioError || (c >= 0 && !old(seek) && old(have) == 2 * want))
    {
      hide Ready, Stands, Settled;
      if failed { return -1; }
      if !seek { HasBuffer(); }
      AtOrBefore();
      var ok := Settle();
      if !ok { return -1; }
      HasBuffer();
      AtOrBefore();
      if c < 0 { return -1; }
      if have == 0 {
        PushFirst(c % 256);
      } else if have == 2 * size {
        failed := true;
        have := 0;
        return -1;
      } else {
        if next == 0 { SlideOut(); }
        PushMore(c % 256);
      }
      past := false;
      r := c;
    }

    lemma HasBuffer()
      requires Ready() && (size != 0 || size == want)
      ensures size == want && have <= 2 * want && want >= 2
    {
    }

    /** The byte goes to the end of the empty output buffer. */
    method PushFirst(b: byte)
      requires Ready() && Stands() && !seek && have == 0 && size == want
      modifies this`have, this`next, this`pos, this`cursor, out
      ensures Ready() && Stands() && cursor == Cursor([b] + old(cursor).pushed, old(cursor).at)
    {
      hide From, Ahead, Magic, Cursor.Ahead, Cursor.Tell;
      Bare();
      have := 1;
      next := 2 * size - 1;
      out[next] := b;
      pos := pos - 1;
      OneHeld();
      PushedAhead(file, cursor, b);
      cursor := Cursor([b] + cursor.pushed, cursor.at);
    }

    lemma OneHeld()
      requires have == 1 && next < out.Length
      ensures Ahead() == [out[next]] + From(file, fd)
    {
      assert out[next..next + 1] == [out[next]];
    }

    /** The byte goes in front of what the output buffer holds. */
    method PushMore(b: byte)
      requires Ready() && Stands() && !seek && 0 < next && size == want
      modifies this`have, this`next, this`pos, this`cursor, out
      ensures Ready() && Stands() && cursor == Cursor([b] + old(cursor).pushed, old(cursor).at)
    {
      hide From, Ahead, Magic, Cursor.Ahead, Cursor.Tell;
      ghost var rest := out[next..next + have];
      InFront();
      have := have + 1;
      next := next - 1;
      out[next] := b;
      pos := pos - 1;
      assert out[next + 1..next + have] == rest;
      InFront();
      FirstInFront();
      PushedAhead(file, cursor, b);
      cursor := Cursor([b] + cursor.pushed, cursor.at);
    }

    lemma InFront()
      requires next + have <= out.Length
      ensures Ahead() == out[next..next + have] + From(file, fd)
    {
    }

    lemma FirstInFront()
      requires 0 < have && next + have <= out.Length
      ensures out[next..next + have] + From(file, fd) == [out[next]] + (out[next + 1..next + have] + From(file, fd))
    {
      assert out[next..next + have] == [out[next]] + out[next + 1..next + have];
    }

    /** The contents of the output buffer move to its end. */
    method SlideOut()
      requires Ready() && Stands() && !seek && next == 0 && 0 < have < 2 * size && size == want
      modifies this`next, out
      ensures Ready() && Stands() && 0 < next
    {
      hide From, Magic, InStep, Cursor.Ahead, Ahead;
      ghost var held := out[..have];
      InFront();
      assert out[0..0 + have] == held;
      MoveUp();
      next := 2 * size - have;
      InFront();
    }

    /** The copy loop of gzungetc, from the end down. */
    method MoveUp()
      requires 0 < have < 2 * size == out.Length
      modifies out
      ensures out[2 * size - have..] == out[2 * size - have..2 * size - have + have] == old(out[..have])
    {
      var src: nat, dest: nat := have, 2 * size;
      while src > 0
        invariant src <= have && dest == src + (2 * size - have)
        invariant forall i :: 0 <= i < src ==> out[i] == old(out[i])
        invariant forall k :: dest <= k < 2 * size ==> out[k] == old(out[k - (2 * size - have)])
      {
        dest := dest - 1;
        src := src - 1;
        out[dest] := out[src];
      }
    }

    /** gzseek64. To a place in front of the start it fails, and then forgets a pending seek; but when enough bytes were
        pushed back in front of the start, it moves forward among them and returns the negative position. */
    method Gzseek(offset0: int, whence: Whence) returns (r: int)
      requires Valid()
      modifies this`fd, this`eof, this`past, this`have, this`next, this`pos, this`seek, this`skip, this`availIn, this`cursor
      ensures Valid() && failed == old(failed) && (failed ==> r == -1)
      ensures !failed && old(Target(cursor, offset0, whence)) >= 0 ==> (cursor, Number(r)) == Apply(file, old(cursor), Seek(offset0, whence))
      ensures !failed && old(Target(cursor, offset0, whence)) < 0 ==>
        if old(Target(cursor, offset0, whence)) < old(pos) then r == -1 && cursor == if old(seek) then Cursor([], 0) else old(cursor)
        else r == old(Target(cursor, offset0, whence)) && cursor == old(cursor).Advance(r - old(cursor).Tell())
    {
      hide Ready, Stands, Cursor.Ahead, Cursor.Tell, Cursor.Advance;
      if failed { return -1; }
      var offset := Normalize(offset0, whence);
      if how == Copy && pos + offset >= 0 {
        r := Jump(offset);
        return;
      }
      WhereItStands();
      if offset < 0 {
        // Only gzip data can be behind the start of copying, so the rewind of the source cannot be reached.
        return -1;
      }
      r := SkipAhead(offset);
    }

    /** Before copying starts nothing is in front of the reader, and a position is at most that far back. */
    lemma WhereItStands()
      requires Ready() && Stands() && !seek
      ensures pos == cursor.Tell() && (how == Look ==> pos <= 0) && pos + have >= 0
    {
    }

    /** The offset relative to the position; a pending seek is dropped. */
    method Normalize(offset0: int, whence: Whence) returns (offset: int)
      requires Ready() && Stands()
      modifies this`seek, this`cursor
      ensures Ready() && Stands() && !seek && pos + offset == old(Target(cursor, offset0, whence))
      ensures cursor == if old(seek) then Cursor([], 0) else old(cursor)
      ensures old(seek) ==> pos == 0
    {
      offset := offset0;
      if whence == SeekSet {
        offset := offset - pos;
      } else if seek {
        offset := offset + skip;
      }
      if seek {
        cursor := Cursor([], 0);
      }
      seek := false;
    }

    /** A seek within a file that is being copied goes there at once. */
    method Jump(offset: int) returns (r: int)
      requires Ready() && !seek && how == Copy && pos + offset >= 0
      modifies this`fd, this`eof, this`past, this`have, this`pos, this`seek, this`availIn, this`cursor
      ensures Ready() && Stands() && !seek && r == old(pos) + offset && cursor == Cursor([], r)
    {
      fd := fd + offset - have;
      have, eof, past, seek, availIn := 0, false, false, false, 0;
      pos := pos + offset;
      cursor := Cursor([], pos);
      r := pos;
    }

    /** A seek forward skips what is in the output buffer, and asks for the rest to be skipped later. */
    method SkipAhead(offset0: nat) returns (r: int)
      requires Ready() && Stands() && !seek && (how == Copy ==> pos + offset0 < 0)
      modifies this`have, this`next, this`pos, this`seek, this`skip, this`cursor
      ensures Ready() && Stands() && r == old(pos) + offset0
      ensures cursor == if r < 0 then old(cursor).Advance(offset0) else Cursor([], r)
    {
      hide Cursor.Ahead, Cursor.Advance, Ahead, From, Magic;
      WhereItStands();
      var n: nat := if have > offset0 then offset0 else have;
      SkipBuffered(n);
      var offset: nat := offset0 - n;
      if offset != 0 {
        seek, skip := true, offset;
        cursor := Cursor([], fd + offset);
      }
      r := pos + offset;
      if offset == 0 && r >= 0 {
        AtStart();
        cursor := Cursor([], 0);
      }
    }

    lemma AtStart()
      requires have == 0 && fd == 0 && next <= out.Length
      ensures Ahead() == Cursor([], 0).Ahead(file)
    {
    }

    /** What gzseek64 skips of the output buffer. */
    method SkipBuffered(n: nat)
      requires Ready() && Stands() && !seek && n <= have
      modifies this`have, this`next, this`pos, this`cursor
      ensures Ready() && Stands() && have == old(have) - n && pos == old(pos) + n && cursor == old(cursor).Advance(n)
    {
      hide From, Magic, Cursor.Ahead, Cursor.Advance, Cursor.Tell;
      ghost var ahead, part := Ahead(), out[next..next + n];
      Consume(n);
      AdvanceStays(cursor, n);
      StaysPut(cursor);
      DropMore(ahead, 0, part, Ahead());
      AdvanceDrops(file, cursor, n);
      cursor := cursor.Advance(n);
    }

    /** gzrewind. */
    method Gzrewind() returns (r: int)
      requires Valid()
      modifies this`fd, this`eof, this`past, this`have, this`pos, this`seek, this`availIn, this`how, this`cursor
      ensures Valid() && failed == old(failed) && (failed ==> r == -1)
      ensures !failed ==> (cursor, Number(r)) == Apply(file, old(cursor), Rewind) && how == Look
    {
      hide From, Cursor.Ahead, Line, Stands, Magic;
      if failed { return -1; }
      fd := 0;
      Reset();
      r := 0;
    }

    /** gz_reset. */
    method Reset()
      requires fd == 0 && Buffers() && direct && !Magic(file) && !failed && !ioError
      modifies this`eof, this`past, this`have, this`pos, this`seek, this`availIn, this`how, this`cursor
      ensures Valid() && cursor == Cursor([], 0) && how == Look
    {
      have, eof, past, how, seek, pos, availIn := 0, false, false, Look, false, 0, 0;
      cursor := Cursor([], 0);
    }

    /** gztell64. */
    method Gztell() returns (r: int)
      requires Valid()
      ensures !failed ==> (cursor, Number(r)) == Apply(file, cursor, Tell)
    {
      r := pos + if seek then skip else 0;
    }

    /** A file opened for reading, with buffers of `want0` bytes and twice that. */
    constructor (file0: seq<byte>, want0: nat)
      requires want0 >= 2 && !Magic(file0)
      ensures Valid() && !failed && file == file0 && want == want0 && size == 0 && Where() == Place(Cursor([], 0), false)
      ensures fresh(input) && fresh(out)
    {
      file, want := file0, want0;
      input, out := new byte[want0], new byte[2 * want0];
      fd, size, availIn, nextIn, have, next, pos := 0, 0, 0, 0, 0, 0, 0;
      how, direct, eof, past, seek, skip, failed, ioError := Look, true, false, false, false, 0, false, false;
      cursor := Cursor([], 0);
    }
  }

  /** One operation, on the reader: only an error of read(2) and a push-back without room are fatal. */
  method Perform(f: GzFile, op: Op) returns (r: Result)
    requires f.Valid() && !f.failed && (op.Read? ==> op.len <= INT_MAX)
    requires op.UngetC? ==> f.size == f.want >= 2
    requires op.Seek? ==> SeekPlain(f.Where(), op.offset, op.whence)
    modifies f, f.input, f.out
    ensures f.Valid() && (!f.failed ==> (f.Where(), r) == ApplyAt(f.file, old(f.Where()), op))
    ensures !f.failed ==> f.size == f.want || (f.size == old(f.size) && !Reads(op))
    ensures f.failed ==> f.ioError || (op.UngetC? && op.c >= 0 && !old(f.Where().Room(f.want)))
  {
    hide GzFile.Ready, GzFile.Stands, Apply, Place.Settled, Place.Pending, Place.Room, GzFile.Settled, Cursor.Tell;
    f.SettledIsSettled();
    match op {
      case GetC =>
        var c := f.Gzgetc();
        r := Number(c);
      case Read(len) =>
        var buf := new byte[len];
        var got := f.Gzread(buf, len);
        r := if f.failed then Null else Bytes(buf[..got]);
      case GetS(size) =>
        var buf := new byte[Max(size, 0)];
        var line := f.Gzgets(buf, size);
        r := if line == None then Null else Bytes(buf[..line.value]);
      case UngetC(c) =>
        ghost var room := f.Where().Room(f.want);
        if room { f.RoomMeans(); }
        var back := f.Gzungetc(c);
        r := Number(back);
      case Seek(offset, whence) =>
        f.WherePosition();
        if Target(f.cursor, offset, whence) < 0 { SeekFails(f.file, f.cursor, offset, whence); }
        var to := f.Gzseek(offset, whence);
        r := Number(to);
      case Rewind =>
        var zero := f.Gzrewind();
        r := Number(zero);
      case Tell =>
        var at := f.Gztell();
        r := Number(at);
    }
  }

  /** Any sensible sequence of operations gives what it gives on the plain cursor, however read(2) slices the file, unless
      read(2) fails or there is no room for a push-back; and then up to there. */
  method AnyGzRun(file: seq<byte>, want: nat, ops: seq<Op>) returns (f: GzFile, results: seq<Result>)
    requires want >= 2 && !Magic(file) && Sensible(file, ops)
    ensures f.Valid() && |results| <= |ops|
    ensures results == Plain(file, ops[..|results|]).results
    ensures !f.ioError && Fits(file, want, ops) ==> !f.failed
    ensures !f.failed ==> results == Plain(file, ops).results
  {
    hide GzFile.Ready, GzFile.Stands, Apply, ApplyAt, Place.Room;
    f := new GzFile(file, want);
    results := [];
    var i := 0;
    assert ops[..0] == [];
    while i < |ops|
      invariant 0 <= i <= |ops| && f.Valid() && !f.failed && f.file == file && f.want == want
      invariant fresh(f) && fresh(f.input) && fresh(f.out)
      invariant Run(f.Where(), results) == Plain(file, ops[..i]) && |results| == i
      invariant forall j :: 0 <= j < i && Reads(ops[j]) ==> f.size == f.want
    {
      var r := Perform(f, ops[i]);
      if f.failed { break; }
      assert ops[..i + 1][..i] == ops[..i];
      results := results + [r];
      i := i + 1;
    }
    assert i == |ops| ==> ops[..i] == ops;
  }

  /** A read after a seek to place 10 of a file of three bytes: one that waited has gone to the end, one made while copying
      has gone past it. */
  lemma SeekPastEnd(file: seq<byte>)
    requires |file| == 3
    ensures ApplyAt(file, Place(Cursor([], 10), false), GetC) == (Place(Cursor([], 3), true), Number(-1))
    ensures ApplyAt(file, Place(Cursor([], 10), true), GetC) == (Place(Cursor([], 10), true), Number(-1))
  {
    assert Cursor([], 3).Ahead(file) == [] && Cursor([], 10).Ahead(file) == [];
  }

  /** A seek that fails forgets the one that waits. */
  method SeekForgotten(file: seq<byte>) returns (f: GzFile, first: int, second: int)
    requires !Magic(file)
    ensures first == 10 && second == -1 && f.cursor == Cursor([], 0)
  {
    hide GzFile.Ready, Magic;
    f := new GzFile(file, 8192);
    first := f.Gzseek(10, SeekSet);
    f.SettledIsSettled();
    f.SeekWaits();
    second := f.Gzseek(-1, SeekSet);
  }

  /** A file that was read and rewound, with two bytes pushed back in front of its start. */
  method PushedInFront(file: seq<byte>, a: byte, b: byte) returns (f: GzFile)
    requires !Magic(file)
    ensures f.Valid() && (f.failed ==> f.ioError) && fresh(f) && fresh(f.input) && fresh(f.out)
    ensures !f.failed ==> f.Where() == Place(Cursor([b, a], 0), false)
  {
    hide GzFile.Ready, GzFile.Stands, Magic;
    f := new GzFile(file, 8192);
    var r := Perform(f, GetC);
    if f.failed { return; }
    r := Perform(f, Rewind);
    if f.failed { return; }
    r := Perform(f, UngetC(a));
    if f.failed { return; }
    assert [a] + [] == [a];
    r := Perform(f, UngetC(b));
    assert [b] + [a] == [b, a];
  }

  /** From there a seek of one byte forward returns the negative position -1, and moves, unless read(2) fails. */
  method SeekAmongPushed(file: seq<byte>, a: byte, b: byte) returns (f: GzFile, r: int)
    requires !Magic(file)
    ensures f.failed ==> f.ioError
    ensures !f.failed ==> r == -1 && f.cursor == Cursor([a], 0)
  {
    hide GzFile.Ready, Magic;
    f := PushedInFront(file, a, b);
    r := f.Gzseek(1, SeekCur);
  }
}
