/** The flush values, states and return codes shared by the deflate functions. */
module Zlib {
  import opened Common

  datatype Flush = NoFlush | PartialFlush | SyncFlush | FullFlush | Finish | BlockFlush

  datatype Status = InitState | BusyState | FinishState

  datatype BlockState = NeedMore | BlockDone | FinishStarted | FinishDone

  datatype ReturnCode = Ok | StreamEnd | StreamError | BufError

  /** The parameters of deflateInit2_ as it understands them: level, window size and wrapper (1 for zlib, 2 for gzip). */
  datatype Setup = Setup(level: nat, wBits: nat, wrap: nat)

  /** The checks of deflateInit2_; nothing for what it refuses with Z_STREAM_ERROR. A window of 256 bytes becomes one of 512. */
  function InitSetup(level: int, windowBits: int, memLevel: int): (r: Option<Setup>)
    ensures r.Some? ==> r.value.level <= 9 && 9 <= r.value.wBits <= 15 && r.value.wrap <= 2 && 1 <= memLevel <= 9
  {
    var theLevel := if level == -1 then 6 else level;
    var wrap := if windowBits < 0 then 0 else if windowBits > 15 then 2 else 1;
    var bits := if windowBits < 0 then -windowBits else if windowBits > 15 then windowBits - 16 else windowBits;
    if memLevel < 1 || memLevel > 9 || bits < 8 || bits > 15 || theLevel < 0 || theLevel > 9 || (bits == 8 && wrap != 1) then None
    else Some(Setup(theLevel, if bits == 8 then 9 else bits, wrap))
  }

  function FlushCode(flush: Flush): int {
    match flush
    case NoFlush => 0
    case PartialFlush => 1
    case SyncFlush => 2
    case FullFlush => 3
    case Finish => 4
    case BlockFlush => 5
  }

  function Rank(flush: int): int {
    flush * 2 - if flush > 4 then 9 else 0
  }

  /** The order of deflate's first checks: the error it returns, or Z_OK when what was pending fills the output, or nothing
      when it goes on. */
  function Entry(status: Status, flush: Flush, lastFlush: int, availIn: nat, availOut: nat, pending: nat): (r: Option<ReturnCode>)
    ensures r != Some(StreamEnd) && (status == FinishState && flush != Finish ==> r == Some(StreamError))
  {
    if status == FinishState && flush != Finish then Some(StreamError)
    else if availOut == 0 then Some(BufError)
    else if pending >= availOut then Some(Ok)
    else if pending == 0 && availIn == 0 && Rank(FlushCode(flush)) <= Rank(lastFlush) && flush != Finish then Some(BufError)
    else if status == FinishState && availIn != 0 then Some(BufError)
    else None
  }

  /** After Z_FINISH, with one byte pending, room for two and more input: the pending byte goes out, and then there is an error. */
  lemma ErrorBehindOutput()
    ensures Entry(FinishState, Finish, FlushCode(Finish), 1, 2, 1) == Some(BufError)
  {
  }

  /** One call by the client: more input, room for output, and what to flush. */
  datatype Call = Call(more: seq<byte>, room: nat, flush: Flush)

  function Supplied(calls: seq<Call>): seq<byte> {
    if calls == [] then [] else Supplied(calls[..|calls| - 1]) + calls[|calls| - 1].more
  }
}
