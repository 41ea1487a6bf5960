/** The two ends of the audio stream: the Supercard's buffer of samples the DS has not yet reported as played, and the
    ARM9's buffer of samples the sound hardware has not yet asked for. */
module AudioRing {
  import opened Common

  /** The bytes of one sample, kept together; silence is 0. */
  type Sample = int
  const SILENCE: Sample := 0

  type halfword = x: int | 0 <= x < 65536

  const PENDING_SEND_AUDIO_CONSUMED: bv32 := 4
  const PENDING_SEND_AUDIO_STATUS: bv32 := 8

  function AddWrapFast(index: nat, increment: nat, size: nat): (r: nat)
    ensures index < size && increment <= size ==> r < size
  {
    if index + increment >= size then index + increment - size else index + increment
  }

  // Rings.

  /** The samples from index `from` up to index `to`, around the end of the buffer. */
  function Ring(buf: seq<Sample>, from: nat, to: nat): (r: seq<Sample>)
    requires from <= |buf| && to <= |buf|
    ensures |r| == if from <= to then to - from else |buf| - from + to
  {
    if from <= to then buf[from..to] else buf[from..] + buf[..to]
  }

  /** Moving the start of a ring forward drops samples from its front. */
  lemma RingDrops(buf: seq<Sample>, from: nat, to: nat, n: nat)
    requires from < |buf| && to < |buf| && n <= |Ring(buf, from, to)|
    ensures Ring(buf, AddWrapFast(from, n, |buf|), to) == Ring(buf, from, to)[n..]
  {
  }

  lemma RingStraight(buf: seq<Sample>, from: nat, to: nat, n: nat)
    requires from < to < |buf| && n <= to - from
    ensures Ring(buf, from, to)[..n] == buf[from..from + n]
  {
  }

  lemma RingAround(buf: seq<Sample>, from: nat, to: nat, a: nat, b: nat)
    requires to < from < |buf| && a <= |buf| - from && (b > 0 ==> a == |buf| - from) && b <= to
    ensures Ring(buf, from, to)[..a + b] == buf[from..from + a] + buf[0..b]
  {
  }

  /** `chunk` copied into the buffer at `at`. */
  function Splice(buf: seq<Sample>, at: nat, chunk: seq<Sample>): (r: seq<Sample>)
    requires at + |chunk| <= |buf|
    ensures |r| == |buf|
  {
    buf[..at] + chunk + buf[at + |chunk|..]
  }

  /** Samples copied behind the end of a ring that has room for them extend it. */
  lemma RingGrows(buf: seq<Sample>, from: nat, to: nat, chunk: seq<Sample>)
    requires from < |buf| && to < |buf| && to + |chunk| <= |buf|
    requires |Ring(buf, from, to)| + |chunk| < |buf|
    ensures Ring(Splice(buf, to, chunk), from, AddWrapFast(to, |chunk|, |buf|)) == Ring(buf, from, to) + chunk
  {
    if from <= to {
      GrowsStraight(buf, from, to, chunk);
    } else {
      GrowsAround(buf, from, to, chunk);
    }
  }

  lemma GrowsStraight(buf: seq<Sample>, from: nat, to: nat, chunk: seq<Sample>)
    requires from <= to && to + |chunk| <= |buf| && to < |buf| && to - from + |chunk| < |buf|
    ensures Ring(Splice(buf, to, chunk), from, AddWrapFast(to, |chunk|, |buf|)) == Ring(buf, from, to) + chunk
  {
    var buf' := Splice(buf, to, chunk);
    assert buf'[from..to + |chunk|] == buf[from..to] + chunk;
    if to + |chunk| == |buf| {
      assert buf'[from..] == buf'[from..to + |chunk|] && buf'[..0] == [];
    }
  }

  lemma GrowsAround(buf: seq<Sample>, from: nat, to: nat, chunk: seq<Sample>)
    requires to < from < |buf| && to + |chunk| < from
    ensures Ring(Splice(buf, to, chunk), from, AddWrapFast(to, |chunk|, |buf|)) == Ring(buf, from, to) + chunk
  {
    var buf' := Splice(buf, to, chunk);
    assert buf'[from..] == buf[from..] && buf'[..to + |chunk|] == buf[..to] + chunk;
    assert buf[from..] + (buf[..to] + chunk) == buf[from..] + buf[..to] + chunk;
  }

  /** A ring is its part up to a place in between and its part from there. */
  lemma RingSplits(buf: seq<Sample>, from: nat, mid: nat, to: nat)
    requires from < |buf| && mid < |buf| && to < |buf|
    requires |Ring(buf, from, mid)| + |Ring(buf, mid, to)| < |buf|
    ensures Ring(buf, from, to) == Ring(buf, from, mid) + Ring(buf, mid, to)
  {
  }

  // The bits of pending_sends.

  function Added(pending: bv32, mask: bv32): bv32 {
    pending | mask
  }

  function Removed(pending: bv32, mask: bv32): bv32 {
    pending & !mask
  }

  predicate Has(pending: bv32, mask: bv32) {
    pending & mask == mask
  }

  /** The lowest set bit. */
  function Lowest(pending: bv32): bv32 {
    pending & (!pending + 1)
  }

  /** A single bit that is set, below which none is, or nothing when nothing is pending. */
  predicate IsLowest(pending: bv32, bit: bv32) {
    && Has(pending, bit) && bit & (bit - 1) == 0
    && (pending != 0 ==> bit != 0 && pending & (bit - 1) == 0)
  }

  /** What take_pending_send picks. */
  lemma LowestIsLowest(pending: bv32)
    ensures IsLowest(pending, Lowest(pending)) && Has(pending, Lowest(pending))
  {
  }

  /** `bit` and `left` make up what is pending, and share nothing. */
  predicate Parts(pending: bv32, bit: bv32, left: bv32) {
    left | bit == pending && left & bit == 0
  }

  /** What is left when some bits that are set are removed. */
  lemma RemovedLeaves(pending: bv32, bit: bv32)
    requires Has(pending, bit)
    ensures Parts(pending, bit, Removed(pending, bit))
  {
  }

  /** `bit` was taken from `pending`, and `left` is what stays. */
  predicate Taken(pending: bv32, bit: bv32, left: bv32) {
    IsLowest(pending, bit) && Parts(pending, bit, left)
  }

  lemma TakenIs(pending: bv32)
    ensures Taken(pending, Lowest(pending), Removed(pending, Lowest(pending)))
  {
    hide Lowest, Removed, IsLowest, Has, Parts;
    LowestIsLowest(pending);
    RemovedLeaves(pending, Lowest(pending));
  }

  lemma AddedHas(pending: bv32, mask: bv32, other: bv32)
    ensures Has(Added(pending, mask), mask)
    ensures Has(pending, other) ==> Has(Added(pending, mask), other)
  {
  }

  lemma AddedOnly(pending: bv32, mask: bv32, other: bv32)
    requires mask & other == 0
    ensures Has(Added(pending, mask), other) == Has(pending, other)
  {
  }

  /** The ARM9's side. */
  class Receiver {
    var started: bool
    var samples: nat
    var buffer: seq<Sample>
    var readIndex: nat
    var writeIndex: nat
    var consumed: halfword
    var pending: bv32
    /** The Supercard has asked to be told when a stream has started or stopped. */
    const statusRequired: bool

    ghost predicate Valid()
      reads this
    {
      |buffer| == samples && readIndex < samples && writeIndex < samples
    }

    /** The samples received and not yet played. */
    ghost function Contents(): seq<Sample>
      requires Valid()
      reads this
    {
      Ring(buffer, readIndex, writeIndex)
    }

    /** add_pending_send. */
    method AddPendingSend(mask: bv32)
      modifies this`pending
      ensures pending == Added(old(pending), mask)
    {
      pending := pending | mask;
    }

    /** remove_pending_send. */
    method RemovePendingSend(mask: bv32)
      modifies this`pending
      ensures pending == Removed(old(pending), mask)
    {
      pending := pending & !mask;
    }

    /** take_pending_send. */
    method TakePendingSend() returns (result: bv32)
      modifies this`pending
      ensures Taken(old(pending), result, pending)
      ensures result == Lowest(old(pending)) && pending == Removed(old(pending), result)
    {
      hide *;
      TakenIs(pending);
      var sends := pending;
      result := Lowest(sends);
      pending := Removed(sends, result);
    }

    /** audio_update: what the sound hardware asks for, padded with silence. */
    method AudioUpdate(length: nat, dest: array<Sample>)
      requires Valid() && length <= dest.Length
      modifies this`readIndex, this`consumed, this`pending, dest
      ensures Valid()
      ensures var n := Min(length, |old(Contents())|);
        && dest[..n] == old(Contents())[..n] && Contents() == old(Contents())[n..]
        && (forall i :: n <= i < length ==> dest[i] == SILENCE)
        && consumed == (old(consumed) + n) % 65536
        && pending == if old(Contents()) == [] then old(pending) else Added(old(pending), PENDING_SEND_AUDIO_CONSUMED)
    {
      hide Added, Ring;
      var n := CopyFromRing(length, dest);
      RingDrops(buffer, readIndex, writeIndex, n);
      readIndex := AddWrapFast(readIndex, n, samples);
      consumed := (consumed + n) % 65536;
      Silence(dest, n, length);
    }

    /** memset of the rest of the destination. */
    method Silence(dest: array<Sample>, n: nat, length: nat)
      requires n <= length <= dest.Length
      modifies dest
      ensures dest[..n] == old(dest[..n]) && forall i :: n <= i < length ==> dest[i] == SILENCE
    {
      forall i | n <= i < length {
        dest[i] := SILENCE;
      }
    }

    /** The copies of audio_update. */
    method CopyFromRing(length: nat, dest: array<Sample>) returns (n: nat)
      requires Valid() && length <= dest.Length
      modifies this`pending, dest
      ensures n == Min(length, |Contents()|) && dest[..n] == Contents()[..n]
      ensures pending == if Contents() == [] then old(pending) else Added(old(pending), PENDING_SEND_AUDIO_CONSUMED)
    {
      hide Added, Ring;
      n := 0;
      if readIndex < writeIndex {
        n := writeIndex - readIndex;
        if n > length { n := length; }
        RingStraight(buffer, readIndex, writeIndex, n);
        CopySamples(dest, 0, readIndex, n);
        AddPendingSend(PENDING_SEND_AUDIO_CONSUMED);
      } else if readIndex > writeIndex {
        n := samples - (readIndex - writeIndex);
        if n > length { n := length; }
        var a: nat := samples - readIndex;
        if a > length { a := length; }
        var b: nat := n - a;
        RingAround(buffer, readIndex, writeIndex, a, b);
        CopyAround(dest, a, b);
        AddPendingSend(PENDING_SEND_AUDIO_CONSUMED);
      }
    }

    /** The two copies around the end of the buffer. */
    method CopyAround(dest: array<Sample>, a: nat, b: nat)
      requires readIndex + a <= |buffer| && b <= |buffer| && a + b <= dest.Length
      modifies dest
      ensures dest[..a + b] == buffer[readIndex..readIndex + a] + buffer[0..b]
    {
      CopySamples(dest, 0, readIndex, a);
      CopySamples(dest, a, 0, b);
      assert dest[..a + b] == dest[..a] + dest[a..a + b];
    }

    /** memcpy from the buffer. */
    method CopySamples(dest: array<Sample>, at: nat, from: nat, n: nat)
      requires from + n <= |buffer| && at + n <= dest.Length
      modifies dest
      ensures dest[at..at + n] == buffer[from..from + n] && dest[..at] == old(dest[..at])
    {
      forall i | 0 <= i < n {
        dest[at + i] := buffer[from + i];
      }
    }

    /** audio_encoding_0: a packet of samples from the Supercard. It is refused, fatally for the link, exactly when the
        samples do not fit, so that a full buffer never looks empty. */
    method AudioEncoding0(packet: seq<Sample>) returns (fatal: bool)
      requires Valid()
      modifies this`buffer, this`writeIndex
      ensures fatal <==> |old(Contents())| + |packet| >= samples
      ensures !fatal ==> Valid() && Contents() == old(Contents()) + packet
    {
      hide Ring, Splice;
      var src, left: nat := 0, |packet|;
      assert old(Contents()) + packet[..0] == old(Contents());
      while left > 0
        invariant Valid() && src + left == |packet| && src <= |packet| && |Contents()| < samples
        invariant Contents() == old(Contents()) + packet[..src]
        decreases left
      {
        var transfer: nat := samples - writeIndex;
        if transfer > left { transfer := left; }
        OverrunsExactly(buffer, readIndex, writeIndex, transfer);
        if Overruns(transfer) { return true; }
        var chunk := packet[src..src + transfer];
        RingGrows(buffer, readIndex, writeIndex, chunk);
        assert old(Contents()) + packet[..src] + chunk == old(Contents()) + packet[..src + transfer];
        buffer := Splice(buffer, writeIndex, chunk);
        src := src + transfer;
        writeIndex := AddWrapFast(writeIndex, transfer, samples);
        left := left - transfer;
      }
      assert packet[..src] == packet;
      return false;
    }

    /** The test for an overrun before `transfer` samples are written without wrapping. */
    predicate Overruns(transfer: nat)
      reads this`readIndex, this`writeIndex, this`samples
    {
      (readIndex == 0 && writeIndex + transfer == samples) ||
      (readIndex != 0 && writeIndex < readIndex && writeIndex + transfer >= readIndex)
    }

    lemma OverrunsExactly(buf: seq<Sample>, read: nat, write: nat, transfer: nat)
      requires |buf| == samples && read == readIndex < samples && write == writeIndex < samples && write + transfer <= samples
      ensures Overruns(transfer) <==> |Ring(buf, read, write)| + transfer >= samples
    {
    }

    /** The notice that a stream has started or stopped. */
    function Noticed(mask: bv32): bv32 {
      if statusRequired then Added(mask, PENDING_SEND_AUDIO_STATUS) else mask
    }

    /** audio_start. */
    method AudioStart(bufferSize: nat)
      modifies this
      ensures Valid() && started && samples == bufferSize + 1 && Contents() == []
      ensures consumed == if old(started) then 0 else old(consumed)
      ensures pending == Noticed(if old(started) then Noticed(Removed(old(pending), PENDING_SEND_AUDIO_CONSUMED)) else old(pending))
    {
      if started { AudioStop(); }
      samples := bufferSize + 1;
      buffer := seq(samples, _ => SILENCE);
      readIndex, writeIndex := 0, 0;
      started := true;
      if statusRequired {
        AddPendingSend(PENDING_SEND_AUDIO_STATUS);
      }
    }

    /** audio_stop. */
    method AudioStop()
      modifies this`pending, this`consumed, this`buffer, this`started
      ensures !started && consumed == 0
      ensures pending == Noticed(Removed(old(pending), PENDING_SEND_AUDIO_CONSUMED))
    {
      hide Added, Removed;
      RemovePendingSend(PENDING_SEND_AUDIO_CONSUMED);
      consumed := 0;
      buffer := [];
      started := false;
      if statusRequired {
        AddPendingSend(PENDING_SEND_AUDIO_STATUS);
      }
    }

    constructor (statusRequired0: bool)
      ensures !started && consumed == 0 && pending == 0 && statusRequired == statusRequired0
    {
      started, samples, buffer, readIndex, writeIndex, consumed, pending := false, 0, [], 0, 0, 0, 0;
      statusRequired := statusRequired0;
    }
  }

  datatype Status = Stopped | Stopping | Started | Starting

  /** The Supercard's side. */
  class Sender {
    var status: Status
    var samples: nat
    var sizeShift: nat
    var buffer: seq<Sample>
    var readIndex: nat
    var sendIndex: nat
    var writeIndex: nat
    /** The bits of pending_sends for audio and for requests, and the requests. */
    var pendingAudio: bool
    var pendingRequests: bool
    var startAudio: bool
    var stopAudio: bool
    var bufferSize: nat

    /** The indices stand in this order around the buffer, and samples are pending while there are any to send. */
    ghost predicate Valid()
      reads this
    {
      && |buffer| == samples && readIndex < samples && sendIndex < samples && writeIndex < samples && sizeShift <= 2
      && |Ring(buffer, readIndex, sendIndex)| + |Ring(buffer, sendIndex, writeIndex)| < samples
      && (pendingAudio ==> sendIndex != writeIndex) && (status == Started && sendIndex != writeIndex ==> pendingAudio)
    }

    /** The samples the DS has not reported as played. */
    ghost function Unplayed(): seq<Sample>
      requires Valid()
      reads this
    {
      Ring(buffer, readIndex, writeIndex)
    }

    /** The samples that have yet to be sent. */
    ghost function Unsent(): seq<Sample>
      requires Valid()
      reads this
    {
      Ring(buffer, sendIndex, writeIndex)
    }

    ghost function InUse(): nat
      requires Valid()
      reads this
    {
      |Ring(buffer, readIndex, sendIndex)|
    }

    /** DS2_GetFreeAudioSamples: exactly the room that is left, with one slot always empty, or the largest 32-bit number
        before the first stream. It does not look at the status, so that it is 0, as documented for audio that is not
        started, exactly when the samples of the last stream that are not played fill its buffer. */
    method GetFreeAudioSamples() returns (free: nat)
      requires (Valid() && samples <= 0x1_0000_0000) || samples == readIndex == writeIndex == 0
      ensures samples == 0 ==> free == 0xffff_ffff
      ensures samples > 0 ==> free == samples - 1 - |Unplayed()|
      ensures free == 0 <==> samples > 0 && |Unplayed()| == samples - 1
    {
      if readIndex > writeIndex {
        free := readIndex - writeIndex - 1;
      } else {
        free := (samples - (writeIndex - readIndex) - 1) % 0x1_0000_0000;
      }
    }

    /** One round of the loop of DS2_SubmitAudio: the samples accepted now. Some are whenever there is room. */
    method SubmitRound(data: seq<Sample>) returns (n: nat)
      requires Valid()
      modifies this`buffer, this`writeIndex, this`pendingAudio
      ensures Valid() && n <= |data|
      ensures Unplayed() == old(Unplayed()) + data[..n] && Unsent() == old(Unsent()) + data[..n]
      ensures InUse() == old(InUse())
      ensures n == 0 <==> data == [] || |old(Unplayed())| == samples - 1
    {
      hide Ring, Splice;
      n := 0;
      if writeIndex >= readIndex {
        n := samples - writeIndex;
        if readIndex == 0 { n := n - 1; }
      } else {
        n := readIndex - writeIndex - 1;
      }
      if n > |data| { n := |data|; }
      RingSplits(buffer, readIndex, sendIndex, writeIndex);
      if n > 0 {
        PutSamples(data[..n]);
      } else {
        assert data[..0] == [];
        NothingMore(Unplayed());
        NothingMore(Unsent());
      }
    }

    /** The copy of DS2_SubmitAudio. */
    method PutSamples(chunk: seq<Sample>)
      requires Valid() && 0 < |chunk| && writeIndex + |chunk| <= samples && |Unplayed()| + |chunk| < samples
      modifies this`buffer, this`writeIndex, this`pendingAudio
      ensures Valid() && Unplayed() == old(Unplayed()) + chunk && Unsent() == old(Unsent()) + chunk && InUse() == old(InUse())
    {
      hide Splice;
      RingSplits(buffer, readIndex, sendIndex, writeIndex);
      RingGrows(buffer, readIndex, writeIndex, chunk);
      RingGrows(buffer, sendIndex, writeIndex, chunk);
      buffer := Splice(buffer, writeIndex, chunk);
      writeIndex := AddWrapFast(writeIndex, |chunk|, samples);
      pendingAudio := true;
    }

    /** The packet made by the Supercard's audio encoder. */
    method EncodePacket(send: nat, write: nat) returns (packet: seq<Sample>)
      requires |buffer| == samples && send < samples && write < samples && send != write && sizeShift <= 2
      ensures packet == Ring(buffer, send, write)[..Min(508 / Pow2(sizeShift), |Ring(buffer, send, write)|)]
    {
      var max: nat := 508 / Pow2(sizeShift);
      if send < write {
        var n: nat := write - send;
        if n > max { n := max; }
        packet := buffer[send..send + n];
      } else {
        var n: nat := samples - (send - write);
        if n > max { n := max; }
        var a: nat := samples - send;
        if a > max { a := max; }
        var b: nat := n - a;
        packet := buffer[send..send + a] + buffer[..b];
      }
    }

    /** _audio_dequeue: the next packet, and whether more is pending. */
    method AudioDequeue() returns (packet: seq<Sample>)
      requires Valid() && pendingAudio
      modifies this`sendIndex, this`pendingAudio
      ensures Valid() && 0 < |packet| <= 508 && old(Unsent()) == packet + Unsent() && Unplayed() == old(Unplayed())
      ensures InUse() == old(InUse()) + |packet|
    {
      hide Ring;
      pendingAudio := false;
      packet := EncodePacket(sendIndex, writeIndex);
      PacketSizes(sizeShift);
      RingSplits(buffer, readIndex, sendIndex, writeIndex);
      RingDrops(buffer, sendIndex, writeIndex, |packet|);
      RingMoves(buffer, readIndex, sendIndex, |packet|);
      sendIndex := AddWrapFast(sendIndex, |packet|, samples);
      if sendIndex != writeIndex {
        pendingAudio := true;
      }
    }

    /** _audio_consumed: the DS reports samples as played. */
    method AudioConsumed(count: nat)
      requires Valid() && count <= InUse()
      modifies this`readIndex
      ensures Valid() && Unplayed() == old(Unplayed())[count..] && Unsent() == old(Unsent()) && InUse() == old(InUse()) - count
    {
      hide Ring;
      RingSplits(buffer, readIndex, sendIndex, writeIndex);
      RingDrops(buffer, readIndex, sendIndex, count);
      RingDrops(buffer, readIndex, writeIndex, count);
      readIndex := AddWrapFast(readIndex, count, samples);
    }

    /** DS2_StartAudio, once the stream is stopped. */
    method StartAudio(size: nat, is16bit: bool, isStereo: bool)
      requires status == Stopped && !pendingAudio && size < 65536
      modifies this
      ensures Valid() && status == Starting && samples == size + 1 && Unplayed() == Unsent() == []
      ensures pendingRequests && startAudio && bufferSize == size && stopAudio == old(stopAudio) && !pendingAudio
    {
      sizeShift := (if is16bit then 1 else 0) + (if isStereo then 1 else 0);
      bufferSize := size;
      samples := size + 1;
      buffer := seq(samples, _ => SILENCE);
      startAudio := true;
      readIndex, sendIndex, writeIndex := 0, 0, 0;
      status := Starting;
      pendingRequests := true;
    }

    /** DS2_StopAudio, once the stream is started. The buffer is not looked at again. */
    method StopAudio()
      requires Valid() && status == Started
      modifies this`status, this`stopAudio, this`pendingAudio, this`pendingRequests
      ensures Valid() && status == Stopping && stopAudio && pendingRequests && !pendingAudio && Unplayed() == old(Unplayed())
    {
      stopAudio := true;
      status := Stopping;
      pendingAudio := false;
      pendingRequests := true;
    }

    /** _send_requests: the requests go out, and are cleared. */
    method SendRequests() returns (start: bool, stop: bool, size: nat)
      modifies this`pendingRequests, this`startAudio, this`stopAudio
      ensures start == old(startAudio) && stop == old(stopAudio) && size == bufferSize
      ensures !pendingRequests && !startAudio && !stopAudio
    {
      start, stop, size := startAudio, stopAudio, bufferSize;
      startAudio, stopAudio, pendingRequests := false, false, false;
    }

    constructor ()
      ensures status == Stopped && !pendingAudio && !pendingRequests && !startAudio && !stopAudio
      ensures samples == readIndex == writeIndex == 0
    {
      status, samples, sizeShift, buffer, readIndex, sendIndex, writeIndex := Stopped, 0, 0, [], 0, 0, 0;
      pendingAudio, pendingRequests, startAudio, stopAudio, bufferSize := false, false, false, false, 0;
    }
  }

  /** Before the first stream all of a 32-bit number of samples is free, it is said. */
  method FreeBeforeFirstStream() returns (status: Status, free: nat)
    ensures status == Stopped && free == 0xffff_ffff
  {
    var s := new Sender();
    status := s.status;
    free := s.GetFreeAudioSamples();
  }

  /** After a stream was stopped its whole buffer is free, it is said. */
  method FreeAfterStop() returns (status: Status, free: nat)
    ensures status == Stopped && free == 1000
  {
    var s := new Sender();
    s.StartAudio(1000, true, true);
    s.status := Started;
    s.StopAudio();
    s.status := Stopped;
    status := s.status;
    free := s.GetFreeAudioSamples();
  }

  lemma NothingMore(s: seq<Sample>)
    ensures s + [] == s
  {
  }

  lemma PacketSizes(shift: nat)
    requires shift <= 2
    ensures 127 <= 508 / Pow2(shift) <= 508
  {
    assert Pow2(1) == 2 && Pow2(2) == 4;
  }

  /** Moving the end of a ring forward lengthens it. */
  lemma RingMoves(buf: seq<Sample>, from: nat, to: nat, n: nat)
    requires from < |buf| && to < |buf| && |Ring(buf, from, to)| + n < |buf|
    ensures |Ring(buf, from, AddWrapFast(to, n, |buf|))| == |Ring(buf, from, to)| + n
  {
  }
}
