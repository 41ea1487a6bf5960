/** The audio stream from end to end: every interleaving of the Supercard's application and command handler with the
    ARM9's main loop and sound interrupt. */
module AudioLink {
  import opened Common
  import opened AudioRing

  /** What the ARM9's main loop is doing with the card bus. It does one thing at a time. */
  datatype Main = Idle | SendingConsumed(count: nat) | SendingStatus(on: bool) |
                  HoldingPacket(packet: seq<Sample>) | HoldingRequests(start: bool, stop: bool, size: nat) {
    function Held(): seq<Sample> {
      if HoldingPacket? then packet else []
    }

    function InFlight(): nat {
      if SendingConsumed? then count else 0
    }
  }

  /** Where the samples submitted so far are, in order, and how many of them the Supercard knows to be played. */
  datatype Flow = Flow(submitted: seq<Sample>, played: seq<Sample>, ring: seq<Sample>, held: seq<Sample>,
                       unsent: seq<Sample>, unplayed: seq<Sample>, acked: nat, inFlight: nat, consumed: nat) {
    ghost predicate Conserved(samples: nat) {
      && submitted == played + ring + held + unsent
      && acked + inFlight + consumed == |played|
      && unplayed == submitted[acked..] && |unplayed| < samples
    }

    /** Samples on their way never outnumber the room that is left for them. */
    lemma Bounds(samples: nat)
      requires Conserved(samples)
      ensures |ring| + |held| < samples && consumed < samples && inFlight + consumed < samples
      ensures played <= submitted
    {
    }
  }

  lemma FlowSubmits(f: Flow, f': Flow, samples: nat, data: seq<Sample>)
    requires f.Conserved(samples) && |f.unplayed| + |data| < samples
    requires f' == f.(submitted := f.submitted + data, unsent := f.unsent + data, unplayed := f.unplayed + data)
    ensures f'.Conserved(samples)
  {
    assert f.played + f.ring + f.held + f.unsent + data == f.played + f.ring + f.held + (f.unsent + data);
    assert f.acked <= |f.submitted|;
    assert (f.submitted + data)[f.acked..] == f.submitted[f.acked..] + data;
  }

  lemma FlowDequeues(f: Flow, f': Flow, samples: nat, packet: seq<Sample>)
    requires f.Conserved(samples) && f.held == [] && f.unsent == packet + f'.unsent
    requires f' == f.(held := packet, unsent := f'.unsent)
    ensures f'.Conserved(samples)
  {
    assert f.played + f.ring + [] + (packet + f'.unsent) == f.played + f.ring + packet + f'.unsent;
  }

  lemma FlowReceives(f: Flow, f': Flow, samples: nat)
    requires f.Conserved(samples) && f' == f.(ring := f.ring + f.held, held := [])
    ensures f'.Conserved(samples)
  {
    assert f.played + f.ring + f.held + f.unsent == f.played + (f.ring + f.held) + [] + f.unsent;
  }

  lemma FlowPlays(f: Flow, f': Flow, samples: nat, n: nat)
    requires f.Conserved(samples) && n <= |f.ring|
    requires f' == f.(played := f.played + f.ring[..n], ring := f.ring[n..], consumed := f.consumed + n)
    ensures f'.Conserved(samples)
  {
    assert f.ring == f.ring[..n] + f.ring[n..];
    assert f.played + f.ring + f.held + f.unsent == f.played + f.ring[..n] + f.ring[n..] + f.held + f.unsent;
  }

  /** The count on its way has arrived. */
  function Acknowledged(f: Flow): Flow {
    f.(acked := f.acked + f.inFlight, inFlight := 0, unplayed := f.unplayed[Min(f.inFlight, |f.unplayed|)..])
  }

  lemma FlowAcknowledges(f: Flow, samples: nat)
    requires f.Conserved(samples)
    ensures Acknowledged(f).Conserved(samples) && f.inFlight <= |f.unplayed|
  {
    assert f.submitted[f.acked..][f.inFlight..] == f.submitted[f.acked + f.inFlight..];
  }

  /** How far the request to start or to stop has got, and its answer: the handshake that keeps two streams apart. */
  ghost predicate Handshake(status: Status, on: bool, startReq: bool, stopReq: bool, main: Main, statusDue: bool) {
    var startHeld, stopHeld := main.HoldingRequests? && main.start, main.HoldingRequests? && main.stop;
    var answer := statusDue || main.SendingStatus?;
    && !(statusDue && main.SendingStatus?) && !(startReq && startHeld) && !(stopReq && stopHeld)
    && (main.SendingStatus? ==> main.on == on)
    && match status
       case Stopped => !on && !startReq && !stopReq && !startHeld && !stopHeld && !answer
       case Starting => !stopReq && !stopHeld && (if on then answer && !startReq && !startHeld else !answer && (startReq || startHeld))
       case Started => on && !startReq && !stopReq && !startHeld && !stopHeld && !answer
       case Stopping => !startReq && !startHeld && (if on then !answer && (stopReq || stopHeld) else answer && !stopReq && !stopHeld)
  }

  class Link {
    const sup: Sender
    const arm: Receiver
    var main: Main

    /** Samples submitted to the stream, samples given to the sound hardware, and how many the Supercard was told of. */
    ghost var submitted: seq<Sample>
    ghost var played: seq<Sample>
    ghost var acked: nat

    ghost function CurrentFlow(): Flow
      requires sup.Valid() && arm.Valid()
      reads this, sup, arm
    {
      Flow(submitted, played, arm.Contents(), main.Held(), sup.Unsent(), sup.Unplayed(), acked, main.InFlight(), arm.consumed)
    }

    /** While the ARM9 plays a stream, no sample is lost, and a count that is due is pending. */
    ghost predicate Streaming()
      reads this, sup, arm
    {
      && sup.Valid() && arm.Valid() && sup.samples == arm.samples <= 65536
      && CurrentFlow().Conserved(sup.samples)
      && (arm.consumed > 0 ==> Has(arm.pending, PENDING_SEND_AUDIO_CONSUMED))
      && (sup.status == Starting ==> submitted == [])
    }

    /** While it plays none, nothing of a stream is on its way. */
    ghost predicate Quiet()
      reads this, sup, arm
    {
      && arm.consumed == 0 && !Has(arm.pending, PENDING_SEND_AUDIO_CONSUMED) && !main.HoldingPacket? && !main.SendingConsumed?
      && (sup.status == Starting ==>
           sup.Valid() && sup.samples == sup.bufferSize + 1 <= 65536 && sup.Unplayed() == sup.Unsent() == [] &&
           submitted == played == [] && acked == 0 &&
           (main.HoldingRequests? && main.start ==> main.size == sup.bufferSize))
    }

    ghost predicate Valid()
      reads this, sup, arm
    {
      && Handshake(sup.status, arm.started, sup.startAudio, sup.stopAudio, main, Has(arm.pending, PENDING_SEND_AUDIO_STATUS))
      && (sup.pendingAudio ==> sup.status == Started)
      && (if arm.started then Streaming() else Quiet())
      && arm.statusRequired
    }

    /** What a valid state means for the stream that is on: the samples played are the first of those submitted, and the
        Supercard's count of them, the count on its way and the count due add up to their number. */
    lemma StreamIsFaithful()
      requires Valid() && arm.started
      ensures arm.Valid() && played <= submitted && acked + main.InFlight() + arm.consumed == |played|
      ensures arm.consumed > 0 ==> Has(arm.pending, PENDING_SEND_AUDIO_CONSUMED)
      ensures sup.Valid() && submitted == played + arm.Contents() + main.Held() + sup.Unsent()
    {
      CurrentFlow().Bounds(sup.samples);
    }

    /** DS2_SubmitAudio, one round. */
    method Submit(data: seq<Sample>) returns (n: nat)
      requires Valid()
      modifies sup, this`submitted
      ensures Valid() && n <= |data|
      ensures if old(sup.status) == Started then submitted == old(submitted) + data[..n] else n == 0 && submitted == old(submitted)
    {
      hide Ring, Has;
      if sup.status != Started { return 0; }
      ghost var f := CurrentFlow();
      n := sup.SubmitRound(data);
      submitted := submitted + data[..n];
      FlowSubmits(f, CurrentFlow(), sup.samples, data[..n]);
    }

    /** DS2_StartAudio, where it does not wait. */
    method Start(size: nat, is16bit: bool, isStereo: bool)
      requires Valid() && size < 65536
      modifies sup, this`submitted, this`played, this`acked
      ensures Valid() && (old(sup.status) == Stopped ==> sup.status == Starting && submitted == played == [])
    {
      hide Ring, Has;
      if sup.status != Stopped { return; }
      sup.StartAudio(size, is16bit, isStereo);
      submitted, played, acked := [], [], 0;
    }

    /** DS2_StopAudio, where it does not wait. */
    method Stop()
      requires Valid()
      modifies sup
      ensures Valid()
      ensures if old(sup.status) == Started then sup.status == Stopping && sup.stopAudio && sup.pendingRequests && !sup.pendingAudio
              else sup.status == old(sup.status)
    {
      hide Ring, Has;
      if sup.status != Started { return; }
      sup.StopAudio();
    }

    /** The main loop of the ARM9 picks what to send next. */
    method TakePending()
      requires Valid() && main == Idle
      modifies arm`pending, arm`consumed, this`main
      ensures Valid()
    {
      hide Ring, Has, Lowest, Removed, Taken;
      ghost var pending := arm.pending;
      var bit := arm.TakePendingSend();
      TakenBits(pending);
      if bit == PENDING_SEND_AUDIO_CONSUMED {
        main := SendingConsumed(arm.consumed);
        arm.consumed := 0;
      } else if bit == PENDING_SEND_AUDIO_STATUS {
        main := SendingStatus(arm.started);
      }
    }

    /** The command reaches the Supercard, whose handler answers it. */
    method Deliver()
      requires Valid() && (main.SendingConsumed? || main.SendingStatus?)
      modifies sup, this`main, this`acked
      ensures Valid() && main == Idle
    {
      hide Valid;
      if main.SendingConsumed? {
        DeliverCount();
      } else {
        DeliverStatus();
      }
    }

    method DeliverCount()
      requires Valid() && main.SendingConsumed?
      modifies sup`readIndex, this`main, this`acked
      ensures Valid() && main == Idle
    {
      hide Ring, Has, Flow.Conserved;
      ghost var f := CurrentFlow();
      FlowAcknowledges(f, sup.samples);
      InUseCovers();
      sup.AudioConsumed(main.count);
      acked := acked + main.count;
      main := Idle;
      assert CurrentFlow() == Acknowledged(f);
    }

    method DeliverStatus()
      requires Valid() && main.SendingStatus?
      modifies sup`status, this`main
      ensures Valid() && main == Idle
    {
      hide Ring, Has;
      sup.status := if main.on then Started else Stopped;
      main := Idle;
    }

    /** What was reported as played has been sent. */
    lemma InUseCovers()
      requires sup.Valid() && arm.Valid() && CurrentFlow().Conserved(sup.samples)
      ensures main.InFlight() <= sup.InUse()
    {
      RingSplits(sup.buffer, sup.readIndex, sup.sendIndex, sup.writeIndex);
    }

    /** process_send_queue, as far as the reply: a packet of audio. */
    method FetchAudio()
      requires Valid() && main == Idle
      modifies sup, this`main
      ensures Valid()
      ensures if !old(sup.pendingAudio) then main == Idle
              else main.HoldingPacket? && sup.Valid() && main.packet != [] && sup.buffer == old(sup.buffer) &&
                   Ring(sup.buffer, old(sup.sendIndex), sup.writeIndex) == main.packet + sup.Unsent()
    {
      hide Ring, Has;
      if !sup.pendingAudio { return; }
      ghost var f := CurrentFlow();
      var packet := sup.AudioDequeue();
      main := HoldingPacket(packet);
      FlowDequeues(f, CurrentFlow(), sup.samples, packet);
    }

    /** process_send_queue, as far as the reply: the requests. */
    method FetchRequests()
      requires Valid() && main == Idle
      modifies sup, this`main
      ensures Valid() && !sup.pendingRequests
      ensures if !old(sup.pendingRequests) then main == Idle
              else main == HoldingRequests(old(sup.startAudio), old(sup.stopAudio), sup.bufferSize) && !sup.startAudio && !sup.stopAudio
    {
      hide Ring, Has;
      if !sup.pendingRequests { return; }
      var start, stop, size := sup.SendRequests();
      main := HoldingRequests(start, stop, size);
    }

    /** The packet goes to the ARM9's buffer. It never overruns it. */
    method StorePacket() returns (fatal: bool)
      requires Valid() && main.HoldingPacket?
      modifies arm, this`main
      ensures !fatal && Valid() && main == Idle
    {
      hide Ring, Has;
      ghost var f := CurrentFlow();
      f.Bounds(sup.samples);
      fatal := arm.AudioEncoding0(main.packet);
      main := Idle;
      FlowReceives(f, CurrentFlow(), sup.samples);
    }

    /** process_requests, as far as audio goes. */
    method CarryOutRequests()
      requires Valid() && main.HoldingRequests?
      modifies arm, this`main
      ensures Valid() && main == Idle
      ensures arm.started == (old(main.start) || (old(arm.started) && !old(main.stop)))
      ensures old(main.start) ==> arm.Valid() && arm.samples == old(main.size) + 1 && arm.Contents() == []
    {
      hide Ring, Has, Added, Removed;
      var pending := arm.pending;
      StopBits(pending);
      if main.stop { arm.AudioStop(); }
      StartBits(arm.pending);
      if main.start { arm.AudioStart(main.size); }
      main := Idle;
    }

    /** The sound hardware asks for samples. */
    method SoundInterrupt(length: nat, dest: array<Sample>) returns (ghost n: nat)
      requires Valid() && length <= dest.Length
      modifies arm, dest, this`played
      ensures Valid() && n <= length && (arm.started ==> arm.Valid()) && (arm.started ==> played == old(played) + dest[..n])
      ensures arm.started ==> (forall i :: n <= i < length ==> dest[i] == SILENCE) && (n == length || arm.Contents() == [])
    {
      hide Ring, Has, Added;
      n := 0;
      if !arm.started { return; }
      ghost var f := CurrentFlow();
      n := Min(length, |f.ring|);
      f.Bounds(sup.samples);
      AddedHas(arm.pending, PENDING_SEND_AUDIO_CONSUMED, PENDING_SEND_AUDIO_CONSUMED);
      AddedOnly(arm.pending, PENDING_SEND_AUDIO_CONSUMED, PENDING_SEND_AUDIO_STATUS);
      arm.AudioUpdate(length, dest);
      played := played + dest[..n];
      FlowPlays(f, CurrentFlow(), sup.samples, n);
    }

    /** Any other interrupt of the ARM9 adds other things to send. */
    method OtherInterrupt(mask: bv32)
      requires Valid() && mask & (PENDING_SEND_AUDIO_CONSUMED | PENDING_SEND_AUDIO_STATUS) == 0
      modifies arm`pending
      ensures Valid()
    {
      hide Ring, Has, Added;
      OtherBits(arm.pending, mask);
      arm.AddPendingSend(mask);
    }

    constructor ()
      ensures Valid() && fresh(sup) && fresh(arm) && main == Idle
    {
      sup := new Sender();
      arm := new Receiver(true);
      main := Idle;
      submitted, played, acked := [], [], 0;
      new;
    }
  }

  lemma TakenBits(pending: bv32)
    ensures var left := Removed(pending, Lowest(pending));
      && (Lowest(pending) == PENDING_SEND_AUDIO_CONSUMED ==> Has(pending, PENDING_SEND_AUDIO_CONSUMED))
      && (Lowest(pending) == PENDING_SEND_AUDIO_STATUS ==> Has(pending, PENDING_SEND_AUDIO_STATUS))
      && Has(left, PENDING_SEND_AUDIO_CONSUMED) == (Has(pending, PENDING_SEND_AUDIO_CONSUMED) && Lowest(pending) != PENDING_SEND_AUDIO_CONSUMED)
      && Has(left, PENDING_SEND_AUDIO_STATUS) == (Has(pending, PENDING_SEND_AUDIO_STATUS) && Lowest(pending) != PENDING_SEND_AUDIO_STATUS)
  {
  }

  lemma StopBits(pending: bv32)
    ensures var after := Added(Removed(pending, PENDING_SEND_AUDIO_CONSUMED), PENDING_SEND_AUDIO_STATUS);
      !Has(after, PENDING_SEND_AUDIO_CONSUMED) && Has(after, PENDING_SEND_AUDIO_STATUS)
  {
  }

  lemma StartBits(pending: bv32)
    ensures var after := Added(pending, PENDING_SEND_AUDIO_STATUS);
      Has(after, PENDING_SEND_AUDIO_STATUS) && Has(after, PENDING_SEND_AUDIO_CONSUMED) == Has(pending, PENDING_SEND_AUDIO_CONSUMED)
  {
  }

  lemma OtherBits(pending: bv32, mask: bv32)
    requires mask & (PENDING_SEND_AUDIO_CONSUMED | PENDING_SEND_AUDIO_STATUS) == 0
    ensures Has(Added(pending, mask), PENDING_SEND_AUDIO_CONSUMED) == Has(pending, PENDING_SEND_AUDIO_CONSUMED)
    ensures Has(Added(pending, mask), PENDING_SEND_AUDIO_STATUS) == Has(pending, PENDING_SEND_AUDIO_STATUS)
  {
  }

  /** One atomic step: of the application, of the ARM9's main loop, of the sound hardware, or of another interrupt. */
  datatype Event = Submits(data: seq<Sample>) | Starts(size: nat, is16bit: bool, isStereo: bool) | Stops |
                   MainTakes | MainAsks(audio: bool) | MainGoesOn | Plays(length: nat) | Interrupts(mask: bv32)

  /** One step, where it is possible. */
  method Step(link: Link, e: Event) returns (fatal: bool)
    requires link.Valid()
    modifies link, link.sup, link.arm
    ensures link.Valid() && !fatal
  {
    hide Link.Valid, Ring, Has;
    fatal := false;
    match e {
      case Submits(data) =>
        var n := link.Submit(data);
      case Starts(size, is16bit, isStereo) =>
        if size < 65536 { link.Start(size, is16bit, isStereo); }
      case Stops =>
        link.Stop();
      case MainTakes =>
        if link.main == Idle { link.TakePending(); }
      case MainAsks(audio) =>
        if link.main == Idle {
          if audio { link.FetchAudio(); } else { link.FetchRequests(); }
        }
      case MainGoesOn =>
        match link.main {
          case Idle =>
          case SendingConsumed(_) => link.Deliver();
          case SendingStatus(_) => link.Deliver();
          case HoldingPacket(_) => fatal := link.StorePacket();
          case HoldingRequests(_, _, _) => link.CarryOutRequests();
        }
      case Plays(length) =>
        var dest := new Sample[length];
        ghost var n := link.SoundInterrupt(length, dest);
      case Interrupts(mask) =>
        if mask & (PENDING_SEND_AUDIO_CONSUMED | PENDING_SEND_AUDIO_STATUS) == 0 { link.OtherInterrupt(mask); }
    }
  }

  /** Every interleaving: the overrun error is never met, and at every moment what was played of the current stream is
      what was submitted to it, in order and without gaps, however acknowledgements and streams overlap. */
  method AnyInterleaving(events: seq<Event>) returns (link: Link, fatal: bool)
    ensures link.Valid() && !fatal
    ensures link.arm.started ==> link.arm.Valid() && link.played <= link.submitted
    ensures link.arm.started ==> link.sup.Valid() && link.submitted == link.played + link.arm.Contents() + link.main.Held() + link.sup.Unsent()
    ensures link.arm.started ==> link.acked + link.main.InFlight() + link.arm.consumed == |link.played|
  {
    hide Link.Valid, Ring, Has;
    link := new Link();
    fatal := false;
    var i := 0;
    while i < |events|
      invariant 0 <= i <= |events| && link.Valid() && !fatal && fresh(link) && fresh(link.sup) && fresh(link.arm)
    {
      fatal := Step(link, events[i]);
      i := i + 1;
    }
    if link.arm.started { link.StreamIsFaithful(); }
  }
}
