/**
 The shared-memory region between a Mingo client process and Asim
 (feeders/inst/mingo/mingo_pvt.c): one control record and one slot per thread.

 The functions describe what one call does to one slot. The class holds the
 region itself, updates it in place as the C code does, and is proved against
 the functions. Interleavings of the two processes are in MingoProtocol.
 */
module MingoIpc {
  import opened Wrappers

  datatype Message =
    | NoMessage | ThreadEnd | ThreadPriority | PreferredCpu | MemoryRead | MemoryWrite | Exchange
    | MemoryFence | DependentRead | Branch | Syscall | ProbeResult | TimedWait

  /** The union at the end of a packet: a priority, a CPU number, or raw info bits. */
  datatype Payload = Priority(level: int) | CpuId(cpu: nat) | Info(bits: nat)

  datatype Packet = Packet(msg: Message, thread: nat, ip: nat, va: nat, compareValue: nat, d: Payload)

  datatype Response = NoResponse | Ack | Probe(va: nat, nBytes: nat)

  datatype State = Empty | EventReady | AsimConsumed | AsimAck | ThreadDead

  /** The enumeration value of a state; a legal change of state adds one to it. */
  function Ordinal(s: State): nat {
    match s
    case Empty => 0
    case EventReady => 1
    case AsimConsumed => 2
    case AsimAck => 3
    case ThreadDead => 4
  }

  datatype Slot = Slot(
    packet: Packet,
    response: Response,
    state: State,
    cpuId: nat,
    priority: int,
    newCpuId: bool,
    newPriority: bool,
    packetConsumed: bool,
    pseudoPacket: bool)

  datatype Refusal = IllegalStateChange | DroppedPacket

  const BLANK_PACKET := Packet(NoMessage, 0, 0, 0, 0, Info(0))

  /** A slot as the zero-filled region provides it. */
  const FRESH_SLOT := Slot(BLANK_PACKET, NoResponse, Empty, 0, 0, false, false, false, false)

  /** A preferred-CPU packet made up by the receiver. */
  function CpuPacket(thread: nat, cpu: nat): Packet {
    Packet(PreferredCpu, thread, 0, 0, 0, CpuId(cpu))
  }

  /** A priority packet made up by the receiver. */
  function PriorityPacket(thread: nat, level: int): Packet {
    Packet(ThreadPriority, thread, 0, 0, 0, Priority(level))
  }

  /** Packets the receiver makes up, as opposed to those a client sends. */
  predicate IsPseudo(p: Packet) {
    p.msg == PreferredCpu || p.msg == ThreadPriority
  }

  /** What a request to change the state does to a slot, or why it is refused. */
  function ChangeState(s: Slot, target: State): (r: Result<Slot, Refusal>)
    // A refused request is one the protocol does not allow, and nothing else:
    ensures target == Empty ==> r == Success(s.(state := Empty))
    ensures target != Empty ==>
      (r == Failure(IllegalStateChange) <==>
       Ordinal(target) != Ordinal(s.state) + 1 && !(target == ThreadDead && s.state == Empty))
    // An acknowledged pseudo packet exposes the real packet behind it.
    ensures r.Success? && target == AsimAck && s.pseudoPacket ==>
      r.value.state == EventReady && !r.value.pseudoPacket
    // Apart from that, the packet, its flags and the response are untouched.
    ensures r.Success? ==> r.value.(state := s.state, pseudoPacket := s.pseudoPacket) == s
  {
    if target == Empty then Success(s.(state := Empty))
    else if !(target == ThreadDead && s.state == Empty) && Ordinal(target) != Ordinal(s.state) + 1 then
      Failure(IllegalStateChange)
    else if target == AsimAck && s.pseudoPacket then
      Success(s.(state := EventReady, pseudoPacket := false))
    else if target == AsimAck && !s.packetConsumed then Failure(DroppedPacket)
    else Success(s.(state := target))
  }

  /** Where a change of state leads, and when a packet counts as dropped: an acknowledgement of the
      real packet before it was taken. */
  lemma ChangesExactly(s: Slot, target: State)
    ensures var r := ChangeState(s, target);
      && (r == Failure(DroppedPacket) <==>
            target == AsimAck && s.state == AsimConsumed && !s.pseudoPacket && !s.packetConsumed)
      && (r.Success? ==>
            && r.value.state == (if target == AsimAck && s.pseudoPacket then EventReady else target)
            && r.value.pseudoPacket == (s.pseudoPacket && target != AsimAck))
  {
  }

  /** What the receiver takes from a slot: pending requests first, then the real packet. */
  function Receive(s: Slot, thread: nat): (r: Option<(Slot, Packet)>)
  {
    if s.state != EventReady then None
    else if s.newCpuId then
      Some((s.(newCpuId := false, pseudoPacket := true), CpuPacket(thread, s.cpuId)))
    else if s.newPriority then
      Some((s.(newPriority := false, pseudoPacket := true), PriorityPacket(thread, s.priority)))
    else Some((s.(packetConsumed := true), s.packet))
  }

  /** A receive with requests pending answers with one of them, the CPU before the priority: it names
      the slot's thread, carries the number asked for and nothing else, and is spent. */
  lemma RequestsAreAnswered(s: Slot, thread: nat)
    requires s.state == EventReady && (s.newCpuId || s.newPriority)
    ensures Receive(s, thread).Some?
    ensures var (t, p) := Receive(s, thread).value;
            && p.thread == thread && p.ip == 0 && p.va == 0 && p.compareValue == 0
            && p.msg == (if s.newCpuId then PreferredCpu else ThreadPriority)
            && p.d == (if s.newCpuId then CpuId(s.cpuId) else Priority(s.priority))
            && t == s.(newCpuId := false, newPriority := s.newCpuId && s.newPriority, pseudoPacket := true)
  {
  }

  /** The pending pseudo packets of a slot, in the order the receiver makes them up. */
  function Prelude(s: Slot, thread: nat): seq<Packet> {
    (if s.newCpuId then [CpuPacket(thread, s.cpuId)] else []) +
    (if s.newPriority then [PriorityPacket(thread, s.priority)] else [])
  }

  /** Everything published in a slot that the receiver has not yet taken. */
  function InFlight(s: Slot, thread: nat): seq<Packet> {
    if (s.state == EventReady || s.state == AsimConsumed) && !s.packetConsumed
    then Prelude(s, thread) + [s.packet]
    else []
  }

  /** One receive takes exactly the first packet in flight and leaves the rest. */
  lemma ReceiveTakesFirst(s: Slot, thread: nat)
    requires s.state == EventReady && !s.packetConsumed
    ensures var r := Receive(s, thread);
            r.Some? && [r.value.1] + InFlight(r.value.0, thread) == InFlight(s, thread)
  {
    var r := Receive(s, thread);
    assert InFlight(s, thread) == Prelude(s, thread) + [s.packet];
    if s.newCpuId {
      assert Prelude(s, thread) == [r.value.1] + Prelude(r.value.0, thread);
    } else if s.newPriority {
      assert Prelude(s, thread) == [r.value.1] + Prelude(r.value.0, thread);
    }
  }

  /** The mapped region: the control record and one slot per thread id. */
  class IpcRegion {
    const maxThreads: nat
    var nThreads: nat
    var disableEvents: nat
    var skipEvents: nat
    var sentEvent: bool
    const slots: array<Slot>   // thread ids start at 1; slot 0 is never handed out

    ghost predicate Valid()
      reads this
    {
      nThreads <= maxThreads && slots.Length == maxThreads + 1
    }

    constructor (maxThreads: nat)
      ensures Valid() && fresh(slots)
      ensures this.maxThreads == maxThreads && nThreads == 0
      ensures disableEvents == 0 && skipEvents == 0 && !sentEvent
      ensures forall t | 0 <= t <= maxThreads :: slots[t] == FRESH_SLOT
    {
      this.maxThreads := maxThreads;
      nThreads, disableEvents, skipEvents, sentEvent := 0, 0, 0, false;
      slots := new Slot[maxThreads + 1](_ => FRESH_SLOT);
    }

    /** Hands out thread ids 1, 2, ... in order until all are used. */
    method NewThread() returns (id: int)
      requires Valid()
      modifies this`nThreads
      ensures Valid()
      ensures old(nThreads) == maxThreads ==> id == -1 && nThreads == old(nThreads)
      ensures old(nThreads) < maxThreads ==> id == old(nThreads) + 1 == nThreads
    {
      if nThreads == maxThreads { return -1; }
      nThreads := nThreads + 1;
      id := nThreads;
    }

    method SetState(thread: nat, target: State) returns (status: int)
      requires Valid() && thread < slots.Length
      modifies slots
      ensures status == 0 <==> ChangeState(old(slots[thread]), target).Success?
      ensures status == 0 || status == -1
      ensures status == 0 ==> slots[..] == old(slots[..])[thread := ChangeState(old(slots[thread]), target).value]
      ensures status != 0 ==> slots[..] == old(slots[..])
    {
      var state := target;
      if state != Empty {
        if state == ThreadDead && slots[thread].state == Empty {
          // a thread may end between packets
        } else if Ordinal(state) != Ordinal(slots[thread].state) + 1 {
          return -1;
        }
        if state == AsimAck && slots[thread].pseudoPacket {
          state := EventReady;
          slots[thread] := slots[thread].(pseudoPacket := false);
        }
        if state == AsimAck && !slots[thread].packetConsumed {
          return -1;
        }
      }
      slots[thread] := slots[thread].(state := state);
      status := 0;
    }

    method RecvEvent(thread: nat) returns (r: Option<Packet>)
      requires Valid() && thread < slots.Length
      modifies slots
      ensures r.Some? <==> old(slots[thread]).state == EventReady
      ensures r.Some? ==>
        Receive(old(slots[thread]), thread) == Some((slots[thread], r.value)) &&
        slots[..] == old(slots[..])[thread := slots[thread]]
      ensures r.None? ==> slots[..] == old(slots[..])
      // A request carries the number it was made with; without one the packet is the client's.
      ensures r.Some? && old(slots[thread]).newCpuId ==>
        r.value == Packet(PreferredCpu, thread, 0, 0, 0, CpuId(old(slots[thread]).cpuId))
      ensures r.Some? && !old(slots[thread]).newCpuId && old(slots[thread]).newPriority ==>
        r.value == Packet(ThreadPriority, thread, 0, 0, 0, Priority(old(slots[thread]).priority))
      ensures r.Some? && !old(slots[thread]).newCpuId && !old(slots[thread]).newPriority ==>
        r.value == old(slots[thread]).packet
    {
      if slots[thread].state == EventReady {
        if slots[thread].newCpuId {
          r := Some(CpuPacket(thread, slots[thread].cpuId));
          slots[thread] := slots[thread].(newCpuId := false);
          slots[thread] := slots[thread].(pseudoPacket := true);
          return;
        }
        if slots[thread].newPriority {
          r := Some(PriorityPacket(thread, slots[thread].priority));
          slots[thread] := slots[thread].(newPriority := false);
          slots[thread] := slots[thread].(pseudoPacket := true);
          return;
        }
        slots[thread] := slots[thread].(packetConsumed := true);
        r := Some(slots[thread].packet);
      } else {
        r := None;
      }
    }

    /** Publishes a packet, unless events are disabled (-1) or being skipped (-2). The result
        of the final state change is not looked at, so 0 does not by itself mean published. */
    method SendEvent(thread: nat, packet: Packet) returns (status: int)
      requires Valid() && thread < slots.Length
      modifies this`skipEvents, this`sentEvent, slots
      ensures Valid()
      ensures status == if disableEvents > 0 then -1 else if old(skipEvents) > 0 then -2 else 0
      ensures skipEvents == if status == -2 then old(skipEvents) - 1 else old(skipEvents)
      ensures sentEvent == (old(sentEvent) || status == 0)
      ensures status != 0 ==> slots[..] == old(slots[..])
      ensures status == 0 ==>
        var copied := old(slots[thread]).(packetConsumed := false, packet := packet);
        var r := ChangeState(copied, EventReady);
        slots[..] == old(slots[..])[thread := if r.Success? then r.value else copied]
      ensures status == 0 && old(slots[thread]).state == Empty ==>
        InFlight(slots[thread], thread) == Prelude(old(slots[thread]), thread) + [packet]
    {
      if disableEvents > 0 { return -1; }
      if skipEvents > 0 {
        skipEvents := skipEvents - 1;
        return -2;
      }
      slots[thread] := slots[thread].(packetConsumed := false);
      slots[thread] := slots[thread].(packet := packet);
      sentEvent := true;
      var ignored := SetState(thread, EventReady);
      status := 0;
    }

    method RecvResponse(thread: nat) returns (r: Option<Response>)
      requires Valid() && thread < slots.Length
      ensures r == if slots[thread].state == AsimAck then Some(slots[thread].response) else None
    {
      if slots[thread].state == AsimAck {
        r := Some(slots[thread].response);
      } else {
        r := None;
      }
    }

    /** Answers the packet in hand. The response is written even when the state change is refused. */
    method SendResponse(thread: nat, response: Response) returns (status: int)
      requires Valid() && thread < slots.Length
      modifies slots
      ensures status == 0 || status == -1
      ensures response.Probe? && old(slots[thread]).pseudoPacket ==> status == -1 && slots[..] == old(slots[..])
      ensures !(response.Probe? && old(slots[thread]).pseudoPacket) ==>
        var written := old(slots[thread]).(response := response);
        var r := ChangeState(written, AsimAck);
        && (status == 0 <==> r.Success?)
        && slots[..] == old(slots[..])[thread := if r.Success? then r.value else written]
    {
      if response.Probe? && slots[thread].pseudoPacket { return -1; }
      slots[thread] := slots[thread].(response := response);
      status := SetState(thread, AsimAck);
    }

    method SetPriority(thread: nat, level: int) returns (status: int)
      requires Valid() && thread < slots.Length
      modifies slots
      ensures status == if old(slots[thread]).state == Empty then 0 else -1
      ensures slots[..] == if status != 0 then old(slots[..])
                           else old(slots[..])[thread := old(slots[thread]).(priority := level, newPriority := true)]
    {
      if slots[thread].state != Empty { return -1; }
      slots[thread] := slots[thread].(priority := level);
      slots[thread] := slots[thread].(newPriority := true);
      status := 0;
    }

    method SetPreferredCpu(thread: nat, cpu: nat) returns (status: int)
      requires Valid() && thread < slots.Length
      modifies slots
      ensures status == if old(slots[thread]).state == Empty then 0 else -1
      ensures slots[..] == if status != 0 then old(slots[..])
                           else old(slots[..])[thread := old(slots[thread]).(cpuId := cpu, newCpuId := true)]
    {
      if slots[thread].state != Empty { return -1; }
      slots[thread] := slots[thread].(cpuId := cpu);
      slots[thread] := slots[thread].(newCpuId := true);
      status := 0;
    }

    method DisableEvents()
      modifies this`disableEvents
      ensures disableEvents == old(disableEvents) + 1
    {
      disableEvents := disableEvents + 1;
    }

    /** Each enable undoes one disable; extra ones are ignored. */
    method EnableEvents()
      modifies this`disableEvents
      ensures disableEvents == if old(disableEvents) == 0 then 0 else old(disableEvents) - 1
    {
      if disableEvents > 0 {
        disableEvents := disableEvents - 1;
      }
    }

    method SkipEvents(nEvents: nat)
      modifies this`skipEvents
      ensures skipEvents == nEvents
    {
      skipEvents := nEvents;
    }
  }
}
