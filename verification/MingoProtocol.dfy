/**
 One slot of the Mingo region under every interleaving of its two users: the
 client thread (feeders/inst/mingo/mingo_client.c) and Asim
 (feeders/inst/mingo/mingo_feeder.cpp). Each label is one access to the shared
 region by one party; the program counters say where each party stands between
 accesses. Other client threads and fast-forwarding show up as arbitrary changes
 to the control record.
 */
module MingoProtocol {
  import opened Wrappers
  import opened MingoIpc

  datatype Control = Control(disableEvents: nat, skipEvents: nat, sentEvent: bool)

  /** The client thread. `depth` counts the active WaitForASIMResponse frames. */
  datatype ClientPc =
    | Idle                          // between calls from the program
    | Testing(p: Packet)            // SendMessage: about to test whether events are enabled
    | Gated(p: Packet)              // Send_Event: about to look at the disable and skip counters
    | Clearing(p: Packet)           // about to clear packet_consumed
    | Copying(p: Packet)            // about to copy the packet into the slot
    | Publishing(p: Packet)         // about to change the state to EVENT_READY
    | Waiting                       // polling for a response
    | Probed(va: nat, nBytes: nat)  // took a probe; about to empty the slot and send the result
    | Unwinding(frames: nat)        // frames still to empty the slot and return
    | Killing                       // MINGO_Thread_End: about to mark the thread dead
    | Dead
    | ClientError

  datatype Client = Client(pc: ClientPc, depth: nat, ending: bool)

  datatype AsimPc =
    | Free                                  // holds no packet
    | Seen                                  // saw EVENT_READY; about to take the event
    | Taken(p: Packet)                      // about to change the state to ASIM_CONSUMED
    | Holding(p: Packet)                    // packet delivered; may acknowledge or probe
    | Acking(p: Packet)                     // ACK written; about to change the state
    | Probing(va: nat, nBytes: nat)         // probe written; about to change the state
    | Polling(va: nat, nBytes: nat)         // waiting for the probe result
    | Answered(p: Packet, va: nat, nBytes: nat)  // took an event while waiting for the result
    | AsimError

  /** What the client asked for, in order. `Sent` is a Send_Event that returned 0. */
  datatype Call = AskCpu(cpu: nat) | AskPriority(level: int) | Sent(packet: Packet)

  /** One read of the client's memory for a probe. */
  datatype Read = Read(va: nat, nBytes: nat, data: nat)

  datatype History = History(
    calls: seq<Call>,
    delivered: seq<Packet>,   // every packet the receiver took
    grants: nat,              // ACKs that reached the client's side of the slot
    acked: nat,               // ACKs the client took
    completed: nat,           // successful outermost SendMessage calls that have returned
    dropped: bool,            // a probe result was refused by the disable or skip counter
    asked: seq<(nat, nat)>,   // address and size of every probe Asim sent
    read: seq<Read>,          // what the client read for them
    answered: seq<Payload>)   // what those probes returned to Asim

  datatype System = System(slot: Slot, control: Control, client: Client, asim: AsimPc, hist: History)

  datatype Label =
    | ClientAskCpu(cpu: nat) | ClientAskPriority(level: int) | ClientSend(p: Packet)
    | ClientStep(probeData: nat)
    | AsimLook | AsimAcknowledge | AsimProbe(va: nat, nBytes: nat) | AsimStep
    | Environment(disable: nat, skip: nat)

  predicate LegalProbeSize(n: nat) {
    n == 1 || n == 2 || n == 4 || n == 8
  }

  /** Messages the program itself can send; the others are made up by the protocol. */
  predicate ProgramPacket(p: Packet) {
    !IsPseudo(p) && p.msg != ProbeResult
  }

  function InitialSystem(thread: nat): System {
    System(FRESH_SLOT, Control(0, 0, false), Client(Idle, 0, false), Free,
           History([], [], 0, 0, 0, false, [], [], []))
  }

  predicate Enabled(s: System, l: Label) {
    match l
    case ClientAskCpu(_) => s.client.pc.Idle?
    case ClientAskPriority(_) => s.client.pc.Idle?
    case ClientSend(p) => s.client.pc.Idle? && ProgramPacket(p)
    case ClientStep(_) => !(s.client.pc.Idle? || s.client.pc.Dead? || s.client.pc.ClientError?)
    case AsimLook => s.asim.Free? || s.asim.Holding?
    case AsimAcknowledge => s.asim.Holding?
    case AsimProbe(va, n) => s.asim.Holding? && !IsPseudo(s.asim.p) && LegalProbeSize(n)
    case AsimStep => !(s.asim.Free? || s.asim.Holding? || s.asim.AsimError?)
    case Environment(_, _) => true
  }

  /** A SendMessage that publishes nothing returns to its caller. The outermost one
      returns to the program; a nested one lets the frames around it unwind. */
  function SendRefused(s: System): System {
    if s.client.depth == 0 then
      s.(client := s.client.(pc := if s.client.ending then Killing else Idle))
    else
      s.(client := s.client.(pc := Unwinding(s.client.depth)), hist := s.hist.(dropped := true))
  }

  function ProbeAnswer(thread: nat, va: nat, data: nat): Packet {
    Packet(ProbeResult, thread, 0, va, 0, Info(data))
  }

  function ClientNext(s: System, thread: nat, data: nat): System {
    match s.client.pc
    case Testing(p) =>
      if s.control.disableEvents > 0 then SendRefused(s)
      else s.(client := s.client.(pc := Gated(p)))
    case Gated(p) =>
      if s.control.disableEvents > 0 then SendRefused(s)
      else if s.control.skipEvents > 0 then
        SendRefused(s.(control := s.control.(skipEvents := s.control.skipEvents - 1)))
      else s.(client := s.client.(pc := Clearing(p)))
    case Clearing(p) =>
      s.(slot := s.slot.(packetConsumed := false), client := s.client.(pc := Copying(p)))
    case Copying(p) =>
      s.(slot := s.slot.(packet := p), client := s.client.(pc := Publishing(p)))
    case Publishing(p) =>
      var r := ChangeState(s.slot, EventReady);
      s.(slot := if r.Success? then r.value else s.slot,
         control := s.control.(sentEvent := true),
         client := s.client.(pc := Waiting, depth := s.client.depth + 1),
         hist := s.hist.(calls := s.hist.calls + [Sent(p)]))
    case Waiting =>
      if s.slot.state != AsimAck then s
      else (match s.slot.response
        case Ack =>
          s.(client := s.client.(pc := Unwinding(s.client.depth)), hist := s.hist.(acked := s.hist.acked + 1))
        case Probe(va, n) =>
          s.(client := s.client.(pc := if LegalProbeSize(n) then Probed(va, n) else ClientError))
        case NoResponse => s.(client := s.client.(pc := ClientError)))
    case Probed(va, n) =>
      var r := ChangeState(s.slot, Empty);
      if r.Failure? then s.(client := s.client.(pc := ClientError))
      else s.(slot := r.value, client := s.client.(pc := Testing(ProbeAnswer(thread, va, data))),
              hist := s.hist.(read := s.hist.read + [Read(va, n, data)]))
    case Unwinding(frames) =>
      var r := ChangeState(s.slot, Empty);
      if r.Failure? then s.(client := s.client.(pc := ClientError))
      else if frames <= 1 then
        s.(slot := r.value,
           client := s.client.(pc := if s.client.ending then Killing else Idle, depth := 0),
           hist := s.hist.(completed := s.hist.completed + 1))
      else s.(slot := r.value, client := s.client.(pc := Unwinding(frames - 1)))
    case Killing =>
      var r := ChangeState(s.slot, ThreadDead);
      if r.Failure? then s.(client := s.client.(pc := ClientError))
      else s.(slot := r.value, client := s.client.(pc := Dead))
    case _ => s
  }

  function AsimNext(s: System, thread: nat): System {
    match s.asim
    case Seen =>
      (match Receive(s.slot, thread)
       case None => s.(asim := AsimError)
       case Some((slot, p)) =>
         s.(slot := slot, asim := Taken(p), hist := s.hist.(delivered := s.hist.delivered + [p])))
    case Taken(p) =>
      var r := ChangeState(s.slot, AsimConsumed);
      if r.Failure? then s.(asim := AsimError) else s.(slot := r.value, asim := Holding(p))
    case Acking(p) =>
      var r := ChangeState(s.slot, AsimAck);
      if r.Failure? then s.(asim := AsimError)
      else s.(slot := r.value, asim := Free,
              hist := if r.value.state == AsimAck then s.hist.(grants := s.hist.grants + 1) else s.hist)
    case Probing(va, n) =>
      var r := ChangeState(s.slot, AsimAck);
      if r.Failure? then s.(asim := AsimError) else s.(slot := r.value, asim := Polling(va, n))
    case Polling(va, n) =>
      (match Receive(s.slot, thread)
       case None => s
       case Some((slot, p)) =>
         s.(slot := slot, asim := Answered(p, va, n), hist := s.hist.(delivered := s.hist.delivered + [p])))
    case Answered(p, va, n) =>
      if p.msg != ProbeResult then s.(asim := AsimError)
      else
        var r := ChangeState(s.slot, AsimConsumed);
        if r.Failure? then s.(asim := AsimError)
        else s.(slot := r.value, asim := Holding(p),
                hist := s.hist.(answered := s.hist.answered + [p.d]))
    case _ => s
  }

  function Apply(s: System, l: Label, thread: nat): System
    requires Enabled(s, l)
  {
    match l
    case ClientAskCpu(cpu) =>
      if s.slot.state != Empty then s.(client := s.client.(pc := ClientError))
      else s.(slot := s.slot.(cpuId := cpu, newCpuId := true),
              hist := s.hist.(calls := s.hist.calls + [AskCpu(cpu)]))
    case ClientAskPriority(level) =>
      if s.slot.state != Empty then s.(client := s.client.(pc := ClientError))
      else s.(slot := s.slot.(priority := level, newPriority := true),
              hist := s.hist.(calls := s.hist.calls + [AskPriority(level)]))
    case ClientSend(p) =>
      s.(client := s.client.(pc := Testing(p), ending := p.msg == ThreadEnd))
    case ClientStep(data) => ClientNext(s, thread, data)
    case AsimLook => if s.slot.state == EventReady then s.(asim := Seen) else s
    case AsimAcknowledge => s.(slot := s.slot.(response := Ack), asim := Acking(s.asim.p))
    case AsimProbe(va, n) =>
      if s.slot.pseudoPacket then s.(asim := AsimError)
      else s.(slot := s.slot.(response := Probe(va, n)), asim := Probing(va, n),
              hist := s.hist.(asked := s.hist.asked + [(va, n)]))
    case AsimStep => AsimNext(s, thread)
    case Environment(disable, skip) =>
      s.(control := s.control.(disableEvents := disable, skipEvents := skip))
  }

  /** The state after a schedule, if every step of it is enabled when its turn comes. */
  function Run(thread: nat, labels: seq<Label>): Option<System> {
    if labels == [] then Some(InitialSystem(thread))
    else
      var before := Run(thread, labels[..|labels| - 1]);
      var l := labels[|labels| - 1];
      if before.Some? && Enabled(before.value, l) then Some(Apply(before.value, l, thread)) else None
  }
}
