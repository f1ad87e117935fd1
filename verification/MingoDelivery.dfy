/**
 What the Mingo handshake guarantees over every schedule: exact delivery of what
 the client asked for, ownership of the slot, when a SendMessage may return, and
 that the protocol cannot get stuck.
 */
module MingoDelivery {
  import opened Wrappers
  import opened MingoIpc
  import opened MingoProtocol

  // ---------- Reference: the packets a sequence of client calls asks for ----------

  /** `out` is what the receiver should see; `cpu` and `level` are requests still waiting
      for the next real packet, the last one of each kind winning. */
  datatype Stream = Stream(out: seq<Packet>, cpu: Option<nat>, level: Option<int>)

  function Changes(cpu: Option<nat>, level: Option<int>, thread: nat): seq<Packet> {
    (if cpu.Some? then [CpuPacket(thread, cpu.value)] else []) +
    (if level.Some? then [PriorityPacket(thread, level.value)] else [])
  }

  function Expected(calls: seq<Call>, thread: nat): Stream {
    if calls == [] then Stream([], None, None)
    else
      var e := Expected(calls[..|calls| - 1], thread);
      match calls[|calls| - 1]
      case AskCpu(cpu) => e.(cpu := Some(cpu))
      case AskPriority(level) => e.(level := Some(level))
      case Sent(p) => Stream(e.out + Changes(e.cpu, e.level, thread) + [p], None, None)
  }

  /** The real packets of a call sequence, and of a packet sequence. */
  function SentPackets(calls: seq<Call>): seq<Packet> {
    if calls == [] then []
    else SentPackets(calls[..|calls| - 1]) +
         (if calls[|calls| - 1].Sent? then [calls[|calls| - 1].packet] else [])
  }

  function Real(packets: seq<Packet>): seq<Packet> {
    if packets == [] then []
    else Real(packets[..|packets| - 1]) +
         (if IsPseudo(packets[|packets| - 1]) then [] else [packets[|packets| - 1]])
  }

  lemma {:induction false} RealConcat(a: seq<Packet>, b: seq<Packet>)
    ensures Real(a + b) == Real(a) + Real(b)
  {
    if b == [] {
      assert a + b == a;
    } else {
      RealConcat(a, b[..|b| - 1]);
      assert (a + b)[..|a + b| - 1] == a + b[..|b| - 1];
    }
  }

  lemma RealOne(p: Packet)
    ensures Real([p]) == if IsPseudo(p) then [] else [p]
  {
    assert [p][..0] == [];
  }

  lemma RealOfChanges(cpu: Option<nat>, level: Option<int>, thread: nat)
    ensures Real(Changes(cpu, level, thread)) == []
  {
    var a := if cpu.Some? then [CpuPacket(thread, cpu.value)] else [];
    var b := if level.Some? then [PriorityPacket(thread, level.value)] else [];
    RealConcat(a, b);
    if cpu.Some? { RealOne(a[0]); }
    if level.Some? { RealOne(b[0]); }
  }

  predicate NoPseudoSent(calls: seq<Call>) {
    forall i | 0 <= i < |calls| && calls[i].Sent? :: !IsPseudo(calls[i].packet)
  }

  /** Changes are invisible among the real packets. */
  lemma RealOfBlock(out: seq<Packet>, cpu: Option<nat>, level: Option<int>, thread: nat, p: Packet)
    requires !IsPseudo(p)
    ensures Real(out + Changes(cpu, level, thread) + [p]) == Real(out) + [p]
  {
    RealConcat(out + Changes(cpu, level, thread), [p]);
    RealConcat(out, Changes(cpu, level, thread));
    RealOfChanges(cpu, level, thread);
    RealOne(p);
    assert Real(out) + [] == Real(out);
  }

  /** The reference stream contains the real packets sent, each once and in order. */
  lemma {:induction false} ExpectedKeepsSends(calls: seq<Call>, thread: nat)
    requires NoPseudoSent(calls)
    ensures Real(Expected(calls, thread).out) == SentPackets(calls)
  {
    if calls != [] {
      var n := |calls| - 1;
      var before, e := calls[..n], Expected(calls[..n], thread);
      assert NoPseudoSent(before) by {
        forall i | 0 <= i < |before| && before[i].Sent? ensures !IsPseudo(before[i].packet) {
          assert before[i] == calls[i];
        }
      }
      ExpectedKeepsSends(before, thread);
      if calls[n].Sent? {
        RealOfBlock(e.out, e.cpu, e.level, thread, calls[n].packet);
      }
    }
  }

  /** The last request of each kind in a stretch of calls without a send. */
  function LastCpu(calls: seq<Call>): Option<nat> {
    if calls == [] then None
    else if calls[|calls| - 1].AskCpu? then Some(calls[|calls| - 1].cpu)
    else LastCpu(calls[..|calls| - 1])
  }

  function LastLevel(calls: seq<Call>): Option<int> {
    if calls == [] then None
    else if calls[|calls| - 1].AskPriority? then Some(calls[|calls| - 1].level)
    else LastLevel(calls[..|calls| - 1])
  }

  /** Between two sends, only the last request of each kind survives; the CPU request and then
      the priority request come immediately before the next real packet, once. */
  lemma {:induction false} ExpectedBlock(before: seq<Call>, asks: seq<Call>, p: Packet, thread: nat)
    requires before == [] || before[|before| - 1].Sent?
    requires forall i | 0 <= i < |asks| :: !asks[i].Sent?
    ensures Expected(before + asks + [Sent(p)], thread).out ==
            Expected(before, thread).out + Changes(LastCpu(asks), LastLevel(asks), thread) + [p]
  {
    ExpectedAsks(before, asks, thread);
    var all := before + asks + [Sent(p)];
    assert all[..|all| - 1] == before + asks;
  }

  lemma {:induction false} ExpectedAsks(before: seq<Call>, asks: seq<Call>, thread: nat)
    requires before == [] || before[|before| - 1].Sent?
    requires forall i | 0 <= i < |asks| :: !asks[i].Sent?
    ensures Expected(before + asks, thread) ==
            Stream(Expected(before, thread).out, LastCpu(asks), LastLevel(asks))
  {
    if asks == [] {
      assert before + asks == before;
    } else {
      var n := |asks| - 1;
      ExpectedAsks(before, asks[..n], thread);
      assert (before + asks)[..|before + asks| - 1] == before + asks[..n];
    }
  }

  // ---------- The invariant ----------

  predicate NoRequests(s: Slot) {
    !s.newCpuId && !s.newPriority
  }

  /** The packet of a SendMessage that has not yet published it. */
  function Outgoing(pc: ClientPc): Option<Packet> {
    match pc
    case Testing(p) => Some(p)
    case Gated(p) => Some(p)
    case Clearing(p) => Some(p)
    case Copying(p) => Some(p)
    case Publishing(p) => Some(p)
    case _ => None
  }

  /** Asim's place while the client owns an empty or dead slot and is not answering a probe. */
  predicate AtRest(s: System) {
    if s.hist.dropped then s.asim.Polling? else s.asim.Free?
  }

  predicate InEmpty(s: System) {
    var pc, depth := s.client.pc, s.client.depth;
    && !s.slot.pseudoPacket
    && (pc.Copying? || pc.Publishing? ==> !s.slot.packetConsumed)
    && (pc.Publishing? ==> s.slot.packet == pc.p)
    && (match Outgoing(pc)
        case Some(p) =>
          if depth == 0 then AtRest(s) && ProgramPacket(p)
          else !s.hist.dropped && s.asim.Polling? && NoRequests(s.slot) &&
               p.msg == ProbeResult && p.va == s.asim.va
        case None =>
          && AtRest(s)
          && (pc.Idle? || pc.Killing? || pc.Unwinding?)
          && (if pc.Unwinding? then 1 <= pc.frames <= depth && NoRequests(s.slot) else depth == 0))
  }

  predicate InReady(s: System) {
    && s.client.pc.Waiting? && s.client.depth >= 1 && !IsPseudo(s.slot.packet)
    && (match s.asim
        case Free => !s.hist.dropped && !s.slot.pseudoPacket && !s.slot.packetConsumed
        case Seen => !s.hist.dropped && !s.slot.pseudoPacket && !s.slot.packetConsumed
        case Taken(p) =>
          && !s.hist.dropped
          && s.slot.pseudoPacket == IsPseudo(p) && s.slot.packetConsumed == !IsPseudo(p)
          && (!IsPseudo(p) ==> NoRequests(s.slot) && p == s.slot.packet)
        case Polling(va, n) =>
          && !s.slot.pseudoPacket && !s.slot.packetConsumed
          && (if s.hist.dropped then s.client.depth == 1 && ProgramPacket(s.slot.packet)
              else s.client.depth >= 2 && NoRequests(s.slot) &&
                   s.slot.packet.msg == ProbeResult && s.slot.packet.va == va)
        case Answered(p, va, n) =>
          && s.slot.packetConsumed == !IsPseudo(p)
          && (!IsPseudo(p) ==> NoRequests(s.slot))
          && (if s.hist.dropped then s.client.depth == 1 && p.msg != ProbeResult
              else s.client.depth >= 2 && !s.slot.pseudoPacket && p == s.slot.packet &&
                   p.msg == ProbeResult && p.va == va)
        case AsimError => s.hist.dropped && s.client.depth == 1 && (s.slot.packetConsumed ==> NoRequests(s.slot))
        case _ => false)
  }

  predicate InConsumed(s: System) {
    && !s.hist.dropped && s.client.pc.Waiting? && s.client.depth >= 1 && !IsPseudo(s.slot.packet)
    && (s.slot.packetConsumed ==> NoRequests(s.slot))
    && (match s.asim
        case Holding(p) => s.slot.pseudoPacket == IsPseudo(p) == !s.slot.packetConsumed
        case Acking(p) => s.slot.pseudoPacket == IsPseudo(p) == !s.slot.packetConsumed && s.slot.response == Ack
        case Probing(va, n) =>
          !s.slot.pseudoPacket && s.slot.packetConsumed && s.slot.response == Probe(va, n) && LegalProbeSize(n)
        case _ => false)
  }

  predicate InAck(s: System) {
    && !s.hist.dropped && !s.slot.pseudoPacket && NoRequests(s.slot) && s.client.depth >= 1
    && (match s.asim
        case Free =>
          s.slot.response == Ack && (s.client.pc.Waiting? || s.client.pc == Unwinding(s.client.depth))
        case Polling(va, n) =>
          s.slot.response == Probe(va, n) && LegalProbeSize(n) &&
          (s.client.pc.Waiting? || s.client.pc == Probed(va, n))
        case _ => false)
  }

  /** Who may be where, for each state of the slot. */
  predicate Coupled(s: System) {
    match s.slot.state
    case Empty => InEmpty(s)
    case EventReady => InReady(s)
    case AsimConsumed => InConsumed(s)
    case AsimAck => InAck(s)
    case ThreadDead => s.client.pc.Dead? && s.client.depth == 0 && AtRest(s)
  }

  /** How the counts of acknowledgements and returns relate. */
  predicate Counted(s: System) {
    var h := s.hist;
    && h.acked + (if h.dropped then 1 else 0) == h.completed + (if s.client.pc.Unwinding? then 1 else 0)
    && h.grants == h.acked +
         (if s.slot.state == AsimAck && s.slot.response == Ack && s.client.pc.Waiting? then 1 else 0)
  }

  /** What was asked for is what was delivered plus what is in flight. */
  predicate Streamed(s: System, thread: nat) {
    var e := Expected(s.hist.calls, thread);
    && e.out == s.hist.delivered + InFlight(s.slot, thread)
    && NoPseudoSent(s.hist.calls)
    && (if s.slot.state == EventReady || s.slot.state == AsimConsumed then e.cpu == None && e.level == None
        else e.cpu == (if s.slot.newCpuId then Some(s.slot.cpuId) else None) &&
             e.level == (if s.slot.newPriority then Some(s.slot.priority) else None))
  }

  predicate Inv(s: System, thread: nat) {
    Coupled(s) && Counted(s) && Streamed(s, thread)
  }

  lemma ExpectedAppend(calls: seq<Call>, c: Call, thread: nat)
    ensures var e := Expected(calls, thread);
            Expected(calls + [c], thread) ==
            match c
            case AskCpu(cpu) => e.(cpu := Some(cpu))
            case AskPriority(level) => e.(level := Some(level))
            case Sent(p) => Stream(e.out + Changes(e.cpu, e.level, thread) + [p], None, None)
  {
    assert (calls + [c])[..|calls + [c]| - 1] == calls;
  }

  lemma AskStep(s: System, l: Label, thread: nat)
    requires Inv(s, thread) && Enabled(s, l) && (l.ClientAskCpu? || l.ClientAskPriority?)
    ensures Inv(Apply(s, l, thread), thread)
  {
    var c := if l.ClientAskCpu? then AskCpu(l.cpu) else AskPriority(l.level);
    ExpectedAppend(s.hist.calls, c, thread);
  }

  lemma PublishStep(s: System, thread: nat)
    requires Inv(s, thread) && s.client.pc.Publishing?
    ensures Inv(ClientNext(s, thread, 0), thread)
  {
    var p := s.client.pc.p;
    var t := ClientNext(s, thread, 0);
    ExpectedAppend(s.hist.calls, Sent(p), thread);
    var e := Expected(s.hist.calls, thread);
    assert Changes(e.cpu, e.level, thread) == Prelude(s.slot, thread);
    assert InFlight(t.slot, thread) == Prelude(s.slot, thread) + [p];
    assert s.hist.delivered + InFlight(s.slot, thread) == s.hist.delivered;
    assert Expected(t.hist.calls, thread).out == t.hist.delivered + InFlight(t.slot, thread);
  }

  lemma RefusedStep(s: System, thread: nat)
    requires Inv(s, thread) && Outgoing(s.client.pc).Some?
    ensures Inv(SendRefused(s), thread)
  {
    assert s.slot.state == Empty;
  }

  /** Testing and gating: the packet goes on or is refused. */
  lemma GateStep(s: System, thread: nat)
    requires Inv(s, thread) && (s.client.pc.Testing? || s.client.pc.Gated?)
    ensures Inv(ClientNext(s, thread, 0), thread)
  {
    hide Counted, Streamed;
    RefusedStep(s, thread);
    if s.client.pc.Gated? && s.control.skipEvents > 0 {
      SkipKeeps(s, thread);
      RefusedStep(s.(control := s.control.(skipEvents := s.control.skipEvents - 1)), thread);
    }
    GateGoesOn(s, thread);
  }

  lemma SkipKeeps(s: System, thread: nat)
    requires Inv(s, thread) && s.control.skipEvents > 0
    ensures Inv(s.(control := s.control.(skipEvents := s.control.skipEvents - 1)), thread)
  {
    hide Expected;
  }

  lemma GateGoesOn(s: System, thread: nat)
    requires Inv(s, thread) && (s.client.pc.Testing? || s.client.pc.Gated?)
    ensures var p := s.client.pc.p;
            Inv(s.(client := s.client.(pc := if s.client.pc.Testing? then Gated(p) else Clearing(p))), thread)
  {
    hide Expected;
  }

  /** Filling the slot that the client owns. */
  lemma FillStep(s: System, thread: nat)
    requires Inv(s, thread) && (s.client.pc.Clearing? || s.client.pc.Copying?)
    ensures Inv(ClientNext(s, thread, 0), thread)
  {
    hide Expected;
    assert s.slot.state == Empty;
  }

  lemma AnswerStep(s: System, data: nat, thread: nat)
    requires Inv(s, thread) && (s.client.pc.Waiting? || s.client.pc.Probed?)
    ensures Inv(ClientNext(s, thread, data), thread)
  {
  }

  lemma ReturnStep(s: System, thread: nat)
    requires Inv(s, thread) && (s.client.pc.Unwinding? || s.client.pc.Killing?)
    ensures Inv(ClientNext(s, thread, 0), thread)
  {
  }

  lemma ClientStepKeeps(s: System, data: nat, thread: nat)
    requires Inv(s, thread)
    ensures Inv(ClientNext(s, thread, data), thread)
  {
    match s.client.pc
    case Publishing(_) => PublishStep(s, thread);
    case Waiting => AnswerStep(s, data, thread);
    case Probed(_, _) => AnswerStep(s, data, thread);
    case Unwinding(_) => ReturnStep(s, thread);
    case Killing => ReturnStep(s, thread);
    case Idle =>
    case Dead =>
    case ClientError =>
    case Testing(_) => GateStep(s, thread);
    case Gated(_) => GateStep(s, thread);
    case Clearing(_) => FillStep(s, thread);
    case Copying(_) => FillStep(s, thread);
  }

  lemma TakeStep(s: System, thread: nat)
    requires Inv(s, thread) && s.slot.state == EventReady && (s.asim.Seen? || s.asim.Polling?)
    ensures Inv(AsimNext(s, thread), thread)
  {
    ReceiveTakesFirst(s.slot, thread);
    var t := AsimNext(s, thread);
    var p := Receive(s.slot, thread).value.1;
    assert t.hist.delivered + InFlight(t.slot, thread)
        == s.hist.delivered + ([p] + InFlight(t.slot, thread));
  }

  lemma AsimStepKeeps(s: System, thread: nat)
    requires Inv(s, thread)
    ensures Inv(AsimNext(s, thread), thread)
  {
    if s.slot.state == EventReady && (s.asim.Seen? || s.asim.Polling?) {
      TakeStep(s, thread);
    }
  }

  lemma StepKeeps(s: System, l: Label, thread: nat)
    requires Inv(s, thread) && Enabled(s, l)
    ensures Inv(Apply(s, l, thread), thread)
  {
    match l
    case ClientAskCpu(_) => AskStep(s, l, thread);
    case ClientAskPriority(_) => AskStep(s, l, thread);
    case ClientStep(data) => ClientStepKeeps(s, data, thread);
    case AsimStep => AsimStepKeeps(s, thread);
    case _ =>
  }

  lemma {:induction false} EveryRunKeeps(thread: nat, labels: seq<Label>)
    requires Run(thread, labels).Some?
    ensures Inv(Run(thread, labels).value, thread)
  {
    if labels != [] {
      EveryRunKeeps(thread, labels[..|labels| - 1]);
      StepKeeps(Run(thread, labels[..|labels| - 1]).value, labels[|labels| - 1], thread);
    }
  }

  // ---------- Delivery ----------

  /** In every run, Asim has received a prefix of what the client's calls ask for; the real
      packets are those whose Send_Event succeeded, each once, in order, at most one behind. */
  lemma ExactlyOnce(thread: nat, labels: seq<Label>)
    requires Run(thread, labels).Some?
    ensures var h := Run(thread, labels).value.hist;
            && h.delivered <= Expected(h.calls, thread).out
            && Real(h.delivered) <= SentPackets(h.calls)
            && |SentPackets(h.calls)| <= |Real(h.delivered)| + 1
  {
    hide Counted, Expected;
    EveryRunKeeps(thread, labels);
    var s := Run(thread, labels).value;
    ExpectedKeepsSends(s.hist.calls, thread);
    RealConcat(s.hist.delivered, InFlight(s.slot, thread));
    if InFlight(s.slot, thread) != [] {
      var cpu := if s.slot.newCpuId then Some(s.slot.cpuId) else None;
      var level := if s.slot.newPriority then Some(s.slot.priority) else None;
      assert InFlight(s.slot, thread) == [] + Changes(cpu, level, thread) + [s.slot.packet];
      RealOfBlock([], cpu, level, thread, s.slot.packet);
    }
  }

  /** A client that is back in the program has had everything it asked for delivered, except
      requests that wait for the next packet. */
  lemma NothingOutstandingWhenIdle(thread: nat, labels: seq<Label>)
    requires Run(thread, labels).Some? && Run(thread, labels).value.client.pc.Idle?
    ensures var h := Run(thread, labels).value.hist;
            h.delivered == Expected(h.calls, thread).out && Real(h.delivered) == SentPackets(h.calls)
  {
    EveryRunKeeps(thread, labels);
    ExpectedKeepsSends(Run(thread, labels).value.hist.calls, thread);
  }

  /** Of the calls since the last send, the latest of its kind. */
  predicate LatestAsk(calls: seq<Call>, i: int) {
    && 0 <= i < |calls| && !calls[i].Sent?
    && forall m | i < m < |calls| :: !calls[m].Sent? && calls[m].AskCpu? != calls[i].AskCpu?
  }

  ghost predicate AsksCpu(calls: seq<Call>) {
    exists i :: LatestAsk(calls, i) && calls[i].AskCpu?
  }

  ghost predicate AsksLevel(calls: seq<Call>) {
    exists i :: LatestAsk(calls, i) && calls[i].AskPriority?
  }

  lemma LatestAskGrows(calls: seq<Call>, c: Call, i: int)
    ensures LatestAsk(calls + [c], i) <==>
            !c.Sent? && (i == |calls| || (LatestAsk(calls, i) && c.AskCpu? != calls[i].AskCpu?))
  {
    var all := calls + [c];
    assert forall m | 0 <= m < |calls| :: all[m] == calls[m];
    if 0 <= i < |calls| { assert all[|calls|] == c; }
  }

  /** The requests of the reference stream are the latest ones asked. */
  lemma {:induction false} PendingAsks(calls: seq<Call>, thread: nat)
    ensures var e := Expected(calls, thread);
            && (forall i | LatestAsk(calls, i) ::
                  if calls[i].AskCpu? then e.cpu == Some(calls[i].cpu) else e.level == Some(calls[i].level))
            && (e.cpu.Some? <==> AsksCpu(calls)) && (e.level.Some? <==> AsksLevel(calls))
  {
    if calls != [] {
      var n := |calls| - 1;
      var before, c := calls[..n], calls[n];
      PendingAsks(before, thread);
      assert calls == before + [c];
      forall i ensures LatestAsk(calls, i) <==>
        !c.Sent? && (i == n || (LatestAsk(before, i) && c.AskCpu? != calls[i].AskCpu?))
      {
        LatestAskGrows(before, c, i);
      }
      hide LatestAsk;
      if i :| LatestAsk(before, i) && before[i].AskCpu? { assert calls[i] == before[i]; }
      if i :| LatestAsk(before, i) && before[i].AskPriority? { assert calls[i] == before[i]; }
      assert !c.Sent? ==> LatestAsk(calls, n);
    }
  }

  /** What is asked for later comes later. */
  lemma {:induction false} ExpectedGrows(calls: seq<Call>, j: nat, thread: nat)
    requires j <= |calls|
    ensures Expected(calls[..j], thread).out <= Expected(calls, thread).out
    decreases |calls|
  {
    if j < |calls| {
      ExpectedGrows(calls[..|calls| - 1], j, thread);
      assert calls[..|calls| - 1][..j] == calls[..j];
    } else {
      assert calls[..j] == calls;
    }
  }

  /** What reaches Asim with each successful send: the latest CPU and the latest priority asked for
      since the send before, as packets of this thread that carry just these numbers, then the packet
      sent; nothing is made up that was not asked for. */
  lemma RequestsArrive(thread: nat, labels: seq<Label>, j: nat)
    requires Run(thread, labels).Some?
    requires j < |Run(thread, labels).value.hist.calls| && Run(thread, labels).value.hist.calls[j].Sent?
    ensures var h := Run(thread, labels).value.hist;
      var calls, first := h.calls[..j], |Expected(h.calls[..j], thread).out|;
      var second := first + if AsksCpu(calls) then 1 else 0;
      var last := second + if AsksLevel(calls) then 1 else 0;
      && last + 1 == |Expected(h.calls[..j + 1], thread).out|
      && (forall i | LatestAsk(calls, i) && calls[i].AskCpu? && first < |h.delivered| ::
            h.delivered[first] == Packet(PreferredCpu, thread, 0, 0, 0, CpuId(calls[i].cpu)))
      && (forall i | LatestAsk(calls, i) && calls[i].AskPriority? && second < |h.delivered| ::
            h.delivered[second] == Packet(ThreadPriority, thread, 0, 0, 0, Priority(calls[i].level)))
      && (last < |h.delivered| ==> h.delivered[last] == h.calls[j].packet)
  {
    var h := Run(thread, labels).value.hist;
    ExactlyOnce(thread, labels);
    hide Run;
    ExpectedGrows(h.calls, j + 1, thread);
    BlockOfSend(h.calls[..j], h.calls[j].packet, thread);
    assert h.calls[..j + 1] == h.calls[..j] + [Sent(h.calls[j].packet)];
    hide Expected, AsksCpu, AsksLevel, LatestAsk, Real, SentPackets;
    var out := Expected(h.calls[..j + 1], thread).out;
    assert forall k | 0 <= k < |out| && k < |h.delivered| :: h.delivered[k] == out[k];
  }

  /** The packets that a send adds to the reference stream. */
  lemma BlockOfSend(calls: seq<Call>, p: Packet, thread: nat)
    ensures var before, out := Expected(calls, thread).out, Expected(calls + [Sent(p)], thread).out;
      var second := |before| + if AsksCpu(calls) then 1 else 0;
      var last := second + if AsksLevel(calls) then 1 else 0;
      && |out| == last + 1 && out[last] == p
      && (forall i | LatestAsk(calls, i) && calls[i].AskCpu? ::
            AsksCpu(calls) && out[|before|] == Packet(PreferredCpu, thread, 0, 0, 0, CpuId(calls[i].cpu)))
      && (forall i | LatestAsk(calls, i) && calls[i].AskPriority? ::
            AsksLevel(calls) && out[second] == Packet(ThreadPriority, thread, 0, 0, 0, Priority(calls[i].level)))
  {
    PendingAsks(calls, thread);
    ExpectedAppend(calls, Sent(p), thread);
    hide Expected;
    assert forall i | LatestAsk(calls, i) && calls[i].AskCpu? :: AsksCpu(calls);
    assert forall i | LatestAsk(calls, i) && calls[i].AskPriority? :: AsksLevel(calls);
  }

  /** The event Asim takes while it waits for a probe is the answer to that probe. */
  lemma ProbeGetsItsAnswer(thread: nat, labels: seq<Label>)
    requires Run(thread, labels).Some? && !Run(thread, labels).value.hist.dropped
    requires Run(thread, labels).value.asim.Answered?
    ensures var a := Run(thread, labels).value.asim; a.p.msg == ProbeResult && a.p.va == a.va
  {
    EveryRunKeeps(thread, labels);
  }

  // ---------- What a probe returns ----------

  /** Asim is in the middle of a probe, and the client has read memory for it. */
  predicate ProbeOpen(s: System) {
    s.asim.Probing? || s.asim.Polling? || s.asim.Answered?
  }

  predicate ProbeRead(s: System) {
    ProbeOpen(s) && !s.asim.Probing? && s.slot.state != AsimAck
  }

  /** The packet that carries the value read. */
  predicate Carries(s: System, data: nat) {
    match s.asim
    case Answered(p, _, _) => p.d == Info(data)
    case _ =>
      match Outgoing(s.client.pc)
      case Some(p) => p.d == Info(data)
      case None => s.slot.packet.d == Info(data)
  }

  /** Every probe so far was read where and as wide as it asked, and returned what was read; an open
      one is the last asked, and once it is read the value is on its way. */
  predicate Matched(s: System) {
    var h := s.hist;
    var n := |h.answered|;
    && |h.asked| == n + (if ProbeOpen(s) then 1 else 0)
    && |h.read| == n + (if ProbeRead(s) then 1 else 0)
    && (forall i | 0 <= i < |h.read| :: h.asked[i] == (h.read[i].va, h.read[i].nBytes))
    && (forall i | 0 <= i < n :: h.answered[i] == Info(h.read[i].data))
    && (ProbeOpen(s) ==> h.asked[n] == (s.asim.va, s.asim.nBytes))
    && (ProbeRead(s) ==> Carries(s, h.read[n].data))
  }

  lemma ClientMatched(s: System, data: nat, thread: nat)
    requires Coupled(s) && Matched(s) && !s.hist.dropped && !ClientNext(s, thread, data).hist.dropped
    ensures Matched(ClientNext(s, thread, data))
  {
  }

  lemma AsimMatched(s: System, thread: nat)
    requires Coupled(s) && Matched(s) && !s.hist.dropped
    ensures Matched(AsimNext(s, thread))
  {
  }

  lemma StepMatched(s: System, l: Label, thread: nat)
    requires Inv(s, thread) && Enabled(s, l) && !Apply(s, l, thread).hist.dropped && Matched(s)
    ensures !s.hist.dropped && Matched(Apply(s, l, thread))
  {
    hide Counted, Streamed;
    NeverUndropped(s, l, thread);
    match l
    case ClientStep(data) => ClientMatched(s, data, thread);
    case AsimStep => AsimMatched(s, thread);
    case _ =>
  }

  lemma {:induction false} RunMatched(thread: nat, labels: seq<Label>)
    requires Run(thread, labels).Some? && !Run(thread, labels).value.hist.dropped
    ensures Matched(Run(thread, labels).value)
  {
    if labels != [] {
      var before := labels[..|labels| - 1];
      EveryRunKeeps(thread, before);
      hide Inv, Matched;
      NeverUndropped(Run(thread, before).value, labels[|labels| - 1], thread);
      RunMatched(thread, before);
      StepMatched(Run(thread, before).value, labels[|labels| - 1], thread);
    }
  }

  /** Unless one is refused, each probe returns to Asim the value of the read that the client made for
      it, which is of the address and size asked for; at most the last one is still on its way. */
  lemma ProbesReturnWhatWasRead(thread: nat, labels: seq<Label>)
    requires Run(thread, labels).Some? && !Run(thread, labels).value.hist.dropped
    ensures var h := Run(thread, labels).value.hist;
            && |h.answered| <= |h.read| <= |h.asked| <= |h.answered| + 1
            && (forall i | 0 <= i < |h.read| :: h.asked[i] == (h.read[i].va, h.read[i].nBytes))
            && (forall i | 0 <= i < |h.answered| :: h.answered[i] == Info(h.read[i].data))
  {
    RunMatched(thread, labels);
    hide Run, Carries;
  }

  lemma NeverUndropped(s: System, l: Label, thread: nat)
    requires Enabled(s, l)
    ensures s.hist.dropped ==> Apply(s, l, thread).hist.dropped
  {
  }

  // ---------- The end of a thread ----------

  /** The last packet the program has sent, whether or not it was published. */
  function LastSend(labels: seq<Label>): Option<Packet> {
    if labels == [] then None
    else if labels[|labels| - 1].ClientSend? then Some(labels[|labels| - 1].p)
    else LastSend(labels[..|labels| - 1])
  }

  /** `p` is the packet of the outermost call, and then the one in the slot until that makes room for
      a probe result. */
  predicate OnItsWay(s: System, p: Option<Packet>) {
    && (s.client.depth == 0 && Outgoing(s.client.pc).Some? ==> p == Outgoing(s.client.pc))
    && (s.client.depth == 1 && (s.slot.state == EventReady || s.slot.state == AsimConsumed) ==>
          p == Some(s.slot.packet))
  }

  lemma ClientKeepsPacket(s: System, data: nat, thread: nat, p: Option<Packet>)
    requires Coupled(s) && OnItsWay(s, p)
    ensures OnItsWay(ClientNext(s, thread, data), p)
  {
  }

  lemma AsimKeepsPacket(s: System, thread: nat, p: Option<Packet>)
    requires Coupled(s) && OnItsWay(s, p)
    ensures OnItsWay(AsimNext(s, thread), p)
  {
  }

  lemma StepKeepsPacket(s: System, l: Label, thread: nat, p: Option<Packet>)
    requires Coupled(s) && OnItsWay(s, p) && Enabled(s, l)
    ensures OnItsWay(Apply(s, l, thread), if l.ClientSend? then Some(l.p) else p)
  {
    match l
    case ClientStep(data) => ClientKeepsPacket(s, data, thread, p);
    case AsimStep => AsimKeepsPacket(s, thread, p);
    case _ =>
  }

  /** What the program sends is what is published. */
  lemma {:induction false} SendsWhatWasAsked(thread: nat, labels: seq<Label>)
    requires Run(thread, labels).Some?
    ensures OnItsWay(Run(thread, labels).value, LastSend(labels))
  {
    if labels != [] {
      var before := labels[..|labels| - 1];
      EveryRunKeeps(thread, before);
      SendsWhatWasAsked(thread, before);
      hide Counted, Streamed, Coupled, OnItsWay, Apply, Enabled;
      StepKeepsPacket(Run(thread, before).value, labels[|labels| - 1], thread, LastSend(before));
    }
  }

  /** A packet that meets the skip counter uses up one skip and leaves no trace in the slot. */
  lemma SkipUsesOne(s: System, thread: nat, data: nat)
    requires s.client.pc.Gated? && s.control.disableEvents == 0 && s.control.skipEvents > 0
    ensures var t := ClientNext(s, thread, data);
            && t.control == s.control.(skipEvents := s.control.skipEvents - 1)
            && t.slot == s.slot && t.hist == s.hist.(dropped := s.hist.dropped || s.client.depth > 0)
            && Outgoing(t.client.pc).None?
  {
  }

  /** A client that is ending goes on to die, and no other does. */
  predicate Marked(c: Client) {
    (c.pc.Idle? ==> !c.ending) && (c.pc.Dead? || c.pc.Killing? ==> c.ending)
  }

  lemma ClientMarked(s: System, data: nat, thread: nat)
    requires Marked(s.client)
    ensures var c := ClientNext(s, thread, data).client; Marked(c) && c.ending == s.client.ending
  {
    hide ChangeState, ProbeAnswer;
  }

  lemma AsimLeavesClient(s: System, thread: nat)
    ensures AsimNext(s, thread).client == s.client
  {
    hide ChangeState, Receive;
  }

  lemma {:induction false} EndingMarked(thread: nat, labels: seq<Label>)
    requires Run(thread, labels).Some?
    ensures var c, p := Run(thread, labels).value.client, LastSend(labels);
            Marked(c) && (c.ending <==> p.Some? && p.value.msg == ThreadEnd)
  {
    if labels != [] {
      var before, l := labels[..|labels| - 1], labels[|labels| - 1];
      var s := Run(thread, before).value;
      EndingMarked(thread, before);
      hide ClientNext, AsimNext, Marked;
      if l.ClientStep? {
        ClientMarked(s, l.probeData, thread);
      } else if l.AsimStep? {
        AsimLeavesClient(s, thread);
      } else {
        OtherMarked(s, l, thread);
      }
    }
  }

  lemma OtherMarked(s: System, l: Label, thread: nat)
    requires Marked(s.client) && Enabled(s, l) && !l.ClientStep? && !l.AsimStep?
    ensures var c := Apply(s, l, thread).client;
            Marked(c) && c.ending == if l.ClientSend? then l.p.msg == ThreadEnd else s.client.ending
  {
  }

  /** A thread comes back from every packet but the last, and marks its slot dead after a ThreadEnd
      packet and only then; a dead thread stays dead. */
  lemma DiesAfterThreadEnd(thread: nat, labels: seq<Label>)
    requires Run(thread, labels).Some?
    requires Run(thread, labels).value.client.pc.Idle? || Run(thread, labels).value.client.pc.Dead?
    ensures var s, p := Run(thread, labels).value, LastSend(labels);
            && (s.client.pc.Dead? <==> p.Some? && p.value.msg == ThreadEnd)
            && (s.client.pc.Dead? <==> s.slot.state == ThreadDead)
    ensures forall l | Enabled(Run(thread, labels).value, l) ::
              Run(thread, labels).value.client.pc.Dead? ==>
              Apply(Run(thread, labels).value, l, thread).client.pc.Dead?
  {
    EndingMarked(thread, labels);
    EveryRunKeeps(thread, labels);
    hide Run;
  }

  // ---------- Ownership ----------

  datatype Party = ClientParty | AsimParty | Nobody

  function Owner(st: State): Party {
    match st
    case Empty => ClientParty
    case EventReady => AsimParty
    case AsimConsumed => AsimParty
    case AsimAck => ClientParty
    case ThreadDead => Nobody
  }

  function Actor(l: Label): Party {
    match l
    case ClientAskCpu(_) => ClientParty
    case ClientAskPriority(_) => ClientParty
    case ClientSend(_) => ClientParty
    case ClientStep(_) => ClientParty
    case Environment(_, _) => Nobody
    case _ => AsimParty
  }

  /** In every reachable state, a step by a party that does not own the slot leaves all of it alone. */
  lemma OnlyOwnerWrites(thread: nat, labels: seq<Label>, l: Label)
    requires Run(thread, labels).Some?
    requires var s := Run(thread, labels).value; Enabled(s, l) && Owner(s.slot.state) != Actor(l)
    ensures Apply(Run(thread, labels).value, l, thread).slot == Run(thread, labels).value.slot
  {
    EveryRunKeeps(thread, labels);
  }

  /** The change of state a party is about to ask for, if any. */
  function NextChange(s: System): Option<State> {
    match s.client.pc
    case Publishing(_) => Some(EventReady)
    case Probed(_, _) => Some(Empty)
    case Unwinding(_) => Some(Empty)
    case Killing => Some(ThreadDead)
    case _ =>
      match s.asim
      case Taken(_) => Some(AsimConsumed)
      case Answered(p, _, _) => if p.msg == ProbeResult then Some(AsimConsumed) else None
      case Acking(_) => Some(AsimAck)
      case Probing(_, _) => Some(AsimAck)
      case _ => None
  }

  /** Parties that follow the protocol never meet "Illegal state change" or "Dropped packet",
      and neither reports an error unless a probe result was refused. */
  lemma NoErrors(thread: nat, labels: seq<Label>)
    requires Run(thread, labels).Some?
    ensures var s := Run(thread, labels).value;
            && !s.client.pc.ClientError?
            && (s.asim.AsimError? ==> s.hist.dropped)
            && (NextChange(s).Some? ==> ChangeState(s.slot, NextChange(s).value).Success?)
  {
    EveryRunKeeps(thread, labels);
    ChangeIsLegal(Run(thread, labels).value);
  }

  lemma ChangeIsLegal(s: System)
    requires Coupled(s)
    ensures !s.client.pc.ClientError? && (s.asim.AsimError? ==> s.hist.dropped)
    ensures NextChange(s).Some? ==> ChangeState(s.slot, NextChange(s).value).Success?
  {
    match s.slot.state
    case Empty =>
    case EventReady =>
    case AsimConsumed =>
    case AsimAck =>
    case ThreadDead =>
  }

  /** An ACK (or probe) is refused unless Asim holds a delivery it has not answered yet. */
  lemma SecondAckRejected(thread: nat, labels: seq<Label>, response: Response)
    requires Run(thread, labels).Some?
    requires var a := Run(thread, labels).value.asim; !a.Holding? && !a.Acking? && !a.Probing?
    ensures ChangeState(Run(thread, labels).value.slot.(response := response), AsimAck)
            == Failure(IllegalStateChange)
  {
    EveryRunKeeps(thread, labels);
  }

  // ---------- When a send may return ----------

  /** A probe result is lost exactly when its SendMessage meets disabled or skipped events. */
  lemma DroppedExactly(s: System, l: Label, thread: nat)
    requires Enabled(s, l) && !s.hist.dropped
    ensures Apply(s, l, thread).hist.dropped <==>
            l.ClientStep? && s.client.depth > 0 &&
            (((s.client.pc.Testing? || s.client.pc.Gated?) && s.control.disableEvents > 0) ||
             (s.client.pc.Gated? && s.control.skipEvents > 0))
  {
  }

  /** Seen from the program, each successful send has returned after exactly one ACK of its own,
      if and only if no probe result was refused on the way. */
  lemma ReturnsMatchAcks(thread: nat, labels: seq<Label>)
    requires Run(thread, labels).Some?
    requires var pc := Run(thread, labels).value.client.pc; pc.Idle? || pc.Dead?
    ensures var h := Run(thread, labels).value.hist; h.completed == h.grants <==> !h.dropped
  {
    EveryRunKeeps(thread, labels);
  }

  /** At no point of a run without a refused probe result is a return ahead of the ACKs. */
  lemma NoReturnBeforeAck(thread: nat, labels: seq<Label>)
    requires Run(thread, labels).Some? && !Run(thread, labels).value.hist.dropped
    ensures var h := Run(thread, labels).value.hist; h.completed <= h.acked <= h.grants
  {
    EveryRunKeeps(thread, labels);
  }

  lemma Extend(thread: nat, labels: seq<Label>, l: Label)
    requires Run(thread, labels).Some? && Enabled(Run(thread, labels).value, l)
    ensures Run(thread, labels + [l]) == Some(Apply(Run(thread, labels).value, l, thread))
  {
    assert (labels + [l])[..|labels + [l]| - 1] == labels;
  }

  /** The client publishes one packet with events on. */
  lemma PublishOne(thread: nat, p: Packet) returns (labels: seq<Label>)
    requires ProgramPacket(p) && p.msg != ThreadEnd
    ensures Run(thread, labels) == Some(System(
              FRESH_SLOT.(packet := p, state := EventReady), Control(0, 0, true), Client(Waiting, 1, false), Free,
              History([Sent(p)], [], 0, 0, 0, false, [], [], [])))
  {
    labels := [];
    assert [] + [Sent(p)] == [Sent(p)];
    Extend(thread, labels, ClientSend(p)); labels := labels + [ClientSend(p)];
    Extend(thread, labels, ClientStep(0)); labels := labels + [ClientStep(0)];
    Extend(thread, labels, ClientStep(0)); labels := labels + [ClientStep(0)];
    Extend(thread, labels, ClientStep(0)); labels := labels + [ClientStep(0)];
    Extend(thread, labels, ClientStep(0)); labels := labels + [ClientStep(0)];
    Extend(thread, labels, ClientStep(0)); labels := labels + [ClientStep(0)];
  }

  /** Asim takes that packet and probes memory. */
  lemma ProbeOne(thread: nat, p: Packet) returns (labels: seq<Label>)
    requires ProgramPacket(p) && p.msg != ThreadEnd
    ensures Run(thread, labels) == Some(System(
              FRESH_SLOT.(packet := p, response := Probe(0, 8), state := AsimAck, packetConsumed := true),
              Control(0, 0, true), Client(Waiting, 1, false), Polling(0, 8),
              History([Sent(p)], [p], 0, 0, 0, false, [(0, 8)], [], [])))
  {
    labels := PublishOne(thread, p);
    assert [] + [p] == [p] && [] + [(0, 8)] == [(0, 8)];
    Extend(thread, labels, AsimLook); labels := labels + [AsimLook];
    Extend(thread, labels, AsimStep); labels := labels + [AsimStep];
    Extend(thread, labels, AsimStep); labels := labels + [AsimStep];
    Extend(thread, labels, AsimProbe(0, 8)); labels := labels + [AsimProbe(0, 8)];
    Extend(thread, labels, AsimStep); labels := labels + [AsimStep];
  }

  /** The refusal does happen: Asim probes during a read, events are disabled before the client
      answers, and the read returns to the program with no ACK at all. */
  lemma RefusedProbeReturnsEarly(thread: nat, p: Packet) returns (labels: seq<Label>)
    requires p.msg == MemoryRead
    ensures Run(thread, labels).Some?
    ensures var s := Run(thread, labels).value;
            s.client.pc.Idle? && s.hist.dropped && s.hist.completed == 1 && s.hist.grants == 0
  {
    labels := ProbeOne(thread, p);
    Extend(thread, labels, ClientStep(0)); labels := labels + [ClientStep(0)];
    Extend(thread, labels, ClientStep(0)); labels := labels + [ClientStep(0)];
    Extend(thread, labels, Environment(1, 0)); labels := labels + [Environment(1, 0)];
    Extend(thread, labels, ClientStep(0)); labels := labels + [ClientStep(0)];
    Extend(thread, labels, ClientStep(0)); labels := labels + [ClientStep(0)];
  }

  // ---------- No stuck state ----------

  /** A step some party can always take towards the client's return. */
  function NextLabel(s: System): Label {
    if !s.client.pc.Waiting? || s.slot.state == AsimAck then ClientStep(0)
    else if s.asim.Free? then AsimLook
    else if s.asim.Holding? then AsimAcknowledge
    else AsimStep
  }

  /** How far the client is from returning if both parties keep taking those steps. */
  function Distance(s: System): nat {
    var d := s.client.depth;
    var requests := (if s.slot.newCpuId then 5 else 0) + (if s.slot.newPriority then 5 else 0);
    match s.client.pc
    case Idle => 0
    case Dead => 0
    case ClientError => 0
    case Killing => 1
    case Unwinding(frames) => 1 + frames
    case Publishing(_) => 9 + d + requests
    case Copying(_) => 10 + d + requests
    case Clearing(_) => 11 + d + requests
    case Gated(_) => 12 + d + requests
    case Testing(_) => 13 + d + requests
    case Probed(_, _) => 14 + d + requests
    case Waiting =>
      match s.slot.state
      case AsimAck => if s.slot.response == Ack then 2 + d else 15 + d + requests
      case _ =>
        match s.asim
        case Free => 7 + d + requests
        case Seen => 6 + d + requests
        case Taken(p) => if IsPseudo(p) then 10 + d + requests else 5 + d
        case Holding(p) => if IsPseudo(p) then 9 + d + requests else 4 + d
        case Acking(p) => if IsPseudo(p) then 8 + d + requests else 3 + d
        case Probing(_, _) => 16 + d + requests
        case Polling(_, _) => 6 + d
        case Answered(_, _, _) => 5 + d
        case AsimError => 0
  }

  predicate AtProgram(s: System) {
    s.client.pc.Idle? || s.client.pc.Dead?
  }

  predicate EventsOn(s: System) {
    s.control.disableEvents == 0 && s.control.skipEvents == 0
  }

  /** After a refused probe result the client is publishing, or has published, one more packet.
      Asim, still polling for the result, can only take that packet for an error. */
  predicate Stuck(s: System) {
    var pc := s.client.pc;
    s.hist.dropped && (pc.Clearing? || pc.Copying? || pc.Publishing? || pc.Waiting?)
  }

  /** The control record that lets the client go on: events on, or off when a packet would get stuck. */
  predicate Ready(s: System) {
    if s.hist.dropped then s.control.disableEvents > 0 else EventsOn(s)
  }

  lemma NextLabelHelps(s: System, thread: nat)
    requires Inv(s, thread) && !Stuck(s) && Ready(s) && !AtProgram(s)
    ensures Enabled(s, NextLabel(s))
    ensures var t := Apply(s, NextLabel(s), thread);
            Distance(t) < Distance(s) && t.hist.dropped == s.hist.dropped && Ready(t) && !Stuck(t)
  {
    hide Counted, Streamed;
    if s.client.pc.Waiting? { WaitingHelps(s, thread); }
  }

  /** While the client waits, Asim works towards an answer. */
  lemma WaitingHelps(s: System, thread: nat)
    requires Coupled(s) && s.client.pc.Waiting? && !s.hist.dropped
    ensures Enabled(s, NextLabel(s))
    ensures var t := Apply(s, NextLabel(s), thread);
            Distance(t) < Distance(s) && !t.hist.dropped && t.control == s.control
  {
    match s.slot.state
    case Empty =>
    case EventReady =>
    case AsimConsumed =>
    case AsimAck =>
    case ThreadDead =>
  }

  /** Out of such a state both parties can go on until the client is back in the program. */
  lemma {:induction false} Finish(thread: nat, labels: seq<Label>) returns (more: seq<Label>)
    requires Run(thread, labels).Some?
    requires var s := Run(thread, labels).value; !Stuck(s) && Ready(s)
    ensures Run(thread, labels + more).Some?
    ensures var t := Run(thread, labels + more).value;
            AtProgram(t) && t.hist.dropped == Run(thread, labels).value.hist.dropped
    decreases Distance(Run(thread, labels).value)
  {
    hide *;
    var s := Run(thread, labels).value;
    if AtProgram(s) {
      more := [];
      assert labels + more == labels;
    } else {
      EveryRunKeeps(thread, labels);
      NextLabelHelps(s, thread);
      var l := NextLabel(s);
      Extend(thread, labels, l);
      var rest := Finish(thread, labels + [l]);
      more := [l] + rest;
      assert labels + more == labels + [l] + rest;
    }
  }

  // ---------- Every schedule that keeps moving brings the client back ----------

  /** Neither a new probe nor a change that turns events off. */
  predicate Quiet(l: Label) {
    !l.AsimProbe? && (l.Environment? ==> l.disable == 0 && l.skip == 0)
  }

  lemma ClientHelps(s: System, data: nat, thread: nat)
    requires Coupled(s) && !s.hist.dropped && EventsOn(s) && Enabled(s, ClientStep(data))
    ensures var t := Apply(s, ClientStep(data), thread);
            (t == s || Distance(t) < Distance(s)) && !t.hist.dropped && EventsOn(t)
  {
    if s.client.pc.Waiting? && s.slot.state == AsimAck && s.slot.response == Ack {
      // the answer is taken
    } else if s.client.pc.Waiting? {
      // a probe is taken, or the poll finds nothing
    } else if s.client.pc.Unwinding? {
      // one frame fewer
    }
  }

  lemma AsimHelps(s: System, l: Label, thread: nat)
    requires Coupled(s) && !s.hist.dropped && EventsOn(s) && !AtProgram(s)
    requires (l.AsimLook? || l.AsimAcknowledge? || l.AsimStep?) && Enabled(s, l)
    ensures var t := Apply(s, l, thread);
            (t == s || Distance(t) < Distance(s)) && !t.hist.dropped && EventsOn(t)
  {
    match s.slot.state
    case Empty =>
    case EventReady =>
    case AsimConsumed =>
    case AsimAck =>
    case ThreadDead =>
  }

  /** With events on, and until a probe result is refused, no step leads away from the return:
      each changes nothing, as a poll does, or brings it nearer. */
  lemma AnyStepHelps(s: System, l: Label, thread: nat)
    requires Inv(s, thread) && !s.hist.dropped && EventsOn(s) && !AtProgram(s)
    requires Enabled(s, l) && Quiet(l)
    ensures var t := Apply(s, l, thread);
            (t == s || Distance(t) < Distance(s)) && !t.hist.dropped && EventsOn(t)
  {
    if l.ClientStep? {
      ClientHelps(s, l.probeData, thread);
    } else if !l.Environment? {
      hide Coupled, Counted, Streamed, Distance, Apply;
      AsimHelps(s, l, thread);
    }
  }

  /** How many steps of `more` change anything when it follows `labels`. */
  function Moves(thread: nat, labels: seq<Label>, more: seq<Label>): nat {
    if more == [] then 0
    else
      var n := |more| - 1;
      Moves(thread, labels, more[..n]) +
      (if Run(thread, labels + more) == Run(thread, labels + more[..n]) then 0 else 1)
  }

  /** Some point of `more` at which the client is back in the program. */
  predicate ComesBack(thread: nat, labels: seq<Label>, more: seq<Label>) {
    exists i | 0 <= i <= |more| ::
      Run(thread, labels + more[..i]).Some? && AtProgram(Run(thread, labels + more[..i]).value)
  }

  /** Until the client is back, every move has used up some of the distance. */
  lemma {:induction false} StillAway(thread: nat, labels: seq<Label>, more: seq<Label>)
    requires Run(thread, labels + more).Some? && !ComesBack(thread, labels, more)
    requires forall l | l in more :: Quiet(l)
    requires Run(thread, labels).Some?
    requires var s := Run(thread, labels).value; !s.hist.dropped && EventsOn(s)
    ensures var t := Run(thread, labels + more).value;
            !t.hist.dropped && EventsOn(t) && !AtProgram(t) &&
            Moves(thread, labels, more) + Distance(t) <= Distance(Run(thread, labels).value)
  {
    hide Inv, Distance, AtProgram, Apply, Enabled, Quiet, EventsOn;
    assert more[..|more|] == more;
    if more == [] {
      assert labels + more == labels;
    } else {
      var n := |more| - 1;
      var before := labels + more[..n];
      assert labels + more == before + [more[n]];
      assert (before + [more[n]])[..|before|] == before;
      assert !ComesBack(thread, labels, more[..n]) by {
        forall i | 0 <= i <= n ensures more[..n][..i] == more[..i] {
        }
      }
      StillAway(thread, labels, more[..n]);
      EveryRunKeeps(thread, before);
      AnyStepHelps(Run(thread, before).value, more[n], thread);
    }
  }

  /** From a reachable state with events on and no probe result refused, every schedule without a
      further probe that moves at least `Distance` times has brought the client back on its way.
      Short of that, a step that moves is always there to be taken. */
  lemma EveryScheduleReturns(thread: nat, labels: seq<Label>, more: seq<Label>)
    requires Run(thread, labels).Some? && Run(thread, labels + more).Some?
    requires var s := Run(thread, labels).value; !s.hist.dropped && EventsOn(s)
    requires forall l | l in more :: Quiet(l)
    ensures Moves(thread, labels, more) >= Distance(Run(thread, labels).value) ==> ComesBack(thread, labels, more)
    ensures !ComesBack(thread, labels, more) ==>
              var t := Run(thread, labels + more).value;
              exists l | Quiet(l) :: Enabled(t, l) && Apply(t, l, thread) != t
  {
    if !ComesBack(thread, labels, more) {
      StillAway(thread, labels, more);
      EveryRunKeeps(thread, labels + more);
      hide Inv, Distance, AtProgram, ComesBack, Moves;
      var t := Run(thread, labels + more).value;
      NextLabelHelps(t, thread);
      assert Quiet(NextLabel(t)) && Apply(t, NextLabel(t), thread) != t;
    }
  }

  /** A stuck client never returns: whatever happens, it stays so and completes nothing more. */
  lemma StuckStep(s: System, l: Label, thread: nat)
    requires Inv(s, thread) && Stuck(s) && Enabled(s, l)
    ensures var t := Apply(s, l, thread); Stuck(t) && t.hist.completed == s.hist.completed
  {
  }

  lemma {:induction false} StuckForever(thread: nat, labels: seq<Label>, more: seq<Label>)
    requires Run(thread, labels).Some? && Stuck(Run(thread, labels).value) && Run(thread, labels + more).Some?
    ensures var t := Run(thread, labels + more).value;
            Stuck(t) && t.hist.completed == Run(thread, labels).value.hist.completed
  {
    if more == [] {
      assert labels + more == labels;
    } else {
      var n := |more| - 1;
      assert (labels + more)[..|labels + more| - 1] == labels + more[..n];
      StuckForever(thread, labels, more[..n]);
      EveryRunKeeps(thread, labels + more[..n]);
      StuckStep(Run(thread, labels + more[..n]).value, more[n], thread);
    }
  }

  /** From a reachable state some continuation brings the client back to the program exactly when it
      is not stuck in this way. */
  lemma CanAlwaysFinish(thread: nat, labels: seq<Label>)
    requires Run(thread, labels).Some?
    ensures (exists more :: Run(thread, labels + more).Some? && AtProgram(Run(thread, labels + more).value))
            <==> !Stuck(Run(thread, labels).value)
  {
    if Stuck(Run(thread, labels).value) {
      forall more | Run(thread, labels + more).Some? ensures !AtProgram(Run(thread, labels + more).value) {
        StuckForever(thread, labels, more);
      }
    } else {
      var s := Run(thread, labels).value;
      var l := Environment(if s.hist.dropped then 1 else 0, 0);
      Extend(thread, labels, l);
      var more := Finish(thread, labels + [l]);
      assert labels + ([l] + more) == labels + [l] + more;
    }
  }

  /** This does happen: after a read whose probe result was refused, the next packet is never answered. */
  lemma NextSendIsStuck(thread: nat, p: Packet, q: Packet) returns (labels: seq<Label>)
    requires p.msg == MemoryRead && ProgramPacket(q)
    ensures Run(thread, labels).Some?
    ensures var s := Run(thread, labels).value; Stuck(s) && s.client.pc.Waiting? && s.hist.completed == 1
  {
    hide Run, AsimNext;
    labels := RefusedProbeReturnsEarly(thread, p);
    Extend(thread, labels, Environment(0, 0)); labels := labels + [Environment(0, 0)];
    Extend(thread, labels, ClientSend(q)); labels := labels + [ClientSend(q)];
    Extend(thread, labels, ClientStep(0)); labels := labels + [ClientStep(0)];
    Extend(thread, labels, ClientStep(0)); labels := labels + [ClientStep(0)];
    Extend(thread, labels, ClientStep(0)); labels := labels + [ClientStep(0)];
    Extend(thread, labels, ClientStep(0)); labels := labels + [ClientStep(0)];
    Extend(thread, labels, ClientStep(0)); labels := labels + [ClientStep(0)];
  }
}
