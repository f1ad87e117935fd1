/**
 Callers that take the objects through whole runs. Each ends where the run
 function of the specification says, so what is proved of runs holds of the objects.
 */
module DrivenRuns {
  import opened Wrappers

  import Cache = TranslationSpec
  import Feeder = FeederSpec
  import Memory = MemoryValueSpec
  import MemoryRuns = MemoryValueRuns
  import Pool = VaTableSpec
  import Trace = MemFeederRuns
  import TraceSpec = MemFeederSpec

  import ITranslate
  import MemFeeder
  import MemoryValues
  import ReplaySpec
  import SoftsdvFeeder
  import SoftsdvReplay
  import VaTable

  /** A table of virtual addresses under any run of adds and removals; not ok is a fatal error. */
  method DriveTable(t: VaTable.VirtualAddressTable, steps: seq<Pool.Step>) returns (ok: bool)
    requires t.Valid() && forall s | s in steps :: s.row < t.rows
    modifies t, t.elements, t.head, t.tail, t.rowsize
    ensures ok <==> Pool.Run(old(t.Abs()), steps) != None
    ensures ok ==> t.Valid() && Some(t.Abs()) == Pool.Run(old(t.Abs()), steps)
  {
    ghost var start := t.Abs();
    for i := 0 to |steps|
      invariant t.Valid() && (t.elements == old(t.elements) || fresh(t.elements))
      invariant Pool.Run(t.Abs(), steps[i..]) == Pool.Run(start, steps)
    {
      var s := steps[i];
      assert steps[i..][0] == s && steps[i..][1..] == steps[i + 1..];
      t.SizeIs();
      ok := DriveRow(t, s);
      if !ok { return; }
    }
    ok := true;
  }

  method DriveRow(t: VaTable.VirtualAddressTable, s: Pool.Step) returns (ok: bool)
    requires t.Valid() && s.row < t.rows
    modifies t, t.elements, t.head, t.tail, t.rowsize
    ensures t.elements == old(t.elements) || fresh(t.elements)
    ensures ok <==> Pool.Next(old(t.Abs()), s) != None
    ensures ok ==> t.Valid() && Some(t.Abs()) == Pool.Next(old(t.Abs()), s)
  {
    match s {
      case DoAdd(row, d) => ok := t.AddVa(d.address, d.lastThread, d.lastIcount, row);
      case DoRemoveHead(row, address) => ok := t.RemoveDepHead(row, address);
      case DoRemoveMid(row, address) => ok := t.RemoveDepMid(row, address);
    }
  }

  /** A translation cache under any run that the specification allows. */
  method DriveCache(t: ITranslate.TranslationTable, steps: seq<Cache.Step>)
    requires t.Valid() && t.Abs().rows != [] && Cache.Run(t.Abs(), steps) != None
    modifies t, t.table
    ensures t.Valid() && Some(t.Abs()) == Cache.Run(old(t.Abs()), steps)
  {
    ghost var start := t.Abs();
    for i := 0 to |steps|
      invariant t.Valid() && t.Abs().rows != []
      invariant Cache.Run(t.Abs(), steps[i..]) == Cache.Run(start, steps)
    {
      var s := steps[i];
      assert steps[i..][0] == s && steps[i..][1..] == steps[i + 1..];
      DriveEntry(t, s);
    }
  }

  method DriveEntry(t: ITranslate.TranslationTable, s: Cache.Step)
    requires t.Valid() && t.Abs().rows != []
    modifies t, t.table
    ensures t.Valid() && t.Abs() == Cache.Next(old(t.Abs()), s)
  {
    match s {
      case DoLookup(va) => var _, _ := t.Lookup(va);
      case DoAdd(va, pa, uid) => var _ := t.AddEntry(va, pa, uid);
      case DoAddArtificial(va, pa) => var _ := t.AddArtificialEntry(va, pa);
      case DoDrop(va) => t.DropTranslation(va);
      case DoDropOld(uid) => t.DropOldUserSpaceTranslations(uid);
    }
  }

  ghost predicate Shows(feeder: MemFeeder.FeederThreadMgmt, f: Trace.Feeder)
    reads feeder.currentState, set t | t in feeder.currentState :: t.op
  {
    && |feeder.currentState| == |f.threads|
    && forall t | 0 <= t < |f.threads| :: feeder.currentState[t].Valid() && feeder.currentState[t].Abs() == f.threads[t]
  }

  lemma SameCounts(feeder: MemFeeder.FeederThreadMgmt, f: Trace.Feeder)
    requires Shows(feeder, f)
    ensures MemFeeder.Counts(feeder.currentState) == Trace.Counts(f.threads)
  {
    var counts := MemFeeder.Counts(feeder.currentState);
    forall t | 0 <= t < |f.threads| ensures counts[t] == Trace.Counts(f.threads)[t] {
      assert feeder.currentState[t].Abs() == f.threads[t];
    }
  }

  /** The threads of a trace feeder, made from their traces and taken through any run. */
  method DriveThreads(traces: seq<seq<TraceSpec.Line>>, steps: seq<Trace.Step>)
    returns (feeder: MemFeeder.FeederThreadMgmt)
    requires Trace.Valid(traces) && Trace.RunOf(traces, steps) != None
    ensures feeder.Valid() && |feeder.currentState| == |traces|
    ensures var f := Trace.RunOf(traces, steps).value;
            |f.threads| == |traces| && forall t | 0 <= t < |traces| :: feeder.currentState[t].Abs() == f.threads[t]
  {
    feeder := new MemFeeder.FeederThreadMgmt(traces);
    ghost var f := Trace.Start(traces);
    Trace.StartOk(traces);
    for i := 0 to |steps|
      invariant feeder.Valid() && Trace.AllOk(f) && Shows(feeder, f) && |f.threads| == |traces|
      invariant forall t | 0 <= t < |traces| :: fresh(feeder.currentState[t]) && fresh(feeder.currentState[t].op)
      invariant Trace.Run(f, steps[i..]) == Trace.RunOf(traces, steps)
    {
      hide Shows, Trace.AllOk, Trace.Next;
      var s := steps[i];
      assert steps[i..][0] == s && steps[i..][1..] == steps[i + 1..];
      Trace.AllSound(f);
      Trace.StepOk(f, s);
      DriveThread(feeder, f, s);
      f := Trace.Next(f, s);
    }
  }

  method DriveThread(feeder: MemFeeder.FeederThreadMgmt, ghost f: Trace.Feeder, s: Trace.Step)
    requires feeder.Valid() && Shows(feeder, f) && Trace.Sound(f) && Trace.Enabled(f, s)
    modifies feeder.currentState[s.t], feeder.currentState[s.t].op
    ensures feeder.Valid() && Shows(feeder, Trace.Next(f, s))
  {
    hide TraceSpec.Fetch, TraceSpec.Commit, TraceSpec.Kill, TraceSpec.WellFormed, MemFeeder.Counts;
    SameCounts(feeder, f);
    match s {
      case DoFetch(t, uid) => var _ := feeder.GenerateAsimInst(t, uid);
      case DoCommit(t, uid) => var _ := feeder.Commit(t, uid);
      case DoKill(t, uid, killMe) => var _ := feeder.Kill(t, uid, !killMe, killMe);
    }
  }

  /** The live instruction at a position, found by following the list. */
  method NodeAt(buffer: SoftsdvReplay.ReplayBuffer, k: nat) returns (n: SoftsdvReplay.LiveInstruction)
    requires buffer.Valid() && k < |buffer.active|
    ensures n == buffer.active[k]
  {
    n := buffer.head;
    for i := 0 to k
      invariant n == buffer.active[i]
    {
      buffer.LinksAt(i);
      n := n.next;
    }
  }

  /** The trace id the model was given for an instruction. */
  method TraceOf(cpu: SoftsdvFeeder.CpuState, id: Feeder.TraceId) returns (trace: SoftsdvFeeder.Trace)
    requires cpu.Valid() && (id.Live? ==> id.k < |cpu.liveInstrs.active|)
    ensures cpu.TraceAt(trace, id)
  {
    match id {
      case WrongPath => trace := SoftsdvFeeder.WrongPathTrace;
      case Artificial => trace := SoftsdvFeeder.ArtificialTrace;
      case Live(k) =>
        var n := NodeAt(cpu.liveInstrs, k);
        trace := SoftsdvFeeder.Trace.Handle(n);
    }
  }

  /** A CPU of the SoftSDV feeder under any run; not ok is the fatal error for register values that
      have not arrived in order. */
  method DriveCpu(cpu: SoftsdvFeeder.CpuState, ghost h: Feeder.History, steps: seq<Feeder.Step>) returns (ok: bool)
    requires cpu.Valid() && h.cpu == cpu.Abs() && ReplaySpec.WellFormed(h.cpu.buf)
    requires Feeder.Run(cpu.isa, h, steps) != None
    modifies cpu, cpu.liveInstrs, cpu.liveInstrs.nodes
    ensures (forall s | s in steps && s.Arrive? :: s.instr.regsUid == 0) ==> ok
    ensures ok ==> cpu.Valid() && cpu.Abs() == Feeder.Run(cpu.isa, h, steps).value.cpu
  {
    ghost var now := h;
    for i := 0 to |steps|
      invariant cpu.Valid() && now.cpu == cpu.Abs() && ReplaySpec.WellFormed(now.cpu.buf)
      invariant fresh(cpu.liveInstrs.nodes - old(cpu.liveInstrs.nodes))
      invariant Feeder.Run(cpu.isa, now, steps[i..]) == Feeder.Run(cpu.isa, h, steps)
    {
      var s := steps[i];
      assert steps[i..][0] == s && steps[i..][1..] == steps[i + 1..];
      ok := DriveStep(cpu, s);
      if !ok { return; }
      now := Feeder.Next(cpu.isa, now, s);
    }
    ok := true;
  }

  method DriveStep(cpu: SoftsdvFeeder.CpuState, s: Feeder.Step) returns (ok: bool)
    requires cpu.Valid() && ReplaySpec.WellFormed(cpu.Abs().buf) && Feeder.Allowed(cpu.Abs(), s)
    modifies cpu, cpu.liveInstrs, cpu.liveInstrs.nodes
    ensures (s.Arrive? ==> s.instr.regsUid == 0) ==> ok
    ensures ok ==> cpu.Valid() && fresh(cpu.liveInstrs.nodes - old(cpu.liveInstrs.nodes))
    ensures ok ==> cpu.Abs() == Feeder.NextCpu(cpu.isa, old(cpu.Abs()), s)
  {
    ok := true;
    match s {
      case Arrive(instr) =>
        var n := cpu.liveInstrs.AddInstruction(instr);
        ok := n != null;
      case Fetch(pc, mUid, nop) =>
        var _, _ := cpu.FetchMacro(pc, mUid, nop);
      case Squash(id, fetchNext, startOfMacro, mUid) =>
        var trace := TraceOf(cpu, id);
        cpu.Kill(trace, fetchNext, !fetchNext, startOfMacro, mUid, id);
      case Retire(k) =>
        var trace := TraceOf(cpu, Feeder.Live(k));
        var _, _, _ := cpu.Commit(trace, false, true, Feeder.Live(k));
      case Handle(mUid) =>
        cpu.HandleSystemEvent(mUid);
      case OtherEnds =>
        cpu.ForceThreadExit();
    }
  }

  datatype Kind = Local | Killed | Global

  /** A store that becomes local or global or is killed. */
  datatype Event = Event(kind: Kind, op: MemoryValues.Memop)

  ghost function StepOf(e: Event): MemoryRuns.Step
    reads e.op`value
  {
    match e.kind
    case Local => MemoryRuns.ToLocal(e.op.AsStore())
    case Killed => MemoryRuns.Killed(e.op.AsStore())
    case Global => MemoryRuns.ToGlobal(e.op.AsStore())
  }

  /** No store becomes local while it is in a list. */
  ghost predicate Unlisted(listed: set<MemoryValues.Memop>, events: seq<Event>)
    decreases |events|
  {
    events == [] ||
    (var op := events[0].op;
     if events[0].kind == Local then op !in listed && Unlisted(listed + {op}, events[1..])
     else Unlisted(listed - {op}, events[1..]))
  }

  /** A memory-value model under any run of stores. `all` holds all operations there are; their uids differ. */
  method DriveMemory(model: MemoryValues.MemoryValueModel, events: seq<Event>, ghost all: set<MemoryValues.Memop>,
                     ghost steps: seq<MemoryRuns.Step>)
    requires model.Valid() && model.ops <= all
    requires forall op, op' | op in all && op' in all :: op.uid == op'.uid ==> op == op'
    requires |steps| == |events| && forall i | 0 <= i < |events| :: events[i].op in all && StepOf(events[i]) == steps[i]
    requires Unlisted(model.ops, events) && MemoryRuns.Run(model.Abs(), steps) != None
    modifies model, model.memops.Values, all
    decreases |events|
    ensures model.Valid() && Some(model.Abs()) == MemoryRuns.Run(old(model.Abs()), steps)
  {
    if events != [] {
      hide Memory.ValidMemory, MemoryRuns.Next, StepOf, MemoryValues.MemoryValueModel.Valid;
      DriveEvent(model, events[0], all);
      DriveMemory(model, events[1..], all, steps[1..]);
    }
  }

  method DriveEvent(model: MemoryValues.MemoryValueModel, e: Event, ghost all: set<MemoryValues.Memop>)
    requires model.Valid() && model.ops <= all && e.op in all && (e.kind == Local ==> e.op !in model.ops)
    requires forall op, op' | op in all && op' in all :: op.uid == op'.uid ==> op == op'
    requires MemoryRuns.Enabled(model.Abs(), StepOf(e))
    modifies model, model.memops.Values, e.op`timeStamp
    ensures model.Valid() && model.Abs() == old(MemoryRuns.Next(model.Abs(), StepOf(e)))
    ensures model.ops == if e.kind == Local then old(model.ops) + {e.op} else old(model.ops) - {e.op}
    ensures fresh(model.memops.Values - old(model.memops.Values))
  {
    hide Memory.ValidMemory, Memory.MakeLocal, Memory.Kill, Memory.MakeGlobal;
    match e.kind {
      case Local => model.StoreLocallyVisibleNow(e.op);
      case Killed => model.Killed(e.op);
      case Global => model.StoreGloballyVisibleNow(e.op);
    }
  }
}
