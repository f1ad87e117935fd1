/**
 The SoftSDV feeder of one simulated CPU (feeders/inst/softsdv/softsdv_feeder.cpp):
 fetch, kill and commit driving the replay buffer.
 */
module SoftsdvFeeder {
  import opened Wrappers
  import opened ReplaySpec
  import opened FeederSpec
  import opened SoftsdvReplay

  /** The trace id on a model instruction: a handle, or one of the two reserved values. */
  datatype Trace = WrongPathTrace | ArtificialTrace | Handle(liveInstr: LiveInstruction)

  class CpuState {
    const liveInstrs: ReplayBuffer
    const isa: Isa
    var onBadPath: bool
    var pendingEvent: Option<nat>
    var simComplete: bool

    ghost predicate Valid()
      reads liveInstrs, liveInstrs.active, liveInstrs.free
    {
      liveInstrs.Valid()
    }

    ghost function Abs(): Cpu
      reads this, liveInstrs
    {
      Cpu(liveInstrs.Abs(), onBadPath, pendingEvent, simComplete)
    }

    constructor (isa: Isa)
      ensures Valid() && fresh(liveInstrs) && this.isa == isa
      ensures Abs() == START.cpu && liveInstrs.nodes == {}
    {
      this.isa := isa;
      liveInstrs := new ReplayBuffer();
      onBadPath, pendingEvent, simComplete := false, None, false;
    }

    /** Only the first of several pending requests is kept. */
    method PushSystemEvent(mUid: nat)
      modifies this`pendingEvent
      ensures pendingEvent == if old(pendingEvent) == None then Some(mUid) else old(pendingEvent)
    {
      if pendingEvent == None {
        pendingEvent := Some(mUid);
      }
    }

    method HandleSystemEvent(mUid: nat)
      modifies this`pendingEvent
      ensures Abs() == HandleEvent(old(Abs()), mUid)
      ensures pendingEvent == if old(pendingEvent) == Some(mUid) then None else old(pendingEvent)
    {
      if pendingEvent == Some(mUid) {
        pendingEvent := None;
      }
    }

    /** Fills in the model instruction for a handle just fetched. */
    method AsimInstFromSoftsdvInst(h: LiveInstruction, mUid: nat, nop: bool, ghost r: nat)
      requires Valid() && r < |liveInstrs.active| && liveInstrs.active[r] == h
      modifies this`pendingEvent, liveInstrs`entries, h`implicitCommit
      ensures Valid() && Abs() == Decode(isa, old(Abs()), r, mUid, nop)
    {
      if isa == Ipf {
        if nop {
          liveInstrs.SetImplicitCommit(h, r);
        }
      } else if h.next != null {
        assert liveInstrs.entries[r + 1] == EntryOf(liveInstrs.active[r + 1]);
        if h.next.instr.newSequence || h.next.instr.interrupt {
          liveInstrs.SetImplicitCommit(h, r);
          PushSystemEvent(mUid);
        }
      }
    }

    /** Asks the model to go to the instruction of `target`: on IPF by a jump, which a placeholder
        stands for in the buffer; on x86 by an interrupt request. */
    method InjectJMP(target: LiveInstruction, mUid: nat, ghost r: nat) returns (trace: Trace)
      requires Valid() && r < |liveInstrs.active| && liveInstrs.active[r] == target
      modifies this`pendingEvent, liveInstrs, liveInstrs.nodes
      ensures Valid() && fresh(liveInstrs.nodes - old(liveInstrs.nodes))
      ensures isa == Ipf ==>
        && liveInstrs.Abs() == AddPlaceHolder(old(liveInstrs.Abs()), r) && pendingEvent == old(pendingEvent)
        && trace == Trace.Handle(liveInstrs.active[r]) && liveInstrs.active[r + 1] == target
      ensures isa == X86 ==>
        && liveInstrs.Abs() == old(liveInstrs.Abs()) && liveInstrs.active == old(liveInstrs.active)
        && pendingEvent == (if old(pendingEvent) == None then Some(mUid) else old(pendingEvent))
        && trace == ArtificialTrace
    {
      if isa == Ipf {
        var jmp := liveInstrs.AddArtificialPlaceHolder(target, r);
        trace := Trace.Handle(jmp);
      } else {
        PushSystemEvent(mUid);
        trace := ArtificialTrace;
      }
    }

    /** Leaves an instruction to be fetched again. */
    method PutBack(h: LiveInstruction, ghost r: nat)
      requires Valid() && r < |liveInstrs.active| && liveInstrs.active[r] == h
      modifies liveInstrs`nextFetch, liveInstrs`cursor
      ensures Valid() && Abs() == old(Abs()).(buf := old(Abs()).buf.(cursor := r))
    {
      var _ := liveInstrs.SetNextFetch(h, r);
    }

    /** The end of a CPU's stream is the end for all CPUs: each is told of it. */
    method ForceThreadExit()
      modifies this`simComplete
      ensures Abs() == old(Abs()).(complete := true)
    {
      simComplete := true;
    }

    /** Redirects the model to an instruction and leaves that to be fetched again. */
    method Redirect(target: LiveInstruction, mUid: nat, ghost r: nat) returns (trace: Trace)
      requires Valid() && r < |liveInstrs.active| && liveInstrs.active[r] == target && pendingEvent == None
      modifies this`pendingEvent, liveInstrs, liveInstrs.nodes
      ensures Valid() && trace != WrongPathTrace && fresh(liveInstrs.nodes - old(liveInstrs.nodes))
      ensures var c := old(Abs());
              Abs() == match isa
                       case Ipf => c.(buf := AddPlaceHolder(c.buf, r).(cursor := r + 1))
                       case X86 => c.(buf := c.buf.(cursor := r), irq := Some(mUid))
    {
      trace := InjectJMP(target, mUid, r);
      PutBack(target, if isa == Ipf then r + 1 else r);
    }

    /** Fetches for address `pc`. `nop` tells whether the instruction would decode to one that may
        commit implicitly. */
    method FetchMacro(pc: nat, mUid: nat, nop: bool) returns (out: Fetched, trace: Trace)
      requires Valid()
      modifies this, liveInstrs, liveInstrs.nodes
      ensures Valid() && (Abs(), out) == FeederSpec.FetchMacro(isa, old(Abs()), pc, mUid, nop)
      ensures fresh(liveInstrs.nodes - old(liveInstrs.nodes))
      ensures out.Good? ==>
        0 < liveInstrs.cursor && trace == Trace.Handle(liveInstrs.active[liveInstrs.cursor - 1])
      ensures out.BadPathNop? <==> trace == WrongPathTrace
    {
      hide ReplayBuffer.Shape, ReplayBuffer.Conserved, Decode, AddPlaceHolder, NextReal;
      ghost var r := NextReal(liveInstrs.entries, liveInstrs.cursor);
      var fetchHandle := liveInstrs.GetNextRealFetchHandle();
      if fetchHandle == null || simComplete {
        ForceThreadExit();
        return EndNop, ArtificialTrace;
      }
      liveInstrs.EntryIs(r);
      var newInstr := fetchHandle.instr;
      var newAddr := newInstr.addrVirtual;
      var interruptPending := pendingEvent != None;
      if pc != newAddr && !onBadPath && !interruptPending && (newInstr.newSequence || newInstr.interrupt) {
        trace := Redirect(fetchHandle, mUid, r);
        return Jmp(newAddr), trace;
      }
      if pc != newAddr || onBadPath || interruptPending {
        onBadPath := true;
        PutBack(fetchHandle, r);
        return BadPathNop, WrongPathTrace;
      }
      AsimInstFromSoftsdvInst(fetchHandle, mUid, nop, r);
      return Good(newInstr), Trace.Handle(fetchHandle);
    }

    /** The position a trace id stands for. */
    ghost predicate TraceAt(trace: Trace, id: TraceId)
      reads liveInstrs
    {
      match trace
      case WrongPathTrace => id.WrongPath?
      case ArtificialTrace => id.Artificial?
      case Handle(h) => id.Live? && id.k < |liveInstrs.active| && liveInstrs.active[id.k] == h
    }

    /** Drops the interrupt requests of killed instructions. */
    method KillEvents(me: bool, mUid: nat)
      modifies this`pendingEvent
      ensures pendingEvent ==
        var p := old(pendingEvent);
        if p != None && ((me && p.value == mUid) || p.value > mUid) then None else p
    {
      if me {
        while pendingEvent == Some(mUid)
          invariant pendingEvent == old(pendingEvent) || (old(pendingEvent) == Some(mUid) && pendingEvent == None)
          decreases pendingEvent != None
        {
          HandleSystemEvent(mUid);
        }
      }
      while pendingEvent != None && pendingEvent.value > mUid
        invariant pendingEvent == old(pendingEvent)
          || (pendingEvent == None && (old(pendingEvent).value > mUid || (me && old(pendingEvent).value == mUid)))
        invariant me ==> pendingEvent != Some(mUid)
        decreases pendingEvent != None
      {
        pendingEvent := None;
      }
    }

    /** Squashes from an instruction on: from itself when `killMe`, else from the one behind it. */
    method Kill(trace: Trace, fetchNext: bool, killMe: bool, startOfMacro: bool, mUid: nat, ghost id: TraceId)
      requires Valid() && fetchNext != killMe && TraceAt(trace, id)
      modifies this, liveInstrs`nextFetch, liveInstrs`cursor
      ensures Valid() && Abs() == FeederSpec.Kill(old(Abs()), id, fetchNext, startOfMacro, mUid)
    {
      hide ReplayBuffer.Shape, ReplayBuffer.Conserved;
      var me := killMe && startOfMacro;
      if trace == WrongPathTrace { return; }
      if trace.Handle? {
        var _ := liveInstrs.SetNextFetch(trace.liveInstr, id.k);
        if !me {
          var _ := liveInstrs.GetNextFetchHandle();
        }
      }
      onBadPath := false;
      KillEvents(me, mUid);
    }

    /** Commits a macro instruction at its true end; `bad` reports an attempt to commit one from the
        wrong path. An instruction that has not been fetched leaves the cursor on a freed node. */
    method Commit(trace: Trace, hadFault: bool, trueEnd: bool, ghost id: TraceId)
      returns (bad: bool, total: nat, tag: int)
      requires Valid() && TraceAt(trace, id)
      requires !hadFault && trueEnd && id.Live? ==>
        InOrder(liveInstrs.Abs(), id.k) && liveInstrs.nextFetch != trace.liveInstr
      modifies liveInstrs, liveInstrs.nodes
      ensures (bad <==> !hadFault && trueEnd && trace == WrongPathTrace) && liveInstrs.nodes == old(liveInstrs.nodes)
      ensures var c, done := old(Abs()), !hadFault && trueEnd && id.Live?;
              if done && id.k >= old(liveInstrs.cursor) then
                liveInstrs.Shape() && liveInstrs.Conserved() && liveInstrs.nextFetch != null &&
                liveInstrs.nextFetch in liveInstrs.free
              else Valid() && Abs() == if done then c.(buf := ReplaySpec.Commit(c.buf, id.k)) else c
      ensures total == if hadFault || !trueEnd || id.WrongPath? then 0
                       else if id.Artificial? then 1 else 1 + |Reals(old(liveInstrs.entries)[..id.k])|
      ensures tag == if hadFault || !trueEnd || !id.Live? then -1
                     else LastTag(old(liveInstrs.entries)[..id.k + 1], -1)
    {
      hide ReplayBuffer.Shape, ReplayBuffer.Conserved, Reals, LastTag;
      bad, total, tag := false, 0, -1;
      if hadFault || !trueEnd { return; }
      if trace == WrongPathTrace {
        bad := true;
      } else if trace == ArtificialTrace {
        total := 1;
      } else {
        var nCommitted;
        nCommitted, tag := liveInstrs.CommitInstruction(trace.liveInstr, tag, id.k);
        total := 1 + nCommitted;
      }
    }
  }
}
