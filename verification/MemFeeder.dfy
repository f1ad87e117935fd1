/**
 The memory-trace feeder's thread class and its manager
 (feeders/inst/memfeeder/mem-feeder.cpp), changing state in place as the source does.
 */
module MemFeeder {
  import opened Wrappers
  import opened MemFeederSpec

  const SYLLABLES_PER_BUNDLE := 3

  /** Moving the last of the first `m` elements over to the rest. */
  lemma MoveLast<T>(s: seq<T>, m: nat, rest: seq<T>)
    requires 0 < m <= |s|
    ensures [s[m - 1]] + (s[m..] + rest) == s[m - 1..] + rest && s[..m][..m - 1] == s[..m - 1]
  {
  }

  class MemThread {
    const trace: seq<Line>
    var pos: nat            // lines of the trace read so far
    var issued: seq<MemOp>
    var replay: seq<MemOp>
    const op: array<Body>
    var currentSlot: nat
    var haveBundle: bool
    var stopped: bool
    var waiting: Option<Line>
    var currentInst: nat

    ghost predicate Valid()
      reads this, op
    {
      op.Length == SYLLABLES_PER_BUNDLE && pos <= |trace| && currentSlot <= 3 && (haveBundle <==> currentSlot < 3)
    }

    ghost function Abs(): Thread
      requires Valid()
      reads this, op
    {
      Thread(trace, pos, issued, replay, op[currentSlot..], waiting, stopped, currentInst)
    }

    constructor (trace: seq<Line>)
      ensures Valid() && fresh(op) && Abs() == Fresh(trace)
    {
      this.trace := trace;
      pos, issued, replay, waiting, stopped, currentInst := 0, [], [], None, false, 0;
      op := new Body[3](_ => NopM);
      currentSlot, haveBundle := 3, false;
    }

    /** The thread without the bundle it is working on. */
    ghost function State(): Thread
      reads `pos, `issued, `replay, `waiting, `stopped, `currentInst
    {
      Thread(trace, pos, issued, replay, [], waiting, stopped, currentInst)
    }

    /** One round of MakeBundle's loop: fills slot `i`, or reads a line that must wait and leaves the
        slot to be looked at again. */
    method FillSlot(i: nat, peers: seq<MemThread>, eof: bool) returns (filled: bool, eof': bool)
      requires i < 2 && op.Length == 3 && WellFormed(State(), |peers|)
      modifies this`pos, this`waiting, op
      ensures WellFormed(State(), |peers|)
      ensures filled ==> (State(), op[i], eof') == Slot(old(State()), Counts(peers), i, eof)
      ensures !filled ==> eof' == eof && old(waiting) == None && waiting != None
      ensures !filled ==> Slot(State(), Counts(peers), i, eof) == Slot(old(State()), Counts(peers), i, eof)
      ensures forall j | 0 <= j < 3 && j != i :: op[j] == old(op[j])
    {
      filled, eof' := true, eof;
      if !eof && !stopped {
        if waiting == None {
          if pos < |trace| {
            var line := trace[pos];
            pos := pos + 1;
            if line.Plain? {
              op[i] := Mem(line.access);
            } else {
              waiting := Some(line);
              filled := false;
            }
          } else {
            if i == 0 { eof' := true; }
            op[i] := NopM;
          }
        } else {
          if peers[waiting.value.thread].currentInst >= waiting.value.inst {
            op[i] := Mem(waiting.value.access);
            waiting := None;
          } else {
            op[i] := NopM;
          }
        }
      } else {
        op[i] := NopM;
      }
    }

    /** Fills the two memory slots of a bundle, reading on in the trace; true when the trace had
        ended before the first. */
    method MakeBundle(peers: seq<MemThread>) returns (eof: bool)
      requires Valid() && !haveBundle && WellFormed(Abs(), |peers|)
      modifies this`pos, this`waiting, this`currentSlot, this`haveBundle, op
      ensures Valid() && haveBundle
      ensures (Abs(), eof) == MemFeederSpec.MakeBundle(old(Abs()), Counts(peers))
    {
      hide Slot, WellFormed, Counts;
      ghost var counts, start := Counts(peers), State();
      assert start == Abs();
      SlotKeeps(start, counts, 0, false);
      ghost var (t0, b0, e0) := Slot(start, counts, 0, false);
      op[2] := NopI;
      eof := false;
      var i := 0;
      while i < 2
        invariant i <= 2 && op[2] == NopI && WellFormed(State(), |peers|)
        invariant i == 0 ==> Slot(State(), counts, 0, eof) == (t0, b0, e0)
        invariant i == 1 ==> op[0] == b0 && Slot(State(), counts, 1, eof) == Slot(t0, counts, 1, e0)
        invariant i == 2 ==> op[0] == b0 && (State(), op[1], eof) == Slot(t0, counts, 1, e0)
        invariant Counts(peers) == counts
        decreases 2 - i, waiting == None
      {
        var filled;
        filled, eof := FillSlot(i, peers, eof);
        if filled {
          i := i + 1;
        }
      }
      haveBundle := true;
      currentSlot := 0;
      assert op[..] == [op[0], op[1], NopI];
      WithinTrace(State(), |peers|);
    }

    /** Forgets all issued NOPs; true when nothing else is issued. */
    method EmptyIssued() returns (empty: bool)
      modifies this`issued
      ensures issued == WithoutNops(old(issued)) && (empty <==> issued == [])
    {
      var i := 0;
      while i < |issued|
        invariant i <= |issued| && issued[..i] + WithoutNops(issued[i..]) == WithoutNops(old(issued))
        decreases |issued| - i
      {
        ghost var done, rest := issued[..i], issued[i + 1..];
        assert issued[i..][1..] == rest;
        if issued[i].body.Mem? {
          assert issued[..i + 1] == done + [issued[i]];
          assert done + ([issued[i]] + WithoutNops(rest)) == done + [issued[i]] + WithoutNops(rest);
          i := i + 1;
        } else {
          issued := issued[..i] + issued[i + 1..];
          assert issued[..i] == done && issued[i..] == rest;
        }
      }
      assert issued[..i] + [] == issued;
      return issued == [];
    }

    /** The next operation for the model: a replayed one, or the next of the bundle, which is made
        when there is none. At the end of the trace the thread is stopped once nothing is in flight. */
    method GetNextInstr(peers: seq<MemThread>) returns (m: Body)
      requires Valid() && WellFormed(Abs(), |peers|)
      modifies this`pos, this`waiting, this`currentSlot, this`haveBundle, this`issued, this`replay, this`stopped, op
      ensures Valid()
      ensures var th := old(Abs());
              var t := if th.replay == [] && th.slots == [] then Refill(th, Counts(peers)) else th;
              if t.replay != [] then m == t.replay[0].body && Abs() == t.(replay := t.replay[1..])
              else m == t.slots[0] && Abs() == t.(slots := t.slots[1..])
    {
      hide MemFeederSpec.MakeBundle, WithoutNops, WellFormed, Counts;
      if replay != [] {
        m := replay[0].body;
        replay := replay[1..];
      } else {
        if !haveBundle {
          var eof := MakeBundle(peers);
          if eof {
            var empty := EmptyIssued();
            if empty && !stopped {
              stopped := true;
            }
          }
        }
        m := op[currentSlot];
        currentSlot := currentSlot + 1;
        haveBundle := currentSlot < SYLLABLES_PER_BUNDLE;
      }
    }

    method Issue(uid: nat, m: Body)
      requires Valid()
      modifies this`issued
      ensures Valid() && Abs() == old(Abs()).(issued := old(issued) + [MemOp(uid, m)])
    {
      issued := issued + [MemOp(uid, m)];
    }

    /** Hands out the next operation under the uid of a model instruction. */
    method NextIssued(uid: nat, peers: seq<MemThread>) returns (m: Body)
      requires Valid() && WellFormed(Abs(), |peers|)
      modifies this`pos, this`waiting, this`currentSlot, this`haveBundle, this`issued, this`replay, this`stopped, op
      ensures Valid() && issued != [] && MemOp(uid, m) == issued[|issued| - 1]
      ensures Abs() == Fetch(old(Abs()), old(Counts(peers)), uid)
    {
      hide Refill, WellFormed, Counts;
      m := GetNextInstr(peers);
      Issue(uid, m);
    }

    /** Commits an operation, and any NOPs in front of it; not ok is the fatal "out of order" case. */
    method CommitSkippingNops(uid: nat) returns (ok: bool)
      requires Valid()
      modifies this`issued, this`currentInst
      ensures Valid() && (ok <==> CommitFrom(old(issued), uid) != None)
      ensures ok ==> Abs() == MemFeederSpec.Commit(old(Abs()), uid)
    {
      while issued != []
        invariant CommitFrom(issued, uid) == CommitFrom(old(issued), uid) && currentInst == old(currentInst)
        decreases |issued|
      {
        if issued[0].uid == uid {
          currentInst := currentInst + 1;
          issued := issued[1..];
          return true;
        } else if !issued[0].body.Mem? {
          issued := issued[1..];
        } else {
          return false;
        }
      }
      return true;
    }

    /** Moves everything younger than `uid` back for replay; not ok is the case in which the loop asks
        an emptied list for its last element. */
    method CopyToReplayQueue(uid: nat) returns (ok: bool)
      requires Valid()
      modifies this`issued, this`replay
      ensures Valid() && (ok <==> KillSafe(old(issued), uid))
      ensures ok ==> Abs() == CopyToReplay(old(Abs()), uid)
    {
      hide KillSafe, Kept;
      ghost var n, was, rest := Kept(issued, uid), issued, replay;
      KeptIsSafe(issued, uid);
      if issued == [] { return true; }
      var p := issued[|issued| - 1];
      while p.uid > uid
        invariant 0 < |issued| <= |was| && issued == was[..|issued|] && p == issued[|issued| - 1]
        invariant Kept(issued, uid) == n && replay == was[|issued|..] + rest
        decreases |issued|
      {
        MoveLast(was, |issued|, rest);
        KeptOfLast(issued, uid);
        replay := [p] + replay;
        issued := issued[..|issued| - 1];
        if issued == [] { return false; }
        p := issued[|issued| - 1];
      }
      KeptOfLast(issued, uid);
      return true;
    }

    /** Moves the operation of instruction `uid`, if it is issued, back for replay. */
    method KillAndReplayThisInst(uid: nat)
      requires Valid()
      modifies this`issued, this`replay
      ensures Valid() && Abs() == ReplayThis(old(Abs()), uid)
    {
      hide Find;
      if issued == [] { return; }
      var p := issued[|issued| - 1];
      if p.uid == uid {
        replay := [p] + replay;
        issued := issued[..|issued| - 1];
        return;
      }
      var i := 0;
      while i < |issued|
        invariant i <= |issued| && forall j | 0 <= j < i :: issued[j].uid != uid
        invariant issued == old(issued) && replay == old(replay)
      {
        if issued[i].uid == uid {
          assert Find(issued, uid) == i;
          replay := [issued[i]] + replay;
          issued := issued[..i] + issued[i + 1..];
          return;
        }
        i := i + 1;
      }
      assert Find(issued, uid) == |issued|;
    }
  }

  ghost function Counts(peers: seq<MemThread>): (r: seq<nat>)
    reads peers`currentInst
    ensures |r| == |peers| && forall i | 0 <= i < |peers| :: r[i] == peers[i].currentInst
  {
    if peers == [] then [] else [peers[0].currentInst] + Counts(peers[1..])
  }

  /** All threads, and the operations the feeder offers to the model. */
  class FeederThreadMgmt {
    const currentState: seq<MemThread>

    ghost predicate Valid()
      reads currentState, set t | t in currentState :: t.op
    {
      && (forall i | 0 <= i < |currentState| :: currentState[i].Valid())
      && (forall i | 0 <= i < |currentState| :: WellFormed(currentState[i].Abs(), |currentState|))
      && (forall i, j | 0 <= i < j < |currentState| ::
            currentState[i] != currentState[j] && currentState[i].op != currentState[j].op)
    }

    /** One thread for each trace; waits must be for threads there are. */
    constructor (traces: seq<seq<Line>>)
      requires forall t, j | 0 <= t < |traces| && 0 <= j < |traces[t]| && traces[t][j].Wait? ::
        traces[t][j].thread < |traces|
      ensures Valid() && |currentState| == |traces|
      ensures forall i | 0 <= i < |traces| ::
        fresh(currentState[i]) && fresh(currentState[i].op) && currentState[i].Abs() == Fresh(traces[i])
    {
      var threads: seq<MemThread> := [];
      for i := 0 to |traces|
        invariant |threads| == i
        invariant forall j | 0 <= j < i :: fresh(threads[j]) && fresh(threads[j].op) && threads[j].Valid()
        invariant forall j | 0 <= j < i :: threads[j].Abs() == Fresh(traces[j])
        invariant forall j, k | 0 <= j < k < i :: threads[j] != threads[k] && threads[j].op != threads[k].op
      {
        var th := new MemThread(traces[i]);
        threads := threads + [th];
      }
      currentState := threads;
    }

    /** Makes the next operation of a thread the content of model instruction `uid`. */
    method GenerateAsimInst(t: nat, uid: nat) returns (m: Body)
      requires Valid() && t < |currentState|
      modifies currentState[t], currentState[t].op
      ensures Valid()
      ensures var issued := currentState[t].issued; issued != [] && MemOp(uid, m) == issued[|issued| - 1]
      ensures currentState[t].Abs() == Fetch(old(currentState[t].Abs()), old(Counts(currentState)), uid)
      ensures forall i | 0 <= i < |currentState| && i != t :: currentState[i].Abs() == old(currentState[i].Abs())
    {
      hide WellFormed, Fetch, Counts;
      ghost var counts := Counts(currentState);
      FetchWellFormed(currentState[t].Abs(), counts, uid);
      m := currentState[t].NextIssued(uid, currentState);
    }

    method Commit(t: nat, uid: nat) returns (ok: bool)
      requires Valid() && t < |currentState|
      modifies currentState[t]
      ensures ok <==> CommitFrom(old(currentState[t].issued), uid) != None
      ensures ok ==> Valid() && currentState[t].Abs() == MemFeederSpec.Commit(old(currentState[t].Abs()), uid)
      ensures forall i | 0 <= i < |currentState| && i != t ::
        currentState[i].Valid() && currentState[i].Abs() == old(currentState[i].Abs())
    {
      ok := currentState[t].CommitSkippingNops(uid);
    }

    /** Kills what is younger than an instruction, and the instruction itself when `killMe`. */
    method Kill(t: nat, uid: nat, fetchNext: bool, killMe: bool) returns (ok: bool)
      requires Valid() && t < |currentState| && (killMe ==> !fetchNext)
      modifies currentState[t]
      ensures ok <==> KillSafe(old(currentState[t].issued), uid)
      ensures ok ==> Valid() && currentState[t].Abs() == MemFeederSpec.Kill(old(currentState[t].Abs()), uid, killMe)
      ensures forall i | 0 <= i < |currentState| && i != t ::
        currentState[i].Valid() && currentState[i].Abs() == old(currentState[i].Abs())
    {
      hide CopyToReplay, ReplayThis, KillSafe, WellFormed;
      KillWellFormed(currentState[t].Abs(), |currentState|, uid, killMe);
      ok := currentState[t].CopyToReplayQueue(uid);
      if ok && killMe {
        currentState[t].KillAndReplayThisInst(uid);
      }
    }
  }
}
