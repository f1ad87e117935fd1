/**
 What fetch, kill and commit mean for one simulated CPU of the SoftSDV feeder
 (feeders/inst/softsdv/softsdv_feeder.cpp), on values. SoftsdvFeeder shows that
 the class driving the linked replay buffer computes these functions.
 */
module FeederSpec {
  import opened Wrappers
  import opened ReplaySpec
  import opened Sequences

  datatype Isa = Ipf | X86

  /** `irq` is the macro uid of the pending interrupt request; `complete` is the end-of-simulation flag. */
  datatype Cpu = Cpu(buf: Replay, badPath: bool, irq: Option<nat>, complete: bool)

  /** What the performance model is given. */
  datatype Fetched = EndNop | Jmp(target: nat) | BadPathNop | Good(instr: SdvInstr)

  /** The trace id a model instruction carries; a live one stands at position `k` of the buffer. */
  datatype TraceId = WrongPath | Artificial | Live(k: nat)

  function MarkImplicit(entries: seq<Entry>, k: nat): seq<Entry>
    requires k < |entries|
  {
    entries[k := entries[k].(implicitCommit := true)]
  }

  predicate Redirects(instr: SdvInstr) {
    instr.newSequence || instr.interrupt
  }

  /** Building the model instruction for entry `r`. On IPF a NOP may commit implicitly; on x86 an
      instruction in front of a new sequence may, and it raises an interrupt request. */
  function Decode(isa: Isa, c: Cpu, r: nat, mUid: nat, nop: bool): Cpu
    requires r < |c.buf.entries|
  {
    var marked := c.(buf := c.buf.(entries := MarkImplicit(c.buf.entries, r)));
    match isa
    case Ipf => if nop then marked else c
    case X86 =>
      if r + 1 < |c.buf.entries| && Redirects(c.buf.entries[r + 1].instr) then
        marked.(irq := if c.irq == None then Some(mUid) else c.irq)
      else c
  }

  function FetchMacro(isa: Isa, c: Cpu, pc: nat, mUid: nat, nop: bool): (Cpu, Fetched)
    requires WellFormed(c.buf)
  {
    var r := NextReal(c.buf.entries, c.buf.cursor);
    if r == |c.buf.entries| then (c.(complete := true), EndNop)
    else
      var instr := c.buf.entries[r].instr;
      var past := c.(buf := c.buf.(cursor := r + 1));
      var back := c.(buf := c.buf.(cursor := r));
      if c.complete then (past, EndNop)
      else if pc != instr.addrVirtual && !c.badPath && c.irq == None && Redirects(instr) then
        (match isa
         case Ipf => c.(buf := AddPlaceHolder(past.buf, r).(cursor := r + 1))
         case X86 => back.(irq := Some(mUid)),
         Jmp(instr.addrVirtual))
      else if pc != instr.addrVirtual || c.badPath || c.irq != None then
        (back.(badPath := true), BadPathNop)
      else (Decode(isa, past, r, mUid, nop), Good(instr))
  }

  /** Exactly one of "fetch this one again" and "fetch the next one" is asked for; a kill of
      anything but the first instruction of a macro always means the latter. */
  function Kill(c: Cpu, id: TraceId, fetchNext: bool, startOfMacro: bool, mUid: nat): Cpu
    requires id.Live? ==> id.k < |c.buf.entries|
  {
    var killMe := !fetchNext && startOfMacro;
    if id.WrongPath? then c
    else
      var buf := if id.Live? then c.buf.(cursor := if killMe then id.k else id.k + 1) else c.buf;
      var dead := c.irq != None && ((killMe && c.irq.value == mUid) || c.irq.value > mUid);
      Cpu(buf, false, if dead then None else c.irq, c.complete)
  }

  function HandleEvent(c: Cpu, mUid: nat): Cpu {
    if c.irq == Some(mUid) then c.(irq := None) else c
  }

  /** Real instructions fetched and not yet committed. */
  function InFlight(c: Cpu): seq<SdvInstr>
    requires WellFormed(c.buf)
  {
    Reals(c.buf.entries[..c.buf.cursor])
  }

  /** Real instructions still to be fetched. */
  function Waiting(c: Cpu): seq<SdvInstr>
    requires WellFormed(c.buf)
  {
    Reals(c.buf.entries[c.buf.cursor..])
  }

  lemma {:induction false} RealsConcat(a: seq<Entry>, b: seq<Entry>)
    ensures Reals(a + b) == Reals(a) + Reals(b)
  {
    if a == [] {
      assert a + b == b;
    } else {
      RealsConcat(a[1..], b);
      TailOfConcat(a, b);
      if !a[0].artificial { Assoc([a[0].instr], Reals(a[1..]), Reals(b)); }
    }
  }

  lemma {:induction false} RealsSkip(entries: seq<Entry>, i: nat, j: nat)
    requires i <= j <= |entries|
    ensures Reals(entries[..j]) == Reals(entries[..i]) + Reals(entries[i..j])
    ensures Reals(entries[i..]) == Reals(entries[i..j]) + Reals(entries[j..])
    ensures Reals(entries) == Reals(entries[..i]) + Reals(entries[i..])
  {
    RealsConcat(entries[..i], entries[i..j]);
    RealsConcat(entries[i..j], entries[j..]);
    RealsConcat(entries[..i], entries[i..]);
    assert entries[..i] + entries[i..j] == entries[..j] && entries[i..j] + entries[j..] == entries[i..];
    assert entries[..i] + entries[i..] == entries;
  }

  lemma {:induction false} NoReals(entries: seq<Entry>)
    requires forall e | e in entries :: e.artificial
    ensures Reals(entries) == []
  {
    if entries != [] {
      assert entries[0] in entries;
      NoReals(entries[1..]);
    }
  }

  /** The entries a fetch steps over hold no real instruction, and it stops at the first that waits. */
  lemma FirstWaiting(entries: seq<Entry>, i: nat)
    requires i <= |entries|
    ensures var r := NextReal(entries, i);
            && Reals(entries[..r]) == Reals(entries[..i]) && Reals(entries[r..]) == Reals(entries[i..])
            && (r == |entries| <==> Reals(entries[i..]) == [])
            && (r < |entries| ==>
                  && Reals(entries[i..]) == [entries[r].instr] + Reals(entries[r + 1..])
                  && Reals(entries[..r + 1]) == Reals(entries[..i]) + [entries[r].instr])
  {
    var r := NextReal(entries, i);
    NoReals(entries[i..r]);
    RealsSkip(entries, i, r);
    if r < |entries| {
      assert entries[r..r + 1] == [entries[r]] && Reals([entries[r]]) == [entries[r].instr];
      RealsSkip(entries, r, r + 1);
    }
  }

  lemma {:induction false} RealsIgnoreMarks(entries: seq<Entry>, k: nat)
    requires k < |entries|
    ensures Reals(MarkImplicit(entries, k)) == Reals(entries)
    ensures forall i | 0 <= i <= |entries| :: Reals(MarkImplicit(entries, k)[..i]) == Reals(entries[..i])
                                           && Reals(MarkImplicit(entries, k)[i..]) == Reals(entries[i..])
  {
    SameReals(MarkImplicit(entries, k), entries);
    forall i | 0 <= i <= |entries|
      ensures Reals(MarkImplicit(entries, k)[..i]) == Reals(entries[..i])
           && Reals(MarkImplicit(entries, k)[i..]) == Reals(entries[i..])
    {
      SameReals(MarkImplicit(entries, k)[..i], entries[..i]);
      SameReals(MarkImplicit(entries, k)[i..], entries[i..]);
    }
  }

  lemma {:induction false} SameReals(a: seq<Entry>, b: seq<Entry>)
    requires |a| == |b|
    requires forall i | 0 <= i < |a| :: a[i].instr == b[i].instr && a[i].artificial == b[i].artificial
    ensures Reals(a) == Reals(b)
  {
    if a != [] {
      SameReals(a[1..], b[1..]);
    }
  }

  /** A placeholder in front of entry `r` adds nothing to either side of a cursor behind it. */
  lemma PlaceHolderIsNoReal(b: Replay, r: nat)
    requires WellFormed(b) && r < |b.entries|
    ensures var e := AddPlaceHolder(b, r).entries;
            Reals(e[..r + 1]) == Reals(b.entries[..r]) && Reals(e[r + 1..]) == Reals(b.entries[r..])
  {
    var e := AddPlaceHolder(b, r).entries;
    RealsConcat(b.entries[..r], [e[r]]);
    assert e[..r + 1] == b.entries[..r] + [e[r]] && e[r + 1..] == b.entries[r..];
    assert Reals([e[r]]) == [];
  }

  /** The two places a fetch may leave the cursor, and what that means for the instructions. */
  lemma FetchPlaces(c: Cpu)
    requires WellFormed(c.buf)
    ensures var r := NextReal(c.buf.entries, c.buf.cursor);
            && (r == |c.buf.entries| <==> Waiting(c) == [])
            && (r < |c.buf.entries| ==>
                  var back, past := c.(buf := c.buf.(cursor := r)), c.(buf := c.buf.(cursor := r + 1));
                  && Waiting(c)[0] == c.buf.entries[r].instr
                  && InFlight(back) == InFlight(c) && Waiting(back) == Waiting(c)
                  && InFlight(past) == InFlight(c) + [Waiting(c)[0]] && Waiting(past) == Waiting(c)[1..])
  {
    FirstWaiting(c.buf.entries, c.buf.cursor);
  }

  lemma DecodeKeeps(isa: Isa, c: Cpu, r: nat, mUid: nat, nop: bool)
    requires WellFormed(c.buf) && r < |c.buf.entries|
    ensures var d := Decode(isa, c, r, mUid, nop);
            && WellFormed(d.buf) && d.badPath == c.badPath && d.complete == c.complete
            && InFlight(d) == InFlight(c) && Waiting(d) == Waiting(c)
  {
    RealsIgnoreMarks(c.buf.entries, r);
  }

  lemma JumpKeeps(c: Cpu, r: nat)
    requires WellFormed(c.buf) && r < |c.buf.entries|
    ensures var d := c.(buf := AddPlaceHolder(c.buf.(cursor := r + 1), r).(cursor := r + 1));
            var back := c.(buf := c.buf.(cursor := r));
            WellFormed(d.buf) && InFlight(d) == InFlight(back) && Waiting(d) == Waiting(back)
  {
    PlaceHolderIsNoReal(c.buf.(cursor := r + 1), r);
  }

  /** A fetch hands out the first waiting instruction or consumes nothing; and it hands one out
      only at its address, on the good path and with no interrupt request pending. Once the end
      of the simulation has been declared, a fetch still consumes an instruction but delivers none. */
  lemma FetchDelivers(isa: Isa, c: Cpu, pc: nat, mUid: nat, nop: bool)
    requires WellFormed(c.buf)
    ensures var (d, out) := FetchMacro(isa, c, pc, mUid, nop);
      && WellFormed(d.buf)
      && (out == EndNop <==> c.complete || Waiting(c) == [])
      && (out.Good? ==>
            && !c.badPath && c.irq == None && !c.complete && Waiting(c) != [] && out.instr == Waiting(c)[0]
            && out.instr.addrVirtual == pc && !d.badPath)
      && (out.Jmp? ==> Waiting(c) != [] && out.target == Waiting(c)[0].addrVirtual && Redirects(Waiting(c)[0]))
      && (if (out.Good? || out.EndNop?) && Waiting(c) != [] then
            InFlight(d) == InFlight(c) + [Waiting(c)[0]] && Waiting(d) == Waiting(c)[1..]
          else InFlight(d) == InFlight(c) && Waiting(d) == Waiting(c))
  {
    hide Reals, Decode, AddPlaceHolder;
    var r := NextReal(c.buf.entries, c.buf.cursor);
    FetchPlaces(c);
    if r < |c.buf.entries| {
      JumpKeeps(c, r);
      DecodeKeeps(isa, c.(buf := c.buf.(cursor := r + 1)), r, mUid, nop);
    }
  }

  /** What stands behind the instruction fetched last starts a new sequence. */
  predicate BeforeJump(b: Replay) {
    b.cursor < |b.entries| && (b.entries[b.cursor].instr.newSequence || b.entries[b.cursor].instr.interrupt)
  }

  /** Which of the four answers a fetch gives, in terms of the next waiting instruction, and what it
      leaves of the CPU: an answer from the bad path puts it there, the end is declared by the answer
      that there is nothing more, and only on x86 is an interrupt requested, by a jump or by an
      instruction that stands in front of a new sequence. */
  lemma FetchAnswers(isa: Isa, c: Cpu, pc: nat, mUid: nat, nop: bool)
    requires WellFormed(c.buf)
    ensures var (d, out) := FetchMacro(isa, c, pc, mUid, nop);
      var w := Waiting(c);
      var open := !c.complete && w != [];
      var jumps := w != [] && (w[0].newSequence || w[0].interrupt);
      var free := !c.badPath && c.irq == None;
      && (out == EndNop <==> !open)
      && (out.Good? <==> open && free && pc == w[0].addrVirtual)
      && (out.Jmp? <==> open && free && pc != w[0].addrVirtual && jumps)
      && (out.BadPathNop? <==> open && (!free || (pc != w[0].addrVirtual && !jumps)))
      && (out.Good? ==> out.instr == w[0]) && (out.Jmp? ==> out.target == w[0].addrVirtual)
      && (d.badPath <==> c.badPath || out.BadPathNop?)
      && (d.complete <==> c.complete || out == EndNop)
      && d.irq == (if isa == X86 && (out.Jmp? || (out.Good? && BeforeJump(d.buf))) then Some(mUid) else c.irq)
  {
    hide Reals, AddPlaceHolder;
    FetchPlaces(c);
  }

  /** A fetch lets at most the instruction it delivers commit implicitly: a NOP on IPF, and on x86 one
      in front of a new sequence. Apart from that, and the placeholder of a jump on IPF, entries stay. */
  lemma FetchMarks(isa: Isa, c: Cpu, pc: nat, mUid: nat, nop: bool)
    requires WellFormed(c.buf)
    ensures var (d, out) := FetchMacro(isa, c, pc, mUid, nop);
      var e, f, r := c.buf.entries, d.buf.entries, d.buf.cursor - 1;
      && (out.Good? ==>
            && 0 <= r < |f| == |e| && f[r].instr == out.instr && !f[r].artificial
            && (forall i | 0 <= i < |e| && i != r :: f[i] == e[i])
            && f[r] == e[r].(implicitCommit := f[r].implicitCommit)
            && (f[r].implicitCommit <==>
                  e[r].implicitCommit || (if isa == Ipf then nop else BeforeJump(d.buf))))
      && (out.Jmp? && isa == Ipf ==>
            && 0 <= r < |e| && f == e[..r] + [Entry(e[r].instr, c.buf.uid + 1, true, true)] + e[r..]
            && d.buf.uid == c.buf.uid + 1)
      && (!out.Good? && !(out.Jmp? && isa == Ipf) ==> f == e && d.buf.uid == c.buf.uid)
  {
  }

  /** On x86 a jump leaves its target waiting behind an interrupt request: whatever is fetched until
      the request has been handled is a bad-path NOP, and then a fetch at the target delivers it. */
  lemma RequestThenArrives(c: Cpu, pc: nat, mUid: nat, nop: bool, other: nat, uid: nat)
    requires WellFormed(c.buf) && FetchMacro(X86, c, pc, mUid, nop).1.Jmp?
    ensures var (d, out) := FetchMacro(X86, c, pc, mUid, nop);
            && FetchMacro(X86, d, other, uid, nop).1 == BadPathNop
            && Waiting(c) != [] && FetchMacro(X86, HandleEvent(d, mUid), out.target, uid, nop).1 == Good(Waiting(c)[0])
  {
    hide Reals;
    var d := FetchMacro(X86, c, pc, mUid, nop).0;
    FetchAnswers(X86, c, pc, mUid, nop);
    FetchDelivers(X86, c, pc, mUid, nop);
    FetchAnswers(X86, d, other, uid, nop);
    var g := HandleEvent(d, mUid);
    assert Waiting(g) == Waiting(d);
    FetchAnswers(X86, g, Waiting(c)[0].addrVirtual, uid, nop);
  }

  /** Once the model fetches at the address it was sent to, it gets the instruction there. */
  lemma JumpArrives(c: Cpu, pc: nat, mUid: nat, nop: bool)
    requires WellFormed(c.buf) && FetchMacro(Ipf, c, pc, mUid, nop).1.Jmp?
    ensures var (d, out) := FetchMacro(Ipf, c, pc, mUid, nop);
            Waiting(c) != [] && FetchMacro(Ipf, d, out.target, mUid, nop).1 == Good(Waiting(c)[0])
  {
    FetchDelivers(Ipf, c, pc, mUid, nop);
    var (d, out) := FetchMacro(Ipf, c, pc, mUid, nop);
    FetchDelivers(Ipf, d, out.target, mUid, nop);
    FirstWaiting(c.buf.entries, c.buf.cursor);
    var r := NextReal(c.buf.entries, c.buf.cursor);
    assert d.buf.entries[r + 1] == c.buf.entries[r];
    assert NextReal(d.buf.entries, d.buf.cursor) == r + 1;
  }

  /** A kill loses nothing and leaves the good path open: what was in flight up to the killed
      instruction stays in flight, or up to and including it when the next one is to be fetched. */
  lemma KillRewinds(c: Cpu, id: TraceId, fetchNext: bool, startOfMacro: bool, mUid: nat)
    requires WellFormed(c.buf) && (id.Live? ==> id.k < |c.buf.entries|)
    ensures var d := Kill(c, id, fetchNext, startOfMacro, mUid);
      && WellFormed(d.buf) && InFlight(d) + Waiting(d) == InFlight(c) + Waiting(c)
      && (id.Live? && !fetchNext && startOfMacro ==>
            && InFlight(d) == Reals(c.buf.entries[..id.k])
            && (c.buf.entries[id.k].artificial
                || (Waiting(d) != [] && Waiting(d)[0] == c.buf.entries[id.k].instr)))
      && (id.Live? && (fetchNext || !startOfMacro) ==> Waiting(d) == Reals(c.buf.entries[id.k + 1..]))
      && (!id.WrongPath? ==> !d.badPath)
      && (id.WrongPath? ==> d == c)
      && (!id.Live? ==> d.buf == c.buf)
  {
    var d, e := Kill(c, id, fetchNext, startOfMacro, mUid), c.buf.entries;
    RealsSkip(e, c.buf.cursor, |e|);
    RealsSkip(e, d.buf.cursor, |e|);
  }

  /** A kill keeps a pending request exactly when it is of an older instruction, or of the killed one
      itself when that is not to be fetched again; it touches neither the entries nor the end. */
  lemma KillRequests(c: Cpu, id: TraceId, fetchNext: bool, startOfMacro: bool, mUid: nat)
    requires id.Live? ==> id.k < |c.buf.entries|
    ensures var d := Kill(c, id, fetchNext, startOfMacro, mUid);
      && d.buf.entries == c.buf.entries && d.buf.uid == c.buf.uid && d.complete == c.complete
      && d.buf.cursor == (if !id.Live? then c.buf.cursor else if !fetchNext && startOfMacro then id.k else id.k + 1)
      && (!id.WrongPath? ==>
            && (d.irq != None <==>
                  (exists uid :: c.irq == Some(uid) &&
                     (uid < mUid || (uid == mUid && (fetchNext || !startOfMacro)))))
            && (d.irq != None ==> d.irq == c.irq))
  {
    var d := Kill(c, id, fetchNext, startOfMacro, mUid);
    if d.irq != None { assert c.irq == Some(c.irq.value); }
  }

  /** A kill drops deliveries from the young end exactly when nothing unfetched stands in front
      of the place it rewinds to; then what stays in flight is a prefix of what was. */
  lemma KillTruncates(c: Cpu, id: TraceId, fetchNext: bool, startOfMacro: bool, mUid: nat)
    requires WellFormed(c.buf) && id.Live? && id.k < |c.buf.entries|
    ensures var d := Kill(c, id, fetchNext, startOfMacro, mUid);
      InFlight(d) <= InFlight(c) <==>
      d.buf.cursor <= c.buf.cursor || Reals(c.buf.entries[c.buf.cursor..d.buf.cursor]) == []
  {
    var d := Kill(c, id, fetchNext, startOfMacro, mUid);
    if d.buf.cursor <= c.buf.cursor {
      RealsSkip(c.buf.entries, d.buf.cursor, c.buf.cursor);
    } else {
      RealsSkip(c.buf.entries, c.buf.cursor, d.buf.cursor);
    }
  }

  /** A commit retires the oldest instructions, those in front of the committed one included. */
  lemma CommitRetires(c: Cpu, k: nat)
    requires k < c.buf.cursor <= |c.buf.entries|
    ensures var d := c.(buf := Commit(c.buf, k));
      && WellFormed(d.buf) && Waiting(d) == Waiting(c)
      && InFlight(c) == Reals(c.buf.entries[..k + 1]) + InFlight(d)
  {
    var e, d := c.buf.entries, Commit(c.buf, k);
    assert d.entries[..d.cursor] == e[k + 1..c.buf.cursor] && d.entries[d.cursor..] == e[c.buf.cursor..];
    RealsSkip(e, k + 1, c.buf.cursor);
  }

  datatype Step =
    | Arrive(instr: SdvInstr)
    | Fetch(pc: nat, mUid: nat, nop: bool)
    | Squash(id: TraceId, fetchNext: bool, startOfMacro: bool, mUid: nat)
    | Retire(k: nat)
    | Handle(mUid: nat)
    | OtherEnds     // another CPU declares the end of the simulation; all share one flag

  /** A CPU with its history: what SoftSDV sent, what was committed, and what was delivered on the
      good path and has been neither killed nor committed since. */
  datatype History = History(cpu: Cpu, arrived: seq<SdvInstr>, committed: seq<SdvInstr>, live: seq<SdvInstr>)

  /** Only fetched instructions are killed and committed, the latter in order. */
  predicate Allowed(c: Cpu, s: Step) {
    match s
    case Squash(id, _, _, _) => id.Live? ==> id.k < c.buf.cursor
    case Retire(k) => k < c.buf.cursor && InOrder(c.buf, k)
    case _ => true
  }

  function NextCpu(isa: Isa, c: Cpu, s: Step): (d: Cpu)
    requires WellFormed(c.buf) && Allowed(c, s)
    ensures WellFormed(d.buf)
  {
    match s
    case Arrive(instr) => c.(buf := Add(c.buf, instr))
    case Fetch(pc, mUid, nop) =>
      FetchDelivers(isa, c, pc, mUid, nop);
      FetchMacro(isa, c, pc, mUid, nop).0
    case Squash(id, fetchNext, startOfMacro, mUid) => Kill(c, id, fetchNext, startOfMacro, mUid)
    case Retire(k) => c.(buf := Commit(c.buf, k))
    case Handle(mUid) => HandleEvent(c, mUid)
    case OtherEnds => c.(complete := true)
  }

  /** How many of the live instructions a kill leaves: those in front of where it rewinds to. */
  function Spared(c: Cpu, d: Cpu): nat
    requires WellFormed(d.buf) && d.buf.cursor <= |c.buf.entries|
  {
    |Reals(c.buf.entries[..d.buf.cursor])|
  }

  function Next(isa: Isa, h: History, s: Step): (r: History)
    requires WellFormed(h.cpu.buf) && Allowed(h.cpu, s)
    ensures WellFormed(r.cpu.buf)
  {
    var d := NextCpu(isa, h.cpu, s);
    match s
    case Arrive(instr) => h.(cpu := d, arrived := h.arrived + [instr])
    case Fetch(pc, mUid, nop) =>
      var out := FetchMacro(isa, h.cpu, pc, mUid, nop).1;
      h.(cpu := d, live := if out.Good? then h.live + [out.instr] else h.live)
    case Squash(id, _, _, _) =>
      var n := Spared(h.cpu, d);
      h.(cpu := d, live := if id.Live? && n <= |h.live| then h.live[..n] else h.live)
    case Retire(k) =>
      var gone := Reals(h.cpu.buf.entries[..k + 1]);
      h.(cpu := d, committed := h.committed + gone,
         live := if |gone| <= |h.live| then h.live[|gone|..] else [])
    case Handle(_) => h.(cpu := d)
    case OtherEnds => h.(cpu := d)
  }

  const START := History(Cpu(Replay([], 0, 0), false, None, false), [], [], [])

  function Run(isa: Isa, h: History, steps: seq<Step>): (r: Option<History>)
    requires WellFormed(h.cpu.buf)
    ensures r != None ==> WellFormed(r.value.cpu.buf)
    decreases |steps|
  {
    if steps == [] then Some(h)
    else if Allowed(h.cpu, steps[0]) then Run(isa, Next(isa, h, steps[0]), steps[1..])
    else None
  }

  /** Nothing that arrived is lost, repeated or reordered, and what is in flight is what was delivered. */
  predicate Faithful(h: History) {
    && WellFormed(h.cpu.buf)
    && h.arrived == h.committed + InFlight(h.cpu) + Waiting(h.cpu)
    && (!h.cpu.complete ==> h.live == InFlight(h.cpu))
  }

  lemma ArriveFaithful(isa: Isa, h: History, instr: SdvInstr)
    requires Faithful(h)
    ensures Faithful(Next(isa, h, Arrive(instr)))
  {
    var b := h.cpu.buf;
    var e := Add(b, instr).entries;
    var last := e[|b.entries|];
    assert e[..b.cursor] == b.entries[..b.cursor] && e[b.cursor..] == b.entries[b.cursor..] + [last];
    RealsConcat(b.entries[b.cursor..], [last]);
    assert Reals([last]) == [instr];
  }

  lemma SquashFaithful(isa: Isa, h: History, s: Step)
    requires Faithful(h) && Allowed(h.cpu, s) && s.Squash?
    ensures Faithful(Next(isa, h, s))
  {
    hide Reals;
    KillRewinds(h.cpu, s.id, s.fetchNext, s.startOfMacro, s.mUid);
    if s.id.Live? {
      KillTruncates(h.cpu, s.id, s.fetchNext, s.startOfMacro, s.mUid);
      var d := NextCpu(isa, h.cpu, s);
      assert Spared(h.cpu, d) == |InFlight(d)|;
      assert InFlight(h.cpu)[..|InFlight(d)|] == InFlight(d);
    }
    var g := Next(isa, h, s);
    assert h.committed + InFlight(g.cpu) + Waiting(g.cpu) == h.committed + (InFlight(g.cpu) + Waiting(g.cpu));
    assert h.committed + InFlight(h.cpu) + Waiting(h.cpu) == h.committed + (InFlight(h.cpu) + Waiting(h.cpu));
  }

  lemma FetchFaithful(isa: Isa, h: History, s: Step)
    requires Faithful(h) && s.Fetch?
    ensures Faithful(Next(isa, h, s))
  {
    FetchDelivers(isa, h.cpu, s.pc, s.mUid, s.nop);
    var (a, w) := (InFlight(h.cpu), Waiting(h.cpu));
    assert h.committed + a + w == h.committed + (a + w);
    if w != [] {
      assert a + [w[0]] + w[1..] == a + w;
      assert h.committed + (a + [w[0]]) + w[1..] == h.committed + (a + [w[0]] + w[1..]);
    }
  }

  lemma RetireFaithful(isa: Isa, h: History, k: nat)
    requires Faithful(h) && Allowed(h.cpu, Retire(k))
    ensures Faithful(Next(isa, h, Retire(k)))
  {
    CommitRetires(h.cpu, k);
    var d := NextCpu(isa, h.cpu, Retire(k));
    var gone := Reals(h.cpu.buf.entries[..k + 1]);
    assert InFlight(h.cpu)[|gone|..] == InFlight(d);
    assert h.committed + (gone + InFlight(d)) == h.committed + gone + InFlight(d);
  }

  lemma StepFaithful(isa: Isa, h: History, s: Step)
    requires Faithful(h) && Allowed(h.cpu, s)
    ensures Faithful(Next(isa, h, s))
  {
    match s
    case Arrive(instr) => ArriveFaithful(isa, h, instr);
    case Fetch(_, _, _) => FetchFaithful(isa, h, s);
    case Squash(_, _, _, _) => SquashFaithful(isa, h, s);
    case Retire(k) => RetireFaithful(isa, h, k);
    case Handle(_) =>
    case OtherEnds =>
  }

  lemma {:induction false} RunFaithful(isa: Isa, h: History, steps: seq<Step>)
    requires Faithful(h) && Run(isa, h, steps) != None
    ensures Faithful(Run(isa, h, steps).value)
    decreases |steps|
  {
    if steps != [] {
      StepFaithful(isa, h, steps[0]);
      RunFaithful(isa, Next(isa, h, steps[0]), steps[1..]);
    }
  }

  /** In every run committed instructions are a prefix of what arrived, followed by those delivered
      and still live, followed by those waiting. */
  lemma CommittedIsPrefix(isa: Isa, steps: seq<Step>)
    requires Run(isa, START, steps) != None
    ensures var h := Run(isa, START, steps).value;
      && h.committed <= h.arrived
      && (!h.cpu.complete ==> h.arrived == h.committed + h.live + Waiting(h.cpu))
  {
    RunFaithful(isa, START, steps);
    var h := Run(isa, START, steps).value;
    assert h.arrived == h.committed + (InFlight(h.cpu) + Waiting(h.cpu));
  }

  /** A kill of an instruction that was not fetched on the wrong path. */
  predicate Clears(s: Step) {
    s.Squash? && !s.id.WrongPath?
  }

  function Least(a: nat, b: nat): nat {
    if a < b then a else b
  }

  lemma Take<T>(a: seq<T>, w: seq<T>, n: nat)
    requires 0 < n <= |w|
    ensures a + [w[0]] + w[1..][..n - 1] == a + w[..n] && w[1..][n - 1..] == w[n..]
  {
  }

  /** Once the end has been declared, by this CPU or another, each fetch consumes one waiting
      instruction and delivers none: it is then neither live nor waiting. */
  lemma {:induction false} EndSwallows(isa: Isa, h: History, fetches: seq<Step>)
    requires WellFormed(h.cpu.buf) && h.cpu.complete && forall s | s in fetches :: s.Fetch?
    ensures Run(isa, h, fetches) != None
    ensures var g, n := Run(isa, h, fetches).value, Least(|fetches|, |Waiting(h.cpu)|);
            && g.cpu.complete && g.live == h.live && g.committed == h.committed && g.arrived == h.arrived
            && InFlight(g.cpu) == InFlight(h.cpu) + Waiting(h.cpu)[..n] && Waiting(g.cpu) == Waiting(h.cpu)[n..]
    decreases |fetches|
  {
    if fetches == [] {
      assert InFlight(h.cpu) + [] == InFlight(h.cpu);
    } else {
      hide FetchMacro, InFlight, Waiting, Reals;
      var s, w := fetches[0], Waiting(h.cpu);
      assert s in fetches;
      FetchDelivers(isa, h.cpu, s.pc, s.mUid, s.nop);
      EndSwallows(isa, Next(isa, h, s), fetches[1..]);
      if w != [] {
        Take(InFlight(h.cpu), w, Least(|fetches|, |w|));
      }
    }
  }

  /** So an instruction that waits to be fetched is lost when another CPU comes to its end first: the
      same fetch delivers it if none has. */
  lemma OtherEndLoses(isa: Isa, instr: SdvInstr, mUid: nat, nop: bool)
    ensures var fetch := Fetch(instr.addrVirtual, mUid, nop);
            var without := Run(isa, START, [Arrive(instr), fetch]);
            var with := Run(isa, START, [Arrive(instr), OtherEnds, fetch]);
            && without != None && without.value.live == [instr]
            && with != None && with.value.live == [] && with.value.committed == []
            && with.value.arrived == [instr] && InFlight(with.value.cpu) == [instr] && Waiting(with.value.cpu) == []
  {
    var fetch, h1 := Fetch(instr.addrVirtual, mUid, nop), Next(isa, START, Arrive(instr));
    var e := [Entry(instr, 1, false, false)];
    assert h1 == START.(cpu := START.cpu.(buf := Replay(e, 0, 1)), arrived := [instr]);
    assert e[..0] == [] && e[0..] == e && e[1..] == [] && Reals(e) == [instr];
    FetchDelivers(isa, h1.cpu, instr.addrVirtual, mUid, nop);
    assert [Arrive(instr), fetch][1..] == [fetch] && [fetch][1..] == [];
    assert Run(isa, Next(isa, h1, fetch), []) == Some(Next(isa, h1, fetch));
    assert Run(isa, h1, [fetch]) == Some(Next(isa, h1, fetch));
    var h2 := Next(isa, h1, OtherEnds);
    assert [Arrive(instr), OtherEnds, fetch][1..] == [OtherEnds, fetch] && [OtherEnds, fetch][1..] == [fetch];
    EndSwallows(isa, h2, [fetch]);
    assert Run(isa, h1, [OtherEnds, fetch]) == Run(isa, h2, [fetch]);
  }

  /** A commit moves instructions from the live ones to the committed ones. */
  lemma RetireMoves(isa: Isa, h: History, k: nat)
    requires Faithful(h) && Allowed(h.cpu, Retire(k)) && !h.cpu.complete
    ensures var g := Next(isa, h, Retire(k)); g.committed + g.live == h.committed + h.live
  {
    CommitRetires(h.cpu, k);
    var gone := Reals(h.cpu.buf.entries[..k + 1]);
    SplitAt(h.live, |gone|);
    assert h.live[..|gone|] == gone;
    Assoc(h.committed, gone, h.live[|gone|..]);
  }

  lemma BadPathFetch(isa: Isa, h: History, s: Step)
    requires Faithful(h) && h.cpu.badPath && s.Fetch?
    ensures var g := Next(isa, h, s);
            g.cpu.badPath && (h.cpu.complete ==> g.cpu.complete) && g.live == h.live && g.committed == h.committed
  {
    FetchDelivers(isa, h.cpu, s.pc, s.mUid, s.nop);
  }

  lemma BadPathStep(isa: Isa, h: History, s: Step)
    requires Faithful(h) && h.cpu.badPath && Allowed(h.cpu, s) && !Clears(s)
    ensures var g := Next(isa, h, s);
            && g.cpu.badPath && (!g.cpu.complete ==> !h.cpu.complete)
            && (!g.cpu.complete ==> g.committed + g.live == h.committed + h.live)
  {
    match s
    case Fetch(_, _, _) => BadPathFetch(isa, h, s);
    case Retire(k) => if !h.cpu.complete { RetireMoves(isa, h, k); }
    case _ =>
  }

  /** On the bad path nothing real is delivered until such a kill; commits go on. */
  lemma {:induction false} BadPathDeliversNothing(isa: Isa, h: History, steps: seq<Step>)
    requires Faithful(h) && h.cpu.badPath && Run(isa, h, steps) != None
    requires forall s | s in steps :: !Clears(s)
    ensures var r := Run(isa, h, steps).value;
            && r.cpu.badPath && (!r.cpu.complete ==> !h.cpu.complete)
            && (!r.cpu.complete ==> r.committed + r.live == h.committed + h.live)
    decreases |steps|
  {
    if steps != [] {
      assert steps[0] in steps;
      StepFaithful(isa, h, steps[0]);
      BadPathStep(isa, h, steps[0]);
      BadPathDeliversNothing(isa, Next(isa, h, steps[0]), steps[1..]);
    }
  }

  /** A fetch off the path leads onto the bad one: after it no fetch delivers an instruction until
      such a kill, whatever else happens and wherever the model fetches. */
  lemma NothingAfterBadPath(isa: Isa, h: History, s: Step, steps: seq<Step>)
    requires Faithful(h) && s.Fetch? && FetchMacro(isa, h.cpu, s.pc, s.mUid, s.nop).1 == BadPathNop
    requires Run(isa, Next(isa, h, s), steps) != None && forall t | t in steps :: !Clears(t)
    ensures var g := Run(isa, Next(isa, h, s), steps).value;
            forall pc, mUid, nop :: !FetchMacro(isa, g.cpu, pc, mUid, nop).1.Good?
  {
    FetchAnswers(isa, h.cpu, s.pc, s.mUid, s.nop);
    StepFaithful(isa, h, s);
    BadPathDeliversNothing(isa, Next(isa, h, s), steps);
    var g := Run(isa, Next(isa, h, s), steps).value;
    hide FetchMacro, Run, Next;
    forall pc, mUid, nop ensures !FetchMacro(isa, g.cpu, pc, mUid, nop).1.Good? {
      FetchDelivers(isa, g.cpu, pc, mUid, nop);
    }
  }
}
