/** Whole runs of the memory-trace feeder: several threads fetched, committed and killed in any order. */
module MemFeederRuns {
  import opened Sequences
  import opened Wrappers
  import opened MemFeederSpec

  /** What a thread has committed: operations of its trace, and NOPs committed by name. */
  datatype Past = Past(committed: seq<Access>, nopCommits: nat)

  /** `lastUid` is the uid of the latest model instruction. */
  datatype Feeder = Feeder(threads: seq<Thread>, pasts: seq<Past>, lastUid: nat)

  function Counts(threads: seq<Thread>): (r: seq<nat>)
    ensures |r| == |threads| && forall i | 0 <= i < |threads| :: r[i] == threads[i].count
  {
    if threads == [] then [] else [threads[0].count] + Counts(threads[1..])
  }

  function Start(traces: seq<seq<Line>>): Feeder {
    Feeder(seq(|traces|, i requires 0 <= i < |traces| => Fresh(traces[i])), seq(|traces|, i => Past([], 0)), 0)
  }

  datatype Step = DoFetch(t: nat, uid: nat) | DoCommit(t: nat, uid: nat) | DoKill(t: nat, uid: nat, killMe: bool)

  predicate Sound(f: Feeder) {
    && |f.pasts| == |f.threads|
    && forall t | 0 <= t < |f.threads| :: WellFormed(f.threads[t], |f.threads|)
  }

  /** Uids of model instructions grow, commits are in order, and kills are safe. */
  predicate Enabled(f: Feeder, s: Step) {
    && s.t < |f.threads|
    && match s
       case DoFetch(_, uid) => uid > f.lastUid
       case DoCommit(t, uid) => CommitFrom(f.threads[t].issued, uid) != None
       case DoKill(t, uid, _) => KillSafe(f.threads[t].issued, uid)
  }

  function CommitPast(p: Past, done: Option<Body>): Past {
    match done
    case None => p
    case Some(Mem(a)) => p.(committed := p.committed + [a])
    case Some(_) => p.(nopCommits := p.nopCommits + 1)
  }

  function Next(f: Feeder, s: Step): (r: Feeder)
    requires Sound(f) && Enabled(f, s)
    ensures |r.threads| == |f.threads| && |r.pasts| == |f.pasts|
  {
    var th := f.threads[s.t];
    match s
    case DoFetch(t, uid) => Feeder(f.threads[t := Fetch(th, Counts(f.threads), uid)], f.pasts, uid)
    case DoCommit(t, uid) =>
      Feeder(f.threads[t := Commit(th, uid)],
             f.pasts[t := CommitPast(f.pasts[t], CommitFrom(th.issued, uid).value.1)], f.lastUid)
    case DoKill(t, uid, killMe) => f.(threads := f.threads[t := Kill(th, uid, killMe)])
  }

  /** Waits have been kept, and the issued operations stand in the order of their model instructions. */
  predicate Steady(th: Thread, counts: seq<nat>, lastUid: nat) {
    && WellFormed(th, |counts|) && Released(th, counts)
    && Ascending(th.issued) && (forall i | 0 <= i < |th.issued| :: th.issued[i].uid <= lastUid)
  }

  /** What was committed and what is pending is what was read, in program order. */
  predicate Ordered(th: Thread, p: Past) {
    && th.pos <= |th.trace| && p.committed + Pending(th) == AccessesIn(th.trace[..th.pos])
    && th.count == |p.committed| + p.nopCommits
  }

  /** A stopped thread has nothing left. */
  predicate Ended(th: Thread) {
    th.stopped ==> Pending(th) == [] && th.pos == |th.trace|
  }

  /** What holds of one thread in every reachable state. */
  predicate ThreadOk(th: Thread, p: Past, counts: seq<nat>, lastUid: nat) {
    Steady(th, counts, lastUid) && Ordered(th, p) && Ended(th)
  }

  predicate AllOk(f: Feeder) {
    && |f.pasts| == |f.threads|
    && forall t {:trigger ThreadOk(f.threads[t], f.pasts[t], Counts(f.threads), f.lastUid)} | 0 <= t < |f.threads| ::
         ThreadOk(f.threads[t], f.pasts[t], Counts(f.threads), f.lastUid)
  }

  lemma ThreadLater(th: Thread, p: Past, counts: seq<nat>, counts': seq<nat>, lastUid: nat, lastUid': nat)
    requires ThreadOk(th, p, counts, lastUid) && lastUid <= lastUid'
    requires |counts'| == |counts| && forall i | 0 <= i < |counts| :: counts[i] <= counts'[i]
    ensures ThreadOk(th, p, counts', lastUid')
  {
  }

  lemma {:induction false} WithoutNopsAscending(ops: seq<MemOp>)
    requires Ascending(ops)
    ensures Ascending(WithoutNops(ops))
    ensures forall op | op in WithoutNops(ops) :: op in ops
  {
    if ops != [] {
      var rest := WithoutNops(ops[1..]);
      assert Ascending(ops[1..]);
      WithoutNopsAscending(ops[1..]);
      forall i | 0 <= i < |rest| ensures ops[0].uid < rest[i].uid {
        assert rest[i] in rest;
        var k :| 0 <= k < |ops[1..]| && ops[1..][k] == rest[i];
      }
    }
  }

  lemma WindOk(th: Thread, lastUid: nat)
    requires Ascending(th.issued) && (forall i | 0 <= i < |th.issued| :: th.issued[i].uid <= lastUid)
    ensures var u := Wind(th);
            Ascending(u.issued) && (forall i | 0 <= i < |u.issued| :: u.issued[i].uid <= lastUid)
  {
    WithoutNopsAscending(th.issued);
    var u := Wind(th);
    forall i | 0 <= i < |u.issued| ensures u.issued[i].uid <= lastUid {
      assert u.issued[i] in WithoutNops(th.issued);
    }
  }

  lemma RefillSteady(th: Thread, counts: seq<nat>, lastUid: nat)
    requires Steady(th, counts, lastUid)
    ensures Steady(Refill(th, counts), counts, lastUid)
  {
    var t := MakeBundle(th, counts).0;
    BundleOrder(th, counts);
    BundleReleases(th, counts);
    WindOk(t, lastUid);
  }

  lemma WindEnds(t: Thread)
    requires t.replay == [] && Accesses(t.slots) == [] && Held(t) == [] && t.pos == |t.trace|
    requires t.stopped ==> Pending(t) == []
    ensures Ended(Wind(t))
  {
    var u := Wind(t);
    PendingInParts(u);
    WindOrder(t);
  }

  lemma RefillEnds(th: Thread, counts: seq<nat>)
    requires WellFormed(th, |counts|) && Ended(th) && th.replay == [] && th.slots == []
    ensures Ended(Refill(th, counts))
  {
    BundleOrder(th, counts);
    BundleEnds(th, counts);
    RefillOrder(th, counts);
    var (t, eof) := MakeBundle(th, counts);
    FilledOrder(th, t);
    if eof {
      WindEnds(t);
    }
  }

  lemma HandOutSteady(th: Thread, counts: seq<nat>, uid: nat, lastUid: nat)
    requires Steady(th, counts, lastUid) && lastUid < uid && (th.replay != [] || th.slots != [])
    ensures Steady(HandOut(th, uid), counts, uid)
  {
  }

  lemma FetchSteady(th: Thread, counts: seq<nat>, lastUid: nat, uid: nat)
    requires Steady(th, counts, lastUid) && lastUid < uid
    ensures Steady(Fetch(th, counts, uid), counts, uid)
  {
    if th.replay == [] && th.slots == [] {
      RefillSteady(th, counts, lastUid);
      HandOutSteady(Refill(th, counts), counts, uid, lastUid);
    } else {
      HandOutSteady(th, counts, uid, lastUid);
    }
  }

  lemma FetchEnds(th: Thread, counts: seq<nat>, uid: nat)
    requires WellFormed(th, |counts|) && Ended(th)
    ensures Ended(Fetch(th, counts, uid))
  {
    if th.replay == [] && th.slots == [] {
      RefillEnds(th, counts);
      HandOutOrder(Refill(th, counts), uid);
    } else {
      HandOutOrder(th, uid);
    }
  }

  lemma FetchOrdered(th: Thread, p: Past, counts: seq<nat>, uid: nat)
    requires WellFormed(th, |counts|) && Ordered(th, p)
    ensures Ordered(Fetch(th, counts, uid), p)
  {
    FetchOrder(th, counts, uid);
    var u := Fetch(th, counts, uid);
    ReadOn(th.trace, th.pos, u.pos, p.committed, Pending(th), Pending(u));
  }

  lemma ReadOn(lines: seq<Line>, i: nat, j: nat, committed: seq<Access>, before: seq<Access>, after: seq<Access>)
    requires i <= j <= |lines| && committed + before == AccessesIn(lines[..i])
    requires after == before + AccessesIn(lines[i..j])
    ensures committed + after == AccessesIn(lines[..j])
  {
    assert lines[..j] == lines[..i] + lines[i..j];
    AccessesInConcat(lines[..i], lines[i..j]);
    Assoc(committed, before, AccessesIn(lines[i..j]));
  }

  lemma AscendingSuffix(ops: seq<MemOp>, k: nat, lastUid: nat)
    requires k <= |ops| && Ascending(ops) && forall i | 0 <= i < |ops| :: ops[i].uid <= lastUid
    ensures Ascending(ops[k..]) && forall i | 0 <= i < |ops[k..]| :: ops[k..][i].uid <= lastUid
  {
  }

  lemma CommitSteady(th: Thread, counts: seq<nat>, lastUid: nat, uid: nat)
    requires Steady(th, counts, lastUid) && CommitFrom(th.issued, uid) != None
    ensures Steady(Commit(th, uid), counts, lastUid)
  {
    hide CommitFrom, Bodies, Accesses;
    CommitTakesOldest(th.issued, uid);
    AscendingSuffix(th.issued, |th.issued| - |CommitFrom(th.issued, uid).value.0|, lastUid);
  }

  lemma CommitPasts(p: Past, done: Option<Body>)
    ensures var q := CommitPast(p, done);
            q.committed == p.committed + DoneAccess(done)
            && |q.committed| + q.nopCommits == |p.committed| + p.nopCommits + if done == None then 0 else 1
  {
  }

  lemma PendingEmpty<T>(a: seq<T>, b: seq<T>)
    ensures a + b == [] ==> b == []
  {
  }

  lemma CommitOrdered(th: Thread, p: Past, uid: nat)
    requires Ordered(th, p) && Ended(th) && CommitFrom(th.issued, uid) != None
    ensures Ordered(Commit(th, uid), CommitPast(p, CommitFrom(th.issued, uid).value.1)) && Ended(Commit(th, uid))
  {
    CommitPending(th, uid);
    var done, u := CommitFrom(th.issued, uid).value.1, Commit(th, uid);
    CommitPasts(p, done);
    Assoc(p.committed, DoneAccess(done), Pending(u));
    PendingEmpty(DoneAccess(done), Pending(u));
  }

  lemma KillSteady(th: Thread, k: Thread, counts: seq<nat>, lastUid: nat)
    requires Steady(th, counts, lastUid) && k == th.(issued := k.issued, replay := k.replay) && k.issued <= th.issued
    ensures Steady(k, counts, lastUid)
  {
    forall i | 0 <= i < |k.issued| ensures k.issued[i] == th.issued[i] {
    }
  }

  lemma KillOk(th: Thread, p: Past, counts: seq<nat>, lastUid: nat, uid: nat, killMe: bool)
    requires ThreadOk(th, p, counts, lastUid)
    ensures ThreadOk(Kill(th, uid, killMe), p, counts, lastUid)
  {
    KillKeepsOrder(th, uid, killMe);
    KillKeepsPending(th, uid, killMe);
    KillSteady(th, Kill(th, uid, killMe), counts, lastUid);
  }

  lemma UpdateOk(f: Feeder, t: nat, th: Thread, p: Past, lastUid: nat)
    requires AllOk(f) && t < |f.threads| && f.lastUid <= lastUid && f.threads[t].count <= th.count
    requires ThreadOk(th, p, Counts(f.threads), lastUid)
    ensures AllOk(Feeder(f.threads[t := th], f.pasts[t := p], lastUid))
  {
    hide ThreadOk;
    var g, counts := Feeder(f.threads[t := th], f.pasts[t := p], lastUid), Counts(f.threads);
    forall i | 0 <= i < |g.threads| ensures ThreadOk(g.threads[i], g.pasts[i], Counts(g.threads), lastUid) {
      if i != t { assert ThreadOk(f.threads[i], f.pasts[i], counts, f.lastUid); }
      ThreadLater(g.threads[i], g.pasts[i], counts, Counts(g.threads), if i == t then lastUid else f.lastUid, lastUid);
    }
  }

  lemma StepOk(f: Feeder, s: Step)
    requires AllOk(f) && Sound(f) && Enabled(f, s)
    ensures AllOk(Next(f, s))
  {
    assert ThreadOk(f.threads[s.t], f.pasts[s.t], Counts(f.threads), f.lastUid);
    var th, p, counts := f.threads[s.t], f.pasts[s.t], Counts(f.threads);
    assert f.pasts[s.t := p] == f.pasts;
    match s
    case DoFetch(t, uid) =>
      FetchSteady(th, counts, f.lastUid, uid);
      FetchOrdered(th, p, counts, uid);
      FetchEnds(th, counts, uid);
      FetchOrder(th, counts, uid);
      UpdateOk(f, t, Fetch(th, counts, uid), p, uid);
    case DoCommit(t, uid) =>
      CommitSteady(th, counts, f.lastUid, uid);
      CommitOrdered(th, p, uid);
      UpdateOk(f, t, Commit(th, uid), CommitPast(p, CommitFrom(th.issued, uid).value.1), f.lastUid);
    case DoKill(t, uid, killMe) =>
      KillOk(th, p, counts, f.lastUid, uid, killMe);
      KillKeepsOrder(th, uid, killMe);
      UpdateOk(f, t, Kill(th, uid, killMe), p, f.lastUid);
  }

  function Run(f: Feeder, steps: seq<Step>): (r: Option<Feeder>)
    requires AllOk(f)
    ensures r != None ==> AllOk(r.value)
    decreases |steps|
  {
    if steps == [] then Some(f)
    else
      AllSound(f);
      if Enabled(f, steps[0]) then
        StepOk(f, steps[0]);
        Run(Next(f, steps[0]), steps[1..])
      else None
  }

  lemma AllSound(f: Feeder)
    requires AllOk(f)
    ensures Sound(f)
  {
    forall t | 0 <= t < |f.threads| ensures WellFormed(f.threads[t], |f.threads|) {
      assert ThreadOk(f.threads[t], f.pasts[t], Counts(f.threads), f.lastUid);
    }
  }

  /** The traces of all threads. */
  predicate TracesOf(f: Feeder, traces: seq<seq<Line>>) {
    |f.threads| == |f.pasts| == |traces| && forall t | 0 <= t < |traces| :: f.threads[t].trace == traces[t]
  }

  lemma SameTraces(f: Feeder, s: Step, traces: seq<seq<Line>>)
    requires Sound(f) && Enabled(f, s) && TracesOf(f, traces)
    ensures TracesOf(Next(f, s), traces)
  {
    if s.DoFetch? { FetchOrder(f.threads[s.t], Counts(f.threads), s.uid); }
  }

  lemma {:induction false} RunTraces(f: Feeder, steps: seq<Step>, traces: seq<seq<Line>>)
    requires AllOk(f) && TracesOf(f, traces) && Run(f, steps) != None
    ensures TracesOf(Run(f, steps).value, traces)
    decreases |steps|
  {
    if steps != [] {
      AllSound(f);
      StepOk(f, steps[0]);
      SameTraces(f, steps[0], traces);
      RunTraces(Next(f, steps[0]), steps[1..], traces);
    }
  }

  /** Every wait in the traces is for one of the threads. */
  predicate Valid(traces: seq<seq<Line>>) {
    forall t, j | 0 <= t < |traces| && 0 <= j < |traces[t]| && traces[t][j].Wait? :: traces[t][j].thread < |traces|
  }

  lemma StartOk(traces: seq<seq<Line>>)
    requires Valid(traces)
    ensures AllOk(Start(traces))
  {
    var f := Start(traces);
    forall t | 0 <= t < |f.threads| ensures ThreadOk(f.threads[t], f.pasts[t], Counts(f.threads), 0) {
      PendingInParts(f.threads[t]);
    }
  }

  /** The state after a run of all threads from the start of their traces. */
  function RunOf(traces: seq<seq<Line>>, steps: seq<Step>): Option<Feeder>
    requires Valid(traces)
  {
    StartOk(traces);
    Run(Start(traces), steps)
  }

  /** The states the threads can get into. */
  ghost predicate Reachable(traces: seq<seq<Line>>, f: Feeder) {
    Valid(traces) && exists steps :: RunOf(traces, steps) == Some(f)
  }

  lemma ReachableOk(traces: seq<seq<Line>>, f: Feeder)
    requires Reachable(traces, f)
    ensures AllOk(f) && Sound(f) && TracesOf(f, traces)
  {
    StartOk(traces);
    var steps :| RunOf(traces, steps) == Some(f);
    RunTraces(Start(traces), steps, traces);
    AllSound(f);
  }

  /** In every reachable state a thread's committed, issued, replayed, unread and waiting operations
      are the first of its trace, in file order; and issued ones are in the order of their uids. */
  lemma ProgramOrder(traces: seq<seq<Line>>, f: Feeder, t: nat)
    requires Reachable(traces, f) && t < |traces|
    ensures |f.threads| == |f.pasts| == |traces| && f.threads[t].pos <= |traces[t]|
    ensures var th := f.threads[t];
      && f.pasts[t].committed + Accesses(Bodies(th.issued) + Bodies(th.replay) + th.slots) + Held(th)
         == AccessesIn(traces[t][..th.pos])
      && Ascending(th.issued)
  {
    ReachableOk(traces, f);
    var th := f.threads[t];
    assert ThreadOk(th, f.pasts[t], Counts(f.threads), f.lastUid);
  }

  lemma ThreadIsOk(f: Feeder, t: nat)
    requires AllOk(f) && t < |f.threads|
    ensures Steady(f.threads[t], Counts(f.threads), f.lastUid)
    ensures Ordered(f.threads[t], f.pasts[t]) && Ended(f.threads[t])
  {
    assert ThreadOk(f.threads[t], f.pasts[t], Counts(f.threads), f.lastUid);
  }

  lemma ReleasedAt(th: Thread, counts: seq<nat>, j: nat)
    requires WellFormed(th, |counts|) && Released(th, counts) && j < th.pos <= |th.trace| && th.trace[j].Wait?
    ensures th.trace[j].thread < |counts|
    ensures if th.held != None && j == th.pos - 1 then th.held == Some(th.trace[j])
            else counts[th.trace[j].thread] >= th.trace[j].inst
  {
  }

  /** An operation marked as waiting for operation n of thread u leaves for the model only when u has
      committed n operations: the wait at line j has been met once line j is read, unless it is
      still held back, and then it is the latest line read. */
  lemma WaitsAreKept(traces: seq<seq<Line>>, f: Feeder, t: nat, j: nat)
    requires Reachable(traces, f) && t < |traces| && j < |traces[t]| && traces[t][j].Wait?
    requires |f.threads| == |f.pasts| == |traces| && j < f.threads[t].pos
    ensures var line, th := traces[t][j], f.threads[t];
      if th.held != None && j == th.pos - 1 then th.held == Some(line)
      else line.inst <= |f.pasts[line.thread].committed| + f.pasts[line.thread].nopCommits
  {
    ReachableOk(traces, f);
    var u := traces[t][j].thread;
    ThreadIsOk(f, t);
    ReleasedAt(f.threads[t], Counts(f.threads), j);
    if u < |traces| {
      ThreadIsOk(f, u);
    }
  }

  /** A commit that names a NOP of thread `u`: the instruction it is for is a NOP still issued. */
  predicate NamesNop(f: Feeder, s: Step, u: nat)
    requires s.t < |f.threads|
  {
    var issued := f.threads[s.t].issued;
    s.DoCommit? && s.t == u && Find(issued, s.uid) < |issued| && !issued[Find(issued, s.uid)].body.Mem?
  }

  /** No commit of the run names a NOP of thread `u`. */
  predicate NamesNoNop(f: Feeder, steps: seq<Step>, u: nat)
    requires AllOk(f) && Run(f, steps) != None
    decreases |steps|
  {
    steps == [] ||
    (AllSound(f);
     StepOk(f, steps[0]);
     !NamesNop(f, steps[0], u) && NamesNoNop(Next(f, steps[0]), steps[1..], u))
  }

  lemma StepNops(f: Feeder, s: Step, u: nat)
    requires Sound(f) && Enabled(f, s) && u < |f.threads|
    ensures Next(f, s).pasts[u].nopCommits == f.pasts[u].nopCommits + if NamesNop(f, s, u) then 1 else 0
  {
    if s.DoCommit? {
      CommitInOrder(f.threads[s.t].issued, s.uid);
    }
  }

  /** The NOPs counted are those named, so there are none exactly in runs that name none. */
  lemma {:induction false} NopsAreNamed(f: Feeder, steps: seq<Step>, u: nat)
    requires AllOk(f) && Run(f, steps) != None && u < |f.threads|
    ensures |Run(f, steps).value.pasts| == |f.pasts| == |f.threads|
    ensures Run(f, steps).value.pasts[u].nopCommits >= f.pasts[u].nopCommits
    ensures NamesNoNop(f, steps, u) <==> Run(f, steps).value.pasts[u].nopCommits == f.pasts[u].nopCommits
    decreases |steps|
  {
    if steps != [] {
      AllSound(f);
      StepOk(f, steps[0]);
      StepNops(f, steps[0], u);
      NopsAreNamed(Next(f, steps[0]), steps[1..], u);
    }
  }

  /** No commit of a run from the start names a NOP of thread `u`. */
  predicate KeepsToOperations(traces: seq<seq<Line>>, steps: seq<Step>, u: nat)
    requires Valid(traces) && RunOf(traces, steps) != None
  {
    StartOk(traces);
    NamesNoNop(Start(traces), steps, u)
  }

  /** The count that other threads wait on is the number of operations committed exactly in runs
      that commit no NOP of the thread by name. */
  lemma CountsOperations(traces: seq<seq<Line>>, steps: seq<Step>, u: nat)
    requires Valid(traces) && u < |traces| && RunOf(traces, steps) != None
    ensures var f := RunOf(traces, steps).value;
            && |f.threads| == |f.pasts| == |traces|
            && (KeepsToOperations(traces, steps, u) <==> f.threads[u].count == |f.pasts[u].committed|)
  {
    StartOk(traces);
    RunTraces(Start(traces), steps, traces);
    NopsAreNamed(Start(traces), steps, u);
    ThreadIsOk(Run(Start(traces), steps).value, u);
  }

  /** The wait rule: in a run that commits no NOP of thread u by name, an operation marked as waiting
      for operation n of u leaves for the model only when u has committed n operations of its trace. */
  lemma WaitsForOperations(traces: seq<seq<Line>>, steps: seq<Step>, t: nat, j: nat)
    requires Valid(traces) && t < |traces| && j < |traces[t]| && traces[t][j].Wait?
    requires RunOf(traces, steps) != None && KeepsToOperations(traces, steps, traces[t][j].thread)
    ensures var f, line := RunOf(traces, steps).value, traces[t][j];
            && |f.threads| == |f.pasts| == |traces|
            && (j < f.threads[t].pos ==>
                  if f.threads[t].held != None && j == f.threads[t].pos - 1 then f.threads[t].held == Some(line)
                  else line.inst <= |f.pasts[line.thread].committed|)
  {
    StartOk(traces);
    var f, u := RunOf(traces, steps).value, traces[t][j].thread;
    CountsOperations(traces, steps, u);
    RunTraces(Start(traces), steps, traces);
    if j < f.threads[t].pos {
      ThreadIsOk(f, t);
      ReleasedAt(f.threads[t], Counts(f.threads), j);
    }
  }

  /** A fetch that makes a new bundle. */
  predicate MakesBundle(f: Feeder, s: Step) {
    s.DoFetch? && s.t < |f.threads| && f.threads[s.t].replay == [] && f.threads[s.t].slots == []
  }

  /** In every reachable state a met wait ends: a thread that makes a bundle hands out the operation it
      held if and only if the other thread has got far enough, and holds one afterwards only if that
      one's thread has not. */
  lemma MetWaitsEnd(traces: seq<seq<Line>>, f: Feeder, s: Step)
    requires Reachable(traces, f) && Sound(f) && Enabled(f, s) && MakesBundle(f, s)
    ensures var th, g, u := f.threads[s.t], Next(f, s), Next(f, s).threads[s.t];
      && u.issued != [] && u.issued[|u.issued| - 1].uid == s.uid
      && (th.held != None ==>
            && th.held.value.Wait? && th.held.value.thread < |f.threads|
            && (u.issued[|u.issued| - 1].body == Mem(th.held.value.access) <==>
                  th.held.value.inst <= f.threads[th.held.value.thread].count))
      && (u.held != None ==>
            && u.held.value.Wait? && u.held.value.thread < |g.threads|
            && g.threads[u.held.value.thread].count < u.held.value.inst)
  {
    hide Fetch, Ordered, Reachable, AllOk, Released, Ascending, InHand;
    ReachableOk(traces, f);
    ThreadIsOk(f, s.t);
    HeldRuns(f.threads[s.t]);
    BundleLeaves(f.threads[s.t], Counts(f.threads), s.uid);
    FetchOrder(f.threads[s.t], Counts(f.threads), s.uid);
  }

  lemma HeldRuns(th: Thread)
    requires Ended(th)
    ensures th.held != None ==> !th.stopped
  {
    if th.held != None {
      var rest := Accesses(Bodies(th.issued) + Bodies(th.replay) + th.slots);
      assert (rest + Held(th))[|rest|] == th.held.value.access;
    }
  }

  lemma BundleLeaves(th: Thread, counts: seq<nat>, uid: nat)
    requires WellFormed(th, |counts|) && th.replay == [] && th.slots == [] && (th.held != None ==> !th.stopped)
    ensures var u := Fetch(th, counts, uid);
      && WellFormed(u, |counts|) && u.issued != [] && u.issued[|u.issued| - 1].uid == uid
      && (th.held != None ==>
            (u.issued[|u.issued| - 1].body == Mem(th.held.value.access) <==> Due(th.held.value, counts)))
      && (u.held != None ==> !Due(u.held.value, counts))
  {
    BundleExactly(th, counts);
    BundleReleases(th, counts);
    BundleOrder(th, counts);
    FetchWellFormed(th, counts, uid);
    var t := MakeBundle(th, counts).0;
    FirstSlot(th, counts);
  }

  lemma FirstSlot(th: Thread, counts: seq<nat>)
    requires WellFormed(th, |counts|)
    ensures MakeBundle(th, counts).0.slots[0] == Slot(th, counts, 0, false).1
    ensures MakeBundle(th, counts).0.slots[0].Mem? <==>
            !th.stopped && InHand(th) != None && Due(InHand(th).value, counts)
    ensures th.stopped ==> MakeBundle(th, counts).0.held == th.held
  {
    SlotExactly(th, counts, 0, false);
    BundleEnds(th, counts);
  }

  /** A thread that has ended has committed its whole trace. */
  lemma EndedIsComplete(traces: seq<seq<Line>>, f: Feeder, t: nat)
    requires Reachable(traces, f) && t < |traces|
    ensures |f.threads| == |f.pasts| == |traces|
    ensures f.threads[t].stopped ==> f.pasts[t].committed == AccessesIn(traces[t])
  {
    ReachableOk(traces, f);
    var th := f.threads[t];
    assert ThreadOk(th, f.pasts[t], Counts(f.threads), f.lastUid);
    if th.stopped {
      assert traces[t][..th.pos] == traces[t];
      assert f.pasts[t].committed + [] == f.pasts[t].committed;
    }
  }

  /** In every reachable state an operation in flight can be killed; so can anything exactly when
      nothing is issued or the oldest issued is not younger. */
  lemma InFlightCanBeKilled(traces: seq<seq<Line>>, f: Feeder, t: nat, uid: nat)
    requires Reachable(traces, f) && t < |traces| && |f.threads| == |traces|
    ensures var issued := f.threads[t].issued;
      && (KillSafe(issued, uid) <==> issued == [] || issued[0].uid <= uid)
      && ((exists op :: op in issued && op.uid == uid) ==> KillSafe(issued, uid))
  {
    ReachableOk(traces, f);
    assert ThreadOk(f.threads[t], f.pasts[t], Counts(f.threads), f.lastUid);
    KillSafeExactly(f.threads[t].issued, uid);
  }

  lemma {:induction false} RunOneMore(f: Feeder, steps: seq<Step>, s: Step)
    requires AllOk(f) && Run(f, steps) != None && Sound(Run(f, steps).value) && Enabled(Run(f, steps).value, s)
    ensures Run(f, steps + [s]) == Some(Next(Run(f, steps).value, s))
    decreases |steps|
  {
    AllSound(f);
    if steps == [] {
      StepOk(f, s);
      assert [] + [s] == [s] && [s][1..] == [];
    } else {
      TailOfConcat(steps, [s]);
      StepOk(f, steps[0]);
      RunOneMore(Next(f, steps[0]), steps[1..], s);
    }
  }

  lemma ReachStart(traces: seq<seq<Line>>)
    requires Valid(traces)
    ensures Reachable(traces, Start(traces))
  {
    StartOk(traces);
    assert RunOf(traces, []) == Some(Start(traces));
  }

  lemma ReachNext(traces: seq<seq<Line>>, f: Feeder, s: Step)
    requires Reachable(traces, f) && Sound(f) && Enabled(f, s)
    ensures Reachable(traces, Next(f, s))
  {
    StartOk(traces);
    var steps :| RunOf(traces, steps) == Some(f);
    RunOneMore(Start(traces), steps, s);
    assert RunOf(traces, steps + [s]) == Some(Next(f, s));
  }

  function Example(): Access {
    Access(false, 3, 0, 64)
  }

  /** Committing a NOP by name counts as an operation: here thread 1 stops waiting for the first
      operation of thread 0, which never has one. */
  lemma NamedNopEndsWait()
    ensures exists traces, f ::
      && Reachable(traces, f) && |traces| == |f.threads| == |f.pasts| == 2
      && traces[1] == [Wait(Example(), 0, 1)] && f.pasts[0].committed == []
      && f.threads[1].issued == [MemOp(2, Mem(Example()))]
  {
    var traces: seq<seq<Line>> := [[], [Wait(Example(), 0, 1)]];
    var none, other := Past([], 0), Fresh(traces[1]);
    var f0 := Feeder([Fresh([]), other], [none, none], 0);
    var f1 := Feeder([Thread([], 0, [MemOp(1, NopM)], [], [NopM, NopI], None, true, 0), other], [none, none], 1);
    var f2 := Feeder([Thread([], 0, [], [], [NopM, NopI], None, true, 1), other], [Past([], 1), none], 1);
    assert f0 == Start(traces);
    FirstFetch(f0, f1);
    NopCommit(f1, f2);
    ReachStart(traces);
    ReachNext(traces, f0, DoFetch(0, 1));
    ReachNext(traces, f1, DoCommit(0, 1));
    ReachNext(traces, f2, DoFetch(1, 2));
    LastFetch(f2);
  }

  lemma FirstFetch(f: Feeder, g: Feeder)
    requires |f.threads| == |f.pasts| == 2 && Sound(f) && f.threads[0] == Fresh([]) && f.lastUid == 0
    requires g == Feeder(f.threads[0 := Thread([], 0, [MemOp(1, NopM)], [], [NopM, NopI], None, true, 0)], f.pasts, 1)
    ensures Next(f, DoFetch(0, 1)) == g && Sound(g)
  {
    var th := f.threads[0];
    assert [NopM, NopM, NopI][1..] == [NopM, NopI];
    assert Refill(th, Counts(f.threads)) == th.(slots := [NopM, NopM, NopI], stopped := true);
    assert [] + [MemOp(1, NopM)] == [MemOp(1, NopM)];
    assert Fetch(th, Counts(f.threads), 1) == g.threads[0];
  }

  lemma NopCommit(f: Feeder, g: Feeder)
    requires |f.threads| == |f.pasts| == 2 && Sound(f)
    requires f.threads[0] == Thread([], 0, [MemOp(1, NopM)], [], [NopM, NopI], None, true, 0)
    requires f.pasts[0] == Past([], 0)
    requires g == Feeder(f.threads[0 := Thread([], 0, [], [], [NopM, NopI], None, true, 1)],
                         f.pasts[0 := Past([], 1)], f.lastUid)
    ensures Enabled(f, DoCommit(0, 1)) && Next(f, DoCommit(0, 1)) == g && Sound(g)
  {
    assert [MemOp(1, NopM)][1..] == [];
  }

  lemma LastFetch(f: Feeder)
    requires |f.threads| == |f.pasts| == 2 && Sound(f) && f.lastUid == 1
    requires f.threads[1] == Fresh([Wait(Example(), 0, 1)]) && f.threads[0].count == 1
    ensures Next(f, DoFetch(1, 2)).threads[1].issued == [MemOp(2, Mem(Example()))]
    ensures Next(f, DoFetch(1, 2)).pasts == f.pasts
  {
    assert Counts(f.threads) == [1, 0];
  }

  /** The state of a thread about to find the end of its trace. */
  predicate AtEnd(th: Thread) {
    !th.stopped && th.replay == [] && th.slots == [] && th.held == None && th.pos == |th.trace|
  }

  /** At the end of the trace the NOPs in flight are forgotten. A kill of one of them then runs off
      the list, unless an access at least as old is still in flight. */
  lemma ForgottenNops(th: Thread, counts: seq<nat>, uid: nat, op: MemOp)
    requires WellFormed(th, |counts|) && AtEnd(th) && op in th.issued && op.uid < uid
    ensures KillSafe(Fetch(th, counts, uid).issued, op.uid) <==>
            exists m :: m in th.issued && m.body.Mem? && m.uid <= op.uid
  {
    var left := WithoutNops(th.issued);
    var after := Fetch(th, counts, uid).issued;
    WithoutNopsKeeps(th.issued);
    assert after == left + [after[|left|]] && after[|left|].uid == uid;
    if i :| 0 <= i < |after| && after[i].uid <= op.uid {
      assert i < |left| && after[i] in left;
    }
    if m :| m in th.issued && m.body.Mem? && m.uid <= op.uid {
      var i :| 0 <= i < |left| && left[i] == m;
      assert after[i].uid <= op.uid;
    }
  }

  lemma {:induction false} WithoutNopsKeeps(ops: seq<MemOp>)
    ensures forall m :: m in WithoutNops(ops) <==> m in ops && m.body.Mem?
  {
    if ops != [] {
      WithoutNopsKeeps(ops[1..]);
      assert forall m :: m in ops <==> m == ops[0] || m in ops[1..];
    }
  }

  /** Such a state comes about: here two NOPs are in flight at the end of the trace and nothing else. */
  lemma ForgottenNopsHappen()
    ensures exists traces, f :: Reachable(traces, f) && |f.threads| == 1 && AtEnd(f.threads[0])
                             && f.threads[0].issued == [MemOp(2, NopM), MemOp(3, NopI)]
  {
    var trace, none, first := [Plain(Example())], Past([], 0), MemOp(1, Mem(Example()));
    var f0 := Feeder([Fresh(trace)], [none], 0);
    var f1 := Feeder([Thread(trace, 1, [first], [], [NopM, NopI], None, false, 0)], [none], 1);
    var f2 := Feeder([Thread(trace, 1, [first, MemOp(2, NopM)], [], [NopI], None, false, 0)], [none], 2);
    var f3 := Feeder([Thread(trace, 1, [first, MemOp(2, NopM), MemOp(3, NopI)], [], [], None, false, 0)], [none], 3);
    assert f0 == Start([trace]);
    BundleFetch(f0, f1);
    SlotFetches(f1, f2, f3);
    ReachStart([trace]);
    ReachNext([trace], f0, DoFetch(0, 1));
    ReachNext([trace], f1, DoFetch(0, 2));
    ReachNext([trace], f2, DoFetch(0, 3));
    ReachNext([trace], f3, DoCommit(0, 1));
    assert Next(f3, DoCommit(0, 1)).threads[0].issued == [MemOp(2, NopM), MemOp(3, NopI)];
  }

  lemma BundleFetch(f: Feeder, g: Feeder)
    requires f == Feeder([Fresh([Plain(Example())])], [Past([], 0)], 0)
    requires g == Feeder([Thread([Plain(Example())], 1, [MemOp(1, Mem(Example()))], [], [NopM, NopI], None, false, 0)],
                         [Past([], 0)], 1)
    ensures Sound(f) && Next(f, DoFetch(0, 1)) == g && Sound(g)
  {
    var th := f.threads[0];
    assert [Mem(Example()), NopM, NopI][1..] == [NopM, NopI];
    assert Refill(th, Counts(f.threads)) == th.(pos := 1, slots := [Mem(Example()), NopM, NopI]);
    assert Fetch(th, Counts(f.threads), 1) == g.threads[0];
  }

  lemma SlotFetches(f: Feeder, g: Feeder, h: Feeder)
    requires |f.threads| == |f.pasts| == 1 && Sound(f) && f.lastUid == 1
    requires f.threads[0].slots == [NopM, NopI] && f.threads[0].replay == [] && |f.threads[0].issued| == 1
    requires g == Feeder([f.threads[0].(issued := [f.threads[0].issued[0], MemOp(2, NopM)], slots := [NopI])],
                         f.pasts, 2)
    requires h == Feeder([g.threads[0].(issued := [f.threads[0].issued[0], MemOp(2, NopM), MemOp(3, NopI)],
                                        slots := [])],
                         f.pasts, 3)
    ensures Next(f, DoFetch(0, 2)) == g && Sound(g) && Next(g, DoFetch(0, 3)) == h && Sound(h)
  {
    var issued := f.threads[0].issued;
    assert [NopM, NopI][1..] == [NopI] && [NopI][1..] == [];
    assert issued + [MemOp(2, NopM)] == [issued[0], MemOp(2, NopM)];
    assert [issued[0], MemOp(2, NopM)] + [MemOp(3, NopI)] == [issued[0], MemOp(2, NopM), MemOp(3, NopI)];
    assert HandOut(f.threads[0], 2) == g.threads[0] && HandOut(g.threads[0], 3) == h.threads[0];
  }
}
