/**
 The memory-trace feeder (feeders/inst/memfeeder/mem-feeder.cpp) on values: what
 one thread's fetch, commit and kill do, and what whole runs of several threads
 guarantee. MemFeeder shows that the classes compute these functions.
 */
module MemFeederSpec {
  import opened Sequences
  import opened Wrappers

  datatype Access = Access(store: bool, size: nat, hint: nat, ea: nat)

  /** A line of the trace: `r`/`w`, or `wr`/`ww`, which wait until a thread has committed `inst` operations. */
  datatype Line = Plain(access: Access) | Wait(access: Access, thread: nat, inst: nat)

  datatype Body = NopM | NopI | Mem(access: Access)

  datatype MemOp = MemOp(uid: nat, body: Body)

  /** `slots` are the syllables of the current bundle not yet handed out; `held` is the operation
      that waits for another thread. */
  datatype Thread = Thread(
    trace: seq<Line>, pos: nat, issued: seq<MemOp>, replay: seq<MemOp>, slots: seq<Body>,
    held: Option<Line>, stopped: bool, count: nat)

  /** A thread at the start of its trace. */
  function Fresh(trace: seq<Line>): Thread {
    Thread(trace, 0, [], [], [], None, false, 0)
  }

  predicate WellFormed(th: Thread, nThreads: nat) {
    && th.pos <= |th.trace|
    && (forall j | 0 <= j < |th.trace| :: th.trace[j].Wait? ==> th.trace[j].thread < nThreads)
    && (th.held != None ==> th.held.value.Wait? && th.pos > 0 && th.held.value == th.trace[th.pos - 1])
  }

  /** The accesses among operations, in order. */
  function Accesses(bodies: seq<Body>): seq<Access> {
    if bodies == [] then []
    else if bodies[0].Mem? then [bodies[0].access] + Accesses(bodies[1..])
    else Accesses(bodies[1..])
  }

  function Bodies(ops: seq<MemOp>): (r: seq<Body>)
    ensures |r| == |ops| && forall i | 0 <= i < |ops| :: r[i] == ops[i].body
  {
    if ops == [] then [] else [ops[0].body] + Bodies(ops[1..])
  }

  function AccessesIn(lines: seq<Line>): (r: seq<Access>)
    ensures |r| == |lines| && forall i | 0 <= i < |lines| :: r[i] == lines[i].access
  {
    if lines == [] then [] else [lines[0].access] + AccessesIn(lines[1..])
  }

  // ----- Making a bundle -----

  /** The waited-for thread is checked; until it has got there the slot stays empty. */
  function Resolve(th: Thread, counts: seq<nat>): (Thread, Body)
    requires WellFormed(th, |counts|) && th.held != None
  {
    if counts[th.held.value.thread] >= th.held.value.inst then (th.(held := None), Mem(th.held.value.access))
    else (th, NopM)
  }

  /** What goes into memory slot number `i`; the last result tells whether the trace had ended at slot 0. */
  function Slot(th: Thread, counts: seq<nat>, i: nat, eof: bool): (Thread, Body, bool)
    requires WellFormed(th, |counts|)
  {
    if eof || th.stopped then (th, NopM, eof)
    else if th.held != None then
      var (u, b) := Resolve(th, counts); (u, b, eof)
    else if th.pos == |th.trace| then (th, NopM, eof || i == 0)
    else
      var line := th.trace[th.pos];
      var read := th.(pos := th.pos + 1);
      if line.Plain? then (read, Mem(line.access), eof)
      else
        var (u, b) := Resolve(read.(held := Some(line)), counts); (u, b, eof)
  }

  function MakeBundle(th: Thread, counts: seq<nat>): (Thread, bool)
    requires WellFormed(th, |counts|)
  {
    var (t0, b0, e0) := Slot(th, counts, 0, false);
    var (t1, b1, e1) := Slot(t0, counts, 1, e0);
    (t1.(slots := [b0, b1, NopI]), e1)
  }

  // ----- Fetch, commit, kill -----

  function WithoutNops(ops: seq<MemOp>): seq<MemOp> {
    if ops == [] then []
    else if ops[0].body.Mem? then [ops[0]] + WithoutNops(ops[1..])
    else WithoutNops(ops[1..])
  }

  /** A new bundle. At the end of the trace all issued NOPs are forgotten, and the thread stops when
      nothing else is in flight. */
  function Refill(th: Thread, counts: seq<nat>): (r: Thread)
    requires WellFormed(th, |counts|)
    ensures |r.slots| == 3
  {
    var (t, eof) := MakeBundle(th, counts);
    if eof then Wind(t) else t
  }

  function Wind(th: Thread): Thread {
    var left := WithoutNops(th.issued);
    th.(issued := left, stopped := th.stopped || left == [])
  }

  /** Handing an operation to the model instruction `uid`: replayed operations go first. */
  function HandOut(th: Thread, uid: nat): Thread
    requires th.replay != [] || th.slots != []
  {
    if th.replay != [] then
      th.(issued := th.issued + [MemOp(uid, th.replay[0].body)], replay := th.replay[1..])
    else
      th.(issued := th.issued + [MemOp(uid, th.slots[0])], slots := th.slots[1..])
  }

  function Fetch(th: Thread, counts: seq<nat>, uid: nat): Thread
    requires WellFormed(th, |counts|)
  {
    HandOut(if th.replay == [] && th.slots == [] then Refill(th, counts) else th, uid)
  }

  /** Commits of NOPs in front of an operation are implied. The result is what is left and what was
      committed, if anything; `None` is a commit out of order. */
  function CommitFrom(issued: seq<MemOp>, uid: nat): Option<(seq<MemOp>, Option<Body>)> {
    if issued == [] then Some(([], None))
    else if issued[0].uid == uid then Some((issued[1..], Some(issued[0].body)))
    else if !issued[0].body.Mem? then CommitFrom(issued[1..], uid)
    else None
  }

  function Commit(th: Thread, uid: nat): (r: Thread)
    requires CommitFrom(th.issued, uid) != None
    ensures r.trace == th.trace && th.count <= r.count
  {
    var (left, done) := CommitFrom(th.issued, uid).value;
    th.(issued := left, count := th.count + if done == None then 0 else 1)
  }

  /** How many issued operations are kept by a kill: up to the youngest no younger than `uid`. */
  function Kept(issued: seq<MemOp>, uid: nat): (n: nat)
    ensures n <= |issued|
    ensures forall i | n <= i < |issued| :: issued[i].uid > uid
    ensures n > 0 ==> issued[n - 1].uid <= uid
  {
    if issued == [] then 0
    else if issued[|issued| - 1].uid > uid then Kept(issued[..|issued| - 1], uid)
    else |issued|
  }

  /** The removal loop of a kill stops before it runs off an emptied list. */
  predicate KillSafe(issued: seq<MemOp>, uid: nat) {
    issued == [] || exists i :: 0 <= i < |issued| && issued[i].uid <= uid
  }

  function CopyToReplay(th: Thread, uid: nat): Thread {
    var n := Kept(th.issued, uid);
    th.(issued := th.issued[..n], replay := th.issued[n..] + th.replay)
  }

  /** The position of an operation among those issued, |issued| when it is not there. */
  function Find(issued: seq<MemOp>, uid: nat): (n: nat)
    ensures n <= |issued| && (forall i | 0 <= i < n :: issued[i].uid != uid) && (n < |issued| ==> issued[n].uid == uid)
  {
    if issued == [] || issued[0].uid == uid then 0 else 1 + Find(issued[1..], uid)
  }

  function ReplayThis(th: Thread, uid: nat): Thread {
    var issued := th.issued;
    if issued != [] && issued[|issued| - 1].uid == uid then
      th.(issued := issued[..|issued| - 1], replay := [issued[|issued| - 1]] + th.replay)
    else
      var n := Find(issued, uid);
      if n == |issued| then th
      else th.(issued := issued[..n] + issued[n + 1..], replay := [issued[n]] + th.replay)
  }

  function Kill(th: Thread, uid: nat, killMe: bool): (r: Thread)
    ensures r.trace == th.trace && r.count == th.count
  {
    var t := CopyToReplay(th, uid);
    if killMe then ReplayThis(t, uid) else t
  }

  // ----- Sequences -----

  lemma {:induction false} AccessesConcat(a: seq<Body>, b: seq<Body>)
    ensures Accesses(a + b) == Accesses(a) + Accesses(b)
  {
    if a == [] {
      assert a + b == b;
    } else {
      AccessesConcat(a[1..], b);
      TailOfConcat(a, b);
      if a[0].Mem? { Assoc([a[0].access], Accesses(a[1..]), Accesses(b)); }
    }
  }

  lemma BodiesConcat(a: seq<MemOp>, b: seq<MemOp>)
    ensures Bodies(a + b) == Bodies(a) + Bodies(b)
  {
  }

  lemma {:induction false} NopsHoldNoAccess(ops: seq<MemOp>)
    ensures Accesses(Bodies(WithoutNops(ops))) == Accesses(Bodies(ops))
    ensures forall op | op in WithoutNops(ops) :: op in ops
  {
    if ops != [] {
      NopsHoldNoAccess(ops[1..]);
      var rest := WithoutNops(ops[1..]);
      if ops[0].body.Mem? {
        assert Bodies([ops[0]] + rest)[1..] == Bodies(rest);
      }
      assert Bodies(ops)[1..] == Bodies(ops[1..]);
    }
  }

  // ----- One thread -----

  function Held(th: Thread): seq<Access> {
    if th.held == None then [] else [th.held.value.access]
  }

  /** The operations a thread has read and not committed, in program order. */
  function Pending(th: Thread): seq<Access> {
    Accesses(Bodies(th.issued) + Bodies(th.replay) + th.slots) + Held(th)
  }

  predicate Ascending(ops: seq<MemOp>) {
    forall i, j | 0 <= i < j < |ops| :: ops[i].uid < ops[j].uid
  }

  /** A kill moves the young end of the issued list to the front of the replay list and nothing
      else: issued ++ replay stays as it was. */
  lemma KillKeepsOrder(th: Thread, uid: nat, killMe: bool)
    requires Ascending(th.issued)
    ensures var k := Kill(th, uid, killMe);
      && k.issued + k.replay == th.issued + th.replay && k.issued <= th.issued
      && k == th.(issued := k.issued, replay := k.replay)
      && (forall i | 0 <= i < |th.issued| ::
            i < |k.issued| <==> th.issued[i].uid < uid || (th.issued[i].uid == uid && !killMe))
  {
    var n := Kept(th.issued, uid);
    var t := CopyToReplay(th, uid);
    assert th.issued[..n] + (th.issued[n..] + th.replay) == th.issued + th.replay;
    var m := Find(t.issued, uid);
    if killMe && n > 0 && t.issued[n - 1].uid == uid {
      assert t.issued[..n - 1] + ([t.issued[n - 1]] + t.replay) == t.issued + t.replay;
    } else if m < |t.issued| {
      assert t.issued[m].uid < t.issued[n - 1].uid || m == n - 1;
    }
  }

  lemma KillKeepsPending(th: Thread, uid: nat, killMe: bool)
    requires Ascending(th.issued)
    ensures Pending(Kill(th, uid, killMe)) == Pending(th)
  {
    KillKeepsOrder(th, uid, killMe);
    var k := Kill(th, uid, killMe);
    BodiesConcat(k.issued, k.replay);
    BodiesConcat(th.issued, th.replay);
  }

  /** In ascending order the removal loop is safe exactly when it finds something to stop at first. */
  lemma KillSafeExactly(issued: seq<MemOp>, uid: nat)
    requires Ascending(issued)
    ensures KillSafe(issued, uid) <==> issued == [] || issued[0].uid <= uid
    ensures (exists op :: op in issued && op.uid == uid) ==> KillSafe(issued, uid)
  {
    if i :| 0 <= i < |issued| && issued[i].uid <= uid {
      assert issued[0].uid <= issued[i].uid;
    }
  }

  /** A commit is in order exactly when only NOPs stand in front; it takes those along. */
  lemma {:induction false} CommitInOrder(issued: seq<MemOp>, uid: nat)
    ensures var n := Find(issued, uid);
      && (CommitFrom(issued, uid) != None <==> forall i | 0 <= i < n :: !issued[i].body.Mem?)
      && (CommitFrom(issued, uid) != None ==>
            CommitFrom(issued, uid).value ==
            if n < |issued| then (issued[n + 1..], Some(issued[n].body)) else ([], None))
  {
    if issued != [] && issued[0].uid != uid {
      CommitInOrder(issued[1..], uid);
      var n, rest := Find(issued, uid), issued[1..];
      assert n == 1 + Find(rest, uid);
      if issued[0].body.Mem? {
        assert !(forall i | 0 <= i < n :: !issued[i].body.Mem?);
      } else {
        assert (forall i | 0 <= i < n :: !issued[i].body.Mem?) <==>
               (forall i | 0 <= i < n - 1 :: !rest[i].body.Mem?) by {
          if forall i | 0 <= i < n - 1 :: !rest[i].body.Mem? {
            forall i | 0 <= i < n ensures !issued[i].body.Mem? {
              if i > 0 { assert issued[i] == rest[i - 1]; }
            }
          } else {
            var i :| 0 <= i < n - 1 && rest[i].body.Mem?;
            assert issued[i + 1].body.Mem?;
          }
        }
      }
    }
  }

  function DoneAccess(done: Option<Body>): seq<Access> {
    if done != None && done.value.Mem? then [done.value.access] else []
  }

  lemma {:induction false} CommitTakesOldest(issued: seq<MemOp>, uid: nat)
    requires CommitFrom(issued, uid) != None
    ensures var (left, done) := CommitFrom(issued, uid).value;
            Accesses(Bodies(issued)) == DoneAccess(done) + Accesses(Bodies(left))
    ensures var (left, _) := CommitFrom(issued, uid).value;
            |left| <= |issued| && left == issued[|issued| - |left|..]
  {
    if issued != [] {
      assert Bodies(issued)[1..] == Bodies(issued[1..]);
      if issued[0].uid != uid { CommitTakesOldest(issued[1..], uid); }
    }
  }

  lemma PendingInParts(th: Thread)
    ensures Pending(th) == Accesses(Bodies(th.issued)) + (Accesses(Bodies(th.replay)) + Accesses(th.slots) + Held(th))
  {
    AccessesConcat(Bodies(th.issued) + Bodies(th.replay), th.slots);
    AccessesConcat(Bodies(th.issued), Bodies(th.replay));
  }

  lemma CommitPending(th: Thread, uid: nat)
    requires CommitFrom(th.issued, uid) != None
    ensures Pending(th) == DoneAccess(CommitFrom(th.issued, uid).value.1) + Pending(Commit(th, uid))
  {
    hide Accesses, Bodies, CommitFrom, Pending, DoneAccess;
    CommitTakesOldest(th.issued, uid);
    PendingInParts(th);
    PendingInParts(Commit(th, uid));
    var (left, done) := CommitFrom(th.issued, uid).value;
    var rest := Accesses(Bodies(th.replay)) + Accesses(th.slots) + Held(th);
    assert DoneAccess(done) + Accesses(Bodies(left)) + rest == DoneAccess(done) + (Accesses(Bodies(left)) + rest);
  }

  /** Every waiting operation read and let go has had its wait met. */
  predicate Released(th: Thread, counts: seq<nat>) {
    forall j | 0 <= j < th.pos <= |th.trace| && th.trace[j].Wait? && (th.held == None || j < th.pos - 1) ::
      th.trace[j].thread < |counts| && counts[th.trace[j].thread] >= th.trace[j].inst
  }

  predicate SlotEffect(th: Thread, u: Thread, b: Body) {
    && u == th.(pos := u.pos, held := u.held) && th.pos <= u.pos <= |th.trace|
    && Accesses([b]) + Held(u) == Held(th) + AccessesIn(th.trace[th.pos..u.pos])
  }

  /** A slot takes the held operation, or the next one in the trace, or stays empty; and it lets a
      waiting one go only when its wait is met. */
  lemma SlotKeeps(th: Thread, counts: seq<nat>, i: nat, eof: bool)
    requires WellFormed(th, |counts|)
    ensures var (u, b, e) := Slot(th, counts, i, eof);
      && WellFormed(u, |counts|) && SlotEffect(th, u, b)
      && (Released(th, counts) ==> Released(u, counts))
      && (e && !eof ==> u.pos == |u.trace| && u.held == None && u == th)
      && (eof ==> u == th && !b.Mem?) && (th.stopped ==> u == th && !b.Mem?)
  {
    var (u, b, e) := Slot(th, counts, i, eof);
    if u.pos == th.pos {
      assert th.trace[th.pos..u.pos] == [];
    } else {
      assert th.trace[th.pos..u.pos] == [th.trace[th.pos]];
    }
  }

  /** The line a slot has in hand: the one held back, or else the next of the trace. */
  function InHand(th: Thread): Option<Line> {
    if th.held != None then th.held
    else if th.pos < |th.trace| then Some(th.trace[th.pos])
    else None
  }

  /** A line that does not wait, or whose thread has got as far as it waits for. */
  predicate Due(line: Line, counts: seq<nat>) {
    line.Wait? ==> line.thread < |counts| && line.inst <= counts[line.thread]
  }

  /** While the thread runs, the line in hand leaves in this slot exactly when it is due; else it is
      held. A slot stays empty only after the end, for a stopped thread, or for an unmet wait. */
  lemma SlotExactly(th: Thread, counts: seq<nat>, i: nat, eof: bool)
    requires WellFormed(th, |counts|)
    ensures var (u, b, e) := Slot(th, counts, i, eof);
      var line, runs := InHand(th), !eof && !th.stopped;
      && (b.Mem? <==> runs && line != None && Due(line.value, counts))
      && (if b.Mem? then b.access == line.value.access && u.held == None else b == NopM)
      && (runs && !b.Mem? ==> u.held == line)
      && (runs && line == None ==> u.pos == |u.trace|)
      && (!runs ==> u == th)
      && (e <==> eof || (runs && line == None && i == 0))
  {
  }

  /** Of a thread that runs, a bundle leaves an operation held only if its wait is unmet; and without
      such a wait a slot of it is empty only because the trace is read out. */
  lemma BundleExactly(th: Thread, counts: seq<nat>)
    requires WellFormed(th, |counts|)
    ensures var (u, eof) := MakeBundle(th, counts);
      && |u.slots| == 3 && u.slots[2] == NopI && u.trace == th.trace
      && (eof <==> !th.stopped && InHand(th) == None)
      && (!th.stopped && u.held != None ==> !Due(u.held.value, counts))
      && (forall k | 0 <= k < 2 && !u.slots[k].Mem? ::
            u.slots[k] == NopM && (th.stopped || u.held != None || u.pos == |u.trace|))
      && (!th.stopped && InHand(th) != None && Due(InHand(th).value, counts) ==>
            u.slots[0] == Mem(InHand(th).value.access))
  {
    hide Slot, Due;
    var (t0, b0, e0) := Slot(th, counts, 0, false);
    SlotExactly(th, counts, 0, false);
    SlotKeeps(th, counts, 0, false);
    SlotExactly(t0, counts, 1, e0);
    SlotKeeps(t0, counts, 1, e0);
  }

  /** A thread that runs on stops exactly when it asks for a bundle with its trace read out and no
      memory operation in flight. */
  lemma StopsExactly(th: Thread, counts: seq<nat>, uid: nat)
    requires WellFormed(th, |counts|)
    ensures Fetch(th, counts, uid).stopped <==>
            th.stopped || (th.replay == [] && th.slots == [] && InHand(th) == None
                           && forall op | op in th.issued :: !op.body.Mem?)
  {
    if th.replay == [] && th.slots == [] {
      BundleExactly(th, counts);
      BundleOrder(th, counts);
      NoMemLeft(th.issued);
    }
  }

  lemma {:induction false} NoMemLeft(ops: seq<MemOp>)
    ensures WithoutNops(ops) == [] <==> forall op | op in ops :: !op.body.Mem?
  {
    if ops != [] {
      NoMemLeft(ops[1..]);
      assert forall op :: op in ops <==> op == ops[0] || op in ops[1..];
    }
  }

  lemma AccessesInConcat(a: seq<Line>, b: seq<Line>)
    ensures AccessesIn(a + b) == AccessesIn(a) + AccessesIn(b)
  {
  }

  lemma SlotAccesses(b0: Body, b1: Body)
    ensures Accesses([b0, b1, NopI]) == Accesses([b0]) + Accesses([b1])
  {
    assert [b0, b1, NopI] == [b0] + ([b1] + [NopI]);
    AccessesConcat([b0], [b1] + [NopI]);
    AccessesConcat([b1], [NopI]);
    assert Accesses([NopI]) == [];
  }

  /** Two slots in a row: what the first leaves held is where the second starts. */
  lemma Chain<T>(h: seq<T>, r0: seq<T>, x0: seq<T>, h0: seq<T>, r1: seq<T>, x1: seq<T>, h1: seq<T>)
    requires x0 + h0 == h + r0 && x1 + h1 == h0 + r1
    ensures x0 + x1 + h1 == h + (r0 + r1)
  {
    assert x0 + x1 + h1 == x0 + (x1 + h1);
    assert x0 + (h0 + r1) == (x0 + h0) + r1;
    assert h + (r0 + r1) == (h + r0) + r1;
  }

  lemma TwoSlots(th: Thread, t0: Thread, b0: Body, t1: Thread, b1: Body)
    requires SlotEffect(th, t0, b0) && SlotEffect(t0, t1, b1)
    ensures t1 == th.(pos := t1.pos, held := t1.held) && th.pos <= t1.pos <= |th.trace|
    ensures Accesses([b0, b1, NopI]) + Held(t1) == Held(th) + AccessesIn(th.trace[th.pos..t1.pos])
  {
    assert th.trace[th.pos..t1.pos] == th.trace[th.pos..t0.pos] + th.trace[t0.pos..t1.pos];
    AccessesInConcat(th.trace[th.pos..t0.pos], th.trace[t0.pos..t1.pos]);
    SlotAccesses(b0, b1);
    Chain(Held(th), AccessesIn(th.trace[th.pos..t0.pos]), Accesses([b0]), Held(t0),
          AccessesIn(th.trace[t0.pos..t1.pos]), Accesses([b1]), Held(t1));
  }

  /** A bundle takes the operations next in program order. */
  lemma BundleOrder(th: Thread, counts: seq<nat>)
    requires WellFormed(th, |counts|)
    ensures var u := MakeBundle(th, counts).0;
      && u == th.(pos := u.pos, held := u.held, slots := u.slots) && th.pos <= u.pos <= |th.trace| && |u.slots| == 3
      && Accesses(u.slots) + Held(u) == Held(th) + AccessesIn(th.trace[th.pos..u.pos])
  {
    var (t0, b0, e0) := Slot(th, counts, 0, false);
    var (t1, b1, e1) := Slot(t0, counts, 1, e0);
    SlotKeeps(th, counts, 0, false);
    SlotKeeps(t0, counts, 1, e0);
    TwoSlots(th, t0, b0, t1, b1);
  }

  lemma BundleReleases(th: Thread, counts: seq<nat>)
    requires WellFormed(th, |counts|)
    ensures var u := MakeBundle(th, counts).0;
            WellFormed(u, |counts|) && (Released(th, counts) ==> Released(u, counts))
  {
    hide Slot;
    var (t0, b0, e0) := Slot(th, counts, 0, false);
    SlotKeeps(th, counts, 0, false);
    SlotKeeps(t0, counts, 1, e0);
  }

  /** Once the trace has ended, or the thread has stopped, a bundle is empty. */
  lemma BundleEnds(th: Thread, counts: seq<nat>)
    requires WellFormed(th, |counts|)
    ensures var (u, eof) := MakeBundle(th, counts);
      && (eof ==> u.pos == |u.trace| && u.held == None && Accesses(u.slots) == [])
      && (th.stopped ==> u.pos == th.pos && u.held == th.held && Accesses(u.slots) == [])
  {
    var (t0, b0, e0) := Slot(th, counts, 0, false);
    var (t1, b1, e1) := Slot(t0, counts, 1, e0);
    SlotKeeps(th, counts, 0, false);
    SlotKeeps(t0, counts, 1, e0);
    SlotAccesses(b0, b1);
  }

  lemma WindOrder(th: Thread)
    ensures Pending(Wind(th)) == Pending(th)
  {
    PendingInParts(th);
    PendingInParts(Wind(th));
    NopsHoldNoAccess(th.issued);
  }

  lemma Fill<T>(a: seq<T>, s: seq<T>, h0: seq<T>, r: seq<T>, h1: seq<T>)
    requires s + h1 == h0 + r
    ensures a + ([] + s + h1) == a + ([] + [] + h0) + r
  {
    assert [] + s + h1 == s + h1 && [] + [] + h0 == h0;
    assert a + (h0 + r) == a + h0 + r;
  }

  lemma FilledOrder(th: Thread, t: Thread)
    requires th.replay == [] && th.slots == [] && th.pos <= t.pos <= |th.trace|
    requires t == th.(pos := t.pos, held := t.held, slots := t.slots)
    requires Accesses(t.slots) + Held(t) == Held(th) + AccessesIn(th.trace[th.pos..t.pos])
    ensures Pending(t) == Pending(th) + AccessesIn(th.trace[th.pos..t.pos])
  {
    PendingInParts(th);
    PendingInParts(t);
    assert Accesses(Bodies([])) == [];
    Fill(Accesses(Bodies(th.issued)), Accesses(t.slots), Held(th), AccessesIn(th.trace[th.pos..t.pos]), Held(t));
  }

  lemma RefillOrder(th: Thread, counts: seq<nat>)
    requires WellFormed(th, |counts|) && th.replay == [] && th.slots == []
    ensures var u := Refill(th, counts);
      && u.trace == th.trace && u.count == th.count && u.replay == [] && th.pos <= u.pos <= |th.trace|
      && Pending(u) == Pending(th) + AccessesIn(th.trace[th.pos..u.pos])
  {
    BundleOrder(th, counts);
    var t := MakeBundle(th, counts).0;
    FilledOrder(th, t);
    WindOrder(t);
  }

  /** One operation, NOP or not, goes over to the issued ones under its uid; replayed ones go first. */
  lemma HandOutOrder(th: Thread, uid: nat)
    requires th.replay != [] || th.slots != []
    ensures var u := HandOut(th, uid);
      && Pending(u) == Pending(th)
      && Bodies(u.issued) + Bodies(u.replay) + u.slots == Bodies(th.issued) + Bodies(th.replay) + th.slots
      && |u.issued| == |th.issued| + 1 && u.issued[..|th.issued|] == th.issued && u.issued[|th.issued|].uid == uid
      && u == th.(issued := u.issued, replay := u.replay, slots := u.slots)
      && (if th.replay != [] then u.slots == th.slots && u.replay == th.replay[1..] else u.replay == [])
  {
    var u := HandOut(th, uid);
    var last := u.issued[|th.issued|];
    BodiesConcat(th.issued, [last]);
    assert Bodies([last]) == [last.body];
    assert Bodies(th.replay) + th.slots == [last.body] + (Bodies(u.replay) + u.slots);
    Assoc(Bodies(th.issued), Bodies(th.replay), th.slots);
    Assoc(Bodies(u.issued), Bodies(u.replay), u.slots);
    Assoc(Bodies(th.issued), [last.body], Bodies(u.replay) + u.slots);
  }

  /** Fetching hands on what is pending, and reads on in the trace in order. */
  lemma FetchOrder(th: Thread, counts: seq<nat>, uid: nat)
    requires WellFormed(th, |counts|)
    ensures var u := Fetch(th, counts, uid);
      && th.pos <= u.pos <= |th.trace| && u.trace == th.trace && u.count == th.count
      && Pending(u) == Pending(th) + AccessesIn(th.trace[th.pos..u.pos])
  {
    if th.replay != [] || th.slots != [] {
      HandOutOrder(th, uid);
    } else {
      RefillOrder(th, counts);
      HandOutOrder(Refill(th, counts), uid);
    }
  }

  lemma FetchWellFormed(th: Thread, counts: seq<nat>, uid: nat)
    requires WellFormed(th, |counts|)
    ensures WellFormed(Fetch(th, counts, uid), |counts|)
  {
    if th.replay == [] && th.slots == [] {
      BundleReleases(th, counts);
    }
  }

  lemma WithinTrace(th: Thread, nThreads: nat)
    requires WellFormed(th, nThreads)
    ensures th.pos <= |th.trace|
  {
  }

  lemma KillWellFormed(th: Thread, nThreads: nat, uid: nat, killMe: bool)
    requires WellFormed(th, nThreads)
    ensures WellFormed(Kill(th, uid, killMe), nThreads)
  {
  }

  lemma KeptOfLast(issued: seq<MemOp>, uid: nat)
    requires issued != []
    ensures Kept(issued, uid) ==
            if issued[|issued| - 1].uid > uid then Kept(issued[..|issued| - 1], uid) else |issued|
    ensures Kept([], uid) == 0
  {
  }

  lemma KeptIsSafe(issued: seq<MemOp>, uid: nat)
    ensures KillSafe(issued, uid) <==> issued == [] || Kept(issued, uid) > 0
  {
    var n := Kept(issued, uid);
    if n > 0 {
      assert issued[n - 1].uid <= uid;
    }
  }
}
