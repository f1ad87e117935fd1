/**
 How well uids count instructions in the SoftSDV replay buffer. The feeder reads
 the number of unfetched instructions, and the number a rewind steps back over,
 off differences of uids (feeders/inst/softsdv/softsdv_replay.h:522-556).
 */
module ReplayCounting {
  import opened Sequences
  import opened Wrappers
  import opened ReplaySpec

  datatype Op =
    | Arrive(instr: SdvInstr)
    | Place(k: nat)
    | Retire(k: nat)
    | Drop(k: nat)
    | Fetch
    | FetchReal
    | Rewind(k: nat)

  predicate Enabled(b: Replay, op: Op) {
    WellFormed(b) &&
    match op
    case Arrive(_) => true
    case Place(k) => k < |b.entries|
    case Retire(k) => k < b.cursor && InOrder(b, k)
    case Drop(k) => k < |b.entries|
    case Fetch => true
    case FetchReal => true
    case Rewind(k) => k < |b.entries|
  }

  function Next(b: Replay, op: Op): (r: Replay)
    requires Enabled(b, op)
    ensures WellFormed(r)
  {
    match op
    case Arrive(instr) => Add(b, instr)
    case Place(k) => AddPlaceHolder(b, k)
    case Retire(k) => Commit(b, k)
    case Drop(k) => Delete(b, k)
    case Fetch => b.(cursor := if b.cursor == |b.entries| then b.cursor else b.cursor + 1)
    case FetchReal =>
      var r := NextReal(b.entries, b.cursor);
      b.(cursor := if r == |b.entries| then b.cursor else r + 1)
    case Rewind(k) => b.(cursor := k)
  }

  /** The buffer after a run, each operation enabled where it happens. */
  function Run(b: Replay, ops: seq<Op>): (r: Option<Replay>)
    requires WellFormed(b)
    ensures r != None ==> WellFormed(r.value)
    decreases |ops|
  {
    if ops == [] then Some(b)
    else if Enabled(b, ops[0]) then Run(Next(b, ops[0]), ops[1..])
    else None
  }

  const START := Replay([], 0, 0)

  /** Uids strictly increase along the list and the tail carries the latest. */
  predicate Ascending(b: Replay) {
    && WellFormed(b)
    && (forall i, j | 0 <= i < j < |b.entries| :: b.entries[i].uid < b.entries[j].uid)
    && (b.entries != [] ==> b.entries[|b.entries| - 1].uid == b.uid)
  }

  /** Uids are the latest |entries| numbers handed out, in order. */
  predicate Consecutive(b: Replay) {
    && WellFormed(b)
    && (forall i | 0 <= i < |b.entries| :: b.entries[i].uid == b.uid - (|b.entries| - 1 - i))
  }

  /** What placeholders leave of the order: whatever stands behind a real instruction is newer. */
  predicate RealsOlder(b: Replay) {
    && WellFormed(b)
    && (forall i | 0 <= i < |b.entries| :: b.entries[i].uid <= b.uid)
    && (forall i, j | 0 <= i < j < |b.entries| :: b.entries[i].uid != b.entries[j].uid)
    && (forall i, j | 0 <= i < j < |b.entries| && !b.entries[i].artificial :: b.entries[i].uid < b.entries[j].uid)
  }

  lemma PlaceKeepsRealsOlder(b: Replay, k: nat)
    requires RealsOlder(b) && k < |b.entries|
    ensures RealsOlder(AddPlaceHolder(b, k))
  {
    var c := AddPlaceHolder(b, k);
    forall i, j | 0 <= i < j < |c.entries|
      ensures c.entries[i].uid != c.entries[j].uid
      ensures !c.entries[i].artificial ==> c.entries[i].uid < c.entries[j].uid
    {
      var i0, j0 := if i > k then i - 1 else i, if j > k then j - 1 else j;
      assert i != k ==> c.entries[i] == b.entries[i0];
      assert j != k ==> c.entries[j] == b.entries[j0];
    }
  }

  lemma DeleteAscends(b: Replay, k: nat)
    requires Ascending(b) && k < |b.entries|
    ensures Ascending(Delete(b, k))
  {
    var c := Delete(b, k);
    forall i | 0 <= i < |c.entries|
      ensures c.entries[i].uid == b.entries[if i + 1 >= k then i + 1 else i].uid
    {
    }
  }

  lemma StepAscends(b: Replay, op: Op)
    requires Ascending(b) && Enabled(b, op) && !op.Place?
    ensures Ascending(Next(b, op))
  {
    if op.Drop? { DeleteAscends(b, op.k); }
  }

  lemma {:induction false} RunAscends(b: Replay, ops: seq<Op>)
    requires Ascending(b) && Run(b, ops) != None && forall op | op in ops :: !op.Place?
    ensures Ascending(Run(b, ops).value)
    decreases |ops|
  {
    if ops != [] {
      assert ops[0] in ops;
      StepAscends(b, ops[0]);
      RunAscends(Next(b, ops[0]), ops[1..]);
    }
  }

  lemma {:induction false} RunConsecutive(b: Replay, ops: seq<Op>)
    requires Consecutive(b) && Run(b, ops) != None && forall op | op in ops :: !op.Place? && !op.Drop?
    ensures Consecutive(Run(b, ops).value)
    decreases |ops|
  {
    if ops != [] {
      assert ops[0] in ops;
      RunConsecutive(Next(b, ops[0]), ops[1..]);
    }
  }

  lemma StepKeepsRealsOlder(b: Replay, op: Op)
    requires RealsOlder(b) && Enabled(b, op) && !op.Drop?
    ensures RealsOlder(Next(b, op))
  {
    if op.Place? { PlaceKeepsRealsOlder(b, op.k); }
  }

  lemma {:induction false} RunKeepsRealsOlder(b: Replay, ops: seq<Op>)
    requires RealsOlder(b) && Run(b, ops) != None && forall op | op in ops :: !op.Drop?
    ensures RealsOlder(Run(b, ops).value)
    decreases |ops|
  {
    if ops != [] {
      assert ops[0] in ops;
      StepKeepsRealsOlder(b, ops[0]);
      RunKeepsRealsOlder(Next(b, ops[0]), ops[1..]);
    }
  }

  lemma {:induction false} AscendsAtLeastByOne(entries: seq<Entry>, i: nat, j: nat)
    requires forall i, j | 0 <= i < j < |entries| :: entries[i].uid < entries[j].uid
    requires i <= j < |entries|
    ensures entries[j].uid - entries[i].uid >= j - i
    decreases j - i
  {
    if i < j {
      AscendsAtLeastByOne(entries, i, j - 1);
    }
  }

  /** Without placeholders the buffer never reports fewer unfetched instructions than there
      are: the feeder can rely on the read-ahead it asks for. */
  lemma NeverUndercounts(ops: seq<Op>, b: Replay)
    requires Run(START, ops) == Some(b) && forall op | op in ops :: !op.Place?
    ensures NUnfetched(b) >= |b.entries| - b.cursor
    ensures NUnfetched(b) == 0 <==> b.cursor == |b.entries|
  {
    RunAscends(START, ops);
    if b.cursor < |b.entries| {
      AscendsAtLeastByOne(b.entries, b.cursor, |b.entries| - 1);
    }
  }

  /** Without deletions either, both counts are exact, except that a rewind from a null cursor
      reports one instruction too few. */
  lemma ExactCounts(ops: seq<Op>, b: Replay)
    requires Run(START, ops) == Some(b) && forall op | op in ops :: !op.Place? && !op.Drop?
    ensures NUnfetched(b) == |b.entries| - b.cursor
    ensures forall k | 0 <= k < |b.entries| ::
      Rewound(b, k) == b.cursor - k - if b.cursor == |b.entries| then 1 else 0
  {
    RunConsecutive(START, ops);
  }

  /** Distinct numbers from `low` to `high` are no more than `high - low + 1`. */
  lemma {:induction false} Pigeonhole(uids: seq<nat>, low: nat, high: nat)
    requires forall i | 0 <= i < |uids| :: low <= uids[i] <= high
    requires forall i, j | 0 <= i < j < |uids| :: uids[i] != uids[j]
    requires low <= high + 1
    ensures |uids| <= high - low + 1
    decreases high + 1 - low
  {
    if uids == [] {
    } else if i :| 0 <= i < |uids| && uids[i] == low {
      Pigeonhole(Without(uids, i), low + 1, high);
    } else {
      assert low <= uids[0] <= high;
      Pigeonhole(uids, low + 1, high);
    }
  }

  /** With placeholders but no deletions the count is still safe while the next instruction to
      fetch is a real one. */
  lemma SafeAtRealCursor(ops: seq<Op>, b: Replay)
    requires Run(START, ops) == Some(b) && forall op | op in ops :: !op.Drop?
    requires b.cursor < |b.entries| && !b.entries[b.cursor].artificial
    ensures NUnfetched(b) >= |b.entries| - b.cursor
  {
    RunKeepsRealsOlder(START, ops);
    var uids := seq(|b.entries| - b.cursor, i requires 0 <= i < |b.entries| - b.cursor => b.entries[b.cursor + i].uid);
    Pigeonhole(uids, b.entries[b.cursor].uid, b.uid);
  }

  function Plain(n: nat): SdvInstr {
    SdvInstr(n, 0, false, false, None)
  }

  /** ... and not at a placeholder: here two instructions wait and one is reported. */
  lemma UndercountsAtPlaceholder()
    ensures exists ops: seq<Op> ::
      && (forall op | op in ops :: !op.Drop?) && Run(START, ops) != None
      && var b := Run(START, ops).value;
         b.cursor < |b.entries| && NUnfetched(b) < |b.entries| - b.cursor
  {
    var ops := [Arrive(Plain(1)), Fetch, Place(0), Rewind(0)];
    var b1 := Next(START, ops[0]);
    var b2 := Next(b1, ops[1]);
    var b3 := Next(b2, ops[2]);
    var b4 := Next(b3, ops[3]);
    assert ops[1..][1..] == ops[2..] && ops[2..][1..] == [Rewind(0)];
    assert Run(b3, [Rewind(0)]) == Some(b4);
    assert Run(b1, ops[1..]) == Run(b2, ops[2..]) == Some(b4);
    assert Run(START, ops) == Some(b4);
    assert NUnfetched(b4) == 1 && |b4.entries| == 2;
  }

  /** A buffer can be asked for an in-order commit of an instruction behind the cursor, which leaves
      the cursor on a freed node: here after a rewind to a placeholder, which commits implicitly. */
  lemma CommitBehindCursor(instr: SdvInstr)
    ensures var b := Run(START, [Arrive(instr), Place(0), Rewind(0)]);
            b != None && InOrder(b.value, 1) && b.value.cursor < 1
  {
    var b1 := Next(START, Arrive(instr));
    var b2 := Next(b1, Place(0));
    var b3 := Next(b2, Rewind(0));
    assert Run(b2, [Rewind(0)]) == Some(b3);
    assert [Place(0), Rewind(0)][1..] == [Rewind(0)];
    assert Run(b1, [Place(0), Rewind(0)]) == Some(b3);
    assert [Arrive(instr), Place(0), Rewind(0)][1..] == [Place(0), Rewind(0)];
  }

  // ----- What the count misses, and what it counts too much -----

  ghost function Range(low: nat, high: nat): (r: set<nat>)
    requires low <= high + 1
    ensures |r| == high + 1 - low && forall n :: n in r <==> low <= n <= high
    decreases high + 1 - low
  {
    if low > high then {} else {low} + Range(low + 1, high)
  }

  /** The uids of the entries from the cursor on. */
  ghost function Behind(b: Replay): (r: set<nat>)
    requires WellFormed(b)
    ensures forall n :: n in r <==> exists i :: b.cursor <= i < |b.entries| && b.entries[i].uid == n
  {
    set i | b.cursor <= i < |b.entries| :: b.entries[i].uid
  }

  lemma {:induction false} DistinctUids(entries: seq<Entry>, i: nat, uids: set<nat>)
    requires forall j, k | 0 <= j < k < |entries| :: entries[j].uid != entries[k].uid
    requires i <= |entries| && forall n :: n in uids <==> exists j :: i <= j < |entries| && entries[j].uid == n
    ensures |uids| == |entries| - i
    decreases |entries| - i
  {
    if i < |entries| {
      var u := entries[i].uid;
      assert u in uids;
      forall n ensures n in uids - {u} <==> exists j :: i + 1 <= j < |entries| && entries[j].uid == n {
      }
      DistinctUids(entries, i + 1, uids - {u});
    } else if n :| n in uids {
      assert false;
    }
  }

  lemma SetSplit(a: set<nat>, b: set<nat>)
    ensures |a| - |b| == |a - b| - |b - a|
  {
    assert a == (a - b) + a * b && b == (b - a) + a * b;
  }

  /** Without deletions, the count is off by the numbers handed out since the cursor's that do not
      stand from the cursor on, less the older ones that do; so it is short exactly when there are
      fewer of the former. */
  lemma CountAccounts(ops: seq<Op>, b: Replay)
    requires Run(START, ops) == Some(b) && forall op | op in ops :: !op.Drop?
    requires b.cursor < |b.entries|
    ensures b.entries[b.cursor].uid <= b.uid
    ensures var newer := Range(b.entries[b.cursor].uid, b.uid);
            && NUnfetched(b) - (|b.entries| - b.cursor) == |newer - Behind(b)| - |Behind(b) - newer|
            && (NUnfetched(b) < |b.entries| - b.cursor <==> |newer - Behind(b)| < |Behind(b) - newer|)
            && forall n :: n in Behind(b) - newer <==> n in Behind(b) && n < b.entries[b.cursor].uid
  {
    RunKeepsRealsOlder(START, ops);
    var newer := Range(b.entries[b.cursor].uid, b.uid);
    DistinctUids(b.entries, b.cursor, Behind(b));
    SetSplit(newer, Behind(b));
  }

  // ----- The same in numbers a caller can keep -----

  /** The operation leaves the entry at `pos` in the buffer, with its uid. */
  predicate Keeps(op: Op, pos: nat) {
    match op
    case Retire(k) => k < pos
    case Drop(k) => k != pos && k != pos + 1
    case _ => true
  }

  function Moved(pos: nat, op: Op): nat
    requires Keeps(op, pos)
  {
    match op
    case Place(k) => if k <= pos then pos + 1 else pos
    case Retire(k) => pos - (k + 1)
    case Drop(k) => if k < pos then pos - 1 else pos
    case _ => pos
  }

  /** Where the entry at `pos` stands after the operations, if each of them keeps it. */
  function PosAfter(pos: nat, ops: seq<Op>): Option<nat>
    decreases |ops|
  {
    if ops == [] then Some(pos)
    else if !Keeps(ops[0], pos) then None
    else PosAfter(Moved(pos, ops[0]), ops[1..])
  }

  /** How many of the operations put a placeholder in front of the entry or delete one behind it. */
  function Extras(pos: nat, ops: seq<Op>): nat
    decreases |ops|
  {
    if ops == [] || !Keeps(ops[0], pos) then 0
    else
      (if (ops[0].Place? && ops[0].k <= pos) || (ops[0].Drop? && ops[0].k > pos) then 1 else 0) +
      Extras(Moved(pos, ops[0]), ops[1..])
  }

  lemma StepOffset(b: Replay, pos: nat, op: Op)
    requires WellFormed(b) && pos < |b.entries| && Enabled(b, op) && Keeps(op, pos)
    ensures var c, q := Next(b, op), Moved(pos, op);
            && q < |c.entries| && c.entries[q].uid == b.entries[pos].uid
            && c.uid - (|c.entries| - q) == b.uid - (|b.entries| - pos) + Extras(pos, [op])
  {
  }

  /** What each operation does to the number handed out since an entry, less the entries behind it. */
  lemma {:induction false} Offset(b: Replay, pos: nat, ops: seq<Op>)
    requires WellFormed(b) && pos < |b.entries| && Run(b, ops) != None && PosAfter(pos, ops) != None
    ensures var c, q := Run(b, ops).value, PosAfter(pos, ops).value;
            && q < |c.entries| && c.entries[q].uid == b.entries[pos].uid
            && c.uid - (|c.entries| - q) == b.uid - (|b.entries| - pos) + Extras(pos, ops)
    decreases |ops|
  {
    if ops != [] {
      StepOffset(b, pos, ops[0]);
      hide Next, Enabled, Keeps, Moved;
      Offset(Next(b, ops[0]), Moved(pos, ops[0]), ops[1..]);
      assert [ops[0]][1..] == [];
    }
  }

  predicate Puts(op: Op) {
    op.Arrive? || op.Place?
  }

  /** Where the new entry goes, and how many entries are then behind it. */
  function PutAt(b: Replay, op: Op): nat
    requires Enabled(b, op) && Puts(op)
  {
    if op.Place? then op.k else |b.entries|
  }

  function FoundBehind(b: Replay, op: Op): nat
    requires Enabled(b, op) && Puts(op)
  {
    |b.entries| - PutAt(b, op)
  }

  /** When the entry put in by `op` is next to be fetched, the count is off by the placeholders that
      went in front of it and the instructions deleted behind it since, less those it found behind
      it. So it is short exactly when there are fewer of the former than of the latter, and never
      at an instruction from SoftSDV, which finds none. */
  lemma CountSince(b0: Replay, op: Op, ops: seq<Op>)
    requires Enabled(b0, op) && Puts(op) && Run(Next(b0, op), ops) != None
    requires PosAfter(PutAt(b0, op), ops) == Some(Run(Next(b0, op), ops).value.cursor)
    ensures var b := Run(Next(b0, op), ops).value;
            var extras, found := Extras(PutAt(b0, op), ops), FoundBehind(b0, op);
            && NUnfetched(b) - (|b.entries| - b.cursor) == extras - found
            && (NUnfetched(b) < |b.entries| - b.cursor <==> extras < found)
            && (op.Arrive? ==> found == 0)
  {
    Offset(Next(b0, op), PutAt(b0, op), ops);
  }

  /** The position that an operation, deletions aside, moves to `pos`. */
  function Before(pos: nat, op: Op): nat {
    match op
    case Place(k) => if k < pos then pos - 1 else pos
    case Retire(k) => pos + (k + 1)
    case _ => pos
  }

  /** Every entry is an old one or one put in on the way, and kept since. */
  lemma {:induction false} Origin(b: Replay, ops: seq<Op>, q: nat) returns (i: nat)
    requires WellFormed(b) && Run(b, ops) != None && q < |Run(b, ops).value.entries|
    requires forall op | op in ops :: !op.Drop?
    ensures i <= |ops|
    ensures i == |ops| ==> exists pos: nat :: pos < |b.entries| && PosAfter(pos, ops) == Some(q)
    ensures i < |ops| ==>
              && Puts(ops[i]) && Run(b, ops[..i]) != None
              && var b0 := Run(b, ops[..i]).value;
              && Enabled(b0, ops[i]) && Run(Next(b0, ops[i]), ops[i + 1..]) == Run(b, ops)
              && PosAfter(PutAt(b0, ops[i]), ops[i + 1..]) == Some(q)
    decreases |ops|
  {
    if ops == [] {
      i := 0;
      assert PosAfter(q, ops) == Some(q);
    } else {
      var op, rest := ops[0], ops[1..];
      var next := Next(b, op);
      var j := Origin(next, rest, q);
      if j < |rest| {
        i := j + 1;
        assert ops[..i][1..] == rest[..j] && ops[i + 1..] == rest[j + 1..];
      } else {
        var pos: nat :| pos < |next.entries| && PosAfter(pos, rest) == Some(q);
        if Puts(op) && pos == PutAt(b, op) {
          i := 0;
        } else {
          i := |ops|;
          var from := Before(pos, op);
          assert from < |b.entries| && Keeps(op, from) && Moved(from, op) == pos;
          assert PosAfter(from, ops) == Some(q);
        }
      }
    }
  }

  /** So over any run without deletions the count at an entry is explained by the operation that put
      the entry in and the ones since. */
  lemma CountExplained(ops: seq<Op>, b: Replay) returns (i: nat)
    requires Run(START, ops) == Some(b) && forall op | op in ops :: !op.Drop?
    requires b.cursor < |b.entries|
    ensures i < |ops| && Puts(ops[i]) && Run(START, ops[..i]) != None
    ensures var b0 := Run(START, ops[..i]).value;
            && Enabled(b0, ops[i])
            && PosAfter(PutAt(b0, ops[i]), ops[i + 1..]) == Some(b.cursor)
            && NUnfetched(b) - (|b.entries| - b.cursor) ==
               Extras(PutAt(b0, ops[i]), ops[i + 1..]) - FoundBehind(b0, ops[i])
  {
    i := Origin(START, ops, b.cursor);
    CountSince(Run(START, ops[..i]).value, ops[i], ops[i + 1..]);
  }
}
