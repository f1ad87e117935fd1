/**
 Bookkeeping of register-value records in the SoftSDV replay buffer
 (feeders/inst/softsdv/softsdv_replay.cpp:135-153 and 336-410), on values.
 */
module RegisterRecords {
  import opened Wrappers
  import opened ReplaySpec
  import opened Sequences

  /** A copy of a register-value message. `storage` identifies the allocated record it occupies;
      recycling a record overwrites the rest. */
  datatype RegInfo = RegInfo(storage: nat, uid: nat, values: seq<int>)

  /** The records themselves, in order. */
  function Kept(held: seq<Option<RegInfo>>): seq<RegInfo> {
    if held == [] then []
    else if held[0] == None then Kept(held[1..])
    else [held[0].value] + Kept(held[1..])
  }

  lemma {:induction false} KeptConcat(a: seq<Option<RegInfo>>, b: seq<Option<RegInfo>>)
    ensures Kept(a + b) == Kept(a) + Kept(b)
  {
    if a == [] {
      assert a + b == b;
    } else {
      KeptConcat(a[1..], b);
      TailOfConcat(a, b);
      if a[0] != None { Assoc([a[0].value], Kept(a[1..]), Kept(b)); }
    }
  }

  lemma KeptOne(r: Option<RegInfo>, records: seq<RegInfo>)
    ensures Kept([r]) + records == if r == None then records else [r.value] + records
  {
  }

  /** How many of the records occupy storage `id`. */
  function Count(records: seq<RegInfo>, id: nat): nat {
    if records == [] then 0 else (if records[0].storage == id then 1 else 0) + Count(records[1..], id)
  }

  lemma {:induction false} CountConcat(a: seq<RegInfo>, b: seq<RegInfo>, id: nat)
    ensures Count(a + b, id) == Count(a, id) + Count(b, id)
  {
    if a == [] {
      assert a + b == b;
    } else {
      CountConcat(a[1..], b, id);
      assert (a + b)[1..] == a[1..] + b;
    }
  }

  /** Of the records 0 .. n - 1, each is in exactly one place: pending, unused, or held. */
  ghost predicate Partition(pending: seq<RegInfo>, unused: seq<RegInfo>, held: seq<RegInfo>, n: nat) {
    forall id: nat :: Count(pending, id) + Count(unused, id) + Count(held, id) == if id < n then 1 else 0
  }

  /** Taking the record an instruction names: older pending records go back to the free list. */
  function Take(pending: seq<RegInfo>, unused: seq<RegInfo>, regsUid: nat)
    : (r: (Option<RegInfo>, seq<RegInfo>, seq<RegInfo>))
  {
    if pending == [] then (None, [], unused)
    else if pending[0].uid < regsUid then Take(pending[1..], [pending[0]] + unused, regsUid)
    else (Some(pending[0]), pending[1..], unused)
  }

  /** The position of the first record that is not older, |pending| when there is none. */
  function NotOlder(pending: seq<RegInfo>, regsUid: nat): (k: nat)
    ensures k <= |pending| && (forall i | 0 <= i < k :: pending[i].uid < regsUid)
    ensures k < |pending| ==> regsUid <= pending[k].uid
  {
    if pending == [] || pending[0].uid >= regsUid then 0 else 1 + NotOlder(pending[1..], regsUid)
  }

  /** What is taken is the first record that is not older; those in front of it become free, the latest
      first, and those behind it stay pending. */
  lemma {:induction false} TakeExactly(pending: seq<RegInfo>, unused: seq<RegInfo>, regsUid: nat)
    ensures var (taken, left, back) := Take(pending, unused, regsUid);
      var k := NotOlder(pending, regsUid);
      && taken == (if k < |pending| then Some(pending[k]) else None)
      && left == (if k < |pending| then pending[k + 1..] else [])
      && |back| == k + |unused| && back[k..] == unused
      && forall i | 0 <= i < k :: back[i] == pending[k - 1 - i]
  {
    if pending != [] && pending[0].uid < regsUid {
      var k, more := NotOlder(pending[1..], regsUid), [pending[0]] + unused;
      TakeExactly(pending[1..], more, regsUid);
      var back := Take(pending, unused, regsUid).2;
      assert back[k] == back[k..][0] == more[0] && back[k + 1..] == back[k..][1..];
      assert more[1..] == unused;
    }
  }

  /** The record an instruction needs: none when it names no register values. */
  function TakeFor(pending: seq<RegInfo>, unused: seq<RegInfo>, regsUid: nat)
    : (r: (Option<RegInfo>, seq<RegInfo>, seq<RegInfo>))
  {
    if regsUid == 0 then (None, pending, unused) else Take(pending, unused, regsUid)
  }

  /** The first pending record that is not too old is the one named. */
  predicate NamesPending(pending: seq<RegInfo>, regsUid: nat) {
    var taken := Take(pending, [], regsUid).0;
    taken != None && taken.value.uid == regsUid
  }

  lemma {:induction false} TakeIgnoresUnused(pending: seq<RegInfo>, u: seq<RegInfo>, v: seq<RegInfo>, regsUid: nat)
    ensures Take(pending, u, regsUid).0 == Take(pending, v, regsUid).0
    ensures Take(pending, u, regsUid).1 == Take(pending, v, regsUid).1
  {
    if pending != [] && pending[0].uid < regsUid {
      TakeIgnoresUnused(pending[1..], [pending[0]] + u, [pending[0]] + v, regsUid);
    }
  }

  /** A new message takes over a record from the free list. */
  lemma ReuseRecord(pending: seq<RegInfo>, unused: seq<RegInfo>, held: seq<RegInfo>, n: nat, r: RegInfo)
    requires Partition(pending, unused, held, n) && unused != [] && r.storage == unused[0].storage
    ensures Partition(pending + [r], unused[1..], held, n)
  {
    forall id: nat ensures Count(pending + [r], id) + Count(unused[1..], id) == Count(pending, id) + Count(unused, id) {
      CountConcat(pending, [r], id);
    }
  }

  /** A new message gets a new record. */
  lemma JoinRecord(pending: seq<RegInfo>, unused: seq<RegInfo>, held: seq<RegInfo>, n: nat, r: RegInfo)
    requires Partition(pending, unused, held, n) && r.storage == n
    ensures Partition(pending + [r], unused, held, n + 1)
  {
    forall id: nat ensures Count(pending + [r], id) == Count(pending, id) + if id == n then 1 else 0 {
      CountConcat(pending, [r], id);
    }
  }

  /** Taking a record moves older ones to the free list and the one taken to its instruction. */
  lemma {:induction false} TakeRecord(pending: seq<RegInfo>, unused: seq<RegInfo>, held: seq<RegInfo>, n: nat,
                                      regsUid: nat)
    requires Partition(pending, unused, held, n)
    ensures var (taken, left, back) := Take(pending, unused, regsUid);
            Partition(left, back, held + Kept([taken]), n)
  {
    if pending == [] {
      assert held + Kept([None]) == held;
    } else if pending[0].uid < regsUid {
      assert ([pending[0]] + unused)[1..] == unused;
      TakeRecord(pending[1..], [pending[0]] + unused, held, n, regsUid);
    } else {
      var taken := [pending[0]];
      assert Kept([Some(pending[0])]) == taken;
      forall id: nat ensures Count(held + taken, id) + Count(pending[1..], id) == Count(held, id) + Count(pending, id) {
        CountConcat(held, taken, id);
      }
    }
  }

  lemma KeptMiddle(before: seq<Option<RegInfo>>, r: Option<RegInfo>, after: seq<Option<RegInfo>>)
    ensures Kept(before + [r] + after) == Kept(before) + Kept([r]) + Kept(after)
  {
    KeptConcat(before + [r], after);
    KeptConcat(before, [r]);
  }

  lemma CountMiddle(a: seq<RegInfo>, b: seq<RegInfo>, c: seq<RegInfo>, id: nat)
    ensures Count(a + b + c, id) == Count(a, id) + Count(b, id) + Count(c, id)
  {
    CountConcat(a + b, c, id);
    CountConcat(a, b, id);
  }

  lemma ReleaseRecord(pending: seq<RegInfo>, unused: seq<RegInfo>, before: seq<Option<RegInfo>>,
                      r: Option<RegInfo>, after: seq<Option<RegInfo>>, n: nat)
    requires Partition(pending, unused, Kept(before + [r] + after), n)
    ensures Partition(pending, Kept([r]) + unused, Kept(before + after), n)
  {
    KeptMiddle(before, r, after);
    KeptConcat(before, after);
    forall id: nat
      ensures Count(Kept([r]) + unused, id) + Count(Kept(before + after), id)
              == Count(unused, id) + Count(Kept(before + [r] + after), id)
    {
      CountMiddle(Kept(before), Kept([r]), Kept(after), id);
      CountConcat(Kept(before), Kept(after), id);
      CountConcat(Kept([r]), unused, id);
    }
  }

  /** A node that holds no record changes nothing, wherever it is inserted. */
  lemma KeptInsertNone(held: seq<Option<RegInfo>>, k: nat)
    requires k <= |held|
    ensures Kept(Insert(held, k, None)) == Kept(held)
  {
    SplitAt(held, k);
    KeptMiddle(held[..k], None, held[k..]);
    KeptConcat(held[..k], held[k..]);
    assert Kept(held[..k]) + Kept([None]) == Kept(held[..k]);
  }

  /** A retired instruction's record goes back to the free list. */
  lemma ReleaseAt(pending: seq<RegInfo>, unused: seq<RegInfo>, held: seq<Option<RegInfo>>, k: nat, n: nat)
    requires Partition(pending, unused, Kept(held), n) && k < |held|
    ensures Partition(pending, Kept([held[k]]) + unused, Kept(Without(held, k)), n)
  {
    SplitAround(held, k);
    ReleaseRecord(pending, unused, held[..k], held[k], held[k + 1..], n);
  }

  lemma ReleaseFirst(pending: seq<RegInfo>, unused: seq<RegInfo>, held: seq<Option<RegInfo>>, n: nat)
    requires Partition(pending, unused, Kept(held), n) && held != []
    ensures Partition(pending, Kept([held[0]]) + unused, Kept(held[1..]), n)
  {
    ReleaseAt(pending, unused, held, 0, n);
    assert Without(held, 0) == held[1..];
  }
}
