/**
 When register values and the instructions naming them arrive in the promised
 order, the out-of-order check of the replay buffer never fires
 (feeders/inst/softsdv/softsdv_replay.cpp:135-153).
 */
module RegisterOrder {
  import opened Wrappers
  import opened RegisterRecords

  datatype Arrival = Values(r: RegInfo) | Names(regsUid: nat)

  function Receive(pending: seq<RegInfo>, a: Arrival): seq<RegInfo> {
    match a
    case Values(r) => pending + [r]
    case Names(u) => TakeFor(pending, [], u).1
  }

  /** The pending list after a run of arrivals at an empty buffer. */
  function Pending(arrivals: seq<Arrival>): seq<RegInfo> {
    if arrivals == [] then [] else Receive(Pending(arrivals[..|arrivals| - 1]), arrivals[|arrivals| - 1])
  }

  /** Record uids strictly increase. */
  ghost predicate ValuesAscend(arrivals: seq<Arrival>) {
    forall i, j | 0 <= i < j < |arrivals| && arrivals[i].Values? && arrivals[j].Values? ::
      arrivals[i].r.uid < arrivals[j].r.uid
  }

  /** Nonzero uids named by instructions strictly increase. */
  ghost predicate NamesAscend(arrivals: seq<Arrival>) {
    forall i, j | 0 <= i < j < |arrivals| && arrivals[i].Names? && arrivals[j].Names?
                  && arrivals[i].regsUid != 0 && arrivals[j].regsUid != 0 ::
      arrivals[i].regsUid < arrivals[j].regsUid
  }

  ghost predicate Sorted(pending: seq<RegInfo>) {
    forall i, j | 0 <= i < j < |pending| :: pending[i].uid < pending[j].uid
  }

  /** Newer than everything an instruction has named. */
  ghost predicate Unnamed(arrivals: seq<Arrival>, uid: nat) {
    forall i | 0 <= i < |arrivals| && arrivals[i].Names? :: arrivals[i].regsUid < uid || arrivals[i].regsUid == 0
  }

  /** Pending records all arrived, in uid order, and any record newer than everything named is pending. */
  ghost predicate Tracked(arrivals: seq<Arrival>, pending: seq<RegInfo>) {
    && Sorted(pending)
    && (forall r | r in pending :: Values(r) in arrivals)
    && (forall r | Values(r) in arrivals && Unnamed(arrivals, r.uid) :: r in pending)
  }

  /** An instruction names only records that have arrived. */
  ghost predicate NamedHaveArrived(arrivals: seq<Arrival>) {
    forall j | 0 <= j < |arrivals| && arrivals[j].Names? && arrivals[j].regsUid != 0 ::
      exists i :: 0 <= i < j && arrivals[i].Values? && arrivals[i].r.uid == arrivals[j].regsUid
  }

  ghost predicate Orderly(arrivals: seq<Arrival>) {
    ValuesAscend(arrivals) && NamesAscend(arrivals) && NamedHaveArrived(arrivals)
  }

  /** Taking from a sorted list what it has leaves exactly the newer records. */
  lemma {:induction false} TakeSorted(pending: seq<RegInfo>, unused: seq<RegInfo>, k: nat)
    requires Sorted(pending) && k < |pending|
    ensures var (taken, left, back) := Take(pending, unused, pending[k].uid);
            taken == Some(pending[k]) && left == pending[k + 1..]
  {
    if k > 0 {
      assert pending[0].uid < pending[k].uid;
      TakeSorted(pending[1..], [pending[0]] + unused, k - 1);
    }
  }

  /** The record an instruction names is pending. */
  lemma NamedIsPending(arrivals: seq<Arrival>, pending: seq<RegInfo>, u: nat) returns (k: nat)
    requires Tracked(arrivals, pending) && u != 0 && Orderly(arrivals + [Names(u)])
    ensures k < |pending| && pending[k].uid == u
  {
    var all := arrivals + [Names(u)];
    assert all[|arrivals|] == Names(u);
    var i :| 0 <= i < |arrivals| && all[i].Values? && all[i].r.uid == u;
    forall j | 0 <= j < |arrivals| && arrivals[j].Names? ensures arrivals[j].regsUid < u || arrivals[j].regsUid == 0 {
      assert all[j] == arrivals[j];
    }
    assert arrivals[i] == Values(all[i].r);
    assert Unnamed(arrivals, u);
    k :| 0 <= k < |pending| && pending[k] == all[i].r;
  }

  lemma ValuesTracked(arrivals: seq<Arrival>, pending: seq<RegInfo>, r: RegInfo)
    requires Tracked(arrivals, pending) && Orderly(arrivals + [Values(r)])
    ensures Tracked(arrivals + [Values(r)], pending + [r])
  {
    var all := arrivals + [Values(r)];
    assert all[|arrivals|] == Values(r);
    forall x | x in pending ensures x.uid < r.uid {
      var i :| 0 <= i < |arrivals| && arrivals[i] == Values(x);
      assert all[i] == Values(x);
    }
    forall x | Values(x) in all && Unnamed(all, x.uid) ensures x in pending + [r] {
      UnnamedBefore(arrivals, Values(r), x.uid);
    }
  }

  lemma UnnamedBefore(arrivals: seq<Arrival>, a: Arrival, uid: nat)
    requires Unnamed(arrivals + [a], uid)
    ensures Unnamed(arrivals, uid)
    ensures a.Names? ==> a.regsUid < uid || a.regsUid == 0
  {
    var all := arrivals + [a];
    assert all[|arrivals|] == a;
    forall i | 0 <= i < |arrivals| && arrivals[i].Names? ensures arrivals[i].regsUid < uid || arrivals[i].regsUid == 0 {
      assert all[i] == arrivals[i];
    }
  }

  lemma NamesTracked(arrivals: seq<Arrival>, pending: seq<RegInfo>, u: nat)
    requires Tracked(arrivals, pending) && Orderly(arrivals + [Names(u)])
    ensures Tracked(arrivals + [Names(u)], Receive(pending, Names(u)))
  {
    var all, left := arrivals + [Names(u)], Receive(pending, Names(u));
    forall x | Values(x) in all && Unnamed(all, x.uid) ensures x in pending && (u == 0 || x.uid > u) {
      UnnamedBefore(arrivals, Names(u), x.uid);
    }
    if u != 0 {
      var k := NamedIsPending(arrivals, pending, u);
      TakeSorted(pending, [], k);
      forall x | x in pending && x.uid > u ensures x in left {
        var m :| 0 <= m < |pending| && pending[m] == x;
        assert left[m - (k + 1)] == x;
      }
    }
  }

  lemma OrderlyPrefix(arrivals: seq<Arrival>, a: Arrival)
    requires Orderly(arrivals + [a])
    ensures Orderly(arrivals)
  {
    var all := arrivals + [a];
    assert forall i | 0 <= i < |arrivals| :: all[i] == arrivals[i];
    forall j | 0 <= j < |arrivals| && arrivals[j].Names? && arrivals[j].regsUid != 0
      ensures exists i :: 0 <= i < j && arrivals[i].Values? && arrivals[i].r.uid == arrivals[j].regsUid
    {
      assert all[j] == arrivals[j];
      var i :| 0 <= i < j && all[i].Values? && all[i].r.uid == all[j].regsUid;
      assert arrivals[i].Values?;
    }
  }

  lemma {:induction false} RunTracked(arrivals: seq<Arrival>)
    requires Orderly(arrivals)
    ensures Tracked(arrivals, Pending(arrivals))
  {
    if arrivals != [] {
      var front, last := arrivals[..|arrivals| - 1], arrivals[|arrivals| - 1];
      assert front + [last] == arrivals;
      OrderlyPrefix(front, last);
      RunTracked(front);
      if last.Values? {
        ValuesTracked(front, Pending(front), last.r);
      } else {
        NamesTracked(front, Pending(front), last.regsUid);
      }
    }
  }

  /** Whatever an instruction names is there when it names it, so the check never fires. */
  lemma NeverOutOfOrder(arrivals: seq<Arrival>, u: nat)
    requires u != 0 && Orderly(arrivals + [Names(u)])
    ensures NamesPending(Pending(arrivals), u)
    ensures exists i :: 0 <= i < |arrivals| && arrivals[i].Values? && arrivals[i].r.uid == u
                     && Take(Pending(arrivals), [], u).0 == Some(arrivals[i].r)
  {
    OrderlyPrefix(arrivals, Names(u));
    RunTracked(arrivals);
    var k := NamedIsPending(arrivals, Pending(arrivals), u);
    TakeSorted(Pending(arrivals), [], k);
    assert Pending(arrivals)[k] in Pending(arrivals);
  }
}
