/**
 The memory-value model with the objects the source keeps
 (feeders/memory-values/memory-values.cpp and .h): operations, cells and the
 tracker that binds a load byte by byte.
 */
module MemoryValues {
  import opened Wrappers
  import opened MemoryValueSpec

  datatype State = Uninit | ValueNotBound | ValueBound

  class Memop {
    const uid: nat
    const cpu: nat
    const pa: nat
    const size: nat   // in bits
    var timeStamp: nat
    var state: State
    var value: seq<Byte>

    constructor (uid: nat, cpu: nat, pa: nat, size: nat)
      ensures this.uid == uid && this.cpu == cpu && this.pa == pa && this.size == size
      ensures timeStamp == 0 && state == Uninit && value == Zeros()
    {
      this.uid, this.cpu, this.pa, this.size := uid, cpu, pa, size;
      timeStamp, state, value := 0, Uninit, Zeros();
    }

    ghost function AsStore(): Store
      reads `value
    {
      Store(uid, cpu, pa, size, value)
    }

    ghost function AsLocal(): Local
      reads `value, `timeStamp
    {
      Local(AsStore(), timeStamp)
    }
  }

  ghost function Locals(list: seq<Memop>): (r: seq<Local>)
    reads list
    ensures |r| == |list| && forall i | 0 <= i < |list| :: r[i] == list[i].AsLocal()
  {
    if list == [] then [] else [list[0].AsLocal()] + Locals(list[1..])
  }

  function ZeroCount(stamps: seq<nat>): nat {
    if stamps == [] then 0 else (if stamps[0] == 0 then 1 else 0) + ZeroCount(stamps[1..])
  }

  lemma {:induction false} ZeroCountUpdate(stamps: seq<nat>, i: nat, s: nat)
    requires i < |stamps| && s > 0
    ensures ZeroCount(stamps[i := s]) == ZeroCount(stamps) - if stamps[i] == 0 then 1 else 0
  {
    if i == 0 {
      assert stamps[i := s][1..] == stamps[1..];
    } else {
      ZeroCountUpdate(stamps[1..], i - 1, s);
      assert stamps[i := s][1..] == stamps[1..][i - 1 := s];
    }
  }

  lemma {:induction false} NoZeros(stamps: seq<nat>)
    ensures ZeroCount(stamps) == 0 <==> forall i | 0 <= i < |stamps| :: stamps[i] != 0
  {
    if stamps != [] {
      NoZeros(stamps[1..]);
      assert forall i | 0 < i < |stamps| :: stamps[i] == stamps[1..][i - 1];
    }
  }

  lemma {:induction false} ZeroBlock(first: nat, n: nat, rest: nat)
    ensures ZeroCount(seq(first, _ => MAX_STAMP) + seq(n, _ => 0) + seq(rest, _ => MAX_STAMP)) == n
    decreases first + n + rest
  {
    var all := seq(first, _ => MAX_STAMP) + seq(n, _ => 0) + seq(rest, _ => MAX_STAMP);
    if first > 0 {
      ZeroBlock(first - 1, n, rest);
      assert all[1..] == seq(first - 1, _ => MAX_STAMP) + seq(n, _ => 0) + seq(rest, _ => MAX_STAMP);
    } else if n > 0 {
      ZeroBlock(first, n - 1, rest);
      assert all[1..] == seq(first, _ => MAX_STAMP) + seq(n - 1, _ => 0) + seq(rest, _ => MAX_STAMP);
    } else if rest > 0 {
      ZeroBlock(first, n, rest - 1);
      assert all[1..] == seq(first, _ => MAX_STAMP) + seq(n, _ => 0) + seq(rest - 1, _ => MAX_STAMP);
    }
  }

  /** Which bytes of a load are still to be bound, and how new the value of the others is. Bytes not
      asked for carry the greatest stamp, so that nothing replaces them. */
  class Tracker {
    var rqd: nat
    const firstReq: nat
    const lastReq: nat
    const stamps: array<nat>

    ghost predicate Valid()
      reads this, stamps
    {
      && stamps.Length == 16 && rqd == ZeroCount(stamps[..])
      && firstReq <= lastReq <= 16
      && (forall i | 0 <= i < 16 :: stamps[i] <= MAX_STAMP)
      && (forall i | 0 <= i < 16 && !(firstReq <= i < lastReq) :: stamps[i] == MAX_STAMP)
    }

    constructor (a: nat, size: nat)
      requires a % 16 + size / 8 <= 16
      ensures Valid() && fresh(stamps) && firstReq == a % 16 && lastReq == a % 16 + size / 8
      ensures forall b | 0 <= b < 16 :: stamps[b] == if Requested(a, size, b) then 0 else MAX_STAMP
    {
      firstReq, rqd, lastReq := a % 16, size / 8, a % 16 + size / 8;
      stamps := new nat[16](_ => MAX_STAMP);
      new;
      for i := 0 to rqd
        invariant stamps.Length == 16 && rqd == size / 8 && firstReq == a % 16
        invariant forall j | 0 <= j < 16 :: stamps[j] == if firstReq <= j < firstReq + i then 0 else MAX_STAMP
      {
        stamps[firstReq + i] := 0;
      }
      ZeroBlock(firstReq, rqd, 16 - lastReq);
      assert stamps[..] == seq(firstReq, _ => MAX_STAMP) + seq(rqd, _ => 0) + seq(16 - lastReq, _ => MAX_STAMP);
    }

    method Done() returns (done: bool)
      requires Valid()
      ensures done <==> forall b | 0 <= b < 16 :: stamps[b] != 0
    {
      NoZeros(stamps[..]);
      return rqd == 0;
    }

    /** The upper bound is one too far, which does no harm: that byte has the greatest stamp. */
    method ShouldStampIdx(idx: nat, s: nat) returns (should: bool)
      requires Valid() && idx < 16 && 0 < s <= MAX_STAMP
      ensures should <==> stamps[idx] < s
    {
      if idx >= firstReq {
        if idx <= lastReq {
          if stamps[idx] < s {
            return true;
          }
        }
      }
      return false;
    }

    method StampIdx(idx: nat, s: nat)
      requires Valid() && idx < 16 && 0 < s <= MAX_STAMP && stamps[idx] < s
      modifies this`rqd, stamps
      ensures Valid() && stamps[..] == old(stamps[..])[idx := s]
    {
      ghost var was := stamps[..];
      ZeroCountUpdate(was, idx, s);
      if stamps[idx] == 0 {
        NoZeros(was);
        rqd := rqd - 1;
      }
      stamps[idx] := s;
      assert stamps[..] == was[idx := s];
    }

    /** Notes the bytes with a global value; of the mask only the lower eight bits arrive. */
    method GlobalBasis(globalBytes: seq<bool>)
      requires Valid() && |globalBytes| == 8
      requires forall b | 0 <= b < 16 :: stamps[b] == 0 || stamps[b] == MAX_STAMP
      modifies this`rqd, stamps
      ensures Valid()
      ensures forall b | 0 <= b < 16 ::
        stamps[b] == if b < 8 && globalBytes[b] && old(stamps[b]) == 0 then 1 else old(stamps[b])
    {
      for i := 0 to 16
        invariant Valid()
        invariant forall b | 0 <= b < 16 ::
          stamps[b] == if b < i && b < 8 && globalBytes[b] && old(stamps[b]) == 0 then 1 else old(stamps[b])
      {
        if i < 8 && globalBytes[i] {
          var should := ShouldStampIdx(i, 1);
          if should {
            StampIdx(i, 1);
          }
        }
      }
    }
  }

  /** Where one store has been applied to the first `n` of its bytes. */
  ghost function NewerUpto(s: Local, b: nat, before: Bind, n: nat): Bind
    requires b < 16 && ValidStore(s.store)
  {
    if (b - s.store.addr) % 16 < n && before.stamp < s.stamp then Bind(s.stamp, s.store.bytes[b]) else before
  }

  /** No bytes and all bytes of the store. */
  lemma NewerEnds(s: Local, b: nat, before: Bind)
    requires b < 16 && ValidStore(s.store)
    ensures NewerUpto(s, b, before, 0) == before && NewerUpto(s, b, before, s.store.size / 8) == Newer(s, b, before)
  {
  }

  /** One more byte of the store. */
  lemma NewerNext(s: Local, b: nat, before: Bind, n: nat)
    requires b < 16 && ValidStore(s.store) && n < s.store.size / 8
    ensures var was := NewerUpto(s, b, before, n);
            NewerUpto(s, b, before, n + 1) ==
            if b == (s.store.addr + n) % 16 && was.stamp < s.stamp then Bind(s.stamp, s.store.bytes[b]) else was
  {
    OneByte(s.store.addr, n);
    assert (b - s.store.addr) % 16 == n <==> b == (s.store.addr + n) % 16;
  }

  /** The innermost loop of a load: one local store, byte by byte. */
  method ApplyStore(tracker: Tracker, m: Memop, st: Memop, ghost before: seq<Bind>)
    requires tracker.Valid() && m != st && |m.value| == 16 && ValidStore(st.AsStore()) && 1 < st.timeStamp <= MAX_STAMP
    requires |before| == 16 && forall b | 0 <= b < 16 :: before[b] == Bind(tracker.stamps[b], m.value[b])
    modifies tracker`rqd, tracker.stamps, m`value
    ensures tracker.Valid() && |m.value| == 16
    ensures forall b | 0 <= b < 16 :: Bind(tracker.stamps[b], m.value[b]) == Newer(st.AsLocal(), b, before[b])
  {
    hide NewerUpto, Newer, ZeroCount;
    ghost var s := st.AsLocal();
    forall b | 0 <= b < 16
      ensures NewerUpto(s, b, before[b], 0) == before[b]
      ensures NewerUpto(s, b, before[b], st.size / 8) == Newer(s, b, before[b])
    {
      NewerEnds(s, b, before[b]);
    }
    var idx := 0;
    while idx < st.size / 8
      invariant idx <= st.size / 8 && tracker.Valid() && |m.value| == 16 && st.AsLocal() == s
      invariant forall b | 0 <= b < 16 :: Bind(tracker.stamps[b], m.value[b]) == NewerUpto(s, b, before[b], idx)
    {
      var b := (st.pa + idx) % 16;
      forall b' | 0 <= b' < 16
        ensures NewerUpto(s, b', before[b'], idx + 1) ==
                if b' == b && NewerUpto(s, b', before[b'], idx).stamp < s.stamp then Bind(s.stamp, s.store.bytes[b'])
                else NewerUpto(s, b', before[b'], idx)
      {
        NewerNext(s, b', before[b'], idx);
      }
      var should := tracker.ShouldStampIdx(b, st.timeStamp);
      if should {
        tracker.StampIdx(b, st.timeStamp);
        m.value := m.value[b := st.value[b]];
      }
      idx := idx + 1;
    }
  }

  lemma OneByte(a: nat, idx: nat)
    requires idx < 16
    ensures forall b: nat {:trigger (b - a) % 16} | b < 16 :: (b - a) % 16 == idx <==> b == (a + idx) % 16
  {
    forall b: nat {:trigger (b - a) % 16} | b < 16 ensures (b - a) % 16 == idx <==> b == (a + idx) % 16 {
      SameResidue(a);
      var x := a % 16;
      assert (a + idx) % 16 == if x + idx < 16 then x + idx else x + idx - 16;
    }
  }

  /** A list without one operation, wherever it stands. */
  function Removed(list: seq<Memop>, m: Memop): (r: seq<Memop>)
    ensures m !in r && forall op | op in r :: op in list
  {
    if list == [] then []
    else if list[0] == m then Removed(list[1..], m)
    else [list[0]] + Removed(list[1..], m)
  }

  lemma {:induction false} RemovedLocals(list: seq<Memop>, m: Memop)
    requires forall op | op in list :: op.uid == m.uid ==> op == m
    ensures Locals(Removed(list, m)) == WithoutUid(Locals(list), m.uid)
  {
    if list != [] {
      RemovedLocals(list[1..], m);
      assert Locals(list)[1..] == Locals(list[1..]);
      var rest := Removed(list[1..], m);
      if list[0] != m {
        assert list[0] in list;
        assert Locals([list[0]] + rest) == [list[0].AsLocal()] + Locals(rest);
      }
    }
  }

  lemma RemovedWithin(list: seq<Memop>, m: Memop, ops: set<Memop>)
    requires Within(list, ops)
    ensures Within(Removed(list, m), ops)
  {
    var left := Removed(list, m);
    forall i | 0 <= i < |left| ensures left[i] in ops {
      assert left[i] in list;
    }
  }

  lemma LocalsCons(m: Memop, list: seq<Memop>)
    ensures Locals([m] + list) == [m.AsLocal()] + Locals(list)
  {
  }

  ghost predicate Within(list: seq<Memop>, ops: set<Memop>) {
    forall i | 0 <= i < |list| :: list[i] in ops
  }

  lemma WithinSuperset(list: seq<Memop>, ops: set<Memop>, m: Memop)
    requires Within(list, ops)
    ensures Within(list, ops + {m})
  {
  }

  lemma WithinKnows(list: seq<Memop>, m: Memop, ops: set<Memop>)
    requires Within(list, ops) && forall op | op in ops :: op.uid == m.uid ==> op == m
    ensures forall op | op in list :: op.uid == m.uid ==> op == m
  {
  }

  lemma WithinMore(list: seq<Memop>, m: Memop, ops: set<Memop>)
    requires Within(list, ops) || list == []
    ensures Within([m] + list, ops + {m})
  {
  }

  class MemCell {
    var globalValue: seq<Byte>
    var hasGlobalValue: seq<bool>
    var localValues: map<nat, seq<Memop>>   // no entry stands for a null list

    /** The cell contains this, and lists none but these operations. */
    ghost predicate Shows(c: Cell, ops: set<Memop>)
      reads this, ops
    {
      && c.global == globalValue && c.has == hasGlobalValue && c.locals.Keys == localValues.Keys
      && forall cpu | cpu in localValues ::
           Within(localValues[cpu], ops) && Locals(localValues[cpu]) == c.locals[cpu]
    }

    /** Every operation in a list belongs to this cell and to the CPU of the list. */
    ghost predicate InPlace(a: nat)
      reads `localValues
    {
      forall cpu, i | cpu in localValues && 0 <= i < |localValues[cpu]| ::
        localValues[cpu][i].cpu == cpu && Mask128(localValues[cpu][i].pa) == a
    }

    /** The operation is in no list. */
    ghost predicate Lacks(m: Memop)
      reads `localValues
    {
      forall cpu | cpu in localValues :: m !in localValues[cpu]
    }

    /** An operation of another cell is in no list of this one. */
    lemma ElsewhereLacks(m: Memop, a: nat)
      requires InPlace(a) && Mask128(m.pa) != a
      ensures Lacks(m)
    {
    }

    lemma EmptyInPlace(a: nat, ops: set<Memop>)
      requires localValues == map[] && Shows(EmptyCell(), {})
      ensures InPlace(a) && Shows(EmptyCell(), ops)
    {
    }

    lemma ShowsMore(m: Memop, c: Cell, ops: set<Memop>)
      requires Shows(c, ops)
      ensures Shows(c, ops + {m})
    {
    }

    /** An operation that is in no list need not be among those listed. */
    lemma ShowsFewer(m: Memop, c: Cell, ops: set<Memop>)
      requires Shows(c, ops) && Lacks(m)
      ensures Shows(c, ops - {m})
    {
      forall cpu | cpu in localValues ensures Within(localValues[cpu], ops - {m}) {
        assert Within(localValues[cpu], ops);
        forall i | 0 <= i < |localValues[cpu]| ensures localValues[cpu][i] != m {
          assert localValues[cpu][i] in localValues[cpu];
        }
      }
    }

    constructor ()
      ensures localValues == map[] && Shows(EmptyCell(), {})
    {
      globalValue, hasGlobalValue, localValues := Zeros(), seq(16, _ => false), map[];
    }

    method PushFront(m: Memop, ghost c: Cell, ghost ops: set<Memop>)
      requires Shows(c, ops) && m !in ops
      modifies this`localValues
      ensures Shows(Push(c, m.AsStore(), m.timeStamp), ops + {m})
      ensures forall a | old(InPlace(a)) && Mask128(m.pa) == a :: InPlace(a)
    {
      hide Within, Locals;
      var list := if m.cpu in localValues then localValues[m.cpu] else [];
      ghost var after := Push(c, m.AsStore(), m.timeStamp);
      assert Locals(list) == LocalsOf(c, m.cpu);
      LocalsCons(m, list);
      localValues := localValues[m.cpu := [m] + list];
      forall cpu | cpu in localValues
        ensures Within(localValues[cpu], ops + {m}) && Locals(localValues[cpu]) == after.locals[cpu]
      {
        if cpu == m.cpu {
          WithinMore(list, m, ops);
        } else {
          WithinSuperset(localValues[cpu], ops, m);
        }
      }
    }

    /** Takes an operation off the list of its CPU. */
    method Remove(m: Memop, ghost c: Cell, ghost ops: set<Memop>)
      requires Shows(c, ops) && InPlace(Mask128(m.pa)) && forall op | op in ops :: op.uid == m.uid ==> op == m
      modifies this`localValues
      ensures Shows(Forget(c, m.AsStore()), ops) && InPlace(Mask128(m.pa)) && Lacks(m)
    {
      hide Within, Locals, Removed, WithoutUid, Mask128;
      if m.cpu in localValues {
        var list := localValues[m.cpu];
        WithinKnows(list, m, ops);
        RemovedLocals(list, m);
        RemovedWithin(list, m, ops);
        assert forall i | 0 <= i < |Removed(list, m)| :: Removed(list, m)[i] in list;
        localValues := localValues[m.cpu := Removed(list, m)];
      }
      OtherListsLack(m);
    }

    /** Only the list of its own CPU can hold an operation. */
    lemma OtherListsLack(m: Memop)
      requires InPlace(Mask128(m.pa)) && (m.cpu in localValues ==> m !in localValues[m.cpu])
      ensures Lacks(m)
    {
    }

    /** Makes a store's bytes global. */
    method Globalise(m: Memop, ghost c: Cell, ghost ops: set<Memop>)
      requires Shows(c, ops) && ValidCell(c) && ValidStore(m.AsStore())
      modifies this`globalValue, this`hasGlobalValue
      ensures Shows(SetGlobal(c, m.AsStore()), ops)
    {
      ghost var after := SetGlobal(c, m.AsStore());
      var _ := SetGlobalValue(m.value, m.pa, m.size);
      assert globalValue == after.global && hasGlobalValue == after.has;
    }

    /** Copies `w` bytes of a value, from byte `lo` on, into the global image. */
    method SetLane(u: seq<Byte>, lo: nat, w: nat)
      requires lo + w <= 16 == |u| == |globalValue| == |hasGlobalValue|
      modifies this`globalValue, this`hasGlobalValue
      ensures |globalValue| == |hasGlobalValue| == 16
      ensures forall b | 0 <= b < 16 :: globalValue[b] == if lo <= b < lo + w then u[b] else old(globalValue)[b]
      ensures forall b | 0 <= b < 16 :: hasGlobalValue[b] == (lo <= b < lo + w || old(hasGlobalValue)[b])
    {
      globalValue := globalValue[..lo] + u[lo..lo + w] + globalValue[lo + w..];
      hasGlobalValue := hasGlobalValue[..lo] + seq(w, _ => true) + hasGlobalValue[lo + w..];
    }

    /** Low address bits serve as the lane number; not ok is the failed assertion on other sizes. */
    method SetGlobalValue(u: seq<Byte>, a: nat, size: nat) returns (ok: bool)
      requires |u| == |globalValue| == |hasGlobalValue| == 16
      modifies this`globalValue, this`hasGlobalValue
      ensures ok <==> ValidSize(size)
      ensures |globalValue| == |hasGlobalValue| == 16
      ensures ok ==> forall b, uid, cpu | 0 <= b < 16 ::
        var st := Store(uid, cpu, a, size, u);
        && globalValue[b] == (if Lane(st, b) then u[b] else old(globalValue)[b])
        && hasGlobalValue[b] == (Lane(st, b) || old(hasGlobalValue)[b])
    {
      if size == 8 {
        SetLane(u, a % 16, 1);
      } else if size == 16 {
        SetLane(u, 2 * (a % 8), 2);
      } else if size == 32 {
        SetLane(u, 4 * (a % 4), 4);
      } else if size == 64 {
        SetLane(u, 8 * (a % 2), 8);
      } else if size == 128 {
        globalValue, hasGlobalValue := u, seq(16, _ => true);
      } else {
        return false;
      }
      return true;
    }

    /** A tracker for a load that knows of the global values. */
    method StartLoad(m: Memop, ghost c: Cell) returns (tracker: Tracker)
      requires c.global == globalValue && c.has == hasGlobalValue && ValidCell(c) && m.pa % 16 + m.size / 8 <= 16
      modifies m`value
      ensures fresh(tracker) && fresh(tracker.stamps) && tracker.Valid() && |m.value| == 16 && m.value == c.global
      ensures forall b | 0 <= b < 16 :: Bind(tracker.stamps[b], m.value[b]) == LoadStart(c, m.pa, m.size)[b]
    {
      m.value := globalValue;
      tracker := new Tracker(m.pa, m.size);
      tracker.GlobalBasis(hasGlobalValue[..8]);
    }

    /** Binds a load from this cell, byte by byte; true when every requested byte was bound. */
    method BindLoad(m: Memop, ghost c: Cell, ghost ops: set<Memop>) returns (bound: bool)
      requires Shows(c, ops) && m !in ops && ValidCell(c) && Stamped(LocalsOf(c, m.cpu))
      requires m.pa % 16 + m.size / 8 <= 16
      modifies m`value
      ensures Load(m.value, bound) == Read(Some(c), m.cpu, m.pa, m.size)
    {
      var tracker := StartLoad(m, c);
      if m.cpu in localValues {
        assert Within(localValues[m.cpu], ops) && Locals(localValues[m.cpu]) == LocalsOf(c, m.cpu);
        ApplyStores(tracker, m, localValues[m.cpu], LoadStart(c, m.pa, m.size));
      }
      bound := tracker.Done();
      LoadResult(c, m.cpu, m.pa, m.size, tracker.stamps[..], m.value, bound);
    }
  }

  /** The outer loop of a load: all local stores of its CPU. */
  method ApplyStores(tracker: Tracker, m: Memop, list: seq<Memop>, ghost start: seq<Bind>)
    requires tracker.Valid() && m !in list && |m.value| == 16 && Stamped(Locals(list))
    requires |start| == 16 && forall b | 0 <= b < 16 :: start[b] == Bind(tracker.stamps[b], m.value[b])
    modifies tracker`rqd, tracker.stamps, m`value
    ensures tracker.Valid() && |m.value| == 16 && Locals(list) == old(Locals(list))
    ensures forall b | 0 <= b < 16 :: Bind(tracker.stamps[b], m.value[b]) == Through(Locals(list), b, start[b])
  {
    ghost var stores := Locals(list);
    for i := 0 to |list|
      invariant tracker.Valid() && |m.value| == 16
      invariant forall j | 0 <= j < |list| :: list[j].AsLocal() == stores[j]
      invariant forall b | 0 <= b < 16 :: Bind(tracker.stamps[b], m.value[b]) == Through(stores[..i], b, start[b])
    {
      ghost var before := seq(16, b requires 0 <= b < 16 => Through(stores[..i], b, start[b]));
      assert stores[..i + 1][..i] == stores[..i];
      assert ValidStore(stores[i].store);
      ApplyStore(tracker, m, list[i], before);
    }
    assert stores[..|list|] == stores;
    assert Locals(list) == stores;
  }

  /** What a load starts from. Bytes not asked for carry the greatest stamp. */
  ghost function LoadStart(c: Cell, addr: nat, size: nat): (r: seq<Bind>)
    requires ValidCell(c)
    ensures |r| == 16 && forall b | 0 <= b < 16 ::
      r[b] == Bind(if Requested(addr, size, b) then Basis(c, b).stamp else MAX_STAMP, c.global[b])
  {
    seq(16, b requires 0 <= b < 16 =>
      Bind(if Requested(addr, size, b) then Basis(c, b).stamp else MAX_STAMP, c.global[b]))
  }

  /** Unrequested bytes keep the global value; the others are bound as a load binds them. */
  lemma LoadDone(c: Cell, cpu: nat, addr: nat, size: nat)
    requires ValidCell(c) && Stamped(LocalsOf(c, cpu))
    ensures forall b | 0 <= b < 16 ::
      var r := Through(LocalsOf(c, cpu), b, LoadStart(c, addr, size)[b]);
      && r.value == ValueByte(c, cpu, addr, size, b)
      && (r.stamp != 0 <==> !Requested(addr, size, b) || ReadByte(c, cpu, b).stamp != 0)
  {
    forall b | 0 <= b < 16 && !Requested(addr, size, b)
      ensures Through(LocalsOf(c, cpu), b, LoadStart(c, addr, size)[b]) == LoadStart(c, addr, size)[b]
    {
      NothingNewer(LocalsOf(c, cpu), b, LoadStart(c, addr, size)[b]);
    }
  }

  /** A tracker that has gone through all local stores gives the load. */
  lemma LoadResult(c: Cell, cpu: nat, addr: nat, size: nat, stamps: seq<nat>, value: seq<Byte>, bound: bool)
    requires ValidCell(c) && Stamped(LocalsOf(c, cpu)) && |stamps| == |value| == 16
    requires forall b | 0 <= b < 16 ::
      Bind(stamps[b], value[b]) == Through(LocalsOf(c, cpu), b, LoadStart(c, addr, size)[b])
    requires bound <==> forall b | 0 <= b < 16 :: stamps[b] != 0
    ensures Load(value, bound) == Read(Some(c), cpu, addr, size)
  {
    LoadDone(c, cpu, addr, size);
    assert forall b | 0 <= b < 16 :: value[b] == ValueByte(c, cpu, addr, size, b);
    assert forall b | 0 <= b < 16 :: stamps[b] != 0 <==> !Requested(addr, size, b) || ReadByte(c, cpu, b).stamp != 0;
  }

  lemma {:induction false} NothingNewer(stores: seq<Local>, b: nat, start: Bind)
    requires b < 16 && Stamped(stores) && start.stamp == MAX_STAMP
    ensures Through(stores, b, start) == start
  {
    if stores != [] {
      NothingNewer(stores[..|stores| - 1], b, start);
    }
  }

  class MemoryValueModel {
    var memops: map<nat, MemCell>
    var sTimeStamp: nat
    ghost var view: map<nat, Cell>   // what the cells contain
    ghost var ops: set<Memop>        // the operations in the lists

    ghost function Abs(): Memory
      reads `view, `sTimeStamp
    {
      Memory(view, sTimeStamp)
    }

    /** Cells are not shared, and each local store stands in its cell's list for its CPU. */
    ghost predicate Placed()
      reads `memops, memops.Values
    {
      && (forall a, b | a in memops && b in memops && a != b :: memops[a] != memops[b])
      && (forall a | a in memops :: memops[a].InPlace(a))
    }

    ghost predicate Valid()
      reads this, memops.Values, ops
    {
      && Placed() && ValidMemory(Abs()) && view.Keys == memops.Keys
      && (forall a | a in memops :: memops[a].Shows(view[a], ops))
    }

    /** Uids are handed out once. */
    ghost predicate Knows(m: Memop)
      reads `ops
    {
      forall op | op in ops :: op.uid == m.uid ==> op == m
    }

    constructor ()
      ensures Valid() && Abs() == Memory(map[], 2) && ops == {}
    {
      memops, sTimeStamp, view, ops := map[], 2, map[], {};
    }

    /** Binds a load. The result tells whether the state could be set; it must not be the old one. */
    method ReadValueNow(m: Memop) returns (ok: bool)
      requires Valid() && m !in ops && m.pa % 16 + m.size / 8 <= 16
      modifies m`value, m`state
      ensures Valid() && (ok <==> m.state != old(m.state)) && m.state != Uninit
      ensures if Mask128(m.pa) in memops then
                Load(m.value, m.state == ValueBound) == ReadAt(Abs(), m.cpu, m.pa, m.size)
              else m.value == old(m.value) && m.state != ValueBound
    {
      var ma := Mask128(m.pa);
      var was := m.state;
      var bound := false;
      if ma in memops {
        assert Ordered(view[ma], sTimeStamp) && ValidLocals(LocalsOf(view[ma], m.cpu), sTimeStamp);
        bound := memops[ma].BindLoad(m, view[ma], ops);
      }
      m.state := if bound then ValueBound else ValueNotBound;
      ok := m.state != was;
    }

    /** The cell for an address, made when there is none. */
    method CellFor(ma: nat) returns (cell: MemCell)
      requires Valid()
      modifies this`memops, this`view
      ensures Valid() && ma in memops && memops[ma] == cell && view == old(view)[ma := CellAt(old(Abs()), ma)]
      ensures if ma in old(memops) then memops == old(memops) else fresh(cell) && memops == old(memops)[ma := cell]
    {
      if ma in memops {
        cell := memops[ma];
        assert view[ma := view[ma]] == view;
      } else {
        cell := AddCell(ma);
      }
    }

    method AddCell(ma: nat) returns (cell: MemCell)
      requires Valid() && ma !in memops
      modifies this`memops, this`view
      ensures Valid() && fresh(cell) && memops == old(memops)[ma := cell] && view == old(view)[ma := EmptyCell()]
    {
      hide MemCell.Shows, MemCell.InPlace, ValidMemory;
      NewCellValid(Abs(), ma);
      cell := new MemCell();
      cell.EmptyInPlace(ma, ops);
      memops := memops[ma := cell];
      view := view[ma := EmptyCell()];
    }

    /** Records what one cell has come to contain. */
    ghost method NoteCell(ma: nat, after: Memory, c: Cell)
      requires Placed() && view.Keys == memops.Keys && ma in memops && memops[ma].Shows(c, ops)
      requires forall a | a in memops && a != ma :: memops[a].Shows(view[a], ops)
      requires ValidMemory(after) && after == Memory(view[ma := c], sTimeStamp)
      modifies this`view
      ensures Valid() && Abs() == after
    {
      hide MemCell.Shows, MemCell.InPlace, ValidMemory;
      view := after.cells;
    }

    method Place(cell: MemCell, ma: nat, m: Memop)
      requires Valid() && m !in ops && Mask128(m.pa) == ma && ma in memops && memops[ma] == cell
      modifies this`ops, cell`localValues
      ensures Placed() && ops == old(ops) + {m} && cell.Shows(Push(view[ma], m.AsStore(), m.timeStamp), ops)
      ensures forall a | a in memops && a != ma :: memops[a].Shows(view[a], ops)
    {
      hide MemCell.Shows, ValidMemory, MemCell.InPlace;
      cell.PushFront(m, view[ma], ops);
      forall a | a in memops && a != ma ensures memops[a].Shows(view[a], ops + {m}) {
        memops[a].ShowsMore(m, view[a], ops);
      }
      ops := ops + {m};
    }

    /** A store with its time stamp goes to the front of its list. */
    method PutLocal(cell: MemCell, ma: nat, m: Memop, ghost after: Memory)
      requires Valid() && m !in ops && Mask128(m.pa) == ma && ma in memops && memops[ma] == cell
      requires ValidMemory(after)
      requires after == Memory(view[ma := Push(view[ma], m.AsStore(), m.timeStamp)], sTimeStamp)
      modifies this`ops, this`view, cell`localValues
      ensures Valid() && ops == old(ops) + {m} && Abs() == after
    {
      ghost var c := Push(view[ma], m.AsStore(), m.timeStamp);
      Place(cell, ma, m);
      NoteCell(ma, after, c);
    }

    method Stamp(m: Memop)
      requires Valid() && m !in ops
      modifies m`timeStamp, this`sTimeStamp
      ensures m.timeStamp == old(sTimeStamp) && sTimeStamp == old(sTimeStamp) + 1
      ensures Valid()
    {
      hide ValidMemory;
      LaterClock(Abs());
      m.timeStamp := sTimeStamp;
      sTimeStamp := sTimeStamp + 1;
    }

    /** Records that an operation has left the lists. */
    ghost method NoteGone(m: Memop)
      requires Valid() && forall a | a in memops :: memops[a].Lacks(m)
      modifies this`ops
      ensures Valid() && ops == old(ops) - {m} && Abs() == old(Abs())
    {
      hide MemCell.Shows, ValidMemory;
      forall a | a in memops ensures memops[a].Shows(view[a], ops - {m}) {
        memops[a].ShowsFewer(m, view[a], ops);
      }
      ops := ops - {m};
    }

    /** Only the operation's own cell can list it. */
    lemma LackedElsewhere(m: Memop)
      requires Placed()
      ensures forall a | a in memops && a != Mask128(m.pa) :: memops[a].Lacks(m)
    {
      forall a | a in memops && a != Mask128(m.pa) ensures memops[a].Lacks(m) {
        memops[a].ElsewhereLacks(m, a);
      }
    }

    /** A store is withdrawn from its CPU's own view. */
    method Killed(m: Memop)
      requires Valid() && Knows(m)
      modifies this`view, this`ops, memops.Values
      ensures Valid() && Abs() == Kill(old(Abs()), m.AsStore()) && ops == old(ops) - {m}
    {
      hide MemCell.Shows, MemCell.InPlace, MemCell.Lacks, ValidMemory, Mask128, Forget;
      var ma := Mask128(m.pa);
      KillValid(Abs(), m.AsStore());
      if ma in memops {
        ghost var after, c := Kill(Abs(), m.AsStore()), Forget(view[ma], m.AsStore());
        memops[ma].Remove(m, view[ma], ops);
        NoteCell(ma, after, c);
      }
      LackedElsewhere(m);
      NoteGone(m);
    }

    /** A cell loses a store from its lists and takes it into its image. */
    method Publish(cell: MemCell, ma: nat, m: Memop)
      requires Valid() && Knows(m) && ValidStore(m.AsStore()) && ma in memops && memops[ma] == cell
      modifies cell
      requires Mask128(m.pa) == ma
      ensures Placed() && ValidCell(Forget(view[ma], m.AsStore())) && cell.Lacks(m)
      ensures cell.Shows(SetGlobal(Forget(view[ma], m.AsStore()), m.AsStore()), ops)
      ensures forall a | a in memops && a != ma :: memops[a].Shows(view[a], ops)
    {
      hide MemCell.Shows, MemCell.Lacks, ValidMemory, Mask128, Forget, SetGlobal;
      CellIsOrdered(Abs(), ma);
      ForgetValid(view[ma], m.AsStore());
      cell.Remove(m, view[ma], ops);
      cell.Globalise(m, Forget(view[ma], m.AsStore()), ops);
    }

    /** A store leaves its CPU's own view and goes to memory. */
    method StoreGloballyVisibleNow(m: Memop)
      requires Valid() && Knows(m) && ValidStore(m.AsStore())
      modifies this`memops, this`view, this`ops, memops.Values
      ensures Valid() && Abs() == old(MakeGlobal(Abs(), m.AsStore())) && ops == old(ops) - {m}
      ensures fresh(memops.Values - old(memops.Values))
    {
      hide MemCell.Shows, MemCell.InPlace, MemCell.Lacks;
      hide ValidMemory, ValidCell, Mask128, Forget, SetGlobal, MakeGlobal;
      var ma := Mask128(m.pa);
      ghost var after := MakeGlobal(Abs(), m.AsStore());
      MakeGlobalInSteps(Abs(), ma, m.AsStore());
      var cell := CellFor(ma);
      ghost var c := SetGlobal(Forget(view[ma], m.AsStore()), m.AsStore());
      Publish(cell, ma, m);
      UpdateTwice(old(view), ma, CellAt(old(Abs()), ma), c);
      NoteCell(ma, after, c);
      LackedElsewhere(m);
      NoteGone(m);
    }

    /** A store becomes visible to its own CPU, as the newest. */
    method StoreLocallyVisibleNow(m: Memop)
      requires Valid() && m !in ops && Knows(m) && ValidStore(m.AsStore()) && sTimeStamp <= MAX_STAMP
      modifies this, memops.Values, m`timeStamp
      ensures Valid() && ops == old(ops) + {m} && Abs() == old(MakeLocal(Abs(), m.AsStore()))
      ensures fresh(memops.Values - old(memops.Values))
    {
      hide MemCell.Shows, MemCell.InPlace, ValidMemory, Mask128, Push;
      ghost var after := MakeLocal(Abs(), m.AsStore());
      MakeLocalValid(Abs(), m.AsStore());
      var ma := Mask128(m.pa);
      var cell := CellFor(ma);
      Stamp(m);
      UpdateTwice(old(view), ma, CellAt(old(Abs()), ma), Push(view[ma], m.AsStore(), m.timeStamp));
      PutLocal(cell, ma, m, after);
    }
  }

  lemma MakeGlobalInSteps(m: Memory, a: nat, st: Store)
    requires ValidMemory(m) && ValidStore(st) && a == Mask128(st.addr)
    ensures ValidCell(Forget(CellAt(m, a), st)) && ValidMemory(MakeGlobal(m, st))
    ensures MakeGlobal(m, st) == Memory(m.cells[a := SetGlobal(Forget(CellAt(m, a), st), st)], m.clock)
  {
    ForgetValid(CellAt(m, a), st);
    MakeGlobalValid(m, st);
  }

  lemma UpdateTwice<T>(m: map<nat, T>, a: nat, x: T, y: T)
    ensures m[a := x][a := y] == m[a := y]
  {
  }

  lemma NewCellValid(m: Memory, a: nat)
    requires ValidMemory(m)
    ensures ValidMemory(Memory(m.cells[a := EmptyCell()], m.clock))
  {
    EmptyOrdered(m.clock);
  }

  lemma LaterClock(m: Memory)
    requires ValidMemory(m)
    ensures ValidMemory(Memory(m.cells, m.clock + 1))
  {
    forall a, cpu | a in m.cells ensures ValidLocals(LocalsOf(m.cells[a], cpu), m.clock + 1) {
      assert ValidLocals(LocalsOf(m.cells[a], cpu), m.clock);
    }
  }
}
