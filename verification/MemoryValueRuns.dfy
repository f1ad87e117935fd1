/** What whole runs of local, killed and global stores mean for later loads. */
module MemoryValueRuns {
  import opened Arithmetic
  import opened Wrappers
  import opened MemoryValueSpec

  datatype Step = ToLocal(st: Store) | Killed(st: Store) | ToGlobal(st: Store)

  ghost predicate Enabled(m: Memory, s: Step) {
    ValidMemory(m) && ValidStore(s.st) && (s.ToLocal? ==> m.clock <= MAX_STAMP)
  }

  ghost function Next(m: Memory, s: Step): (r: Memory)
    requires Enabled(m, s)
    ensures ValidMemory(r)
  {
    match s
    case ToLocal(st) => MakeLocalValid(m, st); MakeLocal(m, st)
    case Killed(st) => KillValid(m, st); Kill(m, st)
    case ToGlobal(st) => MakeGlobalValid(m, st); MakeGlobal(m, st)
  }

  ghost function Run(m: Memory, steps: seq<Step>): (r: Option<Memory>)
    requires ValidMemory(m)
    ensures r != None ==> ValidMemory(r.value)
    decreases |steps|
  {
    if steps == [] then Some(m)
    else if Enabled(m, steps[0]) then Run(Next(m, steps[0]), steps[1..])
    else None
  }

  // ----- What a memory says, without stamps -----

  function Strip(stores: seq<Local>): (r: seq<Store>)
    ensures |r| == |stores| && forall i | 0 <= i < |stores| :: r[i] == stores[i].store
  {
    if stores == [] then [] else [stores[0].store] + Strip(stores[1..])
  }

  function Stores(m: Memory, a: nat, cpu: nat): seq<Store> {
    Strip(LocalsOf(CellAt(m, a), cpu))
  }

  function DropUid(stores: seq<Store>, uid: nat): seq<Store> {
    if stores == [] then []
    else if stores[0].uid == uid then DropUid(stores[1..], uid)
    else [stores[0]] + DropUid(stores[1..], uid)
  }

  lemma {:induction false} StripDrops(stores: seq<Local>, uid: nat)
    ensures Strip(WithoutUid(stores, uid)) == DropUid(Strip(stores), uid)
  {
    if stores != [] {
      StripDrops(stores[1..], uid);
      assert Strip(stores)[1..] == Strip(stores[1..]);
      if stores[0].store.uid != uid {
        assert Strip(WithoutUid(stores, uid))[1..] == Strip(WithoutUid(stores[1..], uid));
      }
    }
  }

  lemma {:induction false} DropsCommute(stores: seq<Store>, u: nat, v: nat)
    ensures DropUid(DropUid(stores, u), v) == DropUid(DropUid(stores, v), u)
  {
    if stores != [] {
      DropsCommute(stores[1..], u, v);
      assert forall x: seq<Store> :: ([stores[0]] + x)[1..] == x;
    }
  }

  /** What a step does to the stores of every cell and CPU, and to every global image. */
  lemma Effect(m: Memory, s: Step, a: nat, cpu: nat)
    requires Enabled(m, s)
    ensures var n, here := Next(m, s), a == Mask128(s.st.addr);
      && Stores(n, a, cpu) ==
         (if !here || cpu != s.st.cpu then Stores(m, a, cpu)
          else if s.ToLocal? then [s.st] + Stores(m, a, cpu)
          else DropUid(Stores(m, a, cpu), s.st.uid))
      && (if here && s.ToGlobal? then
            && ValidCell(CellAt(m, a))
            && CellAt(n, a).global == SetGlobal(CellAt(m, a), s.st).global
            && CellAt(n, a).has == SetGlobal(CellAt(m, a), s.st).has
          else CellAt(n, a).global == CellAt(m, a).global && CellAt(n, a).has == CellAt(m, a).has)
  {
    hide SetGlobal, ValidMemory, ValidCell, ValidLocals;
    CellIsOrdered(m, a);
    if s.ToGlobal? { WritesTheSame(CellAt(m, a), s.st); }
    StripDrops(LocalsOf(CellAt(m, a), cpu), s.st.uid);
    if s.ToLocal? && a == Mask128(s.st.addr) && cpu == s.st.cpu {
      assert Strip([Local(s.st, m.clock)] + LocalsOf(CellAt(m, a), cpu)) == [s.st] + Stores(m, a, cpu);
    }
  }

  // ----- Killing erases -----

  /** The same stores and images everywhere: loads cannot tell these memories apart. */
  ghost predicate Same(m: Memory, n: Memory) {
    && Images(m, n)
    && (forall a, cpu :: Stores(m, a, cpu) == Stores(n, a, cpu))
  }

  /** `n` is `m` but for one store, which stands only where it belongs. */
  ghost predicate Erased(m: Memory, n: Memory, st: Store) {
    && Images(m, n)
    && (forall a, cpu :: Stores(n, a, cpu) == DropUid(Stores(m, a, cpu), st.uid))
    && (forall a, cpu | a != Mask128(st.addr) || cpu != st.cpu :: Stores(n, a, cpu) == Stores(m, a, cpu))
  }

  ghost predicate Images(m: Memory, n: Memory) {
    forall a :: CellAt(m, a).global == CellAt(n, a).global && CellAt(m, a).has == CellAt(n, a).has
  }

  /** What a step writes into an image depends on the image alone. */
  lemma SameWrites(c: Cell, d: Cell, st: Store)
    requires ValidCell(c) && ValidCell(d) && ValidStore(st) && c.global == d.global && c.has == d.has
    ensures SetGlobal(c, st).global == SetGlobal(d, st).global && SetGlobal(c, st).has == SetGlobal(d, st).has
  {
  }

  lemma SameImages(m: Memory, n: Memory, s: Step)
    requires Enabled(m, s) && Enabled(n, s) && Images(m, n)
    ensures Images(Next(m, s), Next(n, s))
  {
    forall a
      ensures CellAt(Next(m, s), a).global == CellAt(Next(n, s), a).global
      ensures CellAt(Next(m, s), a).has == CellAt(Next(n, s), a).has
    {
      hide SetGlobal, ValidMemory, ValidCell, Next, CellAt, Stores, DropUid, Mask128;
      Effect(m, s, a, 0);
      Effect(n, s, a, 0);
      if a == Mask128(s.st.addr) && s.ToGlobal? { SameWrites(CellAt(m, a), CellAt(n, a), s.st); }
    }
  }

  lemma SameStep(m: Memory, n: Memory, s: Step)
    requires Enabled(m, s) && Enabled(n, s) && Same(m, n)
    ensures Same(Next(m, s), Next(n, s))
  {
    SameImages(m, n, s);
    forall a, cpu ensures Stores(Next(m, s), a, cpu) == Stores(Next(n, s), a, cpu)
    {
      Effect(m, s, a, cpu);
      Effect(n, s, a, cpu);
    }
  }

  lemma ErasedStep(m: Memory, n: Memory, st: Store, s: Step)
    requires Enabled(m, s) && Enabled(n, s) && Erased(m, n, st) && s.st.uid != st.uid
    ensures Erased(Next(m, s), Next(n, s), st)
  {
    SameImages(m, n, s);
    forall a, cpu
      ensures Stores(Next(n, s), a, cpu) == DropUid(Stores(Next(m, s), a, cpu), st.uid)
      ensures a != Mask128(st.addr) || cpu != st.cpu ==> Stores(Next(n, s), a, cpu) == Stores(Next(m, s), a, cpu)
    {
      Effect(m, s, a, cpu);
      Effect(n, s, a, cpu);
      DropsCommute(Stores(m, a, cpu), st.uid, s.st.uid);
    }
  }

  /** Made local at first, a store is all that tells the two runs apart. */
  lemma ErasedStart(m: Memory, st: Store)
    requires Enabled(m, ToLocal(st)) && Absent(m, st.uid)
    ensures Erased(Next(m, ToLocal(st)), m, st)
  {
    var n := Next(m, ToLocal(st));
    forall a, cpu
      ensures CellAt(m, a).global == CellAt(n, a).global && CellAt(m, a).has == CellAt(n, a).has
      ensures Stores(m, a, cpu) == DropUid(Stores(n, a, cpu), st.uid)
      ensures a != Mask128(st.addr) || cpu != st.cpu ==> Stores(n, a, cpu) == Stores(m, a, cpu)
    {
      Effect(m, ToLocal(st), a, cpu);
      assert ([st] + Stores(m, a, cpu))[1..] == Stores(m, a, cpu);
    }
  }

  /** Once it is killed, nothing does. */
  lemma ErasedEnd(m: Memory, n: Memory, st: Store)
    requires Enabled(m, Killed(st)) && Erased(m, n, st)
    ensures Same(Next(m, Killed(st)), n)
  {
    var k := Next(m, Killed(st));
    forall a, cpu
      ensures CellAt(k, a).global == CellAt(n, a).global && CellAt(k, a).has == CellAt(n, a).has
      ensures Stores(k, a, cpu) == Stores(n, a, cpu)
    {
      Effect(m, Killed(st), a, cpu);
    }
  }

  /** No local store has this uid. */
  ghost predicate Absent(m: Memory, uid: nat) {
    forall a, cpu :: DropUid(Stores(m, a, cpu), uid) == Stores(m, a, cpu)
  }

  lemma {:induction false} FirstCoveringStripped(x: seq<Local>, y: seq<Local>, b: nat)
    requires Strip(x) == Strip(y)
    ensures FirstCovering(x, b) == FirstCovering(y, b)
    ensures var k := FirstCovering(x, b); |x| == |y| && (k < |x| ==> x[k].store == y[k].store)
  {
    assert |x| == |Strip(x)| == |y|;
    var k, j := FirstCovering(x, b), FirstCovering(y, b);
    assert forall i | 0 <= i < |x| :: x[i].store == Strip(x)[i] == y[i].store;
  }

  /** Memories with the same stores and images answer every load alike. */
  lemma SameReads(m: Memory, n: Memory, cpu: nat, addr: nat, size: nat)
    requires ValidMemory(m) && ValidMemory(n) && Same(m, n) && 8 <= size && addr % 16 + size / 8 <= 16
    ensures ReadAt(m, cpu, addr, size) == ReadAt(n, cpu, addr, size)
  {
    var a := Mask128(addr);
    ReadsCell(m, cpu, addr, size);
    ReadsCell(n, cpu, addr, size);
    var c, d := CellAt(m, a), CellAt(n, a);
    assert c.global == d.global && c.has == d.has && Stores(m, a, cpu) == Stores(n, a, cpu);
    forall b | 0 <= b < 16
      ensures ReadByte(c, cpu, b).value == ReadByte(d, cpu, b).value
      ensures ReadByte(c, cpu, b).stamp != 0 <==> ReadByte(d, cpu, b).stamp != 0
    {
      FirstCoveringStripped(LocalsOf(c, cpu), LocalsOf(d, cpu), b);
      ThroughIsView(c, cpu, b);
      ThroughIsView(d, cpu, b);
    }
  }

  /** A load without a cell is a load from an empty one. */
  lemma ReadsCell(m: Memory, cpu: nat, addr: nat, size: nat)
    requires ValidMemory(m) && 8 <= size && addr % 16 + size / 8 <= 16
    ensures var c := CellAt(m, Mask128(addr));
            Ordered(c, m.clock) && ReadAt(m, cpu, addr, size) == Read(Some(c), cpu, addr, size)
  {
    EmptyOrdered(m.clock);
    if Mask128(addr) !in m.cells {
      var c, b := EmptyCell(), addr % 16;
      assert Requested(addr, size, b) && ReadByte(c, cpu, b).stamp == 0;
      assert Read(Some(c), cpu, addr, size).value == Zeros();
    }
  }

  lemma {:induction false} RunErased(m: Memory, n: Memory, st: Store, steps: seq<Step>)
    requires ValidMemory(m) && ValidMemory(n) && Erased(m, n, st) && n.clock <= m.clock && Run(m, steps) != None
    requires forall s | s in steps :: s.st.uid != st.uid
    ensures Run(n, steps) != None && Run(n, steps).value.clock <= Run(m, steps).value.clock
    ensures Erased(Run(m, steps).value, Run(n, steps).value, st)
    decreases |steps|
  {
    if steps != [] {
      assert steps[0] in steps;
      ErasedStep(m, n, st, steps[0]);
      RunErased(Next(m, steps[0]), Next(n, steps[0]), st, steps[1..]);
    }
  }

  lemma {:induction false} RunSame(m: Memory, n: Memory, steps: seq<Step>)
    requires ValidMemory(m) && ValidMemory(n) && Same(m, n) && n.clock <= m.clock && Run(m, steps) != None
    ensures Run(n, steps) != None && Same(Run(m, steps).value, Run(n, steps).value)
    decreases |steps|
  {
    if steps != [] {
      SameStep(m, n, steps[0]);
      RunSame(Next(m, steps[0]), Next(n, steps[0]), steps[1..]);
    }
  }

  lemma {:induction false} RunConcat(m: Memory, a: seq<Step>, b: seq<Step>)
    requires ValidMemory(m)
    ensures Run(m, a + b) == if Run(m, a) == None then None else Run(Run(m, a).value, b)
    decreases |a|
  {
    if a == [] {
      assert a + b == b;
    } else {
      assert (a + b)[1..] == a[1..] + b;
      if Enabled(m, a[0]) { RunConcat(Next(m, a[0]), a[1..], b); }
    }
  }

  /** A store that is made locally visible and killed before it becomes global has never been:
      every later load returns what it returns in the run without it. */
  lemma KillingErases(m: Memory, st: Store, steps: seq<Step>, later: seq<Step>, cpu: nat, addr: nat, size: nat)
    requires ValidMemory(m) && Absent(m, st.uid) && (forall s | s in steps :: s.st.uid != st.uid)
    requires Run(m, [ToLocal(st)] + steps + [Killed(st)] + later) != None
    requires 8 <= size && addr % 16 + size / 8 <= 16
    ensures Run(m, steps + later) != None
    ensures ReadAt(Run(m, [ToLocal(st)] + steps + [Killed(st)] + later).value, cpu, addr, size)
         == ReadAt(Run(m, steps + later).value, cpu, addr, size)
  {
    RunConcat(m, [ToLocal(st)] + steps + [Killed(st)], later);
    RunConcat(m, [ToLocal(st)] + steps, [Killed(st)]);
    assert ([ToLocal(st)] + steps)[1..] == steps;
    var m0 := Next(m, ToLocal(st));
    ErasedStart(m, st);
    RunErased(m0, m, st, steps);
    var m1, n1 := Run(m0, steps).value, Run(m, steps).value;
    assert Run(m1, [Killed(st)]) == Some(Next(m1, Killed(st)));
    ErasedEnd(m1, n1, st);
    RunConcat(m, steps, later);
    RunSame(Next(m1, Killed(st)), n1, later);
    SameReads(Run(Next(m1, Killed(st)), later).value, Run(n1, later).value, cpu, addr, size);
  }

  predicate LoadFits(addr: nat, size: nat) {
    8 <= size && addr % 16 + size / 8 <= 16
  }

  // ----- Which loads a store reaches -----

  /** Two addresses have one cell exactly when, cut to 32 bits, they lie in the same 16 bytes. */
  lemma SameCellExactly(a: nat, x: nat)
    ensures Mask128(a) == Mask128(x) <==> a % 0x1_0000_0000 / 16 == x % 0x1_0000_0000 / 16
  {
    CellStart(a);
    CellStart(x);
  }

  lemma CellStart(a: nat)
    ensures Mask128(a) == a % 0x1_0000_0000 / 16 * 16
  {
    var low, q := a % 0x1_0000_0000, a / 0x1_0000_0000;
    Remainder(a, 16, 0x1000_0000 * q + low / 16, low % 16);
  }

  /** A store made local, killed or made global changes no load outside its 16 bytes. */
  lemma OtherAddressesAlone(m: Memory, s: Step, cpu: nat, addr: nat, size: nat)
    requires Enabled(m, s) && addr % 0x1_0000_0000 / 16 != s.st.addr % 0x1_0000_0000 / 16
    ensures ReadAt(Next(m, s), cpu, addr, size) == ReadAt(m, cpu, addr, size)
  {
    SameCellExactly(addr, s.st.addr);
    hide Mask128;
  }

  /** So over any run a load gets what it got before, unbound if there was no cell, as long as no step
      is on a store in its 16 bytes. */
  lemma {:induction false} RunLeavesOthers(m: Memory, steps: seq<Step>, cpu: nat, addr: nat, size: nat)
    requires ValidMemory(m) && Run(m, steps) != None
    requires forall s | s in steps :: addr % 0x1_0000_0000 / 16 != s.st.addr % 0x1_0000_0000 / 16
    ensures ReadAt(Run(m, steps).value, cpu, addr, size) == ReadAt(m, cpu, addr, size)
    ensures m.cells == map[] ==> ReadAt(m, cpu, addr, size) == Load(seq(16, _ => 0), false)
    decreases |steps|
  {
    if steps != [] {
      assert steps[0] in steps;
      OtherAddressesAlone(m, steps[0], cpu, addr, size);
      RunLeavesOthers(Next(m, steps[0]), steps[1..], cpu, addr, size);
    }
  }

  /** The byte of its cell that an address stands for. */
  function InCell(a: nat): nat {
    a % 16
  }

  /** The bytes a store covers are those of the `size / 8` addresses from its own on. */
  lemma CoversExactly(st: Store, b: nat)
    requires b < 16 && ValidStore(st)
    ensures Covers(st, b) <==> exists a: nat :: st.addr <= a < st.addr + st.size / 8 && InCell(a) == b
  {
    var d := (b - st.addr) % 16;
    Remainder(st.addr + d, 16, -((b - st.addr) / 16), b);
    assert InCell(st.addr + d) == b;
    if a: nat :| st.addr <= a < st.addr + st.size / 8 && InCell(a) == b {
      Remainder(b - st.addr, 16, -(a / 16), a - st.addr);
    }
  }

  /** The bytes a load asks for are those of its own addresses, likewise. */
  lemma RequestedExactly(addr: nat, size: nat, b: nat)
    requires b < 16 && LoadFits(addr, size)
    ensures Requested(addr, size, b) <==> exists a: nat :: addr <= a < addr + size / 8 && InCell(a) == b
  {
    var q := addr / 16;
    if Requested(addr, size, b) {
      Remainder(16 * q + b, 16, q, b);
      assert InCell(16 * q + b) == b;
    }
    if a: nat :| addr <= a < addr + size / 8 && InCell(a) == b {
      Remainder(a, 16, q, a - 16 * q);
    }
  }

  /** In its own 16 bytes a store made local is what loads of its CPU get from then on, byte by byte;
      the bytes it does not cover, and the loads of other CPUs, stay as they were. */
  lemma OwnStoreIsSeen(m: Memory, st: Store, cpu: nat, addr: nat, size: nat)
    requires Enabled(m, ToLocal(st)) && LoadFits(addr, size)
    requires addr % 0x1_0000_0000 / 16 == st.addr % 0x1_0000_0000 / 16
    ensures var before, after := ReadAt(m, cpu, addr, size), ReadAt(Next(m, ToLocal(st)), cpu, addr, size);
      && (cpu != st.cpu ==> after == before)
      && (forall b | 0 <= b < 16 && Requested(addr, size, b) ::
            after.value[b] == if cpu == st.cpu && Covers(st, b) then st.bytes[b] else before.value[b])
      && (cpu == st.cpu && (forall b | 0 <= b < 16 && Requested(addr, size, b) :: Covers(st, b)) ==> after.bound)
      && (before.bound ==> after.bound)
  {
    SameCellExactly(addr, st.addr);
    var n, a := Next(m, ToLocal(st)), Mask128(addr);
    var c, d := CellAt(m, a), CellAt(n, a);
    ReadsCell(m, cpu, addr, size);
    ReadsCell(n, cpu, addr, size);
    assert d == Push(c, st, m.clock);
    hide Mask128, Next, CellAt, Covers, Requested, ReadByte, ReadAt, ValidMemory, Push;
    forall b | 0 <= b < 16
      ensures ReadByte(d, cpu, b).value ==
              if cpu == st.cpu && Covers(st, b) then st.bytes[b] else ReadByte(c, cpu, b).value
      ensures ReadByte(d, cpu, b).stamp != 0 <==> ReadByte(c, cpu, b).stamp != 0 || (cpu == st.cpu && Covers(st, b))
    {
      PushedByte(c, st, m.clock, n.clock, cpu, b);
    }
  }

  lemma FirstPushed(x: Local, stores: seq<Local>, b: nat)
    ensures FirstCovering([x] + stores, b) == if Covers(x.store, b) then 0 else 1 + FirstCovering(stores, b)
  {
    assert ([x] + stores)[1..] == stores;
  }

  lemma PushedByte(c: Cell, st: Store, clock: nat, later: nat, cpu: nat, b: nat)
    requires ValidStore(st) && Ordered(c, clock) && Ordered(Push(c, st, clock), later) && b < 16
    ensures var d := Push(c, st, clock);
      && ReadByte(d, cpu, b).value ==
         (if cpu == st.cpu && Covers(st, b) then st.bytes[b] else ReadByte(c, cpu, b).value)
      && (ReadByte(d, cpu, b).stamp != 0 <==> ReadByte(c, cpu, b).stamp != 0 || (cpu == st.cpu && Covers(st, b)))
  {
    hide ReadByte, Covers, FirstCovering, ValidLocals, View;
    var d, x := Push(c, st, clock), Local(st, clock);
    var stores := LocalsOf(c, cpu);
    InOrder(c, cpu, clock);
    InOrder(d, cpu, later);
    PushedLocals(c, st, clock, cpu);
    FirstPushed(x, stores, b);
    ByView(c, cpu, b, stores);
    ByView(d, cpu, b, if cpu == st.cpu then [x] + stores else stores);
  }

  lemma InOrder(c: Cell, cpu: nat, clock: nat)
    requires Ordered(c, clock)
    ensures ValidCell(c) && Stamped(LocalsOf(c, cpu)) && NewestFirst(LocalsOf(c, cpu))
  {
    assert ValidLocals(LocalsOf(c, cpu), clock);
  }

  lemma PushedLocals(c: Cell, st: Store, clock: nat, cpu: nat)
    ensures var d := Push(c, st, clock);
            LocalsOf(d, cpu) == (if cpu == st.cpu then [Local(st, clock)] + LocalsOf(c, cpu) else LocalsOf(c, cpu))
            && d.global == c.global && d.has == c.has
  {
  }

  /** A byte of a load, given the stores of its CPU. */
  lemma ByView(c: Cell, cpu: nat, b: nat, stores: seq<Local>)
    requires ValidCell(c) && b < 16 && stores == LocalsOf(c, cpu) && Stamped(stores) && NewestFirst(stores)
    ensures var k := FirstCovering(stores, b);
      && ReadByte(c, cpu, b).value == (if k < |stores| then stores[k].store.bytes[b] else c.global[b])
      && (ReadByte(c, cpu, b).stamp != 0 <==> k < |stores| || (b < 8 && c.has[b]))
  {
    ThroughIsView(c, cpu, b);
  }

  /** A store made global writes, of each 16 bytes, the group of its own size whose number its low
      address bits give: every CPU without local stores there gets these bytes, and the others as before. */
  lemma GlobalStoreIsSeen(m: Memory, st: Store, cpu: nat, addr: nat, size: nat, b: nat)
    requires Enabled(m, ToGlobal(st)) && LoadFits(addr, size) && b < 16 && Requested(addr, size, b)
    requires addr % 0x1_0000_0000 / 16 == st.addr % 0x1_0000_0000 / 16
    requires cpu != st.cpu && LocalsOf(CellAt(m, Mask128(addr)), cpu) == []
    ensures var w := st.size / 8;
      ReadAt(Next(m, ToGlobal(st)), cpu, addr, size).value[b] ==
        if b / w == st.addr % (16 / w) then st.bytes[b] else ReadAt(m, cpu, addr, size).value[b]
    ensures var w, c, d := st.size / 8, CellAt(m, Mask128(addr)), CellAt(Next(m, ToGlobal(st)), Mask128(addr));
      |c.has| == |d.has| == 16 && (d.has[b] <==> b / w == st.addr % (16 / w) || c.has[b])
  {
    SameCellExactly(addr, st.addr);
    LaneIsGroup(st, b);
    var n, a := Next(m, ToGlobal(st)), Mask128(addr);
    hide Mask128, Lane;
    ReadsCell(m, cpu, addr, size);
    ReadsCell(n, cpu, addr, size);
    ThroughIsView(CellAt(m, a), cpu, b);
    ThroughIsView(CellAt(n, a), cpu, b);
    WritesTheSame(CellAt(m, a), st);
  }

  /** The lane of a store: its group of bytes, counted in its own size. */
  lemma LaneIsGroup(st: Store, b: nat)
    requires ValidStore(st) && b < 16
    ensures var w := st.size / 8; Lane(st, b) <==> b / w == st.addr % (16 / w)
  {
  }

  // ----- Draining -----

  /** The oldest store of a CPU in its cell, and the only one with its uid. */
  ghost predicate Oldest(m: Memory, st: Store) {
    var stores := LocalsOf(CellAt(m, Mask128(st.addr)), st.cpu);
    && ValidMemory(m) && ValidStore(st) && stores != [] && stores[|stores| - 1].store == st
    && forall i | 0 <= i < |stores| - 1 :: stores[i].store.uid != st.uid
  }

  /** What a CPU sees in byte `b` of a cell. */
  ghost function Sees(m: Memory, a: nat, cpu: nat, b: nat): Byte
    requires ValidMemory(m) && b < 16
  {
    EmptyOrdered(m.clock);
    View(LocalsOf(CellAt(m, a), cpu), CellAt(m, a).global, b)
  }

  ghost predicate KeepsOwnView(m: Memory, st: Store)
    requires ValidMemory(m) && ValidStore(st)
  {
    MakeGlobalValid(m, st);
    forall b | 0 <= b < 16 ::
      Sees(MakeGlobal(m, st), Mask128(st.addr), st.cpu, b) == Sees(m, Mask128(st.addr), st.cpu, b)
  }

  /** The byte a load gets. */
  ghost function LoadByte(m: Memory, cpu: nat, addr: nat, size: nat, b: nat): Byte
    requires ValidMemory(m) && b < 16
  {
    ReadAt(m, cpu, addr, size).value[b]
  }

  /** Draining a store leaves every byte that any load of its CPU asks for. */
  ghost predicate KeepsOwnLoads(m: Memory, st: Store)
    requires ValidMemory(m) && ValidStore(st)
  {
    MakeGlobalValid(m, st);
    forall addr, size, b | LoadFits(addr, size) && b < 16 && Requested(addr, size, b) ::
      LoadByte(MakeGlobal(m, st), st.cpu, addr, size, b) == LoadByte(m, st.cpu, addr, size, b)
  }

  /** A load gets what its CPU sees. */
  lemma LoadSees(m: Memory, cpu: nat, addr: nat, size: nat, b: nat)
    requires ValidMemory(m) && LoadFits(addr, size) && b < 16 && Requested(addr, size, b)
    ensures LoadByte(m, cpu, addr, size, b) == Sees(m, Mask128(addr), cpu, b)
  {
    ReadsCell(m, cpu, addr, size);
    ThroughIsView(CellAt(m, Mask128(addr)), cpu, b);
  }

  /** Draining leaves all other cells. */
  lemma OtherCells(m: Memory, st: Store, addr: nat, b: nat)
    requires ValidMemory(m) && ValidStore(st) && Mask128(addr) != Mask128(st.addr) && b < 16
    ensures ValidMemory(MakeGlobal(m, st))
    ensures Sees(MakeGlobal(m, st), Mask128(addr), st.cpu, b) == Sees(m, Mask128(addr), st.cpu, b)
  {
    MakeGlobalValid(m, st);
    assert CellAt(MakeGlobal(m, st), Mask128(addr)) == CellAt(m, Mask128(addr));
  }

  /** Byte `b` of a cell has an address of its own. */
  lemma ByteAddress(a: nat, b: nat)
    requires b < 16
    ensures var x := Mask128(a) + b; Mask128(x) == Mask128(a) && LoadFits(x, 8) && Requested(x, 8, b)
  {
    var q := a / 16 - 0x1000_0000 * (a / 0x1_0000_0000);
    var x := Mask128(a) + b;
    assert Mask128(a) == 16 * q;
    Remainder(x, 16, q, b);
    Remainder(x, 0x1_0000_0000, 0, x);
  }

  lemma LoadsAreView(m: Memory, st: Store)
    requires ValidMemory(m) && ValidStore(st)
    ensures KeepsOwnLoads(m, st) <==> KeepsOwnView(m, st)
  {
    hide ValidMemory, MakeGlobal, Sees, LoadByte, Mask128, LoadFits, Requested;
    MakeGlobalValid(m, st);
    var n, a := MakeGlobal(m, st), Mask128(st.addr);
    if KeepsOwnView(m, st) {
      forall addr, size, b | LoadFits(addr, size) && b < 16 && Requested(addr, size, b)
        ensures LoadByte(n, st.cpu, addr, size, b) == LoadByte(m, st.cpu, addr, size, b)
      {
        LoadSees(m, st.cpu, addr, size, b);
        LoadSees(n, st.cpu, addr, size, b);
        if Mask128(addr) != a { OtherCells(m, st, addr, b); }
      }
    }
    if KeepsOwnLoads(m, st) {
      forall b | 0 <= b < 16 ensures Sees(n, a, st.cpu, b) == Sees(m, a, st.cpu, b) {
        ByteAddress(st.addr, b);
        LoadSees(m, st.cpu, a + b, 8, b);
        LoadSees(n, st.cpu, a + b, 8, b);
      }
    }
  }

  lemma {:induction false} WithoutOldest(stores: seq<Local>, uid: nat)
    requires stores != [] && stores[|stores| - 1].store.uid == uid
    requires forall i | 0 <= i < |stores| - 1 :: stores[i].store.uid != uid
    ensures WithoutUid(stores, uid) == stores[..|stores| - 1]
  {
    if |stores| > 1 {
      WithoutOldest(stores[1..], uid);
    }
  }

  lemma {:induction false} FirstCoveringFront(stores: seq<Local>, b: nat)
    requires stores != []
    ensures var n := |stores| - 1;
      FirstCovering(stores[..n], b) == if FirstCovering(stores, b) <= n then FirstCovering(stores, b) else n
    ensures FirstCovering(stores, b) == |stores| - 1 ==> Covers(stores[|stores| - 1].store, b)
  {
    if |stores| > 1 && !Covers(stores[0].store, b) {
      FirstCoveringFront(stores[1..], b);
      assert stores[..|stores| - 1][1..] == stores[1..][..|stores| - 2];
    }
  }

  /** What draining leaves of a byte. */
  lemma Drained(m: Memory, st: Store, b: nat)
    requires Oldest(m, st) && b < 16
    ensures var a := Mask128(st.addr);
      var c, stores := CellAt(m, a), LocalsOf(CellAt(m, a), st.cpu);
      var k := FirstCovering(stores, b);
      && ValidMemory(MakeGlobal(m, st)) && Ordered(c, m.clock)
      && LocalsOf(CellAt(MakeGlobal(m, st), a), st.cpu) == stores[..|stores| - 1]
      && CellAt(MakeGlobal(m, st), a).has[b] == (Lane(st, b) || c.has[b])
      && Sees(MakeGlobal(m, st), a, st.cpu, b) ==
         if k < |stores| - 1 then Sees(m, a, st.cpu, b) else if Lane(st, b) then st.bytes[b] else c.global[b]
  {
    var a := Mask128(st.addr);
    MakeGlobalValid(m, st);
    EmptyOrdered(m.clock);
    var stores := LocalsOf(CellAt(m, a), st.cpu);
    WithoutOldest(stores, st.uid);
    FirstCoveringFront(stores, b);
  }

  /** Making a CPU's oldest store in a cell global leaves every byte that a load of that CPU asks for
      as it was exactly when the lanes of the store are the bytes it covers: whatever the memory, for
      8-bit and 128-bit stores and those at the start of a cell, and for no others. */
  lemma DrainingKeepsView(addr: nat, size: nat)
    requires ValidSize(size)
    ensures (forall m, st | Oldest(m, st) && st.addr == addr && st.size == size :: KeepsOwnLoads(m, st))
            <==> size == 8 || size == 128 || addr % 16 == 0
  {
    if size == 8 || size == 128 || addr % 16 == 0 {
      forall m, st | Oldest(m, st) && st.addr == addr && st.size == size ensures KeepsOwnLoads(m, st) {
        RightLaneKeeps(m, st);
        LoadsAreView(m, st);
      }
    } else {
      WrongLaneShows(addr, size);
    }
  }

  lemma RightLaneKeeps(m: Memory, st: Store)
    requires Oldest(m, st) && (st.size == 8 || st.size == 128 || st.addr % 16 == 0)
    ensures KeepsOwnView(m, st)
  {
    var a := Mask128(st.addr);
    LanesRight(st);
    MakeGlobalValid(m, st);
    forall b | 0 <= b < 16 ensures Sees(MakeGlobal(m, st), a, st.cpu, b) == Sees(m, a, st.cpu, b) {
      Drained(m, st, b);
      FirstCoveringFront(LocalsOf(CellAt(m, a), st.cpu), b);
      assert Lane(st, b) <==> Covers(st, b);
    }
  }

  lemma WrongLaneShows(addr: nat, size: nat)
    requires ValidSize(size) && size != 8 && size != 128 && addr % 16 != 0
    ensures exists m, st :: Oldest(m, st) && st.addr == addr && st.size == size && !KeepsOwnLoads(m, st)
  {
    var st := Store(1, 0, addr, size, seq(16, _ => 1));
    var m := OneStore(st);
    WrongLane(st);
    var b: nat :| b < 16 && Lane(st, b) != Covers(st, b);
    Drained(m, st, b);
    FirstCoveringFront([Local(st, 2)], b);
    MakeGlobalValid(m, st);
    assert Sees(MakeGlobal(m, st), Mask128(addr), 0, b) != Sees(m, Mask128(addr), 0, b);
    LoadsAreView(m, st);
  }

  /** A memory with nothing but one local store. */
  lemma OneStore(st: Store) returns (m: Memory)
    requires ValidStore(st)
    ensures Oldest(m, st) && CellAt(m, Mask128(st.addr)).global == Zeros()
    ensures LocalsOf(CellAt(m, Mask128(st.addr)), st.cpu) == [Local(st, 2)]
  {
    var start := Memory(map[], 2);
    MakeLocalValid(start, st);
    m := MakeLocal(start, st);
  }

  /** Draining may still unbind: a byte of the upper half that only the drained store covers has its
      value, but a load no longer counts it as bound. */
  lemma DrainingBinds(m: Memory, st: Store, b: nat)
    requires Oldest(m, st) && b < 16 && (st.size == 8 || st.size == 128 || st.addr % 16 == 0)
    ensures var a := Mask128(st.addr);
      var c, d := CellAt(m, a), CellAt(MakeGlobal(m, st), a);
      var rest := LocalsOf(c, st.cpu)[..|LocalsOf(c, st.cpu)| - 1];
      && ValidCell(c) && ValidCell(d)
      && (ReadByte(c, st.cpu, b).stamp != 0 <==> Covered(rest, b) || Covers(st, b) || (b < 8 && c.has[b]))
      && (ReadByte(d, st.cpu, b).stamp != 0 <==> Covered(rest, b) || (b < 8 && (Covers(st, b) || c.has[b])))
  {
    hide ValidMemory, SetGlobal, Sees, Lane, Covers, ReadByte, LocalsOf, CellAt, MakeGlobal, Covered;
    var a := Mask128(st.addr);
    var c, d := CellAt(m, a), CellAt(MakeGlobal(m, st), a);
    var stores := LocalsOf(c, st.cpu);
    LanesRight(st);
    assert Lane(st, b) <==> Covers(st, b);
    Drained(m, st, b);
    CellIsOrdered(m, a);
    CellIsOrdered(MakeGlobal(m, st), a);
    ByteBound(c, st.cpu, b, m.clock);
    ByteBound(d, st.cpu, b, MakeGlobal(m, st).clock);
    CoveredByLast(stores, b);
  }

  /** A byte of a load is bound exactly when a local store covers it or the mask has its bit. */
  lemma ByteBound(c: Cell, cpu: nat, b: nat, clock: nat)
    requires Ordered(c, clock) && b < 16
    ensures ReadByte(c, cpu, b).stamp != 0 <==> Covered(LocalsOf(c, cpu), b) || (b < 8 && c.has[b])
  {
    assert ValidLocals(LocalsOf(c, cpu), clock);
    GreatestStampWins(LocalsOf(c, cpu), b, Basis(c, b));
  }

  lemma CoveredByLast(stores: seq<Local>, b: nat)
    requires stores != []
    ensures var n := |stores| - 1;
            Covered(stores, b) <==> Covered(stores[..n], b) || Covers(stores[n].store, b)
  {
    hide Covers;
    var n := |stores| - 1;
    if Covered(stores[..n], b) {
      var i :| 0 <= i < n && Covers(stores[..n][i].store, b);
      assert Covers(stores[i].store, b);
    }
    if Covered(stores, b) {
      var i :| 0 <= i < |stores| && Covers(stores[i].store, b);
      if i < n { assert Covers(stores[..n][i].store, b); }
    }
  }
}
