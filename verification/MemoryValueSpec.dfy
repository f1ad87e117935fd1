/**
 The memory-value model (feeders/memory-values/memory-values.cpp and .h) on
 values: what a load reads, and what whole runs of stores guarantee.
 */
module MemoryValueSpec {
  import opened Arithmetic
  import opened Wrappers

  type Byte = x: nat | x < 256
  const MAX_STAMP: nat := 0xFFFF_FFFF

  /** Addresses are cut to 32 bits before the 16-byte cell is looked up. */
  function Mask128(a: nat): nat {
    a % 0x1_0000_0000 - a % 16
  }

  /** A store; `bytes` is its 16-byte value, each byte at the place its address selects. Size in bits. */
  datatype Store = Store(uid: nat, cpu: nat, addr: nat, size: nat, bytes: seq<Byte>)

  predicate ValidSize(size: nat) {
    size == 8 || size == 16 || size == 32 || size == 64 || size == 128
  }

  predicate ValidStore(st: Store) {
    ValidSize(st.size) && |st.bytes| == 16
  }

  /** The bytes of its cell that a store writes; one that runs over the end wraps around. */
  predicate Covers(st: Store, b: nat) {
    (b - st.addr) % 16 < st.size / 8
  }

  datatype Local = Local(store: Store, stamp: nat)

  /** A cell: the global image, which of its bytes are known, and each CPU's local stores, newest first. */
  datatype Cell = Cell(global: seq<Byte>, has: seq<bool>, locals: map<nat, seq<Local>>)

  function Zeros(): seq<Byte> {
    seq(16, _ => 0)
  }

  function EmptyCell(): Cell {
    Cell(Zeros(), seq(16, _ => false), map[])
  }

  function LocalsOf(c: Cell, cpu: nat): seq<Local> {
    if cpu in c.locals then c.locals[cpu] else []
  }

  predicate ValidCell(c: Cell) {
    |c.global| == 16 && |c.has| == 16
    && forall cpu | cpu in c.locals :: forall i | 0 <= i < |c.locals[cpu]| :: ValidStore(c.locals[cpu][i].store)
  }

  // ----- Reading -----

  /** The stamp and value byte `b` has got so far. */
  datatype Bind = Bind(stamp: nat, value: Byte)

  /** Presence of a global byte is passed on in an 8-bit mask, which loses the upper half. */
  function Basis(c: Cell, b: nat): Bind
    requires ValidCell(c) && b < 16
  {
    Bind(if b < 8 && c.has[b] then 1 else 0, c.global[b])
  }

  /** A newer store that covers the byte takes over. */
  function Newer(s: Local, b: nat, before: Bind): Bind
    requires b < 16 && ValidStore(s.store)
  {
    if Covers(s.store, b) && before.stamp < s.stamp then Bind(s.stamp, s.store.bytes[b]) else before
  }

  /** The byte bound by going through local stores: each newer one that covers it takes over. */
  function Through(stores: seq<Local>, b: nat, start: Bind): Bind
    requires b < 16 && forall i | 0 <= i < |stores| :: ValidStore(stores[i].store)
  {
    if stores == [] then start
    else
      Newer(stores[|stores| - 1], b, Through(stores[..|stores| - 1], b, start))
  }

  predicate Requested(addr: nat, size: nat, b: nat) {
    addr % 16 <= b < addr % 16 + size / 8
  }

  /** What a load gets from a cell: byte by byte, and whether every requested byte was bound. */
  function ReadByte(c: Cell, cpu: nat, b: nat): Bind
    requires ValidCell(c) && b < 16
  {
    Through(LocalsOf(c, cpu), b, Basis(c, b))
  }

  /** The byte of a load's value: those not asked for come from the global image. */
  function ValueByte(c: Cell, cpu: nat, addr: nat, size: nat, b: nat): Byte
    requires ValidCell(c) && b < 16
  {
    if Requested(addr, size, b) then ReadByte(c, cpu, b).value else c.global[b]
  }

  ghost predicate AllBound(c: Cell, cpu: nat, addr: nat, size: nat)
    requires ValidCell(c)
  {
    forall b | 0 <= b < 16 && Requested(addr, size, b) :: ReadByte(c, cpu, b).stamp != 0
  }

  /** A load of a fresh operation: its value and whether it is bound. Without a cell it stays as it was. */
  datatype Load = Load(value: seq<Byte>, bound: bool)

  ghost function Read(cell: Option<Cell>, cpu: nat, addr: nat, size: nat): Load
    requires cell != None ==> ValidCell(cell.value)
  {
    match cell
    case None => Load(Zeros(), false)
    case Some(c) =>
      Load(seq(16, b requires 0 <= b < 16 => ValueByte(c, cpu, addr, size, b)), AllBound(c, cpu, addr, size))
  }

  /** Whether some store covers a byte. */
  predicate Covered(stores: seq<Local>, b: nat) {
    exists i :: 0 <= i < |stores| && Covers(stores[i].store, b)
  }

  predicate Stamped(stores: seq<Local>) {
    forall i | 0 <= i < |stores| :: 1 < stores[i].stamp <= MAX_STAMP && ValidStore(stores[i].store)
  }

  predicate NewestFirst(stores: seq<Local>) {
    forall i, j | 0 <= i < j < |stores| :: stores[i].stamp > stores[j].stamp
  }

  /** A byte is that of the covering local store with the greatest stamp, else the global one; and it
      is bound exactly when there is such a store or the mask has its bit. */
  lemma {:induction false} GreatestStampWins(stores: seq<Local>, b: nat, start: Bind)
    requires b < 16 && Stamped(stores) && start.stamp <= 1
    ensures var r := Through(stores, b, start);
      && (!Covered(stores, b) ==> r == start)
      && (Covered(stores, b) ==>
            exists i :: (0 <= i < |stores| && Covers(stores[i].store, b)
                         && r == Bind(stores[i].stamp, stores[i].store.bytes[b])))
      && (forall i | 0 <= i < |stores| && Covers(stores[i].store, b) :: stores[i].stamp <= r.stamp)
      && (r.stamp != 0 <==> Covered(stores, b) || start.stamp != 0)
  {
    if stores != [] {
      var n := |stores| - 1;
      var front := stores[..n];
      GreatestStampWins(front, b, start);
      assert forall i | 0 <= i < n :: front[i] == stores[i];
      if Covered(front, b) {
        var i :| 0 <= i < n && Covers(front[i].store, b);
        assert Covers(stores[i].store, b);
      }
    }
  }

  /** A load, in terms of the stores and the global image. */
  lemma ReadIsNewest(c: Cell, cpu: nat, addr: nat, size: nat)
    requires ValidCell(c) && Stamped(LocalsOf(c, cpu)) && addr % 16 + size / 8 <= 16
    ensures var stores, load := LocalsOf(c, cpu), Read(Some(c), cpu, addr, size);
      && (forall b | 0 <= b < 16 && (!Requested(addr, size, b) || !Covered(stores, b)) :: load.value[b] == c.global[b])
      && (forall b, i | 0 <= b < 16 && Requested(addr, size, b) && 0 <= i < |stores| && Covers(stores[i].store, b)
            && (forall j | 0 <= j < |stores| && Covers(stores[j].store, b) :: stores[j].stamp <= stores[i].stamp)
            && (forall j | 0 <= j < |stores| && j != i :: stores[j].stamp != stores[i].stamp) ::
            load.value[b] == stores[i].store.bytes[b])
      && (load.bound <==>
            forall b | 0 <= b < 16 && Requested(addr, size, b) :: Covered(stores, b) || (b < 8 && c.has[b]))
  {
    var stores, load := LocalsOf(c, cpu), Read(Some(c), cpu, addr, size);
    forall b | 0 <= b < 16
      ensures !Covered(stores, b) ==> ReadByte(c, cpu, b) == Basis(c, b)
      ensures ReadByte(c, cpu, b).stamp != 0 <==> Covered(stores, b) || (b < 8 && c.has[b])
    {
      GreatestStampWins(stores, b, Basis(c, b));
    }
    forall b, i | 0 <= b < 16 && Requested(addr, size, b) && 0 <= i < |stores| && Covers(stores[i].store, b)
      && (forall j | 0 <= j < |stores| && Covers(stores[j].store, b) :: stores[j].stamp <= stores[i].stamp)
      && (forall j | 0 <= j < |stores| && j != i :: stores[j].stamp != stores[i].stamp)
      ensures load.value[b] == stores[i].store.bytes[b]
    {
      GreatestStampWins(stores, b, Basis(c, b));
      assert Covered(stores, b);
      var k :| 0 <= k < |stores| && Covers(stores[k].store, b)
        && Through(stores, b, Basis(c, b)) == Bind(stores[k].stamp, stores[k].store.bytes[b]);
      assert stores[k].stamp >= stores[i].stamp;
    }
  }

  // ----- Newest-first lists: the first covering store -----

  /** The position of the first store covering a byte, |stores| when there is none. */
  function FirstCovering(stores: seq<Local>, b: nat): (k: nat)
    ensures k <= |stores| && (forall i | 0 <= i < k :: !Covers(stores[i].store, b))
    ensures k < |stores| ==> Covers(stores[k].store, b)
  {
    if stores == [] || Covers(stores[0].store, b) then 0 else 1 + FirstCovering(stores[1..], b)
  }

  function ByteOf(st: Store, b: nat): Byte
    requires b < 16 && ValidStore(st)
  {
    st.bytes[b]
  }

  /** What a CPU sees in a byte: its newest store there, or the global image. */
  function View(stores: seq<Local>, global: seq<Byte>, b: nat): Byte
    requires b < 16 && |global| == 16 && forall i | 0 <= i < |stores| :: ValidStore(stores[i].store)
  {
    if FirstCovering(stores, b) < |stores| then ByteOf(stores[FirstCovering(stores, b)].store, b) else global[b]
  }

  /** With the list newest first, the loops over it amount to taking the first covering store. */
  lemma ThroughIsView(c: Cell, cpu: nat, b: nat)
    requires ValidCell(c) && b < 16 && Stamped(LocalsOf(c, cpu)) && NewestFirst(LocalsOf(c, cpu))
    ensures var stores := LocalsOf(c, cpu);
      && ReadByte(c, cpu, b).value == View(stores, c.global, b)
      && (ReadByte(c, cpu, b).stamp != 0 <==> FirstCovering(stores, b) < |stores| || (b < 8 && c.has[b]))
  {
    var stores, k := LocalsOf(c, cpu), FirstCovering(LocalsOf(c, cpu), b);
    GreatestStampWins(stores, b, Basis(c, b));
    if k < |stores| {
      assert Covered(stores, b);
      var r := ReadByte(c, cpu, b);
      var i :| 0 <= i < |stores| && Covers(stores[i].store, b) && r == Bind(stores[i].stamp, stores[i].store.bytes[b]);
      assert stores[k].stamp <= r.stamp;
    }
  }

  // ----- Making stores local and global -----

  /** `clock` is the next time stamp. */
  datatype Memory = Memory(cells: map<nat, Cell>, clock: nat)

  ghost predicate ValidLocals(stores: seq<Local>, clock: nat) {
    Stamped(stores) && NewestFirst(stores) && forall i | 0 <= i < |stores| :: stores[i].stamp < clock
  }

  ghost predicate Ordered(c: Cell, clock: nat) {
    ValidCell(c) && forall cpu :: ValidLocals(LocalsOf(c, cpu), clock)
  }

  lemma EmptyOrdered(clock: nat)
    ensures Ordered(EmptyCell(), clock)
  {
  }

  ghost predicate ValidMemory(m: Memory) {
    2 <= m.clock && forall a | a in m.cells :: Ordered(m.cells[a], m.clock) && ValidCell(m.cells[a])
  }

  /** A load on a fresh operation. */
  ghost function ReadAt(m: Memory, cpu: nat, addr: nat, size: nat): Load
    requires ValidMemory(m)
  {
    Read(if Mask128(addr) in m.cells then Some(m.cells[Mask128(addr)]) else None, cpu, addr, size)
  }

  function CellAt(m: Memory, a: nat): Cell {
    if a in m.cells then m.cells[a] else EmptyCell()
  }

  function WithLocals(c: Cell, cpu: nat, stores: seq<Local>): Cell {
    Cell(c.global, c.has, c.locals[cpu := stores])
  }

  function PutCell(m: Memory, a: nat, c: Cell): Memory {
    Memory(m.cells[a := c], m.clock)
  }

  function Push(c: Cell, st: Store, stamp: nat): Cell {
    WithLocals(c, st.cpu, [Local(st, stamp)] + LocalsOf(c, st.cpu))
  }

  /** A CPU's own view gets a store, as its newest. */
  function MakeLocal(m: Memory, st: Store): Memory {
    Memory(m.cells[Mask128(st.addr) := Push(CellAt(m, Mask128(st.addr)), st, m.clock)], m.clock + 1)
  }

  function WithoutUid(stores: seq<Local>, uid: nat): (r: seq<Local>)
    ensures |r| <= |stores| && forall s | s in r :: s in stores
  {
    if stores == [] then []
    else if stores[0].store.uid == uid then WithoutUid(stores[1..], uid)
    else [stores[0]] + WithoutUid(stores[1..], uid)
  }

  function Forget(c: Cell, st: Store): Cell {
    if st.cpu in c.locals then WithLocals(c, st.cpu, WithoutUid(c.locals[st.cpu], st.uid)) else c
  }

  lemma ForgetValid(c: Cell, st: Store)
    requires ValidCell(c)
    ensures ValidCell(Forget(c, st))
  {
    if st.cpu in c.locals {
      var left := WithoutUid(c.locals[st.cpu], st.uid);
      forall i | 0 <= i < |left| ensures ValidStore(left[i].store) {
        assert left[i] in c.locals[st.cpu];
      }
    }
  }

  function Kill(m: Memory, st: Store): Memory {
    if Mask128(st.addr) in m.cells then PutCell(m, Mask128(st.addr), Forget(m.cells[Mask128(st.addr)], st)) else m
  }

  /** The bytes of the global image a store writes: low address bits serve as the lane number. */
  predicate Lane(st: Store, b: nat)
    requires ValidSize(st.size)
  {
    if st.size == 8 then b == st.addr % 16
    else if st.size == 16 then 2 * (st.addr % 8) <= b < 2 * (st.addr % 8) + 2
    else if st.size == 32 then 4 * (st.addr % 4) <= b < 4 * (st.addr % 4) + 4
    else if st.size == 64 then 8 * (st.addr % 2) <= b < 8 * (st.addr % 2) + 8
    else true
  }

  function GlobalByte(c: Cell, st: Store, b: nat): Byte
    requires ValidCell(c) && ValidStore(st) && b < 16
  {
    if Lane(st, b) then st.bytes[b] else c.global[b]
  }

  function GlobalHas(c: Cell, st: Store, b: nat): bool
    requires ValidCell(c) && ValidStore(st) && b < 16
  {
    Lane(st, b) || c.has[b]
  }

  function SetGlobal(c: Cell, st: Store): Cell
    requires ValidCell(c) && ValidStore(st)
  {
    Cell(seq(16, b requires 0 <= b < 16 => GlobalByte(c, st, b)),
         seq(16, b requires 0 <= b < 16 => GlobalHas(c, st, b)), c.locals)
  }

  /** Forgetting a store first does not change what it writes. */
  lemma WritesTheSame(c: Cell, st: Store)
    requires ValidCell(c) && ValidStore(st)
    ensures ValidCell(Forget(c, st))
    ensures var d := SetGlobal(Forget(c, st), st);
            d.locals == Forget(c, st).locals && d.global == SetGlobal(c, st).global && d.has == SetGlobal(c, st).has
  {
    ForgetValid(c, st);
  }

  /** A store leaves its CPU's own view and goes to the global image. */
  ghost function MakeGlobal(m: Memory, st: Store): Memory
    requires ValidStore(st) && ValidMemory(m)
  {
    ForgetValid(CellAt(m, Mask128(st.addr)), st);
    PutCell(m, Mask128(st.addr), SetGlobal(Forget(CellAt(m, Mask128(st.addr)), st), st))
  }

  lemma {:induction false} WithoutUidKeeps(stores: seq<Local>, uid: nat, clock: nat)
    requires ValidLocals(stores, clock)
    ensures ValidLocals(WithoutUid(stores, uid), clock)
  {
    if stores != [] {
      var rest := WithoutUid(stores[1..], uid);
      assert ValidLocals(stores[1..], clock) by {
        assert forall i | 0 <= i < |stores| - 1 :: stores[1..][i] == stores[i + 1];
      }
      WithoutUidKeeps(stores[1..], uid, clock);
      forall i | 0 <= i < |rest| ensures rest[i].stamp < stores[0].stamp {
        assert rest[i] in stores[1..];
        var k :| 0 <= k < |stores[1..]| && stores[1..][k] == rest[i];
        assert stores[k + 1] == rest[i];
      }
    }
  }

  lemma ForgetOrdered(c: Cell, st: Store, clock: nat)
    requires Ordered(c, clock)
    ensures Ordered(Forget(c, st), clock)
  {
    WithoutUidKeeps(LocalsOf(c, st.cpu), st.uid, clock);
    var d := Forget(c, st);
    forall cpu
      ensures LocalsOf(d, cpu) == if cpu == st.cpu then WithoutUid(LocalsOf(c, cpu), st.uid) else LocalsOf(c, cpu)
    {
    }
  }

  lemma MakeLocalValid(m: Memory, st: Store)
    requires ValidMemory(m) && ValidStore(st) && m.clock <= MAX_STAMP
    ensures ValidMemory(MakeLocal(m, st))
  {
    var a := Mask128(st.addr);
    var c, n := CellAt(m, a), MakeLocal(m, st);
    var stores := LocalsOf(c, st.cpu);
    assert Ordered(c, m.clock);
    assert ValidLocals([Local(st, m.clock)] + stores, m.clock + 1);
    forall x | x in n.cells ensures Ordered(n.cells[x], n.clock) {
      forall cpu ensures ValidLocals(LocalsOf(n.cells[x], cpu), n.clock) {
        if x != a { assert ValidLocals(LocalsOf(m.cells[x], cpu), m.clock); }
        if x == a && cpu != st.cpu { assert ValidLocals(LocalsOf(c, cpu), m.clock); }
      }
    }
  }

  lemma KillValid(m: Memory, st: Store)
    requires ValidMemory(m)
    ensures ValidMemory(Kill(m, st))
  {
    var a := Mask128(st.addr);
    if a in m.cells { ForgetOrdered(m.cells[a], st, m.clock); }
  }

  lemma MakeGlobalValid(m: Memory, st: Store)
    requires ValidMemory(m) && ValidStore(st)
    ensures ValidMemory(MakeGlobal(m, st))
  {
    var a := Mask128(st.addr);
    if a in m.cells { ForgetOrdered(m.cells[a], st, m.clock); }
    var c := if a in m.cells then Forget(m.cells[a], st) else EmptyCell();
    assert Ordered(c, m.clock);
    assert forall cpu :: LocalsOf(SetGlobal(c, st), cpu) == LocalsOf(c, cpu);
  }

  /** Every cell of a valid memory, made or not, is in order. */
  lemma CellIsOrdered(m: Memory, a: nat)
    requires ValidMemory(m)
    ensures Ordered(CellAt(m, a), m.clock) && ValidCell(CellAt(m, a))
  {
    EmptyOrdered(m.clock);
  }

  // ----- Draining -----

  /** The lanes of a global store are the bytes it covers exactly for 8-bit and 128-bit stores and
      for those at the start of a cell. */
  lemma LanesRight(st: Store)
    requires ValidSize(st.size)
    ensures (forall b | 0 <= b < 16 :: Lane(st, b) <==> Covers(st, b))
            <==> st.size == 8 || st.size == 128 || st.addr % 16 == 0
  {
    if st.size == 8 || st.size == 128 || st.addr % 16 == 0 {
      forall b | 0 <= b < 16 ensures Lane(st, b) <==> Covers(st, b) {
        RightLane(st, b);
      }
    } else {
      WrongLane(st);
    }
  }

  lemma RightLane(st: Store, b: nat)
    requires ValidSize(st.size) && b < 16 && (st.size == 8 || st.size == 128 || st.addr % 16 == 0)
    ensures Lane(st, b) <==> Covers(st, b)
  {
    if st.size == 8 {
      SameResidue(st.addr);
    } else if st.size < 128 {
      AlignedLane(st, b);
    }
  }

  lemma AlignedLane(st: Store, b: nat)
    requires (st.size == 16 || st.size == 32 || st.size == 64) && b < 16 && st.addr % 16 == 0
    ensures Lane(st, b) <==> Covers(st, b)
  {
    hide Lane;
    ZeroResidues(st.addr);
    Remainder(b - st.addr, 16, -(st.addr / 16), b);
    AlignedBytes(st, b);
  }

  lemma AlignedBytes(st: Store, b: nat)
    requires (st.size == 16 || st.size == 32 || st.size == 64) && b < 16
    requires st.addr % 8 == 0 && st.addr % 4 == 0 && st.addr % 2 == 0
    ensures Lane(st, b) <==> b < st.size / 8
  {
  }

  lemma ZeroResidues(a: nat)
    requires a % 16 == 0
    ensures a % 8 == 0 && a % 4 == 0 && a % 2 == 0
  {
    var q := a / 16;
    NoRemainder(a, 8, 2 * q);
    NoRemainder(a, 4, 4 * q);
    NoRemainder(a, 2, 8 * q);
  }

  lemma Residues(a: nat)
    ensures a % 8 == (a % 16) % 8 && a % 4 == (a % 16) % 4 && a % 2 == (a % 16) % 2
  {
  }

  lemma SameResidue(a: nat)
    ensures forall b: nat {:trigger (b - a) % 16} | b < 16 ::
      (b - a) % 16 == if b >= a % 16 then b - a % 16 else b - a % 16 + 16
  {
  }

  /** Off the start of a cell, a 16-, 32- or 64-bit store has a lane that misses one of its bytes. */
  lemma WrongLane(st: Store)
    requires st.size == 16 || st.size == 32 || st.size == 64
    requires st.addr % 16 != 0
    ensures exists b :: 0 <= b < 16 && Lane(st, b) != Covers(st, b)
  {
    Residues(st.addr);
    SameResidue(st.addr);
    var b := if st.size == 16 then Misses16(st.addr % 16) else if st.size == 32 then Misses32(st.addr % 16)
             else Misses64(st.addr % 16);
    assert Lane(st, b) != Covers(st, b);
  }

  /** Whether byte `b` is one of the `w` bytes from `x` on, going round. */
  predicate Among(b: nat, x: nat, w: nat)
    requires b < 16 && x < 16
  {
    (if b >= x then b - x else b - x + 16) < w
  }

  function Misses16(x: nat): (b: nat)
    requires 0 < x < 16
    ensures b < 16 && (2 * (x % 8) <= b < 2 * (x % 8) + 2) != Among(b, x, 2)
  {
    if x == 15 then 14 else x
  }

  function Misses32(x: nat): (b: nat)
    requires 0 < x < 16
    ensures b < 16 && (4 * (x % 4) <= b < 4 * (x % 4) + 4) != Among(b, x, 4)
  {
    if x == 5 then 4 else if x == 10 then 8 else if x == 15 then 12 else x
  }

  function Misses64(x: nat): (b: nat)
    requires 0 < x < 16
    ensures b < 16 && (8 * (x % 2) <= b < 8 * (x % 2) + 8) != Among(b, x, 8)
  {
    if x % 2 == 0 then (if x < 8 then 0 else x) else if x < 8 then x else 8
  }
}
