/**
 The Mingo dumper's table of virtual addresses (feeders/inst/mingo/deptable.cpp)
 as what it stands for: rows of records drawn from a pool that can grow. VaTable
 shows that the linked rows in the slot array behave like this.
 */
module VaTableSpec {
  import opened Arithmetic
  import opened Sequences
  import opened Wrappers

  const UINT32_RANGE: nat := 0x1_0000_0000

  datatype Record = Record(address: nat, lastThread: nat, lastIcount: nat)

  datatype Table = Table(rows: seq<seq<Record>>, capacity: nat, limit: nat, resize: nat)

  function Size(rows: seq<seq<Record>>): nat {
    if rows == [] then 0 else |rows[0]| + Size(rows[1..])
  }

  /** Unsigned 32-bit addition, which wraps around. */
  function Sum32(a: nat, b: nat): nat
    requires a < UINT32_RANGE && b < UINT32_RANGE
  {
    if a + b < UINT32_RANGE then a + b else a + b - UINT32_RANGE
  }

  /** The capacity after making room for one more: the pool grows only when it is full. Addition
      wraps around at 32 bits; `None` is a refusal. */
  function GrownFrom(size: nat, capacity: nat, limit: nat, resize: nat): Option<nat>
    requires capacity < UINT32_RANGE && resize < UINT32_RANGE
  {
    var wanted := Sum32(capacity, resize);
    if size != capacity then Some(capacity)
    else if wanted < size || wanted > limit then None
    else Some(wanted)
  }

  predicate WellFormed(t: Table) {
    Size(t.rows) <= t.capacity < UINT32_RANGE && t.limit < UINT32_RANGE && t.resize < UINT32_RANGE
  }

  function Grown(t: Table): Option<nat>
    requires WellFormed(t)
  {
    GrownFrom(Size(t.rows), t.capacity, t.limit, t.resize)
  }

  /** Adding at the end of a row; `None` is one of the fatal errors. */
  function Add(t: Table, row: nat, d: Record): Option<Table>
    requires WellFormed(t) && row < |t.rows|
  {
    if Grown(t) == None || Size(t.rows) >= Grown(t).value then None
    else Some(Table(t.rows[row := t.rows[row] + [d]], Grown(t).value, t.limit, t.resize))
  }

  /** The first record of a row with an address, |row| when there is none. */
  function Find(row: seq<Record>, address: nat): (k: nat)
    ensures k <= |row| && (k < |row| ==> row[k].address == address)
    ensures forall i | 0 <= i < k :: row[i].address != address
  {
    if row == [] || row[0].address == address then 0 else 1 + Find(row[1..], address)
  }

  /** Removing the head of a row, which must have the address. */
  function RemoveHead(t: Table, row: nat, address: nat): Option<Table>
    requires row < |t.rows|
  {
    if t.rows[row] == [] || t.rows[row][0].address != address then None
    else Some(t.(rows := t.rows[row := Without(t.rows[row], 0)]))
  }

  /** Removing the first record with the address from a row, which must have one. */
  function RemoveMid(t: Table, row: nat, address: nat): Option<Table>
    requires row < |t.rows|
  {
    var k := Find(t.rows[row], address);
    if k == |t.rows[row]| then None
    else Some(t.(rows := t.rows[row := Without(t.rows[row], k)]))
  }

  lemma {:induction false} SizeUpdate(rows: seq<seq<Record>>, r: nat, row: seq<Record>)
    requires r < |rows|
    ensures Size(rows[r := row]) == Size(rows) - |rows[r]| + |row|
  {
    if r == 0 {
      assert rows[r := row][1..] == rows[1..];
    } else {
      SizeUpdate(rows[1..], r - 1, row);
      assert rows[r := row][1..] == rows[1..][r - 1 := row];
    }
  }

  /** An add fails exactly when the pool is full and cannot grow. That a sum wraps around never
      makes a difference. */
  lemma AddFailsExactly(t: Table, row: nat, d: Record)
    requires WellFormed(t) && row < |t.rows|
    ensures Add(t, row, d) == None <==>
            Size(t.rows) == t.capacity && (t.resize == 0 || t.capacity + t.resize > t.limit)
    ensures Add(t, row, d) != None ==>
      var u := Add(t, row, d).value;
      WellFormed(u) && Size(u.rows) == Size(t.rows) + 1 &&
      u.capacity <= (if t.capacity > t.limit then t.capacity else t.limit)
  {
    SizeUpdate(t.rows, row, t.rows[row] + [d]);
  }

  /** What a successful add does: the record goes behind those of its row, and a full pool grows by one
      step. */
  lemma AddExactly(t: Table, row: nat, d: Record)
    requires WellFormed(t) && row < |t.rows| && Add(t, row, d) != None
    ensures var u := Add(t, row, d).value;
      && |u.rows| == |t.rows| && u.rows[row] == t.rows[row] + [d]
      && (forall r | 0 <= r < |t.rows| && r != row :: u.rows[r] == t.rows[r])
      && u.capacity == (if Size(t.rows) == t.capacity then t.capacity + t.resize else t.capacity)
      && u.limit == t.limit && u.resize == t.resize
  {
    AddFailsExactly(t, row, d);
  }

  /** What the two removals do: the one takes the first record of the row, and fails when that is not
      the one named; the other takes the first record with the address, and fails when there is none. */
  lemma RemoveExactly(t: Table, row: nat, address: nat)
    requires row < |t.rows|
    ensures var was, k := t.rows[row], Find(t.rows[row], address);
      && (RemoveHead(t, row, address) != None <==> was != [] && was[0].address == address)
      && (RemoveMid(t, row, address) != None <==> exists d :: d in was && d.address == address)
      && (RemoveMid(t, row, address) != None ==>
            && k < |was| && was[k].address == address && (forall i | 0 <= i < k :: was[i].address != address)
            && RemoveMid(t, row, address).value == t.(rows := t.rows[row := was[..k] + was[k + 1..]]))
      && (RemoveHead(t, row, address) != None ==>
            RemoveHead(t, row, address).value == t.(rows := t.rows[row := was[1..]]))
  {
    var was, k := t.rows[row], Find(t.rows[row], address);
    if k < |was| { assert was[k] in was; }
    if d :| d in was && d.address == address {
      var i :| 0 <= i < |was| && was[i] == d;
      assert i >= k;
    }
    if was != [] { assert Without(was, 0) == was[1..]; }
  }

  /** Removing by address undoes an add, if the row had no record with that address before. */
  lemma RemoveUndoesAdd(t: Table, row: nat, d: Record)
    requires WellFormed(t) && row < |t.rows| && Add(t, row, d) != None
    requires forall x | x in t.rows[row] :: x.address != d.address
    ensures var u := Add(t, row, d).value;
            row < |u.rows| && RemoveMid(u, row, d.address) == Some(u.(rows := t.rows))
  {
    var u, was := Add(t, row, d).value, t.rows[row];
    var k := Find(u.rows[row], d.address);
    assert u.rows[row][|was|] == d;
    assert forall i | 0 <= i < |was| :: u.rows[row][i] == was[i] && was[i] in was;
    assert Without(u.rows[row], k) == was;
    assert u.rows[row := was] == t.rows;
  }

  // ----- Runs -----

  datatype Step =
    | DoAdd(row: nat, d: Record) | DoRemoveHead(row: nat, address: nat) | DoRemoveMid(row: nat, address: nat)

  function Next(t: Table, s: Step): Option<Table>
    requires WellFormed(t) && s.row < |t.rows|
  {
    match s
    case DoAdd(row, d) => Add(t, row, d)
    case DoRemoveHead(row, address) => RemoveHead(t, row, address)
    case DoRemoveMid(row, address) => RemoveMid(t, row, address)
  }

  lemma NextWellFormed(t: Table, s: Step)
    requires WellFormed(t) && s.row < |t.rows| && Next(t, s) != None
    ensures WellFormed(Next(t, s).value)
  {
    match s
    case DoAdd(row, d) => AddFailsExactly(t, row, d);
    case DoRemoveHead(row, address) => SizeUpdate(t.rows, row, Without(t.rows[row], 0));
    case DoRemoveMid(row, address) => SizeUpdate(t.rows, row, Without(t.rows[row], Find(t.rows[row], address)));
  }

  function Run(t: Table, steps: seq<Step>): (r: Option<Table>)
    requires WellFormed(t)
    ensures r != None ==> WellFormed(r.value) && |r.value.rows| == |t.rows|
    decreases |steps|
  {
    if steps == [] then Some(t)
    else if steps[0].row < |t.rows| && Next(t, steps[0]) != None then
      NextWellFormed(t, steps[0]);
      Run(Next(t, steps[0]).value, steps[1..])
    else None
  }

  /** A whole number of steps of size `n`. */
  predicate Steps(a: nat, n: nat)
    requires n > 0
  {
    a == 0 || (a >= n && Steps(a - n, n))
  }

  lemma {:induction false} MultipleIsSteps(a: nat, n: nat)
    requires n > 0 && a % n == 0
    ensures Steps(a, n)
  {
    if a > 0 {
      var q, q' := a / n, (a - n) / n;
      ProductIsLarge(n, q);
      assert a >= n;
      var r := (a - n) % n;
      assert n * (q - 1 - q') == r;
      ProductIsLarge(n, q - 1 - q');
      MultipleIsSteps(a - n, n);
    }
  }

  /** The pool has grown by whole steps from where it started. */
  predicate GrownBySteps(t: Table, start: nat) {
    WellFormed(t) && t.resize > 0 && start <= t.capacity && Steps(t.capacity - start, t.resize)
    && (start <= t.limit ==> t.capacity <= t.limit)
  }

  lemma StepKeeps(t: Table, s: Step, start: nat)
    requires GrownBySteps(t, start) && s.row < |t.rows| && Next(t, s) != None
    ensures var u := Next(t, s).value;
            GrownBySteps(u, start) && u.limit == t.limit && u.resize == t.resize && |u.rows| == |t.rows|
  {
    match s
    case DoAdd(row, d) =>
      AddFailsExactly(t, row, d);
    case DoRemoveHead(row, address) => SizeUpdate(t.rows, row, Without(t.rows[row], 0));
    case DoRemoveMid(row, address) => SizeUpdate(t.rows, row, Without(t.rows[row], Find(t.rows[row], address)));
  }

  lemma {:induction false} RunKeeps(t: Table, steps: seq<Step>, start: nat)
    requires GrownBySteps(t, start) && Run(t, steps) != None
    ensures var u := Run(t, steps).value;
            GrownBySteps(u, start) && u.limit == t.limit && u.resize == t.resize && |u.rows| == |t.rows|
    decreases |steps|
  {
    if steps != [] {
      StepKeeps(t, steps[0], start);
      RunKeeps(Next(t, steps[0]).value, steps[1..], start);
    }
  }

  /** In every run, an add fails exactly when the limit has been reached. */
  ghost predicate FailsOnlyFull(t: Table)
    requires WellFormed(t)
  {
    forall steps, row: nat, d | Run(t, steps) != None && row < |t.rows| :: FullFails(Run(t, steps).value, row, d)
  }

  predicate FullFails(t: Table, row: nat, d: Record)
    requires WellFormed(t) && row < |t.rows|
  {
    Add(t, row, d) == None <==> Size(t.rows) == t.limit
  }

  /** Adds fail only at the limit exactly when the room up to it is a whole number of steps. */
  lemma FailsOnlyAtLimit(t: Table)
    requires WellFormed(t) && t.resize > 0 && t.rows != []
    ensures FailsOnlyFull(t) <==> t.capacity <= t.limit && (t.limit - t.capacity) % t.resize == 0
  {
    if t.capacity <= t.limit && (t.limit - t.capacity) % t.resize == 0 {
      forall steps, row: nat, d | Run(t, steps) != None && row < |t.rows|
        ensures FullFails(Run(t, steps).value, row, d)
      {
        WholeStepsSuffice(t, steps, row, d);
      }
    } else {
      var d := Record(0, 0, 0);
      var steps := FailsBelowLimit(t, d);
      var u := Run(t, steps).value;
      assert !FullFails(u, 0, d);
    }
  }

  lemma WholeStepsSuffice(t: Table, steps: seq<Step>, row: nat, d: Record)
    requires WellFormed(t) && t.resize > 0 && t.capacity <= t.limit && (t.limit - t.capacity) % t.resize == 0
    requires Run(t, steps) != None && row < |t.rows|
    ensures FullFails(Run(t, steps).value, row, d)
  {
    RunKeeps(t, steps, t.capacity);
    MultipleIsSteps(t.limit - t.capacity, t.resize);
    var u := Run(t, steps).value;
    AddFailsExactly(u, row, d);
    if u.capacity < t.limit {
      RoomForOneStep(t.limit - t.capacity, u.capacity - t.capacity, t.resize);
    }
  }

  /** Otherwise filling one row comes to an add that fails elsewhere: below the limit, or, when the
      pool was larger than the limit to begin with, above it. */
  lemma FailsBelowLimit(t: Table, d: Record) returns (steps: seq<Step>)
    requires WellFormed(t) && t.resize > 0 && t.rows != []
    requires t.capacity > t.limit || (t.limit - t.capacity) % t.resize != 0
    ensures Run(t, steps) != None
    ensures var u := Run(t, steps).value;
            Add(u, 0, d) == None && u.limit == t.limit &&
            if t.capacity <= t.limit then Size(u.rows) < t.limit else Size(u.rows) > t.limit
  {
    steps := Fill(t, d);
    RunKeeps(t, steps, t.capacity);
    var u := Run(t, steps).value;
    AddFailsExactly(u, 0, d);
    if u.capacity == t.limit {
      StepsIsMultiple(t.limit - t.capacity, t.resize);
    }
  }

  /** Adds to the first row until one is refused. */
  lemma {:induction false} Fill(t: Table, d: Record) returns (steps: seq<Step>)
    requires WellFormed(t) && t.rows != []
    ensures Run(t, steps) != None && Add(Run(t, steps).value, 0, d) == None
    decreases UINT32_RANGE - Size(t.rows)
  {
    if Add(t, 0, d) == None {
      steps := [];
    } else {
      AddFailsExactly(t, 0, d);
      var s := DoAdd(0, d);
      var rest := Fill(Next(t, s).value, d);
      steps := [s] + rest;
      assert steps[1..] == rest;
    }
  }

  /** Different whole numbers of steps differ by at least one. */
  lemma {:induction false} RoomForOneStep(a: nat, b: nat, n: nat)
    requires n > 0 && Steps(a, n) && Steps(b, n) && b < a
    ensures b + n <= a
    decreases b
  {
    if b > 0 {
      RoomForOneStep(a - n, b - n, n);
    }
  }

  lemma {:induction false} StepsIsMultiple(a: nat, n: nat)
    requires n > 0 && Steps(a, n)
    ensures a % n == 0
  {
    if a > 0 {
      StepsIsMultiple(a - n, n);
      assert n * ((a - n) / n + 1) == a;
      NoRemainder(a, n, (a - n) / n + 1);
    }
  }
}
