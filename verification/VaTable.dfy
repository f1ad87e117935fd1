/**
 The virtual-address table as the source keeps it (feeders/inst/mingo/deptable.cpp):
 one growable array of slots in which every row is a doubly linked list.
 */
module VaTable {
  import opened Sequences
  import opened Wrappers
  import opened VaTableSpec

  const NULL_ELEMENT: nat := 0xFFFF_FFFF

  datatype Element = Element(data: Record, next: nat, prev: nat, valid: bool)

  /** The slots of a row are linked both ways in this order, and hold records. */
  ghost predicate Linked(e: seq<Element>, row: seq<nat>)
    requires Below(row, |e|)
  {
    && (forall k {:trigger e[row[k]].prev} | 0 <= k < |row| ::
          e[row[k]].prev == if k == 0 then NULL_ELEMENT else row[k - 1])
    && (forall k {:trigger e[row[k]].next} | 0 <= k < |row| ::
          e[row[k]].next == if k + 1 == |row| then NULL_ELEMENT else row[k + 1])
  }

  ghost function Records(e: seq<Element>, row: seq<nat>): (r: seq<Record>)
    requires Below(row, |e|)
    ensures |r| == |row| && forall k | 0 <= k < |row| :: r[k] == e[row[k]].data
  {
    seq(|row|, k requires 0 <= k < |row| => e[row[k]].data)
  }

  /** Every slot is free or in exactly one row; `owner` names the row, -1 for none. */
  ghost predicate Placed(n: nat, rows: seq<seq<nat>>, owner: seq<int>) {
    && |owner| == n
    && (forall r | 0 <= r < |rows| :: Below(rows[r], n) && Distinct(rows[r]))
    && (forall r, k {:trigger owner[rows[r][k]]} | 0 <= r < |rows| && 0 <= k < |rows[r]| :: owner[rows[r][k]] == r)
    && (forall s {:trigger owner[s]} | 0 <= s < n :: owner[s] < |rows|)
    && (forall s {:trigger s in rows[owner[s]]} | 0 <= s < n && owner[s] >= 0 :: s in rows[owner[s]])
  }

  /** The slots in a row are those marked valid. */
  ghost predicate Owned(e: seq<Element>, rows: seq<seq<nat>>, owner: seq<int>) {
    Placed(|e|, rows, owner) && forall s {:trigger e[s].valid} | 0 <= s < |e| :: e[s].valid <==> owner[s] >= 0
  }

  ghost predicate Ends(row: seq<nat>, head: nat, tail: nat, size: nat) {
    && size == |row|
    && head == (if row == [] then NULL_ELEMENT else row[0])
    && tail == if row == [] then NULL_ELEMENT else row[|row| - 1]
  }

  lemma EndsRemoved(row: seq<nat>, k: nat, head: nat, tail: nat, size: nat)
    requires Ends(row, head, tail, size) && k < |row|
    ensures Ends(Without(row, k), if k > 0 then head else if |row| == 1 then NULL_ELEMENT else row[1],
                 if k + 1 < |row| then tail else if k == 0 then NULL_ELEMENT else row[k - 1], size - 1)
  {
  }

  function ValidCount(e: seq<Element>): (n: nat)
    ensures n <= |e|
  {
    if e == [] then 0 else (if e[0].valid then 1 else 0) + ValidCount(e[1..])
  }

  lemma {:induction false} ValidCountUpdate(e: seq<Element>, s: nat, x: Element)
    requires s < |e|
    ensures ValidCount(e[s := x]) == ValidCount(e) + (if x.valid then 1 else 0) - if e[s].valid then 1 else 0
  {
    if s == 0 {
      assert e[s := x][1..] == e[1..];
    } else {
      ValidCountUpdate(e[1..], s - 1, x);
      assert e[s := x][1..] == e[1..][s - 1 := x];
    }
  }

  /** A free slot exists exactly when not all are counted. */
  lemma {:induction false} FullMeansAll(e: seq<Element>)
    ensures ValidCount(e) == |e| <==> forall s | 0 <= s < |e| :: e[s].valid
  {
    if e != [] {
      FullMeansAll(e[1..]);
      assert forall s | 0 < s < |e| :: e[s] == e[1..][s - 1];
    }
  }

  lemma {:induction false} SameValidity(e: seq<Element>, f: seq<Element>)
    requires |e| == |f| && forall s | 0 <= s < |e| :: e[s].valid == f[s].valid
    ensures ValidCount(e) == ValidCount(f)
  {
    if e != [] {
      SameValidity(e[1..], f[1..]);
    }
  }

  /** Slot `s` filled and linked behind the last slot of a row. */
  function Appended(e: seq<Element>, tail: nat, s: nat, d: Record): (f: seq<Element>)
    requires s < |e| && (tail == NULL_ELEMENT || tail < |e|) && s != tail
    ensures |f| == |e| && f[s] == Element(d, NULL_ELEMENT, tail, true)
    ensures forall x | 0 <= x < |e| && x != s :: f[x] == if x == tail then e[x].(next := s) else e[x]
  {
    var f := e[s := Element(d, NULL_ELEMENT, tail, true)];
    if tail < |e| then f[tail := f[tail].(next := s)] else f
  }

  /** Slot `i` emptied, its neighbours linked past it. */
  function Bypassed(e: seq<Element>, i: nat): (f: seq<Element>)
    requires i < |e| && (e[i].prev == NULL_ELEMENT || e[i].prev < |e|) && (e[i].next == NULL_ELEMENT || e[i].next < |e|)
    requires e[i].prev != i && e[i].next != i && (e[i].prev == e[i].next ==> e[i].prev == NULL_ELEMENT)
    requires |e| <= NULL_ELEMENT
    ensures |f| == |e| && f[i] == e[i].(valid := false)
    ensures forall x | 0 <= x < |e| && x != i ::
      f[x] == Element(e[x].data, if x == e[i].prev then e[i].next else e[x].next,
                      if x == e[i].next then e[i].prev else e[x].prev, e[x].valid)
  {
    var f := e[i := e[i].(valid := false)];
    var g := if e[i].prev == NULL_ELEMENT then f else f[e[i].prev := f[e[i].prev].(next := e[i].next)];
    if e[i].next == NULL_ELEMENT then g else g[e[i].next := g[e[i].next].(prev := e[i].prev)]
  }

  lemma OtherRow(e: seq<Element>, f: seq<Element>, row: seq<nat>)
    requires |e| <= |f| && Below(row, |e|) && Linked(e, row)
    requires forall k | 0 <= k < |row| :: f[row[k]].next == e[row[k]].next && f[row[k]].prev == e[row[k]].prev
                                       && f[row[k]].data == e[row[k]].data
    ensures Linked(f, row) && Records(f, row) == Records(e, row)
  {
  }

  lemma NextTo(e: seq<Element>, row: seq<nat>, k: nat)
    requires Below(row, |e|) && Linked(e, row) && k < |row|
    ensures e[row[k]].prev == (if k == 0 then NULL_ELEMENT else row[k - 1])
    ensures e[row[k]].next == if k + 1 == |row| then NULL_ELEMENT else row[k + 1]
  {
  }

  lemma AppendLinks(e: seq<Element>, f: seq<Element>, row: seq<nat>, s: nat)
    requires |f| == |e| && Below(row, |e|) && Linked(e, row) && s < |e|
    requires f[s].prev == (if row == [] then NULL_ELEMENT else row[|row| - 1]) && f[s].next == NULL_ELEMENT
    requires forall k | 0 <= k < |row| :: f[row[k]].prev == e[row[k]].prev
    requires forall k | 0 <= k < |row| :: f[row[k]].next == if k == |row| - 1 then s else e[row[k]].next
    ensures Below(row + [s], |f|) && Linked(f, row + [s])
  {
    var more := row + [s];
    forall k | 0 <= k < |more|
      ensures f[more[k]].prev == if k == 0 then NULL_ELEMENT else more[k - 1]
      ensures f[more[k]].next == if k + 1 == |more| then NULL_ELEMENT else more[k + 1]
    {
      if k < |row| {
        assert more[k] == row[k];
        NextTo(e, row, k);
      }
    }
  }

  ghost function Last(row: seq<nat>): nat {
    if row == [] then NULL_ELEMENT else row[|row| - 1]
  }

  lemma AppendedSlots(e: seq<Element>, row: seq<nat>, s: nat, d: Record)
    requires |e| <= NULL_ELEMENT && Below(row, |e|) && Distinct(row) && s < |e|
    requires forall k | 0 <= k < |row| :: row[k] != s
    ensures var f := Appended(e, Last(row), s, d);
      forall k | 0 <= k < |row| ::
        f[row[k]] == e[row[k]].(next := if k == |row| - 1 then s else e[row[k]].next)
  {
  }

  lemma AppendedRow(e: seq<Element>, row: seq<nat>, s: nat, d: Record)
    requires |e| <= NULL_ELEMENT && Below(row, |e|) && Distinct(row) && Linked(e, row) && s < |e|
    requires forall k | 0 <= k < |row| :: row[k] != s
    ensures var f := Appended(e, Last(row), s, d);
            Below(row + [s], |f|) && Linked(f, row + [s])
  {
    AppendedSlots(e, row, s, d);
    AppendLinks(e, Appended(e, Last(row), s, d), row, s);
  }

  lemma AppendedRecords(e: seq<Element>, row: seq<nat>, s: nat, d: Record)
    requires |e| <= NULL_ELEMENT && Below(row, |e|) && Distinct(row) && s < |e|
    requires forall k | 0 <= k < |row| :: row[k] != s
    ensures var f := Appended(e, Last(row), s, d);
            Below(row + [s], |f|) && Distinct(row + [s]) && Records(f, row + [s]) == Records(e, row) + [d]
  {
    AppendedSlots(e, row, s, d);
  }

  /** The slot at position `k` may be bypassed. */
  ghost predicate Removable(e: seq<Element>, i: nat) {
    && i < |e| <= NULL_ELEMENT
    && (e[i].prev == NULL_ELEMENT || e[i].prev < |e|) && (e[i].next == NULL_ELEMENT || e[i].next < |e|)
    && e[i].prev != i && e[i].next != i && (e[i].prev == e[i].next ==> e[i].prev == NULL_ELEMENT)
  }

  lemma IsRemovable(e: seq<Element>, row: seq<nat>, k: nat)
    requires |e| <= NULL_ELEMENT && Below(row, |e|) && Distinct(row) && Linked(e, row) && k < |row|
    ensures Removable(e, row[k])
  {
    NextTo(e, row, k);
  }

  /** The links of a row are those of another without the slot at position `k`. */
  ghost predicate LinksPast(e: seq<Element>, f: seq<Element>, row: seq<nat>, k: nat)
    requires |f| == |e| && Below(row, |e|) && k < |row|
  {
    && (forall j | 0 <= j < |row| && j != k ::
          f[row[j]].prev == if j == k + 1 then (if k == 0 then NULL_ELEMENT else row[k - 1]) else e[row[j]].prev)
    && (forall j | 0 <= j < |row| && j != k ::
          f[row[j]].next ==
          if j == k - 1 then (if k + 1 == |row| then NULL_ELEMENT else row[k + 1]) else e[row[j]].next)
  }

  lemma BypassLinks(e: seq<Element>, f: seq<Element>, row: seq<nat>, k: nat)
    requires |f| == |e| && Below(row, |e|) && Linked(e, row) && k < |row| && LinksPast(e, f, row, k)
    ensures Below(Without(row, k), |f|) && Linked(f, Without(row, k))
  {
    var rest := Without(row, k);
    forall j | 0 <= j < |rest|
      ensures rest[j] < |f|
      ensures f[rest[j]].prev == if j == 0 then NULL_ELEMENT else rest[j - 1]
      ensures f[rest[j]].next == if j + 1 == |rest| then NULL_ELEMENT else rest[j + 1]
    {
      BypassLink(e, f, row, k, j);
    }
  }

  lemma BypassLink(e: seq<Element>, f: seq<Element>, row: seq<nat>, k: nat, j: nat)
    requires |f| == |e| && Below(row, |e|) && Linked(e, row) && k < |row| && j < |row| - 1 && LinksPast(e, f, row, k)
    ensures var rest := Without(row, k);
            && rest[j] < |f| && f[rest[j]].prev == (if j == 0 then NULL_ELEMENT else rest[j - 1])
            && f[rest[j]].next == if j + 1 == |rest| then NULL_ELEMENT else rest[j + 1]
  {
    hide Linked;
    var i := if j < k then j else j + 1;
    assert Without(row, k)[j] == row[i];
    NextTo(e, row, i);
  }

  lemma BypassedSlots(e: seq<Element>, row: seq<nat>, k: nat)
    requires Below(row, |e|) && Distinct(row) && Linked(e, row) && k < |row| && Removable(e, row[k])
    ensures var f := Bypassed(e, row[k]);
      forall j | 0 <= j < |row| && j != k ::
        f[row[j]] == Element(e[row[j]].data,
                             if j != k - 1 then e[row[j]].next else if k + 1 == |row| then NULL_ELEMENT else row[k + 1],
                             if j == k + 1 then (if k == 0 then NULL_ELEMENT else row[k - 1]) else e[row[j]].prev,
                             e[row[j]].valid)
  {
    NextTo(e, row, k);
    forall j | 0 <= j < |row| && j != k
      ensures row[j] == e[row[k]].prev <==> j == k - 1
      ensures row[j] == e[row[k]].next <==> j == k + 1
      ensures row[j] != row[k]
    {
    }
  }

  lemma BypassedRow(e: seq<Element>, row: seq<nat>, k: nat)
    requires Below(row, |e|) && Distinct(row) && Linked(e, row) && k < |row| && Removable(e, row[k])
    ensures var f := Bypassed(e, row[k]);
            Below(Without(row, k), |f|) && Linked(f, Without(row, k))
  {
    BypassedSlots(e, row, k);
    BypassLinks(e, Bypassed(e, row[k]), row, k);
  }

  lemma RecordsWithout(e: seq<Element>, f: seq<Element>, row: seq<nat>, k: nat)
    requires Below(row, |e|) && |f| == |e| && k < |row| && Below(Without(row, k), |f|)
    requires forall j | 0 <= j < |row| && j != k :: f[row[j]].data == e[row[j]].data
    ensures Records(f, Without(row, k)) == Without(Records(e, row), k)
  {
    forall j | 0 <= j < |row| - 1 ensures Records(f, Without(row, k))[j] == Without(Records(e, row), k)[j] {
      assert Without(row, k)[j] == row[if j < k then j else j + 1];
    }
  }

  lemma BypassedRecords(e: seq<Element>, row: seq<nat>, k: nat)
    requires Below(row, |e|) && Distinct(row) && Linked(e, row) && k < |row| && Removable(e, row[k])
    ensures Below(Without(row, k), |e|) && Distinct(Without(row, k))
    ensures Records(Bypassed(e, row[k]), Without(row, k)) == Without(Records(e, row), k)
  {
    BypassedSlots(e, row, k);
    WithoutDistinct(row, k);
    WithoutBelow(row, k, |e|);
    RecordsWithout(e, Bypassed(e, row[k]), row, k);
  }

  // ----- All rows -----

  ghost function Contents(e: seq<Element>, rows: seq<seq<nat>>): (r: seq<seq<Record>>)
    requires forall i | 0 <= i < |rows| :: Below(rows[i], |e|)
    ensures |r| == |rows| && forall i | 0 <= i < |rows| :: r[i] == Records(e, rows[i])
  {
    seq(|rows|, i requires 0 <= i < |rows| => Records(e, rows[i]))
  }

  ghost predicate AllLinked(e: seq<Element>, rows: seq<seq<nat>>)
    requires forall i | 0 <= i < |rows| :: Below(rows[i], |e|)
  {
    forall r | 0 <= r < |rows| :: Linked(e, rows[r])
  }

  /** Rows and slots agree, and the slots in use are counted both ways. */
  ghost predicate Sound(e: seq<Element>, rows: seq<seq<nat>>, owner: seq<int>, size: nat) {
    var rowsFit := Owned(e, rows, owner) && AllLinked(e, rows) && size == ValidCount(e) == Size(Contents(e, rows));
    rowsFit
  }

  /** Filling a slot touches no link of another row. */
  lemma AppendedOther(e: seq<Element>, rows: seq<seq<nat>>, owner: seq<int>, r: nat, s: nat, d: Record, i: nat)
    requires |e| <= NULL_ELEMENT && Owned(e, rows, owner) && AllLinked(e, rows) && r < |rows| && s < |e| && !e[s].valid
    requires i < |rows| && i != r
    ensures var f := Appended(e, Last(rows[r]), s, d);
            Linked(f, rows[i]) && Records(f, rows[i]) == Records(e, rows[i])
  {
    var f := Appended(e, Last(rows[r]), s, d);
    assert rows[r] != [] ==> owner[rows[r][|rows[r]| - 1]] == r;
    forall k | 0 <= k < |rows[i]| ensures f[rows[i][k]] == e[rows[i][k]] {
      assert owner[rows[i][k]] == i;
    }
    OtherRow(e, f, rows[i]);
  }

  /** Filling a free slot at the end of one row changes that row only. */
  lemma AddToRow(e: seq<Element>, rows: seq<seq<nat>>, owner: seq<int>, r: nat, s: nat, d: Record)
    requires |e| <= NULL_ELEMENT && Owned(e, rows, owner) && AllLinked(e, rows) && r < |rows| && s < |e| && !e[s].valid
    ensures var f, rows', owner' := Appended(e, Last(rows[r]), s, d), rows[r := rows[r] + [s]], owner[s := r];
            && Owned(f, rows', owner') && AllLinked(f, rows')
            && Contents(f, rows') == Contents(e, rows)[r := Contents(e, rows)[r] + [d]]
  {
    RowIsApart(e, rows, owner, r, s);
    hide Linked, Records, Appended, Distinct;
    var f, rows' := Appended(e, Last(rows[r]), s, d), rows[r := rows[r] + [s]];
    AppendedRow(e, rows[r], s, d);
    AppendedRecords(e, rows[r], s, d);
    AddPlaced(|e|, rows, owner, r, s);
    AppendedValid(e, rows[r], s, d, owner, r);
    forall i | 0 <= i < |rows|
      ensures Below(rows'[i], |f|) && Linked(f, rows'[i]) && (i != r ==> Records(f, rows'[i]) == Records(e, rows[i]))
    {
      if i != r { AppendedOther(e, rows, owner, r, s, d, i); }
    }
    assert Contents(f, rows') == Contents(e, rows)[r := Contents(e, rows)[r] + [d]];
  }

  /** A free slot is in no row. */
  lemma RowIsApart(e: seq<Element>, rows: seq<seq<nat>>, owner: seq<int>, r: nat, s: nat)
    requires |e| <= NULL_ELEMENT && Owned(e, rows, owner) && r < |rows| && s < |e| && !e[s].valid
    ensures Below(rows[r], |e|) && Distinct(rows[r]) && (forall k | 0 <= k < |rows[r]| :: rows[r][k] != s)
  {
    forall k | 0 <= k < |rows[r]| ensures rows[r][k] != s {
      assert owner[rows[r][k]] == r;
    }
  }

  lemma AppendedValid(e: seq<Element>, row: seq<nat>, s: nat, d: Record, owner: seq<int>, r: nat)
    requires |e| <= NULL_ELEMENT && Below(row, |e|) && s < |e| && Last(row) != s && |owner| == |e|
    requires forall x | 0 <= x < |e| :: e[x].valid <==> owner[x] >= 0
    ensures var f, owner' := Appended(e, Last(row), s, d), owner[s := r];
            forall x | 0 <= x < |e| :: f[x].valid <==> owner'[x] >= 0
  {
  }

  lemma AddPlaced(n: nat, rows: seq<seq<nat>>, owner: seq<int>, r: nat, s: nat)
    requires Placed(n, rows, owner) && r < |rows| && s < n && owner[s] < 0
    ensures Placed(n, rows[r := rows[r] + [s]], owner[s := r])
  {
    var rows', owner' := rows[r := rows[r] + [s]], owner[s := r];
    forall i, k | 0 <= i < |rows'| && 0 <= k < |rows'[i]| ensures owner'[rows'[i][k]] == i {
    }
    forall x | 0 <= x < n && owner'[x] >= 0 ensures x in rows'[owner'[x]] {
      if x != s { assert x in rows[owner[x]]; }
    }
  }

  /** Emptying a slot touches no link of another row. */
  lemma BypassedOther(e: seq<Element>, rows: seq<seq<nat>>, owner: seq<int>, r: nat, k: nat, i: nat)
    requires Owned(e, rows, owner) && AllLinked(e, rows) && r < |rows| && k < |rows[r]| && i < |rows| && i != r
    requires Removable(e, rows[r][k])
    ensures Linked(Bypassed(e, rows[r][k]), rows[i]) && Records(Bypassed(e, rows[r][k]), rows[i]) == Records(e, rows[i])
  {
    var s := rows[r][k];
    NextTo(e, rows[r], k);
    assert owner[s] == r;
    assert (k > 0 ==> owner[rows[r][k - 1]] == r) && (k + 1 < |rows[r]| ==> owner[rows[r][k + 1]] == r);
    forall j | 0 <= j < |rows[i]| ensures Bypassed(e, s)[rows[i][j]] == e[rows[i][j]] {
      assert owner[rows[i][j]] == i;
    }
    OtherRow(e, Bypassed(e, s), rows[i]);
  }

  /** Emptying the slot at position `k` of one row changes that row only. */
  lemma RemoveFromRow(e: seq<Element>, rows: seq<seq<nat>>, owner: seq<int>, r: nat, k: nat)
    requires Owned(e, rows, owner) && AllLinked(e, rows) && r < |rows| && k < |rows[r]| && Removable(e, rows[r][k])
    ensures var s := rows[r][k];
            var f, rows', owner' := Bypassed(e, s), rows[r := Without(rows[r], k)], owner[s := -1];
            && Owned(f, rows', owner') && AllLinked(f, rows')
            && Contents(f, rows') == Contents(e, rows)[r := Without(Contents(e, rows)[r], k)]
  {
    BypassedRow(e, rows[r], k);
    BypassedRecords(e, rows[r], k);
    RemovePlaced(|e|, rows, owner, r, k);
    var f, rows' := Bypassed(e, rows[r][k]), rows[r := Without(rows[r], k)];
    forall i | 0 <= i < |rows| ensures Linked(f, rows'[i]) && (i != r ==> Records(f, rows'[i]) == Records(e, rows[i])) {
      if i != r { BypassedOther(e, rows, owner, r, k, i); }
    }
  }

  lemma RemovePlaced(n: nat, rows: seq<seq<nat>>, owner: seq<int>, r: nat, k: nat)
    requires Placed(n, rows, owner) && r < |rows| && k < |rows[r]|
    ensures Placed(n, rows[r := Without(rows[r], k)], owner[rows[r][k] := -1])
  {
    var s, rest := rows[r][k], Without(rows[r], k);
    var rows', owner' := rows[r := rest], owner[s := -1];
    WithoutDistinct(rows[r], k);
    WithoutBelow(rows[r], k, n);
    forall i, j | 0 <= i < |rows'| && 0 <= j < |rows'[i]| ensures owner'[rows'[i][j]] == i {
      if i == r {
        assert rest[j] == rows[r][if j < k then j else j + 1];
      } else {
        assert owner[rows[i][j]] == i && owner[s] == r;
      }
    }
    forall x | 0 <= x < n && owner'[x] >= 0 ensures x in rows'[owner'[x]] {
      assert x in rows[owner[x]];
      if owner[x] == r { StaysIn(rows[r], k, x); }
    }
  }

  lemma StaysIn(row: seq<nat>, k: nat, x: nat)
    requires k < |row| && x in row && x != row[k]
    ensures x in Without(row, k)
  {
    var j :| 0 <= j < |row| && row[j] == x;
    assert Without(row, k)[if j < k then j else j - 1] == x;
  }

  lemma CanJoin(e: seq<Element>, rows: seq<seq<nat>>, owner: seq<int>, size: nat, r: nat, s: nat)
    requires |e| <= NULL_ELEMENT && Sound(e, rows, owner, size) && r < |rows| && s < |e| && !e[s].valid
    ensures Below(rows[r], |e|) && Last(rows[r]) != s
  {
    if rows[r] != [] {
      assert owner[rows[r][|rows[r]| - 1]] == r;
    }
  }

  /** The links at position `k` of a row. */
  ghost predicate Neighbours(e: seq<Element>, row: seq<nat>, k: nat)
    requires k < |row| && row[k] < |e|
  {
    var linked :=
      && e[row[k]].prev == (if k == 0 then NULL_ELEMENT else row[k - 1])
      && e[row[k]].next == if k + 1 == |row| then NULL_ELEMENT else row[k + 1];
    linked
  }

  lemma CanLeave(e: seq<Element>, rows: seq<seq<nat>>, owner: seq<int>, size: nat, r: nat, k: nat)
    requires |e| <= NULL_ELEMENT && Sound(e, rows, owner, size) && r < |rows| && k < |rows[r]|
    ensures size > 0 && Removable(e, rows[r][k]) && Below(rows[r], |e|)
    ensures Neighbours(e, rows[r], k)
  {
    assert owner[rows[r][k]] == r;
    IsRemovable(e, rows[r], k);
    NextTo(e, rows[r], k);
    CountBypassed(e, rows[r][k]);
  }

  lemma SoundAfterAdd(e: seq<Element>, rows: seq<seq<nat>>, owner: seq<int>, size: nat, r: nat, s: nat, d: Record)
    requires |e| <= NULL_ELEMENT && Sound(e, rows, owner, size) && r < |rows| && s < |e| && !e[s].valid
    requires Last(rows[r]) != s
    ensures var f, rows', owner' := Appended(e, Last(rows[r]), s, d), rows[r := rows[r] + [s]], owner[s := r];
            && Sound(f, rows', owner', size + 1)
            && Contents(f, rows') == Contents(e, rows)[r := Contents(e, rows)[r] + [d]]
  {
    AddToRow(e, rows, owner, r, s, d);
    SizeUpdate(Contents(e, rows), r, Contents(e, rows)[r] + [d]);
    CountAppended(e, Last(rows[r]), s, d);
  }

  lemma SoundAfterRemove(e: seq<Element>, rows: seq<seq<nat>>, owner: seq<int>, size: nat, r: nat, k: nat)
    requires Sound(e, rows, owner, size + 1) && r < |rows| && k < |rows[r]| && Removable(e, rows[r][k])
    ensures var s := rows[r][k];
            var f, rows', owner' := Bypassed(e, s), rows[r := Without(rows[r], k)], owner[s := -1];
            && Sound(f, rows', owner', size)
            && Contents(f, rows') == Contents(e, rows)[r := Without(Contents(e, rows)[r], k)]
  {
    assert owner[rows[r][k]] == r;
    RemoveFromRow(e, rows, owner, r, k);
    SizeUpdate(Contents(e, rows), r, Without(Contents(e, rows)[r], k));
    CountBypassed(e, rows[r][k]);
  }

  lemma OwnersOfSlots(e: seq<Element>, rows: seq<seq<nat>>, owner: seq<int>, size: nat)
    requires Sound(e, rows, owner, size)
    ensures |owner| == |e|
  {
  }

  // ----- The table -----

  class VirtualAddressTable {
    var elements: array<Element>
    const head: array<nat>
    const tail: array<nat>
    const rowsize: array<nat>
    var allocateFrom: nat
    var capacity: nat
    var currentSize: nat
    const limit: nat
    const rows: nat
    const resize: nat

    ghost var slots: seq<seq<nat>>   // the slots of each row, in order
    ghost var owner: seq<int>        // the row of each slot, -1 for none

    /** The arrays have their places and sizes. */
    ghost predicate Framed()
      reads `elements, `allocateFrom, `capacity, `slots
    {
      var fits :=
        && head != tail && head != rowsize && tail != rowsize
        && head.Length == tail.Length == rowsize.Length == rows == |slots|
        && elements.Length == capacity <= NULL_ELEMENT
        && KeepsStart(allocateFrom, capacity)
        && limit < UINT32_RANGE && resize < UINT32_RANGE;
      fits
    }

    /** Heads, tails and sizes are those of these rows. */
    ghost predicate EndsOf(slots: seq<seq<nat>>)
      requires head.Length == tail.Length == rowsize.Length == rows == |slots|
      reads head, tail, rowsize
    {
      forall r | 0 <= r < rows :: Ends(slots[r], head[r], tail[r], rowsize[r])
    }

    ghost predicate Valid()
      reads this, elements, head, tail, rowsize
    {
      Framed() && EndsOf(slots) && Sound(elements[..], slots, owner, currentSize)
    }

    ghost function Abs(): Table
      requires Valid()
      reads this, elements, head, tail, rowsize
    {
      Table(Contents(elements[..], slots), capacity, limit, resize)
    }

    constructor (capacity: nat, limit: nat, rows: nat, resize: nat)
      requires capacity <= NULL_ELEMENT && limit < UINT32_RANGE && resize < UINT32_RANGE
      ensures Valid() && fresh(elements) && fresh(head) && fresh(tail) && fresh(rowsize)
      ensures Abs() == Table(seq(rows, _ => []), capacity, limit, resize)
    {
      this.capacity, this.limit, this.rows, this.resize := capacity, limit, rows, resize;
      elements := new Element[capacity](_ => Element(Record(0, 0, 0), NULL_ELEMENT, NULL_ELEMENT, false));
      head := new nat[rows](_ => NULL_ELEMENT);
      tail := new nat[rows](_ => NULL_ELEMENT);
      rowsize := new nat[rows](_ => 0);
      allocateFrom, currentSize := 0, 0;
      slots, owner := seq(rows, _ => []), seq(capacity, _ => -1);
      new;
      NoneValid(elements[..]);
      EmptyRows(rows);
      assert Contents(elements[..], slots) == seq(rows, _ => []);
    }

    /** Looks for a free slot, starting behind the one found last and going round once. */
    method FindFreeElement() returns (found: bool)
      requires elements.Length == capacity && KeepsStart(allocateFrom, capacity)
      modifies this`allocateFrom
      ensures KeepsStart(allocateFrom, capacity)
      ensures found <==> exists s :: 0 <= s < capacity && !elements[s].valid
      ensures found ==> allocateFrom < capacity && !elements[allocateFrom].valid
      ensures var start := old(allocateFrom);
              found ==>
                forall s | 0 <= s < capacity && Round(start, s) < Round(start, allocateFrom) :: elements[s].valid
    {
      ghost var start := allocateFrom;
      var i := 0;
      while i < capacity
        invariant i <= capacity && KeepsStart(allocateFrom, capacity)
        invariant i > 0 ==> Round(start, allocateFrom) == i - 1
        invariant i == 0 ==> allocateFrom == start
        invariant forall s | 0 <= s < capacity && Round(start, s) < i :: elements[s].valid
      {
        allocateFrom := allocateFrom + 1;
        if allocateFrom == capacity {
          allocateFrom := 0;
        }
        assert Round(start, allocateFrom) == i;
        assert forall s | 0 <= s < capacity && Round(start, s) == i :: s == allocateFrom;
        if !elements[allocateFrom].valid {
          return true;
        }
        i := i + 1;
      }
      assert forall s | 0 <= s < capacity :: Round(start, s) < capacity;
      return false;
    }

    /** Replaces the pool by one of another size, copying as many slots as fit. Growth keeps every
        row; a smaller pool is good, and keeps every row, exactly when no slot in use is cut off and
        the search for a free slot does not start behind the end. */
    method Resize(newCapacity: nat) returns (ok: bool)
      requires Valid() && newCapacity < UINT32_RANGE
      modifies this`elements, this`capacity, this`owner
      ensures ok <==> currentSize <= newCapacity <= limit
      ensures if ok then fresh(elements) && capacity == newCapacity
              else Valid() && elements == old(elements) && Abs() == old(Abs())
      ensures ok ==> (Valid() <==> KeepsStart(allocateFrom, newCapacity) && FreeFrom(old(elements[..]), newCapacity))
      ensures ok && Valid() ==> Abs().rows == old(Abs()).rows
    {
      if newCapacity < currentSize { return false; }
      if newCapacity > limit { return false; }
      var tmp := CopyElements(newCapacity);
      ResizePool(elements[..], tmp[..], slots, owner, currentSize);
      Adopt(tmp, Resized(owner, newCapacity));
      return true;
    }

    method Adopt(tmp: array<Element>, ghost owner': seq<int>)
      requires Framed() && EndsOf(slots) && tmp.Length <= NULL_ELEMENT
      modifies this`elements, this`capacity, this`owner
      ensures elements == tmp && capacity == tmp.Length
      ensures Valid() <==> KeepsStart(allocateFrom, capacity) && Sound(tmp[..], slots, owner', currentSize)
      ensures Valid() ==> Abs().rows == Contents(tmp[..], slots)
    {
      owner := owner';
      elements := tmp;
      capacity := tmp.Length;
    }

    method CopyElements(newCapacity: nat) returns (tmp: array<Element>)
      requires capacity == elements.Length
      ensures fresh(tmp) && tmp.Length == newCapacity
      ensures Copied(elements[..], tmp[..])
    {
      var blank := Element(Record(0, 0, 0), NULL_ELEMENT, NULL_ELEMENT, false);
      tmp := new Element[newCapacity](_ => blank);
      for i := 0 to newCapacity
        invariant forall s | 0 <= s < i && s < capacity :: tmp[s] == elements[s]
        invariant forall s | capacity <= s < newCapacity :: tmp[s] == blank
      {
        if i < capacity {
          tmp[i] := elements[i];
        } else {
          tmp[i] := blank;
        }
      }
    }

    /** Fills the slot found last and links it behind the tail of a row. */
    method LinkLast(address: nat, lastThread: nat, lastIcount: nat, row: nat)
      requires Framed() && EndsOf(slots) && row < rows && Below(slots[row], capacity)
      requires allocateFrom < capacity && Last(slots[row]) != allocateFrom
      modifies elements, head, tail, rowsize
      ensures var d := Record(address, lastThread, lastIcount);
              elements[..] == Appended(old(elements[..]), Last(slots[row]), allocateFrom, d)
      ensures EndsOf(slots[row := slots[row] + [allocateFrom]])
    {
      ghost var e := elements[..];
      assert forall r | 0 <= r < rows :: Ends(slots[r], head[r], tail[r], rowsize[r]);
      assert Below(slots[row], capacity);
      var d := Record(address, lastThread, lastIcount);
      elements[allocateFrom] := Element(d, NULL_ELEMENT, tail[row], true);
      if rowsize[row] == 0 {
        head[row] := allocateFrom;
      } else {
        ghost var f := elements[..];
        elements[tail[row]] := elements[tail[row]].(next := allocateFrom);
        assert elements[..] == f[tail[row] := f[tail[row]].(next := allocateFrom)];
      }
      tail[row] := allocateFrom;
      rowsize[row] := rowsize[row] + 1;
    }

    /** A free slot for the next record; not ok is a fatal error. */
    method MakeRoom() returns (ok: bool)
      requires Valid()
      modifies this`elements, this`capacity, this`owner, this`allocateFrom
      ensures Valid() && Abs().rows == old(Abs()).rows
      ensures elements == old(elements) || fresh(elements)
      ensures var grown := GrownFrom(currentSize, old(capacity), limit, resize);
        && (ok <==> grown != None && currentSize < grown.value)
        && (ok ==> capacity == grown.value && allocateFrom < capacity && !elements[allocateFrom].valid)
    {
      if currentSize == capacity {
        ok := Resize(Sum32(capacity, resize));
        if !ok { return; }
      }
      ok := FindFreeElement();
      FreeSlotExists();
    }

    lemma FreeSlotExists()
      requires elements.Length == capacity && currentSize == ValidCount(elements[..])
      ensures currentSize < capacity <==> exists s :: 0 <= s < capacity && !elements[s].valid
    {
      var e := elements[..];
      FullMeansAll(e);
      assert forall s | 0 <= s < capacity :: e[s] == elements[s];
    }

    /** Records that the slot found last has joined a row. */
    ghost method NoteAdded(e: seq<Element>, row: nat, d: Record)
      requires Framed() && |e| == capacity && row < rows && allocateFrom < capacity && currentSize > 0
      requires Sound(e, slots, owner, currentSize - 1) && !e[allocateFrom].valid && Last(slots[row]) != allocateFrom
      requires Below(slots[row], |e|) && elements[..] == Appended(e, Last(slots[row]), allocateFrom, d)
      requires EndsOf(slots[row := slots[row] + [allocateFrom]])
      modifies this`slots, this`owner
      ensures Valid()
      ensures Abs().rows == old(Contents(e, slots))[row := old(Contents(e, slots))[row] + [d]]
    {
      hide Sound, Appended;
      OwnersOfSlots(e, slots, owner, currentSize - 1);
      ghost var slots', owner' := slots[row := slots[row] + [allocateFrom]], owner[allocateFrom := row];
      SoundAfterAdd(e, slots, owner, currentSize - 1, row, allocateFrom, d);
      slots, owner := slots', owner';
    }

    /** Counts out the slot at position `k` of a row. */
    method Leave(row: nat, ghost e: seq<Element>, ghost k: nat)
      requires Framed() && |e| == capacity && row < rows && k < |slots[row]|
      requires Sound(e, slots, owner, currentSize) && currentSize > 0 && Removable(e, slots[row][k])
      requires elements[..] == Bypassed(e, slots[row][k]) && EndsOf(slots[row := Without(slots[row], k)])
      modifies this`slots, this`owner, this`currentSize
      ensures Valid()
      ensures Abs().rows == old(Contents(e, slots))[row := Without(old(Contents(e, slots))[row], k)]
    {
      hide Sound, Bypassed;
      OwnersOfSlots(e, slots, owner, currentSize);
      ghost var f, slots', owner' := elements[..], slots[row := Without(slots[row], k)], owner[slots[row][k] := -1];
      SoundAfterRemove(e, slots, owner, currentSize - 1, row, k);
      assert Sound(f, slots', owner', currentSize - 1);
      currentSize := currentSize - 1;
      slots, owner := slots', owner';
      assert elements[..] == f;
      assert Framed();
      assert EndsOf(slots');
    }

    /** Puts a record into the slot found. */
    method Place(address: nat, lastThread: nat, lastIcount: nat, row: nat)
      requires Valid() && row < rows && allocateFrom < capacity && !elements[allocateFrom].valid
      modifies this`currentSize, this`slots, this`owner, elements, head, tail, rowsize
      ensures Valid()
      ensures var t, d := old(Abs()), Record(address, lastThread, lastIcount);
              Abs() == t.(rows := t.rows[row := t.rows[row] + [d]])
    {
      ghost var e := elements[..];
      CanJoin(e, slots, owner, currentSize, row, allocateFrom);
      LinkLast(address, lastThread, lastIcount, row);
      currentSize := currentSize + 1;
      NoteAdded(e, row, Record(address, lastThread, lastIcount));
    }

    lemma SizeIs()
      requires Valid()
      ensures Size(Abs().rows) == currentSize && |Abs().rows| == rows
    {
    }

    /** Adds a record at the end of a row; not ok is a fatal error. */
    method AddVa(address: nat, lastThread: nat, lastIcount: nat, row: nat) returns (ok: bool)
      requires Valid() && row < rows
      modifies this, elements, head, tail, rowsize
      ensures ok <==> Add(old(Abs()), row, Record(address, lastThread, lastIcount)) != None
      ensures ok ==> Valid() && Abs() == Add(old(Abs()), row, Record(address, lastThread, lastIcount)).value
      ensures elements == old(elements) || fresh(elements)
    {
      hide Sound, Contents, Framed, EndsOf;
      SizeIs();
      ok := MakeRoom();
      if ok {
        Place(address, lastThread, lastIcount, row);
      }
    }

    /** What stands at position `k` of a row. */
    lemma SlotAt(row: nat, k: nat)
      requires Valid() && row < rows && k < |slots[row]|
      ensures slots[row][k] < capacity && |Abs().rows[row]| == |slots[row]|
      ensures Abs().rows[row][k] == elements[slots[row][k]].data
      ensures elements[slots[row][k]].prev == (if k == 0 then NULL_ELEMENT else slots[row][k - 1])
      ensures elements[slots[row][k]].next == if k + 1 == |slots[row]| then NULL_ELEMENT else slots[row][k + 1]
    {
      NextTo(elements[..], slots[row], k);
    }

    /** The slot at a position, NULL_ELEMENT behind the last. */
    ghost function SlotOrNull(row: nat, k: nat): nat
      requires row < |slots|
      reads `slots
    {
      if k < |slots[row]| then slots[row][k] else NULL_ELEMENT
    }

    lemma RowEnds(row: nat)
      requires Valid() && row < rows
      ensures head[row] == SlotOrNull(row, 0) && rowsize[row] == |slots[row]| == |Abs().rows[row]|
    {
      assert Ends(slots[row], head[row], tail[row], rowsize[row]);
    }

    /** One row and its records, seen on its own. */
    ghost predicate RowView(row: nat, records: seq<Record>)
      requires row < rows == head.Length == |slots|
      reads `elements, `slots, elements, head
    {
      && Below(slots[row], elements.Length) && elements.Length <= NULL_ELEMENT && Linked(elements[..], slots[row])
      && records == Records(elements[..], slots[row]) && head[row] == SlotOrNull(row, 0)
    }

    /** The first slot of a row with an address, NULL_ELEMENT when there is none. */
    method FindSlot(row: nat, address: nat, ghost records: seq<Record>) returns (i: nat, ghost k: nat)
      requires row < rows == head.Length == |slots| && RowView(row, records)
      ensures k == Find(records, address) && i == SlotOrNull(row, k)
    {
      i, k := head[row], 0;
      while i != NULL_ELEMENT && elements[i].data.address != address
        invariant k <= Find(records, address) && i == SlotOrNull(row, k)
        decreases |slots[row]| - k
      {
        assert records[k] == elements[..][slots[row][k]].data;
        NextTo(elements[..], slots[row], k);
        i := elements[i].next;
        k := k + 1;
      }
      if k < |slots[row]| {
        assert records[k] == elements[..][slots[row][k]].data;
      }
    }

    method FindInRow(row: nat, address: nat) returns (i: nat, ghost k: nat)
      requires Valid() && row < rows
      ensures k == Find(Abs().rows[row], address) && |Abs().rows[row]| == |slots[row]|
      ensures i == SlotOrNull(row, k) && (i == NULL_ELEMENT <==> k == |slots[row]|)
    {
      RowEnds(row);
      i, k := FindSlot(row, address, Abs().rows[row]);
      if k < |slots[row]| { SlotAt(row, k); }
    }

    /** The first record of a row with an address. */
    method FindDep(row: nat, address: nat) returns (d: Option<Record>)
      requires Valid() && row < rows
      ensures var k := Find(Abs().rows[row], address);
              d == if k < |Abs().rows[row]| then Some(Abs().rows[row][k]) else None
    {
      var i;
      ghost var k;
      i, k := FindInRow(row, address);
      if i == NULL_ELEMENT { return None; }
      SlotAt(row, k);
      return Some(elements[i].data);
    }

    /** The address itself when a row has it, else all ones; the two cannot be told apart for that one address. */
    method FindDepVa(row: nat, address: nat) returns (found: nat)
      requires Valid() && row < rows
      ensures found ==
              if exists d :: d in Abs().rows[row] && d.address == address then address else 0xFFFF_FFFF_FFFF_FFFF
    {
      var d := FindDep(row, address);
      if d == None {
        return 0xFFFF_FFFF_FFFF_FFFF;
      }
      assert d.value in Abs().rows[row];
      return d.value.address;
    }

    /** Takes the head off a row that has one. */
    method UnlinkHead(row: nat)
      requires Framed() && EndsOf(slots) && row < rows && Below(slots[row], capacity) && slots[row] != []
      requires Removable(elements[..], slots[row][0]) && Neighbours(elements[..], slots[row], 0)
      modifies elements, head, tail, rowsize
      ensures elements[..] == Bypassed(old(elements[..]), slots[row][0])
      ensures EndsOf(slots[row := Without(slots[row], 0)])
    {
      ghost var e := elements[..];
      assert forall r | 0 <= r < rows :: Ends(slots[r], head[r], tail[r], rowsize[r]);
      EndsRemoved(slots[row], 0, head[row], tail[row], rowsize[row]);
      var i := head[row];
      elements[i] := elements[i].(valid := false);
      ghost var f := elements[..];
      assert f == e[i := e[i].(valid := false)];
      if elements[i].next != NULL_ELEMENT {
        head[row] := elements[i].next;
        elements[head[row]] := elements[head[row]].(prev := NULL_ELEMENT);
        assert elements[..] == f[e[i].next := f[e[i].next].(prev := NULL_ELEMENT)];
      } else {
        tail[row] := NULL_ELEMENT;
        head[row] := NULL_ELEMENT;
      }
      rowsize[row] := rowsize[row] - 1;
    }

    method DetachHead(row: nat)
      requires Valid() && row < rows && slots[row] != []
      modifies this`currentSize, this`slots, this`owner, elements, head, tail, rowsize
      ensures Valid()
      ensures Abs() == old(Abs()).(rows := old(Abs()).rows[row := Without(old(Abs()).rows[row], 0)])
    {
      hide Sound;
      ghost var e := elements[..];
      CanLeave(e, slots, owner, currentSize, row, 0);
      UnlinkHead(row);
      Leave(row, e, 0);
    }

    /** Removes the head of a row; not ok when the row is empty or its head has another address. */
    method RemoveDepHead(row: nat, address: nat) returns (ok: bool)
      requires Valid() && row < rows
      modifies this`currentSize, this`slots, this`owner, elements, head, tail, rowsize
      ensures Valid() && (ok <==> RemoveHead(old(Abs()), row, address) != None)
      ensures Abs() == if ok then RemoveHead(old(Abs()), row, address).value else old(Abs())
    {
      RowEnds(row);
      if rowsize[row] == 0 { return false; }
      SlotAt(row, 0);
      if elements[head[row]].data.address != address { return false; }
      DetachHead(row);
      return true;
    }

    /** Takes the slot at position `k` out of a row. */
    method UnlinkMid(row: nat, i: nat, ghost k: nat)
      requires Framed() && EndsOf(slots) && row < rows && Below(slots[row], capacity) && k < |slots[row]|
      requires slots[row][k] == i && Removable(elements[..], i) && Neighbours(elements[..], slots[row], k)
      modifies elements, head, tail, rowsize
      ensures elements[..] == Bypassed(old(elements[..]), slots[row][k])
      ensures EndsOf(slots[row := Without(slots[row], k)])
    {
      ghost var e := elements[..];
      assert forall r | 0 <= r < rows :: Ends(slots[r], head[r], tail[r], rowsize[r]);
      EndsRemoved(slots[row], k, head[row], tail[row], rowsize[row]);
      elements[i] := elements[i].(valid := false);
      ghost var f := elements[..];
      assert f == e[i := e[i].(valid := false)];
      if rowsize[row] == 1 {
        tail[row] := NULL_ELEMENT;
        head[row] := NULL_ELEMENT;
      } else {
        var prev, next := elements[i].prev, elements[i].next;
        if prev == NULL_ELEMENT {
          head[row] := next;
        } else {
          elements[prev] := elements[prev].(next := next);
        }
        ghost var g := elements[..];
        assert g == if prev == NULL_ELEMENT then f else f[prev := f[prev].(next := next)];
        if next == NULL_ELEMENT {
          tail[row] := prev;
        } else {
          elements[next] := elements[next].(prev := prev);
        }
        assert elements[..] == if next == NULL_ELEMENT then g else g[next := g[next].(prev := prev)];
      }
      rowsize[row] := rowsize[row] - 1;
    }

    method DetachMid(row: nat, i: nat, ghost k: nat)
      requires Valid() && row < rows && k < |slots[row]| && slots[row][k] == i
      modifies this`currentSize, this`slots, this`owner, elements, head, tail, rowsize
      ensures Valid()
      ensures Abs() == old(Abs()).(rows := old(Abs()).rows[row := Without(old(Abs()).rows[row], k)])
    {
      hide Sound;
      ghost var e := elements[..];
      CanLeave(e, slots, owner, currentSize, row, k);
      UnlinkMid(row, i, k);
      Leave(row, e, k);
    }

    /** Removes the first record with an address from a row; not ok when there is none. */
    method RemoveDepMid(row: nat, address: nat) returns (ok: bool)
      requires Valid() && row < rows
      modifies this`currentSize, this`slots, this`owner, elements, head, tail, rowsize
      ensures Valid() && (ok <==> RemoveMid(old(Abs()), row, address) != None)
      ensures Abs() == if ok then RemoveMid(old(Abs()), row, address).value else old(Abs())
    {
      RowEnds(row);
      if rowsize[row] == 0 { return false; }
      var i;
      ghost var k;
      i, k := FindInRow(row, address);
      if i == NULL_ELEMENT { return false; }
      DetachMid(row, i, k);
      return true;
    }

    /** How many steps a slot is away from the first one looked at. */
    ghost function Round(start: nat, s: nat): int
      reads `capacity
    {
      if s > start then s - start - 1 else s + capacity - start - 1
    }
  }

  lemma GrowPool(e: seq<Element>, more: seq<Element>, rows: seq<seq<nat>>, owner: seq<int>, size: nat)
    requires Sound(e, rows, owner, size) && forall s | 0 <= s < |more| :: !more[s].valid
    ensures Sound(e + more, rows, owner + seq(|more|, _ => -1), size) && Contents(e + more, rows) == Contents(e, rows)
  {
    var owner' := owner + seq(|more|, _ => -1);
    forall r | 0 <= r < |rows| ensures Linked(e + more, rows[r]) && Records(e + more, rows[r]) == Records(e, rows[r]) {
      OtherRow(e, e + more, rows[r]);
    }
    forall r, k | 0 <= r < |rows| && 0 <= k < |rows[r]| ensures owner'[rows[r][k]] == r {
      assert owner[rows[r][k]] == r;
    }
    forall s | 0 <= s < |owner'| && owner'[s] >= 0 ensures s in rows[owner'[s]] {
      assert s in rows[owner[s]];
    }
    ValidCountConcat(e, more);
    NoneValid(more);
    assert Contents(e + more, rows) == Contents(e, rows);
  }

  /** No slot from `n` on is in use. */
  ghost predicate FreeFrom(e: seq<Element>, n: nat) {
    forall s | n <= s < |e| :: !e[s].valid
  }

  /** The search for a free slot can start from here in a pool of this size. */
  predicate KeepsStart(allocateFrom: nat, capacity: nat) {
    allocateFrom < capacity || allocateFrom == capacity == 0
  }

  /** A copy of another size; slots beyond the old ones are free. */
  ghost predicate Copied(e: seq<Element>, f: seq<Element>) {
    && (|e| <= |f| ==> f == e + f[|e|..] && forall s | 0 <= s < |f| - |e| :: !f[|e|..][s].valid)
    && (|f| < |e| ==> f == e[..|f|])
  }

  ghost function Resized(owner: seq<int>, n: nat): seq<int> {
    if |owner| <= n then owner + seq(n - |owner|, _ => -1) else owner[..n]
  }

  /** A copy of another size keeps the rows exactly when no slot in use is cut off. */
  lemma ResizePool(e: seq<Element>, f: seq<Element>, rows: seq<seq<nat>>, owner: seq<int>, size: nat)
    requires Sound(e, rows, owner, size) && Copied(e, f)
    ensures Sound(f, rows, Resized(owner, |f|), size) <==> FreeFrom(e, |f|)
    ensures FreeFrom(e, |f|) ==>
              (forall r | 0 <= r < |rows| :: Below(rows[r], |f|)) && Contents(f, rows) == Contents(e, rows)
  {
    if |e| <= |f| {
      GrowPool(e, f[|e|..], rows, owner, size);
    } else {
      ShrinkPool(e, |f|, rows, owner, size);
    }
  }

  /** Cutting the pool keeps its rows exactly when no slot in use is cut off. */
  lemma ShrinkPool(e: seq<Element>, n: nat, rows: seq<seq<nat>>, owner: seq<int>, size: nat)
    requires Sound(e, rows, owner, size) && n <= |e|
    ensures Sound(e[..n], rows, owner[..n], size) <==> FreeFrom(e, n)
    ensures FreeFrom(e, n) ==>
              (forall r | 0 <= r < |rows| :: Below(rows[r], n)) && Contents(e[..n], rows) == Contents(e, rows)
  {
    ValidCountConcat(e[..n], e[n..]);
    assert e == e[..n] + e[n..];
    if FreeFrom(e, n) {
      NoneValid(e[n..]);
      CutRows(e, n, rows, owner, size);
    } else {
      var s :| n <= s < |e| && e[s].valid;
      SomeValid(e[n..], s - n);
    }
  }

  lemma CutPlaced(n: nat, m: nat, rows: seq<seq<nat>>, owner: seq<int>)
    requires Placed(m, rows, owner) && n <= m && forall s | n <= s < m :: owner[s] < 0
    ensures Placed(n, rows, owner[..n])
  {
    forall r, k | 0 <= r < |rows| && 0 <= k < |rows[r]| ensures rows[r][k] < n && owner[..n][rows[r][k]] == r {
      assert owner[rows[r][k]] == r;
    }
    assert forall s | 0 <= s < n :: owner[..n][s] == owner[s];
  }

  lemma CutOwned(e: seq<Element>, n: nat, rows: seq<seq<nat>>, owner: seq<int>)
    requires Owned(e, rows, owner) && n <= |e| && FreeFrom(e, n)
    ensures Owned(e[..n], rows, owner[..n])
  {
    forall s | n <= s < |e| ensures owner[s] < 0 {
      assert !e[s].valid;
    }
    CutPlaced(n, |e|, rows, owner);
    forall s | 0 <= s < n ensures e[..n][s].valid <==> owner[..n][s] >= 0 {
      assert e[s].valid <==> owner[s] >= 0;
    }
  }

  lemma CutRow(e: seq<Element>, n: nat, row: seq<nat>)
    requires n <= |e| && Below(row, n) && Linked(e, row)
    ensures Linked(e[..n], row) && Records(e[..n], row) == Records(e, row)
  {
    assert forall k | 0 <= k < |row| :: e[..n][row[k]] == e[row[k]];
  }

  lemma CutRows(e: seq<Element>, n: nat, rows: seq<seq<nat>>, owner: seq<int>, size: nat)
    requires Sound(e, rows, owner, size) && n <= |e| && FreeFrom(e, n) && ValidCount(e[..n]) == ValidCount(e)
    ensures Sound(e[..n], rows, owner[..n], size)
    ensures (forall r | 0 <= r < |rows| :: Below(rows[r], n)) && Contents(e[..n], rows) == Contents(e, rows)
  {
    CutOwned(e, n, rows, owner);
    forall r | 0 <= r < |rows| ensures Linked(e[..n], rows[r]) && Records(e[..n], rows[r]) == Records(e, rows[r]) {
      CutRow(e, n, rows[r]);
    }
    assert Contents(e[..n], rows) == Contents(e, rows);
  }

  lemma {:induction false} SomeValid(e: seq<Element>, s: nat)
    requires s < |e| && e[s].valid
    ensures ValidCount(e) > 0
  {
    if s > 0 {
      SomeValid(e[1..], s - 1);
    }
  }

  lemma {:induction false} ValidCountConcat(e: seq<Element>, f: seq<Element>)
    ensures ValidCount(e + f) == ValidCount(e) + ValidCount(f)
  {
    if e == [] {
      assert e + f == f;
    } else {
      ValidCountConcat(e[1..], f);
      assert (e + f)[1..] == e[1..] + f;
    }
  }

  lemma CountAppended(e: seq<Element>, tail: nat, s: nat, d: Record)
    requires s < |e| && (tail == NULL_ELEMENT || tail < |e|) && s != tail && !e[s].valid
    ensures ValidCount(Appended(e, tail, s, d)) == ValidCount(e) + 1
  {
    var x := Element(d, NULL_ELEMENT, tail, true);
    ValidCountUpdate(e, s, x);
    SameValidity(e[s := x], Appended(e, tail, s, d));
  }

  lemma CountBypassed(e: seq<Element>, i: nat)
    requires Removable(e, i) && e[i].valid
    ensures ValidCount(Bypassed(e, i)) == ValidCount(e) - 1
  {
    var x := e[i].(valid := false);
    ValidCountUpdate(e, i, x);
    SameValidity(e[i := x], Bypassed(e, i));
  }

  lemma {:induction false} NoneValid(e: seq<Element>)
    requires forall s | 0 <= s < |e| :: !e[s].valid
    ensures ValidCount(e) == 0
  {
    if e != [] {
      NoneValid(e[1..]);
    }
  }

  lemma {:induction false} EmptyRows(n: nat)
    ensures Size(seq(n, _ => [])) == 0
  {
    if n > 0 {
      EmptyRows(n - 1);
      assert seq(n, _ => [])[1..] == seq<seq<Record>>(n - 1, _ => []);
    }
  }
}
