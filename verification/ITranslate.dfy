/**
 The instruction-translation cache as the source keeps it
 (feeders/inst/softsdv/softsdv_itranslate.cpp): fifty slots in an array, threaded
 by indices into one doubly linked list.
 */
module ITranslate {
  import opened Sequences
  import opened Wrappers
  import opened TranslationSpec

  const N_TABLE_ENTRIES: nat := 50

  datatype Slot = Slot(row: Row, prev: int, next: int)

  /** `n` different slots. */
  ghost predicate Permutation(order: seq<nat>, n: nat) {
    |order| == n && Below(order, n) && Distinct(order)
  }

  /** The slots are linked both ways in this order. */
  ghost predicate Linked(slots: seq<Slot>, order: seq<nat>)
    requires forall i | 0 <= i < |order| :: order[i] < |slots|
  {
    && (forall i {:trigger slots[order[i]].prev} | 0 <= i < |order| ::
          slots[order[i]].prev == if i == 0 then -1 else order[i - 1])
    && (forall i {:trigger slots[order[i]].next} | 0 <= i < |order| ::
          slots[order[i]].next == if i + 1 == |order| then -1 else order[i + 1])
  }

  ghost function RowsIn(slots: seq<Slot>, order: seq<nat>): (r: seq<Row>)
    requires forall i | 0 <= i < |order| :: order[i] < |slots|
    ensures |r| == |order| && forall i | 0 <= i < |order| :: r[i] == slots[order[i]].row
  {
    seq(|order|, i requires 0 <= i < |order| => slots[order[i]].row)
  }

  /** Slot `i` taken out of the list: its neighbours point past it. */
  function Unlinked(a: seq<Slot>, i: nat): (b: seq<Slot>)
    requires i < |a| && 0 <= a[i].prev < |a| && a[i].next < |a| && a[i].prev != a[i].next
    ensures |b| == |a|
    ensures forall s | 0 <= s < |a| ::
      b[s] == if s == a[i].prev then a[s].(next := a[i].next)
              else if s == a[i].next then a[s].(prev := a[i].prev) else a[s]
  {
    var b := a[a[i].prev := a[a[i].prev].(next := a[i].next)];
    if a[i].next < 0 then b else b[a[i].next := b[a[i].next].(prev := a[i].prev)]
  }

  /** Slot `i` moved in front of the first one. */
  function ToFront(a: seq<Slot>, head: int, i: nat): (b: seq<Slot>)
    requires i < |a| && 0 <= a[i].prev < |a| && a[i].next < |a| && 0 <= head < |a|
    requires a[i].prev != a[i].next && head != i && head != a[i].next && i != a[i].prev && i != a[i].next
    ensures |b| == |a| && b[i] == a[i].(prev := -1, next := head)
    ensures forall s | 0 <= s < |a| && s != i ::
      b[s] == Slot(a[s].row, if s == head then i else if s == a[i].next then a[i].prev else a[s].prev,
                   if s == a[i].prev then a[i].next else a[s].next)
  {
    var b := Unlinked(a, i);
    var c := b[head := b[head].(prev := i)];
    c[i := c[i].(prev := -1, next := head)]
  }

  lemma NextIs(a: seq<Slot>, order: seq<nat>, k: nat)
    requires Below(order, |a|) && Linked(a, order) && k < |order|
    ensures a[order[k]].next == if k + 1 == |order| then -1 else order[k + 1]
  {
  }

  lemma PrevIs(a: seq<Slot>, order: seq<nat>, k: nat)
    requires Below(order, |a|) && Linked(a, order) && k < |order|
    ensures a[order[k]].prev == if k == 0 then -1 else order[k - 1]
  {
  }

  /** Rewriting the first row leaves the links and the other rows. */
  lemma FirstRewritten(a: seq<Slot>, order: seq<nat>, row: Row)
    requires Permutation(order, |a|) && order != [] && Linked(a, order)
    ensures var b := a[order[0] := a[order[0]].(row := row)];
            Linked(b, order) && RowsIn(b, order) == RowsIn(a, order)[0 := row]
  {
    var b := a[order[0] := a[order[0]].(row := row)];
    SameLinks(a, b, order);
    forall j | 0 <= j < |order| ensures RowsIn(b, order)[j] == RowsIn(a, order)[0 := row][j] {
      if j > 0 { assert order[0] != order[j]; }
    }
  }

  lemma SameLinks(a: seq<Slot>, b: seq<Slot>, order: seq<nat>)
    requires Permutation(order, |a|) && |b| == |a| && Linked(a, order)
    requires forall s | 0 <= s < |a| :: b[s].prev == a[s].prev && b[s].next == a[s].next
    ensures Linked(b, order)
  {
  }

  /** What moving the slot at position `k` to the front takes for granted. */
  ghost predicate MoveOk(a: seq<Slot>, order: seq<nat>, k: nat)
    requires Permutation(order, |a|) && 0 < k < |order|
  {
    var i := order[k];
    && 0 <= a[i].prev < |a| && -1 <= a[i].next < |a| && a[i].prev != a[i].next
    && order[0] != i && order[0] != a[i].next && i != a[i].prev && i != a[i].next
  }

  lemma MoveIsOk(a: seq<Slot>, order: seq<nat>, k: nat)
    requires Permutation(order, |a|) && Linked(a, order) && 0 < k < |order|
    ensures MoveOk(a, order, k)
  {
    PrevIs(a, order, k);
    NextIs(a, order, k);
  }

  lemma ToFrontLinked(a: seq<Slot>, order: seq<nat>, k: nat)
    requires Permutation(order, |a|) && Linked(a, order) && 0 < k < |order|
    requires MoveOk(a, order, k)
    ensures var b := ToFront(a, order[0], order[k]);
            && Permutation([order[k]] + Without(order, k), |a|) && Linked(b, [order[k]] + Without(order, k))
            && forall s | 0 <= s < |a| :: b[s].row == a[s].row
  {
    PrevIs(a, order, k);
    NextIs(a, order, k);
    MovedPermutation(order, |a|, k);
    var b := ToFront(a, order[0], order[k]);
    forall j | 0 <= j < |order| && j != k
      ensures b[order[j]].prev == (if j == 0 then order[k] else if j == k + 1 then order[k - 1] else a[order[j]].prev)
      ensures b[order[j]].next == if j == k - 1 then a[order[k]].next else a[order[j]].next
    {
      assert order[j] != order[k];
    }
    MovesAre(order, k);
    MovedLinked(a, b, order, [order[k]] + Without(order, k), k);
  }

  /** Slot `i` taken out of the list from the other side. */
  function Bridged(a: seq<Slot>, i: nat): (b: seq<Slot>)
    requires i < |a| && 0 <= a[i].next < |a| && a[i].prev < |a| && a[i].prev != a[i].next
    ensures |b| == |a|
    ensures forall s | 0 <= s < |a| ::
      b[s] == if s == a[i].next then a[s].(prev := a[i].prev)
              else if s == a[i].prev then a[s].(next := a[i].next) else a[s]
  {
    var b := a[a[i].next := a[a[i].next].(prev := a[i].prev)];
    if a[i].prev < 0 then b else b[a[i].prev := b[a[i].prev].(next := a[i].next)]
  }

  /** Slot `i` moved behind the last one. */
  function ToBack(a: seq<Slot>, tail: int, i: nat): (b: seq<Slot>)
    requires i < |a| && 0 <= a[i].next < |a| && a[i].prev < |a| && 0 <= tail < |a|
    requires a[i].prev != a[i].next && tail != i && tail != a[i].prev && i != a[i].prev && i != a[i].next
    ensures |b| == |a| && b[i] == a[i].(prev := tail, next := -1)
    ensures forall s | 0 <= s < |a| && s != i ::
      b[s] == Slot(a[s].row, if s == a[i].next then a[i].prev else a[s].prev,
                   if s == tail then i else if s == a[i].prev then a[i].next else a[s].next)
  {
    var b := Bridged(a, i);
    var c := b[tail := b[tail].(next := i)];
    c[i := c[i].(prev := tail, next := -1)]
  }

  /** What moving the slot at position `k` to the back takes for granted. */
  ghost predicate DeleteOk(a: seq<Slot>, order: seq<nat>, k: nat)
    requires Permutation(order, |a|) && k < |order| - 1
  {
    var i, last := order[k], order[|order| - 1];
    && 0 <= a[i].next < |a| && -1 <= a[i].prev < |a| && a[i].prev != a[i].next
    && last != i && last != a[i].prev && i != a[i].prev && i != a[i].next
  }

  lemma DeleteIsOk(a: seq<Slot>, order: seq<nat>, k: nat)
    requires Permutation(order, |a|) && Linked(a, order) && k < |order| - 1
    ensures DeleteOk(a, order, k)
  {
    PrevIs(a, order, k);
    NextIs(a, order, k);
  }

  lemma ToBackLinked(a: seq<Slot>, order: seq<nat>, k: nat)
    requires Permutation(order, |a|) && Linked(a, order) && k < |order| - 1
    requires DeleteOk(a, order, k)
    ensures var b := ToBack(a, order[|order| - 1], order[k]);
            && Permutation(Without(order, k) + [order[k]], |a|) && Linked(b, Without(order, k) + [order[k]])
            && forall s | 0 <= s < |a| :: b[s].row == a[s].row
  {
    hide Linked, BackLinks;
    MovedPermutation(order, |a|, k);
    MovesAre(order, k);
    LinksAtBack(a, order, k);
    var b := ToBack(a, order[|order| - 1], order[k]);
    DeletedLinked(a, b, order, Without(order, k) + [order[k]], k);
  }

  lemma LinksAtBack(a: seq<Slot>, order: seq<nat>, k: nat)
    requires Permutation(order, |a|) && Linked(a, order) && k < |order| - 1
    requires DeleteOk(a, order, k)
    ensures BackLinks(a, ToBack(a, order[|order| - 1], order[k]), order, k)
  {
    PrevIs(a, order, k);
    NextIs(a, order, k);
    PrevIs(a, order, k + 1);
    var b := ToBack(a, order[|order| - 1], order[k]);
    forall j | 0 <= j < |order| && j != k
      ensures b[order[j]].prev == if j == k + 1 then a[order[k]].prev else a[order[j]].prev
      ensures b[order[j]].next ==
              (if j == |order| - 1 then order[k] else if j == k - 1 then order[k + 1] else a[order[j]].next)
    {
      assert order[j] != order[k];
    }
  }

  /** The list with the slot at position `k` moved to the front. */
  ghost predicate MovedToFront(order: seq<nat>, moved: seq<nat>, k: nat)
    requires k < |order|
  {
    && |moved| == |order| && moved[0] == order[k]
    && (forall j {:trigger moved[j]} | 0 < j <= k :: moved[j] == order[j - 1])
    && (forall j {:trigger moved[j]} | k < j < |order| :: moved[j] == order[j])
  }

  /** The list with the slot at position `k` moved to the back. */
  ghost predicate MovedToBack(order: seq<nat>, moved: seq<nat>, k: nat)
    requires k < |order|
  {
    && |moved| == |order| && moved[|order| - 1] == order[k]
    && (forall j {:trigger moved[j]} | 0 <= j < k :: moved[j] == order[j])
    && (forall j {:trigger moved[j]} | k <= j < |order| - 1 :: moved[j] == order[j + 1])
  }

  lemma MovesAre(order: seq<nat>, k: nat)
    requires k < |order|
    ensures MovedToFront(order, [order[k]] + Without(order, k), k)
    ensures MovedToBack(order, Without(order, k) + [order[k]], k)
  {
  }

  /** What relinking the slot at position `k` in front does to the links. */
  ghost predicate FrontLinks(a: seq<Slot>, b: seq<Slot>, order: seq<nat>, k: nat)
    requires Below(order, |a|) && |b| == |a| && 0 < k < |order|
  {
    && b[order[k]].prev == -1 && b[order[k]].next == order[0]
    && b[order[k - 1]].next == (if k + 1 == |order| then -1 else order[k + 1])
    && (k + 1 < |order| ==> b[order[k + 1]].prev == order[k - 1])
    && b[order[0]].prev == order[k]
    && (forall j | 0 < j < |order| && j != k && j != k + 1 :: b[order[j]].prev == a[order[j]].prev)
    && (forall j | 0 <= j < |order| && j != k && j != k - 1 :: b[order[j]].next == a[order[j]].next)
  }

  /** What relinking the slot at position `k` behind the others does to the links. */
  ghost predicate BackLinks(a: seq<Slot>, b: seq<Slot>, order: seq<nat>, k: nat)
    requires Below(order, |a|) && |b| == |a| && k < |order| - 1
  {
    && b[order[k]].prev == order[|order| - 1] && b[order[k]].next == -1
    && b[order[k + 1]].prev == (if k == 0 then -1 else order[k - 1])
    && (k > 0 ==> b[order[k - 1]].next == order[k + 1])
    && b[order[|order| - 1]].next == order[k]
    && (forall j | 0 <= j < |order| && j != k && j != k + 1 :: b[order[j]].prev == a[order[j]].prev)
    && (forall j | 0 <= j < |order| - 1 && j != k && j != k - 1 :: b[order[j]].next == a[order[j]].next)
  }

  lemma FrontLinked(a: seq<Slot>, b: seq<Slot>, order: seq<nat>, moved: seq<nat>, k: nat, j: nat)
    requires Below(order, |a|) && |b| == |a| && Linked(a, order) && 0 < k < |order| && FrontLinks(a, b, order, k)
    requires MovedToFront(order, moved, k) && Below(moved, |a|) && j < |moved|
    ensures b[moved[j]].prev == if j == 0 then -1 else moved[j - 1]
    ensures b[moved[j]].next == if j + 1 == |moved| then -1 else moved[j + 1]
  {
    if j == 0 {
    } else if j < k {
      assert moved[j] == order[j - 1] && moved[j + 1] == order[j];
      assert j > 1 ==> moved[j - 1] == order[j - 2];
      assert j > 1 ==> b[order[j - 1]].prev == a[order[j - 1]].prev;
      assert b[order[j - 1]].next == a[order[j - 1]].next;
    } else if j == k {
      assert moved[j] == order[k - 1] && (j + 1 < |moved| ==> moved[j + 1] == order[k + 1]);
      assert k > 1 ==> moved[j - 1] == order[k - 2] && b[order[k - 1]].prev == a[order[k - 1]].prev;
    } else {
      assert moved[j] == order[j] && (j + 1 < |moved| ==> moved[j + 1] == order[j + 1]);
      assert moved[j - 1] == if j - 1 == k then order[k - 1] else order[j - 1];
      assert b[order[j]].next == a[order[j]].next;
      assert j > k + 1 ==> b[order[j]].prev == a[order[j]].prev;
    }
  }

  lemma BackLinked(a: seq<Slot>, b: seq<Slot>, order: seq<nat>, moved: seq<nat>, k: nat, j: nat)
    requires Below(order, |a|) && |b| == |a| && Linked(a, order) && k < |order| - 1 && BackLinks(a, b, order, k)
    requires MovedToBack(order, moved, k) && Below(moved, |a|) && j < |moved|
    ensures b[moved[j]].prev == if j == 0 then -1 else moved[j - 1]
    ensures b[moved[j]].next == if j + 1 == |moved| then -1 else moved[j + 1]
  {
    if j == |order| - 1 {
      assert moved[j - 1] == order[|order| - 1];
    } else if j < k {
      LinkedBefore(a, b, order, moved, k, j);
    } else {
      LinkedPast(a, b, order, moved, k, j);
    }
  }

  lemma LinkedBefore(a: seq<Slot>, b: seq<Slot>, order: seq<nat>, moved: seq<nat>, k: nat, j: nat)
    requires Below(order, |a|) && |b| == |a| && Linked(a, order) && k < |order| - 1 && BackLinks(a, b, order, k)
    requires MovedToBack(order, moved, k) && j < k
    ensures moved[j] < |a| && b[moved[j]].prev == (if j == 0 then -1 else moved[j - 1])
    ensures b[moved[j]].next == moved[j + 1]
  {
    hide Linked;
    assert moved[j] == order[j] && moved[j + 1] == if j + 1 == k then order[k + 1] else order[j + 1];
    assert j > 0 ==> moved[j - 1] == order[j - 1];
    NextIs(a, order, j);
    PrevIs(a, order, j);
  }

  lemma LinkedPast(a: seq<Slot>, b: seq<Slot>, order: seq<nat>, moved: seq<nat>, k: nat, j: nat)
    requires Below(order, |a|) && |b| == |a| && Linked(a, order) && k < |order| - 1 && BackLinks(a, b, order, k)
    requires MovedToBack(order, moved, k) && k <= j < |order| - 1
    ensures moved[j] < |a| && b[moved[j]].prev == (if j == 0 then -1 else moved[j - 1])
    ensures b[moved[j]].next == moved[j + 1]
  {
    hide Linked;
    assert moved[j] == order[j + 1] && moved[j + 1] == if j + 2 == |order| then order[k] else order[j + 2];
    assert j > 0 ==> moved[j - 1] == if j == k then order[k - 1] else order[j];
    NextIs(a, order, j + 1);
    PrevIs(a, order, j + 1);
  }

  /** Links after the slot at position `k` has been moved to the front. */
  lemma MovedLinked(a: seq<Slot>, b: seq<Slot>, order: seq<nat>, moved: seq<nat>, k: nat)
    requires Below(order, |a|) && |b| == |a| && Linked(a, order) && 0 < k < |order| && FrontLinks(a, b, order, k)
    requires MovedToFront(order, moved, k) && Below(moved, |a|)
    ensures Linked(b, moved)
  {
    forall j | 0 <= j < |moved|
      ensures b[moved[j]].prev == if j == 0 then -1 else moved[j - 1]
      ensures b[moved[j]].next == if j + 1 == |moved| then -1 else moved[j + 1]
    {
      FrontLinked(a, b, order, moved, k, j);
    }
  }

  /** Links after the slot at position `k` has been moved to the back. */
  lemma DeletedLinked(a: seq<Slot>, b: seq<Slot>, order: seq<nat>, moved: seq<nat>, k: nat)
    requires Below(order, |a|) && |b| == |a| && Linked(a, order) && k < |order| - 1 && BackLinks(a, b, order, k)
    requires MovedToBack(order, moved, k) && Below(moved, |a|)
    ensures Linked(b, moved)
  {
    forall j | 0 <= j < |moved|
      ensures b[moved[j]].prev == if j == 0 then -1 else moved[j - 1]
      ensures b[moved[j]].next == if j + 1 == |moved| then -1 else moved[j + 1]
    {
      BackLinked(a, b, order, moved, k, j);
    }
  }

  lemma MovedPermutation(order: seq<nat>, n: nat, k: nat)
    requires Permutation(order, n) && k < n
    ensures Permutation([order[k]] + Without(order, k), n) && Permutation(Without(order, k) + [order[k]], n)
  {
    MovesAre(order, k);
    PermutedIsPermutation(order, [order[k]] + Without(order, k), n, k);
    BackIsPermutation(order, Without(order, k) + [order[k]], n, k);
  }

  lemma PermutedIsPermutation(order: seq<nat>, moved: seq<nat>, n: nat, k: nat)
    requires Permutation(order, n) && k < n && MovedToFront(order, moved, k)
    ensures Permutation(moved, n)
  {
  }

  lemma BackIsPermutation(order: seq<nat>, moved: seq<nat>, n: nat, k: nat)
    requires Permutation(order, n) && k < n && MovedToBack(order, moved, k)
    ensures Permutation(moved, n)
  {
  }

  /** Rows after the slot at position `k` has been moved, its own row perhaps rewritten. */
  lemma RowsMoved(a: seq<Slot>, b: seq<Slot>, order: seq<nat>, k: nat)
    requires Permutation(order, |a|) && |b| == |a| && k < |order|
    requires forall s | 0 <= s < |a| && s != order[k] :: b[s].row == a[s].row
    ensures Permutation([order[k]] + Without(order, k), |a|) && Permutation(Without(order, k) + [order[k]], |a|)
    ensures RowsIn(b, [order[k]] + Without(order, k)) == [b[order[k]].row] + Without(RowsIn(a, order), k)
    ensures RowsIn(b, Without(order, k) + [order[k]]) == Without(RowsIn(a, order), k) + [b[order[k]].row]
  {
    MovedPermutation(order, |a|, k);
    var rest := Without(order, k);
    forall i | 0 <= i < |rest| ensures b[rest[i]].row == Without(RowsIn(a, order), k)[i] {
      assert rest[i] == order[if i < k then i else i + 1];
    }
  }

  lemma WithoutFirst<T>(s: seq<T>, t: seq<T>, k: nat, x: T)
    requires k < |s|
    ensures Without(s + t, k) + [x] == Without(s, k) + (t + [x])
  {
  }

  /** The state of DropOldUserSpaceTranslations once slots below `i` have been looked at: the table was
      `a`, the list `was`, and `gone` are the slots dropped so far. */
  ghost predicate Looked(b: seq<Slot>, order: seq<nat>, a: seq<Slot>, was: seq<nat>, gone: seq<nat>, i: nat, uid: nat) {
    && |b| == |a| && Below(was, |a|) && order == Stay(was, a, i, uid) + gone
    && (forall s | 0 <= s < |a| && (s >= i || Survives(a[s].row, uid)) :: b[s].row == a[s].row)
    && (forall j | 0 <= j < |gone| ::
          gone[j] < |a| && gone[j] < i && !Survives(a[gone[j]].row, uid) && b[gone[j]].row == FREE)
  }

  lemma LookedAndKept(b: seq<Slot>, order: seq<nat>, a: seq<Slot>, was: seq<nat>, gone: seq<nat>, i: nat, uid: nat)
    requires Looked(b, order, a, was, gone, i, uid) && i < |a| && Survives(a[i].row, uid)
    ensures Looked(b, order, a, was, gone, i + 1, uid)
  {
    StayWithout(was, a, i, uid);
  }

  /** Slot `i` has been emptied and no other row has changed. */
  ghost predicate Cleared(a: seq<Slot>, b: seq<Slot>, i: nat) {
    |a| == |b| && forall s {:trigger b[s]} | 0 <= s < |a| :: b[s].row == if s == i then FREE else a[s].row
  }

  ghost predicate SameRows(a: seq<Slot>, b: seq<Slot>) {
    |a| == |b| && forall s {:trigger b[s]} | 0 <= s < |a| :: b[s].row == a[s].row
  }

  /** Where the slot to be looked at next stands in the list. */
  lemma LookedNext(b: seq<Slot>, order: seq<nat>, a: seq<Slot>, was: seq<nat>, gone: seq<nat>, i: nat, uid: nat)
    returns (k: nat)
    requires Looked(b, order, a, was, gone, i, uid) && i < |a| && Permutation(was, |a|) && !Survives(a[i].row, uid)
    ensures k < |order| && order[k] == i
    ensures var stay := Stay(was, a, i, uid);
            k < |stay| && stay[k] == i && Stay(was, a, i + 1, uid) == Without(stay, k)
  {
    var p := Covers(was, |a|, i);
    k := DropFromStay(was, a, i, uid, p);
  }

  lemma LookedAndDropped(b: seq<Slot>, order: seq<nat>, c: seq<Slot>, a: seq<Slot>, was: seq<nat>, gone: seq<nat>,
                         i: nat, uid: nat, k: nat)
    requires Looked(b, order, a, was, gone, i, uid) && i < |a| && !Survives(a[i].row, uid) && |c| == |b|
    requires var stay := Stay(was, a, i, uid);
             k < |stay| && stay[k] == i && Stay(was, a, i + 1, uid) == Without(stay, k)
    requires Cleared(b, c, i)
    ensures Looked(c, Without(order, k) + [i], a, was, gone + [i], i + 1, uid)
  {
    WithoutFirst(Stay(was, a, i, uid), gone, k, i);
  }

  function Identity(n: nat): seq<nat> {
    seq(n, i => i)
  }

  lemma FreshTable(a: seq<Slot>)
    requires forall i | 0 <= i < |a| :: a[i] == Slot(FREE, i - 1, if i == |a| - 1 then -1 else i + 1)
    ensures Permutation(Identity(|a|), |a|) && Linked(a, Identity(|a|))
    ensures RowsIn(a, Identity(|a|)) == Empty(|a|).rows
    ensures a != [] ==> Identity(|a|)[0] == 0 && Identity(|a|)[|a| - 1] == |a| - 1
  {
  }

  /** The slots of a list, in order, that are still to be looked at or survive. */
  ghost function Stay(order: seq<nat>, a: seq<Slot>, i: nat, uid: nat): (r: seq<nat>)
    requires Below(order, |a|)
    ensures Below(r, |a|) && forall j | 0 <= j < |r| :: r[j] >= i || Survives(a[r[j]].row, uid)
  {
    if order == [] then []
    else if order[0] >= i || Survives(a[order[0]].row, uid) then [order[0]] + Stay(order[1..], a, i, uid)
    else Stay(order[1..], a, i, uid)
  }

  lemma {:induction false} StayAll(order: seq<nat>, a: seq<Slot>, uid: nat)
    requires Below(order, |a|)
    ensures Stay(order, a, 0, uid) == order
  {
    if order != [] {
      StayAll(order[1..], a, uid);
    }
  }

  /** Looking at a slot drops it from those that stay unless it survives. */
  lemma {:induction false} DropFromStay(order: seq<nat>, a: seq<Slot>, i: nat, uid: nat, p: nat) returns (k: nat)
    requires Below(order, |a|) && p < |order| && order[p] == i
    requires forall x, y | 0 <= x < y < |order| :: order[x] != order[y]
    ensures var stay := Stay(order, a, i, uid);
            k < |stay| && stay[k] == i
    ensures Survives(a[i].row, uid) || Stay(order, a, i + 1, uid) == Without(Stay(order, a, i, uid), k)
  {
    var rest := order[1..];
    if p == 0 {
      k := 0;
      StayWithout(rest, a, i, uid);
    } else {
      var m := DropFromStay(rest, a, i, uid, p - 1);
      if order[0] >= i || Survives(a[order[0]].row, uid) {
        k := m + 1;
        var stay := Stay(rest, a, i, uid);
        assert Without([order[0]] + stay, k) == [order[0]] + Without(stay, m);
      } else {
        k := m;
      }
    }
  }

  lemma {:induction false} StayWithout(order: seq<nat>, a: seq<Slot>, i: nat, uid: nat)
    requires Below(order, |a|) && forall j | 0 <= j < |order| :: order[j] != i || Survives(a[order[j]].row, uid)
    ensures Stay(order, a, i + 1, uid) == Stay(order, a, i, uid)
  {
    if order != [] {
      StayWithout(order[1..], a, i, uid);
    }
  }

  /** At the end the slots that stay hold the surviving rows. */
  lemma {:induction false} StayRows(order: seq<nat>, a: seq<Slot>, i: nat, uid: nat)
    requires Below(order, |a|) && |a| <= i
    ensures RowsIn(a, Stay(order, a, i, uid)) == Survivors(RowsIn(a, order), uid)
  {
    if order != [] {
      var stay := Stay(order[1..], a, i, uid);
      StayRows(order[1..], a, i, uid);
      assert RowsIn(a, order)[1..] == RowsIn(a, order[1..]);
      assert RowsIn(a, [order[0]] + stay) == [a[order[0]].row] + RowsIn(a, stay);
    }
  }

  lemma DroppedRows(b: seq<Slot>, a: seq<Slot>, order: seq<nat>, gone: seq<nat>, uid: nat)
    requires Permutation(order, |a|) && |b| == |a|
    requires |Stay(order, a, |a|, uid)| + |gone| == |a|
    requires forall s | 0 <= s < |a| && Survives(a[s].row, uid) :: b[s].row == a[s].row
    requires Below(gone, |a|) && forall j | 0 <= j < |gone| :: b[gone[j]].row == FREE
    ensures var stay := Stay(order, a, |a|, uid);
            Below(stay + gone, |b|)
            && RowsIn(b, stay + gone) == DropOld(Cache(RowsIn(a, order), 0), uid).rows
  {
    var stay := Stay(order, a, |a|, uid);
    StayRows(order, a, |a|, uid);
    forall j | 0 <= j < |stay| ensures b[stay[j]].row == Survivors(RowsIn(a, order), uid)[j] {
      assert RowsIn(a, stay)[j] == a[stay[j]].row;
    }
  }

  ghost function Upto(n: nat): (r: set<nat>)
    ensures |r| == n && forall s: nat :: s in r <==> s < n
  {
    if n == 0 then {} else Upto(n - 1) + {n - 1}
  }

  /** The list is a permutation of all slots: `n` different ones below `n` are every one. */
  lemma Covers(order: seq<nat>, n: nat, s: nat) returns (p: nat)
    requires Permutation(order, n) && s < n
    ensures p < n && order[p] == s
  {
    var used, all := Members(order), Upto(n);
    DistinctSize(order);
    var rest := all - used;
    assert used <= all;
    assert used + rest == all && |used + rest| == |used| + |rest|;
    assert rest == {};
    assert s in all && s !in rest;
    p :| 0 <= p < n && order[p] == s;
  }

  lemma AfterHit(c: Cache, va: nat)
    requires TranslationSpec.Lookup(c, va).1 != None
    ensures TranslationSpec.Lookup(c, va).0.rows[0].virtualPage == Page(va)
  {
  }

  lemma AfterMiss(c: Cache, va: nat, pa: nat)
    requires TranslationSpec.Lookup(c, va).1 == None && c.rows != []
    ensures var n := |c.rows| - 1;
            && c.rows[n].virtualPage != Page(va)
            && ([c.rows[n].(uid := c.lastUid)] + c.rows[..n])[0 := Row(c.lastUid, Page(va), Page(pa), false)]
               == [Row(c.lastUid, Page(va), Page(pa), false)] + c.rows[..n]
  {
  }

  class TranslationTable {
    const table: array<Slot>
    var head: int
    var tail: int
    var lastSoftsdvUid: nat
    ghost var order: seq<nat>   // the slots from head to tail

    ghost predicate Valid()
      reads this, table
    {
      var linked :=
        && table.Length == N_TABLE_ENTRIES
        && Permutation(order, N_TABLE_ENTRIES)
        && Linked(table[..], order)
        && head == order[0] && tail == order[N_TABLE_ENTRIES - 1];
      linked
    }

    ghost function Abs(): Cache
      requires Valid()
      reads this, table
    {
      Cache(RowsIn(table[..], order), lastSoftsdvUid)
    }

    constructor ()
      ensures Valid() && fresh(table) && Abs() == Empty(N_TABLE_ENTRIES)
    {
      table := new Slot[N_TABLE_ENTRIES]((i: int) => Slot(FREE, i - 1, if i == N_TABLE_ENTRIES - 1 then -1 else i + 1));
      head, tail, lastSoftsdvUid := 0, N_TABLE_ENTRIES - 1, 0;
      order := Identity(N_TABLE_ENTRIES);
      new;
      hide Linked, RowsIn, Permutation, Identity;
      FreshTable(table[..]);
    }

    /** Relinks the slot at position `k`, which is not the first, in front. */
    method Relink(i: nat, ghost k: nat)
      requires table.Length == N_TABLE_ENTRIES && Permutation(order, N_TABLE_ENTRIES)
      requires 0 < k < N_TABLE_ENTRIES && order[k] == i && head == order[0] && MoveOk(table[..], order, k)
      modifies this`head, this`tail, table
      ensures table[..] == ToFront(old(table[..]), old(head), i) && head == i
      ensures tail == if old(table[i].next) == -1 then old(table[i].prev) else old(tail)
    {
      ghost var a := table[..];
      var prev, next := table[i].prev, table[i].next;
      table[prev] := table[prev].(next := next);
      if next == -1 {
        tail := prev;
      } else {
        table[next] := table[next].(prev := prev);
      }
      ghost var b := table[..];
      assert b == Unlinked(a, i);
      table[head] := table[head].(prev := i);
      assert table[..] == b[head := b[head].(prev := i)];
      table[i] := table[i].(prev := -1, next := head);
      head := i;
    }

    /** Notes an access to a slot. */
    method Stamp(i: nat)
      requires table.Length == N_TABLE_ENTRIES && i < N_TABLE_ENTRIES
      modifies table
      ensures var a := old(table[..]); table[..] == a[i := a[i].(row := a[i].row.(uid := lastSoftsdvUid))]
    {
      table[i] := table[i].(row := table[i].row.(uid := lastSoftsdvUid));
    }

    /** The links of MoveEntryToHead. */
    method BringForward(i: nat, ghost k: nat)
      requires Valid() && k < N_TABLE_ENTRIES && order[k] == i
      modifies this`head, this`tail, table
      ensures var o := [i] + Without(order, k);
              && Permutation(o, N_TABLE_ENTRIES) && Linked(table[..], o)
              && head == o[0] && tail == o[N_TABLE_ENTRIES - 1]
      ensures forall s | 0 <= s < N_TABLE_ENTRIES :: table[s].row == old(table[s].row)
    {
      ghost var b := table[..];
      PrevIs(b, order, k);
      NextIs(b, order, k);
      if head != i {
        MoveIsOk(b, order, k);
        ToFrontLinked(b, order, k);
        Relink(i, k);
      } else {
        assert [order[0]] + Without(order, 0) == order;
      }
    }

    /** Records that the slot at position `k` has been moved in front. */
    ghost method NoteMoved(a: seq<Slot>, k: nat)
      requires table.Length == N_TABLE_ENTRIES == |a| && Permutation(order, N_TABLE_ENTRIES) && k < N_TABLE_ENTRIES
      requires var o := [order[k]] + Without(order, k);
               && Permutation(o, N_TABLE_ENTRIES) && Linked(table[..], o)
               && head == o[0] && tail == o[N_TABLE_ENTRIES - 1]
      requires forall s | 0 <= s < N_TABLE_ENTRIES ::
        table[s].row == if s == order[k] then a[s].row.(uid := lastSoftsdvUid) else a[s].row
      modifies this`order
      ensures Valid() && Abs() == Touch(Cache(RowsIn(a, old(order)), lastSoftsdvUid), k)
    {
      hide Linked, RowsIn;
      RowsMoved(a, table[..], order, k);
      order := [order[k]] + Without(order, k);
    }

    method MoveEntryToHead(i: nat, ghost k: nat)
      requires Valid() && k < N_TABLE_ENTRIES && order[k] == i
      modifies this`head, this`tail, this`order, table
      ensures Valid() && Abs() == Touch(old(Abs()), k)
    {
      ghost var a := table[..];
      Stamp(i);
      SameLinks(a, table[..], order);
      BringForward(i, k);
      NoteMoved(a, k);
    }

    /** Records that the slot at position `k` has been emptied and moved behind the others. */
    ghost method NoteDeleted(a: seq<Slot>, k: nat)
      requires table.Length == N_TABLE_ENTRIES == |a| && Permutation(order, N_TABLE_ENTRIES) && k < N_TABLE_ENTRIES
      requires var o := Without(order, k) + [order[k]];
               && Permutation(o, N_TABLE_ENTRIES) && Linked(table[..], o)
               && head == o[0] && tail == o[N_TABLE_ENTRIES - 1]
      requires Cleared(a, table[..], order[k])
      modifies this`order
      ensures Valid() && order == Without(old(order), k) + [old(order)[k]]
      ensures Abs() == Cache(Without(RowsIn(a, old(order)), k) + [FREE], lastSoftsdvUid)
    {
      hide Linked, RowsIn;
      RowsMoved(a, table[..], order, k);
      order := Without(order, k) + [order[k]];
    }

    method Clear(i: nat)
      requires table.Length == N_TABLE_ENTRIES && i < N_TABLE_ENTRIES
      modifies table
      ensures var a := old(table[..]); table[..] == a[i := a[i].(row := FREE)]
    {
      table[i] := table[i].(row := FREE);
    }

    /** Takes slot `i` out of the list and puts it, emptied, at the end. */
    method DeleteEntry(i: nat, ghost k: nat)
      requires Valid() && k < N_TABLE_ENTRIES && order[k] == i
      modifies this`head, this`tail, this`order, table
      ensures Valid() && order == Without(old(order), k) + [i]
      ensures Abs() == old(Abs()).(rows := Without(old(Abs()).rows, k) + [FREE])
      ensures Cleared(old(table[..]), table[..], i)
    {
      hide Linked, RowsIn;
      ghost var a := table[..];
      PutLast(i, k);
      ghost var b := table[..];
      Clear(i);
      SameLinks(b, table[..], Without(order, k) + [i]);
      NoteDeleted(a, k);
    }

    /** The links of DeleteEntry. */
    method PutLast(i: nat, ghost k: nat)
      requires Valid() && k < N_TABLE_ENTRIES && order[k] == i
      modifies this`head, this`tail, table
      ensures var o := Without(order, k) + [i];
              && Permutation(o, N_TABLE_ENTRIES) && Linked(table[..], o)
              && head == o[0] && tail == o[N_TABLE_ENTRIES - 1]
      ensures SameRows(old(table[..]), table[..])
    {
      ghost var b := table[..];
      PrevIs(b, order, k);
      NextIs(b, order, k);
      if tail != i {
        DeleteIsOk(b, order, k);
        ToBackLinked(b, order, k);
        RelinkLast(i, k);
      } else {
        assert Without(order, k) + [order[k]] == order;
      }
    }

    /** Relinks the slot at position `k`, which is not the last, behind the others. */
    method RelinkLast(i: nat, ghost k: nat)
      requires table.Length == N_TABLE_ENTRIES && Permutation(order, N_TABLE_ENTRIES)
      requires k < N_TABLE_ENTRIES - 1 && order[k] == i && tail == order[N_TABLE_ENTRIES - 1]
      requires DeleteOk(table[..], order, k)
      modifies this`head, this`tail, table
      ensures table[..] == ToBack(old(table[..]), old(tail), i) && tail == i
      ensures head == if old(table[i].prev) == -1 then old(table[i].next) else old(head)
    {
      ghost var a := table[..];
      var prev, next := table[i].prev, table[i].next;
      table[next] := table[next].(prev := prev);
      if prev == -1 {
        head := next;
      } else {
        table[prev] := table[prev].(next := next);
      }
      ghost var b := table[..];
      assert b == Bridged(a, i);
      table[tail] := table[tail].(next := i);
      assert table[..] == b[tail := b[tail].(next := i)];
      table[i] := table[i].(prev := tail, next := -1);
      tail := i;
    }

    /** Walks the list for a page; `i` is -1 when it is not there. */
    method Walk(page: nat, ghost rows: seq<Row>) returns (i: int, steps: nat, ghost k: nat)
      requires table.Length == N_TABLE_ENTRIES == |order| == |rows| && Below(order, N_TABLE_ENTRIES)
      requires head == order[0] && Linked(table[..], order)
      requires forall j | 0 <= j < |rows| :: rows[j] == table[order[j]].row
      ensures k == Find(rows, page) && steps == k + 1
      ensures i == if k < N_TABLE_ENTRIES then order[k] else -1
    {
      i, steps, k := head, 1, 0;
      while i != -1
        invariant k <= Find(rows, page) && steps == k + 1
        invariant i == if k < N_TABLE_ENTRIES then order[k] else -1
        decreases N_TABLE_ENTRIES - k
      {
        assert rows[k] == table[i].row;
        if table[i].row.virtualPage == page {
          return;
        }
        NextIs(table[..], order, k);
        i := table[i].next;
        steps := steps + 1;
        k := k + 1;
      }
    }

    lemma RowAt(k: nat)
      requires Valid() && k < N_TABLE_ENTRIES
      ensures Abs().rows[k] == table[order[k]].row
    {
    }

    /** The physical address for a virtual one, and the number of rows looked at, 0 for a miss. */
    method Lookup(va: nat) returns (steps: nat, pa: nat)
      requires Valid()
      modifies this`head, this`tail, this`order, table
      ensures Valid()
      ensures steps == 0 ==> pa == 0 && (Abs(), None) == TranslationSpec.Lookup(old(Abs()), va)
      ensures steps != 0 ==>
        steps == 1 + Find(old(Abs()).rows, Page(va)) && (Abs(), Some(pa)) == TranslationSpec.Lookup(old(Abs()), va)
    {
      hide Linked;
      ghost var c := Abs();
      var i;
      ghost var k;
      i, steps, k := Walk(Page(va), c.rows);
      if i == -1 { return 0, 0; }
      RowAt(k);
      pa := table[i].row.physicalPage + va % PAGE_SIZE;
      ghost var after := TranslationSpec.Lookup(c, va);
      assert after == (Touch(c, k), Some(pa));
      MoveEntryToHead(i, k);
      assert Abs() == after.0;
    }

    method IsEntryArtificial(va: nat) returns (artificial: bool)
      requires Valid()
      ensures var k := Find(Abs().rows, Page(va));
              artificial <==> k < N_TABLE_ENTRIES && Abs().rows[k].artificial
    {
      var i, steps;
      ghost var k;
      i, steps, k := Walk(Page(va), Abs().rows);
      if i == -1 { return false; }
      RowAt(k);
      return table[i].row.artificial;
    }

    /** Rewrites the first row. */
    method SetHead(row: Row)
      requires Valid()
      modifies table
      ensures Valid() && Abs() == old(Abs()).(rows := old(Abs()).rows[0 := row])
    {
      hide Linked, RowsIn;
      ghost var a := table[..];
      FirstRewritten(a, order, row);
      table[head] := table[head].(row := row);
      assert table[..] == a[head := a[head].(row := row)];
    }

    /** Takes over the least recent slot. */
    method Recycle()
      requires Valid()
      modifies this`head, this`tail, this`order, table
      ensures Valid() && lastSoftsdvUid == old(lastSoftsdvUid)
      ensures var rows := old(Abs()).rows;
              Abs().rows == [rows[N_TABLE_ENTRIES - 1].(uid := lastSoftsdvUid)] + rows[..N_TABLE_ENTRIES - 1]
    {
      ghost var rows := Abs().rows;
      assert Without(rows, N_TABLE_ENTRIES - 1) == rows[..N_TABLE_ENTRIES - 1];
      MoveEntryToHead(tail, N_TABLE_ENTRIES - 1);
    }

    /** Replaces the head with a new translation, unless it has one for the page already. */
    method ReplaceHead(va: nat, pa: nat) returns (present: bool)
      requires Valid()
      modifies table
      ensures Valid() && (present <==> old(Abs()).rows[0].virtualPage == Page(va))
      ensures var c := old(Abs());
              Abs() == if present then c
                       else c.(rows := c.rows[0 := Row(c.rows[0].uid, Page(va), Page(pa), false)])
    {
      assert table[head].row == Abs().rows[0];
      if table[head].row.virtualPage != Page(va) {
        SetHead(Row(table[head].row.uid, Page(va), Page(pa), false));
        return false;
      } else {
        return true;
      }
    }

    /** Adds a translation from SoftSDV; true when the page was there already. */
    method AddEntry(va: nat, pa: nat, softsdvUid: nat) returns (present: bool)
      requires Valid()
      modifies this`head, this`tail, this`order, this`lastSoftsdvUid, table
      ensures Valid() && (Abs(), present) == Add(old(Abs()), va, pa, softsdvUid)
    {
      ghost var start := Cache(Abs().rows, softsdvUid);
      lastSoftsdvUid := softsdvUid;
      var steps, oldpa := Lookup(va);
      if steps != 0 {
        AfterHit(start, va);
        if oldpa == pa {
          return true;
        }
      } else {
        AfterMiss(start, va, pa);
        Recycle();
      }
      present := ReplaceHead(va, pa);
    }

    /** Adds a translation SoftSDV did not give. */
    method AddArtificialEntry(va: nat, pa: nat) returns (present: bool)
      requires Valid()
      modifies this`head, this`tail, this`order, this`lastSoftsdvUid, table
      ensures Valid() && (Abs(), present) == AddArtificial(old(Abs()), va, pa)
    {
      present := AddEntry(va, pa, lastSoftsdvUid);
      if !present {
        assert table[head].row == Abs().rows[0];
        SetHead(table[head].row.(artificial := true));
      }
    }

    method DropTranslation(va: nat)
      requires Valid()
      modifies this`head, this`tail, this`order, table
      ensures Valid() && Abs() == Drop(old(Abs()), va)
    {
      var i, steps;
      ghost var k;
      i, steps, k := Walk(Page(va), Abs().rows);
      if i != -1 {
        DeleteEntry(i, k);
      }
    }

    /** Looks at slot `i` and drops it if it holds an old user-space translation. */
    method DropIfOld(i: nat, uid: nat, ghost a: seq<Slot>, ghost was: seq<nat>, ghost gone: seq<nat>)
      returns (ghost gone': seq<nat>)
      requires Valid() && i < N_TABLE_ENTRIES == |a| && Permutation(was, N_TABLE_ENTRIES)
      requires Looked(table[..], order, a, was, gone, i, uid)
      modifies this`head, this`tail, this`order, table
      ensures Valid() && lastSoftsdvUid == old(lastSoftsdvUid) && Looked(table[..], order, a, was, gone', i + 1, uid)
    {
      gone' := gone;
      ghost var b, list := table[..], order;
      assert table[i].row == a[i].row;
      if table[i].row.uid != 0 && table[i].row.uid < uid && table[i].row.virtualPage < KERNEL_BASE {
        ghost var k := LookedNext(b, list, a, was, gone, i, uid);
        DeleteEntry(i, k);
        LookedAndDropped(b, list, table[..], a, was, gone, i, uid, k);
        gone' := gone + [i];
      } else {
        LookedAndKept(b, list, a, was, gone, i, uid);
      }
    }

    lemma LookedAtNone(uid: nat)
      requires Valid()
      ensures Looked(table[..], order, table[..], order, [], 0, uid)
    {
      StayAll(order, table[..], uid);
    }

    lemma LookedAtAll(a: seq<Slot>, was: seq<nat>, gone: seq<nat>, uid: nat)
      requires Valid() && |a| == N_TABLE_ENTRIES && Permutation(was, N_TABLE_ENTRIES)
      requires Looked(table[..], order, a, was, gone, N_TABLE_ENTRIES, uid)
      ensures Abs() == DropOld(Cache(RowsIn(a, was), lastSoftsdvUid), uid)
    {
      DroppedRows(table[..], a, was, gone, uid);
    }

    /** Drops user-space translations older than `softsdvUid`, going through the slots in array order. */
    method DropOldUserSpaceTranslations(softsdvUid: nat)
      requires Valid()
      modifies this`head, this`tail, this`order, table
      ensures Valid() && Abs() == DropOld(old(Abs()), softsdvUid)
    {
      hide Looked, Linked, RowsIn;
      ghost var a, was := table[..], order;
      ghost var gone: seq<nat> := [];
      LookedAtNone(softsdvUid);
      for i := 0 to N_TABLE_ENTRIES
        invariant Valid() && lastSoftsdvUid == old(lastSoftsdvUid)
        invariant Looked(table[..], order, a, was, gone, i, softsdvUid)
      {
        gone := DropIfOld(i, softsdvUid, a, was, gone);
      }
      LookedAtAll(a, was, gone, softsdvUid);
    }
  }
}
