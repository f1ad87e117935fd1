/**
 The instruction-translation cache of the SoftSDV feeder
 (feeders/inst/softsdv/softsdv_itranslate.cpp) as a list of rows, most recently
 used first, and what runs of it guarantee. ITranslate shows that the threaded
 array behaves like this list.
 */
module TranslationSpec {
  import opened Sequences
  import opened Wrappers

  const PAGE_SIZE: nat := 0x4000
  const KERNEL_BASE: nat := 0xe000000000000000

  /** A translation; virtual page 0 marks a free slot. */
  datatype Row = Row(uid: nat, virtualPage: nat, physicalPage: nat, artificial: bool)

  const FREE := Row(0, 0, 0, false)

  function Page(addr: nat): nat {
    addr - addr % PAGE_SIZE
  }

  /** The rows in recency order, and the uid of the latest instruction from SoftSDV. */
  datatype Cache = Cache(rows: seq<Row>, lastUid: nat)

  /** The position of the first row for a page, |rows| when there is none. */
  function Find(rows: seq<Row>, page: nat): (k: nat)
    ensures k <= |rows| && (k < |rows| ==> rows[k].virtualPage == page)
    ensures forall i | 0 <= i < k :: rows[i].virtualPage != page
  {
    if rows == [] || rows[0].virtualPage == page then 0 else 1 + Find(rows[1..], page)
  }

  /** Row `k` becomes the most recent. */
  function Touch(c: Cache, k: nat): Cache
    requires k < |c.rows|
  {
    c.(rows := [c.rows[k].(uid := c.lastUid)] + Without(c.rows, k))
  }

  function Lookup(c: Cache, va: nat): (Cache, Option<nat>)
    ensures |Lookup(c, va).0.rows| == |c.rows|
  {
    var k := Find(c.rows, Page(va));
    if k == |c.rows| then (c, None) else (Touch(c, k), Some(c.rows[k].physicalPage + va % PAGE_SIZE))
  }

  /** Adding a translation: a present one is kept; otherwise the least recent row is replaced. The
      result tells whether it was present. */
  function Add(c: Cache, va: nat, pa: nat, uid: nat): (Cache, bool)
    requires c.rows != []
  {
    var (d, hit) := Lookup(c.(lastUid := uid), va);
    if hit != None then (d, true)
    else
      var row := Row(uid, Page(va), Page(pa), false);
      (Cache([row] + c.rows[..|c.rows| - 1], uid), false)
  }

  function AddArtificial(c: Cache, va: nat, pa: nat): (Cache, bool)
    requires c.rows != []
  {
    var (d, present) := Add(c, va, pa, c.lastUid);
    (if present then d else d.(rows := d.rows[0 := d.rows[0].(artificial := true)]), present)
  }

  function Drop(c: Cache, va: nat): Cache {
    var k := Find(c.rows, Page(va));
    if k == |c.rows| then c else c.(rows := Without(c.rows, k) + [FREE])
  }

  /** A context switch keeps kernel pages, recent rows, and rows without a uid. */
  predicate Survives(row: Row, uid: nat) {
    row.uid == 0 || row.uid >= uid || row.virtualPage >= KERNEL_BASE
  }

  function Survivors(rows: seq<Row>, uid: nat): (r: seq<Row>)
    ensures |r| <= |rows|
  {
    if rows == [] then []
    else if Survives(rows[0], uid) then [rows[0]] + Survivors(rows[1..], uid)
    else Survivors(rows[1..], uid)
  }

  function DropOld(c: Cache, uid: nat): Cache {
    var left := Survivors(c.rows, uid);
    c.(rows := left + seq(|c.rows| - |left|, _ => FREE))
  }

  // ----- A bounded map in recency order -----

  function Live(rows: seq<Row>): (r: seq<Row>)
    ensures |r| <= |rows| && forall row | row in r :: row.virtualPage != 0
  {
    if rows == [] then []
    else if rows[0].virtualPage != 0 then [rows[0]] + Live(rows[1..])
    else Live(rows[1..])
  }

  predicate OnePerPage(rows: seq<Row>) {
    forall i, j | 0 <= i < j < |rows| && rows[i].virtualPage != 0 :: rows[i].virtualPage != rows[j].virtualPage
  }

  /** Free slots are all at the old end. */
  predicate FreeLast(rows: seq<Row>) {
    forall i, j | 0 <= i < j < |rows| && rows[i].virtualPage == 0 :: rows[j].virtualPage == 0
  }

  predicate UidsDescend(c: Cache) {
    && (forall i, j | 0 <= i < j < |c.rows| :: c.rows[i].uid >= c.rows[j].uid)
    && (forall i | 0 <= i < |c.rows| :: c.rows[i].uid <= c.lastUid)
    && (forall i | 0 <= i < |c.rows| && c.rows[i].virtualPage == 0 :: c.rows[i] == FREE)
  }

  predicate Good(c: Cache): (good: bool)
    ensures good ==> FreeLast(c.rows)
  {
    OnePerPage(c.rows) && FreeLast(c.rows) && UidsDescend(c)
  }

  lemma {:induction false} LiveConcat(a: seq<Row>, b: seq<Row>)
    ensures Live(a + b) == Live(a) + Live(b)
  {
    if a == [] {
      assert a + b == b;
    } else {
      LiveConcat(a[1..], b);
      TailOfConcat(a, b);
      if a[0].virtualPage != 0 { Assoc([a[0]], Live(a[1..]), Live(b)); }
    }
  }

  lemma {:induction false} AllFree(rows: seq<Row>)
    requires forall i | 0 <= i < |rows| :: rows[i].virtualPage == 0
    ensures Live(rows) == []
  {
    if rows != [] {
      AllFree(rows[1..]);
    }
  }

  lemma {:induction false} AllLive(rows: seq<Row>)
    requires forall i | 0 <= i < |rows| :: rows[i].virtualPage != 0
    ensures Live(rows) == rows
  {
    if rows != [] {
      AllLive(rows[1..]);
    }
  }

  /** Live rows, given where they end. */
  lemma LiveUpTo(rows: seq<Row>, n: nat)
    requires n <= |rows|
    requires forall i | 0 <= i < n :: rows[i].virtualPage != 0
    requires forall i | n <= i < |rows| :: rows[i].virtualPage == 0
    ensures Live(rows) == rows[..n] && FreeLast(rows)
  {
    SplitAt(rows, n);
    LiveConcat(rows[..n], rows[n..]);
    AllLive(rows[..n]);
    AllFree(rows[n..]);
  }

  /** With the free slots last, the live rows are the rows up to there. */
  lemma LiveIsPrefix(rows: seq<Row>)
    requires FreeLast(rows)
    ensures Live(rows) == rows[..Find(rows, 0)]
    ensures forall i | Find(rows, 0) <= i < |rows| :: rows[i].virtualPage == 0
  {
    var n := Find(rows, 0);
    forall i | n <= i < |rows| ensures rows[i].virtualPage == 0 {
      if i > n { assert rows[n].virtualPage == 0; }
    }
    LiveUpTo(rows, n);
  }

  lemma {:induction false} FindInPrefix(rows: seq<Row>, n: nat, page: nat)
    requires n <= |rows| && forall i | n <= i < |rows| :: rows[i].virtualPage != page
    ensures Find(rows[..n], page) == if Find(rows, page) < n then Find(rows, page) else n
    ensures Find(rows, page) < n || Find(rows, page) == |rows|
  {
    var k, m := Find(rows[..n], page), Find(rows, page);
    if m < n {
      assert rows[..n][m].virtualPage == page;
    }
    if k < n {
      assert rows[k].virtualPage == page;
    }
  }

  /** Looking a page up in the table is looking it up among the live rows. */
  lemma FindLive(rows: seq<Row>, page: nat)
    requires FreeLast(rows) && page != 0
    ensures var k, live := Find(rows, page), Live(rows);
      && live == rows[..|live|] && (forall i | |live| <= i < |rows| :: rows[i].virtualPage == 0)
      && (k < |live| || k == |rows|) && Find(live, page) == if k < |live| then k else |live|
  {
    LiveIsPrefix(rows);
    FindInPrefix(rows, Find(rows, 0), page);
  }

  lemma WithoutPrefix<T>(s: seq<T>, k: nat, n: nat)
    requires k < n <= |s|
    ensures Without(s[..n], k) == Without(s, k)[..n - 1]
  {
  }

  /** A lookup hits exactly when the page is live, answers with its physical page, and moves its row
      to the front of the live rows; a miss changes nothing. */
  lemma LookupIsMap(c: Cache, va: nat)
    requires FreeLast(c.rows) && Page(va) != 0
    ensures var (d, pa) := Lookup(c, va);
      var live, k := Live(c.rows), Find(Live(c.rows), Page(va));
      && (pa == None <==> k == |live|) && (pa == None ==> d == c)
      && (pa != None ==>
            && pa.value == live[k].physicalPage + va % PAGE_SIZE && k == Find(c.rows, Page(va))
            && Live(d.rows) == [live[k].(uid := c.lastUid)] + Without(live, k))
      && FreeLast(d.rows) && (Good(c) ==> Good(d)) && d.lastUid == c.lastUid && |d.rows| == |c.rows|
  {
    hide Live;
    FindLive(c.rows, Page(va));
    var k, n := Find(c.rows, Page(va)), |Live(c.rows)|;
    if k < n {
      if Good(c) { TouchGood(c, k); }
      TouchLive(c, k, n);
    }
  }

  /** Addresses share a page when they lie in the same 16 KB; page 0 is the first of these. */
  lemma SamePageExactly(a: nat, b: nat)
    ensures Page(a) == Page(b) <==> a / 0x4000 == b / 0x4000
    ensures Page(a) == a / 0x4000 * 0x4000 && (Page(a) == 0 <==> a < 0x4000)
  {
  }

  /** A lookup answers with the page that was added and the offset looked up: after an add, any address
      of that 16 KB is found, on the physical page added with it, or on the one already there. */
  lemma AddThenLookup(c: Cache, va: nat, pa: nat, uid: nat, other: nat)
    requires c.rows != [] && other / 0x4000 == va / 0x4000
    ensures var (d, present) := Add(c, va, pa, uid);
      && (present <==> Lookup(c, va).1 != None)
      && Lookup(d, other).1 ==
         Some(if present then Lookup(c, va).1.value - va % 0x4000 + other % 0x4000
              else pa / 0x4000 * 0x4000 + other % 0x4000)
  {
    SamePageExactly(va, other);
    SamePageExactly(pa, pa);
    hide Page;
  }

  /** A page that has been dropped is not found until it is added again. */
  lemma DropThenLookup(c: Cache, va: nat, other: nat)
    requires OnePerPage(c.rows) && va >= 0x4000 && other / 0x4000 == va / 0x4000
    ensures Lookup(Drop(c, va), other).1 == None
  {
    SamePageExactly(va, other);
    hide Page;
    var k, d := Find(c.rows, Page(va)), Drop(c, va);
    if k < |c.rows| {
      forall i | 0 <= i < |d.rows| ensures d.rows[i].virtualPage != Page(va) {
        if i < |d.rows| - 1 { assert d.rows[i] == c.rows[if i < k then i else i + 1]; }
      }
    }
  }

  /** A lookup on page 0 is answered by the first free slot, if there is one. That puts the slot in
      front, which is harmless only before anything has been added. */
  lemma FreeSlotAnswers(c: Cache, va: nat)
    requires Good(c) && Page(va) == 0
    ensures var (d, pa), n := Lookup(c, va), |Live(c.rows)|;
      && (pa == None <==> n == |c.rows|)
      && (pa != None ==> pa.value == va % PAGE_SIZE && d.rows == [FREE.(uid := c.lastUid)] + Without(c.rows, n))
      && (Good(d) <==> pa == None || (n == 0 && c.lastUid == 0))
  {
    LiveIsPrefix(c.rows);
    var n := Find(c.rows, 0);
    if n < |c.rows| {
      var d := Touch(c, n);
      assert c.rows[n] == FREE && d.rows[0] == FREE.(uid := c.lastUid);
      if n > 0 {
        assert d.rows[1] == c.rows[0];
      } else {
        assert forall i | 0 < i < |d.rows| :: d.rows[i] == c.rows[i];
      }
    }
  }

  lemma TouchLive(c: Cache, k: nat, n: nat)
    requires k < n <= |c.rows|
    requires (forall i | 0 <= i < n :: c.rows[i].virtualPage != 0)
    requires (forall i | n <= i < |c.rows| :: c.rows[i].virtualPage == 0)
    ensures Live(Touch(c, k).rows) == [c.rows[k].(uid := c.lastUid)] + Without(c.rows[..n], k)
    ensures FreeLast(Touch(c, k).rows)
  {
    hide Live;
    var d := Touch(c, k);
    forall i | 0 < i < |d.rows| ensures d.rows[i] == c.rows[if i <= k then i - 1 else i] {
    }
    LiveUpTo(d.rows, n);
    WithoutPrefix(c.rows, k, n);
    assert d.rows[..n] == [d.rows[0]] + Without(c.rows, k)[..n - 1];
  }

  lemma TouchGood(c: Cache, k: nat)
    requires Good(c) && k < |c.rows| && c.rows[k].virtualPage != 0
    ensures Good(Touch(c, k))
  {
    var d := Touch(c, k);
    forall i | 0 <= i < |d.rows|
      ensures d.rows[i] == if i == 0 then c.rows[k].(uid := c.lastUid) else c.rows[if i <= k then i - 1 else i]
    {
    }
    FrontedPages(c.rows, d.rows, k);
    FrontedUids(c, d, k);
  }

  /** The rows `d` are the rows `c` with row `k` in front, its uid perhaps changed. */
  predicate Fronted(c: seq<Row>, d: seq<Row>, k: nat) {
    && k < |c| == |d| && d[0] == c[k].(uid := d[0].uid)
    && forall i | 0 < i < |d| :: d[i] == c[if i <= k then i - 1 else i]
  }

  lemma FrontedPages(c: seq<Row>, d: seq<Row>, k: nat)
    requires Fronted(c, d, k) && OnePerPage(c) && FreeLast(c) && c[k].virtualPage != 0
    ensures OnePerPage(d) && FreeLast(d)
  {
    forall i, j | 0 <= i < j < |d|
      ensures d[i].virtualPage != 0 ==> d[i].virtualPage != d[j].virtualPage
      ensures d[i].virtualPage == 0 ==> d[j].virtualPage == 0
    {
      var p, q := if i == 0 then k else if i <= k then i - 1 else i, if j <= k then j - 1 else j;
      assert d[i].virtualPage == c[p].virtualPage && d[j].virtualPage == c[q].virtualPage;
      assert p != q && (i > 0 ==> p < q);
    }
  }

  lemma FrontedUids(c: Cache, d: Cache, k: nat)
    requires Fronted(c.rows, d.rows, k) && UidsDescend(c) && c.rows[k].virtualPage != 0
    requires d.rows[0].uid == d.lastUid == c.lastUid
    ensures UidsDescend(d)
  {
    forall i, j | 0 <= i < j < |d.rows| ensures d.rows[i].uid >= d.rows[j].uid {
      var p, q := if i <= k then i - 1 else i, if j <= k then j - 1 else j;
      assert d.rows[j] == c.rows[q];
      if i > 0 { assert d.rows[i] == c.rows[p] && p < q; }
    }
  }

  /** Adding answers true exactly when the page is live, and then keeps its physical page. Otherwise
      the new row comes first, and a live row is lost, the oldest, exactly when every slot is live. */
  lemma AddIsMap(c: Cache, va: nat, pa: nat, uid: nat)
    requires FreeLast(c.rows) && c.rows != [] && Page(va) != 0
    ensures var (d, present) := Add(c, va, pa, uid);
      var live, k := Live(c.rows), Find(Live(c.rows), Page(va));
      && (present <==> k < |live|)
      && Live(d.rows) ==
         (if present then [live[k].(uid := uid)] + Without(live, k)
          else [Row(uid, Page(va), Page(pa), false)]
               + if |live| == |c.rows| then live[..|live| - 1] else live)
      && FreeLast(d.rows) && (Good(c) && c.lastUid <= uid ==> Good(d)) && d.lastUid == uid && |d.rows| == |c.rows|
  {
    hide Good, Live, Find, FreeLast;
    if Good(c) && c.lastUid <= uid { LaterIsGood(c, uid); }
    LookupIsMap(c.(lastUid := uid), va);
    if !Add(c, va, pa, uid).1 { AddMissIsMap(c, va, pa, uid); }
  }

  lemma LaterIsGood(c: Cache, uid: nat)
    requires Good(c) && c.lastUid <= uid
    ensures Good(c.(lastUid := uid))
  {
  }

  lemma AddMissIsMap(c: Cache, va: nat, pa: nat, uid: nat)
    requires FreeLast(c.rows) && c.rows != [] && Page(va) != 0 && Find(c.rows, Page(va)) == |c.rows|
    ensures var row, live, rest := Row(uid, Page(va), Page(pa), false), Live(c.rows), c.rows[..|c.rows| - 1];
      && Live([row] + rest) == [row] + (if |live| == |c.rows| then live[..|live| - 1] else live)
      && FreeLast([row] + rest) && (Good(c) && c.lastUid <= uid ==> Good(Cache([row] + rest, uid)))
  {
    hide Live, Page;
    FindLive(c.rows, Page(va));
    var d := Cache([Row(uid, Page(va), Page(pa), false)] + c.rows[..|c.rows| - 1], uid);
    var n := |Live(c.rows)|;
    forall i | 0 < i < |d.rows| ensures d.rows[i] == c.rows[i - 1] {
    }
    var m := if n == |c.rows| then n else n + 1;
    LiveUpTo(d.rows, m);
    assert d.rows[..m] == [d.rows[0]] + c.rows[..m - 1];
  }

  /** Marking an added row as artificial changes nothing else. */
  lemma AddArtificialIsMap(c: Cache, va: nat, pa: nat)
    requires Good(c) && c.rows != [] && Page(va) != 0
    ensures var (d, present) := AddArtificial(c, va, pa);
      var (e, _) := Add(c, va, pa, c.lastUid);
      && d.rows[1..] == e.rows[1..] && d.rows[0] == e.rows[0].(artificial := !present || e.rows[0].artificial)
      && d.lastUid == c.lastUid && Good(d)
      && Live(e.rows) == [e.rows[0]] + Live(e.rows)[1..]
      && Live(d.rows) == [d.rows[0]] + Live(e.rows)[1..]
  {
    AddIsMap(c, va, pa, c.lastUid);
    var e := Add(c, va, pa, c.lastUid).0;
    MarkHead(e);
  }

  lemma MarkHead(e: Cache)
    requires Good(e) && e.rows != [] && e.rows[0].virtualPage != 0
    ensures var row := e.rows[0].(artificial := true);
            Good(e.(rows := e.rows[0 := row])) && Live(e.rows[0 := row]) == [row] + Live(e.rows)[1..]
    ensures Live(e.rows) == [e.rows[0]] + Live(e.rows)[1..]
  {
    hide Live;
    FindLive(e.rows, e.rows[0].virtualPage);
    LiveUpTo(e.rows[0 := e.rows[0].(artificial := true)], |Live(e.rows)|);
  }

  lemma LiveWithoutFree(rows: seq<Row>, k: nat)
    requires k < |rows| && rows[k].virtualPage == 0
    ensures Live(Without(rows, k)) == Live(rows) && |Live(rows)| < |rows|
  {
    LiveConcat(rows[..k], rows[k + 1..]);
    LiveConcat(rows[..k] + [rows[k]], rows[k + 1..]);
    LiveConcat(rows[..k], [rows[k]]);
    SplitAround(rows, k);
    AllFree([rows[k]]);
  }

  lemma LiveBehindFree(row: Row, rows: seq<Row>)
    requires row.virtualPage == 0
    ensures Live([row] + rows) == Live(rows)
  {
    assert ([row] + rows)[1..] == rows;
  }

  /** Adding page 0 finds a free slot, if there is one, and adds nothing. In a full table it puts a
      free slot in place of the oldest row. The same goes for an artificial one. */
  lemma AddPageZero(c: Cache, va: nat, pa: nat, uid: nat)
    requires c.rows != [] && Page(va) == 0
    ensures var live, full := Live(c.rows), |Live(c.rows)| == |c.rows|;
      var left := if full then live[..|live| - 1] else live;
      var (d, present), (e, found) := Add(c, va, pa, uid), AddArtificial(c, va, pa);
      && (present <==> !full) && Live(d.rows) == left && d.rows[0].virtualPage == 0
      && (found <==> !full) && Live(e.rows) == left && e.rows[0].virtualPage == 0
  {
    AddPageZeroPlain(c, va, pa, uid);
    AddPageZeroPlain(c, va, pa, c.lastUid);
    var (d, present) := Add(c, va, pa, c.lastUid);
    if !present {
      var head := d.rows[0].(artificial := true);
      LiveBehindFree(d.rows[0], d.rows[1..]);
      LiveBehindFree(head, d.rows[1..]);
      assert d.rows == [d.rows[0]] + d.rows[1..] && d.rows[0 := head] == [head] + d.rows[1..];
    }
  }

  lemma AddPageZeroPlain(c: Cache, va: nat, pa: nat, uid: nat)
    requires c.rows != [] && Page(va) == 0
    ensures var live, full := Live(c.rows), |Live(c.rows)| == |c.rows|;
      var (d, present) := Add(c, va, pa, uid);
      && (present <==> !full) && d.rows[0].virtualPage == 0
      && Live(d.rows) == if full then live[..|live| - 1] else live
  {
    var k := Find(c.rows, 0);
    if k < |c.rows| {
      LiveWithoutFree(c.rows, k);
      LiveBehindFree(c.rows[k].(uid := uid), Without(c.rows, k));
    } else {
      var kept := c.rows[..k - 1];
      AllLive(c.rows);
      AllLive(kept);
      LiveBehindFree(Row(uid, 0, Page(pa), false), kept);
    }
  }

  lemma DropGood(c: Cache, k: nat)
    requires Good(c) && k < |c.rows|
    ensures Good(c.(rows := Without(c.rows, k) + [FREE]))
  {
    var d := c.(rows := Without(c.rows, k) + [FREE]);
    forall i | 0 <= i < |c.rows| - 1 ensures d.rows[i] == c.rows[if i < k then i else i + 1] {
    }
  }

  lemma DropLive(rows: seq<Row>, k: nat, n: nat)
    requires k < n <= |rows|
    requires forall i | 0 <= i < n :: rows[i].virtualPage != 0
    requires forall i | n <= i < |rows| :: rows[i].virtualPage == 0
    ensures Live(Without(rows, k) + [FREE]) == Without(rows[..n], k)
  {
    var left := Without(rows, k) + [FREE];
    forall i | 0 <= i < |rows| - 1 ensures left[i] == rows[if i < k then i else i + 1] {
    }
    LiveUpTo(left, n - 1);
    WithoutPrefix(rows, k, n);
    assert left[..n - 1] == Without(rows, k)[..n - 1];
  }

  /** Dropping a page takes its row, if live, from the map; dropping page 0 drops a free slot. */
  lemma DropIsMap(c: Cache, va: nat)
    requires Good(c)
    ensures var d := Drop(c, va);
      var live, k := Live(c.rows), Find(Live(c.rows), Page(va));
      && Live(d.rows) == (if k == |live| then live else Without(live, k))
      && Good(d) && d.lastUid == c.lastUid && |d.rows| == |c.rows|
  {
    hide Live;
    LiveIsPrefix(c.rows);
    var k, n := Find(c.rows, Page(va)), |Live(c.rows)|;
    if k < |c.rows| { DropGood(c, k); }
    if Page(va) == 0 {
      DropFree(c, n);
    } else {
      FindLive(c.rows, Page(va));
      if k < n { DropLive(c.rows, k, n); }
    }
  }

  lemma DropFree(c: Cache, n: nat)
    requires Good(c) && n == Find(c.rows, 0) == |Live(c.rows)|
    ensures Find(Live(c.rows), 0) == n
    ensures n < |c.rows| ==> Live(Without(c.rows, n) + [FREE]) == Live(c.rows)
  {
    hide Live;
    LiveIsPrefix(c.rows);
    if n < |c.rows| {
      var d := Without(c.rows, n) + [FREE];
      forall i | 0 <= i < |c.rows| - 1 ensures d[i] == c.rows[if i < n then i else i + 1] {
      }
      LiveUpTo(d, n);
      assert d[..n] == c.rows[..n];
    }
  }

  lemma {:induction false} SurvivorsConcat(a: seq<Row>, b: seq<Row>, uid: nat)
    ensures Survivors(a + b, uid) == Survivors(a, uid) + Survivors(b, uid)
  {
    if a == [] {
      assert a + b == b;
    } else {
      SurvivorsConcat(a[1..], b, uid);
      TailOfConcat(a, b);
      if Survives(a[0], uid) { Assoc([a[0]], Survivors(a[1..], uid), Survivors(b, uid)); }
    }
  }

  /** One row stands before another. */
  ghost predicate Before(rows: seq<Row>, x: Row, y: Row) {
    exists k, m :: 0 <= k < m < |rows| && rows[k] == x && rows[m] == y
  }

  lemma BeforeInTail(rows: seq<Row>, x: Row, y: Row)
    requires rows != [] && (Before(rows[1..], x, y) || (x == rows[0] && y in rows[1..]))
    ensures Before(rows, x, y)
  {
    if Before(rows[1..], x, y) {
      var k, m :| 0 <= k < m < |rows[1..]| && rows[1..][k] == x && rows[1..][m] == y;
      assert rows[k + 1] == x && rows[m + 1] == y;
    } else {
      var m :| 0 <= m < |rows[1..]| && rows[1..][m] == y;
      assert rows[0] == x && rows[m + 1] == y;
    }
  }

  lemma {:induction false} SurvivorsAre(rows: seq<Row>, uid: nat)
    ensures forall row :: row in Survivors(rows, uid) <==>
              row in rows && (row.uid == 0 || row.uid >= uid || row.virtualPage >= 0xe000000000000000)
  {
    if rows != [] {
      SurvivorsAre(rows[1..], uid);
      assert forall row :: row in rows <==> row == rows[0] || row in rows[1..];
    }
  }

  /** Survivors keep their order. */
  lemma {:induction false} SurvivorsKeepOrder(rows: seq<Row>, uid: nat)
    ensures forall i, j | 0 <= i < j < |Survivors(rows, uid)| ::
      Before(rows, Survivors(rows, uid)[i], Survivors(rows, uid)[j])
  {
    if rows != [] {
      var rest, left := Survivors(rows[1..], uid), Survivors(rows, uid);
      SurvivorsKeepOrder(rows[1..], uid);
      SurvivorsAre(rows[1..], uid);
      forall i, j | 0 <= i < j < |left| ensures Before(rows, left[i], left[j]) {
        if left == rest {
          assert Before(rows[1..], rest[i], rest[j]);
        } else if i > 0 {
          assert Before(rows[1..], rest[i - 1], rest[j - 1]);
        } else {
          assert rest[j - 1] in rest;
        }
        BeforeInTail(rows, left[i], left[j]);
      }
    }
  }

  lemma {:induction false} FreeRowsSurvive(rows: seq<Row>, uid: nat)
    requires forall i | 0 <= i < |rows| :: rows[i].uid == 0
    ensures Survivors(rows, uid) == rows
  {
    if rows != [] {
      FreeRowsSurvive(rows[1..], uid);
    }
  }

  lemma SplitSurvivors(live: seq<Row>, free: seq<Row>, uid: nat)
    requires forall i | 0 <= i < |free| :: free[i] == FREE
    ensures Survivors(live + free, uid) == Survivors(live, uid) + seq(|free|, _ => FREE)
  {
    SurvivorsConcat(live, free, uid);
    FreeRowsSurvive(free, uid);
    assert free == seq(|free|, _ => FREE);
  }

  /** The rows after a context switch: the surviving live ones, then free slots. */
  lemma DropOldRows(c: Cache, uid: nat)
    requires Good(c)
    ensures var left := Survivors(Live(c.rows), uid);
            |left| <= |c.rows| && DropOld(c, uid).rows == left + seq(|c.rows| - |left|, _ => FREE)
  {
    FindLive(c.rows, 1);
    var n := |Live(c.rows)|;
    SplitAt(c.rows, n);
    forall i | n <= i < |c.rows| ensures c.rows[i] == FREE {
      assert c.rows[i].virtualPage == 0;
    }
    var left, free := Survivors(c.rows[..n], uid), |c.rows| - n;
    SplitSurvivors(c.rows[..n], c.rows[n..], uid);
    FreePlus(free, n - |left|);
    Assoc(left, seq(free, _ => FREE), seq(n - |left|, _ => FREE));
  }

  lemma FreePlus(m: nat, n: nat)
    ensures seq(m, _ => FREE) + seq(n, _ => FREE) == seq(m + n, _ => FREE)
  {
  }

  /** A context switch leaves, in their old order, exactly the live rows that survive it. */
  lemma DropOldIsMap(c: Cache, uid: nat)
    requires Good(c)
    ensures var d := DropOld(c, uid);
      && Live(d.rows) == Survivors(Live(c.rows), uid)
      && Good(d) && d.lastUid == c.lastUid && |d.rows| == |c.rows|
  {
    DropOldRows(c, uid);
    FindLive(c.rows, 1);
    var left, d := Survivors(Live(c.rows), uid), DropOld(c, uid);
    SurvivorsAre(Live(c.rows), uid);
    SurvivorsKeepOrder(Live(c.rows), uid);
    forall i | 0 <= i < |left| ensures left[i].virtualPage != 0 {
      assert left[i] in left;
    }
    LiveUpTo(d.rows, |left|);
    assert d.rows[..|left|] == left;
    SubsequenceGood(c, left, d);
  }

  lemma SubsequenceGood(c: Cache, left: seq<Row>, d: Cache)
    requires Good(c) && d.lastUid == c.lastUid && |left| <= |d.rows| && d.rows[..|left|] == left
    requires forall i | 0 <= i < |left| :: left[i].virtualPage != 0
    requires forall row | row in left :: row in Live(c.rows)
    requires forall i, j | 0 <= i < j < |left| :: Before(Live(c.rows), left[i], left[j])
    requires forall i | |left| <= i < |d.rows| :: d.rows[i] == FREE
    ensures Good(d)
  {
    hide Live, Find;
    FindLive(c.rows, 1);
    var live := Live(c.rows);
    forall i, j | 0 <= i < j < |left|
      ensures d.rows[i].virtualPage != d.rows[j].virtualPage && d.rows[i].uid >= d.rows[j].uid
    {
      assert Before(live, left[i], left[j]);
      var k, m :| 0 <= k < m < |live| && live[k] == left[i] && live[m] == left[j];
      assert c.rows[k] == left[i] && c.rows[m] == left[j];
      assert d.rows[i] == left[i] && d.rows[j] == left[j];
    }
    forall i | 0 <= i < |left| ensures d.rows[i].uid <= d.lastUid && d.rows[i].virtualPage != 0 {
      assert d.rows[i] == left[i] && left[i] in left;
      var k :| 0 <= k < |live| && live[k] == left[i];
      assert c.rows[k] == left[i];
    }
  }

  // ----- Runs -----

  datatype Step =
    | DoLookup(va: nat) | DoAdd(va: nat, pa: nat, uid: nat) | DoAddArtificial(va: nat, pa: nat)
    | DoDrop(va: nat) | DoDropOld(uid: nat)

  /** Pages looked up and added are not 0, and uids from SoftSDV do not decrease. */
  predicate Allowed(c: Cache, s: Step) {
    match s
    case DoLookup(va) => Page(va) != 0
    case DoAdd(va, _, uid) => Page(va) != 0 && c.lastUid <= uid
    case DoAddArtificial(va, _) => Page(va) != 0
    case DoDrop(_) => true
    case DoDropOld(_) => true
  }

  function Next(c: Cache, s: Step): Cache
    requires c.rows != []
  {
    match s
    case DoLookup(va) => Lookup(c, va).0
    case DoAdd(va, pa, uid) => Add(c, va, pa, uid).0
    case DoAddArtificial(va, pa) => AddArtificial(c, va, pa).0
    case DoDrop(va) => Drop(c, va)
    case DoDropOld(uid) => DropOld(c, uid)
  }

  lemma StepGood(c: Cache, s: Step)
    requires Good(c) && c.rows != [] && Allowed(c, s)
    ensures Good(Next(c, s)) && |Next(c, s).rows| == |c.rows|
  {
    match s
    case DoLookup(va) => LookupIsMap(c, va);
    case DoAdd(va, pa, uid) => AddIsMap(c, va, pa, uid);
    case DoAddArtificial(va, pa) => AddArtificialIsMap(c, va, pa);
    case DoDrop(va) => DropIsMap(c, va);
    case DoDropOld(uid) => DropOldIsMap(c, uid);
  }

  /** The row a later one comes from, when its page was live. */
  predicate From(live: seq<Row>, after: Row) {
    var k := Find(live, after.virtualPage);
    k < |live| ==> after == live[k].(uid := after.uid)
  }

  lemma {:induction false} FindUnique(live: seq<Row>, i: nat)
    requires OnePerPage(live) && i < |live| && live[i].virtualPage != 0
    ensures Find(live, live[i].virtualPage) == i
  {
    var k := Find(live, live[i].virtualPage);
    assert live[k].virtualPage == live[i].virtualPage;
  }

  lemma OldRowsAreFrom(live: seq<Row>, after: Row)
    requires OnePerPage(live) && after in live && after.virtualPage != 0
    ensures From(live, after)
  {
    var i :| 0 <= i < |live| && live[i] == after;
    FindUnique(live, i);
  }

  lemma LiveOnePerPage(c: Cache)
    requires Good(c)
    ensures OnePerPage(Live(c.rows))
  {
    FindLive(c.rows, 1);
  }

  /** Only the front row is not an earlier one as it was. */
  lemma FrontFrom(live: seq<Row>, front: Row, rest: seq<Row>, after: Row)
    requires OnePerPage(live) && (forall row | row in live :: row.virtualPage != 0)
    requires (forall row | row in rest :: row in live) && From(live, front) && after in [front] + rest
    ensures From(live, after)
  {
    if after != front {
      OldRowsAreFrom(live, after);
    }
  }

  lemma AddKeepsPhysical(c: Cache, va: nat, pa: nat, uid: nat, after: Row)
    requires Good(c) && c.rows != [] && Page(va) != 0 && c.lastUid <= uid && after in Live(Add(c, va, pa, uid).0.rows)
    ensures From(Live(c.rows), after)
  {
    hide Good, Add, Live, From;
    var live, k, d := Live(c.rows), Find(Live(c.rows), Page(va)), Add(c, va, pa, uid).0;
    AddIsMap(c, va, pa, uid);
    LiveOnePerPage(c);
    if k < |live| {
      FoundIsFrom(live, k, uid);
    } else {
      NewIsFrom(live, Live(d.rows)[0]);
    }
    FrontFrom(live, Live(d.rows)[0], Live(d.rows)[1..], after);
  }

  lemma NewIsFrom(live: seq<Row>, row: Row)
    requires Find(live, row.virtualPage) == |live|
    ensures From(live, row)
  {
  }

  lemma LookupKeepsPhysical(c: Cache, va: nat, after: Row)
    requires Good(c) && Page(va) != 0 && after in Live(Lookup(c, va).0.rows)
    ensures From(Live(c.rows), after)
  {
    hide Good, Touch, From;
    var live := Live(c.rows);
    LookupIsMap(c, va);
    LiveOnePerPage(c);
    var k := Find(live, Page(va));
    if k == |live| {
      OldRowsAreFrom(live, after);
    } else {
      FoundIsFrom(live, k, c.lastUid);
      FrontFrom(live, live[k].(uid := c.lastUid), Without(live, k), after);
    }
  }

  lemma FoundIsFrom(live: seq<Row>, k: nat, uid: nat)
    requires k < |live| && k == Find(live, live[k].virtualPage)
    ensures From(live, live[k].(uid := uid))
    ensures forall row | row in Without(live, k) :: row in live
  {
  }

  /** No step changes the physical page of a page that stays live, nor whether it is artificial. */
  lemma StepKeepsPhysical(c: Cache, s: Step, after: Row)
    requires Good(c) && c.rows != [] && Allowed(c, s) && after in Live(Next(c, s).rows)
    ensures From(Live(c.rows), after)
  {
    var live := Live(c.rows);
    LiveOnePerPage(c);
    match s
    case DoLookup(va) => LookupKeepsPhysical(c, va, after);
    case DoAdd(va, pa, uid) => AddKeepsPhysical(c, va, pa, uid, after);
    case DoAddArtificial(va, pa) => AddArtificialKeepsPhysical(c, va, pa, after);
    case DoDrop(va) =>
      DropIsMap(c, va);
      assert after in live;
      OldRowsAreFrom(live, after);
    case DoDropOld(uid) =>
      DropOldIsMap(c, uid);
      SurvivorsAre(live, uid);
      assert after in live;
      OldRowsAreFrom(live, after);
  }

  lemma AddArtificialKeepsPhysical(c: Cache, va: nat, pa: nat, after: Row)
    requires Good(c) && c.rows != [] && Page(va) != 0 && after in Live(AddArtificial(c, va, pa).0.rows)
    ensures From(Live(c.rows), after)
  {
    hide Good, Add, Live, From;
    var live, e := Live(c.rows), Add(c, va, pa, c.lastUid);
    AddArtificialIsMap(c, va, pa);
    AddIsMap(c, va, pa, c.lastUid);
    LiveOnePerPage(c);
    var d := AddArtificial(c, va, pa).0;
    if e.1 {
      AddKeepsPhysical(c, va, pa, c.lastUid, after);
    } else {
      NewIsFrom(live, d.rows[0]);
      FrontFrom(live, d.rows[0], Live(e.0.rows)[1..], after);
    }
  }

  function Run(c: Cache, steps: seq<Step>): (r: Option<Cache>)
    requires c.rows != []
    decreases |steps|
  {
    if steps == [] then Some(c)
    else if Allowed(c, steps[0]) && Next(c, steps[0]).rows != [] then Run(Next(c, steps[0]), steps[1..])
    else None
  }

  function Empty(n: nat): Cache {
    Cache(seq(n, _ => FREE), 0)
  }

  lemma {:induction false} RunFromGood(c: Cache, steps: seq<Step>)
    requires Good(c) && c.rows != [] && Run(c, steps) != None
    ensures Good(Run(c, steps).value) && |Run(c, steps).value.rows| == |c.rows|
    decreases |steps|
  {
    if steps != [] {
      StepGood(c, steps[0]);
      RunFromGood(Next(c, steps[0]), steps[1..]);
    }
  }

  /** In every run of a table of `n` slots, from the start on, there is at most one row for a page,
      uids descend from head to tail, and free slots are all at the tail. */
  lemma RunGood(n: nat, steps: seq<Step>)
    requires n > 0 && Run(Empty(n), steps) != None
    ensures Good(Run(Empty(n), steps).value) && |Run(Empty(n), steps).value.rows| == n
  {
    RunFromGood(Empty(n), steps);
  }
}
