/**
 Virtual and physical ranges of one memory reference, which touches at most two
 pages (feeders/inst/softsdv/softsdv_data.h).
 */
module TwoPageAccess {
  const PAGE_SIZE: nat := 4096

  /** A virtual range. */
  datatype Range = Range(va: nat, n: nat)

  const NOWHERE := Range(0, 0)

  function PageOf(a: nat): nat {
    a - a % PAGE_SIZE
  }

  /** A reference from `baseVA` on, and the physical pages set for it. */
  datatype Access = Access(baseVA: nat, nBytes: nat, nPages: nat, page0: nat, page1: nat)

  predicate Contains(a: Access, r: Range) {
    a.baseVA <= r.va && r.va + r.n <= a.baseVA + a.nBytes
  }

  /** The physical address of the start of a range, and the rest of it on another page. */
  function PTranslate(a: Access, r: Range): (nat, Range) {
    var offset := r.va % PAGE_SIZE;
    if a.nPages == 0 then (0, NOWHERE)
    else if a.nPages == 1 then (a.page0 + offset, NOWHERE)
    else if PageOf(r.va) != PageOf(a.baseVA) then (a.page1 + offset, NOWHERE)
    else if PAGE_SIZE - offset < r.n then
      (a.page0 + offset, Range(r.va + (PAGE_SIZE - offset), r.n - (PAGE_SIZE - offset)))
    else (a.page0 + offset, NOWHERE)
  }

  /** The virtual address of `pa` when it lies on page number `i` of the reference. */
  function VirtualOn(a: Access, i: nat, pa: nat): nat {
    PageOf(a.baseVA) + i * PAGE_SIZE + pa % PAGE_SIZE
  }

  /** The virtual range for a physical one: that on the first page that matches, if it is inside. */
  function VTranslate(a: Access, pa: nat, size: nat): Range {
    var i :=
      if a.nPages > 0 && PageOf(pa) == a.page0 then 0 else if a.nPages > 1 && PageOf(pa) == a.page1 then 1 else 2;
    if i < 2 && Contains(a, Range(VirtualOn(a, i, pa), size)) then Range(VirtualOn(a, i, pa), size) else NOWHERE
  }

  predicate ValidAccess(a: Access) {
    && a.nPages <= 2 && a.nBytes < PAGE_SIZE
    && (a.nPages > 0 ==> a.page0 % PAGE_SIZE == 0) && (a.nPages > 1 ==> a.page1 % PAGE_SIZE == 0)
  }

  /** Every page the reference touches has been set. */
  predicate PagesSet(a: Access) {
    a.nPages == 2 || (a.nPages == 1 && a.baseVA % PAGE_SIZE + a.nBytes <= PAGE_SIZE)
  }

  lemma PageNeighbours(base: nat, va: nat)
    requires base <= va < base + PAGE_SIZE
    ensures PageOf(va) == PageOf(base) || PageOf(va) == PageOf(base) + PAGE_SIZE
    ensures PageOf(va) == PageOf(base) <==> base % PAGE_SIZE + (va - base) < PAGE_SIZE
  {
  }

  lemma PagePlus(page: nat, offset: nat)
    requires page % PAGE_SIZE == 0 && offset < PAGE_SIZE
    ensures (page + offset) % PAGE_SIZE == offset && PageOf(page + offset) == page
  {
  }

  /** The physical address of one byte. */
  function ByteAt(a: Access, va: nat): nat {
    PTranslate(a, Range(va, 1)).0
  }

  /** The bytes of a range from which nothing is left over stand one after the other on one page. */
  predicate OnePiece(a: Access, r: Range, n: nat) {
    && PTranslate(a, r).0 % PAGE_SIZE + n <= PAGE_SIZE
    && forall va | r.va <= va < r.va + n :: ByteAt(a, va) == PTranslate(a, r).0 + (va - r.va)
  }

  /** Translating a request ends after at most two calls. The pieces follow on each other, add up to
      the request, and each lies on one physical page, byte after byte. */
  lemma SplitsInTwo(a: Access, r: Range)
    requires ValidAccess(a) && PagesSet(a) && Contains(a, r)
    ensures var rest := PTranslate(a, r).1;
      && (rest.n == 0 ==> OnePiece(a, r, r.n))
      && (rest.n > 0 ==>
            && Contains(a, rest) && rest.n < r.n && rest.va == r.va + (r.n - rest.n)
            && OnePiece(a, r, r.n - rest.n)
            && PTranslate(a, rest).1.n == 0 && OnePiece(a, rest, rest.n))
  {
    var rest := PTranslate(a, r).1;
    if r.n == 0 {
      StartsOnPage(a, r.va);
    } else if rest.n == 0 {
      PieceIsWhole(a, r, r.n);
    } else {
      PieceIsWhole(a, r, r.n - rest.n);
      PageNeighbours(a.baseVA, rest.va);
      PieceIsWhole(a, rest, rest.n);
    }
  }

  lemma StartsOnPage(a: Access, va: nat)
    requires ValidAccess(a) && a.nPages > 0
    ensures PTranslate(a, Range(va, 0)).0 % PAGE_SIZE == va % PAGE_SIZE
  {
    PagePlus(a.page0, va % PAGE_SIZE);
    if a.nPages > 1 { PagePlus(a.page1, va % PAGE_SIZE); }
  }

  lemma PieceIsWhole(a: Access, r: Range, n: nat)
    requires ValidAccess(a) && PagesSet(a) && Contains(a, r) && 0 < n <= r.n && n == r.n - PTranslate(a, r).1.n
    ensures OnePiece(a, r, n)
  {
    PageNeighbours(a.baseVA, r.va);
    PageNeighbours(a.baseVA, r.va + n - 1);
    PagePlus(a.page0, r.va % PAGE_SIZE);
    if a.nPages > 1 { PagePlus(a.page1, r.va % PAGE_SIZE); }
    assert r.va % PAGE_SIZE + n <= PAGE_SIZE;
    forall va | r.va <= va < r.va + n ensures ByteAt(a, va) == PTranslate(a, r).0 + (va - r.va) {
      PageNeighbours(r.va, va);
      PageNeighbours(a.baseVA, va);
    }
  }

  /** Which physical page a range starts on: that of its virtual page, the first or the second the
      reference touches, at the same offset. What is left over is what stands on the second. */
  lemma StartsOnItsPage(a: Access, r: Range)
    requires ValidAccess(a) && PagesSet(a) && Contains(a, r) && r.n > 0
    ensures var (pa, rest) := PTranslate(a, r);
      var first, end := r.va / 4096 == a.baseVA / 4096, (r.va / 4096 + 1) * 4096;
      && pa == (if first then a.page0 else a.page1) + r.va % 4096
      && rest == if r.va + r.n <= end then Range(0, 0) else Range(end, r.va + r.n - end)
    ensures r.va / 4096 == a.baseVA / 4096 || r.va / 4096 == a.baseVA / 4096 + 1
  {
    PageNeighbours(a.baseVA, r.va);
    PageNeighbours(a.baseVA, r.va + r.n - 1);
  }

  /** So every byte of the reference has the address of its own page at its own offset. */
  lemma EachByteOnItsPage(a: Access, va: nat)
    requires ValidAccess(a) && PagesSet(a) && a.baseVA <= va < a.baseVA + a.nBytes
    ensures ByteAt(a, va) == (if va / 4096 == a.baseVA / 4096 then a.page0 else a.page1) + va % 4096
  {
    StartsOnItsPage(a, Range(va, 1));
  }

  /** A virtual range found for a physical address lies inside the reference and translates to it. */
  lemma FoundTranslatesBack(a: Access, pa: nat, size: nat)
    requires ValidAccess(a) && size > 0
    ensures var r := VTranslate(a, pa, size);
            r != Range(0, 0) ==> r.n == size && Contains(a, r) && PTranslate(a, r).0 == pa
  {
    var i := if a.nPages > 0 && PageOf(pa) == a.page0 then 0 else 1;
    var va := VirtualOn(a, i, pa);
    PagePlus(PageOf(a.baseVA) + i * PAGE_SIZE, pa % PAGE_SIZE);
  }

  /** Physical addresses of the bytes lead back to them, all of them, exactly when the pages of a
      reference that touches two differ. */
  lemma RoundTrips(a: Access)
    requires ValidAccess(a) && PagesSet(a) && a.nBytes > 0
    ensures (forall va | a.baseVA <= va < a.baseVA + a.nBytes :: VTranslate(a, ByteAt(a, va), 1) == Range(va, 1))
            <==> a.baseVA % PAGE_SIZE + a.nBytes <= PAGE_SIZE || a.page0 != a.page1
  {
    if a.baseVA % PAGE_SIZE + a.nBytes <= PAGE_SIZE || a.page0 != a.page1 {
      forall va | a.baseVA <= va < a.baseVA + a.nBytes ensures VTranslate(a, ByteAt(a, va), 1) == Range(va, 1) {
        ByteRoundTrips(a, va);
      }
    } else {
      var va := PageOf(a.baseVA) + PAGE_SIZE;
      PageNeighbours(a.baseVA, va);
      PagePlus(a.page1, va % PAGE_SIZE);
      assert VTranslate(a, ByteAt(a, va), 1) != Range(va, 1);
    }
  }

  lemma ByteRoundTrips(a: Access, va: nat)
    requires ValidAccess(a) && PagesSet(a) && a.baseVA <= va < a.baseVA + a.nBytes
    requires a.baseVA % PAGE_SIZE + a.nBytes <= PAGE_SIZE || a.page0 != a.page1
    ensures VTranslate(a, ByteAt(a, va), 1) == Range(va, 1)
  {
    PageNeighbours(a.baseVA, va);
    PagePlus(a.page0, va % PAGE_SIZE);
    if a.nPages > 1 { PagePlus(a.page1, va % PAGE_SIZE); }
  }

  class MemAccess {
    var baseVA: nat
    const pages: array<nat>
    var nPages: nat
    var nBytes: nat

    ghost predicate Valid()
      reads this, pages
    {
      pages.Length == 2 && nPages <= 2 && nBytes < PAGE_SIZE
    }

    ghost function Abs(): Access
      requires pages.Length == 2
      reads this, pages
    {
      Access(baseVA, nBytes, nPages, pages[0], pages[1])
    }

    constructor ()
      ensures Valid() && fresh(pages) && nPages == 0 && nBytes == 0 && baseVA == 0
    {
      pages := new nat[2](_ => 0);
      baseVA, nPages, nBytes := 0, 0, 0;
    }

    method SetVA(newVA: nat)
      requires Valid()
      modifies this`baseVA
      ensures Valid() && Abs() == old(Abs()).(baseVA := newVA)
    {
      baseVA := newVA;
    }

    /** Not ok is a failed assertion: a region is smaller than a page. */
    method SetSize(size: nat) returns (ok: bool)
      requires Valid()
      modifies this`nBytes
      ensures Valid() && (ok <==> size < PAGE_SIZE)
      ensures Abs() == if ok then old(Abs()).(nBytes := size) else old(Abs())
    {
      ok := size < PAGE_SIZE;
      if ok {
        nBytes := size;
      }
    }

    /** Sets one physical page; only its page number counts. Page 1 alone makes both count as set. */
    method SetPA(newPA: nat, pageIdx: nat) returns (ok: bool)
      requires Valid()
      modifies this`nPages, pages
      ensures Valid() && (ok <==> pageIdx < 2)
      ensures old(ValidAccess(Abs())) && (pageIdx == 1 && old(nPages) == 0 ==> pages[0] % PAGE_SIZE == 0) ==>
        ValidAccess(Abs())
      ensures Abs() == var a := old(Abs());
                       if pageIdx == 0 then a.(page0 := PageOf(newPA), nPages := if a.nPages == 0 then 1 else a.nPages)
                       else if pageIdx == 1 then a.(page1 := PageOf(newPA), nPages := 2)
                       else a
    {
      ok := pageIdx < 2;
      if ok {
        pages[pageIdx] := newPA - newPA % PAGE_SIZE;
        if pageIdx >= nPages {
          nPages := pageIdx + 1;
        }
      }
    }

    /** The virtual range for a physical one. */
    method Virtual(pa: nat, size: nat) returns (r: Range)
      requires Valid()
      ensures r == VTranslate(Abs(), pa, size)
    {
      var maskedPA := pa - pa % PAGE_SIZE;
      for i := 0 to nPages
        invariant forall j | 0 <= j < i :: pages[j] != maskedPA
      {
        if maskedPA == pages[i] {
          var va := (baseVA - baseVA % PAGE_SIZE) + i * PAGE_SIZE + pa % PAGE_SIZE;
          if va >= baseVA && va + size <= baseVA + nBytes {
            return Range(va, size);
          } else {
            return NOWHERE;
          }
        }
      }
      return NOWHERE;
    }

    /** The physical address of a range; not ok when it is not inside the reference. */
    method Physical(r: Range) returns (ok: bool, pa: nat, rest: Range)
      requires Valid()
      ensures ok <==> nPages == 0 || Contains(Abs(), r)
      ensures ok ==> (pa, rest) == PTranslate(Abs(), r)
    {
      ok, pa, rest := true, 0, NOWHERE;
      if nPages == 0 { return; }
      ok := r.va >= baseVA && r.va + r.n <= baseVA + nBytes;
      if !ok { return; }
      var offset := r.va % PAGE_SIZE;
      if nPages == 1 {
        pa := pages[0] + offset;
        return;
      }
      if r.va - offset != baseVA - baseVA % PAGE_SIZE {
        pa := pages[1] + offset;
        return;
      }
      var maxSize := PAGE_SIZE - offset;
      if maxSize < r.n {
        rest := Range(r.va + maxSize, r.n - maxSize);
      }
      pa := pages[0] + offset;
    }
  }
}
