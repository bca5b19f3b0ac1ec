/** The page-backed pool of fixed-size records that the user heap, shared memory and file mapping each carry.
    A page starts with its header; the rest is carved into slots, free slots are chained, and a page whose
    last live slot is freed goes back to the physical allocator. */
module RecordPool {
  import opened Seqs
  import opened Arith

  /** Page size, offset of the first slot behind the page header, and slot stride. */
  datatype Geometry = Geometry(pageSize: nat, slotStart: nat, slotBytes: nat) {
    predicate Ok() { 0 < slotBytes && 0 < pageSize }

    /** slot_capacity as the grow step computes it; 0 when the header leaves no room. */
    function Capacity(): nat
      requires Ok()
    {
      if slotStart >= pageSize then 0 else (pageSize - slotStart) / slotBytes
    }

    /** The page header an address belongs to: the low bits masked off. */
    function PageOf(a: nat): (p: nat)
      requires Ok()
      ensures p <= a
    {
      a / pageSize * pageSize
    }

    /** a lies on a slot boundary of its page. */
    predicate IsSlot(a: nat)
      requires Ok()
    {
      var off := a - PageOf(a);
      slotStart <= off && (off - slotStart) % slotBytes == 0 && (off - slotStart) / slotBytes < Capacity()
    }

    function Slot(page: nat, k: nat): nat { page + slotStart + k * slotBytes }
  }

  lemma CapacityFits(g: Geometry)
    requires g.Ok()
    ensures g.Capacity() > 0 ==> g.slotStart + g.Capacity() * g.slotBytes <= g.pageSize
  {
    if g.slotStart < g.pageSize {
      var room := g.pageSize - g.slotStart;
      assert room == (room / g.slotBytes) * g.slotBytes + room % g.slotBytes;
    }
  }

  /** Masking an address inside a page gives the page. */
  lemma PageOfInside(g: Geometry, page: nat, off: nat)
    requires g.Ok() && page % g.pageSize == 0 && off < g.pageSize
    ensures g.PageOf(page + off) == page
  {
    var q := page / g.pageSize;
    assert page == q * g.pageSize;
    DivUnique(page + off, g.pageSize, q, off);
  }

  /** The k-th carved slot is a slot of its page. */
  lemma SlotIsSlot(g: Geometry, page: nat, k: nat)
    requires g.Ok() && page % g.pageSize == 0 && k < g.Capacity()
    ensures g.PageOf(g.Slot(page, k)) == page && g.IsSlot(g.Slot(page, k))
  {
    CapacityFits(g);
    MulMono(k + 1, g.Capacity(), g.slotBytes);
    assert (k + 1) * g.slotBytes == k * g.slotBytes + g.slotBytes;
    PageOfInside(g, page, g.slotStart + k * g.slotBytes);
    DivUnique(k * g.slotBytes, g.slotBytes, k, 0);
  }

  /** Every slot of a page is one of the carved ones. */
  lemma SlotIndex(g: Geometry, page: nat, a: nat) returns (k: nat)
    requires g.Ok() && g.PageOf(a) == page && g.IsSlot(a)
    ensures k < g.Capacity() && a == g.Slot(page, k)
  {
    var rest := a - page - g.slotStart;
    k := rest / g.slotBytes;
    assert rest == k * g.slotBytes + rest % g.slotBytes;
  }

  /** The live slots on one page. */
  ghost function OnPage(g: Geometry, live: set<nat>, page: nat): set<nat>
    requires g.Ok()
  {
    set a | a in live && g.PageOf(a) == page
  }

  /** Free list and live slots divide the slots of the held pages between them, without repetition. */
  ghost predicate Partition(g: Geometry, freeList: seq<nat>, live: set<nat>, pages: seq<nat>)
    requires g.Ok()
  {
    && Distinct(freeList) && Distinct(pages)
    && SetOf(freeList) !! live
    && (forall a :: a in freeList || a in live <==> g.PageOf(a) in pages && g.IsSlot(a))
    && (forall p :: p in pages ==> 0 < p && p % g.pageSize == 0)
  }

  /** The per-page counters are exact. */
  ghost predicate Counted(g: Geometry, counts: map<nat, nat>, live: set<nat>, pages: seq<nat>)
    requires g.Ok()
  {
    counts.Keys == SetOf(pages) && forall p :: p in pages ==> counts[p] == |OnPage(g, live, p)|
  }

  ghost predicate NoIdlePage(counts: map<nat, nat>, pages: seq<nat>)
    requires counts.Keys == SetOf(pages)
  {
    forall p :: p in pages ==> counts[p] > 0
  }

  /** No records means no pages. */
  lemma EmptyPoolHoldsNothing(g: Geometry, freeList: seq<nat>, counts: map<nat, nat>, live: set<nat>, pages: seq<nat>)
    requires g.Ok() && Partition(g, freeList, live, pages) && Counted(g, counts, live, pages) && NoIdlePage(counts, pages)
    requires live == {}
    ensures pages == [] && freeList == []
  {
    assert forall p :: p in pages ==> |OnPage(g, live, p)| == 0 by {
      forall p | p in pages ensures OnPage(g, live, p) == {} { }
    }
    if pages != [] {
      HasMember(pages);
      assert false;
    }
    assert forall a :: a in freeList ==> g.PageOf(a) in pages;
    if freeList != [] {
      HasMember(freeList);
      assert false;
    }
  }

  lemma HasMember(s: seq<nat>)
    requires s != []
    ensures exists x :: x in s
  {
    assert s[0] in s;
  }

  // ---------------------------------------------------------------- carving and retiring

  /** The free list after carving the first n slots of a page, newest first. */
  function Carved(g: Geometry, page: nat, n: nat, freeList: seq<nat>): seq<nat>
  {
    if n == 0 then freeList else [g.Slot(page, n - 1)] + Carved(g, page, n - 1, freeList)
  }

  lemma {:induction false} CarvedMembers(g: Geometry, page: nat, n: nat)
    requires g.Ok() && page % g.pageSize == 0 && n <= g.Capacity()
    ensures forall a :: a in Carved(g, page, n, []) ==> g.PageOf(a) == page && g.IsSlot(a) && a < g.Slot(page, n)
    ensures forall k :: 0 <= k < n ==> g.Slot(page, k) in Carved(g, page, n, [])
    ensures Distinct(Carved(g, page, n, []))
    decreases n
  {
    if n > 0 {
      CarvedMembers(g, page, n - 1);
      SlotIsSlot(g, page, n - 1);
      assert g.Slot(page, n) == g.Slot(page, n - 1) + g.slotBytes;
      hide *;
      CarvedStep(g, page, n);
    }
  }

  lemma CarvedStep(g: Geometry, page: nat, n: nat)
    requires g.Ok() && 0 < n && g.Slot(page, n) == g.Slot(page, n - 1) + g.slotBytes
    requires g.PageOf(g.Slot(page, n - 1)) == page && g.IsSlot(g.Slot(page, n - 1))
    requires forall a :: a in Carved(g, page, n - 1, []) ==> g.PageOf(a) == page && g.IsSlot(a) && a < g.Slot(page, n - 1)
    requires forall k :: 0 <= k < n - 1 ==> g.Slot(page, k) in Carved(g, page, n - 1, [])
    requires Distinct(Carved(g, page, n - 1, []))
    ensures forall a :: a in Carved(g, page, n, []) ==> g.PageOf(a) == page && g.IsSlot(a) && a < g.Slot(page, n)
    ensures forall k :: 0 <= k < n ==> g.Slot(page, k) in Carved(g, page, n, [])
    ensures Distinct(Carved(g, page, n, []))
  {
    hide Geometry.Slot, Geometry.PageOf, Geometry.IsSlot;
    var c := Carved(g, page, n - 1, []);
    var d := Carved(g, page, n, []);
    assert d == [g.Slot(page, n - 1)] + c;
    assert forall i :: 0 <= i < |c| ==> c[i] in c;
    assert forall a :: a in d <==> a == g.Slot(page, n - 1) || a in c;
    forall k | 0 <= k < n ensures g.Slot(page, k) in d {
      if k < n - 1 {
        assert g.Slot(page, k) in c;
      }
    }
  }

  /** Growing an empty free list by a page adds exactly the page's slots. */
  lemma GrowPartition(g: Geometry, page: nat, live: set<nat>, pages: seq<nat>)
    requires g.Ok() && Partition(g, [], live, pages) && 0 < page && page % g.pageSize == 0 && page !in pages
    ensures Partition(g, Carved(g, page, g.Capacity(), []), live, [page] + pages)
    ensures OnPage(g, live, page) == {}
  {
    hide Carved, Geometry.Slot, Geometry.PageOf, Geometry.IsSlot;
    var n := g.Capacity();
    var c := Carved(g, page, n, []);
    CarvedMembers(g, page, n);
    forall a ensures a in c || a in live <==> g.PageOf(a) in [page] + pages && g.IsSlot(a) {
      assert a in live <==> a in live || a in [];
      if g.PageOf(a) == page && g.IsSlot(a) {
        var k := SlotIndex(g, page, a);
      }
    }
  }

  /** Keep the slots of other pages. */
  function Elsewhere(g: Geometry, s: seq<nat>, page: nat): (r: seq<nat>)
    requires g.Ok()
    ensures forall a :: a in r <==> a in s && g.PageOf(a) != page
  {
    if s == [] then []
    else (if g.PageOf(s[0]) == page then [] else [s[0]]) + Elsewhere(g, s[1..], page)
  }

  lemma {:induction false} ElsewhereDistinct(g: Geometry, s: seq<nat>, page: nat)
    requires g.Ok() && Distinct(s)
    ensures Distinct(Elsewhere(g, s, page))
    decreases |s|
  {
    hide Geometry.PageOf;
    if s != [] {
      ElsewhereDistinct(g, s[1..], page);
      var r := Elsewhere(g, s[1..], page);
      assert forall i :: 0 <= i < |r| ==> r[i] in r && r[i] in s[1..];
    }
  }

  /** Retiring a page without live slots removes exactly its slots from the free list. */
  lemma RetirePartition(g: Geometry, freeList: seq<nat>, live: set<nat>, pages: seq<nat>, page: nat)
    requires g.Ok() && Partition(g, freeList, live, pages) && page in pages && OnPage(g, live, page) == {}
    ensures Partition(g, Elsewhere(g, freeList, page), live, Without(pages, page))
  {
    hide Geometry.PageOf, Geometry.IsSlot, Elsewhere, Without;
    ElsewhereDistinct(g, freeList, page);
    WithoutMembers(pages, page);
    assert forall a :: a in live && g.PageOf(a) == page ==> a in OnPage(g, live, page);
  }

  // ---------------------------------------------------------------- taking and returning one slot

  lemma TakePartition(g: Geometry, freeList: seq<nat>, live: set<nat>, pages: seq<nat>)
    requires g.Ok() && Partition(g, freeList, live, pages) && freeList != []
    ensures var a := freeList[0];
            && Partition(g, freeList[1..], live + {a}, pages) && a !in live && g.PageOf(a) in pages && 0 < a
  {
    hide Geometry.PageOf, Geometry.IsSlot;
    assert freeList == [freeList[0]] + freeList[1..];
    assert freeList[0] in freeList;
  }

  lemma ReturnPartition(g: Geometry, freeList: seq<nat>, live: set<nat>, pages: seq<nat>, a: nat)
    requires g.Ok() && Partition(g, freeList, live, pages) && a in live
    ensures Partition(g, [a] + freeList, live - {a}, pages) && g.PageOf(a) in pages
  {
    hide Geometry.PageOf, Geometry.IsSlot;
    assert forall i :: 0 <= i < |freeList| ==> freeList[i] in freeList;
  }

  /** Adding or removing one slot changes the count of its own page only. */
  lemma CountChange(g: Geometry, live: set<nat>, a: nat, p: nat)
    requires g.Ok() && a !in live
    ensures |OnPage(g, live + {a}, p)| == |OnPage(g, live, p)| + if g.PageOf(a) == p then 1 else 0
  {
    hide Geometry.PageOf;
    if g.PageOf(a) == p {
      assert OnPage(g, live + {a}, p) == OnPage(g, live, p) + {a};
    } else {
      assert OnPage(g, live + {a}, p) == OnPage(g, live, p);
    }
  }

  lemma CountedAfterTake(g: Geometry, counts: map<nat, nat>, live: set<nat>, pages: seq<nat>, a: nat)
    requires g.Ok() && Counted(g, counts, live, pages) && a !in live && g.PageOf(a) in pages
    ensures Counted(g, counts[g.PageOf(a) := counts[g.PageOf(a)] + 1], live + {a}, pages)
  {
    hide Geometry.PageOf, OnPage;
    forall p { CountChange(g, live, a, p); }
  }

  lemma CountedAfterReturn(g: Geometry, counts: map<nat, nat>, live: set<nat>, pages: seq<nat>, a: nat)
    requires g.Ok() && Counted(g, counts, live, pages) && a in live && g.PageOf(a) in pages
    ensures counts[g.PageOf(a)] > 0
    ensures Counted(g, counts[g.PageOf(a) := counts[g.PageOf(a)] - 1], live - {a}, pages)
  {
    hide Geometry.PageOf, OnPage;
    assert live == live - {a} + {a};
    forall p ensures |OnPage(g, live, p)| == |OnPage(g, live - {a}, p)| + if g.PageOf(a) == p then 1 else 0 {
      CountChange(g, live - {a}, a, p);
    }
  }

  // ---------------------------------------------------------------- the pool

  class Pool {
    const g: Geometry
    var freeList: seq<nat>
    var pages: seq<nat>
    var counts: map<nat, nat>
    ghost var live: set<nat>

    ghost predicate Sound()
      reads this
    {
      g.Ok() && Partition(g, freeList, live, pages) && Counted(g, counts, live, pages)
    }

    ghost predicate Valid()
      reads this
    {
      Sound() && NoIdlePage(counts, pages)
    }

    constructor (g: Geometry)
      requires g.Ok()
      ensures Valid() && this.g == g && live == {} && pages == []
    {
      this.g := g;
      freeList, pages, counts, live := [], [], map[], {};
    }

    /** pool_grow: page is what the physical allocator returned, 0 for none. kept tells whether it was used. */
    method Grow(page: nat) returns (kept: bool)
      requires Valid() && freeList == []
      requires page != 0 ==> page % g.pageSize == 0 && page !in pages
      modifies this`freeList, this`pages, this`counts
      ensures Sound() && kept == (page != 0 && g.Capacity() != 0)
      ensures !kept ==> unchanged(this)
      ensures kept ==> freeList != [] && pages == [page] + old(pages) && counts == old(counts)[page := 0]
                       && forall a :: a in freeList ==> g.PageOf(a) == page
    {
      hide Partition, Carved, OnPage, Geometry.Slot;
      if page == 0 || g.slotStart >= g.pageSize {
        return false;
      }
      var capacity := (g.pageSize - g.slotStart) / g.slotBytes;
      if capacity == 0 {
        return false;
      }
      GrowPartition(g, page, live, pages);
      CarvedMembers(g, page, capacity);
      CountedNewPage(g, counts, live, pages, page);
      freeList := Carve(page, capacity);
      pages := [page] + pages;
      counts := counts[page := 0];
      kept := true;
      assert g.Slot(page, 0) in freeList;
    }

    /** Chain the slots of a new page, so that the last one carved is handed out first. */
    method Carve(page: nat, capacity: nat) returns (slots: seq<nat>)
      ensures slots == Carved(g, page, capacity, [])
    {
      hide Carved, Geometry.Slot;
      CarvedFirst(g, page);
      slots := [];
      var index := 0;
      while index < capacity
        invariant 0 <= index <= capacity && slots == Carved(g, page, index, [])
      {
        CarvedNext(g, page, index);
        slots := [g.Slot(page, index)] + slots;
        index := index + 1;
      }
    }

    static lemma CarvedFirst(g: Geometry, page: nat)
      ensures Carved(g, page, 0, []) == []
    {
    }

    static lemma CarvedNext(g: Geometry, page: nat, n: nat)
      ensures Carved(g, page, n + 1, []) == [g.Slot(page, n)] + Carved(g, page, n, [])
    {
    }

    static lemma CountedNewPage(g: Geometry, counts: map<nat, nat>, live: set<nat>, pages: seq<nat>, page: nat)
      requires g.Ok() && Counted(g, counts, live, pages) && page !in pages && OnPage(g, live, page) == {}
      ensures Counted(g, counts[page := 0], live, [page] + pages)
    {
      hide OnPage;
    }

    /** pool_allocate: a slot nobody holds, or 0 with the pool untouched. */
    method Allocate(page: nat) returns (slot: nat, kept: bool)
      requires Valid()
      requires page != 0 ==> page % g.pageSize == 0 && page !in pages
      modifies this
      ensures Valid()
      ensures slot == 0 <==> old(freeList) == [] && (page == 0 || g.Capacity() == 0)
      ensures slot == 0 ==> unchanged(this) && !kept
      ensures slot != 0 ==> slot !in old(live) && live == old(live) + {slot}
                            && pages == (if kept then [page] else []) + old(pages)
      ensures kept ==> old(freeList) == [] && page != 0
    {
      hide Partition, OnPage;
      kept := false;
      if freeList == [] {
        kept := Grow(page);
        if !kept {
          return 0, false;
        }
      }
      slot := freeList[0];
      TakePartition(g, freeList, live, pages);
      CountedAfterTake(g, counts, live, pages, slot);
      freeList := freeList[1..];
      var header := g.PageOf(slot);
      counts := counts[header := counts[header] + 1];
      live := live + {slot};
    }

    /** remove_page_slots: one pass over the chain. */
    method RemovePageSlots(page: nat) returns (kept: seq<nat>)
      requires g.Ok()
      ensures kept == Elsewhere(g, freeList, page)
    {
      hide Elsewhere, Geometry.PageOf;
      ElsewhereNone(g, page);
      kept := [];
      var i := 0;
      while i < |freeList|
        invariant 0 <= i <= |freeList| && kept == Elsewhere(g, freeList[..i], page)
      {
        assert freeList[..i + 1] == freeList[..i] + [freeList[i]];
        ElsewhereSnoc(g, freeList[..i], freeList[i], page);
        if g.PageOf(freeList[i]) != page {
          kept := kept + [freeList[i]];
        }
        i := i + 1;
      }
      assert freeList[..i] == freeList;
    }

    static lemma ElsewhereNone(g: Geometry, page: nat)
      requires g.Ok()
      ensures Elsewhere(g, [], page) == []
    {
    }

    static lemma {:induction false} ElsewhereSnoc(g: Geometry, s: seq<nat>, a: nat, page: nat)
      requires g.Ok()
      ensures Elsewhere(g, s + [a], page) == Elsewhere(g, s, page) + (if g.PageOf(a) == page then [] else [a])
      decreases |s|
    {
      hide Geometry.PageOf;
      if s == [] {
        assert s + [a] == [a];
        assert Elsewhere(g, [a][1..], page) == [];
      } else {
        assert (s + [a])[1..] == s[1..] + [a];
        ElsewhereSnoc(g, s[1..], a, page);
      }
    }

    /** pool_free: the slot is free again; a page left without live slots is retired and returned. */
    method Free(slot: nat) returns (retired: nat)
      requires Valid() && slot in live
      modifies this
      ensures Valid() && live == old(live) - {slot}
      ensures var page := g.PageOf(slot);
              if OnPage(g, live, page) == {} then retired == page && pages == Without(old(pages), page)
              else retired == 0 && pages == old(pages)
    {
      hide Partition, OnPage, Elsewhere, Without;
      var page := g.PageOf(slot);
      ReturnPartition(g, freeList, live, pages, slot);
      CountedAfterReturn(g, counts, live, pages, slot);
      freeList := [slot] + freeList;
      counts := counts[page := counts[page] - 1];
      live := live - {slot};
      assert counts[page] == |OnPage(g, live, page)|;
      if counts[page] != 0 {
        return 0;
      }
      RetirePartition(g, freeList, live, pages, page);
      RetireCounted(g, freeList, counts, live, pages, page);
      freeList := RemovePageSlots(page);
      pages := Without(pages, page);
      counts := counts - {page};
      retired := page;
    }

    static lemma RetireCounted(g: Geometry, freeList: seq<nat>, counts: map<nat, nat>, live: set<nat>, pages: seq<nat>, page: nat)
      requires g.Ok() && Partition(g, freeList, live, pages) && Counted(g, counts, live, pages)
      ensures Counted(g, counts - {page}, live, Without(pages, page))
      ensures forall p :: p in Without(pages, page) <==> p in pages && p != page
    {
      hide OnPage, Without;
      WithoutMembers(pages, page);
    }
  }
}
