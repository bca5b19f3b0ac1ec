/** Kernel side of the user heap: raw allocations, demand-mapped pages, and their release. */
module UserHeap {
  import opened Seqs
  import opened Arith
  import opened HeapGaps

  datatype Status = Done | InvalidArgument | NotSupported | NotFound | NoSpace | NoMemory | MapFailed

  /** One populated heap page: whose it is, where it is mapped, and the physical page behind it. */
  datatype Page = Page(owner: nat, base: nat, phys: nat)

  type Key = (nat, nat)

  function KeyOf(r: Page): Key { (r.owner, r.base) }

  predicate Overlaps(a: Allocation, base: nat, pageSize: nat)
  {
    a.base < base + pageSize && base < a.End()
  }

  /** page_has_live_allocation */
  ghost predicate HasLive(allocs: seq<Allocation>, owner: nat, base: nat, pageSize: nat)
  {
    exists a :: a in allocs && a.owner == owner && Overlaps(a, base, pageSize)
  }

  ghost predicate LayoutOk(l: Layout, pageSize: nat)
  {
    && 0 < pageSize && 0 < l.heapBase <= l.compatBase <= l.limit
    && l.heapBase % pageSize == 0 && l.compatBase % pageSize == 0 && l.compatBase % 16 == 0 && l.limit < HALF64
  }

  /** At most one record per process and page, and no physical page behind two records. */
  ghost predicate DistinctPages(pages: seq<Page>)
  {
    forall i, j :: 0 <= i < j < |pages| ==> KeyOf(pages[i]) != KeyOf(pages[j]) && pages[i].phys != pages[j].phys
  }

  /** A populated page of the kernel-managed half touches a live allocation of its owner. */
  ghost predicate Needed(r: Page, allocs: seq<Allocation>, l: Layout, pageSize: nat)
  {
    r.base >= l.compatBase ==> HasLive(allocs, r.owner, r.base, pageSize)
  }

  predicate Placed(r: Page, l: Layout, pageSize: nat)
    requires 0 < pageSize
  {
    r.base % pageSize == 0 && l.heapBase <= r.base < l.limit && 0 < r.phys
  }

  /** The page tables map exactly the recorded pages; recorded and spare physical pages are disjoint. */
  ghost predicate Mapped(pages: seq<Page>, table: map<Key, nat>, spare: set<nat>)
  {
    && (forall r :: r in pages ==> KeyOf(r) in table && table[KeyOf(r)] == r.phys && r.phys !in spare)
    && (forall k :: k in table ==> exists r :: r in pages && KeyOf(r) == k)
    && 0 !in spare
  }

  lemma PageAdded(pages: seq<Page>, table: map<Key, nat>, spare: set<nat>, r: Page)
    requires DistinctPages(pages) && Mapped(pages, table, spare) && KeyOf(r) !in table && r.phys in spare
    ensures DistinctPages(pages + [r]) && Mapped(pages + [r], table[KeyOf(r) := r.phys], spare - {r.phys})
    ensures forall x :: x in pages + [r] <==> x in pages || x == r
  {
    var ps, t := pages + [r], table[KeyOf(r) := r.phys];
    assert forall x :: x in ps <==> x in pages || x == r;
    assert forall i :: 0 <= i < |pages| ==> pages[i] in pages;
    forall k | k in t ensures exists x :: x in ps && KeyOf(x) == k {
      if k == KeyOf(r) { assert r in ps; }
      else { var x :| x in pages && KeyOf(x) == k; assert x in ps; }
    }
  }

  lemma PageRemoved(pages: seq<Page>, table: map<Key, nat>, spare: set<nat>, k: nat)
    requires k < |pages| && DistinctPages(pages) && Mapped(pages, table, spare) && 0 < pages[k].phys
    ensures DistinctPages(RemoveAt(pages, k))
    ensures Mapped(RemoveAt(pages, k), table - {KeyOf(pages[k])}, spare + {pages[k].phys})
    ensures forall x :: x in RemoveAt(pages, k) <==> x in pages && KeyOf(x) != KeyOf(pages[k])
  {
    hide RemoveAt;
    WithoutKeys(pages, k);
    WithoutDistinct(pages, k);
    MappedWithout(pages, RemoveAt(pages, k), table, spare, pages[k]);
  }

  lemma WithoutDistinct(pages: seq<Page>, k: nat)
    requires k < |pages| && DistinctPages(pages)
    ensures DistinctPages(RemoveAt(pages, k))
  {
    hide KeyOf;
    var ps := RemoveAt(pages, k);
    assert forall i :: 0 <= i < |ps| ==> ps[i] == pages[if i < k then i else i + 1];
  }

  lemma MappedWithout(pages: seq<Page>, ps: seq<Page>, table: map<Key, nat>, spare: set<nat>, r: Page)
    requires Mapped(pages, table, spare) && r in pages && 0 < r.phys
    requires forall x :: x in ps <==> x in pages && KeyOf(x) != KeyOf(r)
    requires forall x :: x in ps ==> x.phys != r.phys
    ensures Mapped(ps, table - {KeyOf(r)}, spare + {r.phys})
  {
    hide KeyOf;
    var t := table - {KeyOf(r)};
    forall key | key in t ensures exists x :: x in ps && KeyOf(x) == key {
      var x :| x in pages && KeyOf(x) == key;
      assert x in ps;
    }
  }

  lemma WithoutKeys(pages: seq<Page>, k: nat)
    requires k < |pages| && DistinctPages(pages)
    ensures forall x :: x in RemoveAt(pages, k) <==> x in pages && KeyOf(x) != KeyOf(pages[k])
    ensures forall x :: x in RemoveAt(pages, k) ==> x.phys != pages[k].phys
  {
    var ps := RemoveAt(pages, k);
    forall x | x in ps ensures x in pages && KeyOf(x) != KeyOf(pages[k]) && x.phys != pages[k].phys {
      var i :| 0 <= i < |ps| && ps[i] == x;
      var j := if i < k then i else i + 1;
      assert pages[j] == x;
    }
    forall x | x in pages && KeyOf(x) != KeyOf(pages[k]) ensures x in ps {
      var i :| 0 <= i < |pages| && pages[i] == x;
      assert ps[if i < k then i else i - 1] == x;
    }
  }

  // ---------------------------------------------------------------- effect of releasing pages

  /** Records whose page lies in [lo, hi), belongs to owner, and touches no live allocation any more. */
  ghost predicate Doomed(r: Page, allocs: seq<Allocation>, owner: nat, lo: nat, hi: nat, pageSize: nat)
  {
    r.owner == owner && lo <= r.base < hi && !HasLive(allocs, owner, r.base, pageSize)
  }

  /** Every page that only the freed allocation kept needed lies between its rounded ends. */
  lemma FreedRangeCovers(allocs: seq<Allocation>, rest: seq<Allocation>, f: Allocation, r: Page, l: Layout, pageSize: nat, lo: nat, hi: nat)
    requires LayoutOk(l, pageSize) && Placed(r, l, pageSize) && Needed(r, allocs, l, pageSize)
    requires forall a :: a in allocs ==> a in rest || a == f
    requires lo <= f.base && f.base < lo + pageSize && lo % pageSize == 0
    requires f.End() <= hi
    requires !Doomed(r, rest, f.owner, lo, hi, pageSize)
    ensures Needed(r, rest, l, pageSize)
  {
    if r.base >= l.compatBase && !HasLive(rest, r.owner, r.base, pageSize) {
      var a :| a in allocs && a.owner == r.owner && Overlaps(a, r.base, pageSize);
      assert a == f;
      if r.base < lo { NextMultiple(r.base, lo, pageSize); }
    }
  }

  class Heap {
    const l: Layout
    const pageSize: nat
    var reserved: set<nat>          // processes with a heap reservation
    var allocs: seq<Allocation>
    var pages: seq<Page>
    var table: map<Key, nat>        // page tables of all processes, heap window only
    var spare: set<nat>             // physical pages the allocator can still hand out

    ghost predicate Valid()
      reads this
    {
      && LayoutOk(l, pageSize) && Inv(allocs, l)
      && DistinctPages(pages) && Mapped(pages, table, spare)
      && (forall r :: r in pages ==> Placed(r, l, pageSize) && Needed(r, allocs, l, pageSize))
    }

    constructor (l: Layout, pageSize: nat, spare: set<nat>)
      requires LayoutOk(l, pageSize) && 0 !in spare
      ensures Valid() && this.l == l && this.pageSize == pageSize && this.spare == spare
      ensures allocs == [] && pages == [] && reserved == {}
    {
      this.l, this.pageSize, this.spare := l, pageSize, spare;
      reserved, allocs, pages, table := {}, [], [], map[];
    }

    /** A new user process gets its heap reservation. */
    method AddProcess(owner: nat)
      requires Valid()
      modifies this`reserved
      ensures Valid() && reserved == old(reserved) + {owner}
    {
      reserved := reserved + {owner};
    }

    /** find_gap: one walk along the shared list. */
    method SearchGap(owner: nat, size: nat) returns (r: Option<nat>)
      ensures r == FindGap(allocs, owner, size, l.compatBase, l.limit)
    {
      hide AlignUp16, Add64;
      var candidate, i := l.compatBase, 0;
      while i < |allocs|
        invariant 0 <= i <= |allocs|
        invariant FindGap(allocs, owner, size, l.compatBase, l.limit) == FindGap(allocs[i..], owner, size, candidate, l.limit)
      {
        var a := allocs[i];
        assert allocs[i..][0] == a && allocs[i..][1..] == allocs[i + 1..];
        if a.owner == owner {
          var at := AlignUp16(candidate);
          if Add64(at, size) <= a.base {
            return Some(at);
          }
          candidate := Add64(a.base, a.size);
        }
        i := i + 1;
      }
      candidate := AlignUp16(candidate);
      r := if Add64(candidate, size) > l.limit then None else Some(candidate);
    }

    /** alloc_raw: the lowest free place in the process's window, or why not. */
    method AllocRaw(owner: nat, size: nat, memory: bool) returns (status: Status, address: nat)
      requires Valid() && size < TWO64
      requires Reach(allocs, owner, l.compatBase) + AlignUp16(if size == 0 then 1 else size) < TWO64
      modifies this`allocs
      ensures Valid()
      ensures status != Done ==> unchanged(this)
      ensures var n := AlignUp16(if size == 0 then 1 else size);
              status == if owner !in reserved then NotSupported
                        else if size > TWO64 - 16 then InvalidArgument
                        else if forall b :: !Feasible(old(allocs), owner, n, l.compatBase, l.limit, b) then NoSpace
                        else if !memory then NoMemory else Done
      ensures status == Done ==>
                var n := AlignUp16(if size == 0 then 1 else size);
                && memory && owner in reserved && allocs == Linked(old(allocs), Allocation(owner, address, n))
                && Feasible(old(allocs), owner, n, l.compatBase, l.limit, address)
                && forall b :: Feasible(old(allocs), owner, n, l.compatBase, l.limit, b) ==> address <= b
    {
      hide FindGap, Inv, Feasible, Linked, AlignUp16, Mapped, DistinctPages, Placed, Needed;
      address := 0;
      if owner !in reserved {
        return NotSupported, address;
      }
      var n := AlignUp16(if size == 0 then 1 else size);
      RoundsToNothing(if size == 0 then 1 else size);
      if n == 0 {
        return InvalidArgument, address;
      }
      var gap := SearchGap(owner, n);
      LowestGap(allocs, owner, if size == 0 then 1 else size, n, l);
      if gap == None {
        return NoSpace, address;
      }
      if !memory {
        return NoMemory, address;
      }
      address := gap.value;
      ghost var before := allocs;
      allocs := Linked(allocs, Allocation(owner, address, n));
      LinkedFeasible(before, owner, n, address, l, size);
      StillNeeded(pages, before, allocs, l, pageSize);
      status := Done;
    }

    static lemma RoundsToNothing(size: nat)
      requires 0 < size < TWO64
      ensures AlignUp16(size) == 0 <==> size > TWO64 - 16
    {
    }

    static lemma LowestGap(list: seq<Allocation>, owner: nat, size: nat, n: nat, l: Layout)
      requires Inv(list, l) && n == AlignUp16(size) && 0 < n && l.compatBase % 16 == 0 && l.compatBase <= l.limit < HALF64
      requires Reach(list, owner, l.compatBase) + n < TWO64
      ensures Lowest(list, owner, n, l.compatBase, l.limit)
    {
      hide FindGap, Lowest, Sorted, OwnersApart, Reach;
      GapIsLowestIff(list, owner, n, l.compatBase, l);
    }

    static lemma LinkedFeasible(list: seq<Allocation>, owner: nat, n: nat, b: nat, l: Layout, size: nat)
      requires Inv(list, l) && Feasible(list, owner, n, l.compatBase, l.limit, b) && 0 < n
      requires n == AlignUp16(if size == 0 then 1 else size)
      ensures Inv(Linked(list, Allocation(owner, b, n)), l)
      ensures forall a :: a in list ==> a in Linked(list, Allocation(owner, b, n))
    {
      hide Linked, Inv;
      assert n % 16 == 0;
      LinkedInv(list, Allocation(owner, b, n), l);
    }

    static lemma StillNeeded(pages: seq<Page>, list: seq<Allocation>, more: seq<Allocation>, l: Layout, pageSize: nat)
      requires forall a :: a in list ==> a in more
      ensures forall r :: Needed(r, list, l, pageSize) ==> Needed(r, more, l, pageSize)
    {
      forall r | Needed(r, list, l, pageSize) && r.base >= l.compatBase ensures HasLive(more, r.owner, r.base, pageSize) {
        var a :| a in list && a.owner == r.owner && Overlaps(a, r.base, pageSize);
        assert a in more;
      }
    }

    /** find_page */
    method FindPage(owner: nat, base: nat) returns (k: nat)
      ensures k <= |pages| && (k < |pages| ==> KeyOf(pages[k]) == (owner, base))
      ensures k == |pages| ==> forall r :: r in pages ==> KeyOf(r) != (owner, base)
    {
      k := 0;
      while k < |pages|
        invariant 0 <= k <= |pages|
        invariant forall i :: 0 <= i < k ==> KeyOf(pages[i]) != (owner, base)
      {
        if pages[k].owner == owner && pages[k].base == base { return; }
        k := k + 1;
      }
    }

    method PageHasLive(owner: nat, base: nat) returns (b: bool)
      ensures b <==> HasLive(allocs, owner, base, pageSize)
    {
      var i := 0;
      while i < |allocs|
        invariant 0 <= i <= |allocs|
        invariant forall j :: 0 <= j < i ==> !(allocs[j].owner == owner && Overlaps(allocs[j], base, pageSize))
      {
        if allocs[i].owner == owner && allocs[i].base < base + pageSize && allocs[i].End() > base {
          assert allocs[i] in allocs;
          return true;
        }
        i := i + 1;
      }
      b := false;
    }

    /** find_allocation_covering */
    method Covered(owner: nat, address: nat) returns (b: bool)
      ensures b <==> exists a :: a in allocs && a.owner == owner && a.base <= address < a.End()
    {
      var i := 0;
      while i < |allocs|
        invariant 0 <= i <= |allocs|
        invariant forall j :: 0 <= j < i ==> !(allocs[j].owner == owner && allocs[j].base <= address < allocs[j].End())
      {
        if allocs[i].owner == owner && allocs[i].base <= address && address < allocs[i].End() {
          assert allocs[i] in allocs;
          return true;
        }
        i := i + 1;
      }
      b := false;
    }

    predicate InHeap(owner: nat, address: nat)
      reads this`reserved
    {
      owner in reserved && l.heapBase <= address < l.limit
    }

    /** map_heap_page: populate one page, or leave everything as it was. */
    method MapHeapPage(owner: nat, base: nat, mapOk: bool, recordOk: bool) returns (status: Status)
      requires Valid() && base % pageSize == 0
      requires base >= l.compatBase ==> HasLive(allocs, owner, base, pageSize)
      modifies this`pages, this`table, this`spare
      ensures Valid() && (forall r :: r in old(pages) ==> r in pages)
      ensures status == Done ==> (owner, base) in table && InHeap(owner, base)
      ensures forall k :: k in old(table) ==> k in table
      ensures status != Done ==> unchanged(this)
      ensures status == if !InHeap(owner, base) then InvalidArgument else if (owner, base) in old(table) then Done
                        else if old(spare) == {} then NoMemory else if !mapOk then MapFailed else if !recordOk then NoMemory else Done
      ensures forall r :: r in pages && r !in old(pages) ==> KeyOf(r) == (owner, base) && r.phys in old(spare)
      ensures spare <= old(spare)
    {
      hide Inv, Mapped, DistinctPages, Needed;
      if !InHeap(owner, base) {
        return InvalidArgument;
      }
      var k := FindPage(owner, base);
      if k < |pages| {
        RecordedIsMapped(pages, table, spare, k);
        return Done;
      }
      NotRecorded(pages, table, spare, (owner, base));
      if spare == {} {
        return NoMemory;
      }
      var phys :| phys in spare;
      var r := Page(owner, base, phys);
      PageAdded(pages, table, spare, r);
      NewNeeded(r, allocs, l, pageSize);
      spare := spare - {phys};
      if !mapOk {
        spare := spare + {phys};
        assert spare == old(spare);
        return MapFailed;
      }
      table := table[(owner, base) := phys];
      if !recordOk {
        table := table - {(owner, base)};
        spare := spare + {phys};
        assert table == old(table) && spare == old(spare);
        return NoMemory;
      }
      pages := pages + [r];
      status := Done;
    }

    static lemma RecordedIsMapped(pages: seq<Page>, table: map<Key, nat>, spare: set<nat>, k: nat)
      requires Mapped(pages, table, spare) && k < |pages|
      ensures KeyOf(pages[k]) in table
    {
    }

    static lemma NotRecorded(pages: seq<Page>, table: map<Key, nat>, spare: set<nat>, key: Key)
      requires Mapped(pages, table, spare) && forall r :: r in pages ==> KeyOf(r) != key
      ensures key !in table && 0 !in spare
    {
    }

    static lemma NewNeeded(r: Page, allocs: seq<Allocation>, l: Layout, pageSize: nat)
      requires r.base >= l.compatBase ==> HasLive(allocs, r.owner, r.base, pageSize)
      ensures Needed(r, allocs, l, pageSize)
    {
    }

    function PageFloor(address: nat): nat
      requires 0 < pageSize
    {
      address / pageSize * pageSize
    }

    lemma FloorFacts(address: nat)
      requires 0 < pageSize
      ensures PageFloor(address) % pageSize == 0 && PageFloor(address) <= address < PageFloor(address) + pageSize
    {
      DivUnique(address / pageSize * pageSize, pageSize, address / pageSize, 0);
    }

    /** handle_page_fault: only addresses the process may touch are populated. */
    method HandlePageFault(owner: nat, address: nat, population: bool, mapOk: bool, recordOk: bool) returns (status: Status)
      requires Valid()
      modifies this`pages, this`table, this`spare
      ensures Valid() && (status != Done ==> unchanged(this))
      ensures status == Done ==> (owner, PageFloor(address)) in table
      ensures status == if owner !in reserved then InvalidArgument
                        else if !population then NotSupported
                        else if !(l.heapBase <= address < l.limit) then NotFound
                        else if l.compatBase <= address && !exists a :: a in allocs && a.owner == owner && a.base <= address < a.End() then NotFound
                        else if (owner, PageFloor(address)) in old(table) then Done
                        else if old(spare) == {} then NoMemory else if !mapOk then MapFailed else if !recordOk then NoMemory else Done
    {
      hide Inv, Mapped, DistinctPages, Needed, Placed;
      if owner !in reserved {
        return InvalidArgument;
      }
      if !population {
        return NotSupported;
      }
      if !InHeap(owner, address) {
        return NotFound;
      }
      if !(address < l.compatBase) {
        var c := Covered(owner, address);
        if !c {
          return NotFound;
        }
      }
      FloorFacts(address);
      var base := PageFloor(address);
      FloorInHeap(address);
      if base >= l.compatBase {
        CoveredMeansLive(allocs, owner, address, base, pageSize);
      }
      status := MapHeapPage(owner, base, mapOk, recordOk);
    }

    /** The page of a heap address lies in the heap. */
    lemma FloorInHeap(address: nat)
      requires LayoutOk(l, pageSize) && l.heapBase <= address
      ensures l.heapBase <= PageFloor(address)
    {
      FloorFacts(address);
      if PageFloor(address) < l.heapBase { NextMultiple(PageFloor(address), l.heapBase, pageSize); }
    }

    static lemma CoveredMeansLive(allocs: seq<Allocation>, owner: nat, address: nat, base: nat, pageSize: nat)
      requires base <= address < base + pageSize
      requires exists a :: a in allocs && a.owner == owner && a.base <= address < a.End()
      ensures HasLive(allocs, owner, base, pageSize)
    {
      var a :| a in allocs && a.owner == owner && a.base <= address < a.End();
      assert Overlaps(a, base, pageSize);
    }

    static lemma KeysIdentify(pages: seq<Page>, k: nat)
      requires DistinctPages(pages) && k < |pages|
      ensures forall x :: x in pages && KeyOf(x) == KeyOf(pages[k]) ==> x == pages[k]
    {
    }

    static lemma RecordedNotSpare(pages: seq<Page>, table: map<Key, nat>, spare: set<nat>, k: nat)
      requires Mapped(pages, table, spare) && k < |pages|
      ensures pages[k].phys !in spare
    {
    }

    /** Release the pages of owner in [lo, hi) that no live allocation touches. */
    method ReleaseIdle(owner: nat, lo: nat, hi: nat)
      requires LayoutOk(l, pageSize) && Books() && lo % pageSize == 0
      modifies this`pages, this`table, this`spare
      ensures Books()
      ensures forall r :: r in pages <==> r in old(pages) && !Doomed(r, allocs, owner, lo, hi, pageSize)
      ensures forall x :: x in spare <==> x in old(spare) || Returned(old(pages), allocs, owner, lo, hi, x)
    {
      hide Mapped, DistinctPages, Placed, HasLive;
      ghost var returned: set<nat> := {};
      var base := lo;
      while base < hi
        invariant Books() && base % pageSize == 0 && lo <= base && spare == old(spare) + returned
        invariant forall x :: x in returned ==> Returned(old(pages), allocs, owner, lo, hi, x)
        invariant forall r :: r in pages <==> r in old(pages) && !Doomed(r, allocs, owner, lo, if base < hi then base else hi, pageSize)
        invariant forall r :: r in old(pages) && Doomed(r, allocs, owner, lo, if base < hi then base else hi, pageSize) ==> r.phys in spare
        decreases hi - base
      {
        AddPage(base);
        StepDoomed(old(pages), allocs, owner, lo, base, hi);
        var live := PageHasLive(owner, base);
        if !live {
          var k := FindPage(owner, base);
          if k < |pages| {
            assert pages[k] in old(pages);
            returned := returned + {pages[k].phys};
            Drop(k);
          }
        }
        base := base + pageSize;
      }
    }

    /** x is the physical page behind a record that the walk over [lo, hi) releases. */
    ghost predicate Returned(ps: seq<Page>, allocs: seq<Allocation>, owner: nat, lo: nat, hi: nat, x: nat)
    {
      exists r :: r in ps && Doomed(r, allocs, owner, lo, hi, pageSize) && r.phys == x
    }

    /** The page bookkeeping, apart from which allocations need the pages. */
    ghost predicate Books()
      reads this
    {
      && 0 < pageSize && DistinctPages(pages) && Mapped(pages, table, spare)
      && (forall r :: r in pages ==> Placed(r, l, pageSize))
    }

    lemma AddPage(base: nat)
      requires 0 < pageSize && base % pageSize == 0
      ensures (base + pageSize) % pageSize == 0
    {
      Multiple(base, pageSize);
      DivUnique(base + pageSize, pageSize, base / pageSize + 1, 0);
    }

    /** Advancing by one page decides exactly the record at that page. */
    lemma StepDoomed(ps: seq<Page>, allocs: seq<Allocation>, owner: nat, lo: nat, base: nat, hi: nat)
      requires LayoutOk(l, pageSize) && base % pageSize == 0 && lo <= base < hi
      requires forall r :: r in ps ==> Placed(r, l, pageSize)
      ensures var next := if base + pageSize < hi then base + pageSize else hi;
              forall r :: r in ps ==>
                (Doomed(r, allocs, owner, lo, next, pageSize) <==>
                   Doomed(r, allocs, owner, lo, base, pageSize)
                   || (KeyOf(r) == (owner, base) && !HasLive(allocs, owner, base, pageSize)))
    {
      hide HasLive;
      var next := if base + pageSize < hi then base + pageSize else hi;
      forall r | r in ps && base < r.base ensures next <= r.base || hi <= r.base || base + pageSize <= r.base {
        NextMultiple(base, r.base, pageSize);
      }
    }

    /** release_heap_page */
    method Drop(k: nat)
      requires Books() && k < |pages|
      modifies this`pages, this`table, this`spare
      ensures Books() && spare == old(spare) + {old(pages)[k].phys} && old(pages)[k].phys !in old(spare)
      ensures forall x :: x in pages <==> x in old(pages) && x != old(pages)[k]
      ensures forall x :: x in pages ==> KeyOf(x) != KeyOf(old(pages)[k])
      ensures table == old(table) - {KeyOf(old(pages)[k])} && pages == RemoveAt(old(pages), k)
    {
      hide RemoveAt, Mapped, DistinctPages;
      assert pages[k] in pages;
      KeysIdentify(pages, k);
      PageRemoved(pages, table, spare, k);
      RecordedNotSpare(pages, table, spare, k);
      var r := pages[k];
      table := table - {KeyOf(r)};
      spare := spare + {r.phys};
      pages := RemoveAt(pages, k);
    }

    /** free_raw: the allocation goes, and with it exactly the pages nobody else's allocation touches. */
    method FreeRaw(owner: nat, address: nat) returns (status: Status)
      requires Valid()
      modifies this
      ensures Valid() && reserved == old(reserved)
      ensures address == 0 ==> status == Done && unchanged(this)
      ensures status == NotFound <==> address != 0 && forall a :: a in old(allocs) ==> !(a.owner == owner && a.base == address)
      ensures status == NotFound ==> unchanged(this)
      ensures status == Done || status == NotFound
      ensures status == Done && address != 0 ==>
                exists f :: f in old(allocs) && f.owner == owner && f.base == address
                  && (forall a :: a in allocs <==> a in old(allocs) && a != f)
                  && (forall r :: r in pages <==>
                        (r in old(pages) && !Doomed(r, allocs, owner, PageFloor(f.base), RoundUp(f.End(), pageSize), pageSize)))
                  && (forall x :: x in spare <==>
                        x in old(spare) || Returned(old(pages), allocs, owner, PageFloor(f.base), RoundUp(f.End(), pageSize), x))
                  && (forall r :: r in old(pages) ==> (r !in pages <==> LeftIdle(r, f, allocs)))
    {
      hide Inv, Mapped, DistinctPages, Placed, HasLive, RoundUp, Heap.LeftIdle, Doomed;
      if address == 0 {
        return Done;
      }
      var k := FindAllocation(owner, address);
      if k == |allocs| {
        return NotFound;
      }
      var f := allocs[k];
      ghost var before, ps := allocs, pages;
      var lo, hi := PageFloor(f.base), RoundUp(f.End(), pageSize);
      FloorFacts(f.base);
      RoundUpLeast(f.End(), pageSize);
      ghost var rest := allocs[..k] + allocs[k + 1..];
      forall r | r in pages ensures Doomed(r, rest, owner, lo, hi, pageSize) <==> LeftIdle(r, f, rest) {
        DoomedMeans(r, f, rest, lo, hi);
      }
      UnlinkedInv(allocs, k, l);
      allocs := allocs[..k] + allocs[k + 1..];
      ReleaseIdle(owner, lo, hi);
      forall r | r in pages ensures Needed(r, allocs, l, pageSize) {
        FreedRangeCovers(before, allocs, f, r, l, pageSize, lo, hi);
      }
      status := Done;
    }

    /** The page of r was touched by f, and no other allocation of the same process touches it. */
    ghost predicate LeftIdle(r: Page, f: Allocation, rest: seq<Allocation>)
    {
      && r.owner == f.owner && f.base < r.base + pageSize && r.base < f.End()
      && forall a :: a in rest && a.owner == f.owner ==> a.End() <= r.base || r.base + pageSize <= a.base
    }

    /** The pages that the walk over the rounded range releases are exactly those left idle. */
    lemma DoomedMeans(r: Page, f: Allocation, rest: seq<Allocation>, lo: nat, hi: nat)
      requires 0 < pageSize && Placed(r, l, pageSize)
      requires lo % pageSize == 0 && lo <= f.base < lo + pageSize && hi % pageSize == 0 && f.End() <= hi < f.End() + pageSize
      ensures Doomed(r, rest, f.owner, lo, hi, pageSize) <==> LeftIdle(r, f, rest)
    {
      if r.base < lo { NextMultiple(r.base, lo, pageSize); }
      if r.base < hi { NextMultiple(r.base, hi, pageSize); }
    }

    method FindAllocation(owner: nat, address: nat) returns (k: nat)
      ensures k <= |allocs| && (k < |allocs| ==> allocs[k].owner == owner && allocs[k].base == address)
      ensures k == |allocs| ==> forall a :: a in allocs ==> !(a.owner == owner && a.base == address)
    {
      k := 0;
      while k < |allocs|
        invariant 0 <= k <= |allocs|
        invariant forall i :: 0 <= i < k ==> !(allocs[i].owner == owner && allocs[i].base == address)
      {
        if allocs[k].owner == owner && allocs[k].base == address { return; }
        k := k + 1;
      }
    }

    /** Where ensure_range_mapped stops: the end of the range, rounded up to a page; both sums wrap. */
    function RangeLimit(address: nat, size: nat): nat
      requires 0 < pageSize
    {
      PageFloor(Add64(Add64(address, size), pageSize - 1))
    }

    /** A heap page that the walk over the range comes to. */
    predicate Visited(owner: nat, address: nat, size: nat, b: nat)
      requires 0 < pageSize
      reads this`reserved
    {
      IsPage(b) && PageFloor(address) <= b < RangeLimit(address, size) && InHeap(owner, b)
    }

    predicate IsPage(b: nat)
      requires 0 < pageSize
    {
      b % pageSize == 0
    }

    /** ensure_range_mapped: every heap page from the first up to the limit, or a failure that never unmaps anything. */
    method EnsureRangeMapped(owner: nat, address: nat, size: nat, mapOk: nat -> bool, recordOk: nat -> bool) returns (status: Status, ghost at: nat)
      requires Valid() && address < TWO64 && size < TWO64
      modifies this`pages, this`table, this`spare
      ensures Valid() && (forall r :: r in old(pages) ==> r in pages)
      ensures status == Done && size != 0 ==>
                forall b: nat :: Visited(owner, address, size, b) ==> (owner, b) in table
      ensures status in {Done, NotFound, MapFailed, NoMemory} && (size == 0 ==> status == Done)
      ensures status != Done ==> Visited(owner, address, size, at)
      ensures status == NotFound ==> l.compatBase <= at && !HasLive(allocs, owner, at, pageSize)
      ensures status == MapFailed ==> !mapOk(at)
      ensures status == NoMemory ==> spare == {} || !recordOk(at)
      ensures status == Done && size != 0 && address + size + pageSize <= TWO64 ==>
                forall b: nat :: IsPage(b) && PageFloor(address) <= b < address + size && InHeap(owner, b) ==> (owner, b) in table
    {
      hide Heap.IsPage, Inv, Mapped, DistinctPages, Placed, Needed, HasLive, Add64, Heap.RangeLimit, Heap.PageFloor;
      at := address;
      if size == 0 {
        return Done, at;
      }
      FirstPage(address);
      LimitFacts(address, size);
      var base, hi := PageFloor(address), RangeLimit(address, size);
      while base < hi
        invariant Valid() && IsPage(base) && PageFloor(address) <= base
        invariant forall r :: r in old(pages) ==> r in pages
        invariant forall b: nat :: IsPage(b) && PageFloor(address) <= b < base && InHeap(owner, b) ==> (owner, b) in table
        decreases hi - base
      {
        NextPage(PageFloor(address), base);
        status := EnsurePage(owner, base, mapOk(base), recordOk(base));
        if status != Done { return status, base; }
        base := base + pageSize;
      }
      status := Done;
    }

    /** One round of that walk; a page outside the heap is passed over. */
    method EnsurePage(owner: nat, base: nat, mapOk: bool, recordOk: bool) returns (status: Status)
      requires Valid() && IsPage(base)
      modifies this`pages, this`table, this`spare
      ensures Valid() && (forall r :: r in old(pages) ==> r in pages) && (forall k :: k in old(table) ==> k in table)
      ensures status == Done && InHeap(owner, base) ==> (owner, base) in table
      ensures status != Done ==> InHeap(owner, base) && status in {NotFound, MapFailed, NoMemory}
      ensures status == NotFound <==> InHeap(owner, base) && l.compatBase <= base && !HasLive(allocs, owner, base, pageSize)
      ensures status == MapFailed ==> !mapOk
      ensures status == NoMemory ==> spare == {} || !recordOk
    {
      hide Inv, Mapped, DistinctPages, Placed, Needed, HasLive;
      if !InHeap(owner, base) { return Done; }
      if !(base < l.compatBase) {
        var live := PageHasLive(owner, base);
        if !live { return NotFound; }
      }
      status := MapHeapPage(owner, base, mapOk, recordOk);
    }

    lemma LimitFacts(address: nat, size: nat)
      requires 0 < pageSize && address < TWO64 && size < TWO64
      ensures RangeLimit(address, size) % pageSize == 0
      ensures address + size + pageSize <= TWO64 ==> RangeLimit(address, size) >= address + size
    {
      FloorFacts(Add64(Add64(address, size), pageSize - 1));
    }

    /** The walk reaches every heap page of the range exactly if neither sum wraps, or no heap page is left behind the
        place where it starts or stops. */
    lemma RangeReachedIff(address: nat, size: nat)
      requires LayoutOk(l, pageSize) && l.heapBase < l.limit && address < TWO64 && 0 < size < TWO64
      ensures (forall b :: b % pageSize == 0 && l.heapBase <= b < l.limit && PageFloor(address) <= b < address + size ==> b < RangeLimit(address, size))
              <==> address + size + pageSize <= TWO64 || l.limit <= PageFloor(address) || l.limit <= RangeLimit(address, size)
    {
      hide RangeLimit;
      FloorFacts(address);
      LimitFacts(address, size);
      Multiple(l.heapBase, pageSize);
      if !(address + size + pageSize <= TWO64 || l.limit <= PageFloor(address) || l.limit <= RangeLimit(address, size)) {
        var floor, hi := PageFloor(address), RangeLimit(address, size);
        var m := if floor < hi then hi else floor;
        var b := if m < l.heapBase then l.heapBase else m;
        PageBelow();
        assert b % pageSize == 0 && l.heapBase <= b < l.limit && floor <= b < address + size && hi <= b;
      }
    }

    /** A page is smaller than half the address space. */
    lemma PageBelow()
      requires LayoutOk(l, pageSize)
      ensures pageSize < HALF64
    {
      if pageSize > l.heapBase { DivUnique(l.heapBase, pageSize, 0, l.heapBase); }
    }

    /** A wrapping range: the call succeeds and maps nothing. */
    lemma WrappedRange()
      requires pageSize == 4096
      ensures RangeLimit(0x2000_0000, TWO64 - 0x2000_0000 + 1) == 0x1000
      ensures RangeLimit(0x2000_0000, TWO64 - 0x2000_0000 + 1) < PageFloor(0x2000_0000)
    {
    }

    lemma FirstPage(address: nat)
      requires 0 < pageSize
      ensures IsPage(PageFloor(address))
    {
      FloorFacts(address);
    }

    /** The next page after base, and nothing in between. */
    lemma NextPage(lo: nat, base: nat)
      requires 0 < pageSize && IsPage(base) && lo <= base
      ensures IsPage(base + pageSize)
      ensures forall b: nat :: IsPage(b) && lo <= b < base + pageSize ==> b < base || b == base
    {
      AddPage(base);
      forall b: nat | IsPage(b) && base < b < base + pageSize ensures false {
        NextMultiple(base, b, pageSize);
      }
    }

    /** release_process: exactly the process's allocations and pages go, each physical page once. */
    method ReleaseProcess(owner: nat)
      requires Valid()
      modifies this
      ensures Valid() && reserved == old(reserved) - {owner}
      ensures forall a :: a in allocs <==> a in old(allocs) && a.owner != owner
      ensures forall r :: r in pages <==> r in old(pages) && r.owner != owner
      ensures forall x :: x in spare <==> x in old(spare) || exists r :: r in old(pages) && r.owner == owner && r.phys == x
    {
      hide Inv, Mapped, DistinctPages, Placed, HasLive, Needed;
      ghost var ps, before := pages, allocs;
      ReleaseAllocations(owner);
      ReleasePages(owner);
      reserved := reserved - {owner};
      forall r | r in pages ensures Needed(r, allocs, l, pageSize) {
        OthersStillNeeded(r, before, allocs, owner, l, pageSize);
      }
    }

    static lemma OthersStillNeeded(r: Page, before: seq<Allocation>, rest: seq<Allocation>, owner: nat, l: Layout, pageSize: nat)
      requires Needed(r, before, l, pageSize) && r.owner != owner
      requires forall a :: a in rest <==> a in before && a.owner != owner
      ensures Needed(r, rest, l, pageSize)
    {
      if r.base >= l.compatBase {
        var a :| a in before && a.owner == r.owner && Overlaps(a, r.base, pageSize);
        assert a in rest;
      }
    }

    method ReleaseAllocations(owner: nat)
      requires Inv(allocs, l)
      modifies this`allocs
      ensures Inv(allocs, l) && forall a :: a in allocs <==> a in old(allocs) && a.owner != owner
    {
      hide Inv;
      var i := 0;
      while i < |allocs|
        invariant 0 <= i <= |allocs| && Inv(allocs, l)
        invariant forall j :: 0 <= j < i ==> allocs[j].owner != owner
        invariant forall a :: a in allocs ==> a in old(allocs)
        invariant forall a :: a in old(allocs) && a.owner != owner ==> a in allocs
        decreases |allocs| - i
      {
        if allocs[i].owner != owner {
          i := i + 1;
        } else {
          UnlinkedInv(allocs, i, l);
          allocs := allocs[..i] + allocs[i + 1..];
        }
      }
    }

    method ReleasePages(owner: nat)
      requires Books()
      modifies this`pages, this`table, this`spare
      ensures Books()
      ensures forall r :: r in pages <==> r in old(pages) && r.owner != owner
      ensures forall x :: x in spare <==> x in old(spare) || exists r :: r in old(pages) && r.owner == owner && r.phys == x
    {
      hide Mapped, DistinctPages, Placed;
      var i := 0;
      while i < |pages|
        invariant 0 <= i <= |pages| && Books()
        invariant forall j :: 0 <= j < i ==> pages[j].owner != owner
        invariant forall r :: r in pages ==> r in old(pages)
        invariant forall r :: r in old(pages) && r !in pages ==> r.owner == owner && r.phys in spare
        invariant forall x :: x in spare ==> x in old(spare) || exists r :: r in old(pages) && r.owner == owner && r.phys == x
        invariant old(spare) <= spare
        decreases |pages| - i
      {
        if pages[i].owner != owner {
          i := i + 1;
        } else {
          ghost var ps := pages;
          assert pages[i] in old(pages);
          Drop(i);
          KeepsPrefix(ps, i);
        }
      }
    }

    static lemma KeepsPrefix(ps: seq<Page>, k: nat)
      requires k < |ps|
      ensures |RemoveAt(ps, k)| == |ps| - 1 && forall j :: 0 <= j < k ==> RemoveAt(ps, k)[j] == ps[j]
    {
    }
  }
}
