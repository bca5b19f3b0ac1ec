/** Raw user-heap allocations: one address-ordered list shared by all processes, searched first fit per process. */
module HeapGaps {
  import opened Arith
  import opened Seqs

  datatype Allocation = Allocation(owner: nat, base: nat, size: nat) {
    function End(): nat { base + size }
  }

  /** Heap window of a process: its base, where the kernel-managed half begins, and its end. */
  datatype Layout = Layout(heapBase: nat, compatBase: nat, limit: nat)

  /** find_gap: walk the shared list, looking only at the allocations of owner. */
  function FindGap(list: seq<Allocation>, owner: nat, size: nat, candidate: nat, limit: nat): Option<nat>
    decreases |list|
  {
    if list == [] then
      var at := AlignUp16(candidate);
      if Add64(at, size) > limit then None else Some(at)
    else if list[0].owner != owner then FindGap(list[1..], owner, size, candidate, limit)
    else
      var at := AlignUp16(candidate);
      if Add64(at, size) <= list[0].base then Some(at)
      else FindGap(list[1..], owner, size, Add64(list[0].base, list[0].size), limit)
  }

  /** The allocations of one process, in list order. */
  function Own(list: seq<Allocation>, owner: nat): (r: seq<Allocation>)
    ensures forall a :: a in r <==> a in list && a.owner == owner
  {
    if list == [] then []
    else (if list[0].owner == owner then [list[0]] else []) + Own(list[1..], owner)
  }

  /** The search sees only the process's own allocations, although the list is shared. */
  lemma {:induction false} GapDependsOnOwn(list: seq<Allocation>, owner: nat, size: nat, candidate: nat, limit: nat)
    ensures FindGap(list, owner, size, candidate, limit) == FindGap(Own(list, owner), owner, size, candidate, limit)
    decreases |list|
  {
    hide AlignUp16, Add64;
    if list != [] {
      GapDependsOnOwn(list[1..], owner, size, candidate, limit);
      GapDependsOnOwn(list[1..], owner, size, Add64(list[0].base, list[0].size), limit);
      if list[0].owner == owner {
        assert Own(list, owner)[1..] == Own(list[1..], owner);
      } else {
        assert Own(list, owner) == Own(list[1..], owner);
      }
    }
  }

  ghost predicate Sorted(list: seq<Allocation>)
  {
    forall i, j :: 0 <= i < j < |list| ==> list[i].base <= list[j].base
  }

  predicate Apart(a: Allocation, b: Allocation)
  {
    a.End() <= b.base || b.End() <= a.base
  }

  /** Allocations of the same process never overlap. */
  ghost predicate OwnersApart(list: seq<Allocation>)
  {
    forall i, j :: 0 <= i < j < |list| && list[i].owner == list[j].owner ==> Apart(list[i], list[j])
  }

  predicate InWindow(a: Allocation, l: Layout)
  {
    l.compatBase <= a.base && a.End() <= l.limit && 0 < a.size && a.base % 16 == 0 && a.size % 16 == 0
  }

  ghost predicate Inv(list: seq<Allocation>, l: Layout)
  {
    Sorted(list) && OwnersApart(list) && forall a :: a in list ==> InWindow(a, l)
  }

  /** A base at which owner could place size bytes, at or above from. */
  ghost predicate Feasible(list: seq<Allocation>, owner: nat, size: nat, from: nat, limit: nat, b: nat)
  {
    && from <= b && b % 16 == 0 && b + size <= limit
    && forall a :: a in list && a.owner == owner ==> Apart(a, Allocation(owner, b, size))
  }

  /** Where the search looks last: behind the process's last allocation. */
  function Reach(list: seq<Allocation>, owner: nat, c: nat): nat
  {
    if list == [] then c else Reach(list[1..], owner, if list[0].owner == owner then list[0].End() else c)
  }

  /** The answer of find_gap is the lowest feasible base, and none only if there is none. */
  ghost predicate Lowest(list: seq<Allocation>, owner: nat, size: nat, c: nat, limit: nat)
  {
    var r := FindGap(list, owner, size, c, limit);
    && (r.Some? ==> Feasible(list, owner, size, c, limit, r.value))
    && (forall b :: Feasible(list, owner, size, c, limit, b) ==> r.Some? && r.value <= b)
  }

  lemma Align16(c: nat)
    requires c + 15 < TWO64
    ensures AlignUp16(c) % 16 == 0 && c <= AlignUp16(c) < c + 16
    ensures forall b: nat :: b % 16 == 0 && c <= b ==> AlignUp16(c) <= b
  {
    assert (c + 15) % TWO64 == c + 15;
  }

  /** Skipping an allocation that leaves no room in front of it loses no feasible base. */
  lemma SkipFirst(list: seq<Allocation>, owner: nat, size: nat, c: nat, l: Layout, b: nat)
    requires list != [] && list[0].owner == owner && 0 < size && c + 15 < TWO64
    requires AlignUp16(c) + size > list[0].base && c <= list[0].base
    ensures Feasible(list, owner, size, c, l.limit, b) <==> Feasible(list[1..], owner, size, list[0].End(), l.limit, b)
  {
    hide AlignUp16;
    Align16(c);
    assert list == [list[0]] + list[1..];
  }

  /** The search starts at c, behind which lie all allocations of the process. */
  ghost predicate Searchable(list: seq<Allocation>, owner: nat, c: nat, l: Layout)
  {
    && Inv(list, l) && c % 16 == 0 && c <= l.limit < HALF64
    && forall a :: a in list && a.owner == owner ==> c <= a.base
  }

  lemma {:induction false} ReachBounds(list: seq<Allocation>, owner: nat, c: nat, l: Layout)
    requires Searchable(list, owner, c, l)
    ensures c <= Reach(list, owner, c) <= l.limit
    decreases |list|
  {
    hide Inv;
    if list != [] {
      SearchableTail(list, owner, c, l);
      ReachBounds(list[1..], owner, if list[0].owner == owner then list[0].End() else c, l);
    }
  }

  lemma SearchableTail(list: seq<Allocation>, owner: nat, c: nat, l: Layout)
    requires Searchable(list, owner, c, l) && list != []
    ensures InWindow(list[0], l)
    ensures if list[0].owner == owner then c <= list[0].base && Searchable(list[1..], owner, list[0].End(), l)
            else Searchable(list[1..], owner, c, l)
  {
    hide Sorted, OwnersApart;
    InvTail(list, l);
    if list[0].owner == owner { OwnAfter(list, owner, l); }
    assert list[0] in list;
  }

  /** find_gap finds the lowest feasible base, or that there is none, exactly when the last place it may look at
      plus the size stays below 2^64.  In particular for every size that could fit the window. */
  lemma {:induction false} GapIsLowestIff(list: seq<Allocation>, owner: nat, size: nat, c: nat, l: Layout)
    requires Searchable(list, owner, c, l) && 0 < size < TWO64 && size % 16 == 0
    ensures Lowest(list, owner, size, c, l.limit) <==> Reach(list, owner, c) + size < TWO64
    decreases |list|
  {
    hide AlignUp16, Add64, Searchable, FindGap, Feasible, Lowest;
    SearchFacts(list, owner, c, l);
    Probe(c, size);
    ReachBounds(list, owner, c, l);
    if c + size >= TWO64 {
      WrapMisses(list, owner, size, c, l);
    } else if list == [] {
      EmptyGap(owner, size, c, l);
    } else {
      SearchableTail(list, owner, c, l);
      var a, rest := list[0], list[1..];
      if a.owner != owner {
        GapIsLowestIff(rest, owner, size, c, l);
        SkipOther(list, owner, size, c, l);
      } else if c + size <= a.base {
        FrontGap(list, owner, size, c, l);
      } else {
        GapIsLowestIff(rest, owner, size, a.End(), l);
        SkipOwn(list, owner, size, c, l);
      }
    }
  }

  lemma SearchFacts(list: seq<Allocation>, owner: nat, c: nat, l: Layout)
    requires Searchable(list, owner, c, l)
    ensures Inv(list, l) && c % 16 == 0 && c <= l.limit < HALF64
  {
    hide Inv;
  }

  /** One probe of the search at an aligned place. */
  lemma Probe(c: nat, size: nat)
    requires c % 16 == 0 && c < HALF64 && 0 < size < TWO64 && size % 16 == 0
    ensures AlignUp16(c) == c
    ensures Add64(c, size) == if c + size < TWO64 then c + size else c + size - TWO64
  {
    Align16(c);
  }

  /** A wrapped sum looks like room: the search accepts a place where the size does not fit. */
  lemma WrapMisses(list: seq<Allocation>, owner: nat, size: nat, c: nat, l: Layout)
    requires Searchable(list, owner, c, l) && 0 < size < TWO64 && size % 16 == 0 && c + size >= TWO64
    ensures FindGap(list, owner, size, c, l.limit) == Some(c) && !Lowest(list, owner, size, c, l.limit)
    decreases |list|
  {
    hide AlignUp16, Add64, Inv;
    Probe(c, size);
    if list != [] {
      SearchableTail(list, owner, c, l);
      if list[0].owner != owner { WrapMisses(list[1..], owner, size, c, l); }
    }
    assert !Feasible(list, owner, size, c, l.limit, c);
  }

  lemma EmptyGap(owner: nat, size: nat, c: nat, l: Layout)
    requires c % 16 == 0 && c <= l.limit < HALF64 && 0 < size && c + size < TWO64 && size % 16 == 0
    ensures Lowest([], owner, size, c, l.limit)
  {
    hide AlignUp16, Add64;
    Probe(c, size);
  }

  lemma SkipOther(list: seq<Allocation>, owner: nat, size: nat, c: nat, l: Layout)
    requires list != [] && list[0].owner != owner
    ensures Lowest(list, owner, size, c, l.limit) <==> Lowest(list[1..], owner, size, c, l.limit)
  {
    hide AlignUp16, Add64, Apart;
    assert list == [list[0]] + list[1..];
    forall b ensures Feasible(list, owner, size, c, l.limit, b) <==> Feasible(list[1..], owner, size, c, l.limit, b) { }
    hide Feasible;
  }

  lemma FrontGap(list: seq<Allocation>, owner: nat, size: nat, c: nat, l: Layout)
    requires Searchable(list, owner, c, l) && list != [] && list[0].owner == owner && 0 < size && size % 16 == 0 && c + size <= list[0].base
    ensures Lowest(list, owner, size, c, l.limit)
  {
    hide AlignUp16, Add64, Inv, Apart;
    SearchableTail(list, owner, c, l);
    Probe(c, size);
    FitsBefore(list, owner, size, c, l);
  }

  lemma SkipOwn(list: seq<Allocation>, owner: nat, size: nat, c: nat, l: Layout)
    requires Searchable(list, owner, c, l) && list != [] && list[0].owner == owner
    requires 0 < size && size % 16 == 0 && list[0].base < c + size < TWO64
    ensures Lowest(list, owner, size, c, l.limit) <==> Lowest(list[1..], owner, size, list[0].End(), l.limit)
  {
    hide AlignUp16, Feasible, Inv, Add64;
    SearchableTail(list, owner, c, l);
    Probe(c, size);
    var a := list[0];
    Sum(a.base, a.size);
    forall b: nat ensures Feasible(list, owner, size, c, l.limit, b) <==> Feasible(list[1..], owner, size, a.End(), l.limit, b) {
      SkipFirst(list, owner, size, c, l, b);
    }
  }

  lemma Sum(a: nat, b: nat)
    requires a + b < TWO64
    ensures Add64(a, b) == a + b
  {
  }

  lemma InvTail(list: seq<Allocation>, l: Layout)
    requires Inv(list, l) && list != []
    ensures Inv(list[1..], l) && InWindow(list[0], l)
    ensures forall a :: a in list[1..] ==> list[0].base <= a.base
  {
    assert list[0] in list;
    assert forall a :: a in list[1..] ==> a in list;
  }

  lemma FitsBefore(list: seq<Allocation>, owner: nat, size: nat, at: nat, l: Layout)
    requires Inv(list, l) && list != [] && at + size <= list[0].base
    ensures at + size <= l.limit
    ensures forall a :: a in list ==> Apart(a, Allocation(owner, at, size))
  {
    InvTail(list, l);
    assert list == [list[0]] + list[1..];
  }

  /** Later allocations of the same process start behind the first. */
  lemma OwnAfter(list: seq<Allocation>, owner: nat, l: Layout)
    requires Inv(list, l) && list != [] && list[0].owner == owner
    ensures forall a :: a in list[1..] && a.owner == owner ==> list[0].End() <= a.base
  {
    InvTail(list, l);
    forall a | a in list[1..] && a.owner == owner ensures list[0].End() <= a.base {
      var j :| 0 <= j < |list[1..]| && list[1..][j] == a;
      assert list[j + 1] == a && Apart(list[0], list[j + 1]);
      assert a in list && InWindow(a, l);
    }
  }

  /** Beyond that bound the search does hand out memory that is already allocated. */
  lemma WrapBreaksGap()
    ensures var l := Layout(0x1000, 0x2000, 0x3000);
            var list := [Allocation(7, 0x2000, 0x100), Allocation(7, 0x2200, 0x100)];
            var size := TWO64 - 0x100;
            && Inv(list, l) && size < TWO64 && size % 16 == 0 && Reach(list, 7, l.compatBase) + size >= TWO64
            && FindGap(list, 7, size, l.compatBase, l.limit) == Some(0x2000)
            && !Feasible(list, 7, size, l.compatBase, l.limit, 0x2000)
  {
    var list := [Allocation(7, 0x2000, 0x100), Allocation(7, 0x2200, 0x100)];
    assert list[1..][1..] == [];
    assert AlignUp16(0x2000) == 0x2000;
    assert Add64(0x2000, TWO64 - 0x100) == 0x1f00;
  }

  // ---------------------------------------------------------------- linking

  /** link_allocation: behind every allocation that does not start above it. */
  function InsertAt(list: seq<Allocation>, base: nat): (k: nat)
    ensures k <= |list|
    ensures forall i :: 0 <= i < k ==> list[i].base <= base
    ensures k < |list| ==> list[k].base > base
  {
    if list == [] || list[0].base > base then 0 else 1 + InsertAt(list[1..], base)
  }

  function Linked(list: seq<Allocation>, a: Allocation): seq<Allocation>
  {
    var k := InsertAt(list, a.base);
    list[..k] + [a] + list[k..]
  }

  lemma LinkedInv(list: seq<Allocation>, a: Allocation, l: Layout)
    requires Inv(list, l) && InWindow(a, l)
    requires forall b :: b in list && b.owner == a.owner ==> Apart(b, a)
    ensures Inv(Linked(list, a), l)
    ensures forall b :: b in Linked(list, a) <==> b in list || b == a
  {
    hide InsertAt, InWindow, Linked, Sorted, OwnersApart;
    LinkedShape(list, a);
    LinkedMembers(list, a);
    LinkedSorted(list, a, InsertAt(list, a.base), Linked(list, a));
    LinkedApart(list, a, InsertAt(list, a.base), Linked(list, a));
  }

  ghost predicate Inserted(list: seq<Allocation>, a: Allocation, k: nat, r: seq<Allocation>)
  {
    && k <= |list| && |r| == |list| + 1 && r[k] == a
    && (forall i :: 0 <= i < k ==> r[i] == list[i])
    && (forall i :: k < i < |r| ==> r[i] == list[i - 1])
  }

  lemma LinkedShape(list: seq<Allocation>, a: Allocation)
    ensures Inserted(list, a, InsertAt(list, a.base), Linked(list, a))
  {
    hide InsertAt;
  }

  lemma LinkedMembers(list: seq<Allocation>, a: Allocation)
    ensures forall b :: b in Linked(list, a) <==> b in list || b == a
  {
    hide InsertAt;
    var k := InsertAt(list, a.base);
    assert list == list[..k] + list[k..];
  }

  lemma LinkedSorted(list: seq<Allocation>, a: Allocation, k: nat, r: seq<Allocation>)
    requires Sorted(list) && k == InsertAt(list, a.base) && Inserted(list, a, k, r)
    ensures Sorted(r)
  {
    hide InsertAt;
    forall i, j | 0 <= i < j < |r| ensures r[i].base <= r[j].base {
      var x, y := if i <= k then i else i - 1, if j <= k then j else j - 1;
      if i == k { assert r[j] == list[y] && list[k].base <= list[y].base; }
      else if j != k { assert r[i] == list[x] && r[j] == list[y] && x < y; }
    }
  }

  lemma LinkedApart(list: seq<Allocation>, a: Allocation, k: nat, r: seq<Allocation>)
    requires OwnersApart(list) && Inserted(list, a, k, r)
    requires forall b :: b in list && b.owner == a.owner ==> Apart(b, a)
    ensures OwnersApart(r)
  {
    hide InsertAt;
    assert forall i :: 0 <= i < |list| ==> list[i] in list;
    forall i, j | 0 <= i < j < |r| && r[i].owner == r[j].owner ensures Apart(r[i], r[j]) {
      if i == k { assert r[j] == list[j - 1]; }
      else if j == k { assert r[i] == list[i]; }
      else {
        var x, y := if i < k then i else i - 1, if j < k then j else j - 1;
        assert r[i] == list[x] && r[j] == list[y] && x < y;
      }
    }
  }

  lemma UnlinkedInv(list: seq<Allocation>, k: nat, l: Layout)
    requires Inv(list, l) && k < |list|
    ensures Inv(list[..k] + list[k + 1..], l)
    ensures forall b :: b in list[..k] + list[k + 1..] <==> b in list && b != list[k]
  {
    hide InWindow, Sorted, OwnersApart;
    var r := list[..k] + list[k + 1..];
    RestInOrder(list, k, r);
    assert list == list[..k] + [list[k]] + list[k + 1..];
    forall b | b in r ensures b != list[k] {
      var i :| 0 <= i < |r| && r[i] == b;
      NotRepeated(list, if i < k then i else i + 1, k, l);
    }
  }

  lemma RestInOrder(list: seq<Allocation>, k: nat, r: seq<Allocation>)
    requires Sorted(list) && OwnersApart(list) && k < |list| && r == list[..k] + list[k + 1..]
    ensures Sorted(r) && OwnersApart(r)
    ensures forall i :: 0 <= i < |r| ==> r[i] == list[if i < k then i else i + 1]
  {
    hide Apart;
  }

  lemma NotRepeated(list: seq<Allocation>, i: nat, j: nat, l: Layout)
    requires Inv(list, l) && i < |list| && j < |list| && i != j
    ensures list[i] != list[j]
  {
    assert list[i] in list && InWindow(list[i], l);
    var lo, hi := if i < j then i else j, if i < j then j else i;
    assert list[lo].owner == list[hi].owner ==> Apart(list[lo], list[hi]);
  }
}
