/** Named file mappings: growing an object while processes have views of it. */
module FileMapping {
  import opened Seqs
  import opened Arith

  datatype Status = Done | InvalidArgument | NotSupported | NotFound | NoSpace | NoMemory | MapFailed

  /** Page list, the logical size, and the reference counts. */
  datatype Object = Object(backing: seq<nat>, requested: nat, handles: nat, views: nat)

  /** viewPages is view_bytes in pages; view is the address of the slot. */
  datatype Attachment = Attachment(process: nat, target: nat, slot: nat, view: nat, viewPages: nat)

  type Key = (nat, nat)

  /** Virtual address of page i of a view. */
  function PageAt(view: nat, i: nat, pageSize: nat): nat { view + i * pageSize }

  /** The page-table entries of pages from..to of a view. */
  function Keys(process: nat, view: nat, from: nat, to: nat, pageSize: nat): set<Key>
  {
    set i | from <= i < to :: (process, PageAt(view, i, pageSize))
  }

  /** t and u differ at most inside k. */
  ghost predicate AgreeOutside(t: map<Key, nat>, u: map<Key, nat>, k: set<Key>)
  {
    forall x :: x !in k ==> (x in t <==> x in u) && (x in t ==> t[x] == u[x])
  }

  ghost predicate Clear(t: map<Key, nat>, k: set<Key>)
  {
    forall x :: x in k ==> x !in t
  }

  lemma ClearAgreeEqual(t: map<Key, nat>, u: map<Key, nat>, k: set<Key>)
    requires AgreeOutside(t, u, k) && Clear(t, k) && Clear(u, k)
    ensures t == u
  {
    assert forall x :: x in t <==> x in u;
  }

  /** The views a growing resize must extend: those that show all of the object, in live processes. */
  predicate Extends(a: Attachment, o: nat, pages: nat, alive: set<nat>)
  {
    a.target == o && a.viewPages == pages && a.process in alive
  }

  /** The entries that views of o showing `pages` pages would gain by growing to `to` pages. */
  ghost function Growth(views: seq<Attachment>, o: nat, pages: nat, alive: set<nat>, from: nat, to: nat, pageSize: nat): set<Key>
    decreases |views|
  {
    if views == [] then {}
    else
      var n := |views| - 1;
      Growth(views[..n], o, pages, alive, from, to, pageSize)
      + (if Extends(views[n], o, pages, alive) then Keys(views[n].process, views[n].view, from, to, pageSize) else {})
  }

  lemma {:induction false} GrowthHas(views: seq<Attachment>, o: nat, pages: nat, alive: set<nat>, from: nat, to: nat, pageSize: nat, j: nat)
    requires j < |views| && Extends(views[j], o, pages, alive)
    ensures Keys(views[j].process, views[j].view, from, to, pageSize) <= Growth(views, o, pages, alive, from, to, pageSize)
    decreases |views|
  {
    hide Keys, Extends;
    var n := |views| - 1;
    if j < n { GrowthHas(views[..n], o, pages, alive, from, to, pageSize, j); }
  }

  lemma {:induction false} GrowthFrom(views: seq<Attachment>, o: nat, pages: nat, alive: set<nat>, from: nat, to: nat, pageSize: nat, x: Key) returns (j: nat)
    requires x in Growth(views, o, pages, alive, from, to, pageSize)
    ensures j < |views| && Extends(views[j], o, pages, alive) && x in Keys(views[j].process, views[j].view, from, to, pageSize)
    decreases |views|
  {
    hide Keys, Extends;
    var n := |views| - 1;
    if Extends(views[n], o, pages, alive) && x in Keys(views[n].process, views[n].view, from, to, pageSize) {
      j := n;
    } else {
      j := GrowthFrom(views[..n], o, pages, alive, from, to, pageSize, x);
    }
  }

  /** The holder of the list owns its pages: no repetition, none null, none also in the allocator's hands. */
  ghost predicate Owns(pages: seq<nat>, spare: set<nat>)
  {
    Distinct(pages) && forall p :: p in pages ==> p != 0 && p !in spare
  }

  /** The objects that views name, in list order. */
  ghost function Targets(all: seq<Attachment>): (ts: seq<nat>)
    ensures |ts| == |all| && forall i :: 0 <= i < |all| ==> ts[i] == all[i].target
  {
    seq(|all|, i requires 0 <= i < |all| => all[i].target)
  }

  class Mappings {
    const pageSize: nat
    const slotPages: nat
    const slots: nat
    const viewBase: nat
    const alive: set<nat>           // processes that have a page table
    var objects: map<nat, Object>
    var attachments: seq<Attachment>
    var table: map<Key, nat>
    var spare: set<nat>

    constructor (pageSize: nat, slotPages: nat, slots: nat, viewBase: nat, alive: set<nat>, spare: set<nat>)
      requires 0 < pageSize && 0 !in spare
      ensures Valid() && this.pageSize == pageSize && this.slotPages == slotPages && this.slots == slots && this.viewBase == viewBase
      ensures this.alive == alive && this.spare == spare && objects == map[] && attachments == [] && table == map[]
    {
      this.pageSize, this.slotPages, this.slots, this.viewBase, this.alive, this.spare := pageSize, slotPages, slots, viewBase, alive, spare;
      objects, attachments, table := map[], [], map[];
    }

    // -------------------------------------------------------------- what holds between calls

    function SlotBytes(): nat { slotPages * pageSize }

    /** slot_address */
    function SlotAt(slot: nat): nat { viewBase + slot * SlotBytes() }

    /** Each view has a slot of its own in its process. */
    ghost predicate SlotsOk(all: seq<Attachment>)
    {
      && (forall a :: a in all ==> a.slot < slots && a.view == SlotAt(a.slot))
      && (forall i, j :: 0 <= i < |all| && 0 <= j < |all| && i != j && all[i].process == all[j].process ==> all[i].slot != all[j].slot)
    }

    /** A view shows at most its slot and at most its object. */
    ghost predicate SizesOk(objects: map<nat, Object>, all: seq<Attachment>)
    {
      forall a :: a in all ==> a.target in objects && a.viewPages <= slotPages && a.viewPages <= |objects[a.target].backing|
    }

    /** In live processes the page tables hold exactly the pages of the views. */
    ghost predicate TablesOk(objects: map<nat, Object>, all: seq<Attachment>, t: map<Key, nat>)
      requires SizesOk(objects, all)
    {
      && (forall a :: a in all && a.process in alive ==> Shows(t, a, objects[a.target].backing, 0, a.viewPages))
      && (forall x :: x in t ==> Covered(all, x))
    }

    ghost predicate Covered(all: seq<Attachment>, x: Key)
    {
      exists a :: a in all && a.process in alive && x in Keys(a.process, a.view, 0, a.viewPages, pageSize)
    }

    /** attachment_count is the number of views, and an object lives while a handle or a view names it. */
    ghost predicate CountsOk(objects: map<nat, Object>, all: seq<Attachment>)
    {
      forall o :: o in objects ==> objects[o].views == multiset(Targets(all))[o] && objects[o].handles + objects[o].views > 0
    }

    ghost predicate Valid()
      reads this
    {
      && 0 < pageSize && 0 !in spare
      && SlotsOk(attachments) && SizesOk(objects, attachments) && TablesOk(objects, attachments, table) && CountsOk(objects, attachments)
    }

    /** unmap: drop the entries of a run of view pages. */
    method Unmap(process: nat, view: nat, from: nat, to: nat)
      modifies this`table
      ensures table == old(table) - Keys(process, view, from, to, pageSize)
    {
      table := table - Keys(process, view, from, to, pageSize);
    }

    /** map_backing_pages: page by page; on failure the pages mapped so far are unmapped again. */
    method MapBackingPages(process: nat, view: nat, pages: seq<nat>, from: nat, to: nat, mapOk: Key -> bool) returns (ok: bool)
      requires from < to <= |pages| && 0 < pageSize
      modifies this`table
      ensures AgreeOutside(table, old(table), Keys(process, view, from, to, pageSize))
      ensures ok <==> forall i :: from <= i < to ==> mapOk((process, PageAt(view, i, pageSize)))
      ensures ok ==> forall i :: from <= i < to ==>
                       var x := (process, PageAt(view, i, pageSize)); x in table && table[x] == pages[i]
      ensures !ok ==> forall x :: x in table ==> x in old(table)
    {
      ghost var k := Keys(process, view, from, to, pageSize);
      var index := from;
      while index < to
        invariant from <= index <= to
        invariant AgreeOutside(table, old(table), k)
        invariant forall i :: from <= i < index ==>
                    var x := (process, PageAt(view, i, pageSize)); mapOk(x) && x in table && table[x] == pages[i]
        invariant forall x :: x in table ==> x in old(table) || x in Keys(process, view, from, index, pageSize)
      {
        var at := (process, PageAt(view, index, pageSize));
        if !mapOk(at) {
          Unmap(process, view, from, index);
          return false;
        }
        DifferentPages(view, index, pageSize);
        assert at in k && at in Keys(process, view, from, index + 1, pageSize);
        table := table[at := pages[index]];
        index := index + 1;
      }
      ok := true;
    }

    static lemma DifferentPages(view: nat, j: nat, pageSize: nat)
      requires 0 < pageSize
      ensures forall i: nat :: i < j ==> PageAt(view, i, pageSize) != PageAt(view, j, pageSize)
    {
      forall i: nat | i < j ensures PageAt(view, i, pageSize) != PageAt(view, j, pageSize) {
        MulMono(i + 1, j, pageSize);
        assert (i + 1) * pageSize == i * pageSize + pageSize;
      }
    }

    /** alloc_page until count pages are held; on exhaustion the pages held so far are returned to the caller. */
    method AllocPages(count: nat) returns (pages: seq<nat>)
      requires 0 !in spare
      modifies this`spare
      ensures |pages| == if |old(spare)| < count then |old(spare)| else count
      ensures Owns(pages, spare) && SetOf(pages) <= old(spare) && spare == old(spare) - SetOf(pages)
    {
      pages := [];
      while |pages| < count && spare != {}
        invariant |pages| <= count && |pages| + |spare| == |old(spare)|
        invariant Owns(pages, spare) && SetOf(pages) <= old(spare) && spare == old(spare) - SetOf(pages)
        decreases count - |pages|
      {
        var p :| p in spare;
        assert SetOf(pages + [p]) == SetOf(pages) + {p};
        assert forall i :: 0 <= i < |pages| ==> pages[i] in pages;
        spare := spare - {p};
        pages := pages + [p];
      }
    }

    /** release_backing_pages. The allocator ignores a page that is free already; clean says that none was. */
    method FreePages(pages: seq<nat>) returns (ghost clean: bool)
      modifies this`spare
      ensures spare == old(spare) + (SetOf(pages) - {0})
      ensures clean <==> forall i :: 0 <= i < |pages| && pages[i] != 0 ==> pages[i] !in old(spare) + SetOf(pages[..i])
      ensures Owns(pages, old(spare)) ==> clean
    {
      hide Owns, SetOf;
      clean := true;
      NoPages(spare);
      assert pages[..0] == [];
      for i := 0 to |pages|
        invariant spare == old(spare) + (SetOf(pages[..i]) - {0})
        invariant clean <==> forall j :: 0 <= j < i && pages[j] != 0 ==> pages[j] !in old(spare) + SetOf(pages[..j])
      {
        OnePage(pages, i);
        if pages[i] != 0 {
          clean := clean && pages[i] !in spare;
          spare := spare + {pages[i]};
        }
      }
      assert pages[..|pages|] == pages;
      if Owns(pages, old(spare)) { FreedOnce(pages, old(spare)); }
    }

    static lemma NoPages(spare: set<nat>)
      ensures SetOf([]) == {} && spare == spare + (SetOf([]) - {0})
    {
    }

    static lemma OnePage(pages: seq<nat>, i: nat)
      requires i < |pages|
      ensures SetOf(pages[..i + 1]) == SetOf(pages[..i]) + {pages[i]}
    {
      assert pages[..i + 1] == pages[..i] + [pages[i]];
    }

    static lemma FreedOnce(pages: seq<nat>, spare: set<nat>)
      requires Owns(pages, spare)
      ensures forall i :: 0 <= i < |pages| && pages[i] != 0 ==> pages[i] !in spare + SetOf(pages[..i])
    {
      forall i | 0 <= i < |pages| ensures pages[i] !in spare + SetOf(pages[..i]) {
        assert pages[i] in pages;
      }
    }

    /** The views of o that show exactly `to` pages go back to `from` pages. */
    method Rollback(o: nat, from: nat, to: nat)
      modifies this`table, this`attachments
      ensures table == old(table) - Growth(old(attachments), o, to, alive, from, to, pageSize)
      ensures |attachments| == |old(attachments)|
      ensures forall j :: 0 <= j < |attachments| ==>
                var a := old(attachments)[j];
                attachments[j] == if Extends(a, o, to, alive) then a.(viewPages := from) else a
    {
      hide Keys;
      ghost var all := attachments;
      var j := 0;
      while j < |attachments|
        invariant 0 <= j <= |all| == |attachments|
        invariant table == old(table) - Growth(all[..j], o, to, alive, from, to, pageSize)
        invariant forall i :: 0 <= i < j ==> attachments[i] == if Extends(all[i], o, to, alive) then all[i].(viewPages := from) else all[i]
        invariant forall i :: j <= i < |all| ==> attachments[i] == all[i]
      {
        assert all[..j + 1][..j] == all[..j] && attachments[j] == all[j];
        var a := attachments[j];
        if a.target == o && a.viewPages == to && a.process in alive {
          Unmap(a.process, a.view, from, to);
          attachments := attachments[j := a.(viewPages := from)];
        }
        j := j + 1;
      }
      assert all[..j] == all;
    }

    /** The pages of view a are mapped to the given backing pages. */
    ghost predicate Shows(t: map<Key, nat>, a: Attachment, pages: seq<nat>, from: nat, to: nat)
      requires to <= |pages|
    {
      forall i :: from <= i < to ==> var x := (a.process, PageAt(a.view, i, pageSize)); x in t && t[x] == pages[i]
    }

    /** Views of one process lie in different slots. */
    static ghost predicate ViewsApart(views: seq<Attachment>, slotBytes: nat)
    {
      forall i, j :: 0 <= i < |views| && 0 <= j < |views| && i != j && views[i].process == views[j].process ==>
        views[i].view + slotBytes <= views[j].view || views[j].view + slotBytes <= views[i].view
    }

    static lemma KeysApart(a: Attachment, b: Attachment, from: nat, to: nat, pageSize: nat)
      requires 0 < pageSize
      requires a.process == b.process ==> a.view + to * pageSize <= b.view || b.view + to * pageSize <= a.view
      ensures Keys(a.process, a.view, from, to, pageSize) !! Keys(b.process, b.view, from, to, pageSize)
    {
      forall i, j | from <= i < to && from <= j < to && a.process == b.process
        ensures PageAt(a.view, i, pageSize) != PageAt(b.view, j, pageSize)
      {
        MulMono(i + 1, to, pageSize);
        MulMono(j + 1, to, pageSize);
        assert (i + 1) * pageSize == i * pageSize + pageSize && (j + 1) * pageSize == j * pageSize + pageSize;
        MulMono(0, i, pageSize);
        MulMono(0, j, pageSize);
      }
    }

    /** Halfway through: the first i views have been extended where they had to be. */
    ghost predicate Extending(all: seq<Attachment>, i: nat, o: nat, from: nat, to: nat)
      reads this`attachments
    {
      && i <= |all| == |attachments|
      && (forall j :: 0 <= j < i ==> attachments[j] == if Extends(all[j], o, from, alive) then all[j].(viewPages := to) else all[j])
      && (forall j :: i <= j < |all| ==> attachments[j] == all[j])
    }

    /** What the extensions so far did to the page tables. */
    ghost predicate Extended(t0: map<Key, nat>, all: seq<Attachment>, i: nat, o: nat, pages: seq<nat>, from: nat, to: nat)
      requires to <= |pages| && i <= |all|
      reads this`table
    {
      && AgreeOutside(table, t0, Growth(all[..i], o, from, alive, from, to, pageSize))
      && forall j :: 0 <= j < i && Extends(all[j], o, from, alive) ==> Shows(table, all[j], pages, from, to)
    }

    lemma AgreeMore(t: map<Key, nat>, u: map<Key, nat>, v: map<Key, nat>, k: set<Key>, m: set<Key>)
      requires AgreeOutside(t, u, k) && AgreeOutside(u, v, m)
      ensures AgreeOutside(t, v, m + k)
    {
    }

    lemma GrowthSnoc(all: seq<Attachment>, i: nat, o: nat, from: nat, to: nat)
      requires i < |all|
      ensures var g := Growth(all[..i], o, from, alive, from, to, pageSize);
              Growth(all[..i + 1], o, from, alive, from, to, pageSize) ==
                if Extends(all[i], o, from, alive) then g + Keys(all[i].process, all[i].view, from, to, pageSize) else g
    {
      hide Keys, Extends;
      assert all[..i + 1][..i] == all[..i];
    }

    /** Extending one more view leaves the earlier ones showing their pages. */
    lemma ShowsStill(t: map<Key, nat>, u: map<Key, nat>, a: Attachment, b: Attachment, pages: seq<nat>, from: nat, to: nat)
      requires 0 < pageSize && to <= |pages| && Shows(t, a, pages, from, to)
      requires AgreeOutside(u, t, Keys(b.process, b.view, from, to, pageSize))
      requires a.process == b.process ==> a.view + to * pageSize <= b.view || b.view + to * pageSize <= a.view
      ensures Shows(u, a, pages, from, to)
    {
      hide AgreeOutside;
      KeysApart(a, b, from, to, pageSize);
      forall i | from <= i < to ensures var x := (a.process, PageAt(a.view, i, pageSize)); x in u && u[x] == pages[i] {
        var x := (a.process, PageAt(a.view, i, pageSize));
        assert x in Keys(a.process, a.view, from, to, pageSize);
        AgreeAt(u, t, Keys(b.process, b.view, from, to, pageSize), x);
      }
    }

    static lemma AgreeAt(t: map<Key, nat>, u: map<Key, nat>, k: set<Key>, x: Key)
      requires AgreeOutside(t, u, k) && x !in k
      ensures (x in t <==> x in u) && (x in t ==> t[x] == u[x])
    {
    }

    /** Every page that view a would gain can be mapped. */
    ghost predicate Mappable(a: Attachment, from: nat, to: nat, mapOk: Key -> bool)
    {
      forall i :: from <= i < to ==> mapOk((a.process, PageAt(a.view, i, pageSize)))
    }

    /** One step of the loop that extends the views of o. */
    method ExtendOne(ghost t0: map<Key, nat>, ghost all: seq<Attachment>, i: nat, o: nat, pages: seq<nat>, from: nat, to: nat, mapOk: Key -> bool)
      returns (ok: bool)
      requires 0 < pageSize && from < to <= |pages| && to <= slotPages && i < |attachments|
      requires Extending(all, i, o, from, to) && Extended(t0, all, i, o, pages, from, to)
      requires ViewsApart(all, SlotBytes())
      modifies this`table, this`attachments
      ensures ok ==> Extending(all, i + 1, o, from, to) && Extended(t0, all, i + 1, o, pages, from, to)
      ensures !ok ==> Extending(all, i, o, from, to) && Extends(all[i], o, from, alive)
                      && AgreeOutside(table, t0, Growth(all[..i + 1], o, from, alive, from, to, pageSize))
                      && forall x :: x in table ==> x in old(table)
      ensures ok <==> (Extends(all[i], o, from, alive) ==> Mappable(all[i], from, to, mapOk))
    {
      hide Keys, AgreeOutside, Growth, Shows;
      var a := attachments[i];
      GrowthSnoc(all, i, o, from, to);
      if !(a.target == o && a.viewPages == from) || a.process !in alive {
        return true;
      }
      ghost var t1 := table;
      ghost var k := Keys(a.process, a.view, from, to, pageSize);
      ok := MapBackingPages(a.process, a.view, pages, from, to, mapOk);
      AgreeMore(table, t1, t0, k, Growth(all[..i], o, from, alive, from, to, pageSize));
      if !ok {
        return;
      }
      ShowsNew(a, pages, from, to);
      ghost var t2 := table;
      forall j | 0 <= j < i && Extends(all[j], o, from, alive) ensures Shows(t2, all[j], pages, from, to) {
        MulMono(to, slotPages, pageSize);
        ShowsStill(t1, t2, all[j], a, pages, from, to);
      }
      attachments := attachments[i := a.(viewPages := to)];
    }

    lemma ShowsNew(a: Attachment, pages: seq<nat>, from: nat, to: nat)
      requires to <= |pages|
      requires forall i :: from <= i < to ==> var x := (a.process, PageAt(a.view, i, pageSize)); x in table && table[x] == pages[i]
      ensures Shows(table, a, pages, from, to)
    {
    }

    /** The growth of the views that show `to` pages now is part of the growth planned at the start. */
    lemma RolledBack(t0: map<Key, nat>, t: map<Key, nat>, all: seq<Attachment>, cur: seq<Attachment>, i: nat, o: nat, from: nat, to: nat)
      requires i < |all| == |cur| && from != to
      requires forall j :: 0 <= j < i ==> cur[j] == if Extends(all[j], o, from, alive) then all[j].(viewPages := to) else all[j]
      requires forall j :: i <= j < |all| ==> cur[j] == all[j]
      requires forall j :: 0 <= j < |all| ==> !(all[j].target == o && all[j].viewPages == to)
      ensures Growth(cur, o, to, alive, from, to, pageSize) == Growth(all[..i], o, from, alive, from, to, pageSize)
      ensures forall j :: 0 <= j < |all| ==> (if Extends(cur[j], o, to, alive) then cur[j].(viewPages := from) else cur[j]) == all[j]
    {
      hide Keys, Growth;
      var g, h := Growth(cur, o, to, alive, from, to, pageSize), Growth(all[..i], o, from, alive, from, to, pageSize);
      forall x | x in g ensures x in h {
        var j := GrowthFrom(cur, o, to, alive, from, to, pageSize, x);
        GrowthHas(all[..i], o, from, alive, from, to, pageSize, j);
      }
      forall x | x in h ensures x in g {
        var j := GrowthFrom(all[..i], o, from, alive, from, to, pageSize, x);
        GrowthHas(cur, o, to, alive, from, to, pageSize, j);
      }
    }

    lemma {:induction false} GrowthPrefix(all: seq<Attachment>, i: nat, o: nat, from: nat, to: nat)
      requires i <= |all|
      ensures Growth(all[..i], o, from, alive, from, to, pageSize) <= Growth(all, o, from, alive, from, to, pageSize)
    {
      hide Keys, Growth;
      forall x | x in Growth(all[..i], o, from, alive, from, to, pageSize)
        ensures x in Growth(all, o, from, alive, from, to, pageSize)
      {
        var j := GrowthFrom(all[..i], o, from, alive, from, to, pageSize, x);
        GrowthHas(all, o, from, alive, from, to, pageSize, j);
      }
    }

    /** Extend every view of o that shows all `from` pages to `to` pages, or restore everything. */
    method ExtendViews(o: nat, pages: seq<nat>, from: nat, to: nat, mapOk: Key -> bool) returns (ok: bool)
      requires 0 < pageSize && from < to <= |pages| && to <= slotPages
      requires ViewsApart(attachments, SlotBytes())
      requires forall j :: 0 <= j < |attachments| ==> !(attachments[j].target == o && attachments[j].viewPages == to)
      requires Clear(table, Growth(attachments, o, from, alive, from, to, pageSize))
      modifies this`table, this`attachments
      ensures ok ==> Extending(old(attachments), |old(attachments)|, o, from, to)
                     && Extended(old(table), old(attachments), |old(attachments)|, o, pages, from, to)
      ensures !ok ==> table == old(table) && attachments == old(attachments)
      ensures ok <==> forall j :: 0 <= j < |old(attachments)| && Extends(old(attachments)[j], o, from, alive) ==>
                        Mappable(old(attachments)[j], from, to, mapOk)
    {
      hide Keys, AgreeOutside, Growth, Shows, Clear, Extends, Mappable;
      ghost var t0, all := table, attachments;
      assert all[..0] == [];
      NothingYet(t0);
      var i := 0;
      while i < |attachments|
        invariant 0 <= i <= |attachments| && Extending(all, i, o, from, to) && Extended(t0, all, i, o, pages, from, to)
        invariant forall x :: x in table ==> x in t0 || x in Growth(all[..i], o, from, alive, from, to, pageSize)
        invariant forall j :: 0 <= j < i && Extends(all[j], o, from, alive) ==> Mappable(all[j], from, to, mapOk)
      {
        ghost var t1 := table;
        ok := ExtendOne(t0, all, i, o, pages, from, to, mapOk);
        if !ok {
          Undo(t0, t1, all, i, o, from, to);
          return false;
        }
        KeysAccounted(t0, all, i + 1, o, pages, from, to);
        i := i + 1;
      }
      ok := true;
    }

    lemma NothingYet(t0: map<Key, nat>)
      ensures forall o, from, to :: Growth([], o, from, alive, from, to, pageSize) == {}
      ensures AgreeOutside(t0, t0, {})
    {
    }

    lemma KeysAccounted(t0: map<Key, nat>, all: seq<Attachment>, i: nat, o: nat, pages: seq<nat>, from: nat, to: nat)
      requires to <= |pages| && i <= |all| && Extended(t0, all, i, o, pages, from, to)
      ensures forall x :: x in table ==> x in t0 || x in Growth(all[..i], o, from, alive, from, to, pageSize)
    {
      hide Growth, Shows, Keys;
    }

    method Undo(ghost t0: map<Key, nat>, ghost t1: map<Key, nat>, ghost all: seq<Attachment>, ghost i: nat, o: nat, from: nat, to: nat)
      requires from < to && i < |all| && Extending(all, i, o, from, to)
      requires forall j :: 0 <= j < |all| ==> !(all[j].target == o && all[j].viewPages == to)
      requires Clear(t0, Growth(all, o, from, alive, from, to, pageSize))
      requires AgreeOutside(table, t0, Growth(all[..i + 1], o, from, alive, from, to, pageSize))
      requires forall x :: x in table ==> x in t1
      requires forall x :: x in t1 ==> x in t0 || x in Growth(all[..i], o, from, alive, from, to, pageSize)
      modifies this`table, this`attachments
      ensures table == t0 && attachments == all
    {
      hide Keys, Growth, Extends;
      ghost var cur, t2 := attachments, table;
      RolledBack(t0, t2, all, cur, i, o, from, to);
      Rollback(o, from, to);
      GrowthPrefix(all, i, o, from, to);
      GrowthPrefix(all, i + 1, o, from, to);
      ClearAgreeEqual(table, t0, Growth(all, o, from, alive, from, to, pageSize));
      assert attachments == all;
    }

    /** align_up_to_page, in pages; a size whose rounding wraps counts as none. */
    function WholePages(size: nat): (n: nat)
      requires 0 < pageSize
      ensures if size + pageSize <= TWO64 then size <= n * pageSize < size + pageSize else n == 0
    {
      WholePagesCover(size);
      if size + (pageSize - 1) >= TWO64 then 0 else (size + (pageSize - 1)) / pageSize
    }

    lemma WholePagesCover(size: nat)
      requires 0 < pageSize
      ensures size <= (size + (pageSize - 1)) / pageSize * pageSize < size + pageSize
    {
      assert size + (pageSize - 1) == (size + (pageSize - 1)) / pageSize * pageSize + (size + (pageSize - 1)) % pageSize;
    }

    /** resize_backing. On every outcome the views keep showing their objects. The physical pages show two slips
        of the code: when the allocator runs dry, and after a successful growth, the object's old pages are handed
        back although the object still lists them. clean says that no page was handed back twice. */
    method Resize(o: nat, size: nat, memory: bool, mapOk: Key -> bool) returns (status: Status, ghost clean: bool)
      requires Valid() && o in objects
      modifies this`objects, this`attachments, this`table, this`spare
      ensures Valid()
      ensures var n, m, views := |old(objects)[o].backing|, WholePages(size), old(attachments);
              status == if size == 0 then InvalidArgument
                        else if size < old(objects)[o].requested then NotSupported
                        else if size + pageSize > TWO64 then InvalidArgument
                        else if m > slotPages then NoSpace
                        else if m <= n then Done
                        else if !memory || |old(spare)| < m - n then NoMemory
                        else if exists a :: a in views && a.target == o && a.viewPages == n && a.process in alive && !Mappable(a, n, m, mapOk)
                        then MapFailed
                        else Done
      ensures status == Done ==>
                var n, m, views := |old(objects)[o].backing|, WholePages(size), old(attachments);
                && |attachments| == |views|
                && forall j :: 0 <= j < |views| ==>
                     attachments[j] == if n < m && views[j].target == o && views[j].viewPages == n && views[j].process in alive
                                       then views[j].(viewPages := m) else views[j]
      ensures status != Done ==> objects == old(objects) && attachments == old(attachments) && table == old(table)
      ensures status != Done && status != NoMemory ==> spare == old(spare) && clean
      ensures status == NoMemory ==> spare == if memory then old(spare) + (SetOf(objects[o].backing) - {0}) else old(spare)
      ensures status == Done ==>
                var b, n, m := old(objects)[o].backing, |old(objects)[o].backing|, WholePages(size);
                if m <= n then
                  objects == old(objects)[o := old(objects)[o].(requested := size)] && attachments == old(attachments)
                  && table == old(table) && spare == old(spare)
                else
                  && o in objects && |objects[o].backing| == m && objects[o].backing[..n] == b
                  && objects == old(objects)[o := old(objects)[o].(backing := objects[o].backing, requested := size)]
                  && SetOf(objects[o].backing[n..]) <= old(spare)
                  && spare == old(spare) - SetOf(objects[o].backing[n..]) + (SetOf(b) - {0})
                  && Extending(old(attachments), |old(attachments)|, o, n, m)
                  && Extended(old(table), old(attachments), |old(attachments)|, o, objects[o].backing, n, m)
    {
      hide Keys, AgreeOutside, Growth, Shows, Clear, Owns, SetOf, SlotsOk, SizesOk, TablesOk, CountsOk, Mappable;
      clean := true;
      if size == 0 { return InvalidArgument, clean; }
      var entry := objects[o];
      var n := |entry.backing|;
      if size < entry.requested { return NotSupported, clean; }
      var m := WholePages(size);
      if m == 0 { return InvalidArgument, clean; }
      if m > slotPages { return NoSpace, clean; }
      if m <= n {
        Requested(o, size);
        objects := objects[o := entry.(requested := size)];
        return Done, clean;
      }
      if !memory { return NoMemory, clean; }
      var got := AllocPages(m - n);
      ghost var spare1 := spare;
      if |got| < m - n {
        clean := FreePages(entry.backing + got);
        SetOfBoth(entry.backing, got, old(spare), spare1);
        return NoMemory, clean;
      }
      var pages := entry.backing + got;
      ghost var all, t0 := attachments, table;
      Growable(o, n, m);
      if entry.views != 0 {
        var ok := ExtendViews(o, pages, n, m, mapOk);
        if !ok {
          clean := FreePages(got);
          GotBack(got, old(spare), spare1);
          return MapFailed, clean;
        }
      } else {
        NoViews(attachments, table, o, pages, n, m);
      }
      clean := FreePages(entry.backing);
      assert pages[..n] == entry.backing && pages[n..] == got;
      Grown(o, all, t0, pages, n, m, entry.(backing := pages, requested := size));
      objects := objects[o := entry.(backing := pages, requested := size)];
      status := Done;
    }

    static lemma SetOfBoth(b: seq<nat>, got: seq<nat>, before: set<nat>, after: set<nat>)
      requires SetOf(got) <= before && after == before - SetOf(got) && 0 !in before
      ensures after + (SetOf(b + got) - {0}) == before + (SetOf(b) - {0})
    {
      assert forall p :: p in b + got <==> p in b || p in got;
    }

    static lemma GotBack(got: seq<nat>, before: set<nat>, after: set<nat>)
      requires SetOf(got) <= before && after == before - SetOf(got) && 0 !in before
      ensures after + (SetOf(got) - {0}) == before
    {
    }

    // -------------------------------------------------------------- why a resize keeps the state valid

    /** Recording a new logical size disturbs nothing. */
    lemma Requested(o: nat, size: nat)
      requires SizesOk(objects, attachments) && TablesOk(objects, attachments, table) && CountsOk(objects, attachments) && o in objects
      ensures var obs := objects[o := objects[o].(requested := size)];
              SizesOk(obs, attachments) && TablesOk(obs, attachments, table) && CountsOk(obs, attachments)
    {
      hide Shows, Covered, Targets;
    }

    /** Slots of one process are apart. */
    lemma SlotsAreApart(all: seq<Attachment>)
      requires SlotsOk(all)
      ensures ViewsApart(all, SlotBytes())
    {
      forall i, j | 0 <= i < |all| && 0 <= j < |all| && i != j && all[i].process == all[j].process
        ensures all[i].view + SlotBytes() <= all[j].view || all[j].view + SlotBytes() <= all[i].view
      {
        assert all[i] in all && all[j] in all;
        if all[i].slot < all[j].slot { SlotStep(all[i].slot, all[j].slot); } else { SlotStep(all[j].slot, all[i].slot); }
      }
    }

    lemma SlotStep(s: nat, t: nat)
      requires s < t
      ensures SlotAt(s) + SlotBytes() <= SlotAt(t)
    {
      MulMono(s + 1, t, SlotBytes());
      assert (s + 1) * SlotBytes() == s * SlotBytes() + SlotBytes();
    }

    /** Page i of view j is in nobody's growth, unless view j itself is extended and i is new. */
    lemma OutsideGrowth(all: seq<Attachment>, j: nat, i: nat, o: nat, from: nat, to: nat)
      requires 0 < pageSize && ViewsApart(all, SlotBytes()) && j < |all| && i < slotPages && to <= slotPages
      requires Extends(all[j], o, from, alive) ==> i < from
      ensures (all[j].process, PageAt(all[j].view, i, pageSize)) !in Growth(all, o, from, alive, from, to, pageSize)
    {
      hide Growth, Extends, ViewsApart, PageAt;
      var x := (all[j].process, PageAt(all[j].view, i, pageSize));
      if x in Growth(all, o, from, alive, from, to, pageSize) {
        var k := GrowthFrom(all, o, from, alive, from, to, pageSize, x);
        SamePage(all, j, i, k, from, to);
      }
    }

    /** A page address inside the slots names the view and the page. */
    lemma SamePage(all: seq<Attachment>, j: nat, i: nat, k: nat, from: nat, to: nat)
      requires 0 < pageSize && ViewsApart(all, SlotBytes()) && j < |all| && k < |all| && i < slotPages && to <= slotPages
      requires (all[j].process, PageAt(all[j].view, i, pageSize)) in Keys(all[k].process, all[k].view, from, to, pageSize)
      ensures j == k && from <= i < to
    {
      hide ViewsApart, PageAt;
      var i2 :| from <= i2 < to && PageAt(all[k].view, i2, pageSize) == PageAt(all[j].view, i, pageSize);
      if j != k {
        Apart(all, j, k);
        if all[j].view + SlotBytes() <= all[k].view { PagesApart(all[j].view, i, all[k].view, i2); }
        else { PagesApart(all[k].view, i2, all[j].view, i); }
      } else if i != i2 {
        DifferentPages(all[j].view, if i < i2 then i2 else i, pageSize);
      }
    }

    lemma Apart(all: seq<Attachment>, i: nat, j: nat)
      requires ViewsApart(all, SlotBytes()) && i < |all| && j < |all| && i != j && all[i].process == all[j].process
      ensures all[i].view + SlotBytes() <= all[j].view || all[j].view + SlotBytes() <= all[i].view
    {
    }

    lemma PagesApart(v: nat, i: nat, w: nat, j: nat)
      requires 0 < pageSize && i < slotPages && v + SlotBytes() <= w
      ensures PageAt(v, i, pageSize) < PageAt(w, j, pageSize)
    {
      MulMono(i + 1, slotPages, pageSize);
      assert (i + 1) * pageSize == i * pageSize + pageSize;
      MulMono(0, j, pageSize);
    }

    /** A valid state meets what extending needs: nothing is mapped where a view would grow. */
    lemma Growable(o: nat, n: nat, m: nat)
      requires Valid() && o in objects && n == |objects[o].backing| < m <= slotPages
      ensures ViewsApart(attachments, SlotBytes())
      ensures forall j :: 0 <= j < |attachments| ==> !(attachments[j].target == o && attachments[j].viewPages == m)
      ensures Clear(table, Growth(attachments, o, n, alive, n, m, pageSize))
      ensures objects[o].views == 0 ==> forall j :: 0 <= j < |attachments| ==> attachments[j].target != o
    {
      hide Growth, Keys, Shows, SlotsOk, ViewsApart;
      SlotsAreApart(attachments);
      Untargeted(o);
      forall j | 0 <= j < |attachments| ensures !(attachments[j].target == o && attachments[j].viewPages == m) {
        assert attachments[j] in attachments;
      }
      forall x | x in Growth(attachments, o, n, alive, n, m, pageSize) ensures x !in table {
        if x in table { CoveredNotNew(x, o, n, m); }
      }
    }

    lemma Untargeted(o: nat)
      requires CountsOk(objects, attachments) && o in objects
      ensures objects[o].views == 0 ==> forall j :: 0 <= j < |attachments| ==> attachments[j].target != o
    {
      var ts := Targets(attachments);
      forall j | 0 <= j < |attachments| && attachments[j].target == o ensures objects[o].views != 0 {
        assert ts[j] == o && o in ts;
        assert o in multiset(ts);
      }
    }

    lemma CoveredNotNew(x: Key, o: nat, n: nat, m: nat)
      requires 0 < pageSize && Covered(attachments, x) && ViewsApart(attachments, SlotBytes()) && SizesOk(objects, attachments) && m <= slotPages
      ensures x !in Growth(attachments, o, n, alive, n, m, pageSize)
    {
      hide Growth, ViewsApart;
      var a :| a in attachments && a.process in alive && x in Keys(a.process, a.view, 0, a.viewPages, pageSize);
      var j :| 0 <= j < |attachments| && attachments[j] == a;
      var i :| 0 <= i < a.viewPages && x == (a.process, PageAt(a.view, i, pageSize));
      OutsideGrowth(attachments, j, i, o, n, m);
    }

    /** After a growth every view shows its object, and nothing else is mapped. */
    lemma Grown(o: nat, all: seq<Attachment>, t0: map<Key, nat>, pages: seq<nat>, n: nat, m: nat, entry: Object)
      requires 0 < pageSize && o in objects && n == |objects[o].backing| < m == |pages| <= slotPages && pages[..n] == objects[o].backing
      requires SlotsOk(all) && SizesOk(objects, all) && TablesOk(objects, all, t0) && CountsOk(objects, all)
      requires Extending(all, |all|, o, n, m) && Extended(t0, all, |all|, o, pages, n, m)
      requires entry.backing == pages && entry.views == objects[o].views && entry.handles == objects[o].handles
      ensures var obs := objects[o := entry];
              SlotsOk(attachments) && SizesOk(obs, attachments) && TablesOk(obs, attachments, table) && CountsOk(obs, attachments)
    {
      hide SlotsOk, SizesOk, TablesOk, CountsOk, Extended, Extends;
      SlotsAreApart(all);
      GrownSizes(o, all, pages, n, m, entry);
      GrownCounts(o, all, n, m, entry);
      GrownTables(o, all, t0, pages, n, m, entry);
    }

    lemma GrownSizes(o: nat, all: seq<Attachment>, pages: seq<nat>, n: nat, m: nat, entry: Object)
      requires o in objects && n == |objects[o].backing| < m == |pages| <= slotPages && entry.backing == pages
      requires SlotsOk(all) && SizesOk(objects, all) && Extending(all, |all|, o, n, m)
      ensures SlotsOk(attachments) && SizesOk(objects[o := entry], attachments)
    {
      hide SlotAt;
      forall a | a in attachments
        ensures a.slot < slots && a.view == SlotAt(a.slot) && a.target in objects && a.viewPages <= slotPages
        ensures a.viewPages <= |objects[o := entry][a.target].backing|
      {
        var j :| 0 <= j < |attachments| && attachments[j] == a;
        assert all[j] in all;
      }
    }

    lemma GrownCounts(o: nat, all: seq<Attachment>, n: nat, m: nat, entry: Object)
      requires o in objects && CountsOk(objects, all) && Extending(all, |all|, o, n, m)
      requires entry.views == objects[o].views && entry.handles == objects[o].handles
      ensures CountsOk(objects[o := entry], attachments)
    {
      assert Targets(attachments) == Targets(all);
    }

    lemma GrownTables(o: nat, all: seq<Attachment>, t0: map<Key, nat>, pages: seq<nat>, n: nat, m: nat, entry: Object)
      requires 0 < pageSize && o in objects && n == |objects[o].backing| < m == |pages| <= slotPages && pages[..n] == objects[o].backing
      requires ViewsApart(all, SlotBytes()) && SizesOk(objects, all) && TablesOk(objects, all, t0) && entry.backing == pages
      requires Extending(all, |all|, o, n, m) && Extended(t0, all, |all|, o, pages, n, m) && SizesOk(objects[o := entry], attachments)
      ensures TablesOk(objects[o := entry], attachments, table)
    {
      hide ViewsApart, Shows, Covered, Extended, SizesOk;
      var obs := objects[o := entry];
      forall a | a in attachments && a.process in alive ensures a.target in obs && a.viewPages <= |obs[a.target].backing| && Shows(table, a, obs[a.target].backing, 0, a.viewPages) {
        var j :| 0 <= j < |attachments| && attachments[j] == a;
        GrownShows(o, all, t0, pages, n, m, entry, j);
      }
      forall x | x in table ensures Covered(attachments, x) {
        GrownCovered(o, all, t0, pages, n, m, x);
      }
    }

    lemma GrownShows(o: nat, all: seq<Attachment>, t0: map<Key, nat>, pages: seq<nat>, n: nat, m: nat, entry: Object, j: nat)
      requires 0 < pageSize && o in objects && n == |objects[o].backing| < m == |pages| <= slotPages && pages[..n] == objects[o].backing
      requires ViewsApart(all, SlotBytes()) && SizesOk(objects, all) && TablesOk(objects, all, t0) && entry.backing == pages
      requires Extending(all, |all|, o, n, m) && Extended(t0, all, |all|, o, pages, n, m)
      requires j < |all| && all[j].process in alive
      ensures var a, obs := attachments[j], objects[o := entry];
              && a.target in obs && a.viewPages <= |obs[a.target].backing|
              && Shows(table, a, obs[a.target].backing, 0, a.viewPages)
    {
      hide ViewsApart, Growth, AgreeOutside, Covered, PageAt;
      var b, a := all[j], attachments[j];
      assert b in all && all[..|all|] == all;
      var old_, new_ := objects[b.target].backing, objects[o := entry][b.target].backing;
      assert Shows(t0, b, old_, 0, b.viewPages);
      forall i | 0 <= i < b.viewPages
        ensures var x := (b.process, PageAt(b.view, i, pageSize)); x in table && table[x] == new_[i]
      {
        OutsideGrowth(all, j, i, o, n, m);
        AgreeAt(table, t0, Growth(all, o, n, alive, n, m, pageSize), (b.process, PageAt(b.view, i, pageSize)));
        assert new_[i] == old_[i];
      }
      if Extends(b, o, n, alive) { assert Shows(table, b, pages, n, m); }
    }

    lemma GrownCovered(o: nat, all: seq<Attachment>, t0: map<Key, nat>, pages: seq<nat>, n: nat, m: nat, x: Key)
      requires n < m == |pages| && x in table
      requires SizesOk(objects, all) && TablesOk(objects, all, t0) && o in objects && n == |objects[o].backing|
      requires Extending(all, |all|, o, n, m) && Extended(t0, all, |all|, o, pages, n, m)
      ensures Covered(attachments, x)
    {
      hide Growth, AgreeOutside, Shows, PageAt;
      assert all[..|all|] == all;
      var g := Growth(all, o, n, alive, n, m, pageSize);
      if x in g {
        var j := GrowthFrom(all, o, n, alive, n, m, pageSize, x);
        assert attachments[j] in attachments;
        assert x in Keys(all[j].process, all[j].view, 0, m, pageSize);
      } else {
        AgreeAt(table, t0, g, x);
        assert Covered(all, x);
        var a :| a in all && a.process in alive && x in Keys(a.process, a.view, 0, a.viewPages, pageSize);
        var j :| 0 <= j < |all| && all[j] == a;
        assert attachments[j] in attachments && attachments[j].viewPages >= a.viewPages;
        assert x in Keys(a.process, a.view, 0, attachments[j].viewPages, pageSize);
      }
    }

    /** An object nobody views needs no extension. */
    lemma NoViews(all: seq<Attachment>, t: map<Key, nat>, o: nat, pages: seq<nat>, from: nat, to: nat)
      requires to <= |pages| && all == attachments && t == table
      requires forall j :: 0 <= j < |all| ==> all[j].target != o
      ensures Extending(all, |all|, o, from, to) && Extended(t, all, |all|, o, pages, from, to)
    {
      hide Keys, Growth, Shows;
    }

    // -------------------------------------------------------------- creating, viewing and releasing objects

    /** The creating half of open_or_create: a new object with fresh pages and one handle, or no trace. */
    method Create(o: nat, size: nat, recordOk: bool, memory: bool) returns (status: Status)
      requires Valid() && o !in objects && forall a :: a in attachments ==> a.target != o
      modifies this`objects, this`spare
      ensures Valid() && attachments == old(attachments) && table == old(table)
      ensures status == if size == 0 then InvalidArgument else if size > SlotBytes() then NoSpace else if !recordOk then NoMemory
                        else if size + pageSize > TWO64 then InvalidArgument
                        else if !memory || |old(spare)| < WholePages(size) then NoMemory else Done
      ensures status != Done ==> objects == old(objects) && spare == old(spare)
      ensures status == Done ==>
                && o in objects && objects == old(objects)[o := Object(objects[o].backing, size, 1, 0)]
                && |objects[o].backing| == WholePages(size) > 0
                && SetOf(objects[o].backing) <= old(spare) && spare == old(spare) - SetOf(objects[o].backing) && Owns(objects[o].backing, spare)
    {
      hide SlotsOk, SizesOk, TablesOk, CountsOk, Owns, SetOf;
      if size == 0 { return InvalidArgument; }
      if size > SlotBytes() { return NoSpace; }
      if !recordOk { return NoMemory; }
      var m := WholePages(size);
      if m == 0 { return InvalidArgument; }
      if !memory { return NoMemory; }
      var got := AllocPages(m);
      ghost var spare1 := spare;
      if |got| < m {
        ghost var clean := FreePages(got);
        GotBack(got, old(spare), spare1);
        return NoMemory;
      }
      ObjectAdded(o, Object(got, size, 1, 0));
      objects := objects[o := Object(got, size, 1, 0)];
      status := Done;
    }

    lemma ObjectAdded(o: nat, entry: Object)
      requires SizesOk(objects, attachments) && TablesOk(objects, attachments, table) && CountsOk(objects, attachments)
      requires o !in objects && entry.views == 0 && entry.handles > 0 && forall a :: a in attachments ==> a.target != o
      ensures var obs := objects[o := entry]; SizesOk(obs, attachments) && TablesOk(obs, attachments, table) && CountsOk(obs, attachments)
    {
      hide Shows, Covered;
      var ts := Targets(attachments);
      assert forall j :: 0 <= j < |ts| ==> attachments[j] in attachments && ts[j] != o;
      assert o !in multiset(ts);
    }

    static ghost predicate SlotTaken(all: seq<Attachment>, process: nat, slot: nat)
    {
      exists a :: a in all && a.process == process && a.slot == slot
    }

    /** The lowest slot that the process does not use. */
    ghost predicate LowestFree(all: seq<Attachment>, process: nat, slot: nat)
    {
      slot < slots && !SlotTaken(all, process, slot) && forall s :: 0 <= s < slot ==> SlotTaken(all, process, s)
    }

    /** process_uses_slot */
    method UsesSlot(process: nat, slot: nat) returns (b: bool)
      ensures b <==> SlotTaken(attachments, process, slot)
    {
      for i := 0 to |attachments|
        invariant forall j :: 0 <= j < i ==> !(attachments[j].process == process && attachments[j].slot == slot)
      {
        if attachments[i].process == process && attachments[i].slot == slot {
          assert attachments[i] in attachments;
          return true;
        }
      }
      b := false;
    }

    /** reserve_view_slot: the lowest free slot of the process; none only if it uses all of them. */
    method FreeSlot(process: nat) returns (slot: nat)
      ensures slot <= slots
      ensures slot < slots ==> forall a :: a in attachments && a.process == process ==> a.slot != slot
      ensures forall s :: 0 <= s < slot ==> SlotTaken(attachments, process, s)
    {
      slot := 0;
      while slot < slots
        invariant 0 <= slot <= slots
        invariant forall s :: 0 <= s < slot ==> SlotTaken(attachments, process, s)
      {
        var used := UsesSlot(process, slot);
        if !used { return; }
        slot := slot + 1;
      }
    }

    /** find_attachment */
    method FindView(process: nat, o: nat) returns (k: nat)
      ensures k <= |attachments| && (k < |attachments| ==> attachments[k].process == process && attachments[k].target == o)
      ensures k == |attachments| ==> forall a :: a in attachments ==> !(a.process == process && a.target == o)
    {
      k := 0;
      while k < |attachments|
        invariant 0 <= k <= |attachments|
        invariant forall j :: 0 <= j < k ==> !(attachments[j].process == process && attachments[j].target == o)
      {
        if attachments[k].process == process && attachments[k].target == o { return; }
        k := k + 1;
      }
    }

    /** MapViewOfFile at offset 0: the view a process already has, or one new view in the lowest free slot, or a
        failure that restores the page table. */
    method MapView(process: nat, o: nat, size: nat, recordOk: bool, mapOk: Key -> bool) returns (status: Status, view: nat)
      requires Valid()
      modifies this`objects, this`attachments, this`table
      ensures Valid()
      ensures status != Done ==> objects == old(objects) && attachments == old(attachments) && table == old(table)
      ensures var m, views := WholePages(size), old(attachments);
              status == if size == 0 then InvalidArgument
                        else if size + pageSize > TWO64 || m > slotPages then NoSpace
                        else if o !in old(objects) || old(objects)[o].handles == 0 then NotFound
                        else if m > |old(objects)[o].backing| then InvalidArgument
                        else if exists a :: a in views && a.process == process && a.target == o then Done
                        else if forall s :: 0 <= s < slots ==> SlotTaken(views, process, s) then NoSpace
                        else if !recordOk then NoMemory
                        else if process in alive && forall slot: nat :: LowestFree(views, process, slot) ==>
                                  Mappable(Attachment(process, o, slot, SlotAt(slot), m), 0, m, mapOk) then Done
                        else MapFailed
      ensures status == Done ==>
                if exists a :: a in old(attachments) && a.process == process && a.target == o then
                  && objects == old(objects) && attachments == old(attachments) && table == old(table)
                  && exists a :: a in attachments && a.process == process && a.target == o && a.view == view
                else
                  && o in old(objects) && objects == old(objects)[o := old(objects)[o].(views := old(objects)[o].views + 1)]
                  && exists slot: nat :: LowestFree(old(attachments), process, slot) && view == SlotAt(slot)
                       && attachments == old(attachments) + [Attachment(process, o, slot, view, WholePages(size))]
    {
      hide SlotsOk, SizesOk, TablesOk, CountsOk, Keys, Shows, AgreeOutside, SlotAt;
      view := 0;
      if size == 0 { return InvalidArgument, view; }
      var m := WholePages(size);
      if m == 0 || m > slotPages { return NoSpace, view; }
      if o !in objects || objects[o].handles == 0 { return NotFound, view; }
      if m > |objects[o].backing| { return InvalidArgument, view; }
      var k := FindView(process, o);
      if k < |attachments| {
        assert attachments[k] in attachments;
        return Done, attachments[k].view;
      }
      var slot := FreeSlot(process);
      if slot == slots { return NoSpace, view; }
      assert LowestFree(attachments, process, slot);
      if !recordOk { return NoMemory, view; }
      if process !in alive { return MapFailed, view; }
      ghost var t0 := table;
      var a := Attachment(process, o, slot, SlotAt(slot), m);
      FreeSlotClear(a);
      var ok := MapBackingPages(process, a.view, objects[o].backing, 0, m, mapOk);
      if !ok {
        NothingMapped(t0, Keys(process, a.view, 0, m, pageSize));
        return MapFailed, view;
      }
      forall b | b in attachments
        ensures Keys(a.process, a.view, 0, a.viewPages, pageSize) !! Keys(b.process, b.view, 0, b.viewPages, pageSize)
      {
        NewKeysApart(a, b);
      }
      ViewAdded(a, t0);
      attachments := attachments + [a];
      objects := objects[o := objects[o].(views := objects[o].views + 1)];
      return Done, a.view;
    }

    /** A view can only be placed where the process has no view yet. */
    predicate Placeable(a: Attachment)
      reads this
    {
      && a.process in alive && a.slot < slots && a.view == SlotAt(a.slot) && a.viewPages <= slotPages
      && forall b :: b in attachments && b.process == a.process ==> b.slot != a.slot
    }

    /** Nothing is mapped in a free slot. */
    lemma FreeSlotClear(a: Attachment)
      requires Valid() && Placeable(a)
      ensures Clear(table, Keys(a.process, a.view, 0, a.viewPages, pageSize))
    {
      hide Shows, SlotAt, PageAt;
      forall x | x in Keys(a.process, a.view, 0, a.viewPages, pageSize) ensures x !in table {
        if x in table {
          var b :| b in attachments && b.process in alive && x in Keys(b.process, b.view, 0, b.viewPages, pageSize);
          NewKeysApart(a, b);
        }
      }
    }

    lemma NewKeysApart(a: Attachment, b: Attachment)
      requires 0 < pageSize && SlotsOk(attachments) && SizesOk(objects, attachments) && Placeable(a) && b in attachments
      ensures Keys(a.process, a.view, 0, a.viewPages, pageSize) !! Keys(b.process, b.view, 0, b.viewPages, pageSize)
    {
      hide Shows, SlotAt, PageAt;
      if a.process == b.process {
        forall i, j | 0 <= i < a.viewPages && 0 <= j < b.viewPages ensures PageAt(a.view, i, pageSize) != PageAt(b.view, j, pageSize) {
          if a.slot < b.slot { SlotStep(a.slot, b.slot); PagesApart(a.view, i, b.view, j); }
          else { SlotStep(b.slot, a.slot); PagesApart(b.view, j, a.view, i); }
        }
      }
    }

    lemma NothingMapped(t0: map<Key, nat>, k: set<Key>)
      requires AgreeOutside(table, t0, k) && Clear(t0, k) && forall x :: x in table ==> x in t0
      ensures table == t0
    {
      ClearAgreeEqual(table, t0, k);
    }

    /** One more view, with its pages mapped, keeps the state valid. */
    lemma ViewAdded(a: Attachment, t0: map<Key, nat>)
      requires 0 < pageSize && SlotsOk(attachments) && SizesOk(objects, attachments) && TablesOk(objects, attachments, t0) && CountsOk(objects, attachments)
      requires Placeable(a) && a.target in objects && a.viewPages <= |objects[a.target].backing|
      requires AgreeOutside(table, t0, Keys(a.process, a.view, 0, a.viewPages, pageSize))
      requires forall i :: 0 <= i < a.viewPages ==> var x := (a.process, PageAt(a.view, i, pageSize)); x in table && table[x] == objects[a.target].backing[i]
      requires forall b :: b in attachments ==> Keys(a.process, a.view, 0, a.viewPages, pageSize) !! Keys(b.process, b.view, 0, b.viewPages, pageSize)
      ensures var all, obs := attachments + [a], objects[a.target := objects[a.target].(views := objects[a.target].views + 1)];
              SlotsOk(all) && SizesOk(obs, all) && TablesOk(obs, all, table) && CountsOk(obs, all)
    {
      hide SlotsOk, SizesOk, TablesOk, CountsOk, Shows, Keys, AgreeOutside;
      var all, entry := attachments + [a], objects[a.target].(views := objects[a.target].views + 1);
      assert forall b :: b in all <==> b in attachments || b == a;
      ViewAddedSlots(a, entry);
      ViewAddedTables(a, entry, t0);
      assert Targets(all) == Targets(attachments) + [a.target];
      CountMore(objects, attachments, all, a.target, entry);
    }

    lemma ViewAddedSlots(a: Attachment, entry: Object)
      requires SlotsOk(attachments) && SizesOk(objects, attachments) && Placeable(a) && a.target in objects
      requires a.viewPages <= |objects[a.target].backing| && entry.backing == objects[a.target].backing
      ensures SlotsOk(attachments + [a]) && SizesOk(objects[a.target := entry], attachments + [a])
    {
      hide SlotAt;
      var all := attachments + [a];
      assert forall i :: 0 <= i < |attachments| ==> all[i] == attachments[i] && attachments[i] in attachments;
    }

    lemma ViewAddedTables(a: Attachment, entry: Object, t0: map<Key, nat>)
      requires SizesOk(objects, attachments) && TablesOk(objects, attachments, t0) && a.target in objects && a.process in alive
      requires a.viewPages <= |objects[a.target].backing| && entry.backing == objects[a.target].backing
      requires SizesOk(objects[a.target := entry], attachments + [a])
      requires AgreeOutside(table, t0, Keys(a.process, a.view, 0, a.viewPages, pageSize))
      requires forall i :: 0 <= i < a.viewPages ==> var x := (a.process, PageAt(a.view, i, pageSize)); x in table && table[x] == objects[a.target].backing[i]
      requires forall b :: b in attachments ==> Keys(a.process, a.view, 0, a.viewPages, pageSize) !! Keys(b.process, b.view, 0, b.viewPages, pageSize)
      ensures TablesOk(objects[a.target := entry], attachments + [a], table)
    {
      hide SizesOk, AgreeOutside, Keys, PageAt;
      var all, obs := attachments + [a], objects[a.target := entry];
      assert forall b :: b in all <==> b in attachments || b == a;
      var k := Keys(a.process, a.view, 0, a.viewPages, pageSize);
      SizesFacts(obs, all);
      SizesFacts(objects, attachments);
      forall b | b in all && b.process in alive ensures b.target in obs && b.viewPages <= |obs[b.target].backing| && Shows(table, b, obs[b.target].backing, 0, b.viewPages) {
        if b in attachments {
          ShowsKept(t0, table, b, objects[b.target].backing, k);
          assert obs[b.target].backing == objects[b.target].backing;
        }
      }
      forall x | x in table ensures Covered(all, x) {
        if x in k { assert a in all; } else {
          AgreeAt(table, t0, k, x);
          assert Covered(attachments, x);
        }
      }
    }

    lemma SizesFacts(objects: map<nat, Object>, all: seq<Attachment>)
      requires SizesOk(objects, all)
      ensures forall a :: a in all ==> a.target in objects && a.viewPages <= |objects[a.target].backing|
    {
    }

    /** Changing entries elsewhere leaves a view showing its pages. */
    lemma ShowsKept(t: map<Key, nat>, u: map<Key, nat>, b: Attachment, pages: seq<nat>, k: set<Key>)
      requires b.viewPages <= |pages| && Shows(t, b, pages, 0, b.viewPages) && AgreeOutside(u, t, k)
      requires k !! Keys(b.process, b.view, 0, b.viewPages, pageSize)
      ensures Shows(u, b, pages, 0, b.viewPages)
    {
      hide AgreeOutside, PageAt;
      forall i | 0 <= i < b.viewPages ensures var x := (b.process, PageAt(b.view, i, pageSize)); x in u && u[x] == pages[i] {
        var x := (b.process, PageAt(b.view, i, pageSize));
        assert x in Keys(b.process, b.view, 0, b.viewPages, pageSize);
        AgreeAt(u, t, k, x);
      }
    }

    lemma CountMore(objects: map<nat, Object>, all: seq<Attachment>, more: seq<Attachment>, o: nat, entry: Object)
      requires CountsOk(objects, all) && o in objects && Targets(more) == Targets(all) + [o]
      requires entry.views == objects[o].views + 1 && entry.handles == objects[o].handles
      ensures CountsOk(objects[o := entry], more)
    {
      assert multiset(Targets(more)) == multiset(Targets(all)) + multiset{o};
    }

    // -------------------------------------------------------------- letting go

    /** Like CountsOk, except that nothing may name o any longer. */
    ghost predicate CountsBut(objects: map<nat, Object>, all: seq<Attachment>, o: nat)
    {
      forall p :: p in objects ==> objects[p].views == multiset(Targets(all))[p] && (p != o ==> objects[p].handles + objects[p].views > 0)
    }

    /** release_object_if_unused: the object goes exactly if no handle and no view names it, and its pages with it. */
    method ReleaseUnused(o: nat)
      requires 0 < pageSize && 0 !in spare && o in objects
      requires SlotsOk(attachments) && SizesOk(objects, attachments) && TablesOk(objects, attachments, table) && CountsBut(objects, attachments, o)
      modifies this`objects, this`spare
      ensures Valid()
      ensures if old(objects)[o].handles == 0 && old(objects)[o].views == 0
              then objects == old(objects) - {o} && spare == old(spare) + (SetOf(old(objects)[o].backing) - {0})
              else objects == old(objects) && spare == old(spare)
    {
      hide SlotsOk, TablesOk, SizesOk, SetOf;
      if objects[o].handles != 0 || objects[o].views != 0 { return; }
      ghost var clean := FreePages(objects[o].backing);
      ObjectDropped(o);
      objects := objects - {o};
    }

    lemma ObjectDropped(o: nat)
      requires SizesOk(objects, attachments) && TablesOk(objects, attachments, table) && CountsBut(objects, attachments, o)
      requires o in objects && objects[o].views == 0
      ensures var obs := objects - {o}; SizesOk(obs, attachments) && TablesOk(obs, attachments, table) && CountsOk(obs, attachments)
    {
      hide Shows, Covered;
      var ts := Targets(attachments);
      forall a | a in attachments ensures a.target != o {
        var j :| 0 <= j < |attachments| && attachments[j] == a;
        assert ts[j] == a.target && ts[j] in multiset(ts);
      }
    }

    /** CloseFileMapping */
    method Close(o: nat) returns (status: Status)
      requires Valid()
      modifies this`objects, this`spare
      ensures Valid() && attachments == old(attachments) && table == old(table)
      ensures status == if o !in old(objects) || old(objects)[o].handles == 0 then NotFound else Done
      ensures status == NotFound ==> objects == old(objects) && spare == old(spare)
      ensures status == Done ==>
                var entry := old(objects)[o].(handles := old(objects)[o].handles - 1);
                if entry.handles == 0 && entry.views == 0
                then objects == old(objects) - {o} && spare == old(spare) + (SetOf(entry.backing) - {0})
                else objects == old(objects)[o := entry] && spare == old(spare)
    {
      hide SlotsOk, TablesOk, SizesOk, SetOf, Targets;
      if o !in objects || objects[o].handles == 0 { return NotFound; }
      ghost var before := objects;
      var entry := objects[o].(handles := objects[o].handles - 1);
      HandleGone(o, entry);
      objects := objects[o := entry];
      ReleaseUnused(o);
      assert before[o := entry] - {o} == before - {o};
      status := Done;
    }

    lemma HandleGone(o: nat, entry: Object)
      requires SizesOk(objects, attachments) && TablesOk(objects, attachments, table) && o in objects && entry.backing == objects[o].backing
      ensures SizesOk(objects[o := entry], attachments) && TablesOk(objects[o := entry], attachments, table)
    {
      hide Shows, Covered;
    }

    /** release_attachment: the view is unmapped and goes, the others stay, and the object goes with its last name. */
    method ReleaseView(k: nat)
      requires Valid() && k < |attachments|
      modifies this`objects, this`attachments, this`table, this`spare
      ensures Valid() && attachments == RemoveAt(old(attachments), k)
      ensures var a := old(attachments)[k];
              && a.target in old(objects) && old(objects)[a.target].views > 0
              && table == old(table) - Keys(a.process, a.view, 0, a.viewPages, pageSize)
              && var entry := old(objects)[a.target].(views := old(objects)[a.target].views - 1);
                 if entry.handles == 0 && entry.views == 0
                 then objects == old(objects) - {a.target} && spare == old(spare) + (SetOf(entry.backing) - {0})
                 else objects == old(objects)[a.target := entry] && spare == old(spare)
    {
      hide SlotsOk, TablesOk, SizesOk, CountsOk, CountsBut, SetOf, Targets, RemoveAt, Keys, Covered;
      ghost var before := objects;
      var a := attachments[k];
      NamedBy(k);
      var entry := objects[a.target].(views := objects[a.target].views - 1);
      ViewGone(k, entry);
      if a.process in alive { Unmap(a.process, a.view, 0, a.viewPages); } else { DeadClear(a); }
      attachments := RemoveAt(attachments, k);
      objects := objects[a.target := entry];
      ReleaseUnused(a.target);
      assert before[a.target := entry] - {a.target} == before - {a.target};
    }

    lemma NamedBy(k: nat)
      requires SizesOk(objects, attachments) && CountsOk(objects, attachments) && k < |attachments|
      ensures attachments[k].target in objects && objects[attachments[k].target].views > 0
    {
      var ts := Targets(attachments);
      assert attachments[k] in attachments && ts[k] in multiset(ts);
    }

    /** A process without a page table has no entries. */
    lemma DeadClear(a: Attachment)
      requires SizesOk(objects, attachments) && TablesOk(objects, attachments, table) && a.process !in alive
      ensures table == table - Keys(a.process, a.view, 0, a.viewPages, pageSize)
    {
      hide Shows;
      assert forall x :: x in Keys(a.process, a.view, 0, a.viewPages, pageSize) ==> !Covered(attachments, x);
    }

    /** Without view k, and with its pages unmapped, the rest is as it should be. */
    lemma ViewGone(k: nat, entry: Object)
      requires Valid() && k < |attachments| && attachments[k].target in objects
      requires entry == objects[attachments[k].target].(views := objects[attachments[k].target].views - 1)
      ensures var a, rest := attachments[k], RemoveAt(attachments, k);
              var obs, t := objects[a.target := entry], table - Keys(a.process, a.view, 0, a.viewPages, pageSize);
              SlotsOk(rest) && SizesOk(obs, rest) && TablesOk(obs, rest, t) && CountsBut(obs, rest, a.target)
    {
      hide SlotsOk, TablesOk, SizesOk, CountsOk, CountsBut;
      ViewGoneSlots(k, entry);
      ViewGoneTables(k, entry);
      ViewGoneCounts(k, entry);
    }

    lemma ViewGoneSlots(k: nat, entry: Object)
      requires SlotsOk(attachments) && SizesOk(objects, attachments) && k < |attachments|
      requires attachments[k].target in objects && entry.backing == objects[attachments[k].target].backing
      ensures SlotsOk(RemoveAt(attachments, k)) && SizesOk(objects[attachments[k].target := entry], RemoveAt(attachments, k))
    {
      hide RemoveAt, SlotAt;
      RemoveAtIndex(attachments, k);
      var rest := RemoveAt(attachments, k);
      forall a | a in rest ensures a in attachments {
        var j :| 0 <= j < |rest| && rest[j] == a;
        assert attachments[if j < k then j else j + 1] == a;
      }
    }

    lemma ViewGoneTables(k: nat, entry: Object)
      requires Valid() && k < |attachments| && attachments[k].target in objects
      requires entry.backing == objects[attachments[k].target].backing
      requires SizesOk(objects[attachments[k].target := entry], RemoveAt(attachments, k))
      ensures var a := attachments[k];
              TablesOk(objects[a.target := entry], RemoveAt(attachments, k), table - Keys(a.process, a.view, 0, a.viewPages, pageSize))
    {
      hide SlotsOk, SizesOk, RemoveAt, Keys, Shows, ViewsApart, CountsOk, PageAt;
      var a, rest := attachments[k], RemoveAt(attachments, k);
      var obs, gone := objects[a.target := entry], Keys(a.process, a.view, 0, a.viewPages, pageSize);
      RemoveAtIndex(attachments, k);
      SlotsAreApart(attachments);
      SizesFacts(objects, attachments);
      SizesFacts(obs, rest);
      forall b | b in rest && b.process in alive
        ensures b.target in obs && b.viewPages <= |obs[b.target].backing| && Shows(table - gone, b, obs[b.target].backing, 0, b.viewPages)
      {
        var i :| 0 <= i < |rest| && rest[i] == b;
        var j := if i < k then i else i + 1;
        assert attachments[j] == b && b in attachments;
        TwoViewsApart(k, j);
        Removal(table, gone);
        ShowsKept(table, table - gone, b, objects[b.target].backing, gone);
        assert obs[b.target].backing == objects[b.target].backing;
      }
      forall x | x in table - gone ensures Covered(rest, x) {
        assert Covered(attachments, x);
        CoveredStill(k, x);
      }
    }

    lemma CoveredStill(k: nat, x: Key)
      requires k < |attachments| && Covered(attachments, x)
      requires x !in Keys(attachments[k].process, attachments[k].view, 0, attachments[k].viewPages, pageSize)
      ensures Covered(RemoveAt(attachments, k), x)
    {
      hide Keys, RemoveAt;
      RemoveAtIndex(attachments, k);
      var rest := RemoveAt(attachments, k);
      var b :| b in attachments && b.process in alive && x in Keys(b.process, b.view, 0, b.viewPages, pageSize);
      var j :| 0 <= j < |attachments| && attachments[j] == b;
      assert rest[if j < k then j else j - 1] == b;
    }

    static lemma Removal(t: map<Key, nat>, k: set<Key>)
      ensures AgreeOutside(t - k, t, k)
    {
    }

    lemma TwoViewsApart(i: nat, j: nat)
      requires 0 < pageSize && ViewsApart(attachments, SlotBytes()) && SizesOk(objects, attachments) && i < |attachments| && j < |attachments| && i != j
      ensures var a, b := attachments[i], attachments[j];
              Keys(a.process, a.view, 0, a.viewPages, pageSize) !! Keys(b.process, b.view, 0, b.viewPages, pageSize)
    {
      hide ViewsApart, PageAt;
      var a, b := attachments[i], attachments[j];
      assert a in attachments && b in attachments;
      forall x | x in Keys(a.process, a.view, 0, a.viewPages, pageSize) ensures x !in Keys(b.process, b.view, 0, b.viewPages, pageSize) {
        var n :| 0 <= n < a.viewPages && x == (a.process, PageAt(a.view, n, pageSize));
        if x in Keys(b.process, b.view, 0, b.viewPages, pageSize) { SamePage(attachments, i, n, j, 0, b.viewPages); }
      }
    }

    lemma ViewGoneCounts(k: nat, entry: Object)
      requires CountsOk(objects, attachments) && k < |attachments| && attachments[k].target in objects
      requires entry == objects[attachments[k].target].(views := objects[attachments[k].target].views - 1)
      ensures CountsBut(objects[attachments[k].target := entry], RemoveAt(attachments, k), attachments[k].target)
    {
      var ts, us := Targets(attachments), Targets(RemoveAt(attachments, k));
      assert us == ts[..k] + ts[k + 1..] && ts == ts[..k] + [ts[k]] + ts[k + 1..];
      assert multiset(ts) == multiset(us) + multiset{ts[k]};
    }

    /** release_process_mappings: every view of the process goes, no other does. */
    method ReleaseProcess(process: nat)
      requires Valid()
      modifies this`objects, this`attachments, this`table, this`spare
      ensures Valid() && forall a :: a in attachments <==> a in old(attachments) && a.process != process
    {
      hide SlotsOk, TablesOk, SizesOk, CountsOk, SetOf, Keys, RemoveAt;
      var k := 0;
      while k < |attachments|
        invariant 0 <= k <= |attachments| && Valid()
        invariant forall j :: 0 <= j < k ==> attachments[j].process != process
        invariant forall a :: a in attachments ==> a in old(attachments)
        invariant forall a :: a in old(attachments) && a.process != process ==> a in attachments
        decreases |attachments| - k
      {
        if attachments[k].process != process {
          k := k + 1;
        } else {
          RestOf(attachments, k);
          ReleaseView(k);
        }
      }
    }

    static lemma RestOf(all: seq<Attachment>, k: nat)
      requires k < |all|
      ensures forall a :: a in RemoveAt(all, k) ==> a in all
      ensures forall a :: a in all && a != all[k] ==> a in RemoveAt(all, k)
      ensures |RemoveAt(all, k)| == |all| - 1 && forall j :: 0 <= j < k ==> RemoveAt(all, k)[j] == all[j]
    {
      assert all == all[..k] + [all[k]] + all[k + 1..];
    }
  }

  /** A view at page offset off is mapped behind its base but unmapped at its base: the entries it leaves behind are
      none exactly if the offset is zero. */
  lemma OffsetUnmapsIff(process: nat, view: nat, off: nat, n: nat, pageSize: nat)
    requires 0 < n && 0 < pageSize
    ensures Keys(process, view, off, off + n, pageSize) <= Keys(process, view, 0, n, pageSize) <==> off == 0
  {
    var x := (process, PageAt(view, off + n - 1, pageSize));
    assert x in Keys(process, view, off, off + n, pageSize);
    if off > 0 && x in Keys(process, view, 0, n, pageSize) {
      var i :| 0 <= i < n && PageAt(view, i, pageSize) == PageAt(view, off + n - 1, pageSize);
      Mappings.DifferentPages(view, off + n - 1, pageSize);
    }
  }

  /** After a growth, or when the allocator runs dry during one, the object owns its pages only if it had none before. */
  lemma GrowthKeepsOwnershipIff(b: seq<nat>, got: seq<nat>, before: set<nat>)
    requires Owns(b, before) && Distinct(got) && SetOf(got) <= before && 0 !in before
    ensures Owns(b + got, before - SetOf(got) + SetOf(b)) <==> b == []
    ensures Owns(b, before + SetOf(b)) <==> b == []
  {
    if b == [] {
      assert b + got == got;
    } else {
      assert b[0] in b && b[0] in b + got && b[0] in SetOf(b);
    }
  }
}
