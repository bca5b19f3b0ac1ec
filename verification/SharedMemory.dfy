/** Named shared-memory objects, their reference counts, and the per-process view slots. */
module SharedMemory {
  import opened Arith
  import opened Seqs

  const NAME_CAPACITY: nat := 64

  datatype Status = Done | InvalidArgument | NotFound | NoSpace | NoMemory | MapFailed

  /** A named object: requested size, pages behind it, base of its physical run, number of attachments. */
  datatype Object = Object(name: string, requested: nat, pages: nat, phys: nat, count: nat)

  datatype Attachment = Attachment(process: nat, target: nat, slot: nat)

  /** A virtual page of a process, counted from the start of the view window. */
  type Key = (nat, nat)

  /** How many view slots a process has, and how many pages fit one. */
  datatype Layout = Layout(slots: nat, slotPages: nat)

  /** The same letter in either case, or the same character. */
  predicate SameLetter(x: char, y: char)
  {
    x == y || ('A' <= x <= 'Z' && y as int == x as int + 32) || ('A' <= y <= 'Z' && x as int == y as int + 32)
  }

  /** Names are equal regardless of the case of ASCII letters. */
  predicate SameName(a: string, b: string)
  {
    |a| == |b| && forall i :: 0 <= i < |a| ==> SameLetter(a[i], b[i])
  }

  /** ascii_lower */
  function LowerChar(c: char): char
  {
    if 'A' <= c <= 'Z' then c - 'A' + 'a' else c
  }

  lemma LowerSame(x: char, y: char)
    ensures LowerChar(x) == LowerChar(y) <==> SameLetter(x, y)
  {
  }

  /** It is an equivalence. */
  lemma SameNameEquivalence(a: string, b: string, c: string)
    ensures SameName(a, a) && (SameName(a, b) ==> SameName(b, a)) && (SameName(a, c) && SameName(b, c) ==> SameName(a, b))
  {
    hide SameLetter, LowerChar;
    forall x, y ensures LowerChar(x) == LowerChar(y) <==> SameLetter(x, y) { LowerSame(x, y); }
  }

  /** same_text_case_insensitive */
  method SameText(a: string, b: string) returns (r: bool)
    ensures r <==> SameName(a, b)
  {
    hide SameLetter, LowerChar;
    var i := 0;
    while i < |a| && i < |b|
      invariant i <= |a| && i <= |b| && forall j :: 0 <= j < i ==> SameLetter(a[j], b[j])
    {
      LowerSame(a[i], b[i]);
      if LowerChar(a[i]) != LowerChar(b[i]) { return false; }
      i := i + 1;
    }
    r := |a| == i && |b| == i;
  }

  /** text_fits_capacity: neither empty nor too long for the slot with its terminator. */
  predicate NameFits(name: string) { 0 < |name| < NAME_CAPACITY }

  // ---------------------------------------------------------------- counting

  function CountOf(as_: seq<Attachment>, o: nat): nat
  {
    if as_ == [] then 0 else (if as_[0].target == o then 1 else 0) + CountOf(as_[1..], o)
  }

  lemma {:induction false} CountPositive(as_: seq<Attachment>, o: nat)
    ensures CountOf(as_, o) > 0 <==> exists a :: a in as_ && a.target == o
    decreases |as_|
  {
    if as_ != [] {
      assert as_ == [as_[0]] + as_[1..];
      CountPositive(as_[1..], o);
      assert as_[0] in as_;
      if as_[0].target != o && exists a :: a in as_ && a.target == o {
        var a :| a in as_ && a.target == o;
        assert a in as_[1..];
      }
    }
  }

  lemma {:induction false} CountRemoved(as_: seq<Attachment>, k: nat, o: nat)
    requires k < |as_|
    ensures CountOf(as_, o) == CountOf(RemoveAt(as_, k), o) + (if as_[k].target == o then 1 else 0)
    decreases k
  {
    if k == 0 {
      assert RemoveAt(as_, 0) == as_[1..];
    } else {
      CountRemoved(as_[1..], k - 1, o);
      assert RemoveAt(as_, k)[0] == as_[0] && RemoveAt(as_, k)[1..] == RemoveAt(as_[1..], k - 1);
    }
  }

  // ---------------------------------------------------------------- what holds between calls

  /** An object exists exactly while attachments name it, and its count is their number. */
  ghost predicate Counted(objects: map<nat, Object>, as_: seq<Attachment>)
  {
    && (forall o :: o in objects ==> objects[o].count == CountOf(as_, o) && objects[o].count > 0)
    && (forall a :: a in as_ ==> a.target in objects)
  }

  lemma ExistsIffNamed(objects: map<nat, Object>, as_: seq<Attachment>, o: nat)
    requires Counted(objects, as_)
    ensures o in objects <==> exists a :: a in as_ && a.target == o
  {
    CountPositive(as_, o);
  }

  ghost predicate NamesDistinct(objects: map<nat, Object>)
  {
    forall o, p :: o in objects && p in objects && o != p ==> !SameName(objects[o].name, objects[p].name)
  }

  /** Views of one process use different slots; one process views an object at most once. */
  ghost predicate SlotsApart(as_: seq<Attachment>, l: Layout)
  {
    && (forall a :: a in as_ ==> a.slot < l.slots)
    && (forall i, j :: 0 <= i < j < |as_| && as_[i].process == as_[j].process ==>
          as_[i].slot != as_[j].slot && as_[i].target != as_[j].target)
  }

  /** No object is larger than the slot its views go into. */
  ghost predicate FitSlots(objects: map<nat, Object>, l: Layout)
  {
    forall o :: o in objects ==> objects[o].pages <= l.slotPages
  }

  /** shared_memory_slot_address, in pages. */
  function FirstPage(a: Attachment, l: Layout): nat { a.slot * l.slotPages }

  /** The virtual pages that a view of an object occupies. */
  function ViewKeys(o: Object, a: Attachment, l: Layout): (ks: set<Key>)
    ensures forall k :: k in ks <==> k.0 == a.process && FirstPage(a, l) <= k.1 < FirstPage(a, l) + o.pages
  {
    set n | FirstPage(a, l) <= n < FirstPage(a, l) + o.pages :: (a.process, n)
  }

  /** What the page table says inside a view. */
  function ViewMap(o: Object, a: Attachment, l: Layout): (m: map<Key, nat>)
    ensures m.Keys == ViewKeys(o, a, l)
  {
    map k | k in ViewKeys(o, a, l) :: o.phys + (k.1 - FirstPage(a, l))
  }

  /** Every page of the view is mapped to the page of the object it stands for. */
  ghost predicate Shows(o: Object, a: Attachment, table: map<Key, nat>, l: Layout)
  {
    forall k :: k in ViewKeys(o, a, l) ==> k in table && table[k] == o.phys + (k.1 - FirstPage(a, l))
  }

  /** The page tables hold exactly the pages of the views. */
  ghost predicate TablesMatch(objects: map<nat, Object>, as_: seq<Attachment>, table: map<Key, nat>, l: Layout)
  {
    && (forall a :: a in as_ ==> a.target in objects && Shows(objects[a.target], a, table, l))
    && (forall k :: k in table ==> exists a :: a in as_ && a.target in objects && k in ViewKeys(objects[a.target], a, l))
  }

  /** The physical pages of an object's run. */
  function RunPages(o: Object): (ps: set<nat>)
    ensures forall n :: n in ps <==> o.phys <= n < o.phys + o.pages
  {
    Consecutive(o.phys, o.pages)
  }

  function Consecutive(first: nat, n: nat): (ps: set<nat>)
    ensures forall x :: x in ps <==> first <= x < first + n
    decreases n
  {
    if n == 0 then {} else Consecutive(first, n - 1) + {first + n - 1}
  }

  /** The physical pages in use are exactly those of the objects, and no page backs two of them. */
  ghost predicate RunsMatch(objects: map<nat, Object>, held: set<nat>)
  {
    && (forall o :: o in objects ==> RunPages(objects[o]) <= held && objects[o].phys != 0)
    && (forall x :: x in held ==> exists o :: o in objects && x in RunPages(objects[o]))
    && (forall o, p :: o in objects && p in objects && o != p ==> RunPages(objects[o]) !! RunPages(objects[p]))
  }

  /** Like Counted, except that object x may have no attachment yet, or no longer. */
  ghost predicate CountedBut(objects: map<nat, Object>, as_: seq<Attachment>, x: nat)
  {
    && (forall o :: o in objects ==> objects[o].count == CountOf(as_, o) && (o != x ==> objects[o].count > 0))
    && (forall a :: a in as_ ==> a.target in objects)
  }

  datatype Registry = Registry(objects: map<nat, Object>, views: seq<Attachment>, table: map<Key, nat>, held: set<nat>)

  ghost predicate Sound(r: Registry, l: Layout)
  {
    && NamesDistinct(r.objects) && FitSlots(r.objects, l) && SlotsApart(r.views, l)
    && TablesMatch(r.objects, r.views, r.table, l) && RunsMatch(r.objects, r.held)
  }

  ghost predicate Inv(r: Registry, l: Layout)
  {
    Sound(r, l) && Counted(r.objects, r.views)
  }

  /** Slots are disjoint page ranges, as wide as the largest object. */
  lemma SlotsDisjoint(o: Object, a: Attachment, p: Object, b: Attachment, l: Layout)
    requires o.pages <= l.slotPages && p.pages <= l.slotPages && a.slot != b.slot
    ensures ViewKeys(o, a, l) !! ViewKeys(p, b, l)
    ensures if a.slot < b.slot then FirstPage(a, l) + o.pages <= FirstPage(b, l) else FirstPage(b, l) + p.pages <= FirstPage(a, l)
  {
    if a.slot < b.slot { NextSlot(a, b, l); } else { NextSlot(b, a, l); }
  }

  lemma NextSlot(a: Attachment, b: Attachment, l: Layout)
    requires a.slot < b.slot
    ensures FirstPage(a, l) + l.slotPages <= FirstPage(b, l)
  {
    MulMono(a.slot + 1, b.slot, l.slotPages);
    assert (a.slot + 1) * l.slotPages == FirstPage(a, l) + l.slotPages;
  }

  /** The address range of a view, with the window at base. */
  function ViewStart(a: Attachment, l: Layout, pageSize: nat, base: nat): nat { base + a.slot * (l.slotPages * pageSize) }

  function ViewEnd(o: Object, a: Attachment, l: Layout, pageSize: nat, base: nat): nat
  {
    ViewStart(a, l, pageSize, base) + o.pages * pageSize
  }

  /** In every state between calls, two views of one process occupy disjoint address ranges and no page-table
      entry belongs to both. */
  lemma ViewsNeverOverlap(r: Registry, l: Layout, i: nat, j: nat, pageSize: nat, base: nat)
    requires Inv(r, l) && i < j < |r.views| && r.views[i].process == r.views[j].process
    ensures var a, b := r.views[i], r.views[j];
            && a.target in r.objects && b.target in r.objects
            && (|| ViewEnd(r.objects[a.target], a, l, pageSize, base) <= ViewStart(b, l, pageSize, base)
                || ViewEnd(r.objects[b.target], b, l, pageSize, base) <= ViewStart(a, l, pageSize, base))
            && ViewKeys(r.objects[a.target], a, l) !! ViewKeys(r.objects[b.target], b, l)
  {
    hide TablesMatch, RunsMatch, NamesDistinct, ViewStart, ViewEnd;
    var a, b := r.views[i], r.views[j];
    assert a in r.views && b in r.views;
    SlotsDisjoint(r.objects[a.target], a, r.objects[b.target], b, l);
    if a.slot < b.slot { RangesApart(r.objects[a.target], a, b, l, pageSize, base); }
    else { RangesApart(r.objects[b.target], b, a, l, pageSize, base); }
  }

  lemma RangesApart(o: Object, a: Attachment, b: Attachment, l: Layout, pageSize: nat, base: nat)
    requires a.slot < b.slot && o.pages <= l.slotPages
    ensures ViewEnd(o, a, l, pageSize, base) <= ViewStart(b, l, pageSize, base)
  {
    var bytes := l.slotPages * pageSize;
    MulMono(o.pages, l.slotPages, pageSize);
    MulMono(a.slot + 1, b.slot, bytes);
    assert (a.slot + 1) * bytes == a.slot * bytes + bytes;
  }

  // ---------------------------------------------------------------- the four registry updates

  function WithCount(objects: map<nat, Object>, o: nat, count: nat): map<nat, Object>
    requires o in objects
  {
    objects[o := objects[o].(count := count)]
  }

  function AddView(r: Registry, a: Attachment, l: Layout): Registry
    requires a.target in r.objects
  {
    var o := r.objects[a.target];
    r.(objects := WithCount(r.objects, a.target, o.count + 1), views := [a] + r.views, table := r.table + ViewMap(o, a, l))
  }

  function DropView(r: Registry, k: nat, l: Layout): Registry
    requires k < |r.views| && r.views[k].target in r.objects && r.objects[r.views[k].target].count > 0
  {
    var a := r.views[k];
    r.(objects := WithCount(r.objects, a.target, r.objects[a.target].count - 1), views := RemoveAt(r.views, k),
       table := r.table - ViewKeys(r.objects[a.target], a, l))
  }

  function AddObject(r: Registry, o: nat, entry: Object): Registry
  {
    r.(objects := r.objects[o := entry], held := r.held + RunPages(entry))
  }

  /** release_object_if_unused */
  function DropObject(r: Registry, o: nat): Registry
    requires o in r.objects
  {
    if r.objects[o].count != 0 then r else r.(objects := r.objects - {o}, held := r.held - RunPages(r.objects[o]))
  }

  lemma RecountSound(objects: map<nat, Object>, as_: seq<Attachment>, table: map<Key, nat>, held: set<nat>, o: nat, count: nat, l: Layout)
    requires o in objects && NamesDistinct(objects) && FitSlots(objects, l) && TablesMatch(objects, as_, table, l) && RunsMatch(objects, held)
    ensures var obs := WithCount(objects, o, count);
            NamesDistinct(obs) && FitSlots(obs, l) && TablesMatch(obs, as_, table, l) && RunsMatch(obs, held)
  {
    hide SameName, TablesMatch, RunsMatch;
    RecountRuns(objects, held, o, count);
    RecountTables(objects, as_, table, o, count, l);
  }

  lemma RecountRuns(objects: map<nat, Object>, held: set<nat>, o: nat, count: nat)
    requires o in objects && RunsMatch(objects, held)
    ensures RunsMatch(WithCount(objects, o, count), held)
  {
    hide RunPages;
    var obs := WithCount(objects, o, count);
    SameRun(objects[o], count);
    forall x | x in held ensures exists p :: p in obs && x in RunPages(obs[p]) {
      var p :| p in objects && x in RunPages(objects[p]);
      assert p in obs;
    }
  }

  lemma SameRun(o: Object, count: nat)
    ensures RunPages(o.(count := count)) == RunPages(o)
  {
  }

  lemma RecountTables(objects: map<nat, Object>, as_: seq<Attachment>, table: map<Key, nat>, o: nat, count: nat, l: Layout)
    requires o in objects && TablesMatch(objects, as_, table, l)
    ensures TablesMatch(WithCount(objects, o, count), as_, table, l)
  {
    hide ViewKeys, FirstPage;
    var obs := WithCount(objects, o, count);
    forall a: Attachment ensures ViewKeys(objects[o].(count := count), a, l) == ViewKeys(objects[o], a, l) {
      SameKeys(objects[o], count, a, l);
    }
    forall k | k in table ensures exists a :: a in as_ && a.target in obs && k in ViewKeys(obs[a.target], a, l) {
      var a :| a in as_ && a.target in objects && k in ViewKeys(objects[a.target], a, l);
      assert a.target in obs && k in ViewKeys(obs[a.target], a, l);
    }
  }

  lemma SameKeys(o: Object, count: nat, a: Attachment, l: Layout)
    ensures ViewKeys(o.(count := count), a, l) == ViewKeys(o, a, l)
  {
  }

  /** Mapping a view into a free slot leaves the other views as they were. */
  lemma TableGains(objects: map<nat, Object>, as_: seq<Attachment>, table: map<Key, nat>, a: Attachment, l: Layout)
    requires TablesMatch(objects, as_, table, l) && FitSlots(objects, l) && a.target in objects
    requires forall b :: b in as_ && b.process == a.process ==> b.slot != a.slot
    ensures TablesMatch(objects, [a] + as_, table + ViewMap(objects[a.target], a, l), l)
  {
    hide ViewKeys, FirstPage;
    var bs, t := [a] + as_, table + ViewMap(objects[a.target], a, l);
    assert forall b :: b in bs <==> b == a || b in as_;
    forall b | b in as_ ensures b.target in objects && ViewKeys(objects[b.target], b, l) !! ViewKeys(objects[a.target], a, l) {
      OtherKeys(objects, b, a, l);
    }
    forall k | k in t ensures exists b :: b in bs && b.target in objects && k in ViewKeys(objects[b.target], b, l) {
      if k in ViewKeys(objects[a.target], a, l) { assert a in bs; }
      else { var b :| b in as_ && b.target in objects && k in ViewKeys(objects[b.target], b, l); assert b in bs; }
    }
  }

  lemma OtherKeys(objects: map<nat, Object>, b: Attachment, a: Attachment, l: Layout)
    requires FitSlots(objects, l) && a.target in objects && b.target in objects
    requires b.process == a.process ==> b.slot != a.slot
    ensures ViewKeys(objects[b.target], b, l) !! ViewKeys(objects[a.target], a, l)
  {
    if b.process == a.process { SlotsDisjoint(objects[b.target], b, objects[a.target], a, l); }
  }

  lemma SlotsGain(as_: seq<Attachment>, l: Layout, a: Attachment)
    requires SlotsApart(as_, l) && a.slot < l.slots
    requires forall b :: b in as_ && b.process == a.process ==> b.slot != a.slot && b.target != a.target
    ensures SlotsApart([a] + as_, l)
  {
    assert forall i :: 0 <= i < |as_| ==> as_[i] in as_;
  }

  lemma AddViewCounts(objects: map<nat, Object>, as_: seq<Attachment>, a: Attachment)
    requires a.target in objects && CountedBut(objects, as_, a.target)
    ensures Counted(WithCount(objects, a.target, objects[a.target].count + 1), [a] + as_)
  {
    var bs, obs := [a] + as_, WithCount(objects, a.target, objects[a.target].count + 1);
    assert bs[1..] == as_;
    forall o | o in obs ensures obs[o].count == CountOf(bs, o) && obs[o].count > 0 {
      assert CountOf(bs, o) == CountOf(as_, o) + if a.target == o then 1 else 0;
    }
  }

  /** A view in a free slot keeps the registry right, also when its object has no other view. */
  lemma AddViewInv(r: Registry, l: Layout, a: Attachment)
    requires Sound(r, l) && a.target in r.objects && CountedBut(r.objects, r.views, a.target) && a.slot < l.slots
    requires forall b :: b in r.views && b.process == a.process ==> b.slot != a.slot && b.target != a.target
    ensures Inv(AddView(r, a, l), l)
  {
    hide NamesDistinct, FitSlots, SlotsApart, TablesMatch, RunsMatch, Counted, CountedBut, WithCount, ViewMap;
    var o := r.objects[a.target];
    SlotsGain(r.views, l, a);
    TableGains(r.objects, r.views, r.table, a, l);
    AddViewCounts(r.objects, r.views, a);
    RecountSound(r.objects, [a] + r.views, r.table + ViewMap(o, a, l), r.held, a.target, o.count + 1, l);
  }

  lemma SlotsLose(as_: seq<Attachment>, l: Layout, k: nat)
    requires SlotsApart(as_, l) && k < |as_|
    ensures SlotsApart(RemoveAt(as_, k), l)
    ensures forall b :: b in RemoveAt(as_, k) ==> b in as_ && (b.process, b.slot) != (as_[k].process, as_[k].slot)
  {
    var bs := RemoveAt(as_, k);
    assert forall i :: 0 <= i < |bs| ==> bs[i] == as_[if i < k then i else i + 1];
  }

  /** Unmapping a view leaves the other views as they were. */
  lemma TableLoses(objects: map<nat, Object>, as_: seq<Attachment>, table: map<Key, nat>, l: Layout, k: nat)
    requires TablesMatch(objects, as_, table, l) && FitSlots(objects, l) && SlotsApart(as_, l) && k < |as_| && as_[k].target in objects
    ensures TablesMatch(objects, RemoveAt(as_, k), table - ViewKeys(objects[as_[k].target], as_[k], l), l)
  {
    hide SlotsApart, ViewKeys, FirstPage, RemoveAt;
    SlotsLose(as_, l, k);
    var a, bs := as_[k], RemoveAt(as_, k);
    var t := table - ViewKeys(objects[a.target], a, l);
    forall b | b in bs ensures b.target in objects && ViewKeys(objects[b.target], b, l) !! ViewKeys(objects[a.target], a, l) {
      OtherKeys(objects, b, a, l);
    }
    forall key | key in t ensures exists b :: b in bs && b.target in objects && key in ViewKeys(objects[b.target], b, l) {
      var b :| b in as_ && b.target in objects && key in ViewKeys(objects[b.target], b, l);
      StillThere(as_, k, b);
    }
  }

  lemma StillThere(as_: seq<Attachment>, k: nat, b: Attachment)
    requires k < |as_| && b in as_ && b != as_[k]
    ensures b in RemoveAt(as_, k)
  {
    var i :| 0 <= i < |as_| && as_[i] == b;
    assert RemoveAt(as_, k)[if i < k then i else i - 1] == b;
  }

  lemma DropViewCounts(objects: map<nat, Object>, as_: seq<Attachment>, k: nat)
    requires Counted(objects, as_) && k < |as_|
    ensures as_[k].target in objects && objects[as_[k].target].count > 0
    ensures CountedBut(WithCount(objects, as_[k].target, objects[as_[k].target].count - 1), RemoveAt(as_, k), as_[k].target)
  {
    assert as_[k] in as_;
    var obs, bs := WithCount(objects, as_[k].target, objects[as_[k].target].count - 1), RemoveAt(as_, k);
    forall o | o in obs ensures obs[o].count == CountOf(bs, o) && (o != as_[k].target ==> obs[o].count > 0) {
      CountRemoved(as_, k, o);
    }
    assert forall i :: 0 <= i < |bs| ==> bs[i] == as_[if i < k then i else i + 1];
  }

  lemma DropViewSound(r: Registry, l: Layout, k: nat)
    requires Inv(r, l) && k < |r.views|
    ensures r.views[k].target in r.objects && r.objects[r.views[k].target].count > 0
    ensures var q := DropView(r, k, l); Sound(q, l) && CountedBut(q.objects, q.views, r.views[k].target)
  {
    hide NamesDistinct, FitSlots, SlotsApart, TablesMatch, RunsMatch, Counted, CountedBut, WithCount, RemoveAt, ViewKeys;
    var a := r.views[k];
    DropViewCounts(r.objects, r.views, k);
    SlotsLose(r.views, l, k);
    TableLoses(r.objects, r.views, r.table, l, k);
    RecountSound(r.objects, RemoveAt(r.views, k), r.table - ViewKeys(r.objects[a.target], a, l), r.held, a.target, r.objects[a.target].count - 1, l);
  }

  lemma NoneCounted(as_: seq<Attachment>, o: nat)
    requires CountOf(as_, o) == 0
    ensures forall a :: a in as_ ==> a.target != o
  {
    CountPositive(as_, o);
  }

  /** Releasing an object once nobody views it restores the registry's shape. */
  lemma DropObjectInv(r: Registry, l: Layout, o: nat)
    requires Sound(r, l) && o in r.objects && CountedBut(r.objects, r.views, o)
    ensures Inv(DropObject(r, o), l)
  {
    hide SlotsApart, SameName, CountOf, RunsMatch, TablesMatch, NamesDistinct, FitSlots, Counted, CountedBut;
    CountAt(r.objects, r.views, o);
    if r.objects[o].count == 0 {
      NoneCounted(r.views, o);
      RunsLose(r.objects, r.held, o);
      TablesLose(r.objects, r.views, r.table, o, l);
    }
  }

  /** Without views the object may go; with views its count is right. */
  lemma CountAt(objects: map<nat, Object>, as_: seq<Attachment>, o: nat)
    requires o in objects && CountedBut(objects, as_, o)
    ensures objects[o].count == CountOf(as_, o)
    ensures objects[o].count == 0 ==> Counted(objects - {o}, as_)
    ensures objects[o].count != 0 ==> Counted(objects, as_)
  {
    hide CountOf;
    if objects[o].count == 0 { NoneCounted(as_, o); }
  }

  lemma TablesLose(objects: map<nat, Object>, as_: seq<Attachment>, table: map<Key, nat>, o: nat, l: Layout)
    requires o in objects && TablesMatch(objects, as_, table, l) && NamesDistinct(objects) && FitSlots(objects, l)
    requires forall a :: a in as_ ==> a.target != o
    ensures TablesMatch(objects - {o}, as_, table, l) && NamesDistinct(objects - {o}) && FitSlots(objects - {o}, l)
  {
    hide SameName, ViewKeys, Shows;
    var obs := objects - {o};
    forall k | k in table ensures exists a :: a in as_ && a.target in obs && k in ViewKeys(obs[a.target], a, l) {
      var a :| a in as_ && a.target in objects && k in ViewKeys(objects[a.target], a, l);
      assert a.target in obs;
    }
  }

  lemma RunsLose(objects: map<nat, Object>, held: set<nat>, o: nat)
    requires RunsMatch(objects, held) && o in objects
    ensures RunsMatch(objects - {o}, held - RunPages(objects[o]))
  {
    hide RunPages;
    var obs, h := objects - {o}, held - RunPages(objects[o]);
    forall x | x in h ensures exists p :: p in obs && x in RunPages(obs[p]) {
      var p :| p in objects && x in RunPages(objects[p]);
      assert p in obs;
    }
  }

  lemma AddObjectSound(r: Registry, l: Layout, o: nat, entry: Object)
    requires Inv(r, l) && o !in r.objects && entry.count == 0 && entry.phys != 0 && entry.pages <= l.slotPages
    requires RunPages(entry) !! r.held && forall p :: p in r.objects ==> !SameName(r.objects[p].name, entry.name)
    ensures var q := AddObject(r, o, entry); Sound(q, l) && CountedBut(q.objects, q.views, o)
    ensures DropObject(AddObject(r, o, entry), o) == r
  {
    hide NamesDistinct, SlotsApart, TablesMatch, RunsMatch, SameName, CountOf, RunPages;
    var q := AddObject(r, o, entry);
    assert q.objects - {o} == r.objects && q.held - RunPages(entry) == r.held;
    CountPositive(r.views, o);
    NamesGain(r.objects, o, entry);
    RunsGain(r.objects, r.held, o, entry);
    TablesKeep(r.objects, r.views, r.table, o, entry, l);
  }

  lemma NamesGain(objects: map<nat, Object>, o: nat, entry: Object)
    requires NamesDistinct(objects) && forall p :: p in objects ==> !SameName(objects[p].name, entry.name)
    ensures NamesDistinct(objects[o := entry])
  {
    hide SameName;
    forall p | p in objects ensures !SameName(entry.name, objects[p].name) {
      SameNameEquivalence(entry.name, objects[p].name, entry.name);
    }
  }

  lemma RunsGain(objects: map<nat, Object>, held: set<nat>, o: nat, entry: Object)
    requires RunsMatch(objects, held) && o !in objects && entry.phys != 0 && RunPages(entry) !! held
    ensures RunsMatch(objects[o := entry], held + RunPages(entry))
  {
    hide RunPages;
    var obs, h := objects[o := entry], held + RunPages(entry);
    forall x | x in h ensures exists p :: p in obs && x in RunPages(obs[p]) {
      if x in RunPages(entry) { assert o in obs; }
      else { var p :| p in objects && x in RunPages(objects[p]); assert p in obs; }
    }
  }

  lemma TablesKeep(objects: map<nat, Object>, as_: seq<Attachment>, table: map<Key, nat>, o: nat, entry: Object, l: Layout)
    requires TablesMatch(objects, as_, table, l) && o !in objects
    ensures TablesMatch(objects[o := entry], as_, table, l)
  {
    hide ViewKeys, Shows;
    var obs := objects[o := entry];
    forall k | k in table ensures exists a :: a in as_ && a.target in obs && k in ViewKeys(obs[a.target], a, l) {
      var a :| a in as_ && a.target in objects && k in ViewKeys(objects[a.target], a, l);
      assert a.target in obs;
    }
  }

  /** Some view of the process occupies slot s. */
  ghost predicate SlotTaken(as_: seq<Attachment>, process: nat, s: nat)
  {
    exists a :: a in as_ && a.process == process && a.slot == s
  }

  // ---------------------------------------------------------------- the manager

  class Manager {
    const pageSize: nat
    const l: Layout
    var objects: map<nat, Object>
    var views: seq<Attachment>
    var table: map<Key, nat>
    var held: set<nat>

    ghost function Value(): Registry
      reads this
    {
      Registry(objects, views, table, held)
    }

    ghost predicate Valid()
      reads this
    {
      0 < pageSize && Inv(Value(), l)
    }

    constructor (pageSize: nat, l: Layout)
      requires 0 < pageSize
      ensures Valid() && Value() == Registry(map[], [], map[], {})
      ensures this.pageSize == pageSize && this.l == l
    {
      this.pageSize, this.l := pageSize, l;
      objects, views, table, held := map[], [], map[], {};
    }

    /** find_attachment */
    method FindView(process: nat, name: string) returns (k: nat)
      requires forall a :: a in views ==> a.target in objects
      ensures k <= |views|
      ensures k < |views| ==> views[k].process == process && views[k].target in objects && SameName(objects[views[k].target].name, name)
      ensures k == |views| ==> forall a :: a in views && a.process == process ==> !SameName(objects[a.target].name, name)
    {
      hide SameName;
      k := 0;
      while k < |views|
        invariant 0 <= k <= |views|
        invariant forall j :: 0 <= j < k && views[j].process == process ==> views[j] in views && !SameName(objects[views[j].target].name, name)
      {
        assert views[k] in views;
        if views[k].process == process {
          var same := SameText(objects[views[k].target].name, name);
          if same { return; }
        }
        k := k + 1;
      }
    }

    /** find_object_by_name */
    method FindObject(name: string) returns (found: bool, o: nat)
      ensures found ==> o in objects && SameName(objects[o].name, name)
      ensures !found ==> forall p :: p in objects ==> !SameName(objects[p].name, name)
    {
      hide SameName;
      var rest := objects.Keys;
      o := 0;
      while rest != {}
        invariant rest <= objects.Keys
        invariant forall p :: p in objects && p !in rest ==> !SameName(objects[p].name, name)
        decreases rest
      {
        o :| o in rest;
        var same := SameText(objects[o].name, name);
        if same { return true, o; }
        rest := rest - {o};
      }
      found := false;
    }

    /** process_uses_slot */
    method UsesSlot(process: nat, slot: nat) returns (b: bool)
      ensures b <==> SlotTaken(views, process, slot)
    {
      var i := 0;
      while i < |views|
        invariant 0 <= i <= |views|
        invariant forall j :: 0 <= j < i ==> !(views[j].process == process && views[j].slot == slot)
      {
        if views[i].process == process && views[i].slot == slot {
          assert views[i] in views;
          return true;
        }
        i := i + 1;
      }
      b := false;
    }

    /** find_free_slot: the lowest free slot; none only if the process uses all of them. */
    method FreeSlot(process: nat) returns (slot: nat)
      ensures slot <= l.slots
      ensures slot < l.slots ==> forall a :: a in views && a.process == process ==> a.slot != slot
      ensures forall s :: 0 <= s < slot ==> SlotTaken(views, process, s)
    {
      slot := 0;
      while slot < l.slots
        invariant 0 <= slot <= l.slots
        invariant forall s :: 0 <= s < slot ==> SlotTaken(views, process, s)
      {
        var used := UsesSlot(process, slot);
        if !used { return; }
        slot := slot + 1;
      }
    }

    /** The object a first acquire creates. */
    function NewObject(name: string, size: nat, run: nat): (o: Object)
      requires 0 < pageSize
      ensures size <= o.pages * pageSize < size + pageSize && o.requested == size && o.name == name && o.phys == run && o.count == 0
    {
      WholePages(size);
      Object(name, size, (size + (pageSize - 1)) / pageSize, run, 0)
    }

    /** What a successful acquire makes of the registry: nothing new if the process has the view already, and
        otherwise exactly one view in the given slot, of a new object if the name was unknown. */
    static ghost predicate Acquired(was: Registry, now: Registry, process: nat, name: string, slot: nat, fresh_: nat, entry: Object, l: Layout)
    {
      if HasView(was, process, name) then
        now == was && exists a :: a in was.views && a.process == process && a.slot == slot && Names(was.objects, a.target, name)
      else
        && LowestFree(was.views, process, slot, l)
        && if Named(was.objects, name)
           then exists o :: Names(was.objects, o, name) && now == AddView(was, Attachment(process, o, slot), l)
           else now == AddView(AddObject(was, fresh_, entry), Attachment(process, fresh_, slot), l)
    }

    static ghost predicate Names(objects: map<nat, Object>, o: nat, name: string) { o in objects && SameName(objects[o].name, name) }

    static ghost predicate Named(objects: map<nat, Object>, name: string) { exists o :: Names(objects, o, name) }

    static ghost predicate HasView(r: Registry, process: nat, name: string)
    {
      exists a :: a in r.views && a.process == process && Names(r.objects, a.target, name)
    }

    static ghost predicate LowestFree(as_: seq<Attachment>, process: nat, slot: nat, l: Layout)
    {
      slot < l.slots && !SlotTaken(as_, process, slot) && forall s :: 0 <= s < slot ==> SlotTaken(as_, process, s)
    }

    /** acquire: attach the process to the named object, creating it if need be, or change nothing at all.
        newObject is the record address a new object would get, run the first of the physical pages reserved for
        it (0 for none). */
    method Acquire(process: nat, name: string, size: nat, newObject: nat, objectRecord: bool, run: nat, viewRecord: bool, mapOk: bool)
      returns (status: Status, slot: nat)
      requires Valid() && newObject !in objects && (run != 0 ==> RunPages(NewObject(name, size, run)) !! held)
      modifies this
      ensures Valid()
      ensures status != Done ==> Value() == old(Value())
      ensures status == Done ==> Acquired(old(Value()), Value(), process, name, slot, newObject, NewObject(name, size, run), l)
      ensures var was := old(Value());
              status == if size > l.slotPages * pageSize || !(0 < |name| < 64) then InvalidArgument
                        else if HasView(was, process, name) then Done
                        else if !Named(was.objects, name) && size == 0 then NotFound
                        else if !Named(was.objects, name) && !objectRecord then NoSpace
                        else if !Named(was.objects, name) && run == 0 then NoMemory
                        else if exists o :: Names(was.objects, o, name) && size > was.objects[o].requested then NoSpace
                        else if (forall s :: 0 <= s < l.slots ==> SlotTaken(was.views, process, s)) || !viewRecord then NoSpace
                        else if !mapOk then MapFailed else Done
    {
      hide Inv, SameName, RunPages, AddView, AddObject;
      slot := 0;
      if size > l.slotPages * pageSize || !NameFits(name) {
        return InvalidArgument, slot;
      }
      ViewsNamed(Value(), l);
      var k := FindView(process, name);
      if k < |views| {
        assert views[k] in views;
        return Done, views[k].slot;
      }
      var found, o := FindObject(name);
      if !found && size == 0 {
        return NotFound, slot;
      }
      if found { OnlyOne(Value(), l, name, o); }
      SameNameEquivalence(name, name, name);
      if found && size != 0 && size > objects[o].requested {
        return NoSpace, slot;
      }
      if !found {
        if !objectRecord { return NoSpace, slot; }
        if run == 0 { return NoMemory, slot; }
        o := newObject;
        PagesFit(name, size, run);
        Create(o, NewObject(name, size, run));
      } else {
        CountedLoose(Value(), l, o);
      }
      slot := FreeSlot(process);
      assert slot < l.slots ==> !SlotTaken(views, process, slot);
      if slot == l.slots || !viewRecord || !mapOk {
        if !found { ReleaseObject(o); }
        return if slot == l.slots || !viewRecord then NoSpace else MapFailed, slot;
      }
      Attach(process, o, slot, name);
      status := Done;
    }

    lemma WholePages(size: nat)
      requires 0 < pageSize
      ensures size <= (size + (pageSize - 1)) / pageSize * pageSize < size + pageSize
    {
      assert size + (pageSize - 1) == (size + (pageSize - 1)) / pageSize * pageSize + (size + (pageSize - 1)) % pageSize;
    }

    /** A request that passes the size test fits one slot. */
    lemma PagesFit(name: string, size: nat, run: nat)
      requires 0 < pageSize && size <= l.slotPages * pageSize
      ensures NewObject(name, size, run).pages <= l.slotPages
    {
      var q := (size + (pageSize - 1)) / pageSize;
      assert size + (pageSize - 1) == q * pageSize + (size + (pageSize - 1)) % pageSize;
      if q > l.slotPages { OneMore(q, l.slotPages, pageSize); }
    }

    static lemma OneMore(q: int, n: int, d: nat)
      requires q > n
      ensures q * d >= n * d + d
    {
      MulMono(n + 1, q, d);
      assert (n + 1) * d == n * d + d;
    }

    /** A name belongs to one object. */
    static lemma OnlyOne(r: Registry, l: Layout, name: string, o: nat)
      requires Inv(r, l) && Names(r.objects, o, name)
      ensures forall p :: Names(r.objects, p, name) ==> p == o
    {
      hide SameName, FitSlots, SlotsApart, TablesMatch, RunsMatch, Counted;
      forall p | Names(r.objects, p, name) ensures p == o {
        SameNameEquivalence(r.objects[p].name, r.objects[o].name, name);
      }
    }

    static lemma ViewsNamed(r: Registry, l: Layout)
      requires Inv(r, l)
      ensures forall a :: a in r.views ==> a.target in r.objects
    {
    }

    static lemma CountedLoose(r: Registry, l: Layout, o: nat)
      requires Inv(r, l)
      ensures Sound(r, l) && CountedBut(r.objects, r.views, o)
    {
      hide NamesDistinct, SlotsApart, TablesMatch, RunsMatch;
    }

    method Create(o: nat, entry: Object)
      requires Inv(Value(), l) && o !in objects && entry.count == 0 && entry.phys != 0 && RunPages(entry) !! held
      requires entry.pages <= l.slotPages
      requires forall p :: p in objects ==> !SameName(objects[p].name, entry.name)
      modifies this`objects, this`held
      ensures Value() == AddObject(old(Value()), o, entry) && Sound(Value(), l) && CountedBut(objects, views, o)
      ensures DropObject(Value(), o) == old(Value()) && views == old(views) && objects == old(objects)[o := entry]
    {
      hide Inv, Sound, CountedBut, SameName, RunPages;
      AddObjectSound(Value(), l, o, entry);
      objects := objects[o := entry];
      held := held + RunPages(entry);
    }

    /** release_object_if_unused */
    method ReleaseObject(o: nat)
      requires Sound(Value(), l) && o in objects && CountedBut(objects, views, o)
      modifies this`objects, this`held
      ensures Value() == DropObject(old(Value()), o) && Inv(Value(), l)
    {
      hide Inv, Sound, CountedBut;
      DropObjectInv(Value(), l, o);
      if objects[o].count != 0 { return; }
      held := held - RunPages(objects[o]);
      objects := objects - {o};
    }

    method Attach(process: nat, o: nat, slot: nat, name: string)
      requires Sound(Value(), l) && o in objects && CountedBut(objects, views, o) && slot < l.slots
      requires forall a :: a in views && a.process == process ==> a.slot != slot
      requires SameName(objects[o].name, name)
      requires forall a :: a in views && a.process == process && a.target in objects ==> !SameName(objects[a.target].name, name)
      modifies this`objects, this`views, this`table
      ensures Value() == AddView(old(Value()), Attachment(process, o, slot), l) && Inv(Value(), l)
      ensures forall a :: a in views <==> a in old(views) || a == Attachment(process, o, slot)
      ensures SameName(objects[o].name, name)
    {
      hide Inv, Sound, SameName;
      var a := Attachment(process, o, slot);
      AddViewInv(Value(), l, a);
      table := table + ViewMap(objects[o], a, l);
      views := [a] + views;
      objects := objects[o := objects[o].(count := objects[o].count + 1)];
    }

    /** release_attachment: the view goes, and the object with its last view. */
    method ReleaseView(k: nat)
      requires Valid() && k < |views|
      modifies this
      ensures Valid() && views == RemoveAt(old(views), k)
      ensures old(views)[k].target in old(objects) && old(objects)[old(views)[k].target].count > 0
      ensures Value() == DropObject(DropView(old(Value()), k, l), old(views)[k].target)
    {
      hide Inv, Sound, CountedBut, RemoveAt;
      DropViewSound(Value(), l, k);
      var a := views[k];
      table := table - ViewKeys(objects[a.target], a, l);
      objects := objects[a.target := objects[a.target].(count := objects[a.target].count - 1)];
      views := RemoveAt(views, k);
      ReleaseObject(a.target);
    }

    /** release_process_mappings: every view of the process goes, no other does. */
    method ReleaseProcess(process: nat)
      requires Valid()
      modifies this
      ensures Valid()
      ensures forall a :: a in views <==> a in old(views) && a.process != process
    {
      hide Inv, DropObject, DropView;
      var k := 0;
      while k < |views|
        invariant 0 <= k <= |views| && Valid()
        invariant forall j :: 0 <= j < k ==> views[j].process != process
        invariant forall a :: a in views ==> a in old(views)
        invariant forall a :: a in old(views) && a.process != process ==> a in views
        decreases |views| - k
      {
        if views[k].process != process {
          k := k + 1;
        } else {
          RemovedMembers(views, k);
          ReleaseView(k);
        }
      }
    }

    static lemma RemovedMembers(as_: seq<Attachment>, k: nat)
      requires k < |as_|
      ensures forall a :: a in RemoveAt(as_, k) ==> a in as_
      ensures forall a :: a in as_ && a != as_[k] ==> a in RemoveAt(as_, k)
      ensures forall j :: 0 <= j < k ==> RemoveAt(as_, k)[j] == as_[j]
    {
      assert as_ == as_[..k] + [as_[k]] + as_[k + 1..];
    }
  }
}
