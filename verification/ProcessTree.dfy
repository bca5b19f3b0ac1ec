/** Ending a whole launcher tree while each destroyed process cuts the links below it. */
module ProcessTree {
  import opened Seqs
  import opened ProcessTable

  /** Following launcher links from cursor meets root. */
  function Climbs(procs: map<nat, Process>, cursor: nat, root: nat): bool
    decreases cursor
  {
    cursor != 0 && (cursor == root || (cursor in procs && procs[cursor].launcher < cursor && Climbs(procs, procs[cursor].launcher, root)))
  }

  /** process_is_in_tree */
  predicate InTree(procs: map<nat, Process>, p: nat, root: nat)
  {
    root != 0 && p in procs && (p == root || Climbs(procs, procs[p].launcher, root))
  }

  predicate LaunchedBy(procs: map<nat, Process>, p: nat, q: nat) { p in procs && procs[p].launcher == q != 0 }

  /** Each process on the path was launched by the next one. */
  ghost predicate LaunchPath(procs: map<nat, Process>, path: seq<nat>)
  {
    forall k, m :: 0 <= k < m < |path| && m == k + 1 ==> LaunchedBy(procs, path[k], path[m])
  }

  /** p was launched, directly or through others, by root. */
  ghost predicate Descends(procs: map<nat, Process>, p: nat, root: nat)
  {
    exists path :: path != [] && path[0] == p && path[|path| - 1] == root && LaunchPath(procs, path)
  }

  lemma DescendsNext(procs: map<nat, Process>, p: nat, root: nat)
    requires p in procs && procs[p].launcher != 0 && Descends(procs, procs[p].launcher, root)
    ensures Descends(procs, p, root)
  {
    var up := procs[p].launcher;
    var path :| path != [] && path[0] == up && path[|path| - 1] == root && LaunchPath(procs, path);
    var longer := [p] + path;
    forall k, m | 0 <= k < m < |longer| && m == k + 1 ensures LaunchedBy(procs, longer[k], longer[m]) {
      if k > 0 { assert LaunchedBy(procs, path[k - 1], path[m - 1]); }
    }
    assert LaunchPath(procs, longer) && longer[0] == p && longer[|longer| - 1] == root;
  }

  lemma {:induction false} PathClimbs(procs: map<nat, Process>, path: seq<nat>, root: nat)
    requires path != [] && path[|path| - 1] == root && LaunchPath(procs, path) && path[0] != 0
    requires forall x :: x in procs ==> procs[x].launcher < x
    ensures Climbs(procs, path[0], root)
    decreases |path|
  {
    if |path| > 1 {
      assert LaunchedBy(procs, path[0], path[1]);
      var rest := path[1..];
      forall k, m | 0 <= k < m < |rest| && m == k + 1 ensures LaunchedBy(procs, rest[k], rest[m]) {
        assert LaunchedBy(procs, path[k + 1], path[m + 1]);
      }
      PathClimbs(procs, rest, root);
    }
  }

  lemma {:induction false} ClimbsPath(procs: map<nat, Process>, cursor: nat, root: nat)
    requires Climbs(procs, cursor, root)
    ensures Descends(procs, cursor, root)
    decreases cursor
  {
    if cursor == root {
      assert LaunchPath(procs, [root]) && [root][0] == cursor;
    } else {
      ClimbsPath(procs, procs[cursor].launcher, root);
      DescendsNext(procs, cursor, root);
    }
  }

  /** The walk finds exactly the processes that descend from the root. */
  lemma InTreeIff(procs: map<nat, Process>, p: nat, root: nat)
    requires root != 0 && p in procs && p != 0 && forall x :: x in procs ==> procs[x].launcher < x
    ensures InTree(procs, p, root) <==> Descends(procs, p, root)
  {
    hide LaunchPath;
    if InTree(procs, p, root) {
      TrivialPath(procs, root);
      if p != root {
        ClimbsPath(procs, procs[p].launcher, root);
        DescendsNext(procs, p, root);
      }
    }
    if Descends(procs, p, root) {
      var path :| path != [] && path[0] == p && path[|path| - 1] == root && LaunchPath(procs, path);
      PathClimbs(procs, path, root);
    }
  }

  lemma TrivialPath(procs: map<nat, Process>, root: nat)
    ensures Descends(procs, root, root)
  {
    assert LaunchPath(procs, [root]) && [root][0] == root;
  }

  /** q is p with, at most, its launcher link cut. */
  predicate CutFrom(q: Process, p: Process)
  {
    q == p || q == p.(launcher := 0)
  }

  /** Every survivor is unchanged except for a possibly cut link. */
  ghost predicate Survivors(now: map<nat, Process>, before: map<nat, Process>)
  {
    forall p :: p in now ==> p in before && CutFrom(now[p], before[p])
  }

  /** Cutting links and removing processes never adds anyone to a tree. */
  lemma {:induction false} ClimbsLess(now: map<nat, Process>, before: map<nat, Process>, cursor: nat, root: nat)
    requires Survivors(now, before) && Climbs(now, cursor, root)
    ensures Climbs(before, cursor, root)
    decreases cursor
  {
    if cursor != root {
      var up := now[cursor].launcher;
      assert CutFrom(now[cursor], before[cursor]);
      assert up != 0 ==> before[cursor].launcher == up;
      ClimbsLess(now, before, up, root);
    }
  }

  lemma InTreeLess(now: map<nat, Process>, before: map<nat, Process>, p: nat, root: nat)
    requires Survivors(now, before) && InTree(now, p, root)
    ensures InTree(before, p, root)
  {
    if p != root {
      assert CutFrom(now[p], before[p]);
      ClimbsLess(now, before, now[p].launcher, root);
    }
  }

  // ---------------------------------------------------------------- marking

  predicate Condemned(procs: map<nat, Process>, p: nat, root: nat)
  {
    p in procs && InTree(procs, p, root) && !procs[p].permanent
  }

  function MarkedOne(p: Process, code: int): Process
  {
    p.(exitCode := code, state := if p.state == Terminated then Terminated else Exiting)
  }

  /** mark_process_tree_for_exit */
  ghost function Marked(procs: map<nat, Process>, root: nat, code: int): map<nat, Process>
  {
    map p | p in procs :: MarkedIf(procs, p, root, code)
  }

  function MarkedIf(procs: map<nat, Process>, p: nat, root: nat, code: int): Process
    requires p in procs
  {
    if Condemned(procs, p, root) then MarkedOne(procs[p], code) else procs[p]
  }

  /** The walk depends on the links only. */
  lemma {:induction false} ClimbsSame(a: map<nat, Process>, b: map<nat, Process>, cursor: nat, root: nat)
    requires a.Keys == b.Keys && forall p :: p in a ==> a[p].launcher == b[p].launcher
    ensures Climbs(a, cursor, root) == Climbs(b, cursor, root)
    decreases cursor
  {
    if cursor != 0 && cursor != root && cursor in a && a[cursor].launcher < cursor {
      ClimbsSame(a, b, a[cursor].launcher, root);
    }
  }

  // ---------------------------------------------------------------- removing while walking the list

  lemma RemovedSurvivors(s: Table, p: nat)
    requires p in s.procs
    ensures Survivors(RemoveProcess(s, p).procs, s.procs)
    ensures RemoveProcess(s, p).procs.Keys == s.procs.Keys - {p}
  {
    hide Without, Remembered;
  }

  lemma SurvivorsTwice(a: map<nat, Process>, b: map<nat, Process>, c: map<nat, Process>)
    requires Survivors(a, b) && Survivors(b, c)
    ensures Survivors(a, c)
  {
    assert forall p :: p in a ==> p in b;
  }

  lemma {:induction false} WithoutAt(s: seq<nat>, i: nat)
    requires Distinct(s) && i < |s|
    ensures Without(s, s[i]) == s[..i] + s[i + 1..]
    decreases i
  {
    if i > 0 {
      hide Distinct;
      TailDistinct(s, i);
      WithoutAt(s[1..], i - 1);
      assert Without(s, s[i]) == [s[0]] + Without(s[1..], s[i]);
      CutTail(s, i);
    }
  }

  lemma TailDistinct(s: seq<nat>, i: nat)
    requires Distinct(s) && 0 < i < |s|
    ensures Distinct(s[1..]) && s[1..][i - 1] == s[i] && s[0] != s[i]
  {
  }

  method IsInTree(k: Kernel, p: nat, root: nat) returns (b: bool)
    requires k.Valid() && p in k.procs
    ensures b == InTree(k.procs, p, root)
  {
    if root == 0 { return false; }
    if p == root { return true; }
    var cursor := k.procs[p].launcher;
    while cursor != 0
      invariant Climbs(k.procs, k.procs[p].launcher, root) == Climbs(k.procs, cursor, root)
      decreases cursor
    {
      if cursor == root { return true; }
      if cursor !in k.procs { return false; }
      cursor := k.procs[cursor].launcher;
    }
    b := false;
  }

  /** Halfway through marking: the first i processes of the list are decided. */
  ghost predicate Marking(before: map<nat, Process>, procs: map<nat, Process>, order: seq<nat>, i: nat, root: nat, code: int)
  {
    && i <= |order| && procs.Keys == before.Keys && (forall p :: p in order <==> p in before) && Distinct(order)
    && (forall p :: p in before ==> procs[p].launcher == before[p].launcher && procs[p].permanent == before[p].permanent)
    && (forall j :: 0 <= j < i ==> procs[order[j]] == MarkedIf(before, order[j], root, code))
    && (forall j :: i <= j < |order| ==> procs[order[j]] == before[order[j]])
  }

  lemma MarkingStep(before: map<nat, Process>, procs: map<nat, Process>, order: seq<nat>, i: nat, root: nat, code: int)
    requires Marking(before, procs, order, i, root, code) && i < |order|
    ensures var p := order[i];
            && p in procs && p in before && Condemned(before, p, root) == (InTree(procs, p, root) && !procs[p].permanent)
            && Marking(before, if Condemned(before, p, root) then procs[p := MarkedOne(procs[p], code)] else procs, order, i + 1, root, code)
  {
    hide Climbs;
    var p := order[i];
    assert p in order;
    ClimbsSame(procs, before, before[p].launcher, root);
  }

  lemma MarkingDone(before: map<nat, Process>, procs: map<nat, Process>, order: seq<nat>, root: nat, code: int)
    requires Marking(before, procs, order, |order|, root, code)
    ensures procs == Marked(before, root, code)
  {
    hide MarkedIf, Condemned, Distinct;
    forall p | p in before ensures procs[p] == MarkedIf(before, p, root, code) {
      var j :| 0 <= j < |order| && order[j] == p;
    }
    assert procs == Marked(before, root, code);
  }

  method MarkTree(k: Kernel, root: nat, code: int) returns (marked: nat)
    requires k.Valid()
    modifies k`procs
    ensures k.Valid() && k.procs == Marked(old(k.procs), root, code)
    ensures Condemned(old(k.procs), root, root) ==> marked > 0
  {
    hide Climbs, ListOk, Linked, Marking, MarkedIf, Condemned, InTree;
    ghost var before := k.procs;
    MarkingStart(k.procs, k.order, root, code);
    marked := 0;
    var i := 0;
    while i < |k.order|
      invariant 0 <= i <= |k.order| && k.Valid() && Marking(before, k.procs, k.order, i, root, code)
      invariant forall j :: 0 <= j < i && Condemned(before, k.order[j], root) ==> marked > 0
    {
      var p := k.order[i];
      MarkingStep(before, k.procs, k.order, i, root, code);
      var member := IsInTree(k, p, root);
      if member && !k.procs[p].permanent {
        MarkOne(k, p, code);
        marked := marked + 1;
      }
      i := i + 1;
    }
    MarkingDone(before, k.procs, k.order, root, code);
    if Condemned(before, root, root) {
      CondemnedListed(before, root, root);
      assert root in k.order;
    }
  }

  lemma CondemnedListed(procs: map<nat, Process>, p: nat, root: nat)
    requires Condemned(procs, p, root)
    ensures p in procs
  {
  }

  lemma MarkingStart(procs: map<nat, Process>, order: seq<nat>, root: nat, code: int)
    requires Distinct(order) && forall p :: p in order <==> p in procs
    ensures Marking(procs, procs, order, 0, root, code)
  {
    hide MarkedIf, Distinct;
    assert forall j :: 0 <= j < |order| ==> order[j] in order;
  }

  method MarkOne(k: Kernel, p: nat, code: int)
    requires k.Valid() && p in k.procs
    modifies k`procs
    ensures k.Valid() && k.procs == old(k.procs)[p := MarkedOne(old(k.procs)[p], code)]
  {
    hide Inv, MarkedOne, NoneTerminated;
    MarkedInv(k.Value(), p, code);
    k.procs := k.procs[p := MarkedOne(k.procs[p], code)];
  }

  lemma MarkedInv(s: Table, p: nat, code: int)
    requires Inv(s) && p in s.procs
    ensures var r := s.(procs := s.procs[p := MarkedOne(s.procs[p], code)]);
            Inv(r) && r.procs.Keys == s.procs.Keys && (NoneTerminated(s.procs) ==> NoneTerminated(r.procs))
  {
    hide Distinct;
  }

  // ---------------------------------------------------------------- who is destroyed at once

  /** The destroying loop passes over permanent processes and the exempt one. */
  predicate Spared(procs: map<nat, Process>, p: nat, exempt: nat)
  {
    p in procs && (procs[p].permanent || p == exempt)
  }

  /** From cursor up to the root every launcher is passed over. */
  predicate SparedUp(procs: map<nat, Process>, cursor: nat, root: nat, exempt: nat)
    decreases cursor
  {
    && cursor != 0 && cursor in procs && Spared(procs, cursor, exempt)
    && (cursor == root || (procs[cursor].launcher < cursor && SparedUp(procs, procs[cursor].launcher, root, exempt)))
  }

  /** A member that no other destroyed process stands above. */
  predicate Topmost(procs: map<nat, Process>, p: nat, root: nat, exempt: nat)
  {
    Condemned(procs, p, root) && p != exempt && (p == root || SparedUp(procs, procs[p].launcher, root, exempt))
  }

  /** Unless the root is exempt, it alone is destroyed at once: that cuts off everyone below it. */
  lemma OnlyTheRoot(procs: map<nat, Process>, p: nat, root: nat, exempt: nat)
    requires root in procs && root != 0 && !procs[root].permanent && root != exempt
    ensures Topmost(procs, p, root, exempt) <==> p == root
  {
    hide Climbs;
    if Topmost(procs, p, root, exempt) && p != root {
      SparedRoot(procs, procs[p].launcher, root, exempt);
      assert false;
    }
  }

  lemma {:induction false} SparedRoot(procs: map<nat, Process>, cursor: nat, root: nat, exempt: nat)
    requires SparedUp(procs, cursor, root, exempt)
    ensures Spared(procs, root, exempt) && Climbs(procs, cursor, root)
    decreases cursor
  {
    if cursor != root { SparedRoot(procs, procs[cursor].launcher, root, exempt); }
  }

  /** What is left once some of the processes are gone: who was launched by one of those has lost the link. */
  ghost predicate Cut(now: map<nat, Process>, all: map<nat, Process>)
  {
    && (forall p :: p in now ==> p in all)
    && (forall p :: p in now ==> now[p] == if Gone(now, all, all[p].launcher) then all[p].(launcher := 0) else all[p])
  }

  predicate Gone(now: map<nat, Process>, all: map<nat, Process>, p: nat) { p in all && p !in now }

  /** Halfway through the loop: only topmost members are gone, and those below limit all are. */
  ghost predicate Destroying(now: map<nat, Process>, all: map<nat, Process>, limit: nat, root: nat, exempt: nat)
  {
    && Cut(now, all) && root in all && root != 0 && !all[root].permanent
    && 0 !in all && (forall p :: p in all ==> all[p].launcher < p)
    && (forall p :: Gone(now, all, p) ==> Topmost(all, p, root, exempt))
    && (forall p :: p in now && p < limit ==> !Topmost(all, p, root, exempt))
  }

  /** Below the limit, climbing through what is left meets the root exactly where everybody on the way was passed over. */
  lemma {:induction false} ClimbExact(now: map<nat, Process>, all: map<nat, Process>, limit: nat, c: nat, root: nat, exempt: nat)
    requires Destroying(now, all, limit, root, exempt) && c in now && c < limit
    ensures Climbs(now, c, root) <==> SparedUp(all, c, root, exempt)
    decreases c
  {
    hide Cut, Destroying;
    OneStep(now, all, limit, c, root, exempt);
    var v := all[c].launcher;
    if c != root && v in now {
      ClimbExact(now, all, limit, v, root, exempt);
      if SparedUp(all, v, root, exempt) { SparedRoot(all, v, root, exempt); }
    }
  }

  lemma OneStep(now: map<nat, Process>, all: map<nat, Process>, limit: nat, c: nat, root: nat, exempt: nat)
    requires Destroying(now, all, limit, root, exempt) && c in now && c < limit
    ensures c != 0 && c in all && all[c].launcher < c && !Topmost(all, c, root, exempt)
    ensures root in all && root != 0 && !all[root].permanent
    ensures var v := all[c].launcher; now[c].launcher == if Gone(now, all, v) then 0 else v
    ensures var v := all[c].launcher; Gone(now, all, v) ==> !Spared(all, v, exempt)
  {
    hide Climbs, SparedUp;
  }

  /** So the loop destroys process p exactly if it is topmost in the original tree. */
  lemma VisitDecides(now: map<nat, Process>, all: map<nat, Process>, p: nat, root: nat, exempt: nat)
    requires Destroying(now, all, p, root, exempt) && p in now
    ensures InTree(now, p, root) && p != exempt && !now[p].permanent <==> Topmost(all, p, root, exempt)
  {
    hide Climbs, SparedUp;
    var u := all[p].launcher;
    assert now[p].permanent == all[p].permanent;
    if p != root && u in now {
      ClimbExact(now, all, p, u, root, exempt);
      if SparedUp(all, u, root, exempt) { SparedRoot(all, u, root, exempt); }
    } else if p != root {
      DeadEnd(now, 0, root, exempt);
      DeadEnd(now, u, root, exempt);
      DeadEnd(all, u, root, exempt);
      assert Gone(now, all, u) ==> !SparedUp(all, u, root, exempt) by { UnsparedEnds(all, u, root, exempt); }
    }
  }

  lemma DeadEnd(procs: map<nat, Process>, c: nat, root: nat, exempt: nat)
    ensures c == 0 || (c != root && c !in procs) ==> !Climbs(procs, c, root) && !SparedUp(procs, c, root, exempt)
  {
  }

  lemma UnsparedEnds(procs: map<nat, Process>, c: nat, root: nat, exempt: nat)
    ensures !Spared(procs, c, exempt) ==> !SparedUp(procs, c, root, exempt)
  {
  }

  // ---------------------------------------------------------------- the two destroying loops

  /** Destroy the process at list position i; the rest of the list stays in place. */
  method DestroyAt(k: Kernel, i: nat)
    requires k.Valid() && i < |k.order|
    modifies k
    ensures k.Valid() && k.order == old(k.order)[..i] + old(k.order)[i + 1..]
    ensures k.procs.Keys == old(k.procs).Keys - {old(k.order)[i]} && Survivors(k.procs, old(k.procs)) && Cut(k.procs, old(k.procs))
  {
    hide Survivors, Without, Remembered, ListOk, Linked, Cut, Ascending;
    var p := k.order[i];
    assert p in k.order;
    ghost var s := k.Value();
    WithoutAt(k.order, i);
    RemovedSurvivors(s, p);
    RemovedCut(s, p);
    RemovedOrder(s, p);
    var done := k.DestroyProcess(p);
  }

  lemma RemovedOrder(s: Table, p: nat)
    requires p in s.procs
    ensures RemoveProcess(s, p).order == Without(s.order, p)
  {
    hide Without, Remembered;
  }

  lemma RemovedCut(s: Table, p: nat)
    requires Inv(s) && p in s.procs
    ensures Cut(RemoveProcess(s, p).procs, s.procs)
  {
    hide RemoveProcess, Inv;
    RemovedMeans(s, p);
  }

  lemma CutTwice(a: map<nat, Process>, b: map<nat, Process>, c: map<nat, Process>)
    requires Cut(a, b) && Cut(b, c)
    ensures Cut(a, c)
  {
    assert forall p :: p in a ==> p in b && p in c;
  }

  // ---------------------------------------------------------------- terminate_process_tree

  /** A member that is not destroyed at once is marked; who was launched by a destroyed process has lost the link. */
  ghost predicate Ended(now: map<nat, Process>, before: map<nat, Process>, root: nat, code: int, exempt: nat)
  {
    && (forall p :: p in before ==> (p !in now <==> Topmost(before, p, root, exempt)))
    && (forall p :: p in now ==> p in before && now[p] == EndedOne(before, p, root, code, exempt))
  }

  ghost function EndedOne(before: map<nat, Process>, p: nat, root: nat, code: int, exempt: nat): Process
    requires p in before
  {
    var m := if Condemned(before, p, root) then before[p].(state := Exiting, exitCode := code) else before[p];
    m.(launcher := if Topmost(before, m.launcher, root, exempt) then 0 else m.launcher)
  }

  /** terminate_process_tree: exactly the topmost members go at once, the others are marked. */
  method TerminateTree(k: Kernel, root: nat, code: int, exempt: nat) returns (status: Status)
    requires k.Valid()
    modifies k
    ensures k.Valid()
    ensures status == if root !in old(k.procs) then NotFound else if old(k.procs)[root].permanent then Busy else Done
    ensures status != Done ==> k.Value() == old(k.Value())
    ensures status == Done ==> Ended(k.procs, old(k.procs), root, code, exempt)
    ensures status == Done ==> forall p :: Condemned(old(k.procs), p, root) ==>
              p !in k.procs || (k.procs[p].state == Exiting && k.procs[p].exitCode == code)
    ensures status == Done ==> forall p :: p in old(k.procs) && !Condemned(old(k.procs), p, root) ==>
              p in k.procs && CutFrom(k.procs[p], old(k.procs)[p])
    ensures status == Done ==> forall p :: p in k.procs ==> p in old(k.procs) && k.procs[p].permanent == old(k.procs)[p].permanent
    ensures status == Done && root != exempt && root != 0 ==> root !in k.procs
    ensures status == Done && Condemned(old(k.procs), exempt, root) ==> exempt in k.procs
    ensures forall p :: p in k.procs ==> p in old(k.procs)
  {
    hide Ended, Condemned, CutFrom, ListOk, Linked, Ascending, Distinct, Marked;
    if root !in k.procs { return NotFound; }
    if k.procs[root].permanent { return Busy; }
    ghost var before := k.procs;
    RootInTree(before, root);
    var marked := MarkTree(k, root, code);
    if marked == 0 {
      return NotFound;
    }
    ghost var all := k.procs;
    MarkedKeeps(before, root, code);
    DestroyTree(k, root, exempt, all);
    EndedAfter(k.procs, before, root, code, exempt);
    EndedMeans(k.procs, before, root, code, exempt);
    status := Done;
  }

  lemma MarkedKeeps(before: map<nat, Process>, root: nat, code: int)
    ensures var all := Marked(before, root, code);
            all.Keys == before.Keys && forall p :: p in all ==> all[p].launcher == before[p].launcher && all[p].permanent == before[p].permanent
  {
    hide Condemned;
  }

  lemma {:induction false} SparedSame(a: map<nat, Process>, b: map<nat, Process>, cursor: nat, root: nat, exempt: nat)
    requires a.Keys == b.Keys && forall p :: p in a ==> a[p].launcher == b[p].launcher && a[p].permanent == b[p].permanent
    ensures SparedUp(a, cursor, root, exempt) == SparedUp(b, cursor, root, exempt)
    decreases cursor
  {
    if cursor != 0 && cursor != root && cursor in a && a[cursor].launcher < cursor {
      SparedSame(a, b, a[cursor].launcher, root, exempt);
    }
  }

  /** Marking does not change who is topmost. */
  lemma MarkedTopmost(before: map<nat, Process>, p: nat, root: nat, code: int, exempt: nat)
    ensures Topmost(Marked(before, root, code), p, root, exempt) <==> Topmost(before, p, root, exempt)
  {
    hide Marked, Condemned, SparedUp;
    MarkedTree(before, p, root, code);
    MarkedKeeps(before, root, code);
    if Condemned(before, p, root) {
      CondemnedListed(before, p, root);
      SparedSame(Marked(before, root, code), before, before[p].launcher, root, exempt);
    }
  }

  lemma EndedAfter(now: map<nat, Process>, before: map<nat, Process>, root: nat, code: int, exempt: nat)
    requires var all := Marked(before, root, code);
             Cut(now, all) && forall p :: p in all ==> (p !in now <==> Topmost(all, p, root, exempt))
    requires forall p :: p in before ==> before[p].state != Terminated
    ensures Ended(now, before, root, code, exempt)
  {
    hide Topmost, Condemned;
    var all := Marked(before, root, code);
    forall p ensures Topmost(all, p, root, exempt) <==> Topmost(before, p, root, exempt) {
      MarkedTopmost(before, p, root, code, exempt);
    }
    forall p ensures Topmost(before, p, root, exempt) ==> p in before {
      TopmostListed(before, p, root, exempt);
    }
  }

  lemma TopmostListed(procs: map<nat, Process>, p: nat, root: nat, exempt: nat)
    ensures Topmost(procs, p, root, exempt) ==> p in procs && Condemned(procs, p, root) && p != exempt
  {
    hide SparedUp, InTree;
  }

  lemma EndedMeans(now: map<nat, Process>, before: map<nat, Process>, root: nat, code: int, exempt: nat)
    requires Ended(now, before, root, code, exempt)
    ensures forall p :: Condemned(before, p, root) ==> p !in now || (now[p].state == Exiting && now[p].exitCode == code)
    ensures forall p :: p in before && !Condemned(before, p, root) ==> p in now && CutFrom(now[p], before[p])
    ensures forall p :: p in now ==> p in before && now[p].permanent == before[p].permanent
    ensures Condemned(before, root, root) && root != exempt ==> root !in now
    ensures Condemned(before, exempt, root) ==> exempt in now
  {
    hide SparedUp, Topmost, Condemned;
    forall p ensures Topmost(before, p, root, exempt) ==> p in before && Condemned(before, p, root) && p != exempt {
      TopmostListed(before, p, root, exempt);
    }
    forall p ensures Condemned(before, p, root) ==> p in before && (p == root && p != exempt ==> Topmost(before, p, root, exempt)) {
      RootTopmost(before, p, root, exempt);
    }
  }

  lemma RootTopmost(procs: map<nat, Process>, p: nat, root: nat, exempt: nat)
    ensures Condemned(procs, p, root) ==> p in procs && (p == root && p != exempt ==> Topmost(procs, p, root, exempt))
  {
    hide SparedUp, InTree;
  }

  lemma SurvivorsSelf(a: map<nat, Process>)
    ensures Survivors(a, a)
  {
  }

  lemma RootInTree(procs: map<nat, Process>, root: nat)
    requires root in procs && root != 0 && !procs[root].permanent
    ensures Condemned(procs, root, root)
  {
  }

  /** Marking does not change who is in the tree. */
  lemma MarkedTree(before: map<nat, Process>, p: nat, root: nat, code: int)
    ensures Condemned(Marked(before, root, code), p, root) <==> Condemned(before, p, root)
  {
    hide Climbs;
    var all := Marked(before, root, code);
    assert forall x :: x in all ==> all[x].launcher == before[x].launcher;
    if p in before {
      ClimbsSame(all, before, before[p].launcher, root);
    }
  }

  lemma DestroyingStart(all: map<nat, Process>, root: nat, exempt: nat)
    requires root in all && !all[root].permanent && 0 !in all && forall p :: p in all ==> all[p].launcher < p
    ensures Destroying(all, all, 0, root, exempt)
  {
    hide Topmost;
  }

  /** What stands before position i in the list is what has a smaller id. */
  lemma DestroyingAt(now: map<nat, Process>, all: map<nat, Process>, order: seq<nat>, i: nat, root: nat, exempt: nat)
    requires Destroying(now, all, 0, root, exempt) && Ascending(order) && i < |order| && forall p :: p in order <==> p in now
    requires forall j :: 0 <= j < i ==> !Topmost(all, order[j], root, exempt)
    ensures Destroying(now, all, order[i], root, exempt)
  {
    hide Topmost, Cut;
    forall p | p in now && p < order[i] ensures !Topmost(all, p, root, exempt) {
      var j :| 0 <= j < |order| && order[j] == p;
      assert j < i;
    }
  }

  lemma DestroyingNext(next: map<nat, Process>, now: map<nat, Process>, all: map<nat, Process>, p: nat, root: nat, exempt: nat)
    requires Destroying(now, all, 0, root, exempt) && Cut(next, now) && next.Keys == now.Keys - {p} && Topmost(all, p, root, exempt)
    ensures Destroying(next, all, 0, root, exempt)
  {
    hide Topmost, Cut;
    CutTwice(next, now, all);
  }

  /** The destroying loop of terminate_process_tree: every destroyed process cuts off whom it launched, so that exactly
      the topmost members go. */
  method DestroyTree(k: Kernel, root: nat, exempt: nat, ghost all: map<nat, Process>)
    requires k.Valid() && k.procs == all && root in all && !all[root].permanent
    modifies k
    ensures k.Valid() && Cut(k.procs, all)
    ensures forall p :: p in all ==> (p !in k.procs <==> Topmost(all, p, root, exempt))
  {
    hide Climbs, InTree, ListOk, Linked, Destroying, Topmost, Cut, Ascending, Distinct;
    DestroyingStart(all, root, exempt);
    var i := 0;
    while i < |k.order|
      invariant 0 <= i <= |k.order| && k.Valid() && Destroying(k.procs, all, 0, root, exempt)
      invariant forall j :: 0 <= j < i ==> !Topmost(all, k.order[j], root, exempt)
      decreases |k.order| - i
    {
      var p := k.order[i];
      assert p in k.order;
      var member := IsInTree(k, p, root);
      ghost var now := k.procs;
      DestroyingAt(now, all, k.order, i, root, exempt);
      VisitDecides(now, all, p, root, exempt);
      if member && p != exempt && !k.procs[p].permanent {
        DestroyAt(k, i);
        DestroyingNext(k.procs, now, all, p, root, exempt);
      } else {
        i := i + 1;
      }
    }
    DestroyingEnd(k.procs, all, k.order, root, exempt);
  }

  lemma DestroyingEnd(now: map<nat, Process>, all: map<nat, Process>, order: seq<nat>, root: nat, exempt: nat)
    requires Destroying(now, all, 0, root, exempt) && forall p :: p in order <==> p in now
    requires forall j :: 0 <= j < |order| ==> !Topmost(all, order[j], root, exempt)
    ensures Cut(now, all) && forall p :: p in all ==> (p !in now <==> Topmost(all, p, root, exempt))
  {
    hide Topmost, Cut;
    forall p | p in all ensures p !in now <==> Topmost(all, p, root, exempt) {
      if p in now {
        var j :| 0 <= j < |order| && order[j] == p;
      } else {
        assert Gone(now, all, p);
      }
    }
  }

  /** reap_exiting: everything marked goes, except the running process and permanent ones. */
  method ReapExiting(k: Kernel, current: nat)
    requires k.Valid()
    modifies k
    ensures k.Valid() && Survivors(k.procs, old(k.procs))
    ensures forall p :: p in old(k.procs) ==>
              (p !in k.procs <==> old(k.procs)[p].state == Exiting && !old(k.procs)[p].permanent && p != current)
  {
    hide ListOk, Linked, Survivors;
    ghost var all := k.procs;
    SurvivorsSelf(all);
    var i := 0;
    while i < |k.order|
      invariant 0 <= i <= |k.order| && k.Valid() && Survivors(k.procs, all)
      invariant forall p :: p in all && p !in k.procs ==> Reapable(all[p]) && p != current
      invariant forall j :: 0 <= j < i ==> k.order[j] in k.procs && !(Reapable(k.procs[k.order[j]]) && k.order[j] != current)
      decreases |k.order| - i
    {
      var p := k.order[i];
      assert p in k.order;
      ghost var now := k.procs;
      KeptState(now, all, p);
      if p != current && k.procs[p].state == Exiting && !k.procs[p].permanent {
        DestroyAt(k, i);
        KeptStates(k.procs, now);
        SurvivorsTwice(k.procs, now, all);
      } else {
        i := i + 1;
      }
    }
    forall p | p in all ensures p !in k.procs <==> Reapable(all[p]) && p != current {
      if p in k.procs {
        assert p in k.order;
        KeptState(k.procs, all, p);
      }
    }
  }

  predicate Reapable(p: Process) { p.state == Exiting && !p.permanent }

  lemma KeptState(now: map<nat, Process>, all: map<nat, Process>, p: nat)
    requires Survivors(now, all) && p in now
    ensures p in all && Reapable(now[p]) == Reapable(all[p])
  {
  }

  lemma KeptStates(now: map<nat, Process>, all: map<nat, Process>)
    requires Survivors(now, all)
    ensures forall p :: p in now ==> p in all && Reapable(now[p]) == Reapable(all[p])
  {
  }

  /** After ending a tree and reaping, exactly the members and those that were exiting anyway are gone, permanent ones
      excepted; the running process goes only if it is topmost. */
  method TerminateAndReap(k: Kernel, root: nat, code: int, exempt: nat, current: nat) returns (status: Status)
    requires k.Valid()
    modifies k
    ensures k.Valid()
    ensures status == if root !in old(k.procs) then NotFound else if old(k.procs)[root].permanent then Busy else Done
    ensures root in old(k.procs) && !old(k.procs)[root].permanent ==>
              forall p :: Condemned(old(k.procs), p, root) && p != current ==> p !in k.procs
    ensures root in old(k.procs) && !old(k.procs)[root].permanent ==>
              forall p :: p in old(k.procs) ==>
                (p !in k.procs <==> if p == current then Topmost(old(k.procs), p, root, exempt)
                                    else Condemned(old(k.procs), p, root) || (old(k.procs)[p].state == Exiting && !old(k.procs)[p].permanent))
  {
    hide Ended, Condemned, Topmost, ListOk, Linked, Ascending, Distinct, CutFrom;
    ghost var before := k.procs;
    status := TerminateTree(k, root, code, exempt);
    if status == Done {
      ghost var ended := k.procs;
      ReapExiting(k, current);
      Reaped(k.procs, ended, before, root, code, exempt, current);
    }
  }

  lemma Reaped(now: map<nat, Process>, ended: map<nat, Process>, before: map<nat, Process>, root: nat, code: int, exempt: nat, current: nat)
    requires Ended(ended, before, root, code, exempt) && forall p :: p in now ==> p in ended
    requires forall p :: p in ended ==> (p !in now <==> ended[p].state == Exiting && !ended[p].permanent && p != current)
    ensures forall p :: p in before ==>
              (p !in now <==> if p == current then Topmost(before, p, root, exempt)
                              else Condemned(before, p, root) || (before[p].state == Exiting && !before[p].permanent))
  {
    hide Topmost, InTree;
    forall p ensures Topmost(before, p, root, exempt) ==> p in before && Condemned(before, p, root) && p != exempt {
      TopmostListed(before, p, root, exempt);
    }
  }
}
