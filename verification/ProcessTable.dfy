/** Processes and threads as the kernel lists them, and what destroying one of them does. */
module ProcessTable {
  import opened Seqs

  datatype State = Active | Exiting | Terminated

  datatype Status = Done | NotFound | AlreadyExists | Busy

  /** A process record; launcher is the id of the process that started it, 0 for none. */
  datatype Process = Process(launcher: nat, state: State, exitCode: int, permanent: bool,
                             list: seq<nat>, threadCount: nat, mainThread: nat)

  datatype Exit = Exit(id: nat, launcher: nat, code: int)

  /** order is the process list from head to tail; threads maps each thread to its process, 0 for none. */
  datatype Table = Table(order: seq<nat>, procs: map<nat, Process>, threads: map<nat, nat>, exits: seq<Exit>)

  // ---------------------------------------------------------------- what every call keeps

  /** The thread list of a process is exact, counted, and has a main thread iff it is not empty. */
  ghost predicate ListOk(p: Process)
  {
    && Distinct(p.list) && p.threadCount == |p.list|
    && (p.mainThread == 0 <==> p.list == []) && (p.list != [] ==> p.mainThread in p.list) && 0 !in p.list
  }

  /** Both lists agree on who a thread belongs to. */
  ghost predicate Linked(procs: map<nat, Process>, threads: map<nat, nat>)
  {
    && (forall t :: t in threads && threads[t] != 0 ==> threads[t] in procs && t in procs[threads[t]].list)
    && (forall p, t :: p in procs && t in procs[p].list ==> t in threads && threads[t] == p)
  }

  ghost predicate Ascending(order: seq<nat>) { forall i, j :: 0 <= i < j < |order| ==> order[i] < order[j] }

  /** The list is in order of creation, so that whoever launched a process stands before it. */
  ghost predicate Inv(s: Table)
  {
    && Distinct(s.order) && Ascending(s.order) && (forall p :: p in s.order <==> p in s.procs)
    && 0 !in s.procs && 0 !in s.threads
    && (forall p :: p in s.procs ==> ListOk(s.procs[p]) && s.procs[p].launcher < p)
    && Linked(s.procs, s.threads)
  }

  /** thread_count is also the number of global threads that name the process. */
  lemma CountIsGlobal(s: Table, p: nat)
    requires Inv(s) && p in s.procs
    ensures s.procs[p].threadCount == |set t | t in s.threads && s.threads[t] == p|
  {
    var l := s.procs[p].list;
    SetSize(l);
    assert (set t | t in s.threads && s.threads[t] == p) == SetOf(l);
  }

  lemma {:induction false} SetSize(s: seq<nat>)
    requires Distinct(s)
    ensures |SetOf(s)| == |s|
    decreases |s|
  {
    hide Distinct;
    if s == [] {
      assert SetOf(s) == {};
    } else {
      var rest := s[1..];
      HeadIsNew(s);
      SetSize(rest);
      assert SetOf(s) == {s[0]} + SetOf(rest) && {s[0]} !! SetOf(rest);
    }
  }

  lemma HeadIsNew(s: seq<nat>)
    requires Distinct(s) && s != []
    ensures Distinct(s[1..]) && s[0] !in s[1..] && forall x :: x in s <==> x == s[0] || x in s[1..]
  {
    assert s == [s[0]] + s[1..];
  }

  // ---------------------------------------------------------------- threads

  /** detach_thread, seen from the process. */
  function Detached(p: Process, t: nat): Process
  {
    var l := Without(p.list, t);
    p.(list := l, threadCount := if p.threadCount == 0 then 0 else p.threadCount - 1,
       mainThread := if p.mainThread == t then (if l == [] then 0 else l[0]) else p.mainThread)
  }

  function Attached(p: Process, t: nat): Process
  {
    p.(list := p.list + [t], threadCount := p.threadCount + 1, mainThread := if p.mainThread == 0 then t else p.mainThread)
  }

  lemma DetachedOk(p: Process, t: nat)
    requires ListOk(p) && t in p.list
    ensures ListOk(Detached(p, t)) && forall x :: x in Detached(p, t).list <==> x in p.list && x != t
    ensures |Detached(p, t).list| == |p.list| - 1
    ensures Detached(p, t).mainThread == if p.mainThread != t then p.mainThread else if |p.list| == 1 then 0 else Detached(p, t).list[0]
  {
    hide Without;
    WithoutMembers(p.list, t);
    var l := Without(p.list, t);
    assert l != [] ==> l[0] in l;
  }

  lemma AttachedOk(p: Process, t: nat)
    requires ListOk(p) && t !in p.list && t != 0
    ensures ListOk(Attached(p, t)) && forall x :: x in Attached(p, t).list <==> x in p.list || x == t
    ensures Attached(p, t).list == p.list + [t] && Attached(p, t).mainThread == if p.list == [] then t else p.mainThread
  {
    assert forall i :: 0 <= i < |p.list| ==> p.list[i] in p.list;
  }

  /** Unlink a thread from its process and from the global list. */
  function RemoveThread(s: Table, t: nat): Table
    requires t in s.threads
  {
    var p := s.threads[t];
    s.(threads := s.threads - {t}, procs := if p in s.procs then s.procs[p := Detached(s.procs[p], t)] else s.procs)
  }

  lemma RemoveThreadInv(s: Table, t: nat)
    requires Inv(s) && t in s.threads
    ensures Inv(RemoveThread(s, t))
  {
    hide Detached, ListOk;
    var p := s.threads[t];
    if p in s.procs {
      assert p != 0;
      DetachedOk(s.procs[p], t);
      DetachedKeeps(s.procs[p], t);
    }
  }

  lemma DetachedKeeps(p: Process, t: nat)
    ensures var q := Detached(p, t);
            q.launcher == p.launcher && q.state == p.state && q.exitCode == p.exitCode && q.permanent == p.permanent
  {
  }

  // ---------------------------------------------------------------- processes

  /** remember_exit_status */
  function Remembered(exits: seq<Exit>, id: nat, launcher: nat, code: int): seq<Exit>
  {
    if launcher == 0 then exits
    else
      var k := ExitAt(exits, id, launcher);
      if k < |exits| then exits[k := Exit(id, launcher, code)] else exits + [Exit(id, launcher, code)]
  }

  function ExitAt(exits: seq<Exit>, id: nat, launcher: nat): (k: nat)
    ensures k <= |exits|
  {
    if exits == [] || (exits[0].id == id && exits[0].launcher == launcher) then 0 else 1 + ExitAt(exits[1..], id, launcher)
  }

  /** What a survivor looks like once process p is gone. */
  function Orphaned(q: Process, p: nat): Process
  {
    if q.launcher == p then q.(launcher := 0) else q
  }

  /** The table without process p and its threads; whom it had launched loses the backlink. */
  function RemoveProcess(s: Table, p: nat): Table
    requires p in s.procs
  {
    Table(Without(s.order, p),
          map x | x in s.procs && x != p :: Orphaned(s.procs[x], p),
          map t | t in s.threads && s.threads[t] != p :: s.threads[t],
          Remembered(s.exits, p, s.procs[p].launcher, s.procs[p].exitCode))
  }

  lemma RemoveProcessInv(s: Table, p: nat)
    requires Inv(s) && p in s.procs
    ensures Inv(RemoveProcess(s, p))
  {
    hide Without, Remembered, ListOk, Ascending;
    WithoutMembers(s.order, p);
    WithoutAscending(s.order, p);
    var r := RemoveProcess(s, p);
    forall x | x in r.procs ensures ListOk(r.procs[x]) && r.procs[x].launcher < x {
      OrphanedKeeps(s.procs[x], p);
    }
    assert forall x :: x in r.procs ==> r.procs[x].list == s.procs[x].list;
  }

  /** What removing a process means for everyone else: processes and threads stay as they are except that whom it
      launched has no launcher, its own threads are gone, and its exit code is on record for its launcher. */
  lemma RemovedMeans(s: Table, p: nat)
    requires Inv(s) && p in s.procs
    ensures var r, me := RemoveProcess(s, p), s.procs[p];
            && (forall x :: x in r.procs <==> x in s.procs && x != p)
            && (forall x :: x in r.procs ==> r.procs[x] == s.procs[x].(launcher := if s.procs[x].launcher == p then 0 else s.procs[x].launcher))
            && (forall t :: t in r.threads <==> t in s.threads && s.threads[t] != p)
            && (forall t :: t in r.threads ==> r.threads[t] == s.threads[t])
            && (exists i :: 0 <= i < |s.order| && s.order[i] == p && r.order == s.order[..i] + s.order[i + 1..])
            && (if me.launcher == 0 then r.exits == s.exits else Exit(p, me.launcher, me.exitCode) in r.exits)
            && (forall e: Exit :: e.id != p || e.launcher != me.launcher ==> (e in r.exits <==> e in s.exits))
  {
    hide Remembered, ListOk, Linked, Without;
    RememberedMeans(s.exits, p, s.procs[p].launcher, s.procs[p].exitCode);
    WithoutFirst(s.order, p);
  }

  lemma RememberedMeans(exits: seq<Exit>, id: nat, launcher: nat, code: int)
    ensures var r := Remembered(exits, id, launcher, code);
            && (if launcher == 0 then r == exits else Exit(id, launcher, code) in r)
            && (forall e: Exit :: e.id != id || e.launcher != launcher ==> (e in r <==> e in exits))
  {
    if launcher != 0 {
      var k, x, r := ExitAt(exits, id, launcher), Exit(id, launcher, code), Remembered(exits, id, launcher, code);
      ExitAtFinds(exits, id, launcher);
      assert r[k] == x;
      assert forall i :: 0 <= i < |exits| && i != k ==> r[i] == exits[i];
    }
  }

  lemma {:induction false} ExitAtFinds(exits: seq<Exit>, id: nat, launcher: nat)
    ensures var k := ExitAt(exits, id, launcher); k < |exits| ==> exits[k].id == id && exits[k].launcher == launcher
  {
    if exits != [] { ExitAtFinds(exits[1..], id, launcher); }
  }

  lemma {:induction false} WithoutFirst(s: seq<nat>, x: nat)
    requires x in s
    ensures exists i :: 0 <= i < |s| && s[i] == x && Without(s, x) == s[..i] + s[i + 1..]
    decreases |s|
  {
    if s[0] == x {
      assert Without(s, x) == s[..0] + s[0 + 1..];
    } else {
      WithoutFirst(s[1..], x);
      var i :| 0 <= i < |s[1..]| && s[1..][i] == x && Without(s[1..], x) == s[1..][..i] + s[1..][i + 1..];
      CutTail(s, i + 1);
      assert s[i + 1] == x && Without(s, x) == s[..i + 1] + s[i + 1 + 1..];
    }
  }

  lemma CutTail(s: seq<nat>, i: nat)
    requires 0 < i < |s|
    ensures [s[0]] + (s[1..][..i - 1] + s[1..][i..]) == s[..i] + s[i + 1..]
  {
    assert s[1..][..i - 1] == s[1..i] && s[1..][i..] == s[i + 1..];
  }

  function NewProcess(permanent: bool): Process { Process(0, Active, 0, permanent, [], 0, 0) }

  /** The table with a new process at the tail of the list. */
  function WithProcess(s: Table, p: nat, permanent: bool): Table
  {
    s.(order := s.order + [p], procs := s.procs[p := NewProcess(permanent)])
  }

  lemma WithoutAscending(s: seq<nat>, x: nat)
    requires Ascending(s)
    ensures Ascending(Without(s, x))
  {
    hide Without;
    if x in s {
      WithoutFirst(s, x);
      var i :| 0 <= i < |s| && s[i] == x && Without(s, x) == s[..i] + s[i + 1..];
    } else {
      WithoutNone(s, x);
    }
  }

  lemma {:induction false} WithoutNone(s: seq<nat>, x: nat)
    requires x !in s
    ensures Without(s, x) == s
    decreases |s|
  {
    if s != [] { WithoutNone(s[1..], x); }
  }

  lemma WithProcessInv(s: Table, p: nat, permanent: bool)
    requires Inv(s) && p != 0 && forall x :: x in s.procs ==> x < p
    ensures Inv(WithProcess(s, p, permanent))
    ensures WithProcess(s, p, permanent) == Table(s.order + [p], s.procs[p := NewProcess(permanent)], s.threads, s.exits)
  {
    hide ListOk, NewProcess;
    NewProcessOk(permanent);
    assert forall i :: 0 <= i < |s.order| ==> s.order[i] in s.order;
  }

  lemma NewProcessOk(permanent: bool)
    ensures ListOk(NewProcess(permanent)) && NewProcess(permanent).launcher == 0 && NewProcess(permanent).list == []
  {
  }

  /** The table with a new thread that belongs to nobody yet. */
  function ListedAlone(s: Table, t: nat): Table { s.(threads := s.threads[t := 0]) }

  lemma ListedAloneInv(s: Table, t: nat)
    requires Inv(s) && t !in s.threads && t != 0
    ensures Inv(ListedAlone(s, t)) && ListedAlone(s, t) == Table(s.order, s.procs, s.threads[t := 0], s.exits)
  {
    hide ListOk, Distinct;
  }

  /** The table with a listed thread in its process. */
  function WithThread(s: Table, p: nat, t: nat): Table
    requires p in s.procs
  {
    s.(threads := s.threads[t := p], procs := s.procs[p := Attached(s.procs[p], t)])
  }

  lemma WithThreadInv(s: Table, p: nat, t: nat)
    requires Inv(s) && p in s.procs && t in s.threads && s.threads[t] == 0
    ensures Inv(WithThread(s, p, t))
    ensures WithThread(s, p, t) == Table(s.order, s.procs[p := Attached(s.procs[p], t)], s.threads[t := p], s.exits)
  {
    hide ListOk, Attached, Distinct;
    assert t !in s.procs[p].list;
    AttachedOk(s.procs[p], t);
    AttachedKeeps(s.procs[p], t);
  }

  lemma AttachedKeeps(p: Process, t: nat)
    ensures Attached(p, t).launcher == p.launcher && Attached(p, t).state == p.state
  {
  }

  ghost predicate NoneTerminated(procs: map<nat, Process>)
  {
    forall p :: p in procs ==> procs[p].state != Terminated
  }

  lemma OrphanedKeeps(q: Process, p: nat)
    ensures var o := Orphaned(q, p); (ListOk(q) ==> ListOk(o)) && o.launcher <= q.launcher && o.list == q.list
  {
  }

  // ---------------------------------------------------------------- the kernel's tables

  class Kernel {
    var order: seq<nat>
    var procs: map<nat, Process>
    var threads: map<nat, nat>
    var exits: seq<Exit>
    var nextPid: nat
    var nextThread: nat
    var processSlots: set<nat>      // process records in use
    var threadSlots: set<nat>       // thread records in use
    var stacks: set<nat>            // threads that hold a kernel stack
    var registered: set<nat>        // threads the object manager knows

    ghost function Value(): Table
      reads this
    {
      Table(order, procs, threads, exits)
    }

    /** Lists, ids and resources agree; a process being destroyed may be among the listed ones. */
    ghost predicate Sound()
      reads this
    {
      && Inv(Value()) && (forall p :: p in procs ==> p < nextPid) && (forall t :: t in threads ==> t < nextThread)
      && 0 < nextPid && 0 < nextThread
      && processSlots == procs.Keys && threadSlots == threads.Keys && stacks == threads.Keys && registered == threads.Keys
    }

    /** Between calls no listed process is terminated. */
    ghost predicate Valid()
      reads this
    {
      Sound() && NoneTerminated(procs)
    }

    constructor ()
      ensures Valid() && Value() == Table([], map[], map[], [])
    {
      order, procs, threads, exits, nextPid, nextThread := [], map[], map[], [], 1, 1;
      processSlots, threadSlots, stacks, registered := {}, {}, {}, {};
    }

    /** destroy_thread: the last thread of a live process takes the process with it. */
    method DestroyThread(t: nat) returns (ok: bool)
      requires Sound()
      modifies this
      ensures Sound() && nextPid == old(nextPid) && nextThread == old(nextThread) && (old(Valid()) ==> Valid())
      ensures ok == (t in old(threads)) && (!ok ==> Value() == old(Value()))
      ensures ok ==> Value() == ThreadDestroyed(old(Value()), t)
      decreases 2 * |threads|
    {
      hide Inv, RemoveThread, RemoveProcess, Detached, NoneTerminated;
      if t !in threads {
        return false;
      }
      ghost var s0 := Value();
      RemoveThreadInv(s0, t);
      RemoveThreadParts(s0, t);
      var p := threads[t];
      if p in procs {
        procs := procs[p := Detached(procs[p], t)];
      }
      threads := threads - {t};
      ReleaseThread(t);
      assert Value() == RemoveThread(s0, t);
      ok := true;
      if p in procs && procs[p].threadCount == 0 && procs[p].state != Terminated && !procs[p].permanent {
        var done := DestroyProcess(p);
      }
      DestroyedAlive(s0, t);
    }

    /** Registration, stack and record of a thread, each of which it still holds. */
    method ReleaseThread(t: nat)
      requires t in registered && t in stacks && t in threadSlots
      modifies this`registered, this`stacks, this`threadSlots
      ensures registered == old(registered) - {t} && stacks == old(stacks) - {t} && threadSlots == old(threadSlots) - {t}
    {
      registered := registered - {t};
      stacks := stacks - {t};
      threadSlots := threadSlots - {t};
    }

    /** Destroying a thread removes it and no other, and takes its process along exactly if it was the only thread of
        a process that is neither permanent nor being destroyed already. */
    static lemma ThreadDestroyedMeans(s: Table, t: nat)
      requires Inv(s) && t in s.threads
      ensures var r, p := ThreadDestroyed(s, t), s.threads[t];
              && (forall u :: u in r.threads <==> u in s.threads && u != t) && (forall u :: u in r.threads ==> r.threads[u] == s.threads[u])
              && (forall x :: x in s.procs && x != p ==> x in r.procs)
              && (p in s.procs ==>
                    && (p !in r.procs <==> s.procs[p].list == [t] && !s.procs[p].permanent && s.procs[p].state != Terminated)
                    && (p in r.procs ==> forall u :: u in r.procs[p].list <==> u in s.procs[p].list && u != t))
    {
      hide RemoveProcess, Detached, ListOk;
      RemoveThreadParts(s, t);
      var r, p := RemoveThread(s, t), s.threads[t];
      if p in s.procs {
        DetachedOk(s.procs[p], t);
        DetachedKeeps(s.procs[p], t);
        DetachedCount(s.procs[p], t);
        RemoveThreadInv(s, t);
        if r.procs[p].threadCount == 0 {
          RemovedMeans(r, p);
        }
      }
    }

    static lemma DetachedCount(p: Process, t: nat)
      requires ListOk(p) && t in p.list
      ensures Detached(p, t).threadCount == |p.list| - 1 && (|p.list| == 1 <==> p.list == [t])
    {
      hide Without;
      DetachedOk(p, t);
    }

    static lemma DestroyedAlive(s: Table, t: nat)
      requires t in s.threads
      ensures NoneTerminated(s.procs) ==> NoneTerminated(ThreadDestroyed(s, t).procs)
    {
      hide RemoveProcess, Detached;
      var r, p := RemoveThread(s, t), s.threads[t];
      if p in s.procs { DetachedKeeps(s.procs[p], t); }
      if p in r.procs { RemovedAlive(r, p); }
    }

    static lemma RemovedAlive(s: Table, p: nat)
      requires p in s.procs
      ensures (forall x :: x in s.procs && x != p ==> s.procs[x].state != Terminated) ==> NoneTerminated(RemoveProcess(s, p).procs)
    {
      hide Without, Remembered;
    }

    static lemma RemoveThreadParts(s: Table, t: nat)
      requires t in s.threads
      ensures var r := RemoveThread(s, t); var p := s.threads[t];
              && r.order == s.order && r.exits == s.exits && r.threads == s.threads - {t} && r.procs.Keys == s.procs.Keys
              && r.procs == if p in s.procs then s.procs[p := Detached(s.procs[p], t)] else s.procs
      ensures |s.threads - {t}| < |s.threads|
    {
      hide Detached;
      assert (s.threads - {t}).Keys == s.threads.Keys - {t};
      assert |s.threads.Keys| == |s.threads| && |(s.threads - {t}).Keys| == |s.threads - {t}|;
    }

    static ghost function ThreadDestroyed(s: Table, t: nat): Table
      requires t in s.threads
    {
      var r, p := RemoveThread(s, t), s.threads[t];
      if p in r.procs && r.procs[p].threadCount == 0 && r.procs[p].state != Terminated && !r.procs[p].permanent
      then RemoveProcess(r, p) else r
    }

    /** destroy_process: its threads one by one, then the process itself. */
    method DestroyProcess(p: nat) returns (ok: bool)
      requires Sound()
      modifies this
      ensures Sound() && nextPid == old(nextPid) && nextThread == old(nextThread) && (old(Valid()) ==> Valid())
      ensures ok == (p in old(procs)) && (!ok ==> Value() == old(Value()))
      ensures ok ==> Value() == RemoveProcess(old(Value()), p)
      decreases 2 * |threads| + 1
    {
      hide Inv, RemoveThread, RemoveProcess, Detached, Without, Remembered, Orphaned, NoneTerminated;
      if p !in procs {
        return false;
      }
      ghost var s0 := Value();
      MarkTerminated(s0, p);
      RemovedAlive(s0, p);
      AliveBut(s0, p);
      procs := procs[p := procs[p].(state := Terminated)];
      while procs[p].list != []
        invariant Sound() && nextPid == old(nextPid) && nextThread == old(nextThread)
        invariant p in procs && procs[p].state == Terminated && |threads| <= |old(threads)|
        invariant RemoveProcess(Value(), p) == RemoveProcess(s0, p)
        decreases |threads|
      {
        ghost var s1 := Value();
        var t := procs[p].list[0];
        OwnThread(s1, p, t);
        RemoveThreadParts(s1, t);
        RemoveThreadFirst(s1, p, t);
        var done := DestroyThread(t);
      }
      Unlink(p);
      ok := true;
    }

    /** The end of destroy_process: the exit status is remembered, whom it launched is orphaned, its record is released. */
    method Unlink(p: nat)
      requires Sound() && p in procs && procs[p].list == []
      modifies this`order, this`procs, this`exits, this`processSlots
      ensures Sound() && Value() == RemoveProcess(old(Value()), p)
    {
      hide Inv, RemoveProcess, Without, Remembered, Orphaned;
      ghost var s2 := Value();
      NoThreadsLeft(s2, p);
      RemoveProcessInv(s2, p);
      RemoveProcessParts(s2, p);
      exits := Remembered(exits, p, procs[p].launcher, procs[p].exitCode);
      procs := map x | x in procs && x != p :: Orphaned(procs[x], p);
      order := Without(order, p);
      assert procs == RemoveProcess(s2, p).procs;
      assert procs.Keys == s2.procs.Keys - {p} && p in processSlots;
      processSlots := processSlots - {p};
    }

    static lemma AliveBut(s: Table, p: nat)
      ensures NoneTerminated(s.procs) ==> forall x :: x in s.procs && x != p ==> s.procs[x].state != Terminated
    {
    }

    static lemma MarkTerminated(s: Table, p: nat)
      requires Inv(s) && p in s.procs
      ensures var r := s.(procs := s.procs[p := s.procs[p].(state := Terminated)]);
              Inv(r) && RemoveProcess(r, p) == RemoveProcess(s, p)
    {
      hide Without, Remembered, Orphaned, Distinct;
      var r := s.(procs := s.procs[p := s.procs[p].(state := Terminated)]);
      assert RemoveProcess(r, p).procs == RemoveProcess(s, p).procs;
    }

    static lemma OwnThread(s: Table, p: nat, t: nat)
      requires Inv(s) && p in s.procs && t in s.procs[p].list
      ensures t in s.threads && s.threads[t] == p
    {
      hide ListOk;
    }

    /** Removing a thread of p first makes no difference to removing p. */
    static lemma RemoveThreadFirst(s: Table, p: nat, t: nat)
      requires p in s.procs && t in s.threads && s.threads[t] == p
      ensures var r := RemoveThread(s, t);
              && p in r.procs && r.procs[p].state == s.procs[p].state
              && RemoveProcess(r, p) == RemoveProcess(s, p)
    {
      hide Without, Remembered, Orphaned;
      var r := RemoveThread(s, t);
      assert RemoveProcess(r, p).procs == RemoveProcess(s, p).procs;
      assert RemoveProcess(r, p).threads == RemoveProcess(s, p).threads;
    }

    static lemma NoThreadsLeft(s: Table, p: nat)
      requires Inv(s) && p in s.procs && s.procs[p].list == []
      ensures forall t :: t in s.threads ==> s.threads[t] != p
    {
      hide ListOk;
    }

    static lemma RemoveProcessParts(s: Table, p: nat)
      requires p in s.procs && forall t :: t in s.threads ==> s.threads[t] != p
      ensures var r := RemoveProcess(s, p);
              && r.order == Without(s.order, p) && r.threads == s.threads
              && r.procs == (map x | x in s.procs && x != p :: Orphaned(s.procs[x], p))
              && r.exits == Remembered(s.exits, p, s.procs[p].launcher, s.procs[p].exitCode)
    {
      hide Without, Remembered, Orphaned;
      assert RemoveProcess(s, p).threads == s.threads;
    }

    /** create_process: a new entry at the tail of the list; without a record, an address space or a registration
        the steps taken so far are undone. */
    method CreateProcess(permanent: bool, slotOk: bool, spaceOk: bool, registeredOk: bool) returns (p: nat)
      requires Valid()
      modifies this
      ensures Valid() && threads == old(threads) && exits == old(exits)
      ensures p == 0 <==> !slotOk || !spaceOk || !registeredOk
      ensures p == 0 ==> Value() == old(Value())
      ensures p != 0 ==> p == old(nextPid) && p !in old(procs) && order == old(order) + [p] && procs == old(procs)[p := NewProcess(permanent)]
    {
      hide Inv, WithProcess;
      if !slotOk { return 0; }
      p := nextPid;
      processSlots := processSlots + {p};
      nextPid := nextPid + 1;
      if !spaceOk || !registeredOk {
        processSlots := processSlots - {p};
        assert processSlots == procs.Keys;
        return 0;
      }
      WithProcessInv(Value(), p, permanent);
      order := order + [p];
      procs := procs[p := NewProcess(permanent)];
      assert procs.Keys == old(procs.Keys) + {p};
    }

    /** A launcher claims the process it has just started. */
    method SetLauncher(child: nat, launcher: nat)
      requires Valid() && child in procs && launcher < child
      modifies this`procs
      ensures Valid() && procs == old(procs)[child := old(procs)[child].(launcher := launcher)]
    {
      hide ListOk;
      SameList(procs[child], launcher);
      procs := procs[child := procs[child].(launcher := launcher)];
    }

    static lemma SameList(p: Process, launcher: nat)
      ensures ListOk(p) ==> ListOk(p.(launcher := launcher))
    {
    }

    /** attach_thread: a listed thread that belongs to nobody joins the process. */
    method AttachThread(p: nat, t: nat) returns (status: Status)
      requires Valid() && t in threads
      modifies this`procs, this`threads
      ensures Valid()
      ensures status == if p !in old(procs) then NotFound else if old(threads)[t] == p then AlreadyExists
                        else if old(threads)[t] != 0 then Busy else Done
      ensures status != Done ==> procs == old(procs) && threads == old(threads)
      ensures status == Done ==> threads == old(threads)[t := p] && procs == old(procs)[p := Attached(old(procs)[p], t)]
    {
      hide Inv, Attached, WithThread;
      if p !in procs { return NotFound; }
      if threads[t] == p { return AlreadyExists; }
      if threads[t] != 0 { return Busy; }
      WithThreadInv(Value(), p, t);
      AttachedKeeps(procs[p], t);
      threads := threads[t := p];
      procs := procs[p := Attached(procs[p], t)];
      assert procs.Keys == old(procs.Keys) && threads.Keys == old(threads.Keys);
      status := Done;
    }

    /** create_thread: record, stack, registration, the global list, then the process; each failure undoes the steps
        before it. */
    method CreateThread(parent: nat, slotOk: bool, stackOk: bool, registeredOk: bool) returns (t: nat)
      requires Valid()
      modifies this
      ensures Valid() && order == old(order) && exits == old(exits)
      ensures t == 0 <==> parent == 0 || parent !in old(procs) || !slotOk || !stackOk || !registeredOk
      ensures t == 0 ==> Value() == old(Value())
      ensures t != 0 ==> t !in old(threads) && threads == old(threads)[t := parent]
                         && procs == old(procs)[parent := Attached(old(procs)[parent], t)]
    {
      hide Inv, Attached, ListedAlone;
      if parent !in procs || !slotOk {
        return 0;
      }
      t := nextThread;
      nextThread := nextThread + 1;
      threadSlots := threadSlots + {t};
      if !stackOk {
        threadSlots := threadSlots - {t};
        assert threadSlots == threads.Keys;
        return 0;
      }
      stacks := stacks + {t};
      if !registeredOk {
        stacks := stacks - {t};
        threadSlots := threadSlots - {t};
        assert threadSlots == threads.Keys && stacks == threads.Keys;
        return 0;
      }
      registered := registered + {t};
      ListedAloneInv(Value(), t);
      threads := threads[t := 0];
      assert threads.Keys == old(threads.Keys) + {t};
      var status := AttachThread(parent, t);
      if status != Done {
        threads := threads - {t};
        ReleaseThread(t);
        assert threads == old(threads);
        return 0;
      }
      assert old(threads)[t := 0][t := parent] == old(threads)[t := parent];
    }
  }
}
