/** Callers, the dispatcher thread, kernel completions and the clock interleaving on the launch registry.
    A caller is named by the request id the kernel gave it; each action is one step no other thread can split. */
module LaunchProtocol {
  import opened Seqs
  import opened LaunchRegistry

  /** What the dispatcher thread has in its hands between critical sections. */
  datatype Dispatcher = Idle | Polled(c: Completion) | Holding(r: Request, c: Completion)

  datatype Callback = Success | Failure | Nothing

  /** One delivery, and the callback that ran. */
  datatype Call = Call(request: Request, result: Completion, at: nat, ran: Callback)

  /** user_launch_dispatch_result */
  function Dispatched(r: Request, c: Completion): Callback
  {
    if c.status >= 0 && c.pid >= 0 then (if r.onSuccess then Success else Nothing) else if r.onError then Failure else Nothing
  }

  function Delivery(r: Request, c: Completion, at: nat): Call { Call(r, c, at, Dispatched(r, c)) }

  datatype State = State(
    lists: Lists,
    started: bool,
    now: nat,
    nextId: nat,
    running: set<nat>,                      // launches the kernel has not finished
    queue: seq<Completion>,                 // finished, not polled
    issued: set<Completion>,                // every completion the kernel produced
    launched: set<nat>,                     // requests made with a callback
    unlinked: map<nat, Request>,            // callers before their registration
    starting: set<nat>,                     // callers about to start the dispatcher
    failing: set<nat>,                      // callers whose dispatcher did not start
    carried: map<nat, (Request, Completion)>, // callers about to run the callback themselves
    disp: Dispatcher,
    calls: seq<Call>,
    withdrawn: set<nat>,
    filed: set<nat>,                        // completions the dispatcher has filed
    unstored: set<nat>                      // filed, but no list node could be allocated
  )

  datatype Action =
    | Tick(later: nat)
    | Spawn(deadline: nat, onSuccess: bool, onError: bool)
    | SpawnBare
    | Finish(c: Completion)
    | Register(id: nat)
    | CallerDelivers(id: nat)
    | StartDispatcher(id: nat, ok: bool)
    | Withdraw(id: nat)
    | Poll
    | File(stored: bool)
    | Deliver
    | Expire(now0: nat, now1: nat, now2: nat, stored: bool)

  /** The failure that stands for a launch nobody heard of in time. */
  function TimeoutResult(id: nat, status: int): Completion
  {
    Completion(id, status, -1)
  }

  const TIMEOUT_STATUS: int := -1000

  ghost predicate Enabled(s: State, a: Action)
  {
    match a
    case Tick(later) => s.now <= later
    case Spawn(_, onSuccess, onError) => onSuccess || onError
    case SpawnBare => true
    case Finish(c) => c.id in s.running
    case Register(id) => id in s.unlinked
    case CallerDelivers(id) => id in s.carried
    case StartDispatcher(id, _) => id in s.starting
    case Withdraw(id) => id in s.failing
    case Poll => s.started && s.disp.Idle? && s.queue != []
    case File(_) => s.disp.Polled?
    case Deliver => s.disp.Holding?
    case Expire(now0, now1, now2, _) => s.started && s.disp.Idle? && s.now <= now0 <= now1 <= now2
  }

  ghost function Apply(s: State, a: Action): State
    requires Enabled(s, a)
  {
    match a
    case Tick(later) => s.(now := later)
    case Spawn(deadline, onSuccess, onError) =>
      s.(nextId := s.nextId + 1, running := s.running + {s.nextId}, launched := s.launched + {s.nextId},
         unlinked := s.unlinked[s.nextId := Request(s.nextId, deadline, onSuccess, onError)])
    case SpawnBare => s.(nextId := s.nextId + 1, running := s.running + {s.nextId})
    case Finish(c) => s.(running := s.running - {c.id}, queue := s.queue + [c], issued := s.issued + {c})
    case Register(id) =>
      var (lists, taken) := Registered(s.lists, s.unlinked[id]);
      if taken.Some? then s.(lists := lists, unlinked := s.unlinked - {id}, carried := s.carried[id := taken.value])
      else s.(lists := lists, unlinked := s.unlinked - {id}, starting := s.starting + {id})
    case CallerDelivers(id) =>
      s.(carried := s.carried - {id}, calls := s.calls + [Delivery(s.carried[id].0, s.carried[id].1, s.now)])
    case StartDispatcher(id, ok) =>
      if s.started || ok then s.(started := true, starting := s.starting - {id})
      else s.(starting := s.starting - {id}, failing := s.failing + {id})
    case Withdraw(id) =>
      var (lists, request) := Withdrawn(s.lists, id);
      s.(lists := lists, failing := s.failing - {id},
         withdrawn := if request.Some? then s.withdrawn + {id} else s.withdrawn)
    case Poll => s.(queue := s.queue[1..], disp := Polled(s.queue[0]))
    case File(stored) =>
      var c := s.disp.c;
      var (lists, request) := Completed(s.lists, c, s.now, stored);
      s.(lists := lists, filed := s.filed + {c.id}, unstored := if stored then s.unstored else s.unstored + {c.id},
         disp := if request.Some? then Holding(request.value, c) else Idle)
    case Deliver => s.(disp := Idle, calls := s.calls + [Delivery(s.disp.r, s.disp.c, s.now)])
    case Expire(now0, now1, now2, stored) =>
      var (lists, request) := TimedOut(s.lists, now0, now1, now2, stored);
      s.(lists := lists, now := now2,
         disp := if request.Some? then Holding(request.value, TimeoutResult(request.value.id, TIMEOUT_STATUS)) else Idle)
  }

  function Initial(now: nat): State
  {
    State(Lists([], [], []), false, now, 1, {}, [], {}, {}, map[], {}, {}, map[], Idle, [], {}, {}, {})
  }

  // ---------------------------------------------------------------- who owns a request

  ghost function PendingIds(p: seq<Request>): set<nat> { set r | r in p :: r.id }

  ghost function CalledIds(calls: seq<Call>): set<nat> { set c | c in calls :: c.request.id }

  ghost function CompletionIds(d: seq<Completion>): set<nat> { set c | c in d :: c.id }

  ghost function MarkedIds(g: seq<Marker>): set<nat> { set m | m in g :: m.id }

  ghost function HeldIds(d: Dispatcher): set<nat> { if d.Holding? then {d.r.id} else {} }

  /** Requests that left the pending list for a callback: being delivered, or delivered. */
  ghost function TakenIds(s: State): set<nat>
  {
    s.carried.Keys + HeldIds(s.disp) + CalledIds(s.calls)
  }

  ghost predicate DistinctRequests(p: seq<Request>)
  {
    forall i, j :: 0 <= i < j < |p| ==> p[i].id != p[j].id
  }

  ghost predicate DistinctCalls(c: seq<Call>)
  {
    forall i, j :: 0 <= i < j < |c| ==> c[i].request.id != c[j].request.id
  }

  /** Every request is in exactly one of unlinked, pending, taken or withdrawn. */
  ghost predicate Owned(s: State)
  {
    && s.unlinked.Keys !! PendingIds(s.lists.pending) !! s.carried.Keys !! HeldIds(s.disp) !! CalledIds(s.calls) !! s.withdrawn
    && s.unlinked.Keys + PendingIds(s.lists.pending) + TakenIds(s) + s.withdrawn == s.launched
    && DistinctRequests(s.lists.pending) && DistinctCalls(s.calls)
    && (forall id :: id in s.unlinked ==> s.unlinked[id].id == id)
    && (forall id :: id in s.carried ==> s.carried[id].0.id == id)
    && Below(s.launched, s.nextId)
  }

  ghost predicate Below(ids: set<nat>, bound: nat)
  {
    forall id :: id in ids ==> id < bound
  }

  ghost predicate DistinctCompletions(q: seq<Completion>)
  {
    forall i, j :: 0 <= i < j < |q| ==> q[i].id != q[j].id
  }

  ghost function PolledIds(d: Dispatcher): set<nat> { if d.Polled? then {d.c.id} else {} }

  /** The kernel finishes each launch at most once, and each completion is filed at most once. */
  ghost predicate KernelOk(s: State)
  {
    && s.running !! CompletionIds(s.queue) !! PolledIds(s.disp) !! s.filed
    && DistinctCompletions(s.queue)
    && Below(s.running, s.nextId) && Below(CompletionIds(s.queue), s.nextId) && Below(PolledIds(s.disp), s.nextId)
    && Below(s.filed, s.nextId)
  }

  /** No filed completion is waiting for a pending request, unless its node could not be allocated. */
  ghost predicate NotStranded(s: State)
  {
    && (forall id :: id in s.filed && id in PendingIds(s.lists.pending) ==> id in s.unstored)
    && (forall id :: id in s.filed && id in s.unlinked ==> id in CompletionIds(s.lists.deferred) || id in s.unstored)
    && CompletionIds(s.lists.deferred) <= s.filed
    && MarkedIds(s.lists.ignored) <= TakenIds(s)
  }

  /** Results reach the request they belong to; a timeout is only reported once the deadline has passed. */
  ghost predicate Fair(s: State, r: Request, c: Completion, at: nat)
  {
    c.id == r.id && (c in s.issued || (c == TimeoutResult(r.id, TIMEOUT_STATUS) && Expired(r, at)))
  }

  ghost predicate ResultsOk(s: State)
  {
    && (forall c :: c in s.queue ==> c in s.issued)
    && (forall c :: c in s.lists.deferred ==> c in s.issued)
    && (s.disp.Polled? ==> s.disp.c in s.issued)
    && (forall id :: id in s.carried ==> s.carried[id].1.id == id && s.carried[id].1 in s.issued)
    && (s.disp.Holding? ==> Fair(s, s.disp.r, s.disp.c, s.now))
    && (forall c :: c in s.calls ==> Fair(s, c.request, c.result, c.at) && c.ran == Dispatched(c.request, c.result))
  }

  ghost predicate Inv(s: State)
  {
    Owned(s) && KernelOk(s) && NotStranded(s) && ResultsOk(s)
  }

  // ---------------------------------------------------------------- list facts

  lemma WithoutMembers<T>(s: seq<T>, k: nat)
    requires k < |s|
    ensures forall x :: x in RemoveAt(s, k) ==> x in s
    ensures forall x :: x in s && x != s[k] ==> x in RemoveAt(s, k)
    ensures s[k] in s
  {
    var q := RemoveAt(s, k);
    assert forall i :: 0 <= i < |q| ==> q[i] == s[if i < k then i else i + 1];
    assert forall i :: 0 <= i < |s| && i != k ==> s[i] == q[if i < k then i else i - 1];
  }

  lemma RequestRemoved(p: seq<Request>, k: nat)
    requires DistinctRequests(p) && k < |p|
    ensures DistinctRequests(RemoveAt(p, k))
    ensures PendingIds(RemoveAt(p, k)) == PendingIds(p) - {p[k].id}
    ensures p[k].id in PendingIds(p)
  {
    hide RemoveAt;
    var q := RemoveAt(p, k);
    WithoutMembers(p, k);
    WithoutDistinct(p, k);
    forall id | id in PendingIds(p) && id != p[k].id ensures id in PendingIds(q) {
      var r :| r in p && r.id == id;
      assert r in q;
    }
    forall id | id in PendingIds(q) ensures id in PendingIds(p) && id != p[k].id {
      var r :| r in q && r.id == id;
      assert r in p;
    }
  }

  lemma WithoutDistinct(p: seq<Request>, k: nat)
    requires DistinctRequests(p) && k < |p|
    ensures DistinctRequests(RemoveAt(p, k))
    ensures forall r :: r in RemoveAt(p, k) ==> r.id != p[k].id
  {
    var q := RemoveAt(p, k);
    assert forall i :: 0 <= i < |q| ==> q[i] == p[if i < k then i else i + 1];
  }

  lemma RequestAdded(p: seq<Request>, r: Request)
    ensures PendingIds(p + [r]) == PendingIds(p) + {r.id}
    ensures DistinctRequests(p) && r.id !in PendingIds(p) ==> DistinctRequests(p + [r])
  {
    assert forall x :: x in p + [r] <==> x in p || x == r;
    forall id | id in PendingIds(p) + {r.id} ensures id in PendingIds(p + [r]) {
      if id == r.id { assert r in p + [r]; }
      else { var x :| x in p && x.id == id; assert x in p + [r]; }
    }
    assert forall i :: 0 <= i < |p| ==> p[i] in p;
  }

  lemma PendingFound(p: seq<Request>, id: nat)
    ensures PendingAt(p, id) < |p| <==> id in PendingIds(p)
  {
    var k := PendingAt(p, id);
    if k < |p| {
      assert p[k] in p;
    }
  }

  lemma DeferredFound(d: seq<Completion>, id: nat)
    ensures DeferredAt(d, id) < |d| <==> id in CompletionIds(d)
  {
    var k := DeferredAt(d, id);
    if k < |d| {
      assert d[k] in d;
    }
  }

  lemma DeferredAdded(d: seq<Completion>, c: Completion)
    ensures CompletionIds(d + [c]) == CompletionIds(d) + {c.id}
    ensures forall x :: x in d + [c] <==> x in d || x == c
  {
    assert forall x :: x in d + [c] <==> x in d || x == c;
    forall id | id in CompletionIds(d) + {c.id} ensures id in CompletionIds(d + [c]) {
      if id == c.id { assert c in d + [c]; }
      else { var x :| x in d && x.id == id; assert x in d + [c]; }
    }
  }

  lemma DeferredRemoved(d: seq<Completion>, k: nat)
    requires k < |d|
    ensures CompletionIds(d) - {d[k].id} <= CompletionIds(RemoveAt(d, k)) <= CompletionIds(d)
    ensures forall x :: x in RemoveAt(d, k) ==> x in d
  {
    hide RemoveAt;
    var q := RemoveAt(d, k);
    WithoutMembers(d, k);
    forall id | id in CompletionIds(d) && id != d[k].id ensures id in CompletionIds(q) {
      var r :| r in d && r.id == id;
      assert r in q;
    }
  }

  lemma CallAdded(calls: seq<Call>, c: Call)
    ensures CalledIds(calls + [c]) == CalledIds(calls) + {c.request.id}
    ensures DistinctCalls(calls) && c.request.id !in CalledIds(calls) ==> DistinctCalls(calls + [c])
    ensures forall x :: x in calls + [c] <==> x in calls || x == c
  {
    assert forall x :: x in calls + [c] <==> x in calls || x == c;
    forall id | id in CalledIds(calls) + {c.request.id} ensures id in CalledIds(calls + [c]) {
      if id == c.request.id { assert c in calls + [c]; }
      else { var x :| x in calls && x.request.id == id; assert x in calls + [c]; }
    }
    assert forall i :: 0 <= i < |calls| ==> calls[i] in calls;
  }

  lemma MarkersAfter(g: seq<Marker>, now: nat, id: nat)
    ensures MarkedIds(Pruned(g, now)) <= MarkedIds(g)
    ensures var p := Pruned(g, now); var k := IgnoredAt(p, id);
            if k < |p| then id in MarkedIds(g) && MarkedIds(RemoveAt(p, k)) <= MarkedIds(g)
            else id !in MarkedIds(p)
  {
    hide Pruned, IgnoredAt, RemoveAt;
    var p := Pruned(g, now);
    var k := IgnoredAt(p, id);
    if k < |p| {
      WithoutMembers(p, k);
    }
  }

  lemma MarkerAdded(g: seq<Marker>, m: Marker)
    ensures MarkedIds(g + [m]) <= MarkedIds(g) + {m.id}
  {
    assert forall x :: x in g + [m] <==> x in g || x == m;
  }

  // ---------------------------------------------------------------- each action keeps the invariant

  lemma StepSpawn(s: State, a: Action)
    requires Inv(s) && Enabled(s, a) && (a.Spawn? || a.SpawnBare?)
    ensures Inv(Apply(s, a))
  {
    hide Owned, KernelOk, NotStranded, ResultsOk, Apply;
    SpawnOwned(s, a);
    SpawnRest(s, a);
  }

  lemma SpawnOwned(s: State, a: Action)
    requires Inv(s) && Enabled(s, a) && (a.Spawn? || a.SpawnBare?)
    ensures Owned(Apply(s, a))
  {
    hide PendingIds, CalledIds, CompletionIds, MarkedIds, DistinctRequests, DistinctCalls, DistinctCompletions, NotStranded, ResultsOk, KernelOk;
    FreshId(s);
  }

  lemma SpawnRest(s: State, a: Action)
    requires Inv(s) && Enabled(s, a) && (a.Spawn? || a.SpawnBare?)
    ensures KernelOk(Apply(s, a)) && NotStranded(Apply(s, a)) && ResultsOk(Apply(s, a))
  {
    hide PendingIds, CalledIds, CompletionIds, MarkedIds, DistinctRequests, DistinctCalls, DistinctCompletions, Owned;
    FreshId(s);
  }

  /** The next id is nobody's yet. */
  lemma FreshId(s: State)
    requires Owned(s) && KernelOk(s)
    ensures var id := s.nextId;
            id !in s.launched && id !in s.running && id !in CompletionIds(s.queue) && id !in PolledIds(s.disp) && id !in s.filed
  {
    hide CompletionIds, PolledIds;
  }

  lemma StepFinish(s: State, a: Action)
    requires Inv(s) && Enabled(s, a) && a.Finish?
    ensures Inv(Apply(s, a))
  {
    hide PendingIds, CalledIds, CompletionIds, MarkedIds, DistinctRequests, DistinctCalls, DistinctCompletions;
    DeferredAdded(s.queue, a.c);
    QueueAdded(s.queue, a.c);
  }

  lemma StepRegister(s: State, a: Action)
    requires Inv(s) && Enabled(s, a) && a.Register?
    ensures Inv(Apply(s, a))
  {
    hide Inv, RemoveAt, PendingAt, DeferredAt, CompletionIds, PendingIds;
    var r := s.unlinked[a.id];
    assert r.id == a.id by { InvParts(s); }
    var pending := s.lists.pending + [r];
    RequestAdded(s.lists.pending, r);
    PendingFound(pending, r.id);
    DeferredFound(s.lists.deferred, r.id);
    if DeferredAt(s.lists.deferred, r.id) < |s.lists.deferred| {
      RegisterTaken(s, r, Apply(s, a));
    } else {
      RegisterPending(s, r, Apply(s, a));
    }
  }

  lemma InvParts(s: State)
    requires Inv(s)
    ensures Owned(s) && KernelOk(s) && NotStranded(s) && ResultsOk(s)
  {
  }

  lemma RegisterPending(s: State, r: Request, t: State)
    requires Inv(s) && r.id in s.unlinked && s.unlinked[r.id] == r && r.id !in CompletionIds(s.lists.deferred)
    requires t == s.(lists := s.lists.(pending := s.lists.pending + [r]), unlinked := s.unlinked - {r.id}, starting := s.starting + {r.id})
    ensures Inv(t)
  {
    hide PendingIds, CalledIds, CompletionIds, MarkedIds, DistinctRequests, DistinctCalls, DistinctCompletions, RemoveAt, Below;
    RequestAdded(s.lists.pending, r);
    assert r.id !in PendingIds(s.lists.pending);
  }

  /** A caller that finds its completion already deferred takes both. */
  ghost predicate TakesBoth(s: State, r: Request, t: State)
  {
    && r.id in s.unlinked && s.unlinked[r.id] == r && r.id in CompletionIds(s.lists.deferred)
    && var p := s.lists.pending + [r]; var d, k := DeferredAt(s.lists.deferred, r.id), PendingAt(p, r.id);
    && d < |s.lists.deferred| && k < |p|
    && t == s.(lists := s.lists.(pending := RemoveAt(p, k), deferred := RemoveAt(s.lists.deferred, d)),
               unlinked := s.unlinked - {r.id}, carried := s.carried[r.id := (p[k], s.lists.deferred[d])])
  }

  lemma RegisterTaken(s: State, r: Request, t: State)
    requires Inv(s) && TakesBoth(s, r, t)
    ensures Inv(t)
  {
    hide Owned, KernelOk, NotStranded, ResultsOk, TakesBoth;
    RegisterTakenOwned(s, r, t);
    RegisterTakenRest(s, r, t);
  }

  lemma TakenPending(s: State, r: Request, t: State)
    requires Inv(s) && TakesBoth(s, r, t)
    ensures r.id !in PendingIds(s.lists.pending) && PendingIds(t.lists.pending) == PendingIds(s.lists.pending)
    ensures DistinctRequests(t.lists.pending)
  {
    hide PendingIds, CalledIds, CompletionIds, MarkedIds, DistinctRequests, DistinctCalls, DistinctCompletions, RemoveAt, Below, PendingAt, DeferredAt, KernelOk, NotStranded, ResultsOk;
    var p := s.lists.pending + [r];
    RequestAdded(s.lists.pending, r);
    assert r.id !in PendingIds(s.lists.pending);
    RequestRemoved(p, PendingAt(p, r.id));
  }

  lemma RegisterTakenOwned(s: State, r: Request, t: State)
    requires Inv(s) && TakesBoth(s, r, t)
    ensures Owned(t)
  {
    hide PendingIds, CalledIds, CompletionIds, MarkedIds, DistinctRequests, DistinctCalls, DistinctCompletions, RemoveAt, Below, PendingAt, DeferredAt, KernelOk, NotStranded, ResultsOk;
    TakenPending(s, r, t);
  }

  lemma RegisterTakenRest(s: State, r: Request, t: State)
    requires Inv(s) && TakesBoth(s, r, t)
    ensures KernelOk(t) && NotStranded(t) && ResultsOk(t)
  {
    hide PendingIds, CalledIds, CompletionIds, MarkedIds, DistinctRequests, DistinctCalls, DistinctCompletions, RemoveAt, Below, PendingAt, DeferredAt, Owned;
    var d := DeferredAt(s.lists.deferred, r.id);
    TakenPending(s, r, t);
    DeferredRemoved(s.lists.deferred, d);
    assert s.lists.deferred[d] in s.lists.deferred;
  }

  lemma StepCallerDelivers(s: State, a: Action)
    requires Inv(s) && Enabled(s, a) && a.CallerDelivers?
    ensures Inv(Apply(s, a))
  {
    hide Owned, KernelOk, NotStranded, ResultsOk, Apply;
    CallerDeliversOwned(s, a);
    CallerDeliversRest(s, a);
  }

  lemma CallerDeliversOwned(s: State, a: Action)
    requires Inv(s) && Enabled(s, a) && a.CallerDelivers?
    ensures Owned(Apply(s, a))
  {
    hide PendingIds, CalledIds, CompletionIds, MarkedIds, DistinctRequests, DistinctCalls, DistinctCompletions, Below, NotStranded, ResultsOk, KernelOk;
    CallAdded(s.calls, Delivery(s.carried[a.id].0, s.carried[a.id].1, s.now));
  }

  lemma CallerDeliversRest(s: State, a: Action)
    requires Inv(s) && Enabled(s, a) && a.CallerDelivers?
    ensures KernelOk(Apply(s, a)) && NotStranded(Apply(s, a)) && ResultsOk(Apply(s, a))
  {
    hide PendingIds, CalledIds, CompletionIds, MarkedIds, DistinctRequests, DistinctCalls, DistinctCompletions, Below, HeldIds;
    CallAdded(s.calls, Delivery(s.carried[a.id].0, s.carried[a.id].1, s.now));
  }

  lemma StepWithdraw(s: State, a: Action)
    requires Inv(s) && Enabled(s, a) && a.Withdraw?
    ensures Inv(Apply(s, a))
  {
    hide Owned, KernelOk, NotStranded, ResultsOk, Apply;
    WithdrawOwned(s, a);
    WithdrawRest(s, a);
  }

  lemma WithdrawOwned(s: State, a: Action)
    requires Inv(s) && Enabled(s, a) && a.Withdraw?
    ensures Owned(Apply(s, a))
  {
    hide PendingIds, CalledIds, CompletionIds, MarkedIds, DistinctRequests, DistinctCalls, DistinctCompletions, Below, RemoveAt, KernelOk, NotStranded, ResultsOk;
    PendingFound(s.lists.pending, a.id);
    var k := PendingAt(s.lists.pending, a.id);
    if k < |s.lists.pending| { RequestRemoved(s.lists.pending, k); }
  }

  lemma WithdrawRest(s: State, a: Action)
    requires Inv(s) && Enabled(s, a) && a.Withdraw?
    ensures KernelOk(Apply(s, a)) && NotStranded(Apply(s, a)) && ResultsOk(Apply(s, a))
  {
    hide PendingIds, CalledIds, CompletionIds, MarkedIds, DistinctRequests, DistinctCalls, DistinctCompletions, Below, RemoveAt, HeldIds;
    PendingFound(s.lists.pending, a.id);
    var k := PendingAt(s.lists.pending, a.id);
    if k < |s.lists.pending| { RequestRemoved(s.lists.pending, k); }
  }

  lemma StepPoll(s: State, a: Action)
    requires Inv(s) && Enabled(s, a) && a.Poll?
    ensures Inv(Apply(s, a))
  {
    hide PendingIds, CalledIds, CompletionIds, MarkedIds, DistinctRequests, DistinctCalls, DistinctCompletions;
    QueuePolled(s.queue);
  }

  lemma QueuePolled(q: seq<Completion>)
    requires q != [] && DistinctCompletions(q)
    ensures CompletionIds(q[1..]) == CompletionIds(q) - {q[0].id} && q[0].id in CompletionIds(q)
    ensures DistinctCompletions(q[1..]) && q[0] in q && forall c :: c in q[1..] ==> c in q
  {
    assert q == [q[0]] + q[1..];
    forall id | id in CompletionIds(q) && id != q[0].id ensures id in CompletionIds(q[1..]) {
      var c :| c in q && c.id == id;
      assert c in q[1..];
    }
  }

  lemma QueueAdded(q: seq<Completion>, c: Completion)
    requires DistinctCompletions(q) && c.id !in CompletionIds(q)
    ensures DistinctCompletions(q + [c])
  {
    assert forall i :: 0 <= i < |q| ==> q[i] in q;
  }

  lemma StepFile(s: State, a: Action)
    requires Inv(s) && Enabled(s, a) && a.File?
    ensures Inv(Apply(s, a))
  {
    hide Inv, RemoveAt, PendingAt, IgnoredAt, Pruned, PendingIds, MarkedIds;
    var c := s.disp.c;
    var ignored := Pruned(s.lists.ignored, s.now);
    MarkersAfter(s.lists.ignored, s.now, c.id);
    PendingFound(s.lists.pending, c.id);
    if IgnoredAt(ignored, c.id) < |ignored| {
      FileIgnored(s, c, a.stored, RemoveAt(ignored, IgnoredAt(ignored, c.id)), Apply(s, a));
    } else if PendingAt(s.lists.pending, c.id) < |s.lists.pending| {
      FileTaken(s, c, a.stored, ignored, PendingAt(s.lists.pending, c.id), Apply(s, a));
    } else {
      FileDeferred(s, c, a.stored, ignored, Apply(s, a));
    }
  }

  lemma FileIgnored(s: State, c: Completion, stored: bool, ignored: seq<Marker>, t: State)
    requires Inv(s) && s.disp == Polled(c) && MarkedIds(ignored) <= MarkedIds(s.lists.ignored) && c.id in MarkedIds(s.lists.ignored)
    requires t == s.(lists := s.lists.(ignored := ignored), filed := s.filed + {c.id},
                     unstored := if stored then s.unstored else s.unstored + {c.id}, disp := Idle)
    ensures Inv(t)
  {
    hide PendingIds, CalledIds, CompletionIds, MarkedIds, DistinctRequests, DistinctCalls, DistinctCompletions, RemoveAt;
  }

  lemma FileTaken(s: State, c: Completion, stored: bool, ignored: seq<Marker>, k: nat, t: State)
    requires Inv(s) && s.disp == Polled(c) && MarkedIds(ignored) <= MarkedIds(s.lists.ignored)
    requires k < |s.lists.pending| && s.lists.pending[k].id == c.id
    requires t == s.(lists := s.lists.(pending := RemoveAt(s.lists.pending, k), ignored := ignored), filed := s.filed + {c.id},
                     unstored := if stored then s.unstored else s.unstored + {c.id}, disp := Holding(s.lists.pending[k], c))
    ensures Inv(t)
  {
    hide PendingIds, CalledIds, CompletionIds, MarkedIds, DistinctRequests, DistinctCalls, DistinctCompletions, RemoveAt;
    RequestRemoved(s.lists.pending, k);
  }

  lemma FileDeferred(s: State, c: Completion, stored: bool, ignored: seq<Marker>, t: State)
    requires Inv(s) && s.disp == Polled(c) && MarkedIds(ignored) <= MarkedIds(s.lists.ignored)
    requires c.id !in PendingIds(s.lists.pending)
    requires t == s.(lists := s.lists.(deferred := if stored then s.lists.deferred + [c] else s.lists.deferred, ignored := ignored),
                     filed := s.filed + {c.id}, unstored := if stored then s.unstored else s.unstored + {c.id}, disp := Idle)
    ensures Inv(t)
  {
    hide PendingIds, CalledIds, CompletionIds, MarkedIds, DistinctRequests, DistinctCalls, DistinctCompletions, RemoveAt;
    DeferredAdded(s.lists.deferred, c);
  }

  lemma StepDeliver(s: State, a: Action)
    requires Inv(s) && Enabled(s, a) && a.Deliver?
    ensures Inv(Apply(s, a))
  {
    hide PendingIds, CalledIds, CompletionIds, MarkedIds, DistinctRequests, DistinctCalls, DistinctCompletions, Below;
    CallAdded(s.calls, Delivery(s.disp.r, s.disp.c, s.now));
  }

  lemma StepExpire(s: State, a: Action)
    requires Inv(s) && Enabled(s, a) && a.Expire?
    ensures Inv(Apply(s, a))
  {
    hide Inv, RemoveAt, ExpiredAt, Pruned, MarkedIds;
    var ignored := Pruned(s.lists.ignored, a.now0);
    MarkersAfter(s.lists.ignored, a.now0, 0);
    var k := ExpiredAt(s.lists.pending, a.now1);
    if k < |s.lists.pending| {
      MarkerAdded(ignored, Marker(s.lists.pending[k].id, a.now2 + GRACE));
      ExpireTaken(s, k, Apply(s, a).lists.ignored, a.now2, Apply(s, a));
    } else {
      ExpireNone(s, ignored, a.now2, Apply(s, a));
    }
  }

  lemma ExpireNone(s: State, ignored: seq<Marker>, now: nat, t: State)
    requires Inv(s) && s.disp.Idle? && s.now <= now && MarkedIds(ignored) <= MarkedIds(s.lists.ignored)
    requires t == s.(lists := s.lists.(ignored := ignored), now := now, disp := Idle)
    ensures Inv(t)
  {
    hide PendingIds, CalledIds, CompletionIds, MarkedIds, DistinctRequests, DistinctCalls, DistinctCompletions, RemoveAt, Below;
  }

  lemma ExpireTaken(s: State, k: nat, ignored: seq<Marker>, now: nat, t: State)
    requires Inv(s) && s.disp.Idle? && s.now <= now && k < |s.lists.pending| && Expired(s.lists.pending[k], now)
    requires MarkedIds(ignored) <= MarkedIds(s.lists.ignored) + {s.lists.pending[k].id}
    requires t == s.(lists := s.lists.(pending := RemoveAt(s.lists.pending, k), ignored := ignored), now := now,
                     disp := Holding(s.lists.pending[k], TimeoutResult(s.lists.pending[k].id, TIMEOUT_STATUS)))
    ensures Inv(t)
  {
    hide PendingIds, CalledIds, CompletionIds, MarkedIds, DistinctRequests, DistinctCalls, DistinctCompletions, RemoveAt, Below;
    RequestRemoved(s.lists.pending, k);
  }

  lemma StepKeepsInv(s: State, a: Action)
    requires Inv(s) && Enabled(s, a)
    ensures Inv(Apply(s, a))
  {
    match a
    case Tick(_) =>
    case Spawn(_, _, _) => StepSpawn(s, a);
    case SpawnBare => StepSpawn(s, a);
    case Finish(_) => StepFinish(s, a);
    case Register(_) => StepRegister(s, a);
    case CallerDelivers(_) => StepCallerDelivers(s, a);
    case StartDispatcher(_, _) =>
    case Withdraw(_) => StepWithdraw(s, a);
    case Poll => StepPoll(s, a);
    case File(_) => StepFile(s, a);
    case Deliver => StepDeliver(s, a);
    case Expire(_, _, _, _) => StepExpire(s, a);
  }

  // ---------------------------------------------------------------- whole runs

  ghost predicate Runs(s: State, as_: seq<Action>)
    decreases |as_|
  {
    as_ == [] || (Enabled(s, as_[0]) && Runs(Apply(s, as_[0]), as_[1..]))
  }

  ghost function After(s: State, as_: seq<Action>): State
    requires Runs(s, as_)
    decreases |as_|
  {
    if as_ == [] then s else After(Apply(s, as_[0]), as_[1..])
  }

  lemma {:induction false} RunKeepsInv(s: State, as_: seq<Action>)
    requires Inv(s) && Runs(s, as_)
    ensures Inv(After(s, as_))
    decreases |as_|
  {
    hide Inv, Apply, Enabled;
    if as_ != [] {
      StepKeepsInv(s, as_[0]);
      RunKeepsInv(Apply(s, as_[0]), as_[1..]);
    }
  }

  lemma InitialInv(now: nat)
    ensures Inv(Initial(now))
  {
  }

  /** In every interleaving each request has exactly one owner. */
  lemma ExactlyOneOwner(now: nat, as_: seq<Action>, id: nat)
    requires Runs(Initial(now), as_) && id in After(Initial(now), as_).launched
    ensures var s := After(Initial(now), as_);
            var owners := [id in s.unlinked, id in PendingIds(s.lists.pending), id in TakenIds(s), id in s.withdrawn];
            exists i :: 0 <= i < 4 && owners[i] && forall j :: 0 <= j < 4 && j != i ==> !owners[j]
  {
    hide Apply, Enabled, PendingIds, TakenIds, Inv, Owned, Runs, After;
    InitialInv(now);
    RunKeepsInv(Initial(now), as_);
    InvParts(After(Initial(now), as_));
    OneOwner(After(Initial(now), as_), id);
  }

  lemma OneOwner(s: State, id: nat)
    requires Owned(s) && id in s.launched
    ensures var owners := [id in s.unlinked, id in PendingIds(s.lists.pending), id in TakenIds(s), id in s.withdrawn];
            exists i :: 0 <= i < 4 && owners[i] && forall j :: 0 <= j < 4 && j != i ==> !owners[j]
  {
    hide PendingIds, CalledIds, DistinctCalls, DistinctRequests, Below;
    var owners := [id in s.unlinked, id in PendingIds(s.lists.pending), id in TakenIds(s), id in s.withdrawn];
    assert owners[0] || owners[1] || owners[2] || owners[3];
  }

  /** In every interleaving no request is delivered twice: not after a timeout, not by two threads. */
  lemma DeliveredAtMostOnce(now: nat, as_: seq<Action>)
    requires Runs(Initial(now), as_)
    ensures DistinctCalls(After(Initial(now), as_).calls)
    ensures forall c :: c in After(Initial(now), as_).calls ==> c.request.id in After(Initial(now), as_).launched
  {
    hide Apply, Enabled, KernelOk, NotStranded, ResultsOk, DistinctCalls;
    InitialInv(now);
    RunKeepsInv(Initial(now), as_);
  }

  /** Each delivery carries the kernel's result for that very request, or a timeout at or after its deadline. */
  lemma DeliveredFairly(now: nat, as_: seq<Action>, c: Call)
    requires Runs(Initial(now), as_) && c in After(Initial(now), as_).calls
    ensures Fair(After(Initial(now), as_), c.request, c.result, c.at)
    ensures c.ran == Success <==> c.request.onSuccess && c.result.status >= 0 && c.result.pid >= 0
    ensures c.ran == Failure <==> c.request.onError && (c.result.status < 0 || c.result.pid < 0)
  {
    hide Apply, Enabled, KernelOk, NotStranded, Owned, Fair;
    InitialInv(now);
    RunKeepsInv(Initial(now), as_);
  }

  /** Once its completion has been filed, a request is still pending only if that completion was not stored. */
  lemma NoneStranded(now: nat, as_: seq<Action>, id: nat)
    requires Runs(Initial(now), as_)
    requires id in After(Initial(now), as_).filed && id in PendingIds(After(Initial(now), as_).lists.pending)
    ensures id in After(Initial(now), as_).unstored
  {
    hide Apply, Enabled, KernelOk, ResultsOk, Owned, PendingIds;
    InitialInv(now);
    RunKeepsInv(Initial(now), as_);
  }

  /** And the exception is exact: whenever an early completion cannot be stored, registering strands the request. */
  lemma UnstoredStrands(s: State, id: nat)
    requires Inv(s) && s.disp.Polled? && s.disp.c.id == id && id in s.unlinked
    ensures Enabled(s, File(false)) && Enabled(Apply(s, File(false)), Register(id))
    ensures var t := Apply(Apply(s, File(false)), Register(id)); id in t.filed && id in PendingIds(t.lists.pending)
  {
    hide CalledIds, CompletionIds, MarkedIds, DistinctRequests, DistinctCalls, DistinctCompletions, RemoveAt, Below,
         Pruned, ResultsOk;
    var r := s.unlinked[id];
    MarkersAfter(s.lists.ignored, s.now, id);
    PendingFound(s.lists.pending, id);
    DeferredFound(s.lists.deferred, id);
    assert r in s.lists.pending + [r];
  }

  // ---------------------------------------------------------------- what a dispatcher step does

  /** An idle dispatcher takes the first overdue request, if there is one: it leaves the pending list, is about to be
      told of the timeout, and its late completion will be ignored for 30 seconds. */
  lemma ExpireEffect(s: State, now0: nat, now1: nat, now2: nat, stored: bool)
    requires Enabled(s, Expire(now0, now1, now2, stored))
    ensures var t, p := Apply(s, Expire(now0, now1, now2, stored)), s.lists.pending;
            && t.now == now2 && t.started && t.lists.deferred == s.lists.deferred && t.calls == s.calls
            && (if exists i :: 0 <= i < |p| && 0 < p[i].deadline <= now1 then
                  exists k :: && 0 <= k < |p| && 0 < p[k].deadline <= now1 && (forall j :: 0 <= j < k ==> !(0 < p[j].deadline <= now1))
                              && t.lists.pending == p[..k] + p[k + 1..]
                              && t.disp == Holding(p[k], Completion(p[k].id, TIMEOUT_STATUS, -1))
                              && forall m :: m in t.lists.ignored <==>
                                   (m in s.lists.ignored && now0 < m.expires) || (stored && m == Marker(p[k].id, now2 + 30000))
                else && t.lists.pending == p && t.disp == Idle
                     && forall m :: m in t.lists.ignored <==> m in s.lists.ignored && now0 < m.expires)
  {
    hide Pruned, ExpiredAt;
    var p := s.lists.pending;
    var k := ExpiredAt(p, now1);
    assert forall j :: 0 <= j < k ==> !Expired(p[j], now1);
    if k < |p| { assert 0 < p[k].deadline <= now1; }
  }

  predicate Overdue(r: Request, now: nat) { 0 < r.deadline <= now }

  /** However many requests are overdue: at most |pending| rounds of the idle dispatcher later none is pending, each
      has been told of its timeout, and no other request was touched. */
  lemma {:induction false} OverdueAreTimedOut(s: State, now: nat, stored: bool) returns (as_: seq<Action>)
    requires s.started && s.disp == Idle && s.now <= now
    ensures Runs(s, as_) && |as_| <= 2 * |s.lists.pending|
    ensures var t := After(s, as_);
            && t.disp == Idle
            && (forall r :: r in t.lists.pending <==> r in s.lists.pending && !Overdue(r, now))
            && (forall c :: c in s.calls ==> c in t.calls)
            && (forall r :: r in s.lists.pending && Overdue(r, now) ==> Delivery(r, Completion(r.id, TIMEOUT_STATUS, -1), now) in t.calls)
    decreases |s.lists.pending|
  {
    hide Apply, Enabled, Runs, After, Delivery, Overdue;
    if forall r :: r in s.lists.pending ==> !Overdue(r, now) {
      as_ := [];
      NoAction(s);
    } else {
      var u, taken := TimeoutRound(s, now, stored);
      var rest := OverdueAreTimedOut(u, now, stored);
      var a := Expire(now, now, now, stored);
      as_ := [a] + ([Deliver] + rest);
    }
  }

  /** One such round: one overdue request is told of its timeout, the others stay. */
  lemma TimeoutRound(s: State, now: nat, stored: bool) returns (u: State, r: Request)
    requires s.started && s.disp == Idle && s.now <= now && exists x :: x in s.lists.pending && Overdue(x, now)
    ensures u.started && u.disp == Idle && u.now == now && |u.lists.pending| == |s.lists.pending| - 1
    ensures Overdue(r, now) && u.calls == s.calls + [Delivery(r, Completion(r.id, TIMEOUT_STATUS, -1), now)]
    ensures forall x :: x in s.lists.pending <==> x in u.lists.pending || x == r
    ensures forall rest :: Runs(u, rest) ==>
              var as_ := [Expire(now, now, now, stored)] + ([Deliver] + rest); Runs(s, as_) && After(s, as_) == After(u, rest)
  {
    hide Apply, Enabled, Runs, After, Delivery;
    var p, a := s.lists.pending, Expire(now, now, now, stored);
    CanExpire(s, now, stored);
    var t := Apply(s, a);
    var x :| x in p && Overdue(x, now);
    var i :| 0 <= i < |p| && p[i] == x;
    ExpireEffect(s, now, now, now, stored);
    var k :| 0 <= k < |p| && Overdue(p[k], now) && t.lists.pending == p[..k] + p[k + 1..]
             && t.disp == Holding(p[k], Completion(p[k].id, TIMEOUT_STATUS, -1));
    r := p[k];
    CanDeliver(t);
    u := Apply(t, Deliver);
    AllBut(p, k);
    forall rest | Runs(u, rest) ensures var as_ := [a] + ([Deliver] + rest); Runs(s, as_) && After(s, as_) == After(u, rest) {
      RunsOn(t, Deliver, rest);
      RunsOn(s, a, [Deliver] + rest);
    }
  }

  lemma AllBut(p: seq<Request>, k: nat)
    requires k < |p|
    ensures var q := p[..k] + p[k + 1..]; |q| == |p| - 1 && forall x :: x in p <==> x in q || x == p[k]
  {
    assert p == p[..k] + [p[k]] + p[k + 1..];
  }

  lemma CanExpire(s: State, now: nat, stored: bool)
    requires s.started && s.disp == Idle && s.now <= now
    ensures Enabled(s, Expire(now, now, now, stored))
  {
  }

  lemma CanDeliver(t: State)
    requires t.disp.Holding?
    ensures Enabled(t, Deliver)
    ensures var u := Apply(t, Deliver);
            u.disp == Idle && u.started == t.started && u.now == t.now && u.lists == t.lists && u.calls == t.calls + [Delivery(t.disp.r, t.disp.c, t.now)]
  {
    hide Delivery;
  }

  /** A caller that registers finds the first completion with its id waiting and takes it, or joins the pending list. */
  lemma RegisterEffect(s: State, id: nat)
    requires Inv(s) && id in s.unlinked
    ensures Enabled(s, Register(id))
    ensures var t, r, d := Apply(s, Register(id)), s.unlinked[id], s.lists.deferred;
            && t.unlinked == s.unlinked - {id} && t.calls == s.calls && t.lists.ignored == s.lists.ignored
            && (if exists i :: 0 <= i < |d| && d[i].id == id then
                  exists k :: && 0 <= k < |d| && d[k].id == id && (forall j :: 0 <= j < k ==> d[j].id != id)
                              && t.lists.deferred == d[..k] + d[k + 1..] && t.lists.pending == s.lists.pending
                              && id in t.carried && t.carried[id] == (r, d[k])
                else t.lists.pending == s.lists.pending + [r] && t.lists.deferred == d)
  {
    hide KernelOk, NotStranded, ResultsOk, CalledIds, DistinctCalls, DistinctRequests, Below, PendingAt, DeferredAt, PendingIds;
    var r, d, p := s.unlinked[id], s.lists.deferred, s.lists.pending;
    var k := DeferredAt(d, id);
    assert forall j :: 0 <= j < k ==> d[j].id != id;
    RequestAdded(p, r);
    PendingFound(p, id);
    LastPending(p, r);
  }

  /** A request that is not pending yet is found at the end, and taking it leaves the list as it was. */
  lemma LastPending(p: seq<Request>, r: Request)
    requires PendingAt(p, r.id) == |p|
    ensures PendingAt(p + [r], r.id) == |p| && RemoveAt(p + [r], |p|) == p
  {
    hide PendingAt;
    assert forall j :: 0 <= j < |p| ==> (p + [r])[j] == p[j];
    assert (p + [r])[|p|].id == r.id;
  }

  /** A polled completion is swallowed by an unexpired marker, or taken to its pending request, or kept for a request
      that is not registered yet; nothing else changes. */
  lemma FileEffect(s: State, stored: bool)
    requires s.disp.Polled?
    ensures Enabled(s, File(stored))
    ensures var t, c, p := Apply(s, File(stored)), s.disp.c, s.lists.pending;
            && t.calls == s.calls && (forall m :: m in t.lists.ignored ==> m in s.lists.ignored && s.now < m.expires)
            && (forall m :: m in s.lists.ignored && s.now < m.expires && m.id != c.id ==> m in t.lists.ignored)
            && (if exists m :: m in s.lists.ignored && m.id == c.id && s.now < m.expires then
                  t.lists.pending == p && t.lists.deferred == s.lists.deferred && t.disp == Idle
                else if exists i :: 0 <= i < |p| && p[i].id == c.id then
                  && t.lists.deferred == s.lists.deferred
                  && exists k :: && 0 <= k < |p| && p[k].id == c.id && (forall j :: 0 <= j < k ==> p[j].id != c.id)
                                 && t.lists.pending == p[..k] + p[k + 1..] && t.disp == Holding(p[k], c)
                else t.lists.pending == p && t.lists.deferred == s.lists.deferred + (if stored then [c] else []) && t.disp == Idle)
  {
    hide Pruned, IgnoredAt, PendingAt;
    var c, p, g := s.disp.c, s.lists.pending, Pruned(s.lists.ignored, s.now);
    var x, k := IgnoredAt(g, c.id), PendingAt(p, c.id);
    if x < |g| { assert g[x] in g; } else { assert forall m :: m in g ==> m.id != c.id; }
    assert forall j :: 0 <= j < k ==> p[j].id != c.id;
  }

  lemma RunsOn(s: State, a: Action, rest: seq<Action>)
    requires Enabled(s, a) && Runs(Apply(s, a), rest)
    ensures Runs(s, [a] + rest) && After(s, [a] + rest) == After(Apply(s, a), rest)
  {
    hide Apply, Enabled;
    assert ([a] + rest)[1..] == rest;
  }

  /** The second caller has its id, the dispatcher runs, and nothing has completed. */
  ghost predicate BeforeTheRace(s: State, now: nat)
  {
    && s.lists == Lists([Request(1, now, true, true)], [], []) && s.started && s.disp == Idle && s.queue == []
    && 2 in s.running && 2 in s.unlinked && s.unlinked[2] == Request(2, now, true, true)
  }

  lemma RaceStarts(now: nat) returns (as_: seq<Action>, s: State)
    ensures BeforeTheRace(s, now) && forall rest :: Runs(s, rest) ==> Runs(Initial(now), as_ + rest) && After(Initial(now), as_ + rest) == After(s, rest)
  {
    hide Runs, After;
    var a1, a2, a3, a4 := Spawn(now, true, true), Register(1), StartDispatcher(1, true), Spawn(now, true, true);
    var s1 := Apply(Initial(now), a1);
    var s2 := Apply(s1, a2);
    var s3 := Apply(s2, a3);
    s := Apply(s3, a4);
    as_ := [a1, a2, a3, a4];
    forall rest | Runs(s, rest) ensures Runs(Initial(now), as_ + rest) && After(Initial(now), as_ + rest) == After(s, rest) {
      RunsOn(s3, a4, rest);
      RunsOn(s2, a3, [a4] + rest);
      RunsOn(s1, a2, [a3] + ([a4] + rest));
      RunsOn(Initial(now), a1, [a2] + ([a3] + ([a4] + rest)));
      assert as_ + rest == [a1] + ([a2] + ([a3] + ([a4] + rest)));
    }
  }

  /** The second launch completes, its completion finds no node, and only then does its caller register. */
  lemma RaceLost(s: State, now: nat) returns (as_: seq<Action>)
    requires BeforeTheRace(s, now)
    ensures Runs(s, as_) && var t := After(s, as_); 2 in t.filed && 2 in t.unstored && 2 in PendingIds(t.lists.pending)
  {
    hide Runs, After, PendingIds;
    var c := Completion(2, 0, 7);
    var s1 := Apply(s, Finish(c));
    var s2 := Apply(s1, Poll);
    assert s2.disp == Polled(c) && s2.lists == s.lists && s2.unlinked == s.unlinked;
    var s3 := Apply(s2, File(false));
    assert s3.lists == s.lists && 2 in s3.filed && 2 in s3.unstored && s3.unlinked == s.unlinked;
    var s4 := Apply(s3, Register(2));
    RequestAdded(s3.lists.pending, s3.unlinked[2]);
    NoAction(s4);
    RunsOn(s3, Register(2), []);
    RunsOn(s2, File(false), [Register(2)] + []);
    RunsOn(s1, Poll, [File(false)] + ([Register(2)] + []));
    as_ := [Finish(c)] + ([Poll] + ([File(false)] + ([Register(2)] + [])));
    RunsOn(s, Finish(c), [Poll] + ([File(false)] + ([Register(2)] + [])));
  }

  /** Such a run exists: a request whose completion was filed stays pending. */
  lemma StrandedRun(now: nat) returns (as_: seq<Action>)
    ensures Runs(Initial(now), as_)
    ensures var s := After(Initial(now), as_); 2 in s.filed && 2 in s.unstored && 2 in PendingIds(s.lists.pending)
  {
    hide Runs, After, PendingIds, Apply, Enabled, BeforeTheRace;
    var first, s := RaceStarts(now);
    var rest := RaceLost(s, now);
    as_ := first + rest;
  }

  lemma NoAction(s: State)
    ensures Runs(s, []) && After(s, []) == s
  {
  }
}
