/** The process-local registry of asynchronous launches: three lists guarded by one lock.
    Each method of the class is one critical section of the runtime. */
module LaunchRegistry {
  import opened Seqs

  /** GRACE is how long a timed-out request id is remembered, in milliseconds. */
  const GRACE: nat := 30000

  /** A registered launch; onSuccess and onError say which callbacks the caller supplied. */
  datatype Request = Request(id: nat, deadline: nat, onSuccess: bool, onError: bool)

  datatype Completion = Completion(id: nat, status: int, pid: int)

  datatype Marker = Marker(id: nat, expires: nat)

  datatype Lists = Lists(pending: seq<Request>, deferred: seq<Completion>, ignored: seq<Marker>)

  function PendingAt(s: seq<Request>, id: nat): (k: nat)
    ensures k <= |s| && (k < |s| ==> s[k].id == id)
    ensures forall j :: 0 <= j < k ==> s[j].id != id
  {
    if s == [] || s[0].id == id then 0 else 1 + PendingAt(s[1..], id)
  }

  predicate Expired(r: Request, now: nat)
  {
    r.deadline != 0 && r.deadline <= now
  }

  function ExpiredAt(s: seq<Request>, now: nat): (k: nat)
    ensures k <= |s| && (k < |s| ==> Expired(s[k], now))
    ensures forall j :: 0 <= j < k ==> !Expired(s[j], now)
  {
    if s == [] || Expired(s[0], now) then 0 else 1 + ExpiredAt(s[1..], now)
  }

  function DeferredAt(s: seq<Completion>, id: nat): (k: nat)
    ensures k <= |s| && (k < |s| ==> s[k].id == id)
    ensures forall j :: 0 <= j < k ==> s[j].id != id
  {
    if s == [] || s[0].id == id then 0 else 1 + DeferredAt(s[1..], id)
  }

  function IgnoredAt(s: seq<Marker>, id: nat): (k: nat)
    ensures k <= |s| && (k < |s| ==> s[k].id == id)
    ensures forall j :: 0 <= j < k ==> s[j].id != id
  {
    if s == [] || s[0].id == id then 0 else 1 + IgnoredAt(s[1..], id)
  }

  /** The markers whose grace has not run out. */
  function Pruned(s: seq<Marker>, now: nat): (r: seq<Marker>)
    ensures forall m :: m in r <==> m in s && now < m.expires
  {
    if s == [] then []
    else if now < s[0].expires then [s[0]] + Pruned(s[1..], now)
    else Pruned(s[1..], now)
  }

  lemma {:induction false} PrunedSnoc(s: seq<Marker>, m: Marker, now: nat)
    ensures Pruned(s + [m], now) == Pruned(s, now) + (if now < m.expires then [m] else [])
    decreases |s|
  {
    if s == [] {
      assert s + [m] == [m];
      assert Pruned([], now) == [];
    } else {
      assert (s + [m])[1..] == s[1..] + [m];
      PrunedSnoc(s[1..], m, now);
    }
  }

  /** Halfway through pruning: done markers of all are decided, and cur starts with the node kept ones. */
  ghost predicate PruneState(cur: seq<Marker>, node: nat, all: seq<Marker>, done: nat, now: nat)
  {
    done <= |all| && cur == Pruned(all[..done], now) + all[done..] && node == |Pruned(all[..done], now)|
  }

  lemma PruneStart(all: seq<Marker>, now: nat)
    ensures PruneState(all, 0, all, 0, now)
  {
    assert all[..0] == [];
  }

  lemma PruneStep(cur: seq<Marker>, node: nat, all: seq<Marker>, done: nat, now: nat)
    requires PruneState(cur, node, all, done, now) && node < |cur|
    ensures done < |all| && cur[node] == all[done]
    ensures now < all[done].expires ==> PruneState(cur, node + 1, all, done + 1, now)
    ensures !(now < all[done].expires) ==> PruneState(RemoveAt(cur, node), node, all, done + 1, now)
  {
    hide Pruned;
    assert all[..done + 1] == all[..done] + [all[done]];
    assert all[done..] == [all[done]] + all[done + 1..];
    PrunedSnoc(all[..done], all[done], now);
  }

  lemma PruneEnd(cur: seq<Marker>, node: nat, all: seq<Marker>, done: nat, now: nat)
    requires PruneState(cur, node, all, done, now) && node >= |cur|
    ensures cur == Pruned(all, now)
  {
    hide Pruned;
    assert all[done..] == [];
    assert all[..done] == all;
  }

  // ---------------------------------------------------------------- critical sections as functions

  /** A caller links its request; a completion that came first is taken together with it. */
  function Registered(l: Lists, r: Request): (Lists, Option<(Request, Completion)>)
  {
    var pending := l.pending + [r];
    var d := DeferredAt(l.deferred, r.id);
    if d == |l.deferred| then (l.(pending := pending), None)
    else
      var k := PendingAt(pending, r.id);
      if k == |pending| then (l.(pending := pending, deferred := RemoveAt(l.deferred, d)), None)
      else (l.(pending := RemoveAt(pending, k), deferred := RemoveAt(l.deferred, d)), Some((pending[k], l.deferred[d])))
  }

  /** A caller whose dispatcher could not be started takes its request back, if it is still there. */
  function Withdrawn(l: Lists, id: nat): (Lists, Option<Request>)
  {
    var k := PendingAt(l.pending, id);
    if k == |l.pending| then (l, None) else (l.(pending := RemoveAt(l.pending, k)), Some(l.pending[k]))
  }

  /** The dispatcher files one polled completion; stored says whether a list node could be allocated. */
  function Completed(l: Lists, c: Completion, now: nat, stored: bool): (Lists, Option<Request>)
  {
    var ignored := Pruned(l.ignored, now);
    var g := IgnoredAt(ignored, c.id);
    if g < |ignored| then (l.(ignored := RemoveAt(ignored, g)), None)
    else
      var k := PendingAt(l.pending, c.id);
      if k < |l.pending| then (l.(pending := RemoveAt(l.pending, k), ignored := ignored), Some(l.pending[k]))
      else (l.(deferred := if stored then l.deferred + [c] else l.deferred, ignored := ignored), None)
  }

  /** The dispatcher takes one overdue request; the three clock readings are in program order. */
  function TimedOut(l: Lists, now0: nat, now1: nat, now2: nat, stored: bool): (Lists, Option<Request>)
  {
    var ignored := Pruned(l.ignored, now0);
    var k := ExpiredAt(l.pending, now1);
    if k == |l.pending| then (l.(ignored := ignored), None)
    else
      (l.(pending := RemoveAt(l.pending, k),
          ignored := if stored then ignored + [Marker(l.pending[k].id, now2 + GRACE)] else ignored),
       Some(l.pending[k]))
  }

  // ---------------------------------------------------------------- the runtime's lists

  class Registry {
    var pending: seq<Request>
    var deferred: seq<Completion>
    var ignored: seq<Marker>

    ghost function Value(): Lists
      reads this
    {
      Lists(pending, deferred, ignored)
    }

    constructor ()
      ensures Value() == Lists([], [], [])
    {
      pending, deferred, ignored := [], [], [];
    }

    method TakePending(id: nat) returns (request: Option<Request>)
      modifies this
      ensures (Value(), request) == Withdrawn(old(Value()), id)
    {
      var i := 0;
      while i < |pending|
        invariant i <= |pending| && Value() == old(Value())
        invariant forall j :: 0 <= j < i ==> pending[j].id != id
      {
        if pending[i].id == id {
          request := Some(pending[i]);
          pending := RemoveAt(pending, i);
          return;
        }
        i := i + 1;
      }
      request := None;
    }

    method TakeTimedOut(now: nat) returns (request: Option<Request>)
      modifies this
      ensures var k := ExpiredAt(old(pending), now);
              if k == |old(pending)| then request == None && Value() == old(Value())
              else request == Some(old(pending)[k]) && Value() == old(Value()).(pending := RemoveAt(old(pending), k))
    {
      var i := 0;
      while i < |pending|
        invariant i <= |pending| && Value() == old(Value())
        invariant forall j :: 0 <= j < i ==> !Expired(pending[j], now)
      {
        if !(pending[i].deadline == 0 || now < pending[i].deadline) {
          request := Some(pending[i]);
          pending := RemoveAt(pending, i);
          return;
        }
        i := i + 1;
      }
      request := None;
    }

    method TakeDeferred(id: nat) returns (result: Option<Completion>)
      modifies this
      ensures var k := DeferredAt(old(deferred), id);
              if k == |old(deferred)| then result == None && Value() == old(Value())
              else result == Some(old(deferred)[k]) && Value() == old(Value()).(deferred := RemoveAt(old(deferred), k))
    {
      var i := 0;
      while i < |deferred|
        invariant i <= |deferred| && Value() == old(Value())
        invariant forall j :: 0 <= j < i ==> deferred[j].id != id
      {
        if deferred[i].id == id {
          result := Some(deferred[i]);
          deferred := RemoveAt(deferred, i);
          return;
        }
        i := i + 1;
      }
      result := None;
    }

    method TakeIgnored(id: nat) returns (found: bool)
      modifies this
      ensures var k := IgnoredAt(old(ignored), id);
              if k == |old(ignored)| then !found && Value() == old(Value())
              else found && Value() == old(Value()).(ignored := RemoveAt(old(ignored), k))
    {
      var i := 0;
      while i < |ignored|
        invariant i <= |ignored| && Value() == old(Value())
        invariant forall j :: 0 <= j < i ==> ignored[j].id != id
      {
        if ignored[i].id == id {
          ignored := RemoveAt(ignored, i);
          return true;
        }
        i := i + 1;
      }
      found := false;
    }

    method PruneIgnored(now: nat)
      modifies this
      ensures Value() == old(Value()).(ignored := Pruned(old(ignored), now))
    {
      hide Pruned, RemoveAt;
      ghost var all, done := ignored, 0;
      PruneStart(all, now);
      var node := 0;
      while node < |ignored|
        invariant node <= |ignored| && 0 <= done <= |all|
        invariant PruneState(ignored, node, all, done, now)
        invariant pending == old(pending) && deferred == old(deferred)
        decreases |all| - done
      {
        PruneStep(ignored, node, all, done, now);
        if now < ignored[node].expires {
          node := node + 1;
        } else {
          ignored := RemoveAt(ignored, node);
        }
        done := done + 1;
      }
      PruneEnd(ignored, node, all, done, now);
    }

    /** SpawnTaskAsyncCallbacks, between lock and unlock. */
    method Register(request: Request) returns (taken: Option<(Request, Completion)>)
      modifies this
      ensures (Value(), taken) == Registered(old(Value()), request)
    {
      pending := pending + [request];
      var result := TakeDeferred(request.id);
      taken := None;
      if result.Some? {
        var own := TakePending(request.id);
        if own.Some? {
          taken := Some((own.value, result.value));
        }
      }
    }

    /** The dispatcher's section after a successful poll. */
    method Complete(c: Completion, now: nat, stored: bool) returns (request: Option<Request>)
      modifies this
      ensures (Value(), request) == Completed(old(Value()), c, now, stored)
    {
      PruneIgnored(now);
      var late := TakeIgnored(c.id);
      if late {
        return None;
      }
      request := TakePending(c.id);
      if request.None? && stored {
        deferred := deferred + [c];
      }
    }

    /** The dispatcher's section when nothing was polled. */
    method Expire(now0: nat, now1: nat, now2: nat, stored: bool) returns (request: Option<Request>)
      modifies this
      ensures (Value(), request) == TimedOut(old(Value()), now0, now1, now2, stored)
    {
      PruneIgnored(now0);
      request := TakeTimedOut(now1);
      if request.Some? && stored {
        ignored := ignored + [Marker(request.value.id, now2 + GRACE)];
      }
    }
  }
}
