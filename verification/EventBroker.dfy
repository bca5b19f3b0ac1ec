/** The kernel event broker: every published record goes to the queue of each subscriber it matches. */
module EventBroker {
  import opened Seqs
  import opened EventQueue

  const ABI_VERSION: nat := 1

  datatype Request = Request(version: nat, flags: nat, familyMask: bv64, process: nat, thread: nat,
                             namePrefix: string, pathPrefix: string)

  datatype Subscription = Subscription(id: nat, owner: nat, request: Request, ring: Ring)

  /** When a subscription began, as a position in the log, and how many records it has read since. */
  datatype History = History(since: nat, returned: nat)

  datatype Outcome = Done | InvalidArgument | NotSupported | OutOfMemory | NotFound

  /** An empty prefix matches every text, and process or thread 0 every one. */
  predicate Matches(request: Request, r: Record)
  {
    && (r.family & request.familyMask) != 0
    && (request.process == 0 || r.process == request.process)
    && (request.thread == 0 || r.thread == request.thread)
    && request.namePrefix <= r.name
    && request.pathPrefix <= r.path
  }

  /** Which records a subscription asks for, field by field. */
  lemma MatchesIff(request: Request, r: Record)
    ensures Matches(request, r) <==>
            && (r.family & request.familyMask) != 0
            && (request.process != 0 ==> r.process == request.process)
            && (request.thread != 0 ==> r.thread == request.thread)
            && StartsWith(r.name, request.namePrefix) && StartsWith(r.path, request.pathPrefix)
  {
  }

  predicate StartsWith(text: string, prefix: string)
  {
    |prefix| <= |text| && forall i :: 0 <= i < |prefix| ==> text[i] == prefix[i]
  }

  /** text_has_prefix */
  method TextHasPrefix(text: string, prefix: string) returns (b: bool)
    ensures b <==> StartsWith(text, prefix)
  {
    for i := 0 to |prefix|
      invariant i <= |text| && forall j :: 0 <= j < i ==> text[j] == prefix[j]
    {
      if i == |text| || text[i] != prefix[i] { return false; }
    }
    b := true;
  }

  /** subscription_matches */
  method SubscriptionMatches(request: Request, r: Record) returns (b: bool)
    ensures b <==> Matches(request, r)
  {
    hide Matches, StartsWith;
    MatchesIff(request, r);
    if (r.family & request.familyMask) == 0 { return false; }
    if request.process != 0 && r.process != request.process { return false; }
    if request.thread != 0 && r.thread != request.thread { return false; }
    b := TextHasPrefix(r.name, request.namePrefix);
    if !b { return false; }
    b := TextHasPrefix(r.path, request.pathPrefix);
  }

  /** The records of a log that a request matches, in order. */
  function Filter(log: seq<Record>, request: Request): seq<Record>
    decreases |log|
  {
    if log == [] then []
    else
      var n := |log| - 1;
      Filter(log[..n], request) + (if Matches(request, log[n]) then [log[n]] else [])
  }

  function Matched(log: seq<Record>, since: nat, request: Request): seq<Record>
    requires since <= |log|
  {
    Filter(log[since..], request)
  }

  lemma MatchedGrows(log: seq<Record>, r: Record, since: nat, request: Request)
    requires since <= |log|
    ensures Matched(log + [r], since, request) == Matched(log, since, request) + (if Matches(request, r) then [r] else [])
  {
    hide Matches;
    var s := (log + [r])[since..];
    assert s == log[since..] + [r];
    assert s[..|s| - 1] == log[since..];
  }

  /** Records are numbered in the order of publication. */
  ghost predicate Numbered(log: seq<Record>)
  {
    forall i :: 0 <= i < |log| ==> log[i].sequence == i + 1
  }

  ghost predicate Increasing(s: seq<Record>)
  {
    forall i, j :: 0 <= i < j < |s| ==> s[i].sequence < s[j].sequence
  }

  lemma {:induction false} FilterIncreasing(log: seq<Record>, request: Request, lo: nat)
    requires forall i :: 0 <= i < |log| ==> log[i].sequence == lo + i + 1
    ensures Increasing(Filter(log, request))
    ensures forall r :: r in Filter(log, request) ==> lo < r.sequence <= lo + |log|
    decreases |log|
  {
    hide Matches;
    if log != [] {
      FilterIncreasing(log[..|log| - 1], request, lo);
    }
  }

  /** A queue holds exactly the newest of the matched records, in strictly increasing sequence order,
      and every matched record is read, queued or counted as dropped. */
  ghost predicate Tracks(q: Queue, matched: seq<Record>, returned: nat)
  {
    && |q.items| <= |matched| && q.items == Last(matched, |q.items|)
    && |matched| == returned + |q.items| + q.dropped
  }

  lemma TracksArrival(q: Queue, matched: seq<Record>, returned: nat, r: Record, l: Limits, memory: bool)
    requires LimitsOk(l) && EventQueue.Fits(q, l) && Tracks(q, matched, returned)
    ensures Tracks(Enqueued(q, r, l, memory), matched + [r], returned)
  {
    hide Enqueued;
    ArrivalEffect(q, r, l, memory);
    SuffixGrows(matched, q.items, r, |Enqueued(q, r, l, memory).items|);
  }

  lemma TracksRead(q: Queue, matched: seq<Record>, returned: nat, n: nat)
    requires Tracks(q, matched, returned) && n <= |q.items|
    ensures Tracks(Taken(q, n), matched, returned + n)
  {
  }

  /** What the queue of a tracked subscription looks like to its reader. */
  lemma TrackedInOrder(q: Queue, log: seq<Record>, since: nat, request: Request, returned: nat)
    requires since <= |log| && Numbered(log) && Tracks(q, Matched(log, since, request), returned)
    ensures Increasing(q.items)
  {
    FilterIncreasing(log[since..], request, since);
  }

  /** What a subscription's queue becomes when r is offered to it. */
  function Delivered(q: Queue, request: Request, r: Record, limits: Limits, memory: bool): Queue
    requires 0 < limits.initial
  {
    if Matches(request, r) then Enqueued(q, r, limits, memory) else q
  }

  ghost predicate Holds(ring: Ring, q: Queue)
    reads ring, ring.queue
  {
    ring.Valid() && ring.Value() == q
  }

  /** The ring of s holds what a subscription with history h must hold after log. */
  ghost predicate Tracked(s: Subscription, h: History, log: seq<Record>, limits: Limits)
    reads s.ring, s.ring.queue
  {
    && s.ring.Valid() && s.ring.limits == limits && h.since <= |log|
    && Tracks(s.ring.Value(), Matched(log, h.since, s.request), h.returned)
  }

  lemma TrackedFresh(s: Subscription, log: seq<Record>, limits: Limits)
    requires s.ring.Valid() && s.ring.limits == limits && s.ring.Value() == Queue(0, [], 0)
    ensures Tracked(s, History(|log|, 0), log, limits)
  {
    assert log[|log|..] == [];
  }

  /** A queue to which r was offered is right for the longer log. */
  lemma TrackedOffer(s: Subscription, h: History, log: seq<Record>, q: Queue, r: Record, limits: Limits, memory: bool)
    requires LimitsOk(limits) && EventQueue.Fits(q, limits) && h.since <= |log| && s.ring.limits == limits
    requires Tracks(q, Matched(log, h.since, s.request), h.returned)
    requires Holds(s.ring, Delivered(q, s.request, r, limits, memory))
    ensures Tracked(s, h, log + [r], limits)
  {
    hide Enqueued, Matches, Filter, Ring.Value, Ring.Valid;
    MatchedGrows(log, r, h.since, s.request);
    if Matches(s.request, r) { TracksArrival(q, Matched(log, h.since, s.request), h.returned, r, limits, memory); }
  }

  lemma TrackedTake(s: Subscription, h: History, log: seq<Record>, q: Queue, n: nat, limits: Limits)
    requires h.since <= |log| && s.ring.limits == limits && n <= |q.items|
    requires Tracks(q, Matched(log, h.since, s.request), h.returned) && Holds(s.ring, Taken(q, n))
    ensures Tracked(s, History(h.since, h.returned + n), log, limits)
  {
    hide Matches, Filter, Ring.Value, Ring.Valid;
    TracksRead(q, Matched(log, h.since, s.request), h.returned, n);
  }

  class Broker {
    const limits: Limits
    const familyAll: bv64
    var subs: seq<Subscription>
    var nextId: nat
    var nextSequence: nat
    ghost var log: seq<Record>
    ghost var history: seq<History>

    ghost function Rings(): set<Ring>
      reads this
    {
      set i | 0 <= i < |subs| :: subs[i].ring
    }

    ghost function Queues(): set<array<Record>>
      reads this, Rings()
    {
      set i | 0 <= i < |subs| :: subs[i].ring.queue
    }

    /** No two subscriptions share a ring or a buffer. */
    static ghost predicate Separate(subs: seq<Subscription>)
      reads set i | 0 <= i < |subs| :: subs[i].ring
    {
      forall i, j :: 0 <= i < j < |subs| ==> subs[i].ring != subs[j].ring && subs[i].ring.queue != subs[j].ring.queue
    }

    ghost predicate Ids()
      reads this`subs, this`nextId
    {
      && (forall i :: 0 <= i < |subs| ==> subs[i].id < nextId)
      && (forall i, j :: 0 <= i < j < |subs| ==> subs[i].id != subs[j].id)
    }

    ghost predicate AllTracked()
      requires |history| == |subs|
      reads this, Rings(), Queues()
    {
      forall i :: 0 <= i < |subs| ==> Tracked(subs[i], history[i], log, limits)
    }

    /** In every reachable state every subscriber's queue is right for the records published so far. */
    ghost predicate Valid()
      reads this, Rings(), Queues()
    {
      && LimitsOk(limits) && |history| == |subs| && Separate(subs) && Ids()
      && |log| == nextSequence && Numbered(log)
      && AllTracked()
    }

    constructor (limits: Limits, familyAll: bv64)
      requires LimitsOk(limits)
      ensures Valid() && this.limits == limits && this.familyAll == familyAll && subs == [] && log == []
    {
      this.limits, this.familyAll := limits, familyAll;
      subs, nextId, nextSequence, log, history := [], 1, 0, [], [];
    }

    /** subscribe: the new subscription starts with an empty queue and sees only later records. */
    method Subscribe(owner: nat, request: Request, memory: bool) returns (outcome: Outcome, id: nat)
      requires Valid()
      modifies this
      ensures Valid() && log == old(log)
      ensures outcome == if request.version != ABI_VERSION then InvalidArgument
                         else if request.flags != 0 then NotSupported
                         else if request.familyMask == 0 || (request.familyMask & !familyAll) != 0 then InvalidArgument
                         else if !memory then OutOfMemory else Done
      ensures outcome != Done ==> unchanged(this)
      ensures outcome == Done ==>
                && (exists ring: Ring :: fresh(ring) && subs == old(subs) + [Subscription(id, owner, request, ring)])
                && history == old(history) + [History(|log|, 0)]
    {
      hide Tracked, Numbered;
      id := 0;
      if request.version != ABI_VERSION { return InvalidArgument, id; }
      if request.flags != 0 { return NotSupported, id; }
      if request.familyMask == 0 || (request.familyMask & !familyAll) != 0 { return InvalidArgument, id; }
      if !memory { return OutOfMemory, id; }
      var ring := new Ring(limits);
      id := nextId;
      var s := Subscription(id, owner, request, ring);
      TrackedFresh(s, log, limits);
      nextId := nextId + 1;
      subs := subs + [s];
      history := history + [History(|log|, 0)];
      outcome := Done;
    }

    /** The queues of the subscribers, in list order. */
    static ghost predicate AllHold(subs: seq<Subscription>, qs: seq<Queue>, limits: Limits)
      reads set i | 0 <= i < |subs| :: subs[i].ring
      reads set i | 0 <= i < |subs| :: subs[i].ring.queue
    {
      |qs| == |subs| && Separate(subs) && forall j :: 0 <= j < |subs| ==> subs[j].ring.limits == limits && Holds(subs[j].ring, qs[j])
    }

    /** Offer r to subscriber i. */
    method Offer(i: nat, r: Record, memory: bool, ghost qs: seq<Queue>)
      requires i < |subs| && LimitsOk(limits) && AllHold(subs, qs, limits)
      modifies subs[i].ring, subs[i].ring.queue
      ensures AllHold(subs, qs[i := Delivered(qs[i], subs[i].request, r, limits, memory)], limits)
      ensures subs[i].ring.queue == old(subs[i].ring.queue) || fresh(subs[i].ring.queue)
      ensures forall j :: 0 <= j < |subs| && j != i ==> subs[j].ring.queue == old(subs[j].ring.queue)
    {
      hide Enqueued, Matches, Holds;
      var s := subs[i];
      OfferOne(s.ring, s.request, r, memory, qs[i]);
      forall j | 0 <= j < |subs| && j != i ensures Holds(subs[j].ring, qs[j]) {
        assert old(Holds(subs[j].ring, qs[j]));
        assert subs[j].ring != subs[i].ring && old(subs[j].ring.queue != subs[i].ring.queue);
      }
    }

    method OfferOne(ring: Ring, request: Request, r: Record, memory: bool, ghost q: Queue)
      requires Holds(ring, q) && ring.limits == limits && LimitsOk(limits)
      modifies ring, ring.queue
      ensures Holds(ring, Delivered(q, request, r, limits, memory))
      ensures ring.queue == old(ring.queue) || fresh(ring.queue)
    {
      hide Enqueued, Matches, Ring.Value, Ring.Valid;
      var wanted := SubscriptionMatches(request, r);
      if wanted { ring.Enqueue(r, memory); }
    }

    /** The queues after the first n subscribers have been offered r. */
    static ghost function Offered(qs: seq<Queue>, subs: seq<Subscription>, n: nat, r: Record, limits: Limits, memory: seq<bool>): (ps: seq<Queue>)
      requires |qs| == |subs| == |memory| && n <= |subs| && 0 < limits.initial
      ensures |ps| == |qs|
      ensures forall j :: 0 <= j < |qs| ==> ps[j] == if j < n then Delivered(qs[j], subs[j].request, r, limits, memory[j]) else qs[j]
    {
      seq(|qs|, j requires 0 <= j < |qs| => if j < n then Delivered(qs[j], subs[j].request, r, limits, memory[j]) else qs[j])
    }

    /** The loop of publish_record; rings and queues are the objects the subscribers own. */
    method OfferAll(r: Record, memory: seq<bool>, ghost qs: seq<Queue>, ghost rings: set<Ring>, ghost queues: set<array<Record>>)
      requires LimitsOk(limits) && AllHold(subs, qs, limits) && |memory| == |subs|
      requires forall j :: 0 <= j < |subs| ==> subs[j].ring in rings && subs[j].ring.queue in queues
      modifies rings, queues
      ensures AllHold(subs, Offered(qs, subs, |subs|, r, limits, memory), limits)
    {
      hide AllHold, Delivered;
      Count(qs);
      assert Offered(qs, subs, 0, r, limits, memory) == qs;
      var i := 0;
      while i < |subs|
        invariant 0 <= i <= |subs| && AllHold(subs, Offered(qs, subs, i, r, limits, memory), limits)
        invariant forall j :: 0 <= j < |subs| ==> subs[j].ring.queue in queues || fresh(subs[j].ring.queue)
      {
        ghost var ps := Offered(qs, subs, i, r, limits, memory);
        Offer(i, r, memory[i], ps);
        assert ps[i := Delivered(ps[i], subs[i].request, r, limits, memory[i])] == Offered(qs, subs, i + 1, r, limits, memory);
        i := i + 1;
      }
    }

    lemma Count(qs: seq<Queue>)
      requires AllHold(subs, qs, limits)
      ensures |qs| == |subs|
    {
    }

    /** What the queues hold in a valid state. */
    ghost function Contents(): (qs: seq<Queue>)
      requires Valid()
      reads this, Rings(), Queues()
      ensures |qs| == |subs| && AllHold(subs, qs, limits) && forall j :: 0 <= j < |subs| ==> qs[j] == subs[j].ring.Value()
    {
      assert forall j :: 0 <= j < |subs| ==> Tracked(subs[j], history[j], log, limits);
      seq(|subs|, j requires 0 <= j < |subs| && subs[j].ring.Valid() reads this, Rings(), Queues() => subs[j].ring.Value())
    }

    /** publish_record: number the record and offer it to every subscriber in turn. */
    method Publish(content: Record, memory: seq<bool>) returns (r: Record)
      requires Valid() && |memory| == |subs|
      modifies this`nextSequence, this`log, Rings(), Queues()
      ensures Valid() && subs == old(subs) && history == old(history)
      ensures r == content.(sequence := old(nextSequence) + 1) && log == old(log) + [r]
      ensures forall j :: 0 <= j < |subs| ==> Contents()[j] == Delivered(old(Contents())[j], subs[j].request, r, limits, memory[j])
    {
      hide Tracked, Separate, AllHold, Delivered, Tracks, Matched, Broker.Contents, Broker.Ids, EventQueue.Fits;
      ghost var qs, log0 := Contents(), log;
      TrackedQueues(qs);
      r := content.(sequence := nextSequence + 1);
      OfferAll(r, memory, qs, Rings(), Queues());
      Retrack(qs, Offered(qs, subs, |subs|, r, limits, memory), r, memory);
      nextSequence := nextSequence + 1;
      log := log + [r];
      StillHold(Offered(qs, subs, |subs|, r, limits, memory));
    }

    /** Valid says of the queues what Tracks says of their values. */
    lemma TrackedQueues(qs: seq<Queue>)
      requires Valid() && qs == Contents()
      ensures forall j :: 0 <= j < |subs| ==>
                && EventQueue.Fits(qs[j], limits) && history[j].since <= |log|
                && Tracks(qs[j], Matched(log, history[j].since, subs[j].request), history[j].returned)
    {
      hide Tracks, Matched;
      forall j | 0 <= j < |subs| ensures EventQueue.Fits(qs[j], limits) && history[j].since <= |log| && Tracks(qs[j], Matched(log, history[j].since, subs[j].request), history[j].returned) {
        assert Tracked(subs[j], history[j], log, limits);
      }
    }

    lemma Retrack(qs: seq<Queue>, ps: seq<Queue>, r: Record, memory: seq<bool>)
      requires LimitsOk(limits) && |qs| == |subs| == |memory| == |history| && AllHold(subs, ps, limits)
      requires forall j :: 0 <= j < |subs| ==>
                && EventQueue.Fits(qs[j], limits) && history[j].since <= |log|
                && Tracks(qs[j], Matched(log, history[j].since, subs[j].request), history[j].returned)
      requires forall j :: 0 <= j < |subs| ==> ps[j] == Delivered(qs[j], subs[j].request, r, limits, memory[j])
      ensures Separate(subs) && forall j :: 0 <= j < |subs| ==> Tracked(subs[j], history[j], log + [r], limits)
    {
      hide Tracked, Delivered, Tracks, Holds, Matched;
      forall j | 0 <= j < |subs| ensures Tracked(subs[j], history[j], log + [r], limits) {
        TrackedOffer(subs[j], history[j], log, qs[j], r, limits, memory[j]);
      }
    }

    lemma StillHold(ps: seq<Queue>)
      requires Valid() && AllHold(subs, ps, limits)
      ensures Contents() == ps
    {
      hide Tracked;
      assert forall j :: 0 <= j < |subs| ==> Holds(subs[j].ring, ps[j]);
    }

    /** find_subscription */
    method Find(owner: nat, id: nat) returns (i: nat)
      ensures i <= |subs| && (i < |subs| ==> subs[i].id == id && subs[i].owner == owner)
      ensures forall j :: 0 <= j < i ==> !(subs[j].id == id && subs[j].owner == owner)
    {
      i := 0;
      while i < |subs|
        invariant 0 <= i <= |subs|
        invariant forall j :: 0 <= j < i ==> !(subs[j].id == id && subs[j].owner == owner)
      {
        if subs[i].id == id && subs[i].owner == owner { return; }
        i := i + 1;
      }
    }

    /** read: the oldest queued records of one subscription, which are then gone from its queue; no other queue
        changes. */
    method Read(owner: nat, id: nat, capacity: nat) returns (outcome: Outcome, out: seq<Record>, ghost at: nat)
      requires Valid()
      modifies this`history, Rings()
      ensures Valid() && subs == old(subs) && log == old(log)
      ensures outcome == Done || (outcome == NotFound && out == [] && unchanged(this) && Contents() == old(Contents())
                                  && forall j :: 0 <= j < |subs| ==> !(subs[j].id == id && subs[j].owner == owner))
      ensures outcome == Done ==>
                && at < |subs| && subs[at].id == id && subs[at].owner == owner
                && var q := old(Contents())[at];
                   var n := if capacity < |q.items| then capacity else |q.items|;
                   && out == q.items[..n] && Contents() == old(Contents())[at := Taken(q, n)]
                   && history == old(history)[at := History(old(history)[at].since, old(history)[at].returned + n)]
    {
      hide Tracked, Numbered, Taken, AllHold, Tracks, Matched, Separate, Broker.Contents, Broker.Ids, EventQueue.Fits;
      var i := Find(owner, id);
      at := i;
      if i == |subs| {
        return NotFound, [], i;
      }
      ghost var qs := Contents();
      ghost var n := if capacity < |qs[i].items| then capacity else |qs[i].items|;
      TrackedQueues(qs);
      assert subs[i].ring in Rings();
      out := ReadAt(i, capacity, qs);
      Reread(qs, i, n);
      history := history[i := History(history[i].since, history[i].returned + n)];
      StillHold(qs[i := Taken(qs[i], n)]);
      outcome := Done;
    }

    method ReadAt(i: nat, capacity: nat, ghost qs: seq<Queue>) returns (out: seq<Record>)
      requires i < |subs| && AllHold(subs, qs, limits)
      modifies subs[i].ring`readIndex, subs[i].ring`queuedCount
      ensures var n := if capacity < |qs[i].items| then capacity else |qs[i].items|;
              out == qs[i].items[..n] && AllHold(subs, qs[i := Taken(qs[i], n)], limits)
    {
      hide Holds, Taken;
      out := ReadRing(subs[i].ring, capacity, qs[i]);
      forall j | 0 <= j < |subs| && j != i ensures Holds(subs[j].ring, qs[j]) {
        assert old(Holds(subs[j].ring, qs[j]));
        assert subs[j].ring != subs[i].ring;
      }
    }

    static method ReadRing(ring: Ring, capacity: nat, ghost q: Queue) returns (out: seq<Record>)
      requires Holds(ring, q)
      modifies ring`readIndex, ring`queuedCount
      ensures var n := if capacity < |q.items| then capacity else |q.items|; out == q.items[..n] && Holds(ring, Taken(q, n))
    {
      hide Ring.Value, Ring.Valid, Taken;
      out := ring.Read(capacity);
    }

    lemma Reread(qs: seq<Queue>, i: nat, n: nat)
      requires |qs| == |subs| == |history| && i < |subs| && n <= |qs[i].items| && AllHold(subs, qs[i := Taken(qs[i], n)], limits)
      requires forall j :: 0 <= j < |subs| ==>
                && history[j].since <= |log| && Tracks(qs[j], Matched(log, history[j].since, subs[j].request), history[j].returned)
      ensures Separate(subs)
      ensures forall j :: 0 <= j < |subs| ==>
                Tracked(subs[j], if j == i then History(history[i].since, history[i].returned + n) else history[j], log, limits)
    {
      hide Tracks, Taken, Matched;
      forall j | 0 <= j < |subs|
        ensures Tracked(subs[j], if j == i then History(history[i].since, history[i].returned + n) else history[j], log, limits)
      {
        assert Holds(subs[j].ring, qs[i := Taken(qs[i], n)][j]);
        if j == i { TrackedTake(subs[i], history[i], log, qs[i], n, limits); }
      }
    }

    /** unsubscribe: exactly the named subscription goes; the others keep their queues. */
    method Unsubscribe(owner: nat, id: nat) returns (outcome: Outcome)
      requires Valid()
      modifies this`subs, this`history
      ensures Valid() && log == old(log)
      ensures outcome == Done ==> exists i :: 0 <= i < |old(subs)| && old(subs)[i].id == id && old(subs)[i].owner == owner
                                              && subs == RemoveAt(old(subs), i)
      ensures outcome != Done ==> unchanged(this)
      ensures outcome == if id == 0 then InvalidArgument
                         else if exists j :: 0 <= j < |old(subs)| && old(subs)[j].id == id && old(subs)[j].owner == owner then Done
                         else NotFound
    {
      hide Tracked, RemoveAt, Numbered;
      if id == 0 {
        return InvalidArgument;
      }
      var i := Find(owner, id);
      if i == |subs| {
        return NotFound;
      }
      ghost var subs0, history0 := subs, history;
      subs := RemoveAt(subs, i);
      history := RemoveAt(history, i);
      RemoveAtIndex(subs0, i);
      RemoveAtIndex(history0, i);
      outcome := Done;
    }
  }
}
