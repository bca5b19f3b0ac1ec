/** One subscriber's event queue: a ring buffer that grows on demand and drops its oldest record when full. */
module EventQueue {
  import opened Arith

  datatype Record = Record(sequence: nat, family: bv64, process: nat, thread: nat, name: string, path: string)

  /** KERNEL_EVENT_QUEUE_INITIAL_CAPACITY and KERNEL_EVENT_QUEUE_MAX_CAPACITY. */
  datatype Limits = Limits(initial: nat, max: nat)

  ghost predicate LimitsOk(l: Limits)
  {
    0 < l.initial <= l.max < TWO32
  }

  /** What a queue means: its capacity, the records in order, and the number lost. */
  datatype Queue = Queue(capacity: nat, items: seq<Record>, dropped: nat)

  datatype Status = OK | NoSpace | NoMemory

  /** Repeated doubling up to the target, clipped to the maximum. */
  function Doubled(c: nat, target: nat, max: nat): (g: nat)
    requires 0 < c && target <= max
    ensures target <= g && (c <= max < TWO32 ==> g <= max) && c <= g
    ensures g == c || g < 2 * target
    ensures c < target ==> g == max || 2 * c <= g || c > (TWO32 - 1) / 2
    decreases target - c
  {
    if target <= c then c
    else if c > (TWO32 - 1) / 2 then target
    else if 2 * c > max then max
    else Doubled(2 * c, target, max)
  }

  function Wanted(required: nat, l: Limits): nat
  {
    if required > l.max then l.max else required
  }

  /** reserve_queue_capacity: the new capacity and the status. */
  function Reserved(capacity: nat, required: nat, l: Limits, memory: bool): (nat, Status)
    requires 0 < l.initial
  {
    if required <= capacity then (capacity, OK)
    else if Wanted(required, l) <= capacity then (capacity, NoSpace)
    else if !memory then (capacity, NoMemory)
    else (Doubled(if capacity == 0 then l.initial else capacity, Wanted(required, l), l.max), OK)
  }

  /** enqueue_record, as an operation on the meaning of the queue. */
  function Enqueued(q: Queue, r: Record, l: Limits, memory: bool): Queue
    requires 0 < l.initial
  {
    var (capacity, status) := Reserved(q.capacity, (|q.items| + 1) % TWO32, l, memory);
    Stored(q, r, capacity, status)
  }

  /** The part of enqueue_record behind the reservation. */
  function Stored(q: Queue, r: Record, capacity: nat, status: Status): Queue
  {
    if status != OK && capacity == 0 then q.(dropped := q.dropped + 1)
    else if |q.items| == capacity && q.items != [] then Queue(capacity, q.items[1..] + [r], q.dropped + 1)
    else Queue(capacity, q.items + [r], if status == NoSpace then q.dropped + 1 else q.dropped)
  }

  function Taken(q: Queue, n: nat): Queue
    requires n <= |q.items|
  {
    q.(items := q.items[n..])
  }

  ghost predicate Fits(q: Queue, l: Limits)
  {
    |q.items| <= q.capacity <= l.max
  }

  // ---------------------------------------------------------------- runs of one queue

  datatype Event = Arrive(r: Record, memory: bool) | Read(count: nat)

  ghost function Step(q: Queue, e: Event, l: Limits): Queue
    requires LimitsOk(l)
  {
    match e
    case Arrive(r, memory) => Enqueued(q, r, l, memory)
    case Read(count) => Taken(q, if count < |q.items| then count else |q.items|)
  }

  ghost function Run(q: Queue, es: seq<Event>, l: Limits): Queue
    requires LimitsOk(l)
    decreases |es|
  {
    if es == [] then q else Step(Run(q, es[..|es| - 1], l), es[|es| - 1], l)
  }

  /** The records that arrived, in order. */
  ghost function Arrived(es: seq<Event>): seq<Record>
    decreases |es|
  {
    if es == [] then []
    else Arrived(es[..|es| - 1]) + (if es[|es| - 1].Arrive? then [es[|es| - 1].r] else [])
  }

  /** How many records reads have returned. */
  ghost function Returned(es: seq<Event>, l: Limits): nat
    requires LimitsOk(l)
    decreases |es|
  {
    if es == [] then 0
    else
      var e, q := es[|es| - 1], Run(Queue(0, [], 0), es[..|es| - 1], l);
      Returned(es[..|es| - 1], l) + (if e.Read? then (if e.count < |q.items| then e.count else |q.items|) else 0)
  }

  /** The last k elements. */
  function Last<T>(s: seq<T>, k: nat): seq<T>
    requires k <= |s|
  {
    s[|s| - k..]
  }

  /** Growing never loses records and always makes room when it succeeds. */
  lemma ReservedBounds(q: Queue, l: Limits, memory: bool)
    requires LimitsOk(l) && Fits(q, l)
    ensures var (capacity, status) := Reserved(q.capacity, (|q.items| + 1) % TWO32, l, memory);
            && q.capacity <= capacity <= l.max
            && (status != OK ==> capacity == q.capacity && |q.items| == capacity)
            && (status == OK && |q.items| == capacity ==> |q.items| + 1 == TWO32)
            && (status != OK || |q.items| == capacity <==> Loses(q, l, memory))
  {
    if |q.items| + 1 < TWO32 {
      assert (|q.items| + 1) % TWO32 == |q.items| + 1;
    } else {
      assert (|q.items| + 1) % TWO32 == 0;
    }
  }

  /** A record is lost exactly when the queue is full and cannot grow. */
  predicate Loses(q: Queue, l: Limits, memory: bool)
  {
    |q.items| == q.capacity && (q.capacity == l.max || !memory)
  }

  /** An arrival appends the record; exactly if the queue is full and cannot grow, one record is lost and counted:
      the oldest, or the new one when there is no buffer at all. */
  lemma ArrivalEffect(q: Queue, r: Record, l: Limits, memory: bool)
    requires LimitsOk(l) && Fits(q, l)
    ensures var p := Enqueued(q, r, l, memory);
            && Fits(p, l)
            && |p.items| + p.dropped == |q.items| + q.dropped + 1
            && p.dropped == q.dropped + (if Loses(q, l, memory) then 1 else 0)
            && p.items == Last(q.items + [r], |p.items|)
  {
    hide Reserved, Doubled, Fits, Last, Stored;
    ReservedBounds(q, l, memory);
    var (capacity, status) := Reserved(q.capacity, (|q.items| + 1) % TWO32, l, memory);
    StoredEffect(q, r, capacity, status, l, memory);
  }

  lemma StoredEffect(q: Queue, r: Record, capacity: nat, status: Status, l: Limits, memory: bool)
    requires LimitsOk(l) && Fits(q, l) && q.capacity <= capacity <= l.max
    requires status != OK ==> capacity == q.capacity && |q.items| == capacity
    requires status == OK && |q.items| == capacity ==> |q.items| + 1 == TWO32
    requires status != OK || |q.items| == capacity <==> Loses(q, l, memory)
    ensures var p := Stored(q, r, capacity, status);
            && Fits(p, l)
            && |p.items| + p.dropped == |q.items| + q.dropped + 1
            && p.dropped == q.dropped + (if Loses(q, l, memory) then 1 else 0)
            && p.items == Last(q.items + [r], |p.items|)
  {
    hide Last;
    LastOf(q.items, r);
  }

  lemma LastOf(s: seq<Record>, r: Record)
    ensures Last(s + [r], |s| + 1) == s + [r] && Last(s + [r], 0) == []
    ensures s != [] ==> Last(s + [r], |s|) == s[1..] + [r]
  {
  }

  /** Over any run of arrivals and reads, with allocation failing at will, the queue holds exactly the
      last of the arrived records, and every arrived record was read, is queued or is counted as dropped. */
  lemma {:induction false} QueueIsSuffix(es: seq<Event>, l: Limits)
    requires LimitsOk(l)
    ensures var q := Run(Queue(0, [], 0), es, l);
            && Fits(q, l)
            && |q.items| <= |Arrived(es)| && q.items == Last(Arrived(es), |q.items|)
            && |Arrived(es)| == Returned(es, l) + |q.items| + q.dropped
    decreases |es|
  {
    hide Enqueued, Fits;
    if es == [] {
      EmptyFits(l);
    } else {
      var n := |es| - 1;
      QueueIsSuffix(es[..n], l);
      var q := Run(Queue(0, [], 0), es[..n], l);
      match es[n]
      case Arrive(r, memory) =>
        ArrivalEffect(q, r, l, memory);
        SuffixGrows(Arrived(es[..n]), q.items, r, |Enqueued(q, r, l, memory).items|);
      case Read(count) =>
        TakenFits(q, if count < |q.items| then count else |q.items|, l);
    }
  }

  lemma EmptyFits(l: Limits)
    requires LimitsOk(l)
    ensures Fits(Queue(0, [], 0), l)
  {
  }

  lemma TakenFits(q: Queue, n: nat, l: Limits)
    requires Fits(q, l) && n <= |q.items|
    ensures Fits(Taken(q, n), l)
  {
  }

  lemma SuffixGrows(all: seq<Record>, items: seq<Record>, r: Record, k: nat)
    requires |items| <= |all| && items == Last(all, |items|) && k <= |items| + 1
    ensures Last(items + [r], k) == Last(all + [r], k)
  {
  }

  // ---------------------------------------------------------------- the ring

  /** Index k places after start in a ring of n cells. */
  function Cell(start: nat, k: nat, n: nat): nat
  {
    if start + k < n then start + k else start + k - n
  }

  class Ring {
    const limits: Limits
    var queue: array<Record>
    var readIndex: nat
    var writeIndex: nat
    var queuedCount: nat
    var droppedCount: nat

    ghost predicate Valid()
      reads this, queue
    {
      && LimitsOk(limits)
      && queuedCount <= queue.Length <= limits.max
      && (queue.Length == 0 ==> readIndex == 0 && writeIndex == 0)
      && (queue.Length > 0 ==> readIndex < queue.Length && writeIndex == Cell(readIndex, queuedCount, queue.Length))
    }

    /** The k-th queued record. */
    ghost function Item(k: nat): Record
      requires Valid() && k < queuedCount
      reads this, queue
    {
      queue[Cell(readIndex, k, queue.Length)]
    }

    ghost function Value(): (q: Queue)
      requires Valid()
      reads this, queue
      ensures Fits(q, limits)
    {
      Queue(queue.Length, seq(queuedCount, k requires 0 <= k < queuedCount && Valid() reads this, queue => Item(k)), droppedCount)
    }

    constructor (limits: Limits)
      requires LimitsOk(limits)
      ensures Valid() && fresh(queue) && this.limits == limits && Value() == Queue(0, [], 0)
    {
      this.limits := limits;
      queue := new Record[0];
      readIndex, writeIndex, queuedCount, droppedCount := 0, 0, 0, 0;
    }

    method GrownCapacity(target: nat) returns (grown: nat)
      requires Valid() && queue.Length < target <= limits.max
      ensures grown == Doubled(if queue.Length == 0 then limits.initial else queue.Length, target, limits.max)
    {
      grown := if queue.Length == 0 then limits.initial else queue.Length;
      ghost var start := grown;
      while grown < target
        invariant 0 < grown && Doubled(start, target, limits.max) == Doubled(grown, target, limits.max)
        decreases target - grown
      {
        if grown > (TWO32 - 1) / 2 {
          grown := target;
          break;
        }
        grown := grown * 2;
        if grown > limits.max {
          grown := limits.max;
        }
      }
    }

    /** reserve_queue_capacity: on growth the records move to the front of a larger array. */
    method Reserve(required: nat, memory: bool) returns (status: Status)
      requires Valid() && (required > queue.Length ==> required > queuedCount)
      modifies this
      ensures Valid() && (queue == old(queue) || fresh(queue))
      ensures var (capacity, st) := Reserved(old(Value()).capacity, required, limits, memory);
              status == st && Value() == old(Value()).(capacity := capacity)
      ensures unchanged(old(queue))
    {
      hide Doubled;
      if required <= queue.Length {
        return OK;
      }
      var target := if required > limits.max then limits.max else required;
      if target <= queue.Length {
        return NoSpace;
      }
      var grown := GrownCapacity(target);
      if !memory {
        return NoMemory;
      }
      var larger := new Record[grown];
      var index := 0;
      while index < queuedCount
        invariant unchanged(this) && unchanged(queue) && fresh(larger)
        invariant 0 <= index <= queuedCount <= larger.Length
        invariant forall k :: 0 <= k < index ==> larger[k] == Item(k)
      {
        ModOnce(readIndex + index, queue.Length);
        larger[index] := queue[(readIndex + index) % queue.Length];
        index := index + 1;
      }
      ghost var items := Value().items;
      queue, readIndex, writeIndex := larger, 0, queuedCount;
      assert forall k :: 0 <= k < queuedCount ==> Item(k) == items[k];
      assert Value().items == items;
      status := OK;
    }

    /** Forget the oldest record. */
    method DropOldest()
      requires Valid() && 0 < queuedCount
      modifies this`readIndex, this`queuedCount
      ensures Valid() && Value() == Taken(old(Value()), 1)
    {
      ghost var items := Value().items;
      ModOnce(readIndex + 1, queue.Length);
      readIndex, queuedCount := (readIndex + 1) % queue.Length, queuedCount - 1;
      assert forall k :: 0 <= k < queuedCount ==> Item(k) == items[k + 1];
      assert Value().items == items[1..];
    }

    /** Write one record behind the newest. */
    method Append(r: Record)
      requires Valid() && queuedCount < queue.Length
      modifies this`writeIndex, this`queuedCount, queue
      ensures Valid() && Value() == old(Value()).(items := old(Value()).items + [r])
    {
      ghost var items := Value().items;
      ModOnce(writeIndex + 1, queue.Length);
      queue[writeIndex] := r;
      writeIndex := (writeIndex + 1) % queue.Length;
      queuedCount := queuedCount + 1;
      assert forall k :: 0 <= k < |items| ==> Item(k) == items[k];
      assert Item(|items|) == r;
      assert Value().items == items + [r];
    }

    lemma ValueFields()
      requires Valid()
      ensures Value().capacity == queue.Length && |Value().items| == queuedCount && Value().dropped == droppedCount
    {
    }

    method CountDrop()
      requires Valid()
      modifies this`droppedCount
      ensures Valid() && Value() == old(Value()).(dropped := old(Value()).dropped + 1)
    {
      ghost var items := Value().items;
      droppedCount := droppedCount + 1;
      assert Value().items == items;
    }

    /** enqueue_record */
    method Enqueue(r: Record, memory: bool)
      requires Valid()
      modifies this, queue
      ensures Valid() && (queue == old(queue) || fresh(queue))
      ensures Value() == Enqueued(old(Value()), r, limits, memory)
    {
      hide Doubled, Reserved, Ring.Value, Ring.Item, Cell;
      ghost var q0 := Value();
      ValueFields();
      ReservedBounds(q0, limits, memory);
      RequiredExceeds(queuedCount);
      var status := Reserve((queuedCount + 1) % TWO32, memory);
      ValueFields();
      if status != OK && queue.Length == 0 {
        CountDrop();
        return;
      }
      if status == NoSpace && queue.Length != 0 {
        CountDrop();
      }
      if queuedCount == queue.Length {
        ValueFields();
        DropOldest();
        if status != NoSpace {
          CountDrop();
        }
      }
      ValueFields();
      Append(r);
    }

    static lemma RequiredExceeds(n: nat)
      requires n < TWO32
      ensures (n + 1) % TWO32 == n + 1 || (n + 1) % TWO32 == 0
    {
    }

    /** read: the oldest records, at most capacity of them. */
    method Read(capacity: nat) returns (out: seq<Record>)
      requires Valid()
      modifies this`readIndex, this`queuedCount
      ensures var n := if capacity < |old(Value()).items| then capacity else |old(Value()).items|;
              Valid() && out == old(Value()).items[..n] && Value() == Taken(old(Value()), n)
    {
      var count := if capacity < queuedCount then capacity else queuedCount;
      ghost var q0 := Value();
      out := [];
      for index := 0 to count
        invariant Valid() && index <= |q0.items| && out == q0.items[..index] && Value() == Taken(q0, index)
      {
        var k := readIndex;
        assert Item(0) == Value().items[0] == q0.items[index];
        out := out + [queue[k]];
        DropOldest();
      }
    }
  }
}
