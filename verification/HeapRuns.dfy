/** Whole runs of malloc, free and realloc on the block list. */
module HeapRuns {
  import opened Arith
  import opened HeapBlocks

  /** The blocks that callers hold. */
  ghost function LiveSet(bs: seq<Block>): set<Block>
  {
    set b | b in bs && !b.free
  }

  /** Index of the block at address a, or |bs|. */
  function IndexOf(bs: seq<Block>, a: nat): (k: nat)
    ensures k <= |bs|
    ensures k < |bs| ==> bs[k].addr == a
    ensures forall j :: 0 <= j < k ==> bs[j].addr != a
  {
    if bs == [] || bs[0].addr == a then 0 else 1 + IndexOf(bs[1..], a)
  }

  /** In a tiling an address names one block. */
  lemma IndexOfAt(bs: seq<Block>, i: nat, lo: nat, hi: nat)
    requires Inv(bs, lo, hi) && i < |bs|
    ensures IndexOf(bs, bs[i].addr) == i
    ensures forall j :: 0 <= j < |bs| && bs[j].addr == bs[i].addr ==> j == i
  {
    AllOrdered(bs, lo, hi);
  }

  lemma LiveIndex(bs: seq<Block>, b: Block, lo: nat, hi: nat) returns (i: nat)
    requires Inv(bs, lo, hi) && b in LiveSet(bs)
    ensures i < |bs| && bs[i] == b && IndexOf(bs, b.addr) == i
  {
    i :| 0 <= i < |bs| && bs[i] == b;
    IndexOfAt(bs, i, lo, hi);
  }

  /** Live payloads never overlap and lie inside the window. */
  lemma LiveDisjoint(bs: seq<Block>, b: Block, c: Block, lo: nat, hi: nat)
    requires Inv(bs, lo, hi) && b in LiveSet(bs) && c in LiveSet(bs) && b != c
    ensures b.End() <= c.addr || c.End() <= b.addr
    ensures lo <= b.addr && b.End() <= hi
  {
    AllOrdered(bs, lo, hi);
    var i := LiveIndex(bs, b, lo, hi);
    var j := LiveIndex(bs, c, lo, hi);
  }

  // ---------------------------------------------------------------- one operation

  lemma SplitLive(bs: seq<Block>, i: nat, n: nat, lo: nat, hi: nat)
    requires Inv(bs, lo, hi) && i < |bs| && n % 16 == 0 && n <= bs[i].payload
    ensures var r := Split(bs, i, n);
            && Inv(r, lo, hi) && i < |r| && r[i] == bs[i].(payload := r[i].payload)
            && n <= r[i].payload <= n + HEADER + SLACK
            && LiveSet(r) == LiveSet(bs) - {bs[i]} + (if bs[i].free then {} else {r[i]})
  {
    SplitShape(bs, i, n, lo, hi);
    var r := Split(bs, i, n);
    IndexOfAt(bs, i, lo, hi);
    hide Inv, Tiles, Split;
    forall b | b in LiveSet(bs) && b != bs[i]
      ensures b in LiveSet(r)
    {
      var k :| 0 <= k < |bs| && bs[k] == b;
      assert r[if k <= i || r == bs then k else k + 1] == b;
    }
    forall b | b in LiveSet(r) && b != r[i]
      ensures b in LiveSet(bs) && b != bs[i]
    {
      var k :| 0 <= k < |r| && r[k] == b;
      assert bs[if k <= i || r == bs then k else k - 1] == b;
    }
  }

  lemma AbsorbLive(bs: seq<Block>, i: nat, lo: nat, hi: nat)
    requires Inv(bs, lo, hi) && i + 1 < |bs| && bs[i + 1].free
    ensures var r := Absorb(bs, i);
            && Inv(r, lo, hi) && |r| == |bs| - 1
            && r[i] == Block(bs[i].addr, bs[i].payload + HEADER + bs[i + 1].payload, bs[i].free)
            && LiveSet(r) == LiveSet(bs) - {bs[i]} + (if bs[i].free then {} else {r[i]})
  {
    AbsorbShape(bs, i, lo, hi);
    var r := Absorb(bs, i);
    IndexOfAt(bs, i, lo, hi);
    hide Inv, Tiles, Absorb;
    forall b | b in LiveSet(bs) && b != bs[i]
      ensures b in LiveSet(r)
    {
      var k :| 0 <= k < |bs| && bs[k] == b;
      assert r[if k < i then k else k - 1] == b;
    }
    forall b | b in LiveSet(r) && b != r[i]
      ensures b in LiveSet(bs) && b != bs[i]
    {
      var k :| 0 <= k < |r| && r[k] == b;
      assert bs[if k < i then k else k + 1] == b;
    }
  }

  lemma SetFreeLive(bs: seq<Block>, i: nat, free: bool, lo: nat, hi: nat)
    requires Inv(bs, lo, hi) && i < |bs|
    ensures var r := SetFree(bs, i, free);
            && Inv(r, lo, hi)
            && LiveSet(r) == LiveSet(bs) - {bs[i]} + (if free then {} else {r[i]})
  {
    var r := SetFree(bs, i, free);
    SetFreeShape(bs, i, free, lo, hi);
    IndexOfAt(bs, i, lo, hi);
    hide Inv, Tiles;
    forall b | b in LiveSet(bs) && b != bs[i]
      ensures b in LiveSet(r)
    {
      var k :| 0 <= k < |bs| && bs[k] == b;
      assert r[k] == b;
    }
    forall b | b in LiveSet(r) && b != r[i]
      ensures b in LiveSet(bs) && b != bs[i]
    {
      var k :| 0 <= k < |r| && r[k] == b;
      assert bs[k] == b;
    }
  }

  /** Allocation adds one live block of n to n + 48 bytes and touches no other. */
  lemma TakeLive(bs: seq<Block>, k: nat, n: nat, lo: nat, hi: nat)
    requires Inv(bs, lo, hi) && k < |bs| && Fits(bs[k], n) && n % 16 == 0
    ensures var r := Take(bs, k, n);
            && Inv(r, lo, hi) && k < |r|
            && r[k] == Block(bs[k].addr, r[k].payload, false)
            && n <= r[k].payload <= n + HEADER + SLACK
            && LiveSet(r) == LiveSet(bs) + {r[k]}
  {
    NotLive(bs, k);
    NotLive(Split(bs, k, n), k) by { SplitLive(bs, k, n, lo, hi); }
    hide Inv, LiveSet, Split;
    SplitLive(bs, k, n, lo, hi);
    SetFreeLive(Split(bs, k, n), k, false, lo, hi);
  }

  lemma NotLive(bs: seq<Block>, i: nat)
    requires i < |bs| && bs[i].free
    ensures bs[i] !in LiveSet(bs)
  {
  }

  lemma CoalesceLive(bs: seq<Block>, i: nat, lo: nat, hi: nat)
    requires Inv(bs, lo, hi) && i < |bs| && bs[i].free
    ensures Inv(Coalesce(bs, i), lo, hi)
    ensures LiveSet(Coalesce(bs, i)) == LiveSet(bs)
  {
    hide Inv, LiveSet, Absorb;
    var b1 := AbsorbNext(bs, i);
    if i + 1 < |bs| && bs[i + 1].free {
      NotLive(bs, i);
      AbsorbLive(bs, i, lo, hi);
    }
    if 0 < i && b1[i - 1].free {
      NotLive(b1, i - 1);
      AbsorbLive(b1, i - 1, lo, hi);
    }
  }

  /** Freeing removes exactly the freed block from the live blocks. */
  lemma ReleaseLive(bs: seq<Block>, i: nat, lo: nat, hi: nat)
    requires Inv(bs, lo, hi) && i < |bs| && !bs[i].free
    ensures Inv(Release(bs, i), lo, hi)
    ensures LiveSet(Release(bs, i)) == LiveSet(bs) - {bs[i]}
  {
    hide Inv, LiveSet, Coalesce;
    SetFreeLive(bs, i, true, lo, hi);
    CoalesceLive(SetFree(bs, i, true), i, lo, hi);
  }

  // ---------------------------------------------------------------- realloc

  datatype Fate = InPlace | Moved(to: nat) | Failed

  /** In which of the four ways realloc serves a live block i that must hold n bytes. */
  function ResizeFate(bs: seq<Block>, i: nat, n: nat): Fate
    requires i < |bs|
  {
    if bs[i].payload >= n || CanGrow(bs, i, n) then InPlace
    else var k := FirstFit(bs, n); if k < |bs| then Moved(bs[k].addr) else Failed
  }

  predicate CanGrow(bs: seq<Block>, i: nat, n: nat)
    requires i < |bs|
  {
    i + 1 < |bs| && bs[i + 1].free && bs[i].payload + HEADER + bs[i + 1].payload >= n
  }

  function Resize(bs: seq<Block>, i: nat, n: nat): (r: seq<Block>)
    requires i < |bs|
  {
    if bs[i].payload >= n then Split(bs, i, n)
    else if CanGrow(bs, i, n) then
      var g := Absorb(bs, i);
      if i < |g| then Split(g, i, n) else g
    else
      var k := FirstFit(bs, n);
      if k == |bs| then bs
      else
        var t := Take(bs, k, n);
        var j := IndexOf(t, bs[i].addr);
        if j < |t| then Release(t, j) else t
  }

  /** Where the resized block lives, if realloc succeeds. */
  function ResizedAddr(bs: seq<Block>, i: nat, n: nat): nat
    requires i < |bs|
  {
    match ResizeFate(bs, i, n) case Moved(to) => to case _ => bs[i].addr
  }

  /** Where the bytes end that block i could have without moving: its free successor's, or its own. */
  function StretchEnd(bs: seq<Block>, i: nat): nat
    requires i < |bs|
  {
    if i + 1 < |bs| && bs[i + 1].free then bs[i + 1].End() else bs[i].End()
  }

  /** Realloc stays in place exactly if the stretch up to the end of a free successor holds n bytes; it fails exactly
      if that stretch does not and no free block does; otherwise it moves to the first free block that does. */
  lemma ResizeFateIff(bs: seq<Block>, i: nat, n: nat, lo: nat, hi: nat)
    requires Inv(bs, lo, hi) && i < |bs| && !bs[i].free
    ensures ResizeFate(bs, i, n).InPlace? <==> bs[i].Start() + n <= StretchEnd(bs, i)
    ensures ResizeFate(bs, i, n).Failed? <==> StretchEnd(bs, i) < bs[i].Start() + n && forall b :: b in bs && b.free ==> b.payload < n
    ensures ResizeFate(bs, i, n).Moved? ==>
              exists k :: && 0 <= k < |bs| && bs[k].free && n <= bs[k].payload && ResizeFate(bs, i, n).to == bs[k].addr != bs[i].addr
                          && forall j :: 0 <= j < k && bs[j].free ==> bs[j].payload < n
  {
    if i + 1 < |bs| { assert bs[i + 1].addr == bs[i].End(); }
    var k := FirstFit(bs, n);
    assert forall j :: 0 <= j < k ==> !Fits(bs[j], n);
    if k < |bs| {
      assert bs[k] in bs;
      IndexOfAt(bs, k, lo, hi);
    } else {
      assert forall b :: b in bs && b.free ==> b.payload < n;
    }
  }

  /** Set algebra of replacing the live block i by a block at the same address. */
  lemma Replaced(bs: seq<Block>, i: nat, g: set<Block>, b: Block, c: Block, lo: nat, hi: nat)
    requires Inv(bs, lo, hi) && i < |bs| && b.addr == bs[i].addr
    requires g == LiveSet(bs) - {bs[i]} + {b}
    ensures g - {b} + {c} == LiveSet(bs) - {bs[i]} + {c}
  {
    AddrsDistinct(bs, i, b, lo, hi);
  }

  lemma ResizeGrowLive(bs: seq<Block>, i: nat, n: nat, lo: nat, hi: nat) returns (b: Block)
    requires Inv(bs, lo, hi) && i < |bs| && !bs[i].free && n % 16 == 0 && CanGrow(bs, i, n)
    ensures var r := Split(Absorb(bs, i), i, n);
            && Inv(r, lo, hi) && n <= b.payload <= n + HEADER + SLACK && !b.free && b.addr == bs[i].addr
            && LiveSet(r) == LiveSet(bs) - {bs[i]} + {b}
  {
    AbsorbLive(bs, i, lo, hi);
    var g := Absorb(bs, i);
    hide Inv, LiveSet, Absorb, Split;
    SplitLive(g, i, n, lo, hi);
    b := Split(g, i, n)[i];
    Replaced(bs, i, LiveSet(g), g[i], b, lo, hi);
  }

  lemma ResizeMoveLive(bs: seq<Block>, i: nat, n: nat, k: nat, lo: nat, hi: nat) returns (b: Block)
    requires Inv(bs, lo, hi) && i < |bs| && !bs[i].free && n % 16 == 0 && k < |bs| && Fits(bs[k], n)
    ensures var t := Take(bs, k, n);
            && IndexOf(t, bs[i].addr) < |t|
            && var r := Release(t, IndexOf(t, bs[i].addr));
            && Inv(r, lo, hi) && n <= b.payload <= n + HEADER + SLACK && !b.free && b.addr == bs[k].addr
            && (forall c :: c in LiveSet(bs) ==> c.addr != b.addr)
            && LiveSet(r) == LiveSet(bs) - {bs[i]} + {b}
  {
    assert bs[i] in LiveSet(bs);
    FreshAddr(bs, k, lo, hi);
    TakeLive(bs, k, n, lo, hi);
    hide Inv, LiveSet, Take, Release;
    var t := Take(bs, k, n);
    b := t[k];
    var j := LiveIndex(t, bs[i], lo, hi);
    assert !t[j].free;
    ReleaseLive(t, j, lo, hi);
  }

  /** A free block's address is nobody's. */
  lemma FreshAddr(bs: seq<Block>, k: nat, lo: nat, hi: nat)
    requires Inv(bs, lo, hi) && k < |bs| && bs[k].free
    ensures forall c :: c in LiveSet(bs) ==> c.addr != bs[k].addr
  {
    IndexOfAt(bs, k, lo, hi);
  }

  /** Realloc replaces the held block by one of n to n + 48 bytes, or fails and changes nothing. */
  lemma ResizeLive(bs: seq<Block>, i: nat, n: nat, lo: nat, hi: nat) returns (b: Block)
    requires Inv(bs, lo, hi) && i < |bs| && !bs[i].free && n % 16 == 0
    ensures Inv(Resize(bs, i, n), lo, hi)
    ensures if ResizeFate(bs, i, n).Failed? then Resize(bs, i, n) == bs
            else && n <= b.payload <= n + HEADER + SLACK && !b.free && b.addr == ResizedAddr(bs, i, n)
                 && (b.addr != bs[i].addr ==> forall c :: c in LiveSet(bs) ==> c.addr != b.addr)
                 && LiveSet(Resize(bs, i, n)) == LiveSet(bs) - {bs[i]} + {b}
  {
    b := bs[i];
    if bs[i].payload >= n {
      SplitLive(bs, i, n, lo, hi);
      hide Inv, LiveSet, Split;
      b := Split(bs, i, n)[i];
    } else if CanGrow(bs, i, n) {
      b := ResizeGrowLive(bs, i, n, lo, hi);
      assert i < |Absorb(bs, i)|;
      hide Inv, LiveSet, Split, Absorb;
    } else if FirstFit(bs, n) < |bs| {
      var k := FirstFit(bs, n);
      b := ResizeMoveLive(bs, i, n, k, lo, hi);
      hide Inv, LiveSet, Take, Release;
    }
  }

  /** The resized block has room for min(old, new) bytes exactly if the rounding does not wrap, or the block was too
      small to be cut: a larger block is cut to nothing by a wrapping size. */
  lemma ResizeKeepsRoomIff(bs: seq<Block>, i: nat, size: nat, lo: nat, hi: nat) returns (b: Block)
    requires Inv(bs, lo, hi) && i < |bs| && !bs[i].free && 0 < size < TWO64 && !ResizeFate(bs, i, AlignUp16(size)).Failed?
    ensures var r := Resize(bs, i, AlignUp16(size));
            && b in LiveSet(r) && b.addr == ResizedAddr(bs, i, AlignUp16(size))
            && (b.payload >= bs[i].payload || b.payload >= size <==> size <= TWO64 - 16 || bs[i].payload <= HEADER + SLACK)
  {
    AlignUpCovers(size);
    if size <= TWO64 - 16 {
      hide Inv, LiveSet, Resize, ResizeFate, ResizedAddr, AlignUp16;
      b := ResizeLive(bs, i, AlignUp16(size), lo, hi);
    } else {
      hide Inv, Split;
      SplitLive(bs, i, 0, lo, hi);
      b := Split(bs, i, 0)[i];
      CutAt(bs, i);
    }
  }

  lemma CutAt(bs: seq<Block>, i: nat)
    requires i < |bs|
    ensures i < |Split(bs, i, 0)| && Split(bs, i, 0)[i].payload == if bs[i].payload <= HEADER + SLACK then bs[i].payload else 0
  {
  }

  lemma AddrsDistinct(bs: seq<Block>, i: nat, b: Block, lo: nat, hi: nat)
    requires Inv(bs, lo, hi) && i < |bs| && b.addr == bs[i].addr
    ensures forall c :: c in LiveSet(bs) && c != bs[i] ==> c != b
  {
    IndexOfAt(bs, i, lo, hi);
  }

  // ---------------------------------------------------------------- runs

  datatype Op = Malloc(n: nat) | Free(addr: nat) | Realloc(addr: nat, n: nat)

  /** The blocks, and for each held block the aligned byte count its holder asked for. */
  datatype HeapState = HeapState(blocks: seq<Block>, want: map<nat, nat>)

  function InitialBlock(lo: nat, hi: nat): Block
    requires lo + HEADER <= hi
  {
    Block(lo, hi - lo - HEADER, true)
  }

  /** Requests are already rounded up; free and realloc name blocks that are held. */
  ghost predicate Legal(h: HeapState, op: Op)
  {
    match op
    case Malloc(n) => n % 16 == 0
    case Free(a) => a in h.want
    case Realloc(a, n) => a in h.want && n % 16 == 0
  }

  ghost function Step(h: HeapState, op: Op): HeapState
  {
    match op
    case Malloc(n) =>
      var k := FirstFit(h.blocks, n);
      if k == |h.blocks| then h else HeapState(Take(h.blocks, k, n), h.want[h.blocks[k].addr := n])
    case Free(a) =>
      var i := IndexOf(h.blocks, a);
      if i == |h.blocks| then h else HeapState(Release(h.blocks, i), h.want - {a})
    case Realloc(a, n) =>
      var i := IndexOf(h.blocks, a);
      if i == |h.blocks| || ResizeFate(h.blocks, i, n).Failed? then h
      else HeapState(Resize(h.blocks, i, n), (h.want - {a})[ResizedAddr(h.blocks, i, n) := n])
  }

  ghost predicate Good(h: HeapState, lo: nat, hi: nat)
  {
    && Inv(h.blocks, lo, hi)
    && (forall b :: b in LiveSet(h.blocks) ==>
          b.addr in h.want && h.want[b.addr] <= b.payload <= h.want[b.addr] + HEADER + SLACK)
    && (forall a :: a in h.want ==> exists b :: b in LiveSet(h.blocks) && b.addr == a)
  }

  lemma StepGood(h: HeapState, op: Op, lo: nat, hi: nat)
    requires Good(h, lo, hi) && Legal(h, op)
    ensures Good(Step(h, op), lo, hi)
  {
    var bs := h.blocks;
    match op
    case Malloc(n) =>
      var k := FirstFit(bs, n);
      if k < |bs| {
        TakeLive(bs, k, n, lo, hi);
        FreshAddr(bs, k, lo, hi);
        hide Inv, LiveSet, Take;
        WantAfter(h, Step(h, op), LiveSet(bs), Take(bs, k, n)[k], n, lo, hi);
      }
    case Free(a) =>
      var b :| b in LiveSet(bs) && b.addr == a;
      FreeGood(h, b, lo, hi);
    case Realloc(a, n) =>
      var b :| b in LiveSet(bs) && b.addr == a;
      ReallocGood(h, b, n, lo, hi);
  }

  lemma FreeGood(h: HeapState, b: Block, lo: nat, hi: nat)
    requires Good(h, lo, hi) && b in LiveSet(h.blocks)
    ensures Good(Step(h, Free(b.addr)), lo, hi)
    ensures Step(h, Free(b.addr)).want == h.want - {b.addr}
  {
    var i := LiveIndex(h.blocks, b, lo, hi);
    ReleaseLive(h.blocks, i, lo, hi);
    var h' := Step(h, Free(b.addr));
    assert h'.blocks == Release(h.blocks, i) && h'.want == h.want - {b.addr};
    hide *;
    OthersElsewhere(h.blocks, b, lo, hi);
    WantWithout(h, h', b, lo, hi);
  }

  lemma WantWithout(h: HeapState, h': HeapState, b: Block, lo: nat, hi: nat)
    requires Good(h, lo, hi) && Inv(h'.blocks, lo, hi)
    requires b in LiveSet(h.blocks) && LiveSet(h'.blocks) == LiveSet(h.blocks) - {b} && h'.want == h.want - {b.addr}
    requires forall c :: c in LiveSet(h.blocks) && c != b ==> c.addr != b.addr
    ensures Good(h', lo, hi)
  {
    hide Inv, LiveSet;
    forall x | x in h'.want ensures exists c :: c in LiveSet(h'.blocks) && c.addr == x {
      var c :| c in LiveSet(h.blocks) && c.addr == x;
      assert c in LiveSet(h'.blocks);
    }
  }

  lemma ReallocGood(h: HeapState, b: Block, n: nat, lo: nat, hi: nat)
    requires Good(h, lo, hi) && b in LiveSet(h.blocks) && n % 16 == 0
    ensures Good(Step(h, Realloc(b.addr, n)), lo, hi)
  {
    var i := LiveIndex(h.blocks, b, lo, hi);
    var c := ResizeLive(h.blocks, i, n, lo, hi);
    OthersElsewhere(h.blocks, b, lo, hi);
    hide Inv, LiveSet, Resize, ResizeFate, ResizedAddr;
    if !ResizeFate(h.blocks, i, n).Failed? {
      var h' := Step(h, Realloc(b.addr, n));
      var kept := LiveSet(h.blocks) - {b};
      forall x | x in h'.want && x != c.addr ensures exists d :: d in kept && d.addr == x {
        var d :| d in LiveSet(h.blocks) && d.addr == x;
        assert d in kept;
      }
      WantAfter(h, h', kept, c, n, lo, hi);
    }
  }

  lemma OthersElsewhere(bs: seq<Block>, b: Block, lo: nat, hi: nat)
    requires Inv(bs, lo, hi) && b in LiveSet(bs)
    ensures forall c :: c in LiveSet(bs) && c != b ==> c.addr != b.addr
  {
    var i := LiveIndex(bs, b, lo, hi);
    IndexOfAt(bs, i, lo, hi);
  }

  /** Bookkeeping shared by malloc and realloc: the kept blocks, plus one block b asked for n. */
  lemma WantAfter(h: HeapState, h': HeapState, kept: set<Block>, b: Block, n: nat, lo: nat, hi: nat)
    requires Good(h, lo, hi) && Inv(h'.blocks, lo, hi)
    requires kept <= LiveSet(h.blocks) && LiveSet(h'.blocks) == kept + {b}
    requires n <= b.payload <= n + HEADER + SLACK
    requires forall c :: c in kept ==> c.addr != b.addr && c.addr in h'.want && h'.want[c.addr] == h.want[c.addr]
    requires b.addr in h'.want && h'.want[b.addr] == n
    requires forall a :: a in h'.want && a != b.addr ==> exists c :: c in kept && c.addr == a
    ensures Good(h', lo, hi)
  {
    hide Inv, LiveSet;
    assert b in LiveSet(h'.blocks);
    forall a | a in h'.want ensures exists c :: c in LiveSet(h'.blocks) && c.addr == a {
      if a != b.addr {
        var c :| c in kept && c.addr == a;
        assert c in LiveSet(h'.blocks);
      }
    }
  }

  ghost function Run(h: HeapState, ops: seq<Op>): HeapState
    decreases |ops|
  {
    if ops == [] then h else Run(Step(h, ops[0]), ops[1..])
  }

  ghost predicate LegalRun(h: HeapState, ops: seq<Op>)
    decreases |ops|
  {
    ops == [] || (Legal(h, ops[0]) && LegalRun(Step(h, ops[0]), ops[1..]))
  }

  /** Every run of malloc, free and realloc on held pointers keeps the tiling and the request bounds. */
  lemma {:induction false} RunGood(h: HeapState, ops: seq<Op>, lo: nat, hi: nat)
    requires Good(h, lo, hi) && LegalRun(h, ops)
    ensures Good(Run(h, ops), lo, hi)
    ensures Bytes(Run(h, ops).blocks) == hi - lo
    decreases |ops|
  {
    if ops == [] {
      BytesConserved(h.blocks, lo, hi);
    } else {
      StepGood(h, ops[0], lo, hi);
      RunGood(Step(h, ops[0]), ops[1..], lo, hi);
    }
  }

  // ---------------------------------------------------------------- fragmentation

  /** Realloc's shrinking split in front of a free block is the one step that leaves two free neighbours. */
  predicate Fragments(bs: seq<Block>, i: nat, n: nat)
    requires i < |bs|
  {
    bs[i].payload > n + HEADER + SLACK && i + 1 < |bs| && bs[i + 1].free
  }

  lemma TakeApart(bs: seq<Block>, k: nat, n: nat, lo: nat, hi: nat)
    requires Inv(bs, lo, hi) && NoAdjacentFree(bs) && k < |bs| && Fits(bs[k], n) && n % 16 == 0
    ensures NoAdjacentFree(Take(bs, k, n))
  {
    SplitShape(bs, k, n, lo, hi);
    var s := Split(bs, k, n);
    var t := Take(bs, k, n);
    forall i, j | 0 <= i < |t| && j == i + 1 < |t| ensures !(t[i].free && t[j].free) {
      if i != k && j != k {
        if s == bs || j < k { assert t[i] == bs[i] && t[j] == bs[j]; }
        else if i == k + 1 { assert t[j] == bs[k + 1]; }
        else { assert t[i] == bs[i - 1] && t[j] == bs[j - 1]; }
      }
    }
  }

  /** Free neighbours only around i. */
  ghost predicate ApartExcept(bs: seq<Block>, k: nat)
  {
    forall i, j :: 0 <= i < |bs| && j == i + 1 < |bs| && i != k && j != k ==> !(bs[i].free && bs[j].free)
  }

  lemma AbsorbNextApart(bs: seq<Block>, k: nat, lo: nat, hi: nat)
    requires Inv(bs, lo, hi) && k < |bs| && bs[k].free && ApartExcept(bs, k)
    ensures var b1 := AbsorbNext(bs, k);
            && Inv(b1, lo, hi) && k < |b1| && b1[k].free && ApartExcept(b1, k)
            && (k + 1 < |b1| ==> !b1[k + 1].free)
  {
    if k + 1 < |bs| && bs[k + 1].free {
      AbsorbShape(bs, k, lo, hi);
      hide Inv, Absorb;
      var b1 := Absorb(bs, k);
      assert k + 2 < |bs| ==> !(bs[k + 1].free && bs[k + 2].free);
      assert k + 1 < |b1| ==> b1[k + 1] == bs[k + 2];
      forall i, j | 0 <= i < |b1| && j == i + 1 < |b1| && i != k && j != k ensures !(b1[i].free && b1[j].free) {
        if j < k { assert b1[i] == bs[i] && b1[j] == bs[j]; }
        else { assert b1[i] == bs[i + 1] && b1[j] == bs[j + 1]; }
      }
    }
  }

  lemma AbsorbIntoPrevApart(bs: seq<Block>, k: nat, lo: nat, hi: nat)
    requires Inv(bs, lo, hi) && k < |bs| && bs[k].free && ApartExcept(bs, k)
    requires k + 1 < |bs| ==> !bs[k + 1].free
    ensures NoAdjacentFree(AbsorbIntoPrev(bs, k))
  {
    if 0 < k && bs[k - 1].free {
      AbsorbShape(bs, k - 1, lo, hi);
      hide Inv, Absorb;
      var r := Absorb(bs, k - 1);
      assert k > 1 ==> !bs[k - 2].free;
      forall i, j | 0 <= i < |r| && j == i + 1 < |r| ensures !(r[i].free && r[j].free) {
        if j < k - 1 { assert r[i] == bs[i] && r[j] == bs[j]; }
        else if j == k - 1 { assert r[i] == bs[i]; }
        else if i == k - 1 { assert r[j] == bs[k + 1]; }
        else { assert r[i] == bs[i + 1] && r[j] == bs[j + 1]; }
      }
    }
  }

  lemma CoalesceApart(bs: seq<Block>, k: nat, lo: nat, hi: nat)
    requires Inv(bs, lo, hi) && k < |bs| && bs[k].free && ApartExcept(bs, k)
    ensures NoAdjacentFree(Coalesce(bs, k))
  {
    AbsorbNextApart(bs, k, lo, hi);
    AbsorbIntoPrevApart(AbsorbNext(bs, k), k, lo, hi);
  }

  lemma ReleaseApart(bs: seq<Block>, i: nat, lo: nat, hi: nat)
    requires Inv(bs, lo, hi) && NoAdjacentFree(bs) && i < |bs| && !bs[i].free
    ensures NoAdjacentFree(Release(bs, i))
  {
    SetFreeLive(bs, i, true, lo, hi);
    CoalesceApart(SetFree(bs, i, true), i, lo, hi);
  }

  lemma SplitApart(bs: seq<Block>, i: nat, n: nat, lo: nat, hi: nat)
    requires Inv(bs, lo, hi) && NoAdjacentFree(bs) && i < |bs| && !bs[i].free && n % 16 == 0 && n <= bs[i].payload
    ensures NoAdjacentFree(Split(bs, i, n)) <==> !Fragments(bs, i, n)
  {
    SplitShape(bs, i, n, lo, hi);
    var r := Split(bs, i, n);
    if Fragments(bs, i, n) {
      assert r[i + 1].free && r[i + 2] == bs[i + 1];
    } else {
      forall k, j | 0 <= k < |r| && j == k + 1 < |r| ensures !(r[k].free && r[j].free) {
        if r == bs || j < i { assert r[k] == bs[k] && r[j] == bs[j]; }
        else if k == i + 1 { assert r[j] == bs[i + 1]; }
        else if k > i + 1 { assert r[k] == bs[k - 1] && r[j] == bs[j - 1]; }
      }
    }
  }

  lemma GrowApart(bs: seq<Block>, i: nat, n: nat, lo: nat, hi: nat)
    requires Inv(bs, lo, hi) && NoAdjacentFree(bs) && i < |bs| && !bs[i].free && CanGrow(bs, i, n) && n % 16 == 0
    ensures NoAdjacentFree(Split(Absorb(bs, i), i, n))
  {
    AbsorbShape(bs, i, lo, hi);
    var g := Absorb(bs, i);
    forall k, j | 0 <= k < |g| && j == k + 1 < |g| ensures !(g[k].free && g[j].free) {
      if j <= i { assert g[k] == bs[k]; if j < i { assert g[j] == bs[j]; } }
      else if k > i { assert g[k] == bs[k + 1] && g[j] == bs[j + 1]; }
    }
    if i + 1 < |g| { assert g[i + 1] == bs[i + 2] && bs[i + 1].free; }
    SplitApart(g, i, n, lo, hi);
  }

  /** Realloc keeps free blocks apart exactly when it does not split in front of a free block. */
  lemma ResizeApart(bs: seq<Block>, i: nat, n: nat, lo: nat, hi: nat)
    requires Inv(bs, lo, hi) && NoAdjacentFree(bs) && i < |bs| && !bs[i].free && n % 16 == 0
    ensures NoAdjacentFree(Resize(bs, i, n)) <==> !Fragments(bs, i, n)
  {
    if bs[i].payload >= n {
      SplitApart(bs, i, n, lo, hi);
    } else if CanGrow(bs, i, n) {
      GrowApart(bs, i, n, lo, hi);
    } else {
      var k := FirstFit(bs, n);
      if k < |bs| {
        TakeLive(bs, k, n, lo, hi);
        TakeApart(bs, k, n, lo, hi);
        var t := Take(bs, k, n);
        assert bs[i] in LiveSet(bs) && bs[i] in LiveSet(t);
        var j := LiveIndex(t, bs[i], lo, hi);
        ReleaseApart(t, j, lo, hi);
      }
    }
  }

  ghost predicate Fragmenting(h: HeapState, op: Op)
  {
    op.Realloc? &&
    var i := IndexOf(h.blocks, op.addr);
    i < |h.blocks| && Fragments(h.blocks, i, op.n)
  }

  ghost predicate NeverFragments(h: HeapState, ops: seq<Op>)
    decreases |ops|
  {
    ops == [] || (!Fragmenting(h, ops[0]) && NeverFragments(Step(h, ops[0]), ops[1..]))
  }

  lemma StepApart(h: HeapState, op: Op, lo: nat, hi: nat)
    requires Good(h, lo, hi) && Legal(h, op) && NoAdjacentFree(h.blocks)
    ensures NoAdjacentFree(Step(h, op).blocks) <==> !Fragmenting(h, op)
  {
    var bs := h.blocks;
    match op
    case Malloc(n) =>
      var k := FirstFit(bs, n);
      if k < |bs| { TakeApart(bs, k, n, lo, hi); }
    case Free(a) =>
      var b :| b in LiveSet(bs) && b.addr == a;
      var i := LiveIndex(bs, b, lo, hi);
      ReleaseApart(bs, i, lo, hi);
    case Realloc(a, n) =>
      var b :| b in LiveSet(bs) && b.addr == a;
      var i := LiveIndex(bs, b, lo, hi);
      ResizeApart(bs, i, n, lo, hi);
  }

  /** Every run without that one step keeps free blocks apart. */
  lemma {:induction false} RunApart(h: HeapState, ops: seq<Op>, lo: nat, hi: nat)
    requires Good(h, lo, hi) && LegalRun(h, ops) && NoAdjacentFree(h.blocks) && NeverFragments(h, ops)
    ensures Good(Run(h, ops), lo, hi) && NoAdjacentFree(Run(h, ops).blocks)
    decreases |ops|
  {
    if ops != [] {
      StepGood(h, ops[0], lo, hi);
      StepApart(h, ops[0], lo, hi);
      RunApart(Step(h, ops[0]), ops[1..], lo, hi);
    }
  }

  /** Blocks i..j are all free: a contiguous stretch that one merged block could serve. */
  ghost predicate FreeRun(bs: seq<Block>, i: nat, j: nat)
  {
    i <= j < |bs| && forall k :: i <= k <= j ==> bs[k].free
  }

  lemma FreeRunIsOneBlock(bs: seq<Block>, i: nat, j: nat)
    requires NoAdjacentFree(bs) && FreeRun(bs, i, j)
    ensures i == j
  {
    if i < j {
      Neighbours(bs, i);
      assert false;
    }
  }

  lemma Neighbours(bs: seq<Block>, i: nat)
    requires NoAdjacentFree(bs) && i + 1 < |bs|
    ensures !(bs[i].free && bs[i + 1].free)
  {
  }

  /** With free blocks apart, malloc fails exactly when no contiguous free stretch is large enough. */
  lemma NullOnlyWhenFull(bs: seq<Block>, n: nat, lo: nat, hi: nat)
    requires Inv(bs, lo, hi) && NoAdjacentFree(bs)
    ensures FirstFit(bs, n) == |bs| <==> forall i: nat, j: nat :: FreeRun(bs, i, j) ==> bs[j].End() < bs[i].Start() + n
  {
    if FirstFit(bs, n) == |bs| {
      forall i: nat, j: nat | FreeRun(bs, i, j) ensures bs[j].End() < bs[i].Start() + n {
        FreeRunIsOneBlock(bs, i, j);
        assert !Fits(bs[i], n);
      }
    } else {
      var k := FirstFit(bs, n);
      assert FreeRun(bs, k, k);
    }
  }

  /** The shrinking realloc does break it: 128 contiguous free bytes, yet no 96-byte allocation. */
  lemma ShrinkFragments()
    ensures var bs := [Block(32, 96, false), Block(160, 48, true)];
            && Inv(bs, 32, 240) && NoAdjacentFree(bs) && Fragments(bs, 0, 16)
            && var r := Resize(bs, 0, 16);
               && !NoAdjacentFree(r) && FreeRun(r, 1, 2)
               && r[2].End() - r[1].Start() == 128 && FirstFit(r, 96) == |r|
  {
    var bs := [Block(32, 96, false), Block(160, 48, true)];
    var r := Resize(bs, 0, 16);
    assert r == [Block(32, 16, false), Block(80, 48, true), Block(160, 48, true)];
    assert r[1].free && r[2].free;
    assert FirstFitFrom(r, 96, 3) == 3;
    assert FirstFitFrom(r, 96, 2) == 3;
    assert FirstFitFrom(r, 96, 1) == 3;
  }

  // ---------------------------------------------------------------- restoration

  /** With nothing held and free blocks apart, the heap is its initial single block again. */
  lemma AllFreeIsInitial(bs: seq<Block>, lo: nat, hi: nat)
    requires Inv(bs, lo, hi) && NoAdjacentFree(bs) && LiveSet(bs) == {} && lo + HEADER <= hi
    ensures bs == [InitialBlock(lo, hi)]
  {
    assert forall i :: 0 <= i < |bs| && !bs[i].free ==> bs[i] in LiveSet(bs);
    assert FreeRun(bs, 0, |bs| - 1);
    FreeRunIsOneBlock(bs, 0, |bs| - 1);
  }

  /** With free blocks apart, freeing a block just allocated undoes the allocation exactly. */
  lemma FreeUndoesMalloc(bs: seq<Block>, k: nat, n: nat, lo: nat, hi: nat)
    requires Inv(bs, lo, hi) && NoAdjacentFree(bs) && k < |bs| && Fits(bs[k], n) && n % 16 == 0
    ensures k < |Take(bs, k, n)| && Release(Take(bs, k, n), k) == bs
  {
    hide Inv, NoAdjacentFree, Split, Absorb;
    SplitShape(bs, k, n, lo, hi);
    NeighboursBusy(bs, k);
    var s := Split(bs, k, n);
    assert SetFree(Take(bs, k, n), k, true) == s;
    if s != bs {
      SplitThenAbsorb(bs, k, n);
    }
  }

  lemma SplitThenAbsorb(bs: seq<Block>, k: nat, n: nat)
    requires k < |bs| && Split(bs, k, n) != bs
    ensures k + 1 < |Split(bs, k, n)| && Absorb(Split(bs, k, n), k) == bs
  {
    SplitAt(bs, k, n);
    AbsorbAt(Split(bs, k, n), k);
  }

  lemma NeighboursBusy(bs: seq<Block>, k: nat)
    requires NoAdjacentFree(bs) && k < |bs| && bs[k].free
    ensures k + 1 < |bs| ==> !bs[k + 1].free
    ensures 0 < k ==> !bs[k - 1].free
  {
  }

  ghost function FreeAll(order: seq<nat>): seq<Op>
  {
    seq(|order|, i requires 0 <= i < |order| => Free(order[i]))
  }

  /** Freeing every held block, in any order, restores the initial heap. */
  lemma {:induction false} FreeingAllRestores(h: HeapState, order: seq<nat>, lo: nat, hi: nat)
    requires Good(h, lo, hi) && NoAdjacentFree(h.blocks)
    requires lo + HEADER <= hi
    requires forall a :: a in order <==> a in h.want
    requires forall i, j :: 0 <= i < j < |order| ==> order[i] != order[j]
    ensures LegalRun(h, FreeAll(order))
    ensures Run(h, FreeAll(order)) == HeapState([InitialBlock(lo, hi)], map[])
    decreases |order|
  {
    if order == [] {
      NothingHeld(h, lo, hi);
    } else {
      var a, rest := order[0], order[1..];
      FreeAllFirst(order);
      assert a in order;
      RunFirst(h, FreeAll(order));
      hide *;
      FreeStep(h, a, lo, hi);
      RestOfOrder(order);
      FreeingAllRestores(Step(h, Free(a)), rest, lo, hi);
    }
  }

  lemma RunFirst(h: HeapState, ops: seq<Op>)
    requires ops != []
    ensures Run(h, ops) == Run(Step(h, ops[0]), ops[1..])
    ensures Legal(h, ops[0]) && LegalRun(Step(h, ops[0]), ops[1..]) ==> LegalRun(h, ops)
  {
  }

  lemma FreeAllFirst(order: seq<nat>)
    requires order != []
    ensures FreeAll(order) != [] && FreeAll(order)[0] == Free(order[0]) && FreeAll(order)[1..] == FreeAll(order[1..])
  {
  }

  lemma FreeStep(h: HeapState, a: nat, lo: nat, hi: nat)
    requires Good(h, lo, hi) && NoAdjacentFree(h.blocks) && a in h.want
    ensures var h1 := Step(h, Free(a)); Legal(h, Free(a)) && Good(h1, lo, hi) && NoAdjacentFree(h1.blocks) && h1.want == h.want - {a}
  {
    StepApart(h, Free(a), lo, hi);
    var b :| b in LiveSet(h.blocks) && b.addr == a;
    FreeGood(h, b, lo, hi);
  }

  lemma RestOfOrder(order: seq<nat>)
    requires order != [] && forall i, j :: 0 <= i < j < |order| ==> order[i] != order[j]
    ensures forall x :: x in order[1..] <==> x in order && x != order[0]
  {
    assert order == [order[0]] + order[1..];
  }

  lemma NothingHeld(h: HeapState, lo: nat, hi: nat)
    requires Good(h, lo, hi) && NoAdjacentFree(h.blocks) && lo + HEADER <= hi && h.want.Keys == {}
    ensures h == HeapState([InitialBlock(lo, hi)], map[])
  {
    assert LiveSet(h.blocks) == {};
    AllFreeIsInitial(h.blocks, lo, hi);
    assert h.want == map[];
  }
}
