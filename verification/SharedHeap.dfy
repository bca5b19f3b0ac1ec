/** The allocator every module of a process shares, working on the bytes of the heap window. */
module SharedHeap {
  import opened Arith
  import opened Words
  import opened HeapBlocks
  import opened HeapRuns
  import opened HeapBytes

  /** Magic of the header that aligned_alloc hides below its result. */
  const CRT_MAGIC: nat := 0x435254414C49474E

  ghost function PayloadIndex(bs: seq<Block>, p: nat): nat
  {
    if p < HEADER then |bs| else IndexOf(bs, p - HEADER)
  }

  /** p is the payload pointer of a held block. */
  ghost predicate LivePtr(bs: seq<Block>, p: nat)
  {
    PayloadIndex(bs, p) < |bs| && !bs[PayloadIndex(bs, p)].free
  }

  class Heap {
    const base: nat
    const mem: array<Byte>
    ghost var blocks: seq<Block>

    ghost predicate Valid()
      reads this, mem
    {
      && Window(mem.Length, base, blocks)
      && base + mem.Length <= CRT_MAGIC
      && (if Started(mem[..], base) then Holds(mem[..], base, blocks)
          else blocks == [InitialBlock(base + STATE, base + mem.Length)])
    }

    /** Fresh heap pages read as zero, so no heap is recorded in them yet. */
    constructor (base: nat, size: nat)
      requires 0 < base && base % 16 == 0 && size % 16 == 0 && STATE + HEADER < size && base + size <= CRT_MAGIC
      ensures Valid() && fresh(mem) && this.base == base && mem.Length == size
      ensures blocks == [InitialBlock(base + STATE, base + size)]
    {
      this.base := base;
      mem := new Byte[size](_ => 0);
      blocks := [InitialBlock(base + STATE, base + size)];
      new;
      ZeroMemory(mem[..], base);
    }

    static lemma ZeroMemory(m: seq<Byte>, base: nat)
      requires 8 <= |m| && forall i :: 0 <= i < |m| ==> m[i] == 0
      ensures Word(m, base, base) == 0
    {
      hide LeValue;
      ZeroWord(m[0..8]);
    }

    static lemma {:induction false} ZeroWord(s: seq<Byte>)
      requires forall i :: 0 <= i < |s| ==> s[i] == 0
      ensures LeValue(s) == 0
      decreases |s|
    {
      if s != [] { ZeroWord(s[1..]); }
    }

    method LoadWord(a: nat) returns (v: nat)
      requires base <= a && a + 8 <= base + mem.Length
      ensures v == Word(mem[..], base, a)
    {
      v := Load(mem[..], a - base);
    }

    /** Store one word; done lists the words stored since memory was m0. */
    method StoreWord(a: nat, v: nat, ghost m0: seq<Byte>, ghost done: seq<Write>) returns (ghost now: seq<Write>)
      requires base <= a && a + 8 <= base + mem.Length && v < TWO64
      requires |m0| == mem.Length && WritesFit(|m0|, base, done) && mem[..] == PutAll(m0, base, done)
      modifies mem
      ensures now == done + [Write(a, v)] && WritesFit(|m0|, base, now) && mem[..] == PutAll(m0, base, now)
    {
      hide PutAll, LeBytes;
      var bytes, at := LeBytes(v, 8), a - base;
      ghost var m1 := mem[..];
      forall k | 0 <= k < 8 { mem[at + k] := bytes[k]; }
      now := done + [Write(a, v)];
      PutAllSnoc(m0, base, done, Write(a, v));
      assert mem[..] == m1[..at] + bytes + m1[at + 8..];
    }

    /** user_shared_heap_initialize_locked: the first call in the process writes the initial block. */
    method Initialize()
      requires Valid()
      modifies mem
      ensures Valid() && Holds(mem[..], base, blocks)
      ensures Kept(old(mem[..]), mem[..], base, LiveSet(blocks))
    {
      hide PutAll, Word, Holds, Inv, Kept;
      var magic := LoadWord(base);
      var head := LoadWord(base + 16);
      ghost var m0 := mem[..];
      if magic == HEAP_MAGIC && head != 0 {
        KeptSame(m0, base, LiveSet(blocks));
        return;
      }
      PutAllNone(m0, base);
      var first := base + STATE;
      ghost var ws := StoreWord(base, HEAP_MAGIC, m0, []);
      ws := StoreWord(base + 16, first, m0, ws);
      ws := StoreWord(first, mem.Length - STATE - HEADER, m0, ws);
      ws := StoreWord(first + 8, 1, m0, ws);
      ws := StoreWord(first + 16, 0, m0, ws);
      ws := StoreWord(first + 24, 0, m0, ws);
      InitialHolds(m0, base, blocks, ws);
      HoldsStarted(mem[..], base, blocks);
    }

    static lemma HoldsStarted(m: seq<Byte>, base: nat, bs: seq<Block>)
      requires Holds(m, base, bs)
      ensures Started(m, base) && Window(|m|, base, bs)
    {
    }

    static lemma InitialHolds(m: seq<Byte>, base: nat, bs: seq<Block>, ws: seq<Write>)
      requires Window(|m|, base, bs) && bs == [InitialBlock(base + STATE, base + |m|)]
      requires ws == [Write(base, HEAP_MAGIC), Write(base + 16, base + STATE), Write(base + STATE, |m| - STATE - HEADER),
                      Write(base + STATE + 8, 1), Write(base + STATE + 16, 0), Write(base + STATE + 24, 0)]
      requires WritesFit(|m|, base, ws)
      ensures Holds(PutAll(m, base, ws), base, bs) && Kept(m, PutAll(m, base, ws), base, LiveSet(bs))
    {
      hide PutAll, Word, Written, Inv;
      PutAllWritten(m, base, ws);
      var q := PutAll(m, base, ws);
      WrittenAt(m, q, base, ws, 0);
      WrittenAt(m, q, base, ws, 1);
      WrittenAt(m, q, base, ws, 2);
      WrittenAt(m, q, base, ws, 3);
      WrittenAt(m, q, base, ws, 4);
      WrittenAt(m, q, base, ws, 5);
      assert HeaderAt(q, base, bs, 0);
    }

    /** Field values of block i, as memory holds them. */
    static lemma Fields(m: seq<Byte>, base: nat, bs: seq<Block>, i: nat)
      requires Holds(m, base, bs) && i < |bs|
      ensures base + STATE <= bs[i].addr && bs[i].End() <= base + |m| < TWO64
      ensures Word(m, base, bs[i].addr) == bs[i].payload && Word(m, base, bs[i].addr + 8) == FlagOf(bs[i])
      ensures Word(m, base, bs[i].addr + 16) == NextOf(bs, i) && Word(m, base, bs[i].addr + 24) == PrevOf(bs, i)
    {
      hide Word, Inv;
      InvOrdered(bs, base + STATE, base + |m|);
      assert HeaderAt(m, base, bs, i);
    }

    /** user_shared_heap_split_block */
    method SplitBlock(block: nat, n: nat, ghost i: nat)
      requires Holds(mem[..], base, blocks) && i < |blocks| && blocks[i].addr == block
      requires n % 16 == 0 && n <= blocks[i].payload
      modifies mem, this`blocks
      ensures blocks == Split(old(blocks), i, n) && Holds(mem[..], base, blocks)
      ensures Kept(old(mem[..]), mem[..], base, AllBlocks(blocks))
    {
      hide Word, PutAll, Holds, Kept, Split;
      Fields(mem[..], base, blocks, i);
      var payload := LoadWord(block);
      if payload <= n + HEADER + SLACK {
        SplitNone(blocks, i, n);
        KeptSame(mem[..], base, AllBlocks(blocks));
        return;
      }
      ghost var m0, ws := mem[..], [];
      PutAllNone(m0, base);
      SplitTurns(m0, base, blocks, i, n);
      var next := LoadWord(block + 16);
      var rem := block + HEADER + n;
      ws := StoreWord(rem, payload - n - HEADER, m0, ws);
      ws := StoreWord(rem + 8, 1, m0, ws);
      ws := StoreWord(rem + 16, next, m0, ws);
      ws := StoreWord(rem + 24, block, m0, ws);
      NextInWindow(m0, base, blocks, i);
      if next != 0 {
        ws := StoreWord(next + 24, rem, m0, ws);
      }
      ws := StoreWord(block, n, m0, ws);
      ws := StoreWord(block + 16, rem, m0, ws);
      assert ws == SplitWrites(blocks, i, n);
      blocks := Split(blocks, i, n);
    }

    static lemma SplitNone(bs: seq<Block>, i: nat, n: nat)
      requires i < |bs| && bs[i].payload <= n + HEADER + SLACK
      ensures Split(bs, i, n) == bs
    {
    }

    static lemma KeptSame(m: seq<Byte>, base: nat, s: set<Block>)
      ensures Kept(m, m, base, s)
    {
    }

    /** A next link is null exactly at the end of the list, and otherwise names a whole header. */
    static lemma NextInWindow(m: seq<Byte>, base: nat, bs: seq<Block>, i: nat)
      requires Holds(m, base, bs) && i < |bs|
      ensures NextOf(bs, i) == 0 <==> i + 1 == |bs|
      ensures i + 1 < |bs| ==> base + STATE <= bs[i + 1].addr && bs[i + 1].End() <= base + |m|
    {
      hide Word, Inv, Encodes;
      InvOrdered(bs, base + STATE, base + |m|);
    }

    /** The merge step that coalescing and in-place growth share: block takes over its successor. */
    method AbsorbSuccessor(block: nat, ghost i: nat)
      requires Holds(mem[..], base, blocks) && i + 1 < |blocks| && blocks[i].addr == block
      modifies mem, this`blocks
      ensures blocks == Absorb(old(blocks), i) && Holds(mem[..], base, blocks)
      ensures Kept(old(mem[..]), mem[..], base, AllBlocks(blocks))
    {
      hide Word, PutAll, Holds, Kept, Absorb;
      ghost var m0, ws := mem[..], [];
      Fields(m0, base, blocks, i);
      Fields(m0, base, blocks, i + 1);
      NextInWindow(m0, base, blocks, i + 1);
      PutAllNone(m0, base);
      AbsorbTurns(m0, base, blocks, i);
      AdjacentFit(m0, base, blocks, i);
      var next := LoadWord(block + 16);
      var payload := LoadWord(block);
      var nextPayload := LoadWord(next);
      var after := LoadWord(next + 16);
      ws := StoreWord(block, payload + HEADER + nextPayload, m0, ws);
      ws := StoreWord(block + 16, after, m0, ws);
      if after != 0 {
        ws := StoreWord(after + 24, block, m0, ws);
      }
      assert ws == AbsorbWrites(blocks, i);
      blocks := Absorb(blocks, i);
    }

    static lemma AdjacentFit(m: seq<Byte>, base: nat, bs: seq<Block>, i: nat)
      requires Holds(m, base, bs) && i + 1 < |bs|
      ensures bs[i].End() == bs[i + 1].addr
    {
    }

    /** user_shared_heap_coalesce: first the successor, then into the predecessor. */
    method CoalesceBlock(block: nat, ghost i: nat)
      requires Holds(mem[..], base, blocks) && i < |blocks| && blocks[i].addr == block && blocks[i].free
      modifies mem, this`blocks
      ensures blocks == Coalesce(old(blocks), i) && Holds(mem[..], base, blocks)
      ensures Kept(old(mem[..]), mem[..], base, LiveSet(blocks))
    {
      hide Word, Holds, Kept, Absorb, LiveSet, AllBlocks;
      ghost var m0, bs0 := mem[..], blocks;
      Fields(m0, base, blocks, i);
      NextInWindow(m0, base, blocks, i);
      var next := LoadWord(block + 16);
      if next != 0 {
        Fields(m0, base, blocks, i + 1);
        var flags := LoadWord(next + 8);
        if flags == 1 {
          AbsorbSuccessor(block, i);
          AbsorbFacts(bs0, i);
        }
      }
      ghost var m1, bs1 := mem[..], blocks;
      KeptSame(m0, base, AllBlocks(bs1));
      assert bs1 == AbsorbNext(bs0, i) && i < |bs1| && bs1[i].addr == block && bs1[i].free;
      Fields(m1, base, bs1, i);
      var prev := LoadWord(block + 24);
      PrevInWindow(m1, base, bs1, i);
      if prev != 0 {
        Fields(m1, base, bs1, i - 1);
        var flags := LoadWord(prev + 8);
        if flags == 1 {
          AbsorbSuccessor(prev, i - 1);
          KeptAbsorb(m0, m1, mem[..], base, bs1, i - 1);
          return;
        }
      }
      KeptLive(m0, m1, base, bs1);
    }

    static lemma PrevInWindow(m: seq<Byte>, base: nat, bs: seq<Block>, i: nat)
      requires Holds(m, base, bs) && i < |bs|
      ensures PrevOf(bs, i) == 0 <==> i == 0
    {
      hide Word, Inv, Encodes;
      InvOrdered(bs, base + STATE, base + |m|);
    }

    static lemma AbsorbFacts(bs: seq<Block>, i: nat)
      requires i + 1 < |bs|
      ensures i < |Absorb(bs, i)| && Absorb(bs, i)[i].addr == bs[i].addr && Absorb(bs, i)[i].free == bs[i].free
    {
    }

    static lemma KeptLive(m: seq<Byte>, r: seq<Byte>, base: nat, bs: seq<Block>)
      requires Kept(m, r, base, AllBlocks(bs))
      ensures Kept(m, r, base, LiveSet(bs))
    {
    }

    /** The live blocks of the merged list are live blocks of the list before. */
    static lemma KeptAbsorb(m: seq<Byte>, m1: seq<Byte>, m2: seq<Byte>, base: nat, bs: seq<Block>, i: nat)
      requires i + 1 < |bs| && bs[i].free
      requires Kept(m, m1, base, AllBlocks(bs)) && Kept(m1, m2, base, AllBlocks(Absorb(bs, i)))
      ensures Kept(m, m2, base, LiveSet(Absorb(bs, i)))
    {
      hide ByteAt;
      AbsorbAt(bs, i);
      var r := Absorb(bs, i);
      forall b | b in LiveSet(r) ensures b in AllBlocks(bs) && b in AllBlocks(r) {
        var k :| 0 <= k < |r| && r[k] == b;
        assert bs[if k < i then k else k + 1] == b;
      }
    }

    /** user_shared_heap_malloc_locked: first fit along the next links. Null is 0. */
    method MallocLocked(n: nat) returns (p: nat)
      requires Holds(mem[..], base, blocks) && n % 16 == 0
      modifies mem, this`blocks
      ensures Holds(mem[..], base, blocks) && Kept(old(mem[..]), mem[..], base, LiveSet(old(blocks)))
      ensures var k := FirstFit(old(blocks), n);
              if k == |old(blocks)| then p == 0 && blocks == old(blocks)
              else p == old(blocks)[k].Start() && blocks == Take(old(blocks), k, n)
    {
      hide Word, Holds, Kept, Split, LiveSet, AllBlocks, FirstFitFrom;
      ghost var m0, bs0 := mem[..], blocks;
      HeadLink(m0, base, bs0);
      var block := LoadWord(base + 16);
      ghost var k := 0;
      while block != 0
        invariant 0 <= k <= |bs0| && blocks == bs0 && mem[..] == m0 && Holds(m0, base, bs0)
        invariant block == if k < |bs0| then bs0[k].addr else 0
        invariant FirstFit(bs0, n) == FirstFitFrom(bs0, n, k)
        decreases |bs0| - k
      {
        Fields(m0, base, bs0, k);
        NextInWindow(m0, base, bs0, k);
        FirstFitUnfold(bs0, n, k);
        var flags := LoadWord(block + 8);
        var payload := LoadWord(block);
        if flags == 1 && payload >= n {
          SplitBlock(block, n, k);
          ghost var m1, bs1 := mem[..], blocks;
          SplitKeepsIndex(m0, base, bs0, k, n);
          Fields(m1, base, bs1, k);
          FlagTurns(m1, base, bs1, k, false);
          PutAllNone(m1, base);
          ghost var ws := StoreWord(block + 8, 0, m1, []);
          assert ws == FlagWrites(bs1, k, false);
          blocks := SetFree(bs1, k, false);
          KeptTake(m0, m1, mem[..], base, bs0, k, n);
          return block + HEADER;
        }
        block := LoadWord(block + 16);
        k := k + 1;
      }
      assert k == |bs0| by {
        if k < |bs0| { Fields(m0, base, bs0, k); }
      }
      FirstFitUnfold(bs0, n, k);
      KeptSame(m0, base, LiveSet(bs0));
      p := 0;
    }

    static lemma HeadLink(m: seq<Byte>, base: nat, bs: seq<Block>)
      requires Holds(m, base, bs)
      ensures |bs| > 0 && Word(m, base, base + 16) == bs[0].addr && STATE < |m|
    {
    }

    static lemma FirstFitUnfold(bs: seq<Block>, n: nat, k: nat)
      requires k <= |bs|
      ensures FirstFitFrom(bs, n, k) == if k == |bs| || Fits(bs[k], n) then k else FirstFitFrom(bs, n, k + 1)
    {
    }

    static lemma SplitKeepsIndex(m: seq<Byte>, base: nat, bs: seq<Block>, k: nat, n: nat)
      requires Holds(m, base, bs) && k < |bs| && n % 16 == 0 && n <= bs[k].payload
      ensures k < |Split(bs, k, n)| && Split(bs, k, n)[k].addr == bs[k].addr
    {
      hide Word, Inv, Encodes;
      SplitShape(bs, k, n, base + STATE, base + |m|);
    }

    static lemma KeptTake(m: seq<Byte>, m1: seq<Byte>, m2: seq<Byte>, base: nat, bs: seq<Block>, k: nat, n: nat)
      requires Holds(m, base, bs) && k < |bs| && Fits(bs[k], n) && n % 16 == 0
      requires k < |Split(bs, k, n)| && |m| == |m1|
      requires Kept(m, m1, base, AllBlocks(Split(bs, k, n)))
      requires Kept(m1, m2, base, AllBlocks(SetFree(Split(bs, k, n), k, false)))
      ensures Kept(m, m2, base, LiveSet(bs))
    {
      hide ByteAt, Inv, Word, Encodes, Split;
      var s := Split(bs, k, n);
      var t := SetFree(s, k, false);
      SplitLive(bs, k, n, base + STATE, base + |m|);
      SetFreeLive(s, k, false, base + STATE, base + |m|);
      NotLive(bs, k);
      NotLive(s, k);
      forall b | b in LiveSet(bs) ensures b in AllBlocks(s) && b in AllBlocks(t) {
        assert b in LiveSet(s) && b in LiveSet(t);
      }
    }

    /** user_shared_heap_contains_pointer */
    predicate Contains(p: nat)
    {
      base <= p < base + mem.Length
    }

    /** user_shared_heap_free_locked: null and foreign pointers are ignored. */
    method FreeLocked(p: nat)
      requires Holds(mem[..], base, blocks) && (p == 0 || !Contains(p) || LivePtr(blocks, p))
      modifies mem, this`blocks
      ensures Holds(mem[..], base, blocks)
      ensures LivePtr(old(blocks), p) ==> blocks == Release(old(blocks), PayloadIndex(old(blocks), p))
      ensures !LivePtr(old(blocks), p) ==> blocks == old(blocks)
      ensures Kept(old(mem[..]), mem[..], base, LiveSet(blocks))
    {
      hide Word, Holds, Kept, Coalesce, LiveSet, AllBlocks, IndexOf;
      ghost var m0, bs0, i := mem[..], blocks, PayloadIndex(blocks, p);
      if LivePtr(blocks, p) { PointerInside(m0, base, bs0, i); }
      if p == 0 || !Contains(p) {
        KeptSame(m0, base, LiveSet(blocks));
        return;
      }
      var block := p - HEADER;
      Fields(m0, base, bs0, i);
      FlagTurns(m0, base, bs0, i, true);
      PutAllNone(m0, base);
      ghost var ws := StoreWord(block + 8, 1, m0, []);
      assert ws == FlagWrites(bs0, i, true);
      blocks := SetFree(bs0, i, true);
      ghost var m1, bs1 := mem[..], blocks;
      CoalesceBlock(block, i);
      KeptCoalesce(m0, m1, mem[..], base, bs1, i);
    }

    /** A payload pointer is never the window's end: the last block is not empty. */
    static lemma PointerInside(m: seq<Byte>, base: nat, bs: seq<Block>, i: nat)
      requires Holds(m, base, bs) && i < |bs|
      ensures base < bs[i].Start() < base + |m|
    {
      hide Word, Encodes;
      InvOrdered(bs, base + STATE, base + |m|);
      assert i + 1 < |bs| ==> bs[i].End() <= bs[i + 1].addr && bs[i + 1].End() <= base + |m|;
    }

    static lemma KeptCoalesce(m: seq<Byte>, m1: seq<Byte>, m2: seq<Byte>, base: nat, bs: seq<Block>, i: nat)
      requires Holds(m1, base, bs) && i < |bs| && bs[i].free
      requires Kept(m, m1, base, AllBlocks(bs)) && Kept(m1, m2, base, LiveSet(Coalesce(bs, i)))
      ensures Kept(m, m2, base, LiveSet(Coalesce(bs, i)))
    {
      hide ByteAt, Inv, Word, Encodes, Coalesce;
      CoalesceLive(bs, i, base + STATE, base + |m1|);
    }

    /** user_shared_heap_malloc: null exactly when no free block is large enough. */
    method Malloc(size: nat) returns (p: nat)
      requires Valid() && size < TWO64
      modifies mem, this`blocks
      ensures Valid() && Kept(old(mem[..]), mem[..], base, LiveSet(old(blocks)))
      ensures var n := AlignUp16(if size == 0 then 1 else size);
              var k := FirstFit(old(blocks), n);
              if k == |old(blocks)| then p == 0 && blocks == old(blocks)
              else p == old(blocks)[k].Start() && blocks == Take(old(blocks), k, n) && LivePtr(blocks, p)
    {
      hide Word, Holds, Kept, Take, LiveSet, FirstFit, Window, IndexOf;
      var n := AlignUp16(if size == 0 then 1 else size);
      Initialize();
      ghost var m0, m1, bs0 := old(mem[..]), mem[..], blocks;
      AlignUpCovers(if size == 0 then 1 else size);
      p := MallocLocked(n);
      HoldsStarted(mem[..], base, blocks);
      KeptTwice(m0, m1, mem[..], base, LiveSet(bs0));
      if FirstFit(bs0, n) < |bs0| {
        TakenIsLive(m1, base, bs0, FirstFit(bs0, n), n);
      }
    }

    static lemma KeptTwice(m: seq<Byte>, m1: seq<Byte>, m2: seq<Byte>, base: nat, s: set<Block>)
      requires Kept(m, m1, base, s) && Kept(m1, m2, base, s)
      ensures Kept(m, m2, base, s)
    {
      hide ByteAt;
    }

    static lemma TakenIsLive(m: seq<Byte>, base: nat, bs: seq<Block>, k: nat, n: nat)
      requires Holds(m, base, bs) && k < |bs| && Fits(bs[k], n) && n % 16 == 0
      ensures LivePtr(Take(bs, k, n), bs[k].Start())
      ensures PayloadIndex(Take(bs, k, n), bs[k].Start()) == k
    {
      hide Word, Inv, Encodes, Take, LiveSet;
      TakeLive(bs, k, n, base + STATE, base + |m|);
      IndexOfAt(Take(bs, k, n), k, base + STATE, base + |m|);
    }

    /** A held pointer means the heap was started by the call that returned it. */
    lemma LiveMeansStarted(p: nat)
      requires Valid() && LivePtr(blocks, p)
      ensures Holds(mem[..], base, blocks)
    {
      hide Word, Holds, Window;
      var i := PayloadIndex(blocks, p);
      assert !blocks[i].free;
    }

    /** user_shared_heap_free: null and foreign pointers are ignored. */
    method Free(p: nat)
      requires Valid() && (p == 0 || !Contains(p) || LivePtr(blocks, p))
      modifies mem, this`blocks
      ensures Valid()
      ensures LivePtr(old(blocks), p) ==> blocks == Release(old(blocks), PayloadIndex(old(blocks), p))
      ensures !LivePtr(old(blocks), p) ==> blocks == old(blocks)
      ensures Kept(old(mem[..]), mem[..], base, LiveSet(blocks))
    {
      hide Word, Holds, Kept, Release, LiveSet, Window, IndexOf;
      ghost var m0 := mem[..];
      ghost var i := PayloadIndex(blocks, p);
      if LivePtr(blocks, p) {
        LiveMeansStarted(p);
        PointerInside(m0, base, blocks, i);
      }
      if p == 0 || !Contains(p) {
        KeptSame(m0, base, LiveSet(blocks));
        return;
      }
      Initialize();
      ghost var m1, bs0 := mem[..], blocks;
      FreeLocked(p);
      HoldsStarted(mem[..], base, blocks);
      KeptShrink(m0, m1, mem[..], base, bs0, i);
    }

    static lemma KeptShrink(m: seq<Byte>, m1: seq<Byte>, m2: seq<Byte>, base: nat, bs: seq<Block>, i: nat)
      requires Holds(m1, base, bs) && i < |bs| && !bs[i].free
      requires Kept(m, m1, base, LiveSet(bs)) && Kept(m1, m2, base, LiveSet(Release(bs, i)))
      ensures Kept(m, m2, base, LiveSet(Release(bs, i)))
    {
      hide ByteAt, Inv, Word, Encodes, Release, LiveSet;
      ReleaseLive(bs, i, base + STATE, base + |m1|);
    }

    /** The first k bytes at p in m are the first k bytes at r in q. */
    static ghost predicate SamePrefix(m: seq<Byte>, p: nat, q: seq<Byte>, r: nat, base: nat, k: nat)
    {
      forall x, y :: p <= x < p + k && y - r == x - p ==> ByteAt(q, base, y) == ByteAt(m, base, x)
    }

    /** The byte loop of realloc. */
    method CopyBytes(dst: nat, src: nat, count: nat)
      requires base <= dst && dst + count <= base + mem.Length && base <= src && src + count <= base + mem.Length
      requires src + count <= dst || dst + count <= src
      modifies mem
      ensures forall x :: !(dst <= x < dst + count) ==> ByteAt(mem[..], base, x) == ByteAt(old(mem[..]), base, x)
      ensures SamePrefix(old(mem[..]), src, mem[..], dst, base, count)
    {
      var d, s, index := dst - base, src - base, 0;
      ghost var m0 := mem[..];
      while index < count
        invariant 0 <= index <= count
        invariant forall x :: 0 <= x < mem.Length && !(d <= x < d + index) ==> mem[x] == m0[x]
        invariant forall x, y :: s <= x < s + index && y - d == x - s ==> mem[y] == m0[x]
      {
        mem[d + index] := mem[s + index];
        index := index + 1;
      }
    }

    static function Min(a: nat, b: nat): nat { if a <= b then a else b }

    /** Shrinking in place, or keeping the block when the rest is too small to split off. */
    method ShrinkLocked(p: nat, n: nat)
      requires Holds(mem[..], base, blocks) && LivePtr(blocks, p) && n % 16 == 0
      requires n <= blocks[PayloadIndex(blocks, p)].payload
      modifies mem, this`blocks
      ensures Holds(mem[..], base, blocks)
      ensures var i := PayloadIndex(old(blocks), p);
              && blocks == Split(old(blocks), i, n)
              && Kept(old(mem[..]), mem[..], base, LiveSet(old(blocks)) - {old(blocks)[i]})
              && SamePrefix(old(mem[..]), p, mem[..], p, base, n)
    {
      hide Word, Holds, Kept, Split, LiveSet, AllBlocks, IndexOf, SamePrefix;
      ghost var m0, bs0, i := mem[..], blocks, PayloadIndex(blocks, p);
      SplitBlock(p - HEADER, n, i);
      KeptSplit(m0, mem[..], base, bs0, i, n);
    }

    static lemma KeptSplit(m: seq<Byte>, q: seq<Byte>, base: nat, bs: seq<Block>, i: nat, n: nat)
      requires Holds(m, base, bs) && i < |bs| && n % 16 == 0 && n <= bs[i].payload && !bs[i].free
      requires Kept(m, q, base, AllBlocks(Split(bs, i, n)))
      ensures Kept(m, q, base, LiveSet(bs) - {bs[i]})
      ensures SamePrefix(m, bs[i].Start(), q, bs[i].Start(), base, n)
    {
      hide ByteAt, Inv, Word, Encodes, Split;
      SplitLive(bs, i, n, base + STATE, base + |m|);
      var r := Split(bs, i, n);
      assert r[i] in AllBlocks(r);
      forall b | b in LiveSet(bs) - {bs[i]} ensures b in AllBlocks(r) {
        assert b in LiveSet(r);
      }
    }

    /** Growing in place over a free successor. */
    method GrowLocked(p: nat, n: nat)
      requires Holds(mem[..], base, blocks) && LivePtr(blocks, p) && n % 16 == 0
      requires CanGrow(blocks, PayloadIndex(blocks, p), n) && blocks[PayloadIndex(blocks, p)].payload <= n
      modifies mem, this`blocks
      ensures Holds(mem[..], base, blocks)
      ensures var i := PayloadIndex(old(blocks), p);
              && i < |Absorb(old(blocks), i)|
              && blocks == Split(Absorb(old(blocks), i), i, n)
              && Kept(old(mem[..]), mem[..], base, LiveSet(old(blocks)) - {old(blocks)[i]})
              && SamePrefix(old(mem[..]), p, mem[..], p, base, old(blocks)[i].payload)
    {
      hide Word, Holds, Kept, Split, Absorb, LiveSet, AllBlocks, IndexOf, SamePrefix;
      ghost var m0, bs0, i := mem[..], blocks, PayloadIndex(blocks, p);
      AbsorbFacts(bs0, i);
      GrownEnough(m0, base, bs0, i);
      AbsorbSuccessor(p - HEADER, i);
      ghost var m1, bs1 := mem[..], blocks;
      SplitBlock(p - HEADER, n, i);
      KeptGrow(m0, m1, mem[..], base, bs0, i, n);
    }

    static lemma GrownEnough(m: seq<Byte>, base: nat, bs: seq<Block>, i: nat)
      requires Holds(m, base, bs) && i + 1 < |bs|
      ensures i < |Absorb(bs, i)| && Absorb(bs, i)[i].payload == bs[i].payload + HEADER + bs[i + 1].payload
    {
      AbsorbAt(bs, i);
    }

    static lemma KeptGrow(m: seq<Byte>, m1: seq<Byte>, q: seq<Byte>, base: nat, bs: seq<Block>, i: nat, n: nat)
      requires Holds(m, base, bs) && i + 1 < |bs| && bs[i + 1].free && !bs[i].free && n % 16 == 0 && bs[i].payload <= n
      requires i < |Absorb(bs, i)| && n <= Absorb(bs, i)[i].payload && |m1| == |m|
      requires Kept(m, m1, base, AllBlocks(Absorb(bs, i))) && Kept(m1, q, base, AllBlocks(Split(Absorb(bs, i), i, n)))
      ensures Kept(m, q, base, LiveSet(bs) - {bs[i]})
      ensures SamePrefix(m, bs[i].Start(), q, bs[i].Start(), base, bs[i].payload)
    {
      hide ByteAt, Inv, Word, Encodes, Split, Absorb;
      AbsorbLive(bs, i, base + STATE, base + |m|);
      var g := Absorb(bs, i);
      SplitLive(g, i, n, base + STATE, base + |m|);
      var r := Split(g, i, n);
      AddrsDistinct(bs, i, g[i], base + STATE, base + |m|);
      assert r[i] in AllBlocks(r) && g[i] in AllBlocks(g);
      forall b | b in LiveSet(bs) - {bs[i]} ensures b in AllBlocks(g) && b in AllBlocks(r) {
        assert b in LiveSet(g) && b in LiveSet(r);
      }
    }

    /** Moving: a new block, the bytes, then free of the old one. */
    method MoveLocked(p: nat, size: nat, n: nat) returns (r: nat)
      requires Holds(mem[..], base, blocks) && LivePtr(blocks, p) && n % 16 == 0
      requires blocks[PayloadIndex(blocks, p)].payload < n
      modifies mem, this`blocks
      ensures Holds(mem[..], base, blocks)
      ensures var bs, i := old(blocks), PayloadIndex(old(blocks), p);
              var k := FirstFit(bs, n);
              if k == |bs| then r == 0 && blocks == bs && Kept(old(mem[..]), mem[..], base, LiveSet(bs))
              else && r == bs[k].Start() && IndexOf(Take(bs, k, n), bs[i].addr) < |Take(bs, k, n)|
                   && blocks == Release(Take(bs, k, n), IndexOf(Take(bs, k, n), bs[i].addr))
                   && Kept(old(mem[..]), mem[..], base, LiveSet(bs) - {bs[i]})
                   && SamePrefix(old(mem[..]), p, mem[..], r, base, Min(bs[i].payload, size))
    {
      hide Word, Holds, Kept, Take, Release, LiveSet, AllBlocks, IndexOf, FirstFit, SamePrefix;
      ghost var m0, bs0, i := mem[..], blocks, PayloadIndex(blocks, p);
      ghost var k := FirstFit(bs0, n);
      Fields(m0, base, bs0, i);
      r := MallocLocked(n);
      ghost var m1, bs1 := mem[..], blocks;
      if r == 0 {
        if k < |bs0| { PointerInside(m0, base, bs0, k); }
        return;
      }
      ghost var j := MovedFrom(m0, base, bs0, i, k, n);
      Fields(m1, base, bs1, j);
      Fields(m1, base, bs1, k);
      var payload := LoadWord(p - HEADER);
      var copy := if payload < size then payload else size;
      LivesApart(m1, base, bs1, j, k);
      CopyBytes(r, p, copy);
      ghost var m2 := mem[..];
      CopyHolds(m1, m2, base, bs1, k, copy);
      FreeLocked(p);
      KeptMove(m0, m1, m2, mem[..], base, bs0, i, k, n, j, copy);
    }

    /** Where the old block sits once the new one has been taken. */
    static lemma MovedFrom(m: seq<Byte>, base: nat, bs: seq<Block>, i: nat, k: nat, n: nat) returns (j: nat)
      requires Holds(m, base, bs) && i < |bs| && !bs[i].free && k < |bs| && Fits(bs[k], n) && n % 16 == 0
      ensures var t := Take(bs, k, n);
              && j < |t| && t[j] == bs[i] && IndexOf(t, bs[i].addr) == j && LivePtr(t, bs[i].Start())
              && PayloadIndex(t, bs[i].Start()) == j
              && k < |t| && k != j && t[k].addr == bs[k].addr && n <= t[k].payload && !t[k].free
              && LiveSet(t) == LiveSet(bs) + {t[k]}
              && t[k] != bs[i]
    {
      hide Word, Inv, Encodes, Take;
      TakeLive(bs, k, n, base + STATE, base + |m|);
      var t := Take(bs, k, n);
      FreshAddr(bs, k, base + STATE, base + |m|);
      assert bs[i] in LiveSet(bs) && bs[i] in LiveSet(t);
      j := LiveIndex(t, bs[i], base + STATE, base + |m|);
    }

    static lemma LivesApart(m: seq<Byte>, base: nat, bs: seq<Block>, j: nat, k: nat)
      requires Holds(m, base, bs) && j < |bs| && k < |bs| && j != k
      ensures bs[j].End() <= bs[k].addr || bs[k].End() <= bs[j].addr
    {
      hide Word, Inv, Encodes;
      InvOrdered(bs, base + STATE, base + |m|);
    }

    static lemma CopyHolds(m: seq<Byte>, q: seq<Byte>, base: nat, bs: seq<Block>, k: nat, count: nat)
      requires Holds(m, base, bs) && k < |bs| && count <= bs[k].payload && |m| == |q|
      requires forall x :: !(bs[k].Start() <= x < bs[k].Start() + count) ==> ByteAt(q, base, x) == ByteAt(m, base, x)
      ensures Holds(q, base, bs) && Kept(m, q, base, AllBlocks(bs) - {bs[k]})
    {
      hide Word, ByteAt, Holds, Kept;
      PayloadWriteHolds(m, q, base, bs, k);
    }

    static lemma KeptMove(m0: seq<Byte>, m1: seq<Byte>, m2: seq<Byte>, m3: seq<Byte>, base: nat,
                          bs: seq<Block>, i: nat, k: nat, n: nat, j: nat, copy: nat)
      requires Holds(m0, base, bs) && i < |bs| && !bs[i].free && k < |bs| && Fits(bs[k], n) && n % 16 == 0
      requires |m1| == |m0|
      requires var t := Take(bs, k, n);
               && k < |t| && j < |t| && t[j] == bs[i] && !t[k].free && t[k] != bs[i] && t[k].addr == bs[k].addr
               && LiveSet(t) == LiveSet(bs) + {t[k]} && copy <= t[k].payload && copy <= bs[i].payload
               && Holds(m1, base, t)
               && Kept(m1, m2, base, AllBlocks(t) - {t[k]}) && Kept(m2, m3, base, LiveSet(Release(t, j)))
      requires Kept(m0, m1, base, LiveSet(bs))
      requires SamePrefix(m1, bs[i].Start(), m2, bs[k].Start(), base, copy)
      ensures Kept(m0, m3, base, LiveSet(bs) - {bs[i]})
      ensures SamePrefix(m0, bs[i].Start(), m3, bs[k].Start(), base, copy)
    {
      hide ByteAt, Inv, Word, Encodes, Take, Release, SamePrefix;
      var t := Take(bs, k, n);
      ReleaseLive(t, j, base + STATE, base + |m1|);
      FreshAddr(bs, k, base + STATE, base + |m0|);
      forall b | b in LiveSet(bs) - {bs[i]} ensures b in AllBlocks(t) - {t[k]} && b in LiveSet(Release(t, j)) {
        assert b in LiveSet(t);
      }
      assert t[k] in LiveSet(Release(t, j)) && bs[i] in LiveSet(bs);
      PrefixThrough(m0, m1, m2, m3, base, bs[i], t[k], LiveSet(bs), LiveSet(Release(t, j)), copy);
    }

    static lemma PrefixThrough(m0: seq<Byte>, m1: seq<Byte>, m2: seq<Byte>, m3: seq<Byte>, base: nat,
                               a: Block, b: Block, s: set<Block>, u: set<Block>, copy: nat)
      requires a in s && b in u && copy <= a.payload && copy <= b.payload
      requires Kept(m0, m1, base, s) && SamePrefix(m1, a.Start(), m2, b.Start(), base, copy) && Kept(m2, m3, base, u)
      ensures SamePrefix(m0, a.Start(), m3, b.Start(), base, copy)
    {
      hide ByteAt;
      forall x, y | a.Start() <= x < a.Start() + copy && y - b.Start() == x - a.Start()
        ensures ByteAt(m3, base, y) == ByteAt(m0, base, x)
      {
        assert ByteAt(m1, base, x) == ByteAt(m0, base, x) && ByteAt(m3, base, y) == ByteAt(m2, base, y);
      }
    }

    /** user_shared_heap_realloc */
    method Realloc(p: nat, size: nat) returns (r: nat)
      requires Valid() && size < TWO64 && (p == 0 || !Contains(p) || LivePtr(blocks, p))
      modifies mem, this`blocks
      ensures Valid()
      ensures LivePtr(old(blocks), p) && size != 0 ==>
                var bs, i, n := old(blocks), PayloadIndex(old(blocks), p), AlignUp16(size);
                && blocks == Resize(bs, i, n)
                && Kept(old(mem[..]), mem[..], base, LiveSet(bs) - {bs[i]})
                && match ResizeFate(bs, i, n)
                   case Failed => r == 0 && Kept(old(mem[..]), mem[..], base, LiveSet(bs))
                   case InPlace => r == p && SamePrefix(old(mem[..]), p, mem[..], p, base, Min(bs[i].payload, n))
                   case Moved(to) => r == to + HEADER && SamePrefix(old(mem[..]), p, mem[..], r, base, Min(bs[i].payload, size))
      ensures LivePtr(old(blocks), p) && size == 0 ==>
                r == 0 && blocks == Release(old(blocks), PayloadIndex(old(blocks), p))
                && Kept(old(mem[..]), mem[..], base, LiveSet(blocks))
      ensures LivePtr(old(blocks), p) && 0 < size <= TWO64 - 16 && r != 0 ==>
                SamePrefix(old(mem[..]), p, mem[..], r, base, Min(old(blocks)[PayloadIndex(old(blocks), p)].payload, size))
      ensures LivePtr(old(blocks), p) && size != 0 ==>
                var bs, i, n := old(blocks), PayloadIndex(old(blocks), p), AlignUp16(size);
                && (r == p <==> bs[i].Start() + n <= StretchEnd(bs, i))
                && (r == 0 <==> StretchEnd(bs, i) < bs[i].Start() + n && forall b :: b in bs && b.free ==> b.payload < n)
                && (r != 0 ==> exists b: Block :: && b.Start() == r && n <= b.payload <= n + 48 && !b.free
                                           && LiveSet(blocks) == LiveSet(bs) - {bs[i]} + {b})
      ensures !LivePtr(old(blocks), p) && p != 0 ==> r == 0 && blocks == old(blocks)
      ensures !LivePtr(old(blocks), p) ==> Kept(old(mem[..]), mem[..], base, LiveSet(old(blocks)))
      ensures p == 0 ==> var n := AlignUp16(if size == 0 then 1 else size); var k := FirstFit(old(blocks), n);
                         if k == |old(blocks)| then r == 0 && blocks == old(blocks)
                         else r == old(blocks)[k].Start() && blocks == Take(old(blocks), k, n)
    {
      hide Word, Holds, Kept, Take, Release, Split, Absorb, LiveSet, AllBlocks, FirstFit, Window, IndexOf, SamePrefix, AlignUp16;
      if p == 0 {
        r := Malloc(size);
        return;
      }
      if size == 0 {
        Free(p);
        return 0;
      }
      ghost var i := PayloadIndex(blocks, p);
      if LivePtr(blocks, p) {
        LiveMeansStarted(p);
        PointerInside(mem[..], base, blocks, i);
      }
      if !Contains(p) {
        KeptSame(mem[..], base, LiveSet(blocks));
        return 0;
      }
      ghost var m0, bs := mem[..], blocks;
      WindowOf(m0, base, bs);
      r := ReallocLocked(p, size);
      HoldsStarted(mem[..], base, blocks);
      Reallocated(bs, i, AlignUp16(size), p, r, base + STATE, base + mem.Length) by { AlignUpCovers(size); }
      if size <= TWO64 - 16 {
        AlignUpCovers(size);
        ShorterPrefix(m0, p, mem[..], base, bs[i].payload, AlignUp16(size), size);
      }
    }

    static lemma WindowOf(m: seq<Byte>, base: nat, bs: seq<Block>)
      requires Holds(m, base, bs)
      ensures Inv(bs, base + STATE, base + |m|) && 0 < base
    {
      hide Word, Encodes, Inv;
    }

    /** Which pointer realloc returns, and what is held afterwards, said of the blocks alone. */
    static lemma Reallocated(bs: seq<Block>, i: nat, n: nat, p: nat, r: nat, lo: nat, hi: nat)
      requires Inv(bs, lo, hi) && i < |bs| && !bs[i].free && bs[i].Start() == p && n % 16 == 0
      requires match ResizeFate(bs, i, n) case Failed => r == 0 case InPlace => r == p case Moved(to) => r == to + HEADER
      ensures r == p <==> bs[i].Start() + n <= StretchEnd(bs, i)
      ensures r == 0 <==> StretchEnd(bs, i) < bs[i].Start() + n && forall b :: b in bs && b.free ==> b.payload < n
      ensures r != 0 ==> exists b: Block :: && b.Start() == r && n <= b.payload <= n + 48 && !b.free
                                     && LiveSet(Resize(bs, i, n)) == LiveSet(bs) - {bs[i]} + {b}
    {
      hide Inv, LiveSet, Resize, ResizeFate, StretchEnd;
      ResizeFateIff(bs, i, n, lo, hi);
      var b := ResizeLive(bs, i, n, lo, hi);
      FateAddr(bs, i, n);
      assert b.Start() == b.addr + 32;
    }

    static lemma FateAddr(bs: seq<Block>, i: nat, n: nat)
      requires i < |bs|
      ensures ResizedAddr(bs, i, n) == match ResizeFate(bs, i, n) case Moved(to) => to case _ => bs[i].addr
    {
      hide ResizeFate;
    }

    static lemma ShorterPrefix(m: seq<Byte>, p: nat, q: seq<Byte>, base: nat, payload: nat, n: nat, size: nat)
      requires size <= n
      ensures SamePrefix(m, p, q, p, base, Min(payload, n)) ==> SamePrefix(m, p, q, p, base, Min(payload, size))
    {
    }

    method ReallocLocked(p: nat, size: nat) returns (r: nat)
      requires Holds(mem[..], base, blocks) && LivePtr(blocks, p) && 0 < size < TWO64
      modifies mem, this`blocks
      ensures Holds(mem[..], base, blocks)
      ensures var bs, i, n := old(blocks), PayloadIndex(old(blocks), p), AlignUp16(size);
              && blocks == Resize(bs, i, n)
              && Kept(old(mem[..]), mem[..], base, LiveSet(bs) - {bs[i]})
              && match ResizeFate(bs, i, n)
                 case Failed => r == 0 && Kept(old(mem[..]), mem[..], base, LiveSet(bs))
                 case InPlace => r == p && SamePrefix(old(mem[..]), p, mem[..], p, base, Min(bs[i].payload, n))
                 case Moved(to) => r == to + HEADER && SamePrefix(old(mem[..]), p, mem[..], r, base, Min(bs[i].payload, size))
    {
      hide Word, Holds, Kept, Take, Release, Split, Absorb, LiveSet, AllBlocks, FirstFit, IndexOf, SamePrefix, AlignUp16;
      ghost var m0, bs, i := mem[..], blocks, PayloadIndex(blocks, p);
      AlignUpCovers(size);
      Fields(m0, base, bs, i);
      NextInWindow(m0, base, bs, i);
      var block := p - HEADER;
      var n := AlignUp16(size);
      var payload := LoadWord(block);
      if payload >= n {
        ShrinkLocked(p, n);
        return p;
      }
      var next := LoadWord(block + 16);
      if next != 0 {
        Fields(m0, base, bs, i + 1);
        var flags := LoadWord(next + 8);
        var nextPayload := LoadWord(next);
        if flags == 1 && payload + HEADER + nextPayload >= n {
          GrowLocked(p, n);
          return p;
        }
      }
      r := MoveLocked(p, size, n);
      if r == 0 {
        KeptLess(m0, mem[..], base, LiveSet(bs), LiveSet(bs) - {bs[i]});
      }
    }

    static lemma KeptLess(m: seq<Byte>, q: seq<Byte>, base: nat, s: set<Block>, u: set<Block>)
      requires Kept(m, q, base, s) && u <= s
      ensures Kept(m, q, base, u)
    {
      hide ByteAt;
    }
  }
}
