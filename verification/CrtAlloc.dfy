/** aligned_alloc and free of the C runtime, layered on the shared heap by a hidden header. */
module CrtAlloc {
  import opened Arith
  import opened Words
  import opened HeapBlocks
  import opened HeapRuns
  import opened HeapBytes
  import opened SharedHeap

  /** sizeof(CrtAlignedAllocationHeader): magic and raw pointer. */
  const HIDDEN: nat := 16

  /** What the bit test (a & (a - 1)) == 0 decides for a > 0. */
  predicate PowerOfTwo(a: nat)
  {
    a == 1 || (a > 0 && a % 2 == 0 && PowerOfTwo(a / 2))
  }

  /** p was produced by aligned_alloc inside the held block at raw, and its hidden header is intact. */
  ghost predicate AlignedPtr(m: seq<Byte>, base: nat, bs: seq<Block>, p: nat, raw: nat)
  {
    && LivePtr(bs, raw) && raw + HIDDEN <= p <= bs[PayloadIndex(bs, raw)].End()
    && Word(m, base, p - HIDDEN) == CRT_MAGIC && Word(m, base, p - 8) == raw
  }

  /** The two words below a malloc pointer are its own header's next and prev links, never the magic. */
  lemma MallocPtrNotMistaken(m: seq<Byte>, base: nat, bs: seq<Block>, p: nat)
    requires Holds(m, base, bs) && LivePtr(bs, p) && base + |m| <= CRT_MAGIC
    ensures base <= p - HIDDEN && p <= base + |m|
    ensures Word(m, base, p - HIDDEN) == NextOf(bs, PayloadIndex(bs, p)) != CRT_MAGIC
    ensures forall raw :: !AlignedPtr(m, base, bs, p, raw)
  {
    hide Word, Holds, IndexOf;
    var i := PayloadIndex(bs, p);
    Heap.Fields(m, base, bs, i);
    Heap.NextInWindow(m, base, bs, i);
    Heap.PointerInside(m, base, bs, i);
  }

  /** A step that keeps the raw block keeps the pointer recognisable. */
  lemma AlignedSurvives(m: seq<Byte>, q: seq<Byte>, base: nat, bs: seq<Block>, cs: seq<Block>, p: nat, raw: nat, s: set<Block>)
    requires AlignedPtr(m, base, bs, p, raw) && Kept(m, q, base, s)
    requires bs[PayloadIndex(bs, raw)] in s && bs[PayloadIndex(bs, raw)] in LiveSet(cs)
    requires Inv(cs, base + STATE, base + |m|)
    ensures AlignedPtr(q, base, cs, p, raw)
  {
    hide Word, ByteAt, IndexOf, Inv;
    var b := bs[PayloadIndex(bs, raw)];
    IndexAddr(bs, raw);
    var j := LiveIndex(cs, b, base + STATE, base + |m|);
    SameBytesSameWord(m, q, base, p - HIDDEN);
    SameBytesSameWord(m, q, base, p - 8);
  }

  lemma IndexAddr(bs: seq<Block>, p: nat)
    requires LivePtr(bs, p)
    ensures p >= HEADER && bs[PayloadIndex(bs, p)].Start() == p && bs[PayloadIndex(bs, p)] in LiveSet(bs)
  {
  }

  /** The guards of aligned_alloc; the sums in them do not wrap. */
  predicate Acceptable(alignment: nat, size: nat)
  {
    && alignment != 0 && PowerOfTwo(alignment)
    && alignment <= TWO64 - 1 - HIDDEN
    && size <= TWO64 - 1 - alignment - HIDDEN
  }

  /** Accepted are the powers of two with a size that leaves room for header and alignment below 2^64. */
  lemma AcceptableIff(alignment: nat, size: nat)
    ensures Acceptable(alignment, size) <==> (exists k: nat :: alignment == Pow2(k)) && size + alignment + 16 < TWO64
  {
    hide PowerOfTwo, Pow2;
    PowerOfTwoIff(alignment);
    Positive(alignment);
  }

  lemma Positive(a: nat)
    ensures PowerOfTwo(a) ==> a > 0
  {
  }

  lemma PowerOfTwoIff(a: nat)
    ensures PowerOfTwo(a) <==> exists k: nat :: a == Pow2(k)
  {
    hide PowerOfTwo, Pow2;
    if PowerOfTwo(a) { var k := Exponent(a); }
    forall k: nat | a == Pow2(k) ensures PowerOfTwo(a) { PowIsPower(k); }
  }

  lemma {:induction false} PowIsPower(k: nat)
    ensures Pow2(k) > 0 && PowerOfTwo(Pow2(k))
  {
    if k > 0 {
      PowIsPower(k - 1);
      assert Pow2(k) / 2 == Pow2(k - 1) && Pow2(k) % 2 == 0;
    }
  }

  lemma {:induction false} Exponent(a: nat) returns (k: nat)
    requires PowerOfTwo(a)
    ensures a == Pow2(k)
  {
    if a == 1 {
      k := 0;
    } else {
      k := Exponent(a / 2);
      k := k + 1;
    }
  }

  /** The guards let through totals whose 16-byte rounding wraps to nothing. */
  lemma GuardsMissRounding()
    ensures Acceptable(1, TWO64 - 18) && AlignUp16(TWO64 - 18 + 1 + HIDDEN) == 0
  {
  }

  /** The raw block has room for everything aligned_alloc puts into it exactly when the total can be rounded up
      without wrapping: the guards should have stopped at 2^64 - 16. */
  lemma RawRoomIff(bs: seq<Block>, k: nat, total: nat, lo: nat, hi: nat)
    requires Inv(bs, lo, hi) && total < TWO64 && k < |bs| && Fits(bs[k], AlignUp16(total))
    ensures k < |Take(bs, k, AlignUp16(total))|
    ensures Take(bs, k, AlignUp16(total))[k].payload >= total <==> total <= TWO64 - 16
  {
    hide Take, Inv, LiveSet;
    AlignUpCovers(total);
    TakeLive(bs, k, AlignUp16(total), lo, hi);
  }

  method AlignedAlloc(h: Heap, alignment: nat, size: nat) returns (p: nat)
    requires h.Valid() && alignment < TWO64 && size < TWO64
    requires Acceptable(alignment, size) ==> size + alignment + HIDDEN <= TWO64 - 16
    modifies h.mem, h`blocks
    ensures h.Valid() && Kept(old(h.mem[..]), h.mem[..], h.base, LiveSet(old(h.blocks)))
    ensures var n := AlignUp16(size + alignment + HIDDEN); var k := FirstFit(old(h.blocks), n);
            if !Acceptable(alignment, size) || k == |old(h.blocks)| then p == 0 && h.blocks == old(h.blocks)
            else && h.blocks == Take(old(h.blocks), k, n)
                 && var raw := old(h.blocks)[k].Start();
                 && AlignedPtr(h.mem[..], h.base, h.blocks, p, raw)
                 && p % alignment == 0 && p + size <= h.blocks[PayloadIndex(h.blocks, raw)].End()
  {
    hide Word, Holds, Kept, Take, LiveSet, FirstFit, Window, IndexOf, AlignUp16, PowerOfTwo, RoundUp, PutAll, AllBlocks;
    if !Acceptable(alignment, size) {
      Heap.KeptSame(h.mem[..], h.base, LiveSet(h.blocks));
      return 0;
    }
    var total := size + alignment + HIDDEN;
    ghost var m0, bs0, n, k := h.mem[..], h.blocks, AlignUp16(total), FirstFit(h.blocks, AlignUp16(total));
    var raw := h.Malloc(total);
    if raw == 0 {
      if k < |bs0| { IndexAddr(h.blocks, raw); }
      return 0;
    }
    h.LiveMeansStarted(raw);
    ghost var m1, bs, i := h.mem[..], h.blocks, PayloadIndex(h.blocks, raw);
    AlignUpCovers(total);
    TakenRoom(h.base, h.mem.Length, bs0, k, n, bs);
    IndexAddr(bs, raw);
    p := RoundUp(raw + HIDDEN, alignment);
    RoundUpLeast(raw + HIDDEN, alignment);
    Heap.Fields(m1, h.base, bs, i);
    PutAllNone(m1, h.base);
    ghost var ws := h.StoreWord(p - HIDDEN, CRT_MAGIC, m1, []);
    ws := h.StoreWord(p - 8, raw, m1, ws);
    HiddenHeader(m1, h.base, bs, i, ws, p, raw);
    Heap.HoldsStarted(h.mem[..], h.base, bs);
    KeptFresh(m0, m1, h.mem[..], h.base, bs0, bs, k, n);
  }

  lemma TakenRoom(base: nat, size: nat, bs0: seq<Block>, k: nat, n: nat, bs: seq<Block>)
    requires Window(size, base, bs0) && k < |bs0| && Fits(bs0[k], n) && n % 16 == 0 && bs == Take(bs0, k, n)
    ensures PayloadIndex(bs, bs0[k].Start()) == k && k < |bs| && n <= bs[k].payload && bs[k].addr == bs0[k].addr
  {
    hide Take, LiveSet, Inv;
    TakeLive(bs0, k, n, base + STATE, base + size);
    IndexOfAt(bs, k, base + STATE, base + size);
  }

  lemma HiddenHeader(m: seq<Byte>, base: nat, bs: seq<Block>, i: nat, ws: seq<Write>, p: nat, raw: nat)
    requires Holds(m, base, bs) && i < |bs| && WritesFit(|m|, base, ws)
    requires bs[i].Start() == raw && raw + HIDDEN <= p <= bs[i].End()
    requires ws == [Write(p - HIDDEN, CRT_MAGIC), Write(p - 8, raw)]
    ensures var q := PutAll(m, base, ws);
            && Holds(q, base, bs) && Kept(m, q, base, AllBlocks(bs) - {bs[i]})
            && Word(q, base, p - HIDDEN) == CRT_MAGIC && Word(q, base, p - 8) == raw
  {
    hide Word, PutAll, Put, ByteAt, Holds, Kept, Written;
    var q := PutAll(m, base, ws);
    PutAllWritten(m, base, ws);
    WrittenAt(m, q, base, ws, 0);
    WrittenAt(m, q, base, ws, 1);
    forall x | !(bs[i].Start() <= x < bs[i].End()) ensures ByteAt(q, base, x) == ByteAt(m, base, x) {
      TwoStores(m, base, ws, x);
    }
    PayloadWriteHolds(m, q, base, bs, i);
  }

  lemma TwoStores(m: seq<Byte>, base: nat, ws: seq<Write>, x: int)
    requires WritesFit(|m|, base, ws) && |ws| == 2
    requires !(ws[0].a <= x < ws[0].a + 8) && !(ws[1].a <= x < ws[1].a + 8)
    ensures ByteAt(PutAll(m, base, ws), base, x) == ByteAt(m, base, x)
  {
    hide ByteAt, Put, PutAll;
    PutAllNone(m, base);
    PutAllSnoc(m, base, [], ws[0]);
    PutAllSnoc(m, base, [ws[0]], ws[1]);
    assert [] + [ws[0]] == [ws[0]] && [ws[0]] + [ws[1]] == ws;
    PutByte(m, base, ws[0].a, ws[0].v, x);
    PutByte(PutAll(m, base, [ws[0]]), base, ws[1].a, ws[1].v, x);
  }

  lemma KeptFresh(m0: seq<Byte>, m1: seq<Byte>, m2: seq<Byte>, base: nat, bs0: seq<Block>, bs: seq<Block>, k: nat, n: nat)
    requires Window(|m0|, base, bs0) && k < |bs0| && Fits(bs0[k], n) && n % 16 == 0 && bs == Take(bs0, k, n) && k < |bs|
    requires Kept(m0, m1, base, LiveSet(bs0)) && Kept(m1, m2, base, AllBlocks(bs) - {bs[k]})
    ensures Kept(m0, m2, base, LiveSet(bs0))
  {
    hide ByteAt, Inv, Take;
    TakeLive(bs0, k, n, base + STATE, base + |m0|);
    FreshAddr(bs0, k, base + STATE, base + |m0|);
    forall b | b in LiveSet(bs0) ensures b in AllBlocks(bs) - {bs[k]} {
      assert b in LiveSet(bs);
    }
  }

  /** free: the raw block of an aligned pointer, the block itself of a malloc pointer. */
  method Free(h: Heap, p: nat, ghost raw: nat)
    requires h.Valid()
    requires p == 0 || LivePtr(h.blocks, p) || AlignedPtr(h.mem[..], h.base, h.blocks, p, raw)
    modifies h.mem, h`blocks
    ensures h.Valid() && Kept(old(h.mem[..]), h.mem[..], h.base, LiveSet(h.blocks))
    ensures p == 0 ==> h.blocks == old(h.blocks)
    ensures LivePtr(old(h.blocks), p) ==> h.blocks == Release(old(h.blocks), PayloadIndex(old(h.blocks), p))
    ensures p != 0 && AlignedPtr(old(h.mem[..]), h.base, old(h.blocks), p, raw)
            ==> h.blocks == Release(old(h.blocks), PayloadIndex(old(h.blocks), raw))
  {
    hide Word, Holds, Kept, Release, LiveSet, Window, IndexOf;
    ghost var m0, bs0 := h.mem[..], h.blocks;
    if p == 0 {
      Heap.KeptSame(m0, h.base, LiveSet(bs0));
      if LivePtr(bs0, p) { IndexAddr(bs0, p); }
      return;
    }
    if LivePtr(bs0, p) {
      h.LiveMeansStarted(p);
      MallocPtrNotMistaken(m0, h.base, bs0, p);
    } else {
      h.LiveMeansStarted(raw);
      IndexAddr(bs0, raw);
      Heap.Fields(m0, h.base, bs0, PayloadIndex(bs0, raw));
      Heap.PointerInside(m0, h.base, bs0, PayloadIndex(bs0, raw));
    }
    var magic := h.LoadWord(p - HIDDEN);
    var kept := h.LoadWord(p - 8);
    if magic == CRT_MAGIC && kept != 0 && h.Contains(kept) {
      h.Free(kept);
      return;
    }
    h.Free(p);
  }
}
