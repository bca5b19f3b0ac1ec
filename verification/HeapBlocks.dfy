/** The block list of the in-process shared heap as a value: what split, coalesce, first fit and
    in-place growth do to the sequence of blocks, independent of where the headers are stored. */
module HeapBlocks {
  import opened Arith

  /** sizeof(UserSharedHeapBlock): payload_bytes, flags, next, prev. */
  const HEADER: nat := 32
  /** Smallest remainder worth a block of its own. */
  const SLACK: nat := 16

  datatype Block = Block(addr: nat, payload: nat, free: bool) {
    function Start(): nat { addr + HEADER }
    function End(): nat { addr + HEADER + payload }
  }

  /** The rounding covers the request exactly when the sum does not wrap. */
  lemma AlignUpCovers(value: nat)
    requires value < TWO64
    ensures AlignUp16(value) % 16 == 0 && AlignUp16(value) < TWO64
    ensures AlignUp16(value) >= value <==> value <= TWO64 - 16
    ensures value <= TWO64 - 16 ==> AlignUp16(value) < value + 16
  {
    if value + 15 < TWO64 {
      assert (value + 15) % TWO64 == value + 15;
    } else {
      assert (value + 15) % TWO64 == value + 15 - TWO64;
    }
  }

  /** The blocks cover [lo, hi) exactly, one after the other, on 16-byte boundaries. */
  ghost predicate Tiles(bs: seq<Block>, lo: nat, hi: nat)
  {
    && 0 < |bs|
    && bs[0].addr == lo
    && bs[|bs| - 1].End() == hi
    && (forall i :: 0 <= i < |bs| ==> bs[i].addr % 16 == 0 && bs[i].payload % 16 == 0)
    && (forall i, j :: 0 <= i < |bs| && j == i + 1 < |bs| ==> bs[j].addr == bs[i].End())
  }

  /** Tiling, plus: the last block is never empty, so every payload pointer is below hi. */
  ghost predicate Inv(bs: seq<Block>, lo: nat, hi: nat)
  {
    Tiles(bs, lo, hi) && bs[|bs| - 1].payload > 0
  }

  ghost predicate NoAdjacentFree(bs: seq<Block>)
  {
    forall i, j :: 0 <= i < |bs| && j == i + 1 < |bs| ==> !(bs[i].free && bs[j].free)
  }

  /** Blocks appear in address order and do not overlap. */
  lemma {:induction false} Ordered(bs: seq<Block>, lo: nat, hi: nat, i: nat, j: nat)
    requires Tiles(bs, lo, hi) && i < j < |bs|
    ensures bs[i].End() <= bs[j].addr
    decreases j
  {
    if i + 1 < j {
      Ordered(bs, lo, hi, i, j - 1);
    }
    assert bs[j].addr == bs[j - 1].End();
  }

  ghost predicate Separated(bs: seq<Block>)
  {
    forall i, j :: 0 <= i < j < |bs| ==> bs[i].End() <= bs[j].addr
  }

  lemma AllOrdered(bs: seq<Block>, lo: nat, hi: nat)
    requires Tiles(bs, lo, hi)
    ensures Separated(bs)
    ensures forall i :: 0 <= i < |bs| ==> lo <= bs[i].addr && bs[i].End() <= hi
  {
    forall i, j | 0 <= i < j < |bs|
      ensures bs[i].End() <= bs[j].addr
    {
      Ordered(bs, lo, hi, i, j);
    }
    forall i | 0 <= i < |bs|
      ensures lo <= bs[i].addr && bs[i].End() <= hi
    {
      if i > 0 { Ordered(bs, lo, hi, 0, i); }
      if i < |bs| - 1 { Ordered(bs, lo, hi, i, |bs| - 1); }
    }
  }

  lemma InvOrdered(bs: seq<Block>, lo: nat, hi: nat)
    requires Inv(bs, lo, hi)
    ensures Separated(bs)
    ensures forall i :: 0 <= i < |bs| ==> lo <= bs[i].addr && bs[i].End() <= hi
  {
    AllOrdered(bs, lo, hi);
  }

  /** Headers plus payloads. */
  function Bytes(bs: seq<Block>): nat
  {
    if bs == [] then 0 else HEADER + bs[0].payload + Bytes(bs[1..])
  }

  /** Every tiling of the window accounts for the whole window. */
  lemma {:induction false} BytesConserved(bs: seq<Block>, lo: nat, hi: nat)
    requires Tiles(bs, lo, hi)
    ensures Bytes(bs) == hi - lo
    decreases |bs|
  {
    if |bs| > 1 {
      assert bs[1].addr == bs[0].End();
      var t := bs[1..];
      assert forall i :: 0 <= i < |t| ==> t[i] == bs[i + 1];
      BytesConserved(t, bs[0].End(), hi);
    }
  }

  // ---------------------------------------------------------------- operations

  function Split(bs: seq<Block>, i: nat, n: nat): (r: seq<Block>)
    requires i < |bs|
  {
    if bs[i].payload <= n + HEADER + SLACK then bs
    else bs[..i] + [bs[i].(payload := n), Block(bs[i].Start() + n, bs[i].payload - n - HEADER, true)] + bs[i + 1..]
  }

  /** Block i takes over block i+1, header included. */
  function Absorb(bs: seq<Block>, i: nat): (r: seq<Block>)
    requires i + 1 < |bs|
  {
    bs[..i] + [bs[i].(payload := bs[i].payload + HEADER + bs[i + 1].payload)] + bs[i + 2..]
  }

  function AbsorbNext(bs: seq<Block>, i: nat): (r: seq<Block>)
    requires i < |bs|
  {
    if i + 1 < |bs| && bs[i + 1].free then Absorb(bs, i) else bs
  }

  function AbsorbIntoPrev(bs: seq<Block>, i: nat): (r: seq<Block>)
    requires i < |bs|
  {
    if 0 < i && bs[i - 1].free then Absorb(bs, i - 1) else bs
  }

  function Coalesce(bs: seq<Block>, i: nat): (r: seq<Block>)
    requires i < |bs|
  {
    var b1 := AbsorbNext(bs, i);
    if i < |b1| then AbsorbIntoPrev(b1, i) else b1
  }

  function SetFree(bs: seq<Block>, i: nat, free: bool): (r: seq<Block>)
    requires i < |bs|
  {
    bs[i := bs[i].(free := free)]
  }

  predicate Fits(b: Block, n: nat)
  {
    b.free && b.payload >= n
  }

  /** Index of the first free block that is large enough, or |bs|. */
  function FirstFit(bs: seq<Block>, n: nat): (k: nat)
    ensures k <= |bs|
    ensures k < |bs| ==> Fits(bs[k], n)
    ensures forall j :: 0 <= j < k ==> !Fits(bs[j], n)
  {
    FirstFitFrom(bs, n, 0)
  }

  function FirstFitFrom(bs: seq<Block>, n: nat, i: nat): (k: nat)
    requires i <= |bs|
    ensures i <= k <= |bs|
    ensures k < |bs| ==> Fits(bs[k], n)
    ensures forall j :: i <= j < k ==> !Fits(bs[j], n)
    decreases |bs| - i
  {
    if i == |bs| || Fits(bs[i], n) then i else FirstFitFrom(bs, n, i + 1)
  }

  /** Take block k for a payload of n bytes. */
  function Take(bs: seq<Block>, k: nat, n: nat): (r: seq<Block>)
    requires k < |bs|
  {
    var s := Split(bs, k, n);
    if k < |s| then SetFree(s, k, false) else s
  }

  function Release(bs: seq<Block>, i: nat): (r: seq<Block>)
    requires i < |bs|
  {
    Coalesce(SetFree(bs, i, true), i)
  }

  // ---------------------------------------------------------------- what the operations keep

  /** Element by element: what Split does when it does split. */
  lemma SplitAt(bs: seq<Block>, i: nat, n: nat)
    requires i < |bs| && bs[i].payload > n + HEADER + SLACK
    ensures var r := Split(bs, i, n);
            && |r| == |bs| + 1
            && r[i] == bs[i].(payload := n)
            && r[i + 1] == Block(bs[i].Start() + n, bs[i].payload - n - HEADER, true)
            && (forall j :: 0 <= j < i ==> r[j] == bs[j])
            && (forall j :: i + 2 <= j < |r| ==> r[j] == bs[j - 1])
  {
  }

  /** Exactly a block with more than 48 bytes to spare is cut to the request; the rest, less a header, is a free block
      right behind it. */
  lemma SplitWhen(bs: seq<Block>, i: nat, n: nat)
    requires i < |bs|
    ensures var r := Split(bs, i, n);
            if bs[i].payload > n + 48 then
              && |r| == |bs| + 1 && r[i].payload == n && r[i + 1] == Block(bs[i].addr + 32 + n, bs[i].payload - n - 32, true)
            else r == bs
  {
    if bs[i].payload > n + 48 { SplitAt(bs, i, n); }
  }

  lemma SplitShape(bs: seq<Block>, i: nat, n: nat, lo: nat, hi: nat)
    requires Inv(bs, lo, hi) && i < |bs| && n % 16 == 0 && n <= bs[i].payload
    ensures var r := Split(bs, i, n);
            && Inv(r, lo, hi) && i < |r|
            && r[i] == bs[i].(payload := r[i].payload)
            && n <= r[i].payload <= n + HEADER + SLACK
            && (forall j :: 0 <= j < i ==> r[j] == bs[j])
            && (|r| == |bs| ==> r == bs)
            && (|r| != |bs| ==> |r| == |bs| + 1 && r[i + 1].free && r[i].payload == n
                                && (forall j :: i + 2 <= j < |r| ==> r[j] == bs[j - 1]))
  {
    hide Inv;
    SplitWhen(bs, i, n);
    if bs[i].payload > n + HEADER + SLACK {
      SplitAt(bs, i, n);
      SplitTiles(bs, i, n, Split(bs, i, n), lo, hi);
    }
  }

  lemma SplitTiles(bs: seq<Block>, i: nat, n: nat, r: seq<Block>, lo: nat, hi: nat)
    requires Inv(bs, lo, hi) && i < |bs| && n % 16 == 0 && bs[i].payload > n + HEADER + SLACK
    requires |r| == |bs| + 1 && r[i] == bs[i].(payload := n) && r[i + 1] == Block(bs[i].Start() + n, bs[i].payload - n - HEADER, true)
    requires (forall j :: 0 <= j < i ==> r[j] == bs[j]) && (forall j :: i + 2 <= j < |r| ==> r[j] == bs[j - 1])
    ensures Inv(r, lo, hi)
  {
    forall j | 0 <= j < |r| ensures r[j].addr % 16 == 0 && r[j].payload % 16 == 0 {
      if j > i + 1 { assert r[j] == bs[j - 1]; }
    }
    forall j, k | 0 <= j < |r| && k == j + 1 < |r| ensures r[k].addr == r[j].End() {
      if k < i { assert r[j] == bs[j] && r[k] == bs[k]; }
      else if k == i { assert r[j] == bs[j]; assert bs[i].addr == bs[j].End(); }
      else if j == i + 1 { assert r[k] == bs[i + 1]; assert bs[i + 1].addr == bs[i].End(); }
      else if j > i + 1 { assert r[j] == bs[j - 1] && r[k] == bs[j]; assert bs[j].addr == bs[j - 1].End(); }
    }
    if i < |bs| - 1 { assert r[|r| - 1] == bs[|bs| - 1]; }
    assert r[0].addr == lo;
  }

  lemma AbsorbAt(bs: seq<Block>, i: nat)
    requires i + 1 < |bs|
    ensures var r := Absorb(bs, i);
            && |r| == |bs| - 1
            && r[i] == Block(bs[i].addr, bs[i].payload + HEADER + bs[i + 1].payload, bs[i].free)
            && (forall j :: 0 <= j < i ==> r[j] == bs[j])
            && (forall j :: i < j < |r| ==> r[j] == bs[j + 1])
  {
  }

  lemma AbsorbShape(bs: seq<Block>, i: nat, lo: nat, hi: nat)
    requires Inv(bs, lo, hi) && i + 1 < |bs|
    ensures var r := Absorb(bs, i);
            && Inv(r, lo, hi) && |r| == |bs| - 1
            && r[i] == Block(bs[i].addr, bs[i].payload + HEADER + bs[i + 1].payload, bs[i].free)
            && (forall j :: 0 <= j < i ==> r[j] == bs[j])
            && (forall j :: i < j < |r| ==> r[j] == bs[j + 1])
  {
    AbsorbAt(bs, i);
    hide Absorb;
    var r := Absorb(bs, i);
    assert bs[i + 1].addr == bs[i].End();
    forall j | 0 <= j < |r| ensures r[j].addr % 16 == 0 && r[j].payload % 16 == 0 {
      if j > i { assert r[j] == bs[j + 1]; }
    }
    forall j, k | 0 <= j < |r| && k == j + 1 < |r| ensures r[k].addr == r[j].End() {
      if k < i { assert r[j] == bs[j] && r[k] == bs[k]; }
      else if k == i { assert r[j] == bs[j]; assert bs[i].addr == bs[j].End(); }
      else if j == i { assert r[k] == bs[i + 2]; assert bs[i + 2].addr == bs[i + 1].End(); }
      else { assert r[j] == bs[j + 1] && r[k] == bs[k + 1]; assert bs[k + 1].addr == bs[k].End(); }
    }
    if i < |r| - 1 { assert r[|r| - 1] == bs[|bs| - 1]; }
    assert r[0].addr == lo;
  }

  lemma SetFreeShape(bs: seq<Block>, i: nat, free: bool, lo: nat, hi: nat)
    requires Inv(bs, lo, hi) && i < |bs|
    ensures Inv(SetFree(bs, i, free), lo, hi)
  {
    var r := SetFree(bs, i, free);
    forall j, k | 0 <= j < |r| && k == j + 1 < |r| ensures r[k].addr == r[j].End() {
      assert bs[k].addr == bs[j].End();
    }
  }
}
