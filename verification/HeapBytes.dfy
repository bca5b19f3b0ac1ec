/** The block list as the bytes of the heap window: four header words in front of each payload. */
module HeapBytes {
  import opened Arith
  import opened Words
  import opened HeapBlocks
  import opened HeapRuns

  /** The word at address a of a window that starts at base; 0 outside the window. */
  ghost function Word(m: seq<Byte>, base: nat, a: nat): (v: nat)
    ensures v < TWO64
  {
    if base <= a && a + 8 <= base + |m| then Load(m, a - base) else 0
  }

  ghost function Put(m: seq<Byte>, base: nat, a: nat, v: nat): (r: seq<Byte>)
    requires base <= a && a + 8 <= base + |m|
    ensures |r| == |m|
  {
    Store(m, a - base, v)
  }

  lemma PutWord(m: seq<Byte>, base: nat, a: nat, v: nat)
    requires base <= a && a + 8 <= base + |m| && v < TWO64
    ensures Word(Put(m, base, a, v), base, a) == v
  {
    LoadStoreSame(m, a - base, v);
  }

  lemma PutOther(m: seq<Byte>, base: nat, a: nat, v: nat, b: nat)
    requires base <= a && a + 8 <= base + |m| && Disjoint(a, b)
    ensures Word(Put(m, base, a, v), base, b) == Word(m, base, b)
  {
    if base <= b && b + 8 <= base + |m| {
      LoadStoreOther(m, a - base, v, b - base);
    }
  }

  /** The byte at address k; 0 outside the window. */
  ghost function ByteAt(m: seq<Byte>, base: nat, k: int): Byte
  {
    if base <= k < base + |m| then m[k - base] else 0
  }

  lemma PutByte(m: seq<Byte>, base: nat, a: nat, v: nat, k: int)
    requires base <= a && a + 8 <= base + |m| && !(a <= k < a + 8)
    ensures ByteAt(Put(m, base, a, v), base, k) == ByteAt(m, base, k)
  {
  }

  /** A word is determined by its eight bytes. */
  lemma SameBytesSameWord(m: seq<Byte>, r: seq<Byte>, base: nat, a: nat)
    requires |m| == |r| && forall k :: a <= k < a + 8 ==> ByteAt(r, base, k) == ByteAt(m, base, k)
    ensures Word(r, base, a) == Word(m, base, a)
  {
    hide LeValue;
    if base <= a && a + 8 <= base + |m| {
      var at := a - base;
      forall i | at <= i < at + 8 ensures m[i] == r[i] {
        assert ByteAt(r, base, base + i) == ByteAt(m, base, base + i);
      }
      assert m[at..at + 8] == r[at..at + 8];
    }
  }

  datatype Write = Write(a: nat, v: nat)

  ghost predicate WritesFit(size: nat, base: nat, ws: seq<Write>)
  {
    forall i :: 0 <= i < |ws| ==> base <= ws[i].a && ws[i].a + 8 <= base + size && ws[i].v < TWO64
  }

  predicate Disjoint(a: nat, b: nat)
  {
    a + 8 <= b || b + 8 <= a
  }

  /** Memory after a list of word stores, first to last. */
  ghost function PutAll(m: seq<Byte>, base: nat, ws: seq<Write>): (q: seq<Byte>)
    requires WritesFit(|m|, base, ws)
    ensures |q| == |m|
    decreases |ws|
  {
    if ws == [] then m
    else
      var p := PutAll(m, base, ws[..|ws| - 1]);
      var w := ws[|ws| - 1];
      Put(p, base, w.a, w.v)
  }

  lemma PutAllNone(m: seq<Byte>, base: nat)
    ensures PutAll(m, base, []) == m
  {
  }

  lemma PutAllSnoc(m: seq<Byte>, base: nat, ws: seq<Write>, w: Write)
    requires WritesFit(|m|, base, ws) && WritesFit(|m|, base, ws + [w])
    ensures base <= w.a && w.a + 8 <= base + |m| && w.v < TWO64
    ensures PutAll(m, base, ws + [w]) == Put(PutAll(m, base, ws), base, w.a, w.v)
  {
    assert (ws + [w])[..|ws + [w]| - 1] == ws;
    assert (ws + [w])[|ws|] == w;
  }

  lemma {:induction false} PutAllOther(m: seq<Byte>, base: nat, ws: seq<Write>, b: nat)
    requires WritesFit(|m|, base, ws) && forall i :: 0 <= i < |ws| ==> Disjoint(ws[i].a, b)
    ensures Word(PutAll(m, base, ws), base, b) == Word(m, base, b)
    decreases |ws|
  {
    hide Word, Put;
    if ws != [] {
      var n := |ws| - 1;
      PutAllOther(m, base, ws[..n], b);
      PutOther(PutAll(m, base, ws[..n]), base, ws[n].a, ws[n].v, b);
    }
  }

  lemma {:induction false} PutAllAt(m: seq<Byte>, base: nat, ws: seq<Write>, i: nat)
    requires WritesFit(|m|, base, ws) && i < |ws|
    requires forall j :: i < j < |ws| ==> Disjoint(ws[j].a, ws[i].a)
    ensures Word(PutAll(m, base, ws), base, ws[i].a) == ws[i].v
    decreases |ws|
  {
    hide Word, Put, Disjoint;
    var n := |ws| - 1;
    if i == n {
      PutWord(PutAll(m, base, ws[..n]), base, ws[n].a, ws[n].v);
    } else {
      PutAllAt(m, base, ws[..n], i);
      assert ws[..n][i] == ws[i];
      PutOther(PutAll(m, base, ws[..n]), base, ws[n].a, ws[n].v, ws[i].a);
    }
  }

  function NextOf(bs: seq<Block>, i: nat): nat
  {
    if i + 1 < |bs| then bs[i + 1].addr else 0
  }

  function PrevOf(bs: seq<Block>, i: nat): nat
    requires i <= |bs|
  {
    if 0 < i then bs[i - 1].addr else 0
  }

  function FlagOf(b: Block): nat
  {
    if b.free then 1 else 0
  }

  ghost predicate HeaderAt(m: seq<Byte>, base: nat, bs: seq<Block>, i: nat)
    requires i < |bs|
  {
    && Word(m, base, bs[i].addr) == bs[i].payload
    && Word(m, base, bs[i].addr + 8) == FlagOf(bs[i])
    && Word(m, base, bs[i].addr + 16) == NextOf(bs, i)
    && Word(m, base, bs[i].addr + 24) == PrevOf(bs, i)
  }

  /** Memory holds exactly the list bs: sizes, flags, and next and prev links that are inverse. */
  ghost predicate Encodes(m: seq<Byte>, base: nat, bs: seq<Block>)
  {
    forall i :: 0 <= i < |bs| ==> HeaderAt(m, base, bs, i)
  }

  /** The state record at the window's base: magic, lock word, head pointer. */
  const HEAP_MAGIC: nat := 0x554845415031
  const STATE: nat := 32

  ghost predicate Started(m: seq<Byte>, base: nat)
  {
    Word(m, base, base) == HEAP_MAGIC && Word(m, base, base + 16) != 0
  }

  ghost predicate Window(size: nat, base: nat, bs: seq<Block>)
  {
    && 0 < base && base % 16 == 0 && STATE + HEADER < size && base + size < TWO64
    && Inv(bs, base + STATE, base + size)
  }

  /** Memory of a started heap. */
  ghost predicate Holds(m: seq<Byte>, base: nat, bs: seq<Block>)
  {
    && Window(|m|, base, bs)
    && Word(m, base, base) == HEAP_MAGIC && Word(m, base, base + 16) == base + STATE
    && Encodes(m, base, bs)
  }

  /** No payload byte of a block in s differs between m and r. */
  ghost predicate Kept(m: seq<Byte>, r: seq<Byte>, base: nat, s: set<Block>)
  {
    && |m| == |r|
    && forall b, k :: b in s && b.Start() <= k < b.End() ==> ByteAt(r, base, k) == ByteAt(m, base, k)
  }

  ghost function AllBlocks(bs: seq<Block>): set<Block>
  {
    set b | b in bs
  }

  /** Address a is one of the four header words of a block of r. */
  ghost predicate HeaderWord(r: seq<Block>, a: nat)
  {
    exists j :: 0 <= j < |r| && FieldOf(r[j], a)
  }

  predicate FieldOf(b: Block, a: nat)
  {
    a == b.addr || a == b.addr + 8 || a == b.addr + 16 || a == b.addr + 24
  }

  /** A header word of a tiling shares no byte with any payload of the tiling. */
  lemma HeaderWordOutside(m: seq<Byte>, base: nat, r: seq<Block>, a: nat, b: Block, k: int)
    requires Window(|m|, base, r) && HeaderWord(r, a) && b in AllBlocks(r) && b.Start() <= k < b.End()
    ensures !(a <= k < a + 8)
  {
    AllOrdered(r, base + STATE, base + |m|);
    var j :| 0 <= j < |r| && FieldOf(r[j], a);
    var i :| 0 <= i < |r| && r[i] == b;
    hide Window, Inv, Tiles;
  }

  /** Writing header words of a tiling touches no payload of that tiling. */
  lemma {:induction false} HeaderWritesKeep(m: seq<Byte>, base: nat, r: seq<Block>, ws: seq<Write>)
    requires Window(|m|, base, r) && WritesFit(|m|, base, ws)
    requires forall i :: 0 <= i < |ws| ==> HeaderWord(r, ws[i].a)
    ensures Kept(m, PutAll(m, base, ws), base, AllBlocks(r))
    decreases |ws|
  {
    if ws != [] {
      var n := |ws| - 1;
      HeaderWritesKeep(m, base, r, ws[..n]);
      var p, q := PutAll(m, base, ws[..n]), PutAll(m, base, ws);
      assert q == Put(p, base, ws[n].a, ws[n].v);
      hide PutAll, Put, ByteAt, Window, AllBlocks, HeaderWord;
      forall b, k | b in AllBlocks(r) && b.Start() <= k < b.End()
        ensures ByteAt(q, base, k) == ByteAt(m, base, k)
      {
        HeaderWordOutside(m, base, r, ws[n].a, b, k);
        PutByte(p, base, ws[n].a, ws[n].v, k);
      }
    }
  }

  /** Word-level reading of memory after ws: what is stored where, and nothing else moved. */
  ghost predicate Written(m: seq<Byte>, q: seq<Byte>, base: nat, ws: seq<Write>)
  {
    && (forall i :: 0 <= i < |ws| ==> Word(q, base, ws[i].a) == ws[i].v)
    && (forall b: nat :: (forall i :: 0 <= i < |ws| ==> Disjoint(ws[i].a, b)) ==> Word(q, base, b) == Word(m, base, b))
  }

  lemma PutAllWritten(m: seq<Byte>, base: nat, ws: seq<Write>)
    requires WritesFit(|m|, base, ws)
    requires forall i, j :: 0 <= i < j < |ws| ==> Disjoint(ws[j].a, ws[i].a)
    ensures Written(m, PutAll(m, base, ws), base, ws)
  {
    hide Word, PutAll;
    var q := PutAll(m, base, ws);
    forall i | 0 <= i < |ws| ensures Word(q, base, ws[i].a) == ws[i].v {
      PutAllAt(m, base, ws, i);
    }
    forall b: nat | forall i :: 0 <= i < |ws| ==> Disjoint(ws[i].a, b) ensures Word(q, base, b) == Word(m, base, b) {
      PutAllOther(m, base, ws, b);
    }
  }

  lemma Untouched(m: seq<Byte>, q: seq<Byte>, base: nat, ws: seq<Write>, a: nat)
    requires Written(m, q, base, ws) && forall i :: 0 <= i < |ws| ==> Disjoint(ws[i].a, a)
    ensures Word(q, base, a) == Word(m, base, a)
  {
  }

  lemma WrittenAt(m: seq<Byte>, q: seq<Byte>, base: nat, ws: seq<Write>, i: nat)
    requires Written(m, q, base, ws) && i < |ws|
    ensures Word(q, base, ws[i].a) == ws[i].v
  {
  }

  /** A header none of the writes falls into. */
  lemma HeaderUntouched(m: seq<Byte>, q: seq<Byte>, base: nat, ws: seq<Write>, a: nat)
    requires Written(m, q, base, ws)
    requires forall i :: 0 <= i < |ws| ==> ws[i].a + 8 <= a || a + HEADER <= ws[i].a
    ensures Word(q, base, a) == Word(m, base, a) && Word(q, base, a + 8) == Word(m, base, a + 8)
    ensures Word(q, base, a + 16) == Word(m, base, a + 16) && Word(q, base, a + 24) == Word(m, base, a + 24)
  {
    hide Word, Written;
    Untouched(m, q, base, ws, a);
    Untouched(m, q, base, ws, a + 8);
    Untouched(m, q, base, ws, a + 16);
    Untouched(m, q, base, ws, a + 24);
  }

  // ---------------------------------------------------------------- the three header updates

  function FlagWrites(bs: seq<Block>, i: nat, free: bool): seq<Write>
    requires i < |bs|
  {
    [Write(bs[i].addr + 8, if free then 1 else 0)]
  }

  /** The remainder's four words, the link back from its successor, and block i's size and link. */
  function SplitWrites(bs: seq<Block>, i: nat, n: nat): seq<Write>
    requires i < |bs| && bs[i].payload > n + HEADER + SLACK
  {
    var rem := bs[i].Start() + n;
    [Write(rem, bs[i].payload - n - HEADER), Write(rem + 8, 1), Write(rem + 16, NextOf(bs, i)), Write(rem + 24, bs[i].addr)]
    + (if i + 1 < |bs| then [Write(bs[i + 1].addr + 24, rem)] else [])
    + [Write(bs[i].addr, n), Write(bs[i].addr + 16, rem)]
  }

  function AbsorbWrites(bs: seq<Block>, i: nat): seq<Write>
    requires i + 1 < |bs|
  {
    [Write(bs[i].addr, bs[i].payload + HEADER + bs[i + 1].payload), Write(bs[i].addr + 16, NextOf(bs, i + 1))]
    + (if i + 2 < |bs| then [Write(bs[i + 2].addr + 24, bs[i].addr)] else [])
  }

  /** A list of header writes turns memory holding bs into memory holding r. */
  ghost predicate Turns(m: seq<Byte>, base: nat, bs: seq<Block>, ws: seq<Write>, r: seq<Block>)
  {
    && WritesFit(|m|, base, ws)
    && Holds(PutAll(m, base, ws), base, r)
    && Kept(m, PutAll(m, base, ws), base, AllBlocks(r))
  }

  /** Header writes lie above the state record. */
  lemma StateUntouched(m: seq<Byte>, q: seq<Byte>, base: nat, bs: seq<Block>, ws: seq<Write>)
    requires Written(m, q, base, ws) && Holds(m, base, bs)
    requires forall j :: 0 <= j < |ws| ==> base + STATE <= ws[j].a
    ensures Word(q, base, base) == HEAP_MAGIC && Word(q, base, base + 16) == base + STATE
  {
    Untouched(m, q, base, ws, base);
    Untouched(m, q, base, ws, base + 16);
  }

  /** From the word level to the claim that the writes turn bs into r. */
  lemma TurnsFrom(m: seq<Byte>, base: nat, bs: seq<Block>, ws: seq<Write>, r: seq<Block>)
    requires Holds(m, base, bs) && Window(|m|, base, r)
    requires WritesFit(|m|, base, ws) && forall j :: 0 <= j < |ws| ==> base + STATE <= ws[j].a
    requires forall i :: 0 <= i < |ws| ==> HeaderWord(r, ws[i].a)
    requires Written(m, PutAll(m, base, ws), base, ws) ==> Encodes(PutAll(m, base, ws), base, r)
    requires forall i, j :: 0 <= i < j < |ws| ==> Disjoint(ws[j].a, ws[i].a)
    ensures Turns(m, base, bs, ws, r)
  {
    hide PutAll, Written, Encodes, Kept, Word, HeaderWord, Window, Disjoint;
    HeaderWritesKeep(m, base, r, ws);
    PutAllWritten(m, base, ws);
    StateUntouched(m, PutAll(m, base, ws), base, bs, ws);
  }

  lemma FlagTurns(m: seq<Byte>, base: nat, bs: seq<Block>, i: nat, free: bool)
    requires Holds(m, base, bs) && i < |bs|
    ensures Turns(m, base, bs, FlagWrites(bs, i, free), SetFree(bs, i, free))
  {
    hide PutAll, Written, Encodes, Kept, Word, Inv, Turns;
    var ws, r := FlagWrites(bs, i, free), SetFree(bs, i, free);
    InvOrdered(bs, base + STATE, base + |m|);
    SetFreeShape(bs, i, free, base + STATE, base + |m|);
    assert FieldOf(r[i], ws[0].a);
    var q := PutAll(m, base, ws);
    if Written(m, q, base, ws) { FlagHeaders(m, q, base, bs, i, free); }
    TurnsFrom(m, base, bs, ws, r);
  }

  lemma FlagHeaders(m: seq<Byte>, q: seq<Byte>, base: nat, bs: seq<Block>, i: nat, free: bool)
    requires i < |bs| && Separated(bs) && Encodes(m, base, bs)
    requires Written(m, q, base, FlagWrites(bs, i, free))
    ensures Encodes(q, base, SetFree(bs, i, free))
  {
    hide Word, Written;
    var ws, r := FlagWrites(bs, i, free), SetFree(bs, i, free);
    WrittenAt(m, q, base, ws, 0);
    forall j | 0 <= j < |r| ensures HeaderAt(q, base, r, j) {
      assert HeaderAt(m, base, bs, j);
      if j == i {
        Untouched(m, q, base, ws, bs[i].addr);
        Untouched(m, q, base, ws, bs[i].addr + 16);
        Untouched(m, q, base, ws, bs[i].addr + 24);
      } else {
        assert if j < i then bs[j].End() <= bs[i].addr else bs[i].End() <= bs[j].addr;
        HeaderUntouched(m, q, base, ws, bs[j].addr);
      }
    }
  }

  lemma SplitTurns(m: seq<Byte>, base: nat, bs: seq<Block>, i: nat, n: nat)
    requires Holds(m, base, bs) && i < |bs| && n % 16 == 0 && bs[i].payload > n + HEADER + SLACK
    ensures Turns(m, base, bs, SplitWrites(bs, i, n), Split(bs, i, n))
  {
    hide PutAll, Written, Encodes, Kept, Word, Inv, HeaderWord, Split, Turns;
    var ws, r := SplitWrites(bs, i, n), Split(bs, i, n);
    SplitShape(bs, i, n, base + STATE, base + |m|);
    InvOrdered(bs, base + STATE, base + |m|);
    assert i + 1 < |bs| ==> bs[i].End() <= bs[i + 1].addr && bs[i + 1].End() <= base + |m|;
    SplitWritesAreHeaders(bs, i, n, r);
    var q := PutAll(m, base, ws);
    if Written(m, q, base, ws) { SplitHeaders(m, q, base, bs, i, n, r); }
    TurnsFrom(m, base, bs, ws, r);
  }

  lemma SplitWritesAreHeaders(bs: seq<Block>, i: nat, n: nat, r: seq<Block>)
    requires i < |bs| && bs[i].payload > n + HEADER + SLACK && r == Split(bs, i, n)
    ensures forall k :: 0 <= k < |SplitWrites(bs, i, n)| ==> HeaderWord(r, SplitWrites(bs, i, n)[k].a)
  {
    hide Split;
    SplitAt(bs, i, n);
    var ws := SplitWrites(bs, i, n);
    assert forall k :: 0 <= k < 4 ==> FieldOf(r[i + 1], ws[k].a);
    assert i + 1 < |bs| ==> r[i + 2] == bs[i + 1] && FieldOf(r[i + 2], ws[4].a);
    assert FieldOf(r[i], ws[|ws| - 1].a) && FieldOf(r[i], ws[|ws| - 2].a);
  }

  lemma SplitHeaders(m: seq<Byte>, q: seq<Byte>, base: nat, bs: seq<Block>, i: nat, n: nat, r: seq<Block>)
    requires i < |bs| && bs[i].payload > n + HEADER + SLACK && Separated(bs) && Encodes(m, base, bs)
    requires r == Split(bs, i, n) && Written(m, q, base, SplitWrites(bs, i, n))
    ensures Encodes(q, base, r)
  {
    hide Word, Written, Split, SplitWrites;
    SplitAt(bs, i, n);
    forall j | 0 <= j < |r| ensures HeaderAt(q, base, r, j) {
      if j < i || j > i + 2 {
        SplitFar(m, q, base, bs, i, n, r, j);
      } else if j == i {
        SplitFront(m, q, base, bs, i, n, r);
      } else if j == i + 1 {
        SplitRemainder(m, q, base, bs, i, n, r);
      } else {
        SplitBack(m, q, base, bs, i, n, r);
      }
    }
  }

  lemma SplitFar(m: seq<Byte>, q: seq<Byte>, base: nat, bs: seq<Block>, i: nat, n: nat, r: seq<Block>, j: nat)
    requires i < |bs| && bs[i].payload > n + HEADER + SLACK && Separated(bs) && Encodes(m, base, bs)
    requires r == Split(bs, i, n) && Written(m, q, base, SplitWrites(bs, i, n))
    requires j < |r| && (j < i || j > i + 2)
    ensures HeaderAt(q, base, r, j)
  {
    hide Word, Written, Split;
    SplitAt(bs, i, n);
    var ws := SplitWrites(bs, i, n);
    var o := if j < i then j else j - 1;
    assert r[j] == bs[o] && HeaderAt(m, base, bs, o);
    assert if j < i then bs[o].End() <= bs[i].addr else bs[i].End() <= bs[o].addr;
    assert i + 1 < |bs| ==> if j < i then bs[o].End() <= bs[i + 1].addr else bs[i + 1].End() <= bs[o].addr;
    HeaderUntouched(m, q, base, ws, bs[o].addr);
    assert j > i + 2 ==> r[j - 1] == bs[j - 2];
    assert j + 1 < |r| && j > i + 2 ==> r[j + 1] == bs[j];
  }

  lemma SplitFront(m: seq<Byte>, q: seq<Byte>, base: nat, bs: seq<Block>, i: nat, n: nat, r: seq<Block>)
    requires i < |bs| && bs[i].payload > n + HEADER + SLACK && Separated(bs) && Encodes(m, base, bs)
    requires r == Split(bs, i, n) && Written(m, q, base, SplitWrites(bs, i, n))
    ensures i < |r| && HeaderAt(q, base, r, i)
  {
    hide Word, Written, Split;
    SplitAt(bs, i, n);
    var ws := SplitWrites(bs, i, n);
    assert ws[|ws| - 2] == Write(bs[i].addr, n) && ws[|ws| - 1] == Write(bs[i].addr + 16, r[i + 1].addr);
    WrittenAt(m, q, base, ws, |ws| - 2);
    WrittenAt(m, q, base, ws, |ws| - 1);
    assert HeaderAt(m, base, bs, i);
    assert i + 1 < |bs| ==> bs[i].End() <= bs[i + 1].addr;
    Untouched(m, q, base, ws, bs[i].addr + 8);
    Untouched(m, q, base, ws, bs[i].addr + 24);
  }

  lemma SplitRemainder(m: seq<Byte>, q: seq<Byte>, base: nat, bs: seq<Block>, i: nat, n: nat, r: seq<Block>)
    requires i < |bs| && bs[i].payload > n + HEADER + SLACK
    requires r == Split(bs, i, n) && Written(m, q, base, SplitWrites(bs, i, n))
    ensures i + 1 < |r| && HeaderAt(q, base, r, i + 1)
  {
    hide Split, Word, Written;
    SplitAt(bs, i, n);
    var ws, rem := SplitWrites(bs, i, n), bs[i].Start() + n;
    assert ws[0].a == rem && ws[1].a == rem + 8 && ws[2].a == rem + 16 && ws[3].a == rem + 24;
    WrittenAt(m, q, base, ws, 0);
    WrittenAt(m, q, base, ws, 1);
    WrittenAt(m, q, base, ws, 2);
    WrittenAt(m, q, base, ws, 3);
    assert i + 2 < |r| ==> r[i + 2] == bs[i + 1];
  }

  lemma SplitBack(m: seq<Byte>, q: seq<Byte>, base: nat, bs: seq<Block>, i: nat, n: nat, r: seq<Block>)
    requires i + 1 < |bs| && bs[i].payload > n + HEADER + SLACK && Separated(bs) && Encodes(m, base, bs)
    requires r == Split(bs, i, n) && Written(m, q, base, SplitWrites(bs, i, n))
    ensures i + 2 < |r| && HeaderAt(q, base, r, i + 2)
  {
    hide Word, Written, Split;
    SplitAt(bs, i, n);
    var ws, rem := SplitWrites(bs, i, n), bs[i].Start() + n;
    assert ws[4] == Write(bs[i + 1].addr + 24, rem);
    WrittenAt(m, q, base, ws, 4);
    assert HeaderAt(m, base, bs, i + 1) && r[i + 2] == bs[i + 1];
    assert i + 3 < |r| ==> r[i + 3] == bs[i + 2];
    assert bs[i].End() <= bs[i + 1].addr;
    Untouched(m, q, base, ws, bs[i + 1].addr);
    Untouched(m, q, base, ws, bs[i + 1].addr + 8);
    Untouched(m, q, base, ws, bs[i + 1].addr + 16);
  }

  lemma AbsorbTurns(m: seq<Byte>, base: nat, bs: seq<Block>, i: nat)
    requires Holds(m, base, bs) && i + 1 < |bs|
    ensures Turns(m, base, bs, AbsorbWrites(bs, i), Absorb(bs, i))
  {
    hide PutAll, Written, Encodes, Kept, Word, Inv, Absorb, Turns;
    var ws, r := AbsorbWrites(bs, i), Absorb(bs, i);
    AbsorbShape(bs, i, base + STATE, base + |m|);
    InvOrdered(bs, base + STATE, base + |m|);
    assert bs[i].End() <= bs[i + 1].addr && bs[i + 1].End() <= base + |m|;
    assert i + 2 < |bs| ==> bs[i].End() <= bs[i + 2].addr && bs[i + 2].End() <= base + |m|;
    assert FieldOf(r[i], ws[0].a) && FieldOf(r[i], ws[1].a);
    assert i + 2 < |bs| ==> r[i + 1] == bs[i + 2] && FieldOf(r[i + 1], ws[2].a);
    var q := PutAll(m, base, ws);
    if Written(m, q, base, ws) { AbsorbHeaders(m, q, base, bs, i, r); }
    TurnsFrom(m, base, bs, ws, r);
  }

  lemma AbsorbHeaders(m: seq<Byte>, q: seq<Byte>, base: nat, bs: seq<Block>, i: nat, r: seq<Block>)
    requires i + 1 < |bs| && Separated(bs) && Encodes(m, base, bs)
    requires r == Absorb(bs, i) && Written(m, q, base, AbsorbWrites(bs, i))
    ensures Encodes(q, base, r)
  {
    hide Word, Written, Absorb, AbsorbWrites;
    AbsorbAt(bs, i);
    forall j | 0 <= j < |r| ensures HeaderAt(q, base, r, j) {
      if j == i {
        AbsorbFront(m, q, base, bs, i, r);
      } else if j == i + 1 {
        AbsorbBack(m, q, base, bs, i, r);
      } else {
        AbsorbFar(m, q, base, bs, i, r, j);
      }
    }
  }

  lemma AbsorbFar(m: seq<Byte>, q: seq<Byte>, base: nat, bs: seq<Block>, i: nat, r: seq<Block>, j: nat)
    requires i + 1 < |bs| && Separated(bs) && Encodes(m, base, bs)
    requires r == Absorb(bs, i) && Written(m, q, base, AbsorbWrites(bs, i))
    requires j < |r| && (j < i || j > i + 1)
    ensures HeaderAt(q, base, r, j)
  {
    hide Word, Written, Absorb;
    AbsorbAt(bs, i);
    var ws := AbsorbWrites(bs, i);
    var o := if j < i then j else j + 1;
    assert r[j] == bs[o] && HeaderAt(m, base, bs, o);
    assert if j < i then bs[o].End() <= bs[i].addr else bs[i].End() <= bs[o].addr;
    assert i + 2 < |bs| ==> if j < i then bs[o].End() <= bs[i + 2].addr else bs[i + 2].End() <= bs[o].addr;
    HeaderUntouched(m, q, base, ws, bs[o].addr);
    assert j > i + 1 ==> r[j - 1] == bs[j];
    assert j + 1 < |r| && j > i + 1 ==> r[j + 1] == bs[j + 2];
  }

  lemma AbsorbFront(m: seq<Byte>, q: seq<Byte>, base: nat, bs: seq<Block>, i: nat, r: seq<Block>)
    requires i + 1 < |bs| && Separated(bs) && Encodes(m, base, bs)
    requires r == Absorb(bs, i) && Written(m, q, base, AbsorbWrites(bs, i))
    ensures i < |r| && HeaderAt(q, base, r, i)
  {
    hide Word, Written, Absorb;
    AbsorbAt(bs, i);
    var ws := AbsorbWrites(bs, i);
    WrittenAt(m, q, base, ws, 0);
    WrittenAt(m, q, base, ws, 1);
    assert HeaderAt(m, base, bs, i);
    assert i + 2 < |bs| ==> bs[i].End() <= bs[i + 2].addr && r[i + 1] == bs[i + 2];
    Untouched(m, q, base, ws, bs[i].addr + 8);
    Untouched(m, q, base, ws, bs[i].addr + 24);
  }

  lemma AbsorbBack(m: seq<Byte>, q: seq<Byte>, base: nat, bs: seq<Block>, i: nat, r: seq<Block>)
    requires i + 2 < |bs| && Separated(bs) && Encodes(m, base, bs)
    requires r == Absorb(bs, i) && Written(m, q, base, AbsorbWrites(bs, i))
    ensures i + 1 < |r| && HeaderAt(q, base, r, i + 1)
  {
    hide Word, Written, Absorb;
    AbsorbAt(bs, i);
    var ws := AbsorbWrites(bs, i);
    WrittenAt(m, q, base, ws, 2);
    assert HeaderAt(m, base, bs, i + 2) && r[i + 1] == bs[i + 2] && bs[i].End() <= bs[i + 2].addr;
    assert i + 3 < |bs| ==> r[i + 2] == bs[i + 3];
    Untouched(m, q, base, ws, bs[i + 2].addr);
    Untouched(m, q, base, ws, bs[i + 2].addr + 8);
    Untouched(m, q, base, ws, bs[i + 2].addr + 16);
  }

  // ---------------------------------------------------------------- payload writes

  /** Only bytes of the payload of block k differ. */
  ghost predicate OnlyPayload(m: seq<Byte>, q: seq<Byte>, base: nat, b: Block)
  {
    |m| == |q| && forall x :: !(b.Start() <= x < b.End()) ==> ByteAt(q, base, x) == ByteAt(m, base, x)
  }

  /** What a holder writes into its payload never disturbs the block list. */
  lemma PayloadWriteHolds(m: seq<Byte>, q: seq<Byte>, base: nat, bs: seq<Block>, k: nat)
    requires Holds(m, base, bs) && k < |bs| && OnlyPayload(m, q, base, bs[k])
    ensures Holds(q, base, bs)
    ensures Kept(m, q, base, AllBlocks(bs) - {bs[k]})
  {
    hide Word, ByteAt, Inv;
    InvOrdered(bs, base + STATE, base + |m|);
    SameBytesSameWord(m, q, base, base);
    SameBytesSameWord(m, q, base, base + 16);
    forall j | 0 <= j < |bs| ensures HeaderAt(q, base, bs, j) {
      assert HeaderAt(m, base, bs, j);
      assert j < k ==> bs[j].End() <= bs[k].addr;
      assert k < j ==> bs[k].End() <= bs[j].addr;
      SameBytesSameWord(m, q, base, bs[j].addr);
      SameBytesSameWord(m, q, base, bs[j].addr + 8);
      SameBytesSameWord(m, q, base, bs[j].addr + 16);
      SameBytesSameWord(m, q, base, bs[j].addr + 24);
    }
    PayloadWriteKept(m, q, base, bs, k);
  }

  lemma PayloadWriteKept(m: seq<Byte>, q: seq<Byte>, base: nat, bs: seq<Block>, k: nat)
    requires Separated(bs) && k < |bs| && OnlyPayload(m, q, base, bs[k])
    ensures Kept(m, q, base, AllBlocks(bs) - {bs[k]})
  {
    hide ByteAt;
    forall b, x | b in AllBlocks(bs) - {bs[k]} && b.Start() <= x < b.End()
      ensures ByteAt(q, base, x) == ByteAt(m, base, x)
    {
      var j :| 0 <= j < |bs| && bs[j] == b;
      assert if j < k then bs[j].End() <= bs[k].addr else bs[k].End() <= bs[j].addr;
    }
  }
}
