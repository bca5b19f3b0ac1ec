/** Glyph outlines: closed contours of lines and quadratic curves, their flattening into segments, and the
    even-odd test that fills them. */
module Outline {
  import opened Arith

  datatype Dot = Dot(x: int, y: int)

  /** A contour point; off-curve points are control points. */
  datatype Point = Point(at: Dot, on: bool)

  datatype Segment = Segment(a: Dot, b: Dot)

  const FLATNESS: nat := 4096
  const MAX_DEPTH: nat := 8

  function Half(a: int, b: int): int { CDiv(a + b, 2) }

  function Mid(a: Dot, b: Dot): Dot { Dot(Half(a.x, b.x), Half(a.y, b.y)) }

  function Abs(v: int): nat { if v < 0 then -v else v }

  predicate Flat(a: Dot, c: Dot, b: Dot)
  {
    Abs(a.x - 2 * c.x + b.x) <= FLATNESS && Abs(a.y - 2 * c.y + b.y) <= FLATNESS
  }

  /** The segments of one curve from a to b with control point c. */
  function Flatten(a: Dot, c: Dot, b: Dot, depth: nat): seq<Segment>
    requires depth <= MAX_DEPTH
    decreases MAX_DEPTH - depth
  {
    if Flat(a, c, b) || depth == MAX_DEPTH then [Segment(a, b)]
    else
      var ac, cb := Mid(a, c), Mid(c, b);
      var m := Mid(ac, cb);
      Flatten(a, ac, m, depth + 1) + Flatten(m, cb, b, depth + 1)
  }

  // ---------------------------------------------------------------- contours as cyclic point lists

  /** Point i and, between two control points, the on-curve point they imply. */
  function Step(ps: seq<Point>, i: nat): seq<Point>
    requires i < |ps|
  {
    var p, next := ps[i], ps[(i + 1) % |ps|];
    if !p.on && !next.on then [p, Point(Mid(p.at, next.at), true)] else [p]
  }

  function Steps(ps: seq<Point>, n: nat): seq<Point>
    requires n <= |ps|
    decreases n
  {
    if n == 0 then [] else Steps(ps, n - 1) + Step(ps, n - 1)
  }

  /** What goes in front when the contour starts with a control point. */
  function Lead(ps: seq<Point>): seq<Point>
    requires ps != []
  {
    var first, last := ps[0], ps[|ps| - 1];
    if first.on then [] else if last.on then [last] else [Point(Mid(last.at, first.at), true)]
  }

  /** The contour with its implied points. */
  function Work(ps: seq<Point>): seq<Point>
    requires ps != []
  {
    Lead(ps) + Steps(ps, |ps|)
  }

  /** What work point k emits: a line, or a curve over the control point behind it. */
  function Head(w: seq<Point>, k: nat): seq<Segment>
    requires k < |w|
  {
    var p0, p1 := w[k], w[(k + 1) % |w|];
    if p1.on then [Segment(p0.at, p1.at)] else Flatten(p0.at, p1.at, w[(k + 2) % |w|].at, 0)
  }

  /** Where the emission goes on. */
  function Jump(w: seq<Point>, k: nat): (n: nat)
    requires k < |w|
    ensures k < n
  {
    if w[(k + 1) % |w|].on then k + 1 else k + 2
  }

  /** The segments from work point k to the end of the contour. */
  function Emit(w: seq<Point>, k: nat): seq<Segment>
    decreases |w| - k
  {
    if k >= |w| then [] else Head(w, k) + Emit(w, Jump(w, k))
  }

  function Contour(ps: seq<Point>): seq<Segment>
  {
    if ps == [] then [] else Emit(Work(ps), 0)
  }

  /** Contour ends never step back, so that a contour may be empty but never negative. */
  predicate Ends(ends: seq<nat>, points: nat)
  {
    && ends != [] && ends[|ends| - 1] + 1 == points
    && forall i :: 0 < i < |ends| ==> ends[i - 1] <= ends[i]
  }

  function Start(ends: seq<nat>, k: nat): nat
    requires k <= |ends|
  {
    if k == 0 then 0 else ends[k - 1] + 1
  }

  lemma {:induction false} EndsInside(ends: seq<nat>, points: nat, k: nat)
    requires Ends(ends, points) && k < |ends|
    ensures Start(ends, k) <= ends[k] + 1 <= points
    decreases |ends| - k
  {
    if k < |ends| - 1 { EndsInside(ends, points, k + 1); }
  }

  function Piece(points: seq<Point>, ends: seq<nat>, k: nat): seq<Point>
    requires Ends(ends, |points|) && k < |ends|
  {
    EndsInside(ends, |points|, k);
    points[Start(ends, k)..ends[k] + 1]
  }

  /** All segments of the first k contours. */
  function Glyph(points: seq<Point>, ends: seq<nat>, k: nat): seq<Segment>
    requires Ends(ends, |points|) && k <= |ends|
    decreases k
  {
    if k == 0 then [] else Glyph(points, ends, k - 1) + Contour(Piece(points, ends, k - 1))
  }

  // ---------------------------------------------------------------- closed chains

  /** The segments lead from a to b without a gap. */
  predicate Chain(s: seq<Segment>, a: Dot, b: Dot)
  {
    if s == [] then a == b else s[0].a == a && Chain(s[1..], s[0].b, b)
  }

  lemma {:induction false} ChainJoin(s: seq<Segment>, t: seq<Segment>, a: Dot, m: Dot, b: Dot)
    requires Chain(s, a, m) && Chain(t, m, b)
    ensures Chain(s + t, a, b)
    decreases |s|
  {
    if s == [] {
      assert s + t == t;
    } else {
      assert (s + t)[1..] == s[1..] + t;
      ChainJoin(s[1..], t, s[0].b, m, b);
    }
  }

  lemma {:induction false} FlattenChain(a: Dot, c: Dot, b: Dot, depth: nat)
    requires depth <= MAX_DEPTH
    ensures Chain(Flatten(a, c, b, depth), a, b)
    decreases MAX_DEPTH - depth
  {
    hide Flat, Mid;
    if Flat(a, c, b) || depth == MAX_DEPTH {
      assert Flatten(a, c, b, depth) == [Segment(a, b)];
    } else {
      var ac, cb := Mid(a, c), Mid(c, b);
      var m := Mid(ac, cb);
      FlattenChain(a, ac, m, depth + 1);
      FlattenChain(m, cb, b, depth + 1);
      ChainJoin(Flatten(a, ac, m, depth + 1), Flatten(m, cb, b, depth + 1), a, m, b);
    }
  }

  /** Starts on the curve, and no two neighbours are both control points. */
  predicate Alternates(w: seq<Point>)
  {
    w != [] && w[0].on && forall i :: 0 < i < |w| ==> w[i - 1].on || w[i].on
  }

  /** From an on-curve work point the emission leads back to the first one. */
  lemma {:induction false} EmitChain(w: seq<Point>, k: nat)
    requires Alternates(w) && w != [] && k <= |w| && (k < |w| ==> w[k].on)
    ensures Chain(Emit(w, k), if k < |w| then w[k].at else w[0].at, w[0].at)
    decreases |w| - k
  {
    hide Head, Jump, Chain, Alternates;
    if k < |w| {
      HeadChain(w, k);
      var n := Jump(w, k);
      EmitChain(w, n);
      ChainJoin(Head(w, k), Emit(w, n), w[k].at, w[n % |w|].at, w[0].at);
      if n < |w| { ModOnce(n, |w|); }
    } else {
      NoChain(w[0].at);
    }
  }

  lemma NoChain(a: Dot)
    ensures Chain([], a, a)
  {
  }

  /** One step of the emission leads from an on-curve point to the next, cyclically. */
  lemma HeadChain(w: seq<Point>, k: nat)
    requires Alternates(w) && k < |w| && w[k].on
    ensures var n := Jump(w, k);
            && n <= |w| && n % |w| == (if n < |w| then n else 0) && w[n % |w|].on
            && Chain(Head(w, k), w[k].at, w[n % |w|].at)
  {
    hide Flatten;
    Next(w, k);
    if w[(k + 1) % |w|].on {
      assert Head(w, k)[1..] == [];
    } else {
      Next(w, k + 1);
      FlattenChain(w[k].at, w[k + 1].at, w[(k + 2) % |w|].at, 0);
    }
  }

  lemma Wrap(i: nat, n: nat)
    requires i < n
    ensures (i + 1) % n == if i + 1 < n then i + 1 else 0
  {
    ModOnce(i + 1, n);
  }

  /** The successor of a point, and that a control point has on-curve neighbours. */
  lemma Next(w: seq<Point>, k: nat)
    requires Alternates(w) && k < |w|
    ensures (k + 1) % |w| == if k + 1 < |w| then k + 1 else 0
    ensures !w[k].on ==> w[(k + 1) % |w|].on
    ensures !w[(k + 1) % |w|].on ==> k + 1 < |w|
  {
    Wrap(k, |w|);
  }

  lemma {:induction false} StepsAlternate(ps: seq<Point>, n: nat)
    requires 0 < n <= |ps|
    ensures var w := Steps(ps, n);
            && w != [] && w[0] == ps[0]
            && (forall i :: 0 < i < |w| ==> w[i - 1].on || w[i].on)
            && (w[|w| - 1].on || ps[n % |ps|].on)
            && n <= |w| <= 2 * n
    decreases n
  {
    Wrap(n - 1, |ps|);
    hide Mid;
    if n == 1 {
      assert Steps(ps, 0) == [];
      assert Steps(ps, 1) == Step(ps, 0);
    } else {
      StepsAlternate(ps, n - 1);
      Wrap(n - 2, |ps|);
    }
  }

  /** The work points start on the curve and alternate, so neither format error of the emission can occur; and
      they fit the buffer of 2n + 4. */
  lemma WorkAlternates(ps: seq<Point>)
    requires ps != []
    ensures Alternates(Work(ps)) && |Work(ps)| <= 2 * |ps| + 1
  {
    hide Mid, Steps;
    StepsAlternate(ps, |ps|);
    var l, s := Lead(ps), Steps(ps, |ps|);
    assert l == [] || (|l| == 1 && l[0].on);
    assert Work(ps)[0] == if l == [] then s[0] else l[0];
    forall i | 0 < i < |Work(ps)| ensures Work(ps)[i - 1].on || Work(ps)[i].on {
      if l != [] && i > 1 { assert s[i - 2].on || s[i - 1].on; }
    }
  }

  /** Every contour is one closed chain. */
  lemma ContourCloses(ps: seq<Point>)
    ensures ps != [] ==> Work(ps) != [] && Chain(Contour(ps), Work(ps)[0].at, Work(ps)[0].at)
  {
    hide Work, Emit, Chain;
    if ps != [] {
      WorkAlternates(ps);
      EmitChain(Work(ps), 0);
    }
  }

  // ---------------------------------------------------------------- the bounding box

  datatype Box = Box(minX: int, minY: int, maxX: int, maxY: int)

  predicate In(d: Dot, box: Box) { box.minX <= d.x <= box.maxX && box.minY <= d.y <= box.maxY }

  ghost predicate AllIn(s: seq<Segment>, box: Box)
  {
    forall i :: 0 <= i < |s| ==> In(s[i].a, box) && In(s[i].b, box)
  }

  lemma MidIn(a: Dot, b: Dot, box: Box)
    requires In(a, box) && In(b, box)
    ensures In(Mid(a, b), box)
  {
  }

  /** A flattened curve stays in any box that holds its three points. */
  lemma {:induction false} FlattenIn(a: Dot, c: Dot, b: Dot, depth: nat, box: Box)
    requires depth <= MAX_DEPTH && In(a, box) && In(b, box) && In(c, box)
    ensures AllIn(Flatten(a, c, b, depth), box)
    decreases MAX_DEPTH - depth
  {
    hide Flat, Mid, In;
    if !(Flat(a, c, b) || depth == MAX_DEPTH) {
      var ac, cb := Mid(a, c), Mid(c, b);
      MidIn(a, c, box);
      MidIn(c, b, box);
      MidIn(ac, cb, box);
      FlattenIn(a, ac, Mid(ac, cb), depth + 1, box);
      FlattenIn(Mid(ac, cb), cb, b, depth + 1, box);
    }
  }

  ghost predicate PointsIn(ps: seq<Point>, box: Box)
  {
    forall i :: 0 <= i < |ps| ==> In(ps[i].at, box)
  }

  lemma {:induction false} StepsIn(ps: seq<Point>, n: nat, box: Box)
    requires n <= |ps| && PointsIn(ps, box)
    ensures PointsIn(Steps(ps, n), box)
    decreases n
  {
    hide Mid, In;
    if n > 0 {
      StepsIn(ps, n - 1, box);
      MidIn(ps[n - 1].at, ps[n % |ps|].at, box);
    }
  }

  lemma WorkIn(ps: seq<Point>, box: Box)
    requires ps != [] && PointsIn(ps, box)
    ensures PointsIn(Work(ps), box)
  {
    hide Mid, In, Steps;
    StepsIn(ps, |ps|, box);
    MidIn(ps[|ps| - 1].at, ps[0].at, box);
  }

  lemma {:induction false} EmitIn(w: seq<Point>, k: nat, box: Box)
    requires PointsIn(w, box)
    ensures AllIn(Emit(w, k), box)
    decreases |w| - k
  {
    hide Head, In, Jump;
    if k < |w| {
      HeadIn(w, k, box);
      EmitIn(w, Jump(w, k), box);
    }
  }

  lemma HeadIn(w: seq<Point>, k: nat, box: Box)
    requires PointsIn(w, box) && k < |w|
    ensures AllIn(Head(w, k), box)
  {
    hide Flatten, In;
    var p0, p1, p2 := w[k], w[(k + 1) % |w|], w[(k + 2) % |w|];
    if !p1.on { FlattenIn(p0.at, p1.at, p2.at, 0, box); }
  }

  lemma SliceIn(ps: seq<Point>, i: nat, j: nat, box: Box)
    requires PointsIn(ps, box) && i <= j <= |ps|
    ensures PointsIn(ps[i..j], box)
  {
    hide In;
  }

  /** Every segment of a glyph lies in any box around its points. */
  lemma {:induction false} GlyphIn(points: seq<Point>, ends: seq<nat>, k: nat, box: Box)
    requires Ends(ends, |points|) && k <= |ends| && PointsIn(points, box)
    ensures AllIn(Glyph(points, ends, k), box)
    decreases k
  {
    hide Contour, AllIn, PointsIn, Ends;
    if k > 0 {
      GlyphIn(points, ends, k - 1, box);
      EndsInside(ends, |points|, k - 1);
      SliceIn(points, Start(ends, k - 1), ends[k - 1] + 1, box);
      ContourIn(Piece(points, ends, k - 1), box);
      JoinIn(Glyph(points, ends, k - 1), Contour(Piece(points, ends, k - 1)), box);
    } else {
      NoneIn(box);
    }
  }

  lemma ContourIn(ps: seq<Point>, box: Box)
    requires PointsIn(ps, box)
    ensures AllIn(Contour(ps), box)
  {
    hide Work, Emit, In, PointsIn;
    if ps != [] {
      WorkIn(ps, box);
      EmitIn(Work(ps), 0, box);
    }
  }

  lemma JoinIn(s: seq<Segment>, t: seq<Segment>, box: Box)
    requires AllIn(s, box) && AllIn(t, box)
    ensures AllIn(s + t, box)
  {
    hide In;
  }

  lemma NoneIn(box: Box)
    ensures AllIn([], box)
  {
  }

  // ---------------------------------------------------------------- even-odd filling

  predicate Straddles(s: Segment, y: int) { (s.a.y > y) != (s.b.y > y) }

  /** Where a segment meets the horizontal line. */
  function Meets(s: Segment, y: int): int
    requires Straddles(s, y)
  {
    s.a.x + CDiv((y - s.a.y) * (s.b.x - s.a.x), s.b.y - s.a.y)
  }

  function Straddling(s: seq<Segment>, y: int): nat
  {
    if s == [] then 0 else (if Straddles(s[0], y) then 1 else 0) + Straddling(s[1..], y)
  }

  /** Segments that meet the line through the sample to its right. */
  function Crossings(s: seq<Segment>, p: Dot): nat
  {
    if s == [] then 0 else (if Straddles(s[0], p.y) && Meets(s[0], p.y) > p.x then 1 else 0) + Crossings(s[1..], p)
  }

  predicate Inside(s: seq<Segment>, p: Dot) { Crossings(s, p) % 2 == 1 }

  /** A chain straddles a line an odd number of times exactly when its ends lie on different sides. */
  lemma {:induction false} ChainParity(s: seq<Segment>, a: Dot, b: Dot, y: int)
    requires Chain(s, a, b)
    ensures Straddling(s, y) % 2 == if (a.y > y) != (b.y > y) then 1 else 0
    decreases |s|
  {
    if s != [] { ChainParity(s[1..], s[0].b, b, y); }
  }

  lemma {:induction false} StraddlingJoin(s: seq<Segment>, t: seq<Segment>, y: int)
    ensures Straddling(s + t, y) == Straddling(s, y) + Straddling(t, y)
    decreases |s|
  {
    if s == [] {
      assert s + t == t;
    } else {
      assert (s + t)[1..] == s[1..] + t;
      StraddlingJoin(s[1..], t, y);
    }
  }

  /** Every horizontal line is straddled an even number of times by the contours of a glyph. */
  lemma {:induction false} GlyphEven(points: seq<Point>, ends: seq<nat>, k: nat, y: int)
    requires Ends(ends, |points|) && k <= |ends|
    ensures Straddling(Glyph(points, ends, k), y) % 2 == 0
    decreases k
  {
    hide Contour, Work, Ends;
    if k > 0 {
      GlyphEven(points, ends, k - 1, y);
      ContourEven(Piece(points, ends, k - 1), y);
      StraddlingJoin(Glyph(points, ends, k - 1), Contour(Piece(points, ends, k - 1)), y);
    }
  }

  lemma ContourEven(ps: seq<Point>, y: int)
    ensures Straddling(Contour(ps), y) % 2 == 0
  {
    hide Work, Emit, Chain;
    if ps != [] {
      WorkAlternates(ps);
      ContourCloses(ps);
      ChainParity(Contour(ps), Work(ps)[0].at, Work(ps)[0].at, y);
    }
  }

  /** A truncated quotient t*d/h with 0 <= t <= h lies between 0 and d. */
  lemma Fraction(t: nat, d: int, h: nat)
    requires 0 < h && t <= h
    ensures if d >= 0 then 0 <= CDiv(t * d, h) <= d else d <= CDiv(t * d, h) <= 0
  {
    if d >= 0 {
      MulMono(t, h, d);
      Quotient(t * d, d, h);
    } else {
      MulMono(t, h, -d);
      assert t * -d == -(t * d);
      Quotient(t * -d, -d, h);
      if t * d == 0 { assert CDiv(t * d, h) == 0; }
    }
  }

  lemma Quotient(v: nat, d: nat, h: nat)
    requires 0 < h && v <= h * d
    ensures 0 <= v / h <= d
  {
    assert v == v / h * h + v % h;
    if v / h > d { Exceeds(v / h, d, h); }
  }

  lemma Exceeds(q: int, d: int, h: nat)
    requires q > d
    ensures q * h >= h * d + h
  {
    MulMono(d + 1, q, h);
    assert (d + 1) * h == h * d + h;
  }

  /** A meeting point lies between the end points. */
  lemma MeetsBetween(s: Segment, y: int, box: Box)
    requires Straddles(s, y) && In(s.a, box) && In(s.b, box)
    ensures box.minX <= Meets(s, y) <= box.maxX
  {
    var d := s.b.x - s.a.x;
    if s.b.y > s.a.y {
      Fraction(y - s.a.y, d, s.b.y - s.a.y);
    } else {
      Fraction(s.a.y - y, d, s.a.y - s.b.y);
      Opposite(y - s.a.y, d, s.b.y - s.a.y);
    }
  }

  /** The meeting point is the exact intersection of the segment with the line, cut off toward the first end point. */
  lemma MeetsExact(s: Segment, y: int)
    requires Straddles(s, y)
    ensures var rise, run, off := s.b.y - s.a.y, s.b.x - s.a.x, Meets(s, y) - s.a.x;
            && Abs(off * rise - (y - s.a.y) * run) < Abs(rise)
            && Abs(off * rise) <= Abs((y - s.a.y) * run)
  {
    CDivExact((y - s.a.y) * (s.b.x - s.a.x), s.b.y - s.a.y);
  }

  /** Truncating division does not see the sign of both operands changed. */
  lemma Opposite(t: int, d: int, h: int)
    requires h != 0
    ensures CDiv(t * d, h) == CDiv(-t * d, -h)
  {
    assert -t * d == -(t * d);
    Negated(t * d, h);
  }

  lemma Negated(v: int, h: int)
    requires h != 0
    ensures CDiv(v, h) == CDiv(-v, -h)
  {
    var n, m: nat := Abs(v), Abs(h);
    DivNeg(n, m);
  }

  lemma DivNeg(n: int, m: int)
    requires n >= 0 && m > 0
    ensures n / -m == -(n / m)
  {
  }

  lemma {:induction false} LeftCounts(s: seq<Segment>, p: Dot, box: Box)
    requires AllIn(s, box) && p.x < box.minX
    ensures Crossings(s, p) == Straddling(s, p.y)
    decreases |s|
  {
    hide Meets, Straddles, In;
    if s != [] {
      assert In(s[0].a, box) && In(s[0].b, box);
      if Straddles(s[0], p.y) { MeetsBetween(s[0], p.y, box); }
      TailIn(s, box);
      LeftCounts(s[1..], p, box);
    }
  }

  lemma TailIn(s: seq<Segment>, box: Box)
    requires AllIn(s, box) && s != []
    ensures AllIn(s[1..], box)
  {
    hide In;
  }

  lemma StraddleIn(s: Segment, y: int, box: Box)
    requires Straddles(s, y) && In(s.a, box) && In(s.b, box)
    ensures box.minY <= y < box.maxY
  {
  }

  lemma {:induction false} BeyondNone(s: seq<Segment>, p: Dot, box: Box)
    requires AllIn(s, box) && (p.x >= box.maxX || p.y < box.minY || p.y >= box.maxY)
    ensures Crossings(s, p) == 0
    decreases |s|
  {
    hide Meets, Straddles, In;
    if s != [] {
      assert In(s[0].a, box) && In(s[0].b, box);
      if Straddles(s[0], p.y) {
        MeetsBetween(s[0], p.y, box);
        StraddleIn(s[0], p.y, box);
      }
      TailIn(s, box);
      BeyondNone(s[1..], p, box);
    }
  }

  /** No sample outside the box around the points is filled. */
  lemma OutsideBox(points: seq<Point>, ends: seq<nat>, p: Dot, box: Box)
    requires Ends(ends, |points|) && PointsIn(points, box)
    requires p.x < box.minX || p.x >= box.maxX || p.y < box.minY || p.y >= box.maxY
    ensures !Inside(Glyph(points, ends, |ends|), p)
  {
    hide Ends, Glyph, AllIn, PointsIn, Crossings;
    var s := Glyph(points, ends, |ends|);
    GlyphIn(points, ends, |ends|, box);
    if p.x < box.minX {
      LeftCounts(s, p, box);
      GlyphEven(points, ends, |ends|, p.y);
    } else {
      BeyondNone(s, p, box);
    }
  }

  /** Segments that meet the line at the sample or to its left. */
  function CrossingsLeft(s: seq<Segment>, p: Dot): nat
  {
    if s == [] then 0 else (if Straddles(s[0], p.y) && Meets(s[0], p.y) <= p.x then 1 else 0) + CrossingsLeft(s[1..], p)
  }

  lemma {:induction false} BothSides(s: seq<Segment>, p: Dot)
    ensures Crossings(s, p) + CrossingsLeft(s, p) == Straddling(s, p.y)
    decreases |s|
  {
    hide Meets, Straddles;
    if s != [] { BothSides(s[1..], p); }
  }

  /** Every segment counts for itself: once if it meets the sample's line, its lower end included and its upper end not,
      to the right of the sample. */
  lemma {:induction false} CrossingsAdd(s: seq<Segment>, g: Segment, t: seq<Segment>, p: Dot)
    ensures var low, high := if g.a.y < g.b.y then g.a.y else g.b.y, if g.a.y < g.b.y then g.b.y else g.a.y;
            Crossings(s + [g] + t, p) == Crossings(s, p) + (if low <= p.y < high && Meets(g, p.y) > p.x then 1 else 0) + Crossings(t, p)
    decreases |s|
  {
    hide Meets;
    var all := s + [g] + t;
    if s == [] {
      assert all[1..] == t;
    } else {
      assert all[1..] == s[1..] + [g] + t;
      CrossingsAdd(s[1..], g, t, p);
    }
  }

  /** Looking left instead of right gives the same answer everywhere. */
  lemma EitherSide(points: seq<Point>, ends: seq<nat>, p: Dot)
    requires Ends(ends, |points|)
    ensures Inside(Glyph(points, ends, |ends|), p) <==> CrossingsLeft(Glyph(points, ends, |ends|), p) % 2 == 1
  {
    hide Ends, Glyph, Crossings, CrossingsLeft, Straddling;
    GlyphEven(points, ends, |ends|, p.y);
    BothSides(Glyph(points, ends, |ends|), p);
  }

  // ---------------------------------------------------------------- the size of a curve

  lemma {:induction false} FlattenBound(a: Dot, c: Dot, b: Dot, depth: nat)
    requires depth <= MAX_DEPTH
    ensures 1 <= |Flatten(a, c, b, depth)| <= Pow2(MAX_DEPTH - depth)
    decreases MAX_DEPTH - depth
  {
    hide Flat, Mid;
    if !(Flat(a, c, b) || depth == MAX_DEPTH) {
      var ac, cb := Mid(a, c), Mid(c, b);
      FlattenBound(a, ac, Mid(ac, cb), depth + 1);
      FlattenBound(Mid(ac, cb), cb, b, depth + 1);
    } else {
      PowPositive(MAX_DEPTH - depth);
    }
  }

  lemma {:induction false} PowPositive(n: nat)
    ensures 1 <= Pow2(n)
  {
    if n > 0 { PowPositive(n - 1); }
  }
}
