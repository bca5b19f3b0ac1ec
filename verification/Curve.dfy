/** What flattening draws: every emitted vertex lies on the quadratic curve, up to rounding, in parameter order. */
module Curve {
  import opened Arith
  import opened Outline

  // ---------------------------------------------------------------- the exact curve, one coordinate at a time

  /** 65536 times the polar form of the curve at parameters s/256 and t/256; with s == t, the point of the curve. */
  function Polar(a: int, c: int, b: int, s: int, t: int): int
  {
    (256 - s) * (256 - t) * a + ((256 - s) * t + s * (256 - t)) * c + s * t * b
  }

  lemma PolarSwap(a: int, c: int, b: int, s: int, t: int)
    ensures Polar(a, c, b, s, t) == Polar(a, c, b, t, s)
  {
    assert (256 - s) * (256 - t) == (256 - t) * (256 - s);
    assert (256 - s) * t + s * (256 - t) == (256 - t) * s + t * (256 - s);
  }

  /** For fixed s the polar form is affine in t. */
  lemma PolarAffine(a: int, c: int, b: int, s: int, t: int)
    ensures var u, v := (256 - s) * a + s * c, (256 - s) * c + s * b; Polar(a, c, b, s, t) == 256 * u + t * (v - u)
  {
    var p, q := 256 - s, 256 - t;
    Triple(p, q, a);
    Triple(p, t, c);
    Triple(s, q, c);
    Triple(s, t, b);
    var u, v := p * a + s * c, p * c + s * b;
    Sum2(p * t, s * q, c);
    assert Polar(a, c, b, s, t) == q * (p * a) + t * (p * c) + q * (s * c) + t * (s * b);
    Dist(q, p * a, s * c);
    Dist(t, p * c, s * b);
    assert Polar(a, c, b, s, t) == q * u + t * v;
    Less(t, u, v);
  }

  lemma Triple(x: int, y: int, z: int)
    ensures x * y * z == y * (x * z)
  {
  }

  lemma Sum2(x: int, y: int, z: int)
    ensures (x + y) * z == x * z + y * z
  {
  }

  lemma Dist(x: int, y: int, z: int)
    ensures x * (y + z) == x * y + x * z
  {
  }

  lemma Less(t: int, u: int, v: int)
    ensures (256 - t) * u + t * v == 256 * u + t * (v - u)
  {
  }

  /** The polar form at a midpoint is the average: the step of de Casteljau's subdivision. */
  lemma PolarMid(a: int, c: int, b: int, s: int, t: int, u: int, m: int)
    requires t + u == 2 * m
    ensures Polar(a, c, b, s, t) + Polar(a, c, b, s, u) == 2 * Polar(a, c, b, s, m)
  {
    hide Polar;
    PolarAffine(a, c, b, s, t);
    PolarAffine(a, c, b, s, u);
    PolarAffine(a, c, b, s, m);
    var d := ((256 - s) * c + s * b) - ((256 - s) * a + s * c);
    Sum2(t, u, d);
    assert 2 * m * d == 2 * (m * d);
  }

  /** The second difference of the piece between two parameters. */
  lemma PolarBend(a: int, c: int, b: int, s: int, t: int)
    ensures Polar(a, c, b, s, s) - 2 * Polar(a, c, b, s, t) + Polar(a, c, b, t, t) == (t - s) * (t - s) * (a - 2 * c + b)
  {
    hide Polar;
    PolarStep(a, c, b, s, t);
    PolarStep(a, c, b, t, s);
    PolarSwap(a, c, b, s, t);
    BendAlgebra(s, t, c - a, a - 2 * c + b);
  }

  /** Moving one parameter from s to t changes the polar form in proportion. */
  lemma PolarStep(a: int, c: int, b: int, s: int, t: int)
    ensures Polar(a, c, b, s, s) - Polar(a, c, b, s, t) == (s - t) * (256 * (c - a) + s * (a - 2 * c + b))
  {
    hide Polar;
    PolarAffine(a, c, b, s, s);
    PolarAffine(a, c, b, s, t);
    Slope(a, c, b, s);
    var d := 256 * (c - a) + s * (a - 2 * c + b);
    Sum2(s, -t, d);
  }

  lemma Slope(a: int, c: int, b: int, s: int)
    ensures ((256 - s) * c + s * b) - ((256 - s) * a + s * c) == 256 * (c - a) + s * (a - 2 * c + b)
  {
  }

  lemma BendAlgebra(s: int, t: int, e: int, d: int)
    ensures (s - t) * (256 * e + s * d) + (t - s) * (256 * e + t * d) == (t - s) * (t - s) * d
  {
    var x, y := 256 * e + s * d, 256 * e + t * d;
    Sum2(t, -s, d);
    assert y - x == (t - s) * d;
    Dist(t - s, y, -x);
    assert (s - t) * x == (t - s) * -x;
    assert (t - s) * (y - x) == (t - s) * ((t - s) * d);
    assert (t - s) * ((t - s) * d) == (t - s) * (t - s) * d;
  }

  // ---------------------------------------------------------------- rounding

  /** v differs from p / 65536 by at most e halves. */
  predicate Near(v: int, p: int, e: nat) { -32768 * e <= 65536 * v - p <= 32768 * e }

  lemma HalfNear(x: int, y: int, p: int, q: int, m: int, e: nat)
    requires Near(x, p, e) && Near(y, q, e) && p + q == 2 * m
    ensures Near(Half(x, y), m, e + 1)
  {
    var h := Half(x, y);
    assert -1 <= 2 * h - (x + y) <= 1;
  }

  /** Both coordinates of d are near those of the polar form. */
  predicate NearAt(d: Dot, a: Dot, c: Dot, b: Dot, s: int, t: int, e: nat)
  {
    Near(d.x, Polar(a.x, c.x, b.x, s, t), e) && Near(d.y, Polar(a.y, c.y, b.y, s, t), e)
  }

  lemma NearSwap(d: Dot, a: Dot, c: Dot, b: Dot, s: int, t: int, e: nat)
    requires NearAt(d, a, c, b, s, t, e)
    ensures NearAt(d, a, c, b, t, s, e)
  {
    hide Polar;
    PolarSwap(a.x, c.x, b.x, s, t);
    PolarSwap(a.y, c.y, b.y, s, t);
  }

  lemma NearMore(d: Dot, a: Dot, c: Dot, b: Dot, s: int, t: int, e: nat, f: nat)
    requires NearAt(d, a, c, b, s, t, e) && e <= f
    ensures NearAt(d, a, c, b, s, t, f)
  {
    hide Polar;
  }

  lemma MidNear(d: Dot, f: Dot, a: Dot, c: Dot, b: Dot, s: int, t: int, u: int, m: int, e: nat)
    requires NearAt(d, a, c, b, s, t, e) && NearAt(f, a, c, b, s, u, e) && t + u == 2 * m
    ensures NearAt(Mid(d, f), a, c, b, s, m, e + 1)
  {
    hide Polar, Near, Half;
    PolarMid(a.x, c.x, b.x, s, t, u, m);
    PolarMid(a.y, c.y, b.y, s, t, u, m);
    HalfNear(d.x, f.x, Polar(a.x, c.x, b.x, s, t), Polar(a.x, c.x, b.x, s, u), Polar(a.x, c.x, b.x, s, m), e);
    HalfNear(d.y, f.y, Polar(a.y, c.y, b.y, s, t), Polar(a.y, c.y, b.y, s, u), Polar(a.y, c.y, b.y, s, m), e);
  }

  // ---------------------------------------------------------------- how finely a curve is cut

  /** A piece of width w/256 whose exact second difference is at most 4096, give or take the rounding. */
  predicate Straight(a: Dot, c: Dot, b: Dot, w: int)
  {
    Abs(w * w * (a.x - 2 * c.x + b.x)) <= 65536 * 4128 && Abs(w * w * (a.y - 2 * c.y + b.y)) <= 65536 * 4128
  }

  /** One whose second difference exceeds 4096 in some coordinate, give or take the rounding. */
  predicate Bent(a: Dot, c: Dot, b: Dot, w: int)
  {
    Abs(w * w * (a.x - 2 * c.x + b.x)) > 65536 * 4064 || Abs(w * w * (a.y - 2 * c.y + b.y)) > 65536 * 4064
  }

  /** The control points of the piece from s to t, as computed. */
  predicate PieceNear(p: Dot, q: Dot, r: Dot, a: Dot, c: Dot, b: Dot, s: int, t: int, e: nat)
  {
    NearAt(p, a, c, b, s, s, e) && NearAt(q, a, c, b, s, t, e) && NearAt(r, a, c, b, t, t, e)
  }

  lemma BendNear(p: int, q: int, r: int, a: int, c: int, b: int, s: int, t: int, e: nat)
    requires Near(p, Polar(a, c, b, s, s), e) && Near(q, Polar(a, c, b, s, t), e) && Near(r, Polar(a, c, b, t, t), e)
    ensures var d := (t - s) * (t - s) * (a - 2 * c + b); -131072 * e <= 65536 * (p - 2 * q + r) - d <= 131072 * e
  {
    hide Polar;
    PolarBend(a, c, b, s, t);
  }

  /** The flatness test on the computed points decides the bend of the exact piece. */
  lemma FlatDecides(p: Dot, q: Dot, r: Dot, a: Dot, c: Dot, b: Dot, s: int, t: int, e: nat)
    requires PieceNear(p, q, r, a, c, b, s, t, e) && e <= 16
    ensures Flat(p, q, r) ==> Straight(a, c, b, t - s)
    ensures !Flat(p, q, r) ==> Bent(a, c, b, t - s)
  {
    hide Polar;
    BendNear(p.x, q.x, r.x, a.x, c.x, b.x, s, t, e);
    BendNear(p.y, q.y, r.y, a.y, c.y, b.y, s, t, e);
  }

  // ---------------------------------------------------------------- the emitted segments

  /** Segment g runs along the curve from parameter s/256 to t/256: its end points lie on the curve up to 8 units, it is
      one parameter step or nearly straight, and a piece twice as wide would not have been. */
  predicate Follows(g: Segment, a: Dot, c: Dot, b: Dot, s: int, t: int)
  {
    && 0 <= s < t <= 256 && NearAt(g.a, a, c, b, s, s, 16) && NearAt(g.b, a, c, b, t, t, 16)
    && (t - s == 1 || Straight(a, c, b, t - s)) && (t - s == 256 || Bent(a, c, b, 2 * (t - s)))
  }

  /** The segments trace the curve from parameter ts[0] to the last of ts, each from one parameter to the next. */
  ghost predicate Traces(g: seq<Segment>, ts: seq<int>, a: Dot, c: Dot, b: Dot)
  {
    |ts| == |g| + 1 && forall k, m :: 0 <= k < |g| && m == k + 1 ==> Follows(g[k], a, c, b, ts[k], ts[m])
  }

  lemma TracesJoin(g: seq<Segment>, ts: seq<int>, h: seq<Segment>, us: seq<int>, a: Dot, c: Dot, b: Dot)
    requires Traces(g, ts, a, c, b) && Traces(h, us, a, c, b) && ts[|g|] == us[0]
    ensures Traces(g + h, ts + us[1..], a, c, b)
  {
    hide Follows;
    var gs, vs := g + h, ts + us[1..];
    forall k, m | 0 <= k < |gs| && m == k + 1 ensures Follows(gs[k], a, c, b, vs[k], vs[m]) {
      if k < |g| { assert Follows(g[k], a, c, b, ts[k], ts[m]); }
      else { assert Follows(h[k - |g|], a, c, b, us[k - |g|], us[m - |g|]); }
    }
  }

  /** The parameter width of a piece at a depth, in 256ths. */
  function Width(depth: nat): int
    requires depth <= MAX_DEPTH
  {
    if depth == 0 then 256 else Width(depth - 1) / 2
  }

  lemma Widths()
    ensures Width(0) == 256 && Width(1) == 128 && Width(2) == 64 && Width(3) == 32 && Width(4) == 16 && Width(5) == 8
    ensures Width(6) == 4 && Width(7) == 2 && Width(8) == 1
  {
    assert Width(4) == 16;
  }

  lemma WidthHalves(depth: nat)
    requires depth < MAX_DEPTH
    ensures Width(depth) == 2 * Width(depth + 1) && 0 < Width(depth + 1) && (Width(depth) == 256 <==> depth == 0)
  {
    hide Width;
    Widths();
  }

  lemma LastWidth()
    ensures Width(MAX_DEPTH) == 1
  {
    hide Width;
    Widths();
  }

  /** The computed halves of a piece are near the exact ones. */
  lemma HalvesNear(p: Dot, q: Dot, r: Dot, a: Dot, c: Dot, b: Dot, s: int, t: int, m: int, e: nat)
    requires PieceNear(p, q, r, a, c, b, s, t, e) && s + t == 2 * m
    ensures var pq, qr := Mid(p, q), Mid(q, r);
            PieceNear(p, pq, Mid(pq, qr), a, c, b, s, m, e + 2) && PieceNear(Mid(pq, qr), qr, r, a, c, b, m, t, e + 2)
  {
    hide NearAt, Mid;
    var pq, qr := Mid(p, q), Mid(q, r);
    MidNear(p, q, a, c, b, s, s, t, m, e);
    NearSwap(q, a, c, b, s, t, e);
    MidNear(q, r, a, c, b, t, s, t, m, e);
    NearSwap(pq, a, c, b, s, m, e + 1);
    NearSwap(qr, a, c, b, t, m, e + 1);
    MidNear(pq, qr, a, c, b, m, s, t, m, e + 1);
    NearMore(p, a, c, b, s, s, e, e + 2);
    NearMore(r, a, c, b, t, t, e, e + 2);
    NearMore(pq, a, c, b, s, m, e + 1, e + 2);
    NearMore(qr, a, c, b, m, t, e + 1, e + 2);
  }

  lemma {:induction false} PieceTraced(a: Dot, c: Dot, b: Dot, p: Dot, q: Dot, r: Dot, depth: nat, s: int) returns (ts: seq<int>)
    requires depth <= MAX_DEPTH && 0 <= s && s + Width(depth) <= 256 && PieceNear(p, q, r, a, c, b, s, s + Width(depth), 2 * depth)
    requires depth > 0 ==> Bent(a, c, b, 2 * Width(depth))
    ensures Traces(Flatten(p, q, r, depth), ts, a, c, b) && ts[0] == s && ts[|ts| - 1] == s + Width(depth)
    decreases MAX_DEPTH - depth
  {
    hide Flat, Mid, PieceNear, Bent, Straight, Width, Traces;
    var t := s + Width(depth);
    FlatDecides(p, q, r, a, c, b, s, t, 2 * depth);
    if Flat(p, q, r) || depth == MAX_DEPTH {
      ts := [s, t];
      LastWidth();
      Leaf(a, c, b, p, q, r, depth, s);
    } else {
      WidthHalves(depth);
      var m := s + Width(depth + 1);
      HalvesNear(p, q, r, a, c, b, s, t, m, 2 * depth);
      var pq, qr := Mid(p, q), Mid(q, r);
      var ls := PieceTraced(a, c, b, p, pq, Mid(pq, qr), depth + 1, s);
      var rs := PieceTraced(a, c, b, Mid(pq, qr), qr, r, depth + 1, m);
      var g, h := Flatten(p, pq, Mid(pq, qr), depth + 1), Flatten(Mid(pq, qr), qr, r, depth + 1);
      TraceLength(g, ls, a, c, b);
      TraceLength(h, rs, a, c, b);
      TracesJoin(g, ls, h, rs, a, c, b);
      ts := ls + rs[1..];
    }
  }

  lemma TraceLength(g: seq<Segment>, ts: seq<int>, a: Dot, c: Dot, b: Dot)
    requires Traces(g, ts, a, c, b)
    ensures |ts| == |g| + 1
  {
    hide Follows;
  }

  lemma Leaf(a: Dot, c: Dot, b: Dot, p: Dot, q: Dot, r: Dot, depth: nat, s: int)
    requires depth <= MAX_DEPTH && 0 <= s && s + Width(depth) <= 256 && PieceNear(p, q, r, a, c, b, s, s + Width(depth), 2 * depth)
    requires depth > 0 ==> Bent(a, c, b, 2 * Width(depth))
    requires Straight(a, c, b, Width(depth)) || Width(depth) == 1
    ensures Traces([Segment(p, r)], [s, s + Width(depth)], a, c, b)
  {
    hide Bent, Straight, NearAt;
    Widths();
    var t := s + Width(depth);
    NearMore(p, a, c, b, s, s, 2 * depth, 16);
    NearMore(r, a, c, b, t, t, 2 * depth, 16);
    assert Follows(Segment(p, r), a, c, b, s, t);
  }

  /** Flattening a curve: the segments trace it from its start to its end, in increasing parameter order. */
  lemma FlattenTraces(a: Dot, c: Dot, b: Dot) returns (ts: seq<int>)
    ensures Traces(Flatten(a, c, b, 0), ts, a, c, b) && ts[0] == 0 && ts[|ts| - 1] == 256
  {
    hide Flatten;
    Widths();
    ts := PieceTraced(a, c, b, a, c, b, 0, 0);
  }

  // ---------------------------------------------------------------- whole contours

  /** m is halfway between a and b, rounded toward zero. */
  predicate RoundedMid(m: Dot, a: Dot, b: Dot)
  {
    && -1 <= 2 * m.x - (a.x + b.x) <= 1 && -1 <= 2 * m.y - (a.y + b.y) <= 1
    && Abs(2 * m.x) <= Abs(a.x + b.x) && Abs(2 * m.y) <= Abs(a.y + b.y)
  }

  lemma MidRounded(a: Dot, b: Dot)
    ensures RoundedMid(Mid(a, b), a, b)
  {
  }

  /** The contour starts on the curve: with its first point, or with its last, or halfway between two control points. */
  lemma LeadIs(ps: seq<Point>)
    requires ps != []
    ensures var first, last := ps[0], ps[|ps| - 1];
            && |Lead(ps)| == (if first.on then 0 else 1) && |Work(ps)| == |Lead(ps)| + |Steps(ps, |ps|)|
            && (!first.on ==> Lead(ps)[0].on && if last.on then Lead(ps)[0].at == last.at else RoundedMid(Lead(ps)[0].at, last.at, first.at))
            && (!first.on ==> Work(ps) != [] && Work(ps)[0] == Lead(ps)[0])
  {
    hide RoundedMid, Mid, Steps;
    MidRounded(ps[|ps| - 1].at, ps[0].at);
  }

  /** Every raw point appears, in order; between two control points, and nowhere else, stands the on-curve point
      halfway between them. */
  lemma WorkHas(ps: seq<Point>, i: nat)
    requires i < |ps|
    ensures var at, next := |Lead(ps)| + |Steps(ps, i)|, ps[(i + 1) % |ps|];
            && at < |Work(ps)| && Work(ps)[at] == ps[i]
            && |Steps(ps, i + 1)| == |Steps(ps, i)| + (if ps[i].on || next.on then 1 else 2)
            && (!ps[i].on && !next.on ==> at + 1 < |Work(ps)| && Work(ps)[at + 1].on && RoundedMid(Work(ps)[at + 1].at, ps[i].at, next.at))
  {
    hide RoundedMid, Mid;
    MidRounded(ps[i].at, ps[(i + 1) % |ps|].at);
    StepsKept(ps, i + 1, |ps|);
    var at := |Steps(ps, i)|;
    assert Steps(ps, i + 1)[at] == ps[i];
  }

  lemma {:induction false} StepsKept(ps: seq<Point>, i: nat, n: nat)
    requires i <= n <= |ps|
    ensures |Steps(ps, i)| <= |Steps(ps, n)| && Steps(ps, n)[..|Steps(ps, i)|] == Steps(ps, i)
    decreases n
  {
    hide Step;
    if i < n { StepsKept(ps, i, n - 1); }
  }

  /** Segment g is the line from work point k to the next, or part of the curve over the control point between them. */
  ghost predicate Draws(w: seq<Point>, k: nat, g: Segment)
    requires k < |w|
  {
    var p, q, r := w[k], w[(k + 1) % |w|], w[(k + 2) % |w|];
    p.on && if q.on then g == Segment(p.at, q.at) else r.on && exists s, t :: Follows(g, p.at, q.at, r.at, s, t)
  }

  lemma HeadDraws(w: seq<Point>, k: nat, g: Segment)
    requires Alternates(w) && k < |w| && w[k].on && g in Head(w, k)
    ensures Draws(w, k, g)
  {
    hide Flatten, Follows;
    Next(w, k);
    var p, q, r := w[k], w[(k + 1) % |w|], w[(k + 2) % |w|];
    if !q.on {
      Next(w, k + 1);
      var ts := FlattenTraces(p.at, q.at, r.at);
      var m :| 0 <= m < |Head(w, k)| && Head(w, k)[m] == g;
      assert Follows(g, p.at, q.at, r.at, ts[m], ts[m + 1]);
    }
  }

  /** Every emitted segment draws a line or a part of a curve of the contour. */
  lemma {:induction false} EmitDraws(w: seq<Point>, k: nat, g: Segment) returns (m: nat)
    requires Alternates(w) && w != [] && k <= |w| && (k < |w| ==> w[k].on) && g in Emit(w, k)
    ensures k <= m < |w| && Draws(w, m, g)
    decreases |w| - k
  {
    hide Head, Jump, Draws, Alternates, Chain;
    HeadChain(w, k);
    if g in Head(w, k) {
      HeadDraws(w, k, g);
      m := k;
    } else {
      var n := Jump(w, k);
      m := EmitDraws(w, n, g);
    }
  }

  /** So does every segment of a contour. */
  lemma ContourDraws(ps: seq<Point>, g: Segment) returns (m: nat)
    requires ps != [] && g in Contour(ps)
    ensures m < |Work(ps)| && Draws(Work(ps), m, g)
  {
    hide Work, Emit, Draws;
    WorkAlternates(ps);
    m := EmitDraws(Work(ps), 0, g);
  }

  // ---------------------------------------------------------------- nothing is left out, nothing is drawn twice

  function Joined<T>(parts: seq<seq<T>>): seq<T> { if parts == [] then [] else parts[0] + Joined(parts[1..]) }

  lemma {:induction false} JoinedLast<T>(parts: seq<seq<T>>, x: seq<T>)
    ensures Joined(parts + [x]) == Joined(parts) + x
    decreases |parts|
  {
    var all := parts + [x];
    if parts == [] {
      assert all[1..] == [];
    } else {
      assert all[1..] == parts[1..] + [x];
      JoinedLast(parts[1..], x);
    }
  }

  /** The segments trace the whole curve from a to b. */
  ghost predicate Whole(g: seq<Segment>, a: Dot, c: Dot, b: Dot)
  {
    Chain(g, a, b) && exists ts :: Traces(g, ts, a, c, b) && ts[0] == 0 && ts[|g|] == 256
  }

  /** What work point k adds: a line or a whole curve to the next on-curve point; a control point adds nothing itself. */
  ghost predicate Stroke(w: seq<Point>, k: nat, g: seq<Segment>)
    requires k < |w|
  {
    var p, q, r := w[k], w[(k + 1) % |w|], w[(k + 2) % |w|];
    if !p.on then g == []
    else if q.on then g == [Segment(p.at, q.at)]
    else r.on && Whole(g, p.at, q.at, r.at)
  }

  lemma HeadStroke(w: seq<Point>, k: nat)
    requires Alternates(w) && k < |w| && w[k].on
    ensures Stroke(w, k, Head(w, k))
  {
    hide Flatten, Traces, Chain;
    Next(w, k);
    var p, q, r := w[k], w[(k + 1) % |w|], w[(k + 2) % |w|];
    if !q.on {
      Next(w, k + 1);
      FlattenChain(p.at, q.at, r.at, 0);
      var ts := FlattenTraces(p.at, q.at, r.at);
      TracesLength(Head(w, k), ts, p.at, q.at, r.at);
    }
  }

  lemma TracesLength(g: seq<Segment>, ts: seq<int>, a: Dot, c: Dot, b: Dot)
    requires Traces(g, ts, a, c, b)
    ensures |ts| == |g| + 1
  {
  }

  /** The parts are the strokes of the work points from k on. */
  ghost predicate Strokes(w: seq<Point>, k: nat, parts: seq<seq<Segment>>)
  {
    k + |parts| == |w| && forall i, j :: 0 <= i < |parts| && j == k + i ==> Stroke(w, j, parts[i])
  }

  lemma StrokesNext(w: seq<Point>, k: nat, g: seq<Segment>, parts: seq<seq<Segment>>)
    requires k < |w| && Stroke(w, k, g) && Strokes(w, k + 1, parts)
    ensures Strokes(w, k, [g] + parts) && Joined([g] + parts) == g + Joined(parts)
  {
    hide Stroke;
    var all := [g] + parts;
    assert all[1..] == parts;
    forall i, j | 0 <= i < |all| && j == k + i ensures Stroke(w, j, all[i]) {
      if i > 0 { assert Stroke(w, j, parts[i - 1]); }
    }
  }

  lemma {:induction false} EmitStrokes(w: seq<Point>, k: nat) returns (parts: seq<seq<Segment>>)
    requires Alternates(w) && w != [] && k <= |w| && (k < |w| ==> w[k].on)
    ensures Strokes(w, k, parts) && Joined(parts) == Emit(w, k)
    decreases |w| - k
  {
    hide Head, Alternates, Chain, Stroke;
    if k == |w| {
      parts := [];
    } else {
      HeadChain(w, k);
      HeadStroke(w, k);
      var n := Jump(w, k);
      parts := EmitStrokes(w, n);
      if n == k + 2 {
        Skipped(w, k);
        StrokesNext(w, k + 1, [], parts);
        parts := [[]] + parts;
      }
      StrokesNext(w, k, Head(w, k), parts);
      parts := [Head(w, k)] + parts;
    }
  }

  lemma Skipped(w: seq<Point>, k: nat)
    requires Alternates(w) && k < |w| && Jump(w, k) == k + 2
    ensures k + 1 < |w| && Stroke(w, k + 1, [])
  {
    hide Alternates, Whole;
    Next(w, k);
  }

  /** A contour is drawn stroke by stroke along its work points, each exactly once and in order. */
  lemma ContourStrokes(ps: seq<Point>) returns (parts: seq<seq<Segment>>)
    requires ps != []
    ensures Strokes(Work(ps), 0, parts) && Joined(parts) == Contour(ps)
  {
    hide Work, Emit, Strokes, Joined;
    WorkAlternates(ps);
    parts := EmitStrokes(Work(ps), 0);
  }

  lemma {:induction false} GlyphParts(points: seq<Point>, ends: seq<nat>, n: nat) returns (cs: seq<seq<Point>>, parts: seq<seq<Segment>>)
    requires Ends(ends, |points|) && n <= |ends|
    ensures |cs| == |parts| == n && Start(ends, n) <= |points| && Joined(cs) == points[..Start(ends, n)] && Joined(parts) == Glyph(points, ends, n)
    ensures forall k :: 0 <= k < n ==> parts[k] == Contour(cs[k]) && |cs[k]| == ends[k] + 1 - (if k == 0 then 0 else ends[k - 1] + 1)
    decreases n
  {
    hide Ends, Contour;
    if n == 0 {
      cs, parts := [], [];
    } else {
      var before, drawn := GlyphParts(points, ends, n - 1);
      EndsInside(ends, |points|, n - 1);
      var c := Piece(points, ends, n - 1);
      cs, parts := before + [c], drawn + [Contour(c)];
      JoinedLast(before, c);
      JoinedLast(drawn, Contour(c));
      assert points[..Start(ends, n - 1)] + c == points[..Start(ends, n)];
    }
  }

  /** A glyph is drawn contour by contour, and the contours use up its points in order. */
  lemma GlyphDraws(points: seq<Point>, ends: seq<nat>) returns (cs: seq<seq<Point>>, parts: seq<seq<Segment>>)
    requires Ends(ends, |points|)
    ensures |cs| == |parts| == |ends| && Joined(cs) == points && Joined(parts) == Glyph(points, ends, |ends|)
    ensures forall k :: 0 <= k < |ends| ==> parts[k] == Contour(cs[k]) && |cs[k]| == ends[k] + 1 - (if k == 0 then 0 else ends[k - 1] + 1)
  {
    hide Glyph, Joined, Contour;
    cs, parts := GlyphParts(points, ends, |ends|);
    assert points[..|points|] == points;
  }
}
