/** Building the segment list of a glyph in a buffer of fixed size, and sampling it. */
module OutlineBuilder {
  import opened Outline

  datatype Status = Ok | Format | NoSpace

  /** What is left of a list in a buffer that stops accepting when full. */
  function Clip<T>(s: seq<T>, capacity: nat): seq<T>
  {
    if |s| <= capacity then s else s[..capacity]
  }

  lemma ClipMore<T>(old_: seq<T>, s: seq<T>, t: seq<T>, capacity: nat)
    requires |old_ + s| > capacity
    ensures Clip(old_ + s, capacity) == Clip(old_ + (s + t), capacity) && |old_ + (s + t)| > capacity
  {
  }

  class Builder {
    const segments: array<Segment>
    var count: nat

    constructor (capacity: nat)
      ensures Valid() && fresh(segments) && segments.Length == capacity && Contents() == []
    {
      segments := new Segment[capacity](_ => Segment(Dot(0, 0), Dot(0, 0)));
      count := 0;
    }

    ghost predicate Valid()
      reads this
    {
      count <= segments.Length
    }

    ghost function Contents(): (s: seq<Segment>)
      requires Valid()
      reads this, segments
      ensures |s| == count
    {
      segments[..count]
    }

    /** gdi_ttf_append_segment */
    method Append(s: Segment) returns (status: Status)
      requires Valid()
      modifies this`count, segments
      ensures Valid()
      ensures status == if |old(Contents())| + 1 <= segments.Length then Ok else NoSpace
      ensures Contents() == Clip(old(Contents()) + [s], segments.Length)
    {
      if count >= segments.Length {
        assert Contents() == Clip(old(Contents()) + [s], segments.Length);
        return NoSpace;
      }
      segments[count] := s;
      count := count + 1;
      assert Contents() == old(Contents()) + [s];
      return Ok;
    }

    /** gdi_ttf_flatten_quad */
    method FlattenQuad(a: Dot, c: Dot, b: Dot, depth: nat) returns (status: Status)
      requires Valid() && depth <= MAX_DEPTH
      modifies this`count, segments
      ensures Valid()
      ensures status == if |old(Contents())| + |Flatten(a, c, b, depth)| <= segments.Length then Ok else NoSpace
      ensures Contents() == Clip(old(Contents()) + Flatten(a, c, b, depth), segments.Length)
      decreases MAX_DEPTH - depth
    {
      hide Flat, Mid, Builder.Contents, Clip;
      if Flat(a, c, b) || depth >= MAX_DEPTH {
        status := Append(Segment(a, b));
        return;
      }
      var ac, cb := Mid(a, c), Mid(c, b);
      var m := Mid(ac, cb);
      ghost var before, left, right := Contents(), Flatten(a, ac, m, depth + 1), Flatten(m, cb, b, depth + 1);
      status := FlattenQuad(a, ac, m, depth + 1);
      if status != Ok {
        ClipMore(before, left, right, segments.Length);
        return;
      }
      ClipWhole(before + left, segments.Length);
      status := FlattenQuad(m, cb, b, depth + 1);
      assert before + left + right == before + (left + right);
    }

    /** gdi_ttf_point_inside */
    method PointInside(p: Dot) returns (r: bool)
      requires Valid()
      ensures r == Inside(Contents(), p)
    {
      hide Meets;
      var crossings := 0;
      ghost var s := Contents();
      for i := 0 to count
        invariant crossings + Crossings(s[i..], p) == Crossings(s, p)
      {
        var seg := segments[i];
        assert s[i..][0] == seg && s[i..][1..] == s[i + 1..];
        var y0, y1 := seg.a.y, seg.b.y;
        if !((y0 > p.y && y1 > p.y) || (y0 <= p.y && y1 <= p.y) || y0 == y1) {
          if Meets(seg, p.y) > p.x { crossings := crossings + 1; }
        }
      }
      r := crossings % 2 != 0;
    }

    /** One round of the loop from work points to segments. */
    method EmitStep(work: array<Point>, n: nat, k: nat, ghost w: seq<Point>) returns (status: Status, next: nat)
      requires Valid() && n <= work.Length && w == work[..n] && Alternates(w) && k < n && w[k].on
      modifies this`count, segments
      ensures Valid()
      ensures status == if |old(Contents())| + |Head(w, k)| <= segments.Length then Ok else NoSpace
      ensures Contents() == Clip(old(Contents()) + Head(w, k), segments.Length)
      ensures next == Jump(w, k)
    {
      hide Flatten, Builder.Contents, Clip, Alternates;
      HeadChain(w, k);
      Next(w, k);
      var p0, p1 := work[k], work[(k + 1) % n];
      status, next := Ok, k + 1;
      if p0.on && p1.on {
        status := Append(Segment(p0.at, p1.at));
      } else if p0.on && !p1.on {
        var p2 := work[(k + 2) % n];
        if !p2.on {
          status := Format;
        } else {
          status := FlattenQuad(p0.at, p1.at, p2.at, 0);
          next := next + 1;
        }
      }
    }

    /** The second half of the contour loop: from work points to segments. */
    method EmitContour(work: array<Point>, n: nat) returns (status: Status)
      requires Valid() && n <= work.Length && Alternates(work[..n])
      modifies this`count, segments
      ensures Valid()
      ensures status == if |old(Contents())| + |Emit(work[..n], 0)| <= segments.Length then Ok else NoSpace
      ensures Contents() == Clip(old(Contents()) + Emit(work[..n], 0), segments.Length)
    {
      hide Head, Jump, Builder.Contents, Clip, Emit, Alternates;
      ghost var w, before := work[..n], Contents();
      FirstOn(w);
      status := Ok;
      var k := 0;
      ghost var done: seq<Segment> := [];
      while k < n
        invariant work[..n] == w && status == Ok && Valid() && k <= n && (k < n ==> w[k].on)
        invariant done + Emit(w, k) == Emit(w, 0) && Contents() == before + done
        decreases n - k
      {
        HeadChain(w, k);
        EmitUnfold(w, k);
        ghost var head := Head(w, k);
        Further(before, done, head, Emit(w, Jump(w, k)), segments.Length);
        var next;
        status, next := EmitStep(work, n, k, w);
        if status != Ok { return; }
        done := done + head;
        k := next;
      }
      EmitUnfold(w, k);
      assert done == Emit(w, 0);
      ClipWhole(before + done, segments.Length);
    }
  }

  /** One more piece of a list: it fits, or the buffer already holds what the whole list would leave in it. */
  lemma Further<T>(before: seq<T>, done: seq<T>, head: seq<T>, tail: seq<T>, capacity: nat)
    ensures done + head + tail == done + (head + tail)
    ensures if |before + done| + |head| <= capacity then Clip(before + done + head, capacity) == before + (done + head)
            else && Clip(before + done + head, capacity) == Clip(before + (done + (head + tail)), capacity)
                 && |before| + |done + (head + tail)| > capacity
  {
    assert before + done + head == before + (done + head);
    if |before + done| + |head| > capacity {
      ClipMore(before, done + head, tail, capacity);
      assert done + head + tail == done + (head + tail);
    }
  }

  lemma FirstOn(w: seq<Point>)
    requires Alternates(w)
    ensures w != [] && w[0].on
  {
  }

  lemma EmitUnfold(w: seq<Point>, k: nat)
    ensures Emit(w, k) == if k >= |w| then [] else Head(w, k) + Emit(w, Jump(w, k))
  {
  }

  lemma ClipWhole<T>(s: seq<T>, capacity: nat)
    ensures |s| <= capacity ==> Clip(s, capacity) == s
  {
  }

  method Push(work: array<Point>, n: nat, p: Point)
    requires n < work.Length
    modifies work
    ensures work[..n + 1] == old(work[..n]) + [p]
  {
    work[n] := p;
  }

  /** What the loop adds for one raw point. */
  method PushStep(points: seq<Point>, start: nat, end: nat, i: nat, work: array<Point>, n: nat) returns (m: nat)
    requires start <= end < |points| && i <= end - start && n + 2 <= work.Length
    modifies work
    ensures n < m <= n + 2 && work[..m] == old(work[..n]) + Step(points[start..end + 1], i)
  {
    hide Mid;
    var rawCount := end - start + 1;
    Wrap(i, rawCount);
    var current, next := points[start + i], points[start + (i + 1) % rawCount];
    ghost var ps := points[start..end + 1];
    assert ps[i] == current && ps[(i + 1) % rawCount] == next;
    Push(work, n, current);
    m := n + 1;
    if !current.on && !next.on {
      Push(work, m, Point(Mid(current.at, next.at), true));
      m := m + 1;
    }
  }

  /** What goes in front of a contour that starts with a control point. */
  method PushLead(points: seq<Point>, start: nat, end: nat, work: array<Point>) returns (n: nat)
    requires start <= end < |points| && 0 < work.Length
    modifies work
    ensures n <= 1 && work[..n] == Lead(points[start..end + 1])
  {
    hide Mid;
    n := 0;
    if !points[start].on {
      if !points[end].on {
        Push(work, 0, Point(Mid(points[end].at, points[start].at), true));
      } else {
        Push(work, 0, points[end]);
      }
      n := 1;
    }
  }

  /** The first half of the contour loop: from raw points to work points. */
  method FillWork(points: seq<Point>, start: nat, end: nat, work: array<Point>) returns (n: nat)
    requires start <= end < |points| && 2 * (end - start + 1) + 1 <= work.Length
    modifies work
    ensures n <= work.Length && work[..n] == Work(points[start..end + 1])
  {
    hide Step, Lead;
    ghost var ps := points[start..end + 1];
    n := PushLead(points, start, end, work);
    for i := 0 to end - start + 1
      invariant n <= 1 + 2 * i && work[..n] == Lead(ps) + Steps(ps, i)
    {
      n := PushStep(points, start, end, i, work, n);
    }
  }

  /** The box holds all points, and each of its sides touches one. */
  ghost predicate TightBox(points: seq<Point>, box: Box)
  {
    && PointsIn(points, box)
    && (exists i, j :: 0 <= i < |points| && 0 <= j < |points| && points[i].at.x == box.minX && points[j].at.x == box.maxX)
    && (exists i, j :: 0 <= i < |points| && 0 <= j < |points| && points[i].at.y == box.minY && points[j].at.y == box.maxY)
  }

  method Bounds(points: seq<Point>) returns (box: Box)
    requires points != []
    ensures TightBox(points, box)
  {
    var first := points[0].at;
    box := Box(first.x, first.y, first.x, first.y);
    ghost var l, r, t, b := 0, 0, 0, 0;
    for i := 1 to |points|
      invariant forall j :: 0 <= j < i ==> In(points[j].at, box)
      invariant 0 <= l < i && 0 <= r < i && 0 <= t < i && 0 <= b < i
      invariant points[l].at.x == box.minX && points[r].at.x == box.maxX && points[t].at.y == box.minY && points[b].at.y == box.maxY
    {
      var p := points[i].at;
      if p.x < box.minX { box := box.(minX := p.x); l := i; }
      if p.x > box.maxX { box := box.(maxX := p.x); r := i; }
      if p.y < box.minY { box := box.(minY := p.y); t := i; }
      if p.y > box.maxY { box := box.(maxY := p.y); b := i; }
    }
  }

  /** One contour of the glyph; an empty one is skipped. */
  method AddContour(points: seq<Point>, ends: seq<nat>, k: nat, work: array<Point>, builder: Builder) returns (status: Status)
    requires Ends(ends, |points|) && k < |ends| && 2 * |points| + 4 <= work.Length && builder.Valid()
    modifies work, builder`count, builder.segments
    ensures builder.Valid()
    ensures var add := Contour(Piece(points, ends, k));
            && status == (if |old(builder.Contents())| + |add| <= builder.segments.Length then Ok else NoSpace)
            && builder.Contents() == Clip(old(builder.Contents()) + add, builder.segments.Length)
  {
    hide Builder.Contents, Emit, Clip, Alternates, Work;
    EndsInside(ends, |points|, k);
    ghost var before, ps := builder.Contents(), Piece(points, ends, k);
    var start, end := Start(ends, k), ends[k];
    if end + 1 == start {
      ClipWhole(before, builder.segments.Length);
      assert before + [] == before;
      return Ok;
    }
    WorkAlternates(ps);
    var n := FillWork(points, start, end, work);
    assert work[..n] == Work(ps);
    FirstOn(work[..n]);
    assert builder.Contents() == before;
    if n == 0 || !work[0].on { return Format; }
    status := builder.EmitContour(work, n);
  }

  lemma {:induction false} GlyphPrefix(points: seq<Point>, ends: seq<nat>, k: nat, m: nat)
    requires Ends(ends, |points|) && k <= m <= |ends|
    ensures |Glyph(points, ends, k)| <= |Glyph(points, ends, m)|
    ensures Glyph(points, ends, m) == Glyph(points, ends, k) + Glyph(points, ends, m)[|Glyph(points, ends, k)|..]
    decreases m
  {
    hide Contour, Piece, Ends;
    if k < m { GlyphPrefix(points, ends, k, m - 1); }
  }

  /** gdi_ttf_build_simple_segments, once the points are decoded: a glyph without contours has an empty box and no
      segments; scratchOk says whether the scratch arrays could be allocated. */
  method BuildSimple(points: seq<Point>, ends: seq<nat>, scratchOk: bool, builder: Builder) returns (status: Status, box: Box)
    requires (ends == [] || Ends(ends, |points|)) && builder.Valid()
    modifies builder`count, builder.segments
    ensures builder.Valid()
    ensures ends == [] ==> status == Ok && box == Box(0, 0, 0, 0) && builder.Contents() == old(builder.Contents())
    ensures ends != [] && !scratchOk ==> status == NoSpace && builder.Contents() == old(builder.Contents())
    ensures ends != [] && scratchOk ==>
              && TightBox(points, box)
              && status == (if |old(builder.Contents())| + |Glyph(points, ends, |ends|)| <= builder.segments.Length then Ok else NoSpace)
              && builder.Contents() == Clip(old(builder.Contents()) + Glyph(points, ends, |ends|), builder.segments.Length)
  {
    hide Builder.Contents, Glyph, Clip, TightBox, Ends;
    box := Box(0, 0, 0, 0);
    if ends == [] { return Ok, box; }
    if !scratchOk { return NoSpace, box; }
    status, box := Build(points, ends, builder);
  }

  /** The box, and all contours in order.  It fails only for lack of room in the builder. */
  method Build(points: seq<Point>, ends: seq<nat>, builder: Builder) returns (status: Status, box: Box)
    requires Ends(ends, |points|) && builder.Valid()
    modifies builder`count, builder.segments
    ensures builder.Valid() && TightBox(points, box)
    ensures status == if |old(builder.Contents())| + |Glyph(points, ends, |ends|)| <= builder.segments.Length then Ok else NoSpace
    ensures builder.Contents() == Clip(old(builder.Contents()) + Glyph(points, ends, |ends|), builder.segments.Length)
  {
    hide Builder.Contents, Contour, Clip, TightBox;
    box := Bounds(points);
    var work := new Point[2 * |points| + 4](_ => Point(Dot(0, 0), false));
    ghost var before := builder.Contents();
    status := Ok;
    for k := 0 to |ends|
      invariant builder.Valid() && status == Ok && builder.Contents() == before + Glyph(points, ends, k)
    {
      ghost var add := Contour(Piece(points, ends, k));
      status := AddContour(points, ends, k, work, builder);
      if status != Ok {
        ghost var whole := Glyph(points, ends, |ends|);
        GlyphPrefix(points, ends, k + 1, |ends|);
        assert before + Glyph(points, ends, k) + add == before + Glyph(points, ends, k + 1);
        ClipMore(before, Glyph(points, ends, k + 1), whole[|Glyph(points, ends, k + 1)|..], builder.segments.Length);
        return;
      }
      ClipWhole(before + Glyph(points, ends, k) + add, builder.segments.Length);
    }
    ClipWhole(before + Glyph(points, ends, |ends|), builder.segments.Length);
  }

  /** Build a glyph and sample it: whenever the segments fit, a sample outside the reported box is not filled. */
  method FillSample(points: seq<Point>, ends: seq<nat>, capacity: nat, p: Dot) returns (status: Status, box: Box, filled: bool)
    requires Ends(ends, |points|)
    ensures TightBox(points, box)
    ensures status == if |Glyph(points, ends, |ends|)| <= capacity then Ok else NoSpace
    ensures status == Ok ==> filled == Inside(Glyph(points, ends, |ends|), p)
    ensures status == Ok && (p.x < box.minX || p.x >= box.maxX || p.y < box.minY || p.y >= box.maxY) ==> !filled
  {
    hide Ends, PointsIn, Glyph, Inside, Builder.Contents, Clip;
    var builder := new Builder(capacity);
    status, box := Build(points, ends, builder);
    filled := builder.PointInside(p);
    ghost var all := Glyph(points, ends, |ends|);
    assert [] + all == all;
    ClipWhole(all, capacity);
    if p.x < box.minX || p.x >= box.maxX || p.y < box.minY || p.y >= box.maxY { OutsideBox(points, ends, p, box); }
  }
}
