/** Integer line drawing into the back buffer. */
module LineDrawing {
  import opened Common
  import opened LittleEndian
  import opened Division

  const INT_MAX := 0x7FFF_FFFF

  type Int32 = x: int | -INT_MAX - 1 <= x <= INT_MAX

  /** How many x-steps and y-steps have been taken. */
  datatype Pos = Pos(i: nat, j: nat)

  function Abs(x: int): nat {
    if x < 0 then -x else x
  }

  /** k unit steps from a in the direction the line to b takes. */
  function Toward(a: int, b: int, k: nat): int {
    if b > a then a + k else a - k
  }

  /** How far a position is off the ideal line, times dx on one axis and dy on the other. */
  function Cross(p: Pos, dx: nat, dy: nat): int {
    p.j * dx - p.i * dy
  }

  /** Within half a pixel of the ideal line along the minor axis. */
  predicate Close(p: Pos, dx: nat, dy: nat) {
    0 <= Max(dx, dy) + 2 * Cross(p, dx, dy) && 2 * Cross(p, dx, dy) <= Max(dx, dy)
  }

  /** One pixel along the major axis, at most one along the other. */
  predicate Advances(p: Pos, q: Pos, dx: nat, dy: nat) {
    && (q.i == p.i || q.i == p.i + 1) && (q.j == p.j || q.j == p.j + 1)
    && (dy <= dx ==> q.i == p.i + 1) && (dx <= dy ==> q.j == p.j + 1)
  }

  /** How large twice the error term, and the error term between its two updates, can get. */
  function ErrorBound(dx: nat, dy: nat): nat {
    if dx == 0 || dy == 0 then 2 * Max(dx, dy)
    else if dx == dy then dx
    else Max(Max(dx, dy) + 2 * Abs(dx - dy), Max(dx, dy) + Max(dx, dy) / 2)
  }

  lemma BoundCovers(dx: nat, dy: nat)
    ensures dx <= ErrorBound(dx, dy) && dy <= ErrorBound(dx, dy)
  {
  }

  /** A line along an axis is never off it. */
  lemma StraightCross(p: Pos, dx: nat, dy: nat)
    requires Close(p, dx, dy) && 0 < Max(dx, dy) && (dx == 0 || dy == 0)
    ensures Cross(p, dx, dy) == 0
  {
    if dy == 0 {
      MultipleWithin(dx, p.j);
    } else {
      MultipleWithin(dy, -p.i);
    }
  }

  lemma CrossStep(p: Pos, dx: nat, dy: nat)
    ensures Cross(Pos(p.i + 1, p.j), dx, dy) == Cross(p, dx, dy) - dy
    ensures Cross(Pos(p.i, p.j + 1), dx, dy) == Cross(p, dx, dy) + dx
    ensures Cross(Pos(p.i + 1, p.j + 1), dx, dy) == Cross(p, dx, dy) - dy + dx
    ensures Cross(Pos(0, 0), dx, dy) == 0
  {
  }

  /** The step the error term chooses stays close and advances. */
  lemma StepStaysClose(p: Pos, dx: nat, dy: nat)
    requires Close(p, dx, dy) && 0 < Max(dx, dy) && (dx == dy ==> Cross(p, dx, dy) == 0)
    ensures var e2 := 2 * (Cross(p, dx, dy) + dx - dy);
      var q := Pos(if e2 + dy > 0 then p.i + 1 else p.i, if e2 < dx then p.j + 1 else p.j);
      && Close(q, dx, dy) && Advances(p, q, dx, dy) && (dx == dy ==> Cross(q, dx, dy) == 0)
      && Abs(e2) <= ErrorBound(dx, dy)
      && (e2 + dy > 0 ==> Abs(Cross(p, dx, dy) + dx - dy - dy) <= ErrorBound(dx, dy))
  {
    hide Cross;
    if dx == 0 || dy == 0 { StraightCross(p, dx, dy); }
    CrossStep(p, dx, dy);
  }

  /** A close position at full length along the major axis is the end point. */
  lemma CloseAtEnd(p: Pos, dx: nat, dy: nat)
    requires Close(p, dx, dy) && (dy <= dx ==> p.i == dx) && (dx <= dy ==> p.j == dy)
    ensures p == Pos(dx, dy)
  {
    if dy < dx {
      MultipleWithin(dx, p.j - dy);
      CrossFactors(p.j, dx, dy);
    } else if dx < dy {
      MultipleWithin(dy, dx - p.i);
      CrossFactors(dx, dy, p.i);
    }
  }

  lemma CrossFactors(j: int, d: int, e: int)
    ensures j * d - d * e == d * (j - e)
  {
  }

  /** A multiple of m no larger than m / 2 is 0. */
  lemma MultipleWithin(m: nat, k: int)
    requires 0 < m
    ensures Abs(2 * (m * k)) <= m ==> k == 0
  {
    if k > 0 {
      RowsApart(0, k, m);
    } else if k < 0 {
      RowsApart(0, -k, m);
      assert m * k == -(m * -k);
    }
  }

  lemma {:induction false} RowsApart(a: nat, b: nat, m: nat)
    requires a < b
    ensures a * m + m <= b * m
    decreases b
  {
    if a + 1 < b { RowsApart(a, b - 1, m); }
  }

  /** The pixels on the screen and where they lie in the buffer. */
  datatype Screen = Screen(width: nat, height: nat, stride: nat)

  predicate OnScreen(s: Screen, x: int, y: int) {
    0 <= x < s.width && 0 <= y < s.height
  }

  function Index(s: Screen, x: nat, y: nat): nat {
    y * s.stride + x
  }

  /** Distinct pixels have distinct places. */
  lemma IndexApart(s: Screen, x: nat, y: nat, x': nat, y': nat)
    requires s.width <= s.stride && OnScreen(s, x, y) && OnScreen(s, x', y') && Index(s, x, y) == Index(s, x', y')
    ensures x == x' && y == y'
  {
    if y < y' {
      RowsApart(y, y', s.stride);
    } else if y' < y {
      RowsApart(y', y, s.stride);
    }
  }

  lemma IndexInside(s: Screen, x: nat, y: nat)
    requires s.width <= s.stride && OnScreen(s, x, y)
    ensures Index(s, x, y) < s.height * s.stride
  {
    RowsApart(y, s.height, s.stride);
  }

  /** Place k of the buffer is a visited pixel of the line from (x0, y0) to (x1, y1). */
  ghost predicate Visited(s: Screen, x0: int, y0: int, x1: int, y1: int, path: seq<Pos>, k: nat) {
    exists t :: 0 <= t < |path| && Lands(s, x0, y0, x1, y1, path[t], k)
  }

  predicate Lands(s: Screen, x0: int, y0: int, x1: int, y1: int, p: Pos, k: nat) {
    var x, y := Toward(x0, x1, p.i), Toward(y0, y1, p.j);
    OnScreen(s, x, y) && Index(s, x, y) == k
  }

  /** The visited positions: from the start to the end point in exactly max(dx, dy) steps. */
  ghost predicate LinePath(path: seq<Pos>, dx: nat, dy: nat) {
    && |path| == Max(dx, dy) + 1 && path[0] == Pos(0, 0) && path[Max(dx, dy)] == Pos(dx, dy)
    && (forall t :: 0 <= t < |path| ==> Close(path[t], dx, dy))
    && (forall t :: 0 <= t < |path| - 1 ==> Advances(path[t], path[t + 1], dx, dy))
  }

  /** A screen pixel's place is visited exactly when the pixel itself is on the path. */
  lemma VisitedExactly(s: Screen, x0: int, y0: int, x1: int, y1: int, path: seq<Pos>, x: nat, y: nat)
    requires s.width <= s.stride && OnScreen(s, x, y)
    ensures Visited(s, x0, y0, x1, y1, path, Index(s, x, y)) <==>
      exists t :: 0 <= t < |path| && Toward(x0, x1, path[t].i) == x && Toward(y0, y1, path[t].j) == y
  {
    hide Index, Toward;
    forall t | 0 <= t < |path|
      ensures Lands(s, x0, y0, x1, y1, path[t], Index(s, x, y)) <==>
        Toward(x0, x1, path[t].i) == x && Toward(y0, y1, path[t].j) == y
    {
      if Lands(s, x0, y0, x1, y1, path[t], Index(s, x, y)) {
        IndexApart(s, x, y, Toward(x0, x1, path[t].i), Toward(y0, y1, path[t].j));
      }
    }
  }

  /** No error term along the path overflows int: neither the doubled one, nor the one between
      the two updates. */
  ghost predicate TermsFit(path: seq<Pos>, dx: nat, dy: nat) {
    && dx <= INT_MAX && dy <= INT_MAX
    && forall t :: 0 <= t < |path| - 1 ==> TermFits(path[t], dx, dy)
  }

  predicate TermFits(p: Pos, dx: nat, dy: nat) {
    var err := Cross(p, dx, dy) + dx - dy;
    && -INT_MAX <= 2 * err <= INT_MAX
    && (2 * err + dy > 0 ==> -INT_MAX <= err - dy)
  }

  /** On a diagonal every position is on the line. */
  lemma {:induction false} DiagonalCross(path: seq<Pos>, d: nat, t: nat)
    requires LinePath(path, d, d) && t < |path|
    ensures path[t] == Pos(t, t) && Cross(path[t], d, d) == 0
  {
    if t > 0 {
      DiagonalCross(path, d, t - 1);
      assert Advances(path[t - 1], path[t - 1 + 1], d, d);
    }
  }

  /** ErrorBound is enough for that. */
  lemma BoundSuffices(path: seq<Pos>, dx: nat, dy: nat)
    requires LinePath(path, dx, dy) && ErrorBound(dx, dy) <= INT_MAX
    ensures TermsFit(path, dx, dy)
  {
    hide Cross, ErrorBound;
    BoundCovers(dx, dy);
    forall t | 0 <= t < |path| - 1
      ensures TermFits(path[t], dx, dy)
    {
      if dx == dy { DiagonalCross(path, dx, t); }
      StepStaysClose(path[t], dx, dy);
    }
  }

  /** Along an axis and on a diagonal it is exact; elsewhere twice the difference must fit. */
  lemma BoundExact(path: seq<Pos>, dx: nat, dy: nat)
    requires LinePath(path, dx, dy) && 0 < Max(dx, dy)
    ensures TermsFit(path, dx, dy) ==> 2 * Abs(dx - dy) <= INT_MAX
    ensures dx == 0 || dy == 0 || dx == dy ==> (TermsFit(path, dx, dy) <==> ErrorBound(dx, dy) <= INT_MAX)
  {
    if ErrorBound(dx, dy) <= INT_MAX { BoundSuffices(path, dx, dy); }
    assert TermsFit(path, dx, dy) ==> TermFits(path[0], dx, dy);
    CrossStep(path[0], dx, dy);
  }

  lemma VisitedNext(s: Screen, x0: int, y0: int, x1: int, y1: int, path: seq<Pos>, p: Pos, k: nat)
    ensures Visited(s, x0, y0, x1, y1, path + [p], k) <==>
      Visited(s, x0, y0, x1, y1, path, k) || Lands(s, x0, y0, x1, y1, p, k)
  {
    hide Lands;
    if Visited(s, x0, y0, x1, y1, path, k) {
      var t :| 0 <= t < |path| && Lands(s, x0, y0, x1, y1, path[t], k);
      assert (path + [p])[t] == path[t];
    }
    assert (path + [p])[|path|] == p;
  }

  lemma NoneVisited(s: Screen, x0: int, y0: int, x1: int, y1: int)
    ensures forall k: nat :: !Visited(s, x0, y0, x1, y1, [], k)
  {
  }

  /** The positions visited so far, with p the one to visit next. */
  ghost predicate LinePrefix(path: seq<Pos>, p: Pos, dx: nat, dy: nat) {
    && (path == [] ==> p == Pos(0, 0)) && (path != [] ==> path[0] == Pos(0, 0) && Advances(path[|path| - 1], p, dx, dy))
    && (forall t :: 0 <= t < |path| ==> Close(path[t], dx, dy))
    && (forall t :: 0 <= t < |path| - 1 ==> Advances(path[t], path[t + 1], dx, dy))
    && Close(p, dx, dy) && (dx == dy ==> Cross(p, dx, dy) == 0)
    && (dy <= dx ==> p.i == |path|) && (dx <= dy ==> p.j == |path|)
    && |path| <= Max(dx, dy)
  }

  lemma PrefixStart(dx: nat, dy: nat)
    ensures LinePrefix([], Pos(0, 0), dx, dy) && Cross(Pos(0, 0), dx, dy) == 0
  {
  }

  /** A close position no further than the end along the major axis is within the box. */
  lemma CloseInside(p: Pos, dx: nat, dy: nat)
    requires Close(p, dx, dy) && (dy <= dx ==> p.i <= dx) && (dx <= dy ==> p.j <= dy)
    ensures p.i <= dx && p.j <= dy
  {
    if dy < dx {
      if p.j > dy { RowsApart(dy, p.j, dx); }
      if p.i < dx { RowsApart(p.i, dx, dy); }
    } else if dx < dy {
      if p.i > dx { RowsApart(dx, p.i, dy); }
      if p.j < dy { RowsApart(p.j, dy, dx); }
    }
  }

  lemma TowardStep(a: int, b: int, k: nat)
    requires k <= Abs(b - a)
    ensures Toward(a, b, k + 1) == Toward(a, b, k) + (if b - a > 0 then 1 else -1)
    ensures Toward(a, b, k) == b <==> k == Abs(b - a)
    ensures (a <= Toward(a, b, k) <= b) || (b <= Toward(a, b, k) <= a)
  {
  }

  /** Short of the end point there are steps left, and the next one keeps the path. */
  lemma PrefixNext(path: seq<Pos>, p: Pos, dx: nat, dy: nat)
    requires LinePrefix(path, p, dx, dy) && p != Pos(dx, dy)
    ensures |path| < Max(dx, dy)
    ensures var e2 := 2 * (Cross(p, dx, dy) + dx - dy);
      && p.i <= dx && p.j <= dy && (e2 + dy > 0 ==> p.i + 1 <= dx) && (e2 < dx ==> p.j + 1 <= dy)
      && LinePrefix(path + [p], Pos(if e2 + dy > 0 then p.i + 1 else p.i, if e2 < dx then p.j + 1 else p.j), dx, dy)
  {
    hide Cross, Close, ErrorBound;
    if |path| == Max(dx, dy) { CloseAtEnd(p, dx, dy); }
    StepStaysClose(p, dx, dy);
    CloseInside(p, dx, dy);
    var e2 := 2 * (Cross(p, dx, dy) + dx - dy);
    CloseInside(Pos(if e2 + dy > 0 then p.i + 1 else p.i, if e2 < dx then p.j + 1 else p.j), dx, dy);
  }

  lemma PrefixEnd(path: seq<Pos>, p: Pos, dx: nat, dy: nat)
    requires LinePrefix(path, p, dx, dy) && p == Pos(dx, dy)
    ensures LinePath(path + [p], dx, dy)
  {
    hide Cross, Close;
    var q := path + [p];
    assert |path| == Max(dx, dy);
    forall t | 0 <= t < |q| - 1
      ensures Advances(q[t], q[t + 1], dx, dy)
    {
      assert t < |path| - 1 ==> q[t] == path[t] && q[t + 1] == path[t + 1];
    }
  }

  /** Pixel (x, y) is on the path from (x0, y0) to (x1, y1). */
  ghost predicate OnPath(x0: int, y0: int, x1: int, y1: int, path: seq<Pos>, x: int, y: int) {
    exists t :: 0 <= t < |path|
      && x == (if x0 < x1 then x0 + path[t].i else x0 - path[t].i)
      && y == (if y0 < y1 then y0 + path[t].j else y0 - path[t].j)
  }

  /** Where a pixel of the screen lies, and that every word which is no pixel is as before. */
  ghost predicate Painted(s: Screen, before: seq<Word32>, after: seq<Word32>, x0: int, y0: int, x1: int, y1: int,
                          path: seq<Pos>, color: Word32) {
    && |after| == |before|
    && (forall x: nat, y: nat :: x < s.width && y < s.height ==>
          PixelPainted(s, before, after, x0, y0, x1, y1, path, color, x, y))
    && (forall k :: 0 <= k < |after| && NoPlace(s, k) ==> after[k] == before[k])
  }

  lemma PaintedWhere(s: Screen, before: seq<Word32>, after: seq<Word32>, x0: int, y0: int, x1: int, y1: int,
                     path: seq<Pos>, color: Word32)
    requires s.width <= s.stride && |after| == |before| && s.height * s.stride <= |after|
    requires forall k :: 0 <= k < |after| ==>
      after[k] == if Visited(s, x0, y0, x1, y1, path, k) then color else before[k]
    ensures Painted(s, before, after, x0, y0, x1, y1, path, color)
  {
    hide Visited, OnPath, Toward;
    forall x: nat, y: nat | x < s.width && y < s.height
      ensures PixelPainted(s, before, after, x0, y0, x1, y1, path, color, x, y)
    {
      OnePixel(s, before, after, x0, y0, x1, y1, path, color, x, y);
    }
    forall k | 0 <= k < |after| && NoPlace(s, k)
      ensures after[k] == before[k]
    {
      NotVisited(s, x0, y0, x1, y1, path, k);
    }
  }

  ghost predicate PixelPainted(s: Screen, before: seq<Word32>, after: seq<Word32>, x0: int, y0: int, x1: int, y1: int,
                               path: seq<Pos>, color: Word32, x: nat, y: nat) {
    && y * s.stride + x < |after| == |before|
    && after[y * s.stride + x] ==
       if OnPath(x0, y0, x1, y1, path, x, y) then color else before[y * s.stride + x]
  }

  predicate NoPlace(s: Screen, k: nat) {
    s.stride == 0 || k % s.stride >= s.width || k / s.stride >= s.height
  }

  lemma OnePixel(s: Screen, before: seq<Word32>, after: seq<Word32>, x0: int, y0: int, x1: int, y1: int,
                 path: seq<Pos>, color: Word32, x: nat, y: nat)
    requires s.width <= s.stride && |after| == |before| && s.height * s.stride <= |after| && x < s.width && y < s.height
    requires forall k :: 0 <= k < |after| ==>
      after[k] == if Visited(s, x0, y0, x1, y1, path, k) then color else before[k]
    ensures PixelPainted(s, before, after, x0, y0, x1, y1, path, color, x, y)
  {
    hide Visited, OnPath, Toward;
    IndexInside(s, x, y);
    PathVisits(s, x0, y0, x1, y1, path, x, y);
  }

  lemma PathVisits(s: Screen, x0: int, y0: int, x1: int, y1: int, path: seq<Pos>, x: nat, y: nat)
    requires s.width <= s.stride && OnScreen(s, x, y)
    ensures Visited(s, x0, y0, x1, y1, path, y * s.stride + x) <==> OnPath(x0, y0, x1, y1, path, x, y)
  {
    VisitedExactly(s, x0, y0, x1, y1, path, x, y);
    hide Visited;
  }

  lemma NotVisited(s: Screen, x0: int, y0: int, x1: int, y1: int, path: seq<Pos>, k: nat)
    requires s.width <= s.stride && NoPlace(s, k)
    ensures !Visited(s, x0, y0, x1, y1, path, k)
  {
    hide Toward;
    if Visited(s, x0, y0, x1, y1, path, k) {
      var t :| 0 <= t < |path| && Lands(s, x0, y0, x1, y1, path[t], k);
      var x, y := Toward(x0, x1, path[t].i), Toward(y0, y1, path[t].j);
      assert k == y * s.stride + x;
      DivIs(k, s.stride, y, x);
      assert false;
    }
  }

  /** Which way each step goes: along an axis unless that would leave the line by more than half
      a pixel, ties going the way the comparisons say. */
  ghost predicate Stepped(path: seq<Pos>, dx: nat, dy: nat) {
    forall t :: 0 <= t < |path| - 1 ==> StepsTo(path[t], path[t + 1], dx, dy)
  }

  predicate StepsTo(p: Pos, q: Pos, dx: nat, dy: nat) {
    var off := p.j * dx - p.i * dy;
    && q.i == (if 2 * off + 2 * dx - dy > 0 then p.i + 1 else p.i)
    && q.j == (if 2 * off + dx - 2 * dy < 0 then p.j + 1 else p.j)
  }

  lemma SteppedNext(path: seq<Pos>, p: Pos, q: Pos, dx: nat, dy: nat)
    requires Stepped(path, dx, dy) && (path != [] ==> StepsTo(path[|path| - 1], p, dx, dy))
    requires var e2 := 2 * (Cross(p, dx, dy) + dx - dy);
      q == Pos(if e2 + dy > 0 then p.i + 1 else p.i, if e2 < dx then p.j + 1 else p.j)
    ensures Stepped(path + [p], dx, dy) && StepsTo(p, q, dx, dy)
  {
    hide StepsTo;
    var r := path + [p];
    forall t | 0 <= t < |r| - 1
      ensures StepsTo(r[t], r[t + 1], dx, dy)
    {
      assert t < |path| - 1 ==> r[t] == path[t] && r[t + 1] == path[t + 1];
    }
    StepIs(p, q, dx, dy);
  }

  lemma StepIs(p: Pos, q: Pos, dx: nat, dy: nat)
    requires var e2 := 2 * (Cross(p, dx, dy) + dx - dy);
      q == Pos(if e2 + dy > 0 then p.i + 1 else p.i, if e2 < dx then p.j + 1 else p.j)
    ensures StepsTo(p, q, dx, dy)
  {
  }

  lemma NothingStepped(dx: nat, dy: nat)
    ensures Stepped([], dx, dy)
  {
  }

  lemma TowardZero(a: int, b: int)
    ensures Toward(a, b, 0) == a
  {
  }

  /** Painting one visited pixel, if it is on the screen. */
  method PlotNext(s: Screen, buffer: array<Word32>, x0: int, y0: int, x1: int, y1: int, ghost path: seq<Pos>,
                  ghost p: Pos, x: int, y: int, color: Word32)
    requires s.width <= s.stride && s.height * s.stride <= buffer.Length
    requires x == Toward(x0, x1, p.i) && y == Toward(y0, y1, p.j)
    modifies buffer
    ensures forall k :: 0 <= k < buffer.Length ==>
      && buffer[k] == (if Lands(s, x0, y0, x1, y1, p, k) then color else old(buffer[k]))
      && (Visited(s, x0, y0, x1, y1, path + [p], k) <==>
        Visited(s, x0, y0, x1, y1, path, k) || Lands(s, x0, y0, x1, y1, p, k))
  {
    hide Index, Visited;
    if x >= 0 && x < s.width && y >= 0 && y < s.height {
      IndexInside(s, x, y);
      buffer[Index(s, x, y)] := color;
    }
    forall k: nat
      ensures Visited(s, x0, y0, x1, y1, path + [p], k) <==>
        Visited(s, x0, y0, x1, y1, path, k) || Lands(s, x0, y0, x1, y1, p, k)
    {
      VisitedNext(s, x0, y0, x1, y1, path, p, k);
    }
  }

  /** fb_draw_line, with the error term in unbounded arithmetic: int holds it where TermsFit. */
  method DrawLine(s: Screen, buffer: array<Word32>, x0: Int32, y0: Int32, x1: Int32, y1: Int32, color: Word32)
    returns (ghost path: seq<Pos>)
    requires s.width <= s.stride && s.height * s.stride <= buffer.Length
    modifies buffer
    ensures LinePath(path, Abs(x1 - x0), Abs(y1 - y0))
    ensures ErrorBound(Abs(x1 - x0), Abs(y1 - y0)) <= INT_MAX ==> TermsFit(path, Abs(x1 - x0), Abs(y1 - y0))
    ensures forall k :: 0 <= k < buffer.Length ==>
      buffer[k] == if Visited(s, x0, y0, x1, y1, path, k) then color else old(buffer[k])
    ensures Painted(s, old(buffer[..]), buffer[..], x0, y0, x1, y1, path, color)
    ensures Stepped(path, Abs(x1 - x0), Abs(y1 - y0))
  {
    hide Painted, Stepped, StepsTo, Cross, Close, Visited, Index, LinePrefix, LinePath, Lands, Toward, ErrorBound,
      Advances, OnScreen, TermsFit;
    var dx: int, dy: int := x1 - x0, y1 - y0;
    var sx, sy := if dx > 0 then 1 else -1, if dy > 0 then 1 else -1;
    if dx < 0 { dx := -dx; }
    if dy < 0 { dy := -dy; }
    var err: int := dx - dy;
    var x: int, y: int := x0, y0;
    ghost var p := Pos(0, 0);
    PrefixStart(dx, dy);
    TowardZero(x0, x1);
    TowardZero(y0, y1);
    path := [];
    NothingStepped(dx, dy);
    NoneVisited(s, x0, y0, x1, y1);
    while true
      invariant x == Toward(x0, x1, p.i) && y == Toward(y0, y1, p.j) && p.i <= dx && p.j <= dy
      invariant LinePrefix(path, p, dx, dy)
      invariant err == Cross(p, dx, dy) + dx - dy
      invariant Stepped(path, dx, dy) && (path != [] ==> StepsTo(path[|path| - 1], p, dx, dy))
      invariant forall k :: 0 <= k < buffer.Length ==>
        buffer[k] == if Visited(s, x0, y0, x1, y1, path, k) then color else old(buffer[k])
      decreases Max(dx, dy) - |path|
    {
      PlotNext(s, buffer, x0, y0, x1, y1, path, p, x, y, color);
      TowardStep(x0, x1, p.i);
      TowardStep(y0, y1, p.j);
      if p == Pos(dx, dy) {
        PrefixEnd(path, p, dx, dy);
        if ErrorBound(dx, dy) <= INT_MAX { BoundSuffices(path + [p], dx, dy); }
      }
      SteppedNext(path, p, Pos(if 2 * err > -dy then p.i + 1 else p.i, if 2 * err < dx then p.j + 1 else p.j), dx, dy);
      path := path + [p];
      if x == x1 && y == y1 { break; }
      PrefixNext(path[..|path| - 1], p, dx, dy);
      CrossStep(p, dx, dy);
      assert path[..|path| - 1] + [p] == path;
      var e2 := 2 * err;
      if e2 > -dy {
        err := err - dy;
        x := x + sx;
      }
      if e2 < dx {
        err := err + dx;
        y := y + sy;
      }
      p := Pos(if e2 > -dy then p.i + 1 else p.i, if e2 < dx then p.j + 1 else p.j);
    }
    PaintedWhere(s, old(buffer[..]), buffer[..], x0, y0, x1, y1, path, color);
  }
}
