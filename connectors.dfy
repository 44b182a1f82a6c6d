/** The candidate line segments of an n-by-n node grid (nodes numbered row-major),
    generated in the plugin's fixed order, and lookup of a segment by its two nodes. */
module Connectors {
  import opened Arith

  /** A candidate segment `[a, b]` between node a and node b. */
  datatype Line = Line(a: int, b: int)

  /** The four passes of the generator, in the order they are concatenated. */
  datatype Kind = Horizontal | Vertical | Backslash | Forwardslash

  /** The guard under which the pass for `kind` adds a segment at row i, column j. */
  predicate HasLine(n: nat, kind: Kind, i: int, j: int)
  {
    match kind
    case Horizontal => j < n - 1
    case Vertical => i < n - 1
    case Backslash => i < n - 1 && j < n - 1
    case Forwardslash => i < n - 1 && j > 0
  }

  /** How far the far end of a segment of `kind` is from its start node. */
  function Offset(n: nat, kind: Kind): int
  {
    match kind
    case Horizontal => 1
    case Vertical => n
    case Backslash => n + 1
    case Forwardslash => n - 1
  }

  /** The segment the pass for `kind` pushes at row i, column j. */
  function LineFrom(n: nat, kind: Kind, i: int, j: int): Line
  {
    var current := i * n + j;
    Line(current, current + Offset(n, kind))
  }

  /** The segments one pass adds for the first c columns of row i. */
  function PassRow(n: nat, kind: Kind, i: nat, c: nat): seq<Line>
  {
    if c == 0 then []
    else PassRow(n, kind, i, c - 1) + (if HasLine(n, kind, i, c - 1) then [LineFrom(n, kind, i, c - 1)] else [])
  }

  /** The segments one pass adds for the first r rows. */
  function Pass(n: nat, kind: Kind, r: nat): seq<Line>
  {
    if r == 0 then [] else Pass(n, kind, r - 1) + PassRow(n, kind, r - 1, n)
  }

  /** The canonical segment list: every horizontal, then every vertical, backslash
      and forward-slash segment. */
  function Lines(n: nat): seq<Line>
  {
    Pass(n, Horizontal, n) + Pass(n, Vertical, n) + Pass(n, Backslash, n) + Pass(n, Forwardslash, n)
  }

  /** Builds the segment list with one row-major scan that pushes into four lists. */
  method GenerateLines(n: nat) returns (lines: seq<Line>)
    ensures lines == Lines(n)
  {
    var horizontal, vertical, backslash, forwardslash := [], [], [], [];
    var i := 0;
    while i < n
      invariant 0 <= i <= n
      invariant horizontal == Pass(n, Horizontal, i) && vertical == Pass(n, Vertical, i)
      invariant backslash == Pass(n, Backslash, i) && forwardslash == Pass(n, Forwardslash, i)
    {
      var j := 0;
      while j < n
        invariant 0 <= j <= n
        invariant horizontal == Pass(n, Horizontal, i) + PassRow(n, Horizontal, i, j)
        invariant vertical == Pass(n, Vertical, i) + PassRow(n, Vertical, i, j)
        invariant backslash == Pass(n, Backslash, i) + PassRow(n, Backslash, i, j)
        invariant forwardslash == Pass(n, Forwardslash, i) + PassRow(n, Forwardslash, i, j)
      {
        var current := i * n + j;
        if j < n - 1 {
          horizontal := horizontal + [Line(current, current + 1)];
        }
        if i < n - 1 {
          vertical := vertical + [Line(current, current + n)];
        }
        if i < n - 1 && j < n - 1 {
          backslash := backslash + [Line(current, current + n + 1)];
        }
        if i < n - 1 && j > 0 {
          forwardslash := forwardslash + [Line(current, current + n - 1)];
        }
        j := j + 1;
      }
      i := i + 1;
    }
    lines := horizontal + vertical + backslash + forwardslash;
  }

  // ---------------------------------------------------------------------------
  // Counts

  /** How many segments a pass adds in the first c columns of row i. */
  function RowCount(n: nat, kind: Kind, i: int, c: nat): int
  {
    match kind
    case Horizontal => if c == n then n - 1 else c
    case Vertical => if i < n - 1 then c else 0
    case Backslash => if i < n - 1 then (if c == n then n - 1 else c) else 0
    case Forwardslash => if i < n - 1 && c > 0 then c - 1 else 0
  }

  /** How many segments a pass adds in its first r rows. */
  function PassCount(n: nat, kind: Kind, r: nat): int
  {
    match kind
    case Horizontal => r * (n - 1)
    case Vertical => (if r == n then r - 1 else r) * n
    case Backslash => (if r == n then r - 1 else r) * (n - 1)
    case Forwardslash => (if r == n then r - 1 else r) * (n - 1)
  }

  lemma {:induction false} RowLength(n: nat, kind: Kind, i: nat, c: nat)
    requires n >= 1 && c <= n
    ensures |PassRow(n, kind, i, c)| == RowCount(n, kind, i, c)
  {
    if c > 0 {
      RowLength(n, kind, i, c - 1);
    }
  }

  lemma {:induction false} PassLength(n: nat, kind: Kind, r: nat)
    requires n >= 1 && r <= n
    ensures |Pass(n, kind, r)| == PassCount(n, kind, r)
  {
    if r > 0 {
      PassLength(n, kind, r - 1);
      RowLength(n, kind, r - 1, n);
      match kind
      case Horizontal =>
        assert r * (n - 1) == (r - 1) * (n - 1) + (n - 1);
      case Vertical =>
        assert r * n == (r - 1) * n + n;
      case Backslash =>
        assert r * (n - 1) == (r - 1) * (n - 1) + (n - 1);
      case Forwardslash =>
        assert r * (n - 1) == (r - 1) * (n - 1) + (n - 1);
    }
  }

  /** Position in the canonical list where the pass for `kind` starts. */
  function GroupStart(n: nat, kind: Kind): int
  {
    match kind
    case Horizontal => 0
    case Vertical => n * (n - 1)
    case Backslash => 2 * (n * (n - 1))
    case Forwardslash => 2 * (n * (n - 1)) + (n - 1) * (n - 1)
  }

  /** The pass that the entry at position p of the canonical list comes from. */
  function GroupKind(n: nat, p: int): Kind
  {
    if p < GroupStart(n, Vertical) then Horizontal
    else if p < GroupStart(n, Backslash) then Vertical
    else if p < GroupStart(n, Forwardslash) then Backslash
    else Forwardslash
  }

  /** There are N(N-1) horizontal, N(N-1) vertical, (N-1)^2 backslash and (N-1)^2
      forward-slash segments, concatenated in that order. */
  lemma LinesCount(n: nat)
    requires n >= 1
    ensures |Pass(n, Horizontal, n)| == n * (n - 1) && |Pass(n, Vertical, n)| == n * (n - 1)
    ensures |Pass(n, Backslash, n)| == (n - 1) * (n - 1) && |Pass(n, Forwardslash, n)| == (n - 1) * (n - 1)
    ensures |Lines(n)| == 2 * n * (n - 1) + 2 * (n - 1) * (n - 1)
  {
    PassLength(n, Horizontal, n);
    PassLength(n, Vertical, n);
    PassLength(n, Backslash, n);
    PassLength(n, Forwardslash, n);
    assert (n - 1) * n == n * (n - 1);
  }

  // ---------------------------------------------------------------------------
  // Shape and order

  /** Segment l is the one the pass for `kind` pushes at the cell of its start node. */
  predicate Generated(n: nat, kind: Kind, l: Line)
  {
    n > 0 && 0 <= l.a < n * n && HasLine(n, kind, l.a / n, l.a % n) && l == LineFrom(n, kind, l.a / n, l.a % n)
  }

  /** Start nodes strictly increase along s: row-major order of the start cells. */
  predicate Increasing(s: seq<Line>)
  {
    forall p, q :: 0 <= p < q < |s| ==> s[p].a < s[q].a
  }

  lemma IncreasingConcat(s: seq<Line>, t: seq<Line>, m: int)
    requires Increasing(s) && Increasing(t)
    requires forall l :: l in s ==> l.a < m
    requires forall l :: l in t ==> m <= l.a
    ensures Increasing(s + t)
  {
    forall p, q | 0 <= p < q < |s + t| ensures (s + t)[p].a < (s + t)[q].a {
      if q < |s| {
      } else if p >= |s| {
        assert (s + t)[p] == t[p - |s|] && (s + t)[q] == t[q - |s|];
      } else {
        assert (s + t)[p] in s && (s + t)[q] in t;
      }
    }
  }

  lemma CellBelowSquare(n: nat, i: int, j: int)
    requires 0 <= i < n && 0 <= j < n
    ensures 0 <= i * n + j < n * n
  {
    MulMono(i + 1, n, n);
    MulMono(0, i, n);
  }

  lemma {:induction false} RowFacts(n: nat, kind: Kind, i: nat, c: nat)
    requires i < n && c <= n
    ensures Increasing(PassRow(n, kind, i, c))
    ensures forall l :: l in PassRow(n, kind, i, c) ==> Generated(n, kind, l) && i * n <= l.a < i * n + c
  {
    if c > 0 {
      RowFacts(n, kind, i, c - 1);
      var prev := PassRow(n, kind, i, c - 1);
      if HasLine(n, kind, i, c - 1) {
        var l := LineFrom(n, kind, i, c - 1);
        DivModCell(n, i, c - 1);
        CellBelowSquare(n, i, c - 1);
        assert Generated(n, kind, l);
        IncreasingConcat(prev, [l], i * n + c - 1);
      }
    }
  }

  lemma {:induction false} PassFacts(n: nat, kind: Kind, r: nat)
    requires r <= n
    ensures Increasing(Pass(n, kind, r))
    ensures forall l :: l in Pass(n, kind, r) ==> Generated(n, kind, l) && l.a < r * n
  {
    if r > 0 {
      PassFacts(n, kind, r - 1);
      RowFacts(n, kind, r - 1, n);
      assert (r - 1) * n + n == r * n;
      IncreasingConcat(Pass(n, kind, r - 1), PassRow(n, kind, r - 1, n), (r - 1) * n);
    }
  }

  /** Entry p of the canonical list, read off the pass it belongs to. */
  lemma LinesAt(n: nat, p: int)
    requires n >= 1 && 0 <= p < |Lines(n)|
    ensures var k := GroupKind(n, p);
      0 <= p - GroupStart(n, k) < |Pass(n, k, n)| && Lines(n)[p] == Pass(n, k, n)[p - GroupStart(n, k)]
  {
    LinesCount(n);
    var h, v, b, f := Pass(n, Horizontal, n), Pass(n, Vertical, n), Pass(n, Backslash, n), Pass(n, Forwardslash, n);
    var hv := h + v;
    var hvb := hv + b;
    assert Lines(n) == hvb + f;
    assert |hv| == GroupStart(n, Backslash) && |hvb| == GroupStart(n, Forwardslash);
    if p < |h| {
      assert hvb[p] == hv[p] == h[p];
    } else if p < |hv| {
      assert hvb[p] == hv[p] == v[p - |h|];
    } else if p < |hvb| {
      assert hvb[p] == b[p - |hv|];
    } else {
      assert (hvb + f)[p] == f[p - |hvb|];
    }
  }

  /** Every segment at a position in the canonical list is pushed by the pass
      its position belongs to, and starts and ends at grid nodes. */
  lemma LinesShape(n: nat)
    requires n >= 1
    ensures forall p :: 0 <= p < |Lines(n)| ==> Generated(n, GroupKind(n, p), Lines(n)[p])
  {
    forall p | 0 <= p < |Lines(n)| ensures Generated(n, GroupKind(n, p), Lines(n)[p]) {
      LinesAt(n, p);
      var k := GroupKind(n, p);
      PassFacts(n, k, n);
      assert Lines(n)[p] in Pass(n, k, n);
    }
  }

  /** Within one pass, the canonical list is in row-major order of start nodes. */
  lemma LinesOrdered(n: nat)
    requires n >= 1
    ensures forall p, q :: 0 <= p < q < |Lines(n)| && GroupKind(n, p) == GroupKind(n, q) ==> Lines(n)[p].a < Lines(n)[q].a
  {
    forall p, q | 0 <= p < q < |Lines(n)| && GroupKind(n, p) == GroupKind(n, q)
      ensures Lines(n)[p].a < Lines(n)[q].a
    {
      LinesAt(n, p);
      LinesAt(n, q);
      PassFacts(n, GroupKind(n, p), n);
    }
  }

  /** A generated segment joins two different grid nodes, smaller one first. */
  lemma GeneratedWellFormed(n: nat, kind: Kind, l: Line)
    requires Generated(n, kind, l)
    ensures 0 <= l.a < l.b < n * n
  {
    var i, j := Coordinates(n, l.a);
    var i', j' := FarEnd(n, kind, i, j);
    CellBelowSquare(n, i', j');
  }

  /** Every segment is `[a, b]` with `0 <= a < b < n * n`. */
  lemma LinesWellFormed(n: nat)
    ensures forall l :: l in Lines(n) ==> 0 <= l.a < l.b < n * n
  {
    if n >= 1 {
      LinesShape(n);
      forall l | l in Lines(n) ensures 0 <= l.a < l.b < n * n {
        var p :| 0 <= p < |Lines(n)| && Lines(n)[p] == l;
        GeneratedWellFormed(n, GroupKind(n, p), l);
      }
    }
  }

  /** Two passes never push the same segment from the same cell. */
  lemma KindDetermined(n: nat, k1: Kind, k2: Kind, i: int, j: int)
    requires 0 <= i < n && 0 <= j < n
    requires HasLine(n, k1, i, j) && HasLine(n, k2, i, j)
    requires LineFrom(n, k1, i, j) == LineFrom(n, k2, i, j)
    ensures k1 == k2
  {
  }

  /** Two segments name the same unordered pair of nodes. */
  predicate SamePair(l: Line, m: Line)
  {
    (l.a == m.a && l.b == m.b) || (l.a == m.b && l.b == m.a)
  }

  /** No two entries of the canonical list join the same pair of nodes. */
  lemma LinesDistinct(n: nat)
    ensures forall p, q :: 0 <= p < q < |Lines(n)| ==> !SamePair(Lines(n)[p], Lines(n)[q])
  {
    if n >= 1 {
      LinesShape(n);
      LinesOrdered(n);
      forall p, q | 0 <= p < q < |Lines(n)| ensures !SamePair(Lines(n)[p], Lines(n)[q]) {
        var l, m := Lines(n)[p], Lines(n)[q];
        var kl, km := GroupKind(n, p), GroupKind(n, q);
        assert Generated(n, kl, l) && Generated(n, km, m);
        GeneratedWellFormed(n, kl, l);
        GeneratedWellFormed(n, km, m);
        if l == m {
          RowBound(n, l.a);
          KindDetermined(n, kl, km, l.a / n, l.a % n);
        }
      }
    }
  }

  // ---------------------------------------------------------------------------
  // Completeness and adjacency

  lemma {:induction false} RowContains(n: nat, kind: Kind, i: nat, j: nat, c: nat)
    requires j < c && HasLine(n, kind, i, j)
    ensures LineFrom(n, kind, i, j) in PassRow(n, kind, i, c)
  {
    if j < c - 1 {
      RowContains(n, kind, i, j, c - 1);
    }
  }

  lemma {:induction false} PassContains(n: nat, kind: Kind, i: nat, j: nat, r: nat)
    requires i < r && j < n && HasLine(n, kind, i, j)
    ensures LineFrom(n, kind, i, j) in Pass(n, kind, r)
  {
    if i < r - 1 {
      PassContains(n, kind, i, j, r - 1);
    } else {
      RowContains(n, kind, i, j, n);
    }
  }

  /** Two different nodes of the grid whose rows and columns each differ by at most one. */
  predicate Neighbours(n: nat, s: int, e: int)
  {
    n > 0 && 0 <= s < n * n && 0 <= e < n * n && s != e &&
    -1 <= s / n - e / n <= 1 && -1 <= s % n - e % n <= 1
  }

  /** Row and column of a node of the grid. */
  lemma Coordinates(n: nat, k: int) returns (i: int, j: int)
    requires n > 0 && 0 <= k < n * n
    ensures i == k / n && j == k % n && k == i * n + j
    ensures 0 <= i < n && 0 <= j < n
  {
    i, j := k / n, k % n;
    RowBound(n, k);
  }

  /** The pass that joins neighbours a < b. */
  lemma NeighbourKind(n: nat, a: int, b: int) returns (kind: Kind)
    requires Neighbours(n, a, b) && a < b
    ensures HasLine(n, kind, a / n, a % n) && LineFrom(n, kind, a / n, a % n) == Line(a, b)
  {
    var i, j := Coordinates(n, a);
    var i', j' := Coordinates(n, b);
    if i' == i - 1 {
      assert false;
    }
    if i' == i {
      kind := Horizontal;
    } else {
      assert i' == i + 1;
      assert i' * n == i * n + n;
      if j' == j {
        kind := Vertical;
      } else if j' == j + 1 {
        kind := Backslash;
      } else {
        kind := Forwardslash;
      }
    }
  }

  /** Row and column of the far end of the segment pushed at row i, column j. */
  lemma FarEnd(n: nat, kind: Kind, i: int, j: int) returns (i': int, j': int)
    requires 0 <= i < n && 0 <= j < n && HasLine(n, kind, i, j)
    ensures LineFrom(n, kind, i, j).b == i' * n + j'
    ensures 0 <= i' < n && 0 <= j' < n && 0 <= i' - i <= 1 && -1 <= j' - j <= 1
  {
    if kind == Horizontal {
      i', j' := i, j + 1;
    } else {
      i' := i + 1;
      j' := match kind
        case Vertical => j
        case Backslash => j + 1
        case _ => j - 1;
      assert (i + 1) * n == i * n + n;
    }
  }

  /** Every generated segment joins neighbours. */
  lemma GeneratedNeighbours(n: nat, kind: Kind, l: Line)
    requires Generated(n, kind, l)
    ensures Neighbours(n, l.a, l.b)
  {
    GeneratedWellFormed(n, kind, l);
    var i, j := Coordinates(n, l.a);
    var i', j' := FarEnd(n, kind, i, j);
    DivModCell(n, i', j');
  }

  // ---------------------------------------------------------------------------
  // Lookup by unordered node pair

  /** Segment l joins node s and node e, in either order. */
  predicate Connects(l: Line, s: int, e: int)
  {
    (s == l.a && e == l.b) || (s == l.b && e == l.a)
  }

  /** The first position whose segment joins s and e, or -1 when there is none. */
  function LineIndex(lines: seq<Line>, s: int, e: int): (r: int)
    ensures -1 <= r < |lines|
    ensures r == -1 <==> forall k :: 0 <= k < |lines| ==> !Connects(lines[k], s, e)
    ensures r >= 0 ==> Connects(lines[r], s, e) && forall k :: 0 <= k < r ==> !Connects(lines[k], s, e)
  {
    if |lines| == 0 then -1
    else if Connects(lines[0], s, e) then 0
    else
      var r := LineIndex(lines[1..], s, e);
      if r == -1 then -1 else r + 1
  }

  /** Linear search with early exit, like the plugin's `getLineIndex`. */
  method GetLineIndex(lines: seq<Line>, s: int, e: int) returns (theLine: int)
    ensures theLine == LineIndex(lines, s, e)
  {
    theLine := -1;
    var i := 0;
    while i < |lines|
      invariant 0 <= i <= |lines|
      invariant forall k :: 0 <= k < i ==> !Connects(lines[k], s, e)
    {
      if (s == lines[i].a && e == lines[i].b) || (s == lines[i].b && e == lines[i].a) {
        theLine := i;
        return;
      }
      i := i + 1;
    }
  }

  /** Lookup does not depend on which node was clicked first. */
  lemma {:induction false} LineIndexSymmetric(lines: seq<Line>, s: int, e: int)
    ensures LineIndex(lines, s, e) == LineIndex(lines, e, s)
  {
  }

  /** No segment of a list without self-pairs joins a node to itself. */
  lemma LineIndexSelf(lines: seq<Line>, s: int)
    requires forall l :: l in lines ==> l.a != l.b
    ensures LineIndex(lines, s, s) == -1
  {
  }

  lemma GridLookupFound(n: nat, s: int, e: int)
    requires LineIndex(Lines(n), s, e) != -1
    ensures Neighbours(n, s, e)
  {
    var r := LineIndex(Lines(n), s, e);
    LinesShape(n);
    GeneratedNeighbours(n, GroupKind(n, r), Lines(n)[r]);
  }

  lemma PassInLines(n: nat, kind: Kind, l: Line)
    requires l in Pass(n, kind, n)
    ensures l in Lines(n)
  {
  }

  lemma ConnectedFound(lines: seq<Line>, l: Line, s: int, e: int)
    requires l in lines && Connects(l, s, e)
    ensures LineIndex(lines, s, e) != -1
  {
    var p :| 0 <= p < |lines| && lines[p] == l;
  }

  lemma GridLookupNeighbours(n: nat, s: int, e: int)
    requires Neighbours(n, s, e)
    ensures LineIndex(Lines(n), s, e) != -1
  {
    var a, b := if s < e then s else e, if s < e then e else s;
    var kind := NeighbourKind(n, a, b);
    var i, j := Coordinates(n, a);
    PassContains(n, kind, i, j, n);
    PassInLines(n, kind, Line(a, b));
    ConnectedFound(Lines(n), Line(a, b), s, e);
  }

  /** On the generated grid, lookup finds a segment exactly for neighbouring nodes,
      so a second click changes the picture exactly when it is next to the first. */
  lemma GridLookup(n: nat, s: int, e: int)
    ensures LineIndex(Lines(n), s, e) != -1 <==> Neighbours(n, s, e)
  {
    if LineIndex(Lines(n), s, e) != -1 {
      GridLookupFound(n, s, e);
    }
    if Neighbours(n, s, e) {
      GridLookupNeighbours(n, s, e);
    }
  }

  /** Clicking node 0 and then node 1 reaches the first segment of the list. */
  lemma FirstHorizontal(n: nat)
    requires n >= 2
    ensures LineIndex(Lines(n), 0, 1) == 0
  {
    DivModCell(n, 0, 0);
    PassContains(n, Horizontal, 0, 0, n);
    var h := Pass(n, Horizontal, n);
    assert LineFrom(n, Horizontal, 0, 0) == Line(0, 1);
    var q :| 0 <= q < |h| && h[q] == Line(0, 1);
    PassFacts(n, Horizontal, n);
    assert h[0].a >= 0 by {
      assert h[0] in h;
    }
    if q > 0 {
      assert false;
    }
    assert Lines(n)[0] == h[0];
  }

  /** The 2-by-2 grid has six segments: two horizontal, two vertical and one
      of each diagonal. */
  lemma TwoByTwoCount()
    ensures |Lines(2)| == 6
  {
    LinesCount(2);
  }

  /** The default 3-by-3 grid has 6 horizontal, 6 vertical, 4 backslash and
      4 forward-slash segments: 20 in all. */
  lemma ThreeByThreeCount()
    ensures |Lines(3)| == 20
  {
  }
}
