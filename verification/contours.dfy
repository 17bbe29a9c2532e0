/** Contour tracing: `get_outlines` of outline.py and `findOutlines` of
    web/outliner.js. Both compare every pixel with its right and lower
    neighbours, emit a unit edge between grid corners wherever they differ,
    and walk the edges into polylines, each edge consumed once. */
module Contours {
  import opened Results
  import opened Images
  import opened Paths
  import Vectors

  /** A pixel corner: the integral `Vector2(x, y)` values the tracer builds. */
  datatype Corner = Corner(x: int, y: int)

  /** An edge between two vertices. The source's `used` flag is not part of
      an edge's value (`__eq__`/`equals` and the hashes ignore it); the walk
      below keeps the used edges as a set of indices instead. */
  datatype Edge<V> = Edge(v1: V, v2: V)

  // ------------------------------------------------------------ edge set

  /** The edge between pixel (x, y) and its right neighbour. */
  function VerticalEdge(x: int, y: int): Edge<Corner> {
    Edge(Corner(x + 1, y), Corner(x + 1, y + 1))
  }

  /** The edge between pixel (x, y) and its lower neighbour. */
  function HorizontalEdge(x: int, y: int): Edge<Corner> {
    Edge(Corner(x, y + 1), Corner(x + 1, y + 1))
  }

  predicate IsVertical(e: Edge<Corner>) {
    e.v1.x == e.v2.x
  }

  /** Reference definition of the boundary: an edge belongs to it when it is
      the right or lower edge of an interior pixel (0 <= x < W-1,
      0 <= y < H-1) whose neighbour on the other side differs. Both kinds of
      edge end at the corner (x+1, y+1), which identifies the pixel. */
  predicate IsBoundaryEdge<P(==)>(g: Grid<P>, e: Edge<Corner>)
    requires Valid(g)
  {
    var x := e.v2.x - 1;
    var y := e.v2.y - 1;
    && 0 <= x && x + 1 < g.width && 0 <= y && y + 1 < g.height
    && ((e == VerticalEdge(x, y) && g.rows[y][x] != g.rows[y][x + 1]) ||
        (e == HorizontalEdge(x, y) && g.rows[y][x] != g.rows[y + 1][x]))
  }

  /** Pixel (x, y) differs from its right or from its lower neighbour. */
  predicate TransitionAt<P(==)>(g: Grid<P>, x: int, y: int)
    requires Valid(g) && 0 <= x && x + 1 < g.width && 0 <= y && y + 1 < g.height
  {
    g.rows[y][x] != g.rows[y][x + 1] || g.rows[y][x] != g.rows[y + 1][x]
  }

  /** The grid has no pair of differing neighbours at all. */
  predicate NoTransition<P(==)>(g: Grid<P>)
    requires Valid(g)
  {
    forall x, y :: 0 <= x && x + 1 < g.width && 0 <= y && y + 1 < g.height ==> !TransitionAt(g, x, y)
  }

  /** The order edges are emitted in: by row of the lower-right corner, then
      by column, the vertical edge of a pixel before its horizontal one. */
  predicate Before(a: Edge<Corner>, b: Edge<Corner>) {
    || a.v2.y < b.v2.y
    || (a.v2.y == b.v2.y && a.v2.x < b.v2.x)
    || (a.v2 == b.v2 && IsVertical(a) && !IsVertical(b))
  }

  predicate StrictlyOrdered(s: seq<Edge<Corner>>) {
    forall i, j :: 0 <= i < j < |s| ==> Before(s[i], s[j])
  }

  predicate Distinct<T(==)>(s: seq<T>) {
    forall i, j :: 0 <= i < j < |s| ==> s[i] != s[j]
  }

  lemma OrderedConcat(a: seq<Edge<Corner>>, b: seq<Edge<Corner>>)
    requires StrictlyOrdered(a) && StrictlyOrdered(b)
    requires forall e, f :: e in a && f in b ==> Before(e, f)
    ensures StrictlyOrdered(a + b)
  {
    forall i, j | 0 <= i < j < |a + b|
      ensures Before((a + b)[i], (a + b)[j])
    {
      if j < |a| {
      } else if i >= |a| {
        assert (a + b)[i] == b[i - |a|] && (a + b)[j] == b[j - |a|];
      } else {
        assert (a + b)[i] in a && (a + b)[j] in b;
      }
    }
  }

  /** The edges one pixel contributes, vertical first. */
  function CellEdges<P(==)>(g: Grid<P>, x: nat, y: nat): (r: seq<Edge<Corner>>)
    requires Valid(g) && x + 1 < g.width && y + 1 < g.height
    ensures forall e :: e in r <==> IsBoundaryEdge(g, e) && e.v2 == Corner(x + 1, y + 1)
    ensures StrictlyOrdered(r)
  {
    (if g.rows[y][x] != g.rows[y][x + 1] then [VerticalEdge(x, y)] else []) +
    (if g.rows[y][x] != g.rows[y + 1][x] then [HorizontalEdge(x, y)] else [])
  }

  /** The inner loop over x for one row y, from column x on. */
  function RowEdges<P(==)>(g: Grid<P>, y: nat, x: nat): (r: seq<Edge<Corner>>)
    requires Valid(g) && y + 1 < g.height
    ensures forall e :: e in r <==> IsBoundaryEdge(g, e) && e.v2.y == y + 1 && e.v2.x > x
    ensures StrictlyOrdered(r)
    decreases g.width - x
  {
    if x + 1 >= g.width then []
    else
      var here := CellEdges(g, x, y);
      var rest := RowEdges(g, y, x + 1);
      OrderedConcat(here, rest);
      here + rest
  }

  /** The outer loop over rows, from row y on. */
  function EdgesFrom<P(==)>(g: Grid<P>, y: nat): (r: seq<Edge<Corner>>)
    requires Valid(g)
    ensures forall e :: e in r <==> IsBoundaryEdge(g, e) && e.v2.y > y
    ensures StrictlyOrdered(r)
    decreases g.height - y
  {
    if y + 1 >= g.height then []
    else
      var row := RowEdges(g, y, 0);
      var rest := EdgesFrom(g, y + 1);
      OrderedConcat(row, rest);
      row + rest
  }

  /** The edge list both tracers build: exactly the boundary edges, each
      once; it is empty exactly when no two neighbours differ. */
  function GenerateEdges<P(==)>(g: Grid<P>): (r: seq<Edge<Corner>>)
    requires Valid(g)
    ensures forall e :: e in r <==> IsBoundaryEdge(g, e)
    ensures Distinct(r)
    ensures r == [] <==> NoTransition(g)
  {
    var r := EdgesFrom(g, 0);
    EmptyIffNoTransition(g, r);
    r
  }

  lemma EmptyIffNoTransition<P>(g: Grid<P>, r: seq<Edge<Corner>>)
    requires Valid(g)
    requires forall e :: e in r <==> IsBoundaryEdge(g, e)
    ensures r == [] <==> NoTransition(g)
  {
    if r != [] {
      var e := r[0];
      assert IsBoundaryEdge(g, e);
      assert TransitionAt(g, e.v2.x - 1, e.v2.y - 1);
    }
    if !NoTransition(g) {
      var x, y :| 0 <= x && x + 1 < g.width && 0 <= y && y + 1 < g.height && TransitionAt(g, x, y);
      if g.rows[y][x] != g.rows[y][x + 1] {
        assert IsBoundaryEdge(g, VerticalEdge(x, y));
      } else {
        assert IsBoundaryEdge(g, HorizontalEdge(x, y));
      }
    }
  }

  /** The per-pixel statement of edge generation: a vertical edge is emitted
      exactly when a pixel differs from its right neighbour, a horizontal one
      exactly when it differs from the one below. */
  lemma EdgeEmittedIff<P>(g: Grid<P>, x: int, y: int)
    requires Valid(g) && 0 <= x && x + 1 < g.width && 0 <= y && y + 1 < g.height
    ensures VerticalEdge(x, y) in GenerateEdges(g) <==> g.rows[y][x] != g.rows[y][x + 1]
    ensures HorizontalEdge(x, y) in GenerateEdges(g) <==> g.rows[y][x] != g.rows[y + 1][x]
  {
    var edges := GenerateEdges(g);
    var v, h := VerticalEdge(x, y), HorizontalEdge(x, y);
    assert v != h by { assert v.v1.x != h.v1.x; }
    assert v in edges <==> IsBoundaryEdge(g, v);
    assert h in edges <==> IsBoundaryEdge(g, h);
  }

  /** Boundary edges point right or down from `v1` to `v2`. */
  predicate IsCanonical(e: Edge<Corner>) {
    e.v1 != e.v2 && e.v1.x <= e.v2.x && e.v1.y <= e.v2.y
  }

  lemma BoundaryEdgesCanonical<P>(g: Grid<P>)
    requires Valid(g)
    ensures forall e :: e in GenerateEdges(g) ==> IsCanonical(e)
  {
  }

  /** The canonical (right/down pointing) edge with endpoints a and b. */
  function Canonical(a: Corner, b: Corner): Edge<Corner> {
    if a.x <= b.x && a.y <= b.y then Edge(a, b) else Edge(b, a)
  }

  // ------------------------------------------------------------ walk

  predicate Incident<V(==)>(e: Edge<V>, v: V) {
    e.v1 == v || e.v2 == v
  }

  /** The edge joins a and b, in either direction. */
  predicate Joins<V(==)>(e: Edge<V>, a: V, b: V) {
    (a == e.v1 && b == e.v2) || (a == e.v2 && b == e.v1)
  }

  /** `edgemap[v]`, the default-empty list of a `defaultdict(list)`. */
  function Lookup<V>(m: map<V, seq<nat>>, v: V): seq<nat> {
    if v in m then m[v] else []
  }

  /** `edgemap[v].append(i)` on a `defaultdict(list)`. */
  function Append<V>(m: map<V, seq<nat>>, v: V, i: nat): (r: map<V, seq<nat>>)
    ensures v in r && r[v] == Lookup(m, v) + [i]
    ensures forall w :: w in r && w != v ==> w in m
    ensures forall w :: w in m && w != v ==> w in r && r[w] == m[w]
  {
    m[v := Lookup(m, v) + [i]]
  }

  /** The `edgemap` built from the first n edges: each edge index is appended
      under its v1 and then under its v2, in edge order, so a vertex maps to
      exactly the edges that touch it. */
  function EdgeMap<V(==)>(edges: seq<Edge<V>>, n: nat): (m: map<V, seq<nat>>)
    requires n <= |edges|
    ensures forall v, j :: v in m && 0 <= j < |m[v]| ==> m[v][j] < n && Incident(edges[m[v][j]], v)
    ensures forall i :: 0 <= i < n ==> edges[i].v1 in m && i in m[edges[i].v1]
    ensures forall i :: 0 <= i < n ==> edges[i].v2 in m && i in m[edges[i].v2]
  {
    if n == 0 then map[]
    else
      var m := EdgeMap(edges, n - 1);
      AddEdge(edges, m, n);
      Append(Append(m, edges[n - 1].v1, n - 1), edges[n - 1].v2, n - 1)
  }

  /** Listing edge n-1 under both its ends extends the map of the first n-1
      edges to the map of the first n. */
  lemma AddEdge<V>(edges: seq<Edge<V>>, m: map<V, seq<nat>>, n: nat)
    requires 0 < n <= |edges|
    requires forall v, j :: v in m && 0 <= j < |m[v]| ==> m[v][j] < n - 1 && Incident(edges[m[v][j]], v)
    requires forall i :: 0 <= i < n - 1 ==> edges[i].v1 in m && i in m[edges[i].v1]
    requires forall i :: 0 <= i < n - 1 ==> edges[i].v2 in m && i in m[edges[i].v2]
    ensures var m2 := Append(Append(m, edges[n - 1].v1, n - 1), edges[n - 1].v2, n - 1);
      && (forall v, j :: v in m2 && 0 <= j < |m2[v]| ==> m2[v][j] < n && Incident(edges[m2[v][j]], v))
      && (forall i :: 0 <= i < n ==> edges[i].v1 in m2 && i in m2[edges[i].v1])
      && (forall i :: 0 <= i < n ==> edges[i].v2 in m2 && i in m2[edges[i].v2])
  {
    var e := edges[n - 1];
    var m1 := Append(m, e.v1, n - 1);
    var m2 := Append(m1, e.v2, n - 1);
    AppendSound(edges, m, e.v1, n - 1, n);
    AppendSound(edges, m1, e.v2, n - 1, n);
    AppendKeeps(m, e.v1, n - 1);
    AppendKeeps(m1, e.v2, n - 1);
    forall i | 0 <= i < n
      ensures edges[i].v1 in m2 && i in m2[edges[i].v1] && edges[i].v2 in m2 && i in m2[edges[i].v2]
    {
      if i < n - 1 {
        assert edges[i].v1 in m && i in m[edges[i].v1];
        assert edges[i].v2 in m && i in m[edges[i].v2];
      } else {
        assert m1[e.v1] == Lookup(m, e.v1) + [i];
        assert m2[e.v2] == Lookup(m1, e.v2) + [i];
      }
    }
  }

  /** Appending never removes an index already listed under a vertex. */
  lemma AppendKeeps<V>(m: map<V, seq<nat>>, v: V, k: nat)
    ensures forall w, i: nat :: w in m && i in m[w] ==> w in Append(m, v, k) && i in Append(m, v, k)[w]
  {
    var r := Append(m, v, k);
    forall w, i: nat | w in m && i in m[w]
      ensures w in r && i in r[w]
    {
      if w == v {
        assert r[w] == m[w] + [k];
      }
    }
  }

  /** Appending an edge index under one of its endpoints keeps every entry of
      the map an edge that touches its key. */
  lemma AppendSound<V>(edges: seq<Edge<V>>, m: map<V, seq<nat>>, v: V, k: nat, n: nat)
    requires k < n <= |edges| && (edges[k].v1 == v || edges[k].v2 == v)
    requires forall w, j :: w in m && 0 <= j < |m[w]| ==> m[w][j] < n && Incident(edges[m[w][j]], w)
    ensures var r := Append(m, v, k);
      forall w, j :: w in r && 0 <= j < |r[w]| ==> r[w][j] < n && Incident(edges[r[w][j]], w)
  {
    var r := Append(m, v, k);
    forall w, j | w in r && 0 <= j < |r[w]|
      ensures r[w][j] < n && Incident(edges[r[w][j]], w)
    {
      if w == v && j < |Lookup(m, v)| {
        assert v in m && r[w][j] == m[v][j];
      } else if w != v {
        assert w in m && r[w] == m[w];
      }
    }
  }

  /** The first entry of `list` not yet used (`connected_edges[0]`), or None
      when every entry is used. */
  function FirstUnused(list: seq<nat>, used: set<nat>): (r: Option<nat>)
    ensures r.None? <==> forall i :: i in list ==> i in used
    ensures r.Some? ==> r.value in list && r.value !in used
  {
    if |list| == 0 then None
    else if list[0] !in used then Some(list[0])
    else FirstUnused(list[1..], used)
  }

  /** The first edge left after filtering out the used ones (`edges[0]` of the
      filtered list), or None when all n edges are used. */
  function LeastUnused(n: nat, used: set<nat>): (r: Option<nat>)
    ensures r.None? <==> forall i :: 0 <= i < n ==> i in used
    ensures r.Some? ==> r.value < n && r.value !in used && forall j :: 0 <= j < r.value ==> j in used
  {
    LeastUnusedFrom(0, n, used)
  }

  function LeastUnusedFrom(k: nat, n: nat, used: set<nat>): (r: Option<nat>)
    requires forall j :: 0 <= j < k ==> j in used
    ensures r.None? <==> forall i :: 0 <= i < n ==> i in used
    ensures r.Some? ==> r.value < n && r.value !in used && forall j :: 0 <= j < r.value ==> j in used
    decreases n - k
  {
    if k >= n then None
    else if k !in used then Some(k)
    else LeastUnusedFrom(k + 1, n, used)
  }

  /** The indices 0 .. n-1. */
  function Indices(n: nat): (r: set<nat>)
    ensures forall i: nat :: i in r <==> i < n
  {
    if n == 0 then {} else Indices(n - 1) + {n - 1}
  }

  function Flatten<T>(ss: seq<seq<T>>): seq<T> {
    if |ss| == 0 then [] else Flatten(ss[..|ss| - 1]) + ss[|ss| - 1]
  }

  /** `steps[k]` is the index of an edge joining `vertices[k]` and
      `vertices[k+1]`. */
  predicate StepsJoin<V(==)>(edges: seq<Edge<V>>, vertices: seq<V>, steps: seq<nat>) {
    |vertices| == |steps| + 1 &&
    forall k :: 0 <= k < |steps| ==>
      steps[k] < |edges| && Joins(edges[steps[k]], vertices[k], vertices[k + 1])
  }

  /** Every finished path has at least one step and follows its trail. */
  predicate PathsJoin<V(==)>(edges: seq<Edge<V>>, paths: seq<seq<V>>, trail: seq<seq<nat>>) {
    |paths| == |trail| &&
    forall p :: 0 <= p < |paths| ==> |trail[p]| >= 1 && StepsJoin(edges, paths[p], trail[p])
  }

  lemma ExtendJoins<V>(edges: seq<Edge<V>>, vertices: seq<V>, steps: seq<nat>, e: nat, vertex: V)
    requires StepsJoin(edges, vertices, steps)
    requires e < |edges| && Joins(edges[e], vertices[|vertices| - 1], vertex)
    ensures StepsJoin(edges, vertices + [vertex], steps + [e])
  {
    var vs, ss := vertices + [vertex], steps + [e];
    forall k | 0 <= k < |ss|
      ensures ss[k] < |edges| && Joins(edges[ss[k]], vs[k], vs[k + 1])
    {
      if k < |steps| {
        assert ss[k] == steps[k] && vs[k] == vertices[k] && vs[k + 1] == vertices[k + 1];
      }
    }
  }

  lemma CloseJoins<V>(edges: seq<Edge<V>>, paths: seq<seq<V>>, trail: seq<seq<nat>>, vertices: seq<V>, steps: seq<nat>)
    requires PathsJoin(edges, paths, trail) && StepsJoin(edges, vertices, steps) && |steps| >= 1
    ensures PathsJoin(edges, paths + [vertices], trail + [steps])
  {
    var ps, ts := paths + [vertices], trail + [steps];
    forall p | 0 <= p < |ps|
      ensures |ts[p]| >= 1 && StepsJoin(edges, ps[p], ts[p])
    {
      if p < |paths| {
        assert ps[p] == paths[p] && ts[p] == trail[p];
      }
    }
  }

  lemma FlattenSnoc<T>(ss: seq<seq<T>>, s: seq<T>)
    ensures Flatten(ss + [s]) == Flatten(ss) + s
  {
    assert (ss + [s])[..|ss|] == ss;
  }

  /** The end of `e` that is not `v`. */
  function Other<V(==)>(e: Edge<V>, v: V): V {
    if e.v1 == v then e.v2 else e.v1
  }

  /** An edge listed under a vertex leads from it to its other end. */
  lemma ConnectedJoins<V>(edges: seq<Edge<V>>, edgemap: map<V, seq<nat>>, vertex: V, e: nat)
    requires edgemap == EdgeMap(edges, |edges|) && e in Lookup(edgemap, vertex)
    ensures e < |edges| && Joins(edges[e], vertex, Other(edges[e], vertex))
  {
    var j :| 0 <= j < |edgemap[vertex]| && edgemap[vertex][j] == e;
  }

  /** Reversing a path and its trail keeps every step on its edge and
      consumes the same edges. */
  lemma ReverseJoins<V>(edges: seq<Edge<V>>, vertices: seq<V>, steps: seq<nat>)
    requires StepsJoin(edges, vertices, steps)
    ensures StepsJoin(edges, Reversed(vertices), Reversed(steps))
    ensures multiset(Reversed(steps)) == multiset(steps)
  {
    ReverseKeepsSteps(edges, vertices, steps);
    ReversedMultiset(steps);
  }

  function Last<T>(s: seq<T>): T
    requires |s| > 0
  {
    s[|s| - 1]
  }

  /** The walk's state just after `edge.used = True; vertices.append(vertex)`:
      every used edge is a real edge, the current path follows its (non-empty)
      trail, the finished paths follow theirs, and the edges consumed so far
      are exactly the used ones, each once. */
  predicate Consumed<V(==)>(edges: seq<Edge<V>>, used: set<nat>, vertices: seq<V>, steps: seq<nat>,
                             paths: seq<seq<V>>, trail: seq<seq<nat>>) {
    (forall i :: i in used ==> i < |edges|) &&
    StepsJoin(edges, vertices, steps) && |steps| >= 1 &&
    PathsJoin(edges, paths, trail) &&
    multiset(Flatten(trail)) + multiset(steps) == multiset(used)
  }

  /** The walk's state at the top of the loop: `edge` (index e) is unused and
      joins the end of the current path to `vertex`. */
  predicate Walking<V(==)>(edges: seq<Edge<V>>, used: set<nat>, e: nat, vertices: seq<V>, steps: seq<nat>,
                            vertex: V, paths: seq<seq<V>>, trail: seq<seq<nat>>) {
    (forall i :: i in used ==> i < |edges|) &&
    e < |edges| && e !in used &&
    StepsJoin(edges, vertices, steps) &&
    Joins(edges[e], Last(vertices), vertex) &&
    PathsJoin(edges, paths, trail) &&
    multiset(Flatten(trail)) + multiset(steps) == multiset(used)
  }

  lemma ConsumeStep<V>(edges: seq<Edge<V>>, used: set<nat>, e: nat, vertices: seq<V>, steps: seq<nat>,
                       vertex: V, paths: seq<seq<V>>, trail: seq<seq<nat>>)
    requires Walking(edges, used, e, vertices, steps, vertex, paths, trail)
    ensures Consumed(edges, used + {e}, vertices + [vertex], steps + [e], paths, trail)
  {
    ExtendJoins(edges, vertices, steps, e, vertex);
    assert multiset(used + {e}) == multiset(used) + multiset{e};
  }

  lemma TurnStep<V>(edges: seq<Edge<V>>, used: set<nat>, vertices: seq<V>, steps: seq<nat>,
                    paths: seq<seq<V>>, trail: seq<seq<nat>>)
    requires Consumed(edges, used, vertices, steps, paths, trail)
    ensures Consumed(edges, used, Reversed(vertices), Reversed(steps), paths, trail)
  {
    ReverseJoins(edges, vertices, steps);
  }

  lemma ContinueStep<V>(edges: seq<Edge<V>>, edgemap: map<V, seq<nat>>, used: set<nat>, c: nat,
                        vertices: seq<V>, steps: seq<nat>, paths: seq<seq<V>>, trail: seq<seq<nat>>)
    requires Consumed(edges, used, vertices, steps, paths, trail)
    requires edgemap == EdgeMap(edges, |edges|) && c in Lookup(edgemap, Last(vertices)) && c !in used
    ensures Walking(edges, used, c, vertices, steps, Other(edges[c], Last(vertices)), paths, trail)
  {
    ConnectedJoins(edges, edgemap, Last(vertices), c);
  }

  lemma RestartStep<V>(edges: seq<Edge<V>>, used: set<nat>, r: nat, vertices: seq<V>, steps: seq<nat>,
                       paths: seq<seq<V>>, trail: seq<seq<nat>>)
    requires Consumed(edges, used, vertices, steps, paths, trail)
    requires r < |edges| && r !in used
    ensures Walking(edges, used, r, [edges[r].v1], [], edges[r].v2, paths + [vertices], trail + [steps])
  {
    CloseJoins(edges, paths, trail, vertices, steps);
    FlattenSnoc(trail, steps);
  }

  lemma FinishStep<V>(edges: seq<Edge<V>>, used: set<nat>, vertices: seq<V>, steps: seq<nat>,
                      paths: seq<seq<V>>, trail: seq<seq<nat>>)
    requires Consumed(edges, used, vertices, steps, paths, trail)
    requires forall i :: 0 <= i < |edges| ==> i in used
    ensures PathsJoin(edges, paths + [vertices], trail + [steps])
    ensures multiset(Flatten(trail + [steps])) == multiset(Indices(|edges|))
  {
    CloseJoins(edges, paths, trail, vertices, steps);
    FlattenSnoc(trail, steps);
    assert used == Indices(|edges|);
  }

  /** Where the walk goes next: the index of the edge about to be consumed,
      the current path and its trail, the vertex that edge leads to, and the
      finished paths with their trails. */
  datatype Walker<V> = Walker(e: nat, vertices: seq<V>, steps: seq<nat>, vertex: V,
                              paths: seq<seq<V>>, trail: seq<seq<nat>>)

  /** The choice made after consuming an edge: continue across the first
      unused edge at the end of the path; otherwise, when some edge is still
      unused, reverse the path and continue from its other end, or else start
      a new path at the first unused edge. None when every edge is used. */
  method Advance<V(==)>(edges: seq<Edge<V>>, edgemap: map<V, seq<nat>>, used: set<nat>,
                        vertices: seq<V>, steps: seq<nat>, paths: seq<seq<V>>, trail: seq<seq<nat>>)
    returns (next: Option<Walker<V>>)
    requires edgemap == EdgeMap(edges, |edges|)
    requires Consumed(edges, used, vertices, steps, paths, trail)
    ensures next.None? ==> forall i :: 0 <= i < |edges| ==> i in used
    ensures next.Some? ==> var w := next.value;
      Walking(edges, used, w.e, w.vertices, w.steps, w.vertex, w.paths, w.trail)
  {
    var connected := FirstUnused(Lookup(edgemap, Last(vertices)), used);
    if connected.Some? {
      // Extend the current path across the first unused incident edge.
      var c := connected.value;
      ContinueStep(edges, edgemap, used, c, vertices, steps, paths, trail);
      return Some(Walker(c, vertices, steps, Other(edges[c], Last(vertices)), paths, trail));
    }
    // End of this path; stop when no edge is left.
    var remaining := LeastUnused(|edges|, used);
    if remaining.None? {
      return None;
    }
    // Try to continue from the other end of the path.
    TurnStep(edges, used, vertices, steps, paths, trail);
    var rv, rs := Reversed(vertices), Reversed(steps);
    connected := FirstUnused(Lookup(edgemap, Last(rv)), used);
    if connected.Some? {
      var c := connected.value;
      ContinueStep(edges, edgemap, used, c, rv, rs, paths, trail);
      return Some(Walker(c, rv, rs, Other(edges[c], Last(rv)), paths, trail));
    }
    // Start a new path at the first unused edge.
    var r := remaining.value;
    RestartStep(edges, used, r, rv, rs, paths, trail);
    return Some(Walker(r, [edges[r].v1], [], edges[r].v2, paths + [rv], trail + [rs]));
  }

  /** The walk shared by both tracers. `trail[p][k]` is the index of the edge
      consumed between `paths[p][k]` and `paths[p][k+1]`; the source records
      this only by setting `used`. Every path has at least two vertices, every
      step crosses the edge it consumed, and every edge is consumed exactly
      once. */
  method Walk<V(==)>(edges: seq<Edge<V>>) returns (paths: seq<seq<V>>, trail: seq<seq<nat>>)
    requires |edges| > 0
    ensures |paths| >= 1 && PathsJoin(edges, paths, trail)
    ensures multiset(Flatten(trail)) == multiset(Indices(|edges|))
  {
    var n := |edges|;
    var edgemap := EdgeMap(edges, n);
    var used: set<nat> := {};
    // Start at the first edge.
    var w := Walker(0, [edges[0].v1], [], edges[0].v2, [], []);
    while true
      invariant Walking(edges, used, w.e, w.vertices, w.steps, w.vertex, w.paths, w.trail)
      decreases Indices(n) - used
    {
      ConsumeStep(edges, used, w.e, w.vertices, w.steps, w.vertex, w.paths, w.trail);
      used := used + {w.e};
      var vertices, steps := w.vertices + [w.vertex], w.steps + [w.e];
      var next := Advance(edges, edgemap, used, vertices, steps, w.paths, w.trail);
      if next.None? {
        FinishStep(edges, used, vertices, steps, w.paths, w.trail);
        return w.paths + [vertices], w.trail + [steps];
      }
      w := next.value;
    }
  }

  /** Reversing a path together with its steps keeps every step on its edge. */
  lemma ReverseKeepsSteps<V>(edges: seq<Edge<V>>, vertices: seq<V>, steps: seq<nat>)
    requires |vertices| == |steps| + 1
    requires forall k :: 0 <= k < |steps| ==>
      steps[k] < |edges| && Joins(edges[steps[k]], vertices[k], vertices[k + 1])
    ensures forall k :: 0 <= k < |steps| ==>
      Reversed(steps)[k] < |edges| && Joins(edges[Reversed(steps)[k]], Reversed(vertices)[k], Reversed(vertices)[k + 1])
  {
    var L, rs, rv := |steps|, Reversed(steps), Reversed(vertices);
    forall k | 0 <= k < L
      ensures rs[k] < |edges| && Joins(edges[rs[k]], rv[k], rv[k + 1])
    {
      var j := L - 1 - k;
      assert steps[j] < |edges| && Joins(edges[steps[j]], vertices[j], vertices[j + 1]);
      assert rs[k] == steps[j] && rv[k] == vertices[j + 1] && rv[k + 1] == vertices[j];
    }
  }

  // ------------------------------------------------------------ tracing

  /** The canonical edge each step of a path crosses. */
  function PathSteps(vs: seq<Corner>): (r: seq<Edge<Corner>>)
    ensures |r| == if |vs| < 2 then 0 else |vs| - 1
  {
    if |vs| < 2 then [] else seq(|vs| - 1, k requires 0 <= k < |vs| - 1 => Canonical(vs[k], vs[k + 1]))
  }

  /** The canonical edges crossed by all paths, path after path. */
  function StepEdges(paths: seq<seq<Corner>>): seq<Edge<Corner>> {
    if |paths| == 0 then [] else StepEdges(paths[..|paths| - 1]) + PathSteps(paths[|paths| - 1])
  }

  /** The paths trace the boundary of g: together they cross every boundary
      edge, exactly once, and nothing else. */
  ghost predicate TracesBoundary<P>(g: Grid<P>, paths: seq<seq<Corner>>)
    requires Valid(g)
  {
    && (forall p :: 0 <= p < |paths| ==> |paths[p]| >= 2)
    && Distinct(StepEdges(paths))
    && (forall e :: e in StepEdges(paths) <==> IsBoundaryEdge(g, e))
  }

  /** Every index in idx is below n. */
  predicate Below(idx: seq<nat>, n: nat) {
    forall k :: 0 <= k < |idx| ==> idx[k] < n
  }

  /** The elements of s at the positions idx, in that order. */
  function Pick<T>(s: seq<T>, idx: seq<nat>): (r: seq<T>)
    requires Below(idx, |s|)
    ensures |r| == |idx| && forall k :: 0 <= k < |idx| ==> r[k] == s[idx[k]]
  {
    seq(|idx|, k requires 0 <= k < |idx| => s[idx[k]])
  }

  /** A step along a canonical edge names that edge, whichever way it runs. */
  lemma CanonicalOfJoin(e: Edge<Corner>, a: Corner, b: Corner)
    requires IsCanonical(e) && Joins(e, a, b)
    ensures Canonical(a, b) == e
  {
  }

  lemma StepsArePicks(edges: seq<Edge<Corner>>, vs: seq<Corner>, ss: seq<nat>)
    requires forall e :: e in edges ==> IsCanonical(e)
    requires StepsJoin(edges, vs, ss)
    ensures PathSteps(vs) == Pick(edges, ss)
  {
    forall k | 0 <= k < |ss|
      ensures PathSteps(vs)[k] == edges[ss[k]]
    {
      CanonicalOfJoin(edges[ss[k]], vs[k], vs[k + 1]);
    }
  }

  lemma PickConcat<T>(s: seq<T>, a: seq<nat>, b: seq<nat>)
    requires Below(a, |s|) && Below(b, |s|)
    ensures Below(a + b, |s|) && Pick(s, a + b) == Pick(s, a) + Pick(s, b)
  {
    assert forall k :: 0 <= k < |a + b| ==> (a + b)[k] == if k < |a| then a[k] else b[k - |a|];
  }

  lemma PathsJoinPrefix<V>(edges: seq<Edge<V>>, paths: seq<seq<V>>, trail: seq<seq<nat>>, m: nat)
    requires PathsJoin(edges, paths, trail) && m <= |paths|
    ensures PathsJoin(edges, paths[..m], trail[..m])
  {
    var ps, ts := paths[..m], trail[..m];
    forall p | 0 <= p < |ps|
      ensures |ts[p]| >= 1 && StepsJoin(edges, ps[p], ts[p])
    {
      assert ps[p] == paths[p] && ts[p] == trail[p];
    }
  }

  lemma {:induction false} AllStepsArePicks(edges: seq<Edge<Corner>>, paths: seq<seq<Corner>>, trail: seq<seq<nat>>)
    requires forall e :: e in edges ==> IsCanonical(e)
    requires PathsJoin(edges, paths, trail)
    ensures Below(Flatten(trail), |edges|)
    ensures StepEdges(paths) == Pick(edges, Flatten(trail))
  {
    if |paths| > 0 {
      var m := |paths| - 1;
      PathsJoinPrefix(edges, paths, trail, m);
      AllStepsArePicks(edges, paths[..m], trail[..m]);
      StepsArePicks(edges, paths[m], trail[m]);
      PickConcat(edges, Flatten(trail[..m]), trail[m]);
    }
  }

  /** A sequence with the multiset of {0, ..., n-1} lists each of those
      indices exactly once. */
  lemma PermutationOfIndices(idx: seq<nat>, n: nat)
    requires multiset(idx) == multiset(Indices(n))
    ensures Distinct(idx)
    ensures forall i: nat :: i in idx <==> i < n
  {
    forall a, b | 0 <= a < b < |idx|
      ensures idx[a] != idx[b]
    {
      var x := idx[b];
      assert idx == idx[..b] + [x] + idx[b + 1..];
      assert multiset(idx)[x] >= multiset(idx[..b])[x] + 1;
      assert multiset(Indices(n))[x] <= 1;
      assert idx[a] in idx[..b];
    }
    forall i: nat
      ensures i in idx <==> i < n
    {
      assert i in idx <==> i in multiset(idx);
      assert i in multiset(Indices(n)) <==> i in Indices(n);
    }
  }

  lemma PickPermutation<T>(s: seq<T>, idx: seq<nat>)
    requires Distinct(s) && Distinct(idx)
    requires forall i: nat :: i in idx <==> i < |s|
    ensures Below(idx, |s|)
    ensures Distinct(Pick(s, idx))
    ensures forall x :: x in Pick(s, idx) <==> x in s
  {
    assert forall k :: 0 <= k < |idx| ==> idx[k] in idx;
    var r := Pick(s, idx);
    forall x | x in s
      ensures x in r
    {
      var i :| 0 <= i < |s| && s[i] == x;
      assert i in idx;
      var k :| 0 <= k < |idx| && idx[k] == i;
      assert r[k] == x;
    }
  }

  /** The walk over the boundary edges of g traces that boundary. */
  lemma WalkTracesBoundary<P>(g: Grid<P>, edges: seq<Edge<Corner>>, paths: seq<seq<Corner>>, trail: seq<seq<nat>>)
    requires Valid(g) && edges == GenerateEdges(g)
    requires PathsJoin(edges, paths, trail)
    requires multiset(Flatten(trail)) == multiset(Indices(|edges|))
    ensures TracesBoundary(g, paths)
  {
    BoundaryEdgesCanonical(g);
    AllStepsArePicks(edges, paths, trail);
    PermutationOfIndices(Flatten(trail), |edges|);
    PickPermutation(edges, Flatten(trail));
  }

  /** `get_outlines`: the PIL tracer. An image with no differing neighbours
      has no edges, and `edges[0]` raises IndexError. */
  method GetOutlines<P(==)>(g: Grid<P>) returns (r: Result<seq<seq<Corner>>, string>)
    requires Valid(g)
    ensures r.Failure? <==> NoTransition(g)
    ensures r.Success? ==> |r.value| >= 1 && TracesBoundary(g, r.value)
  {
    var edges := GenerateEdges(g);
    if |edges| == 0 {
      return Failure("list index out of range");
    }
    var paths, trail := Walk(edges);
    WalkTracesBoundary(g, edges, paths, trail);
    return Success(paths);
  }

  /** The colour of a canvas pixel without its alpha, which the web tracer
      does not compare. */
  datatype Rgb = Rgb(r: Byte, g: Byte, b: Byte)

  function Opaque(g: Grid<Rgba>): (r: Grid<Rgb>)
    requires Valid(g)
    ensures Valid(r) && r.width == g.width && r.height == g.height
    ensures forall y, x :: 0 <= y < r.height && 0 <= x < r.width ==>
      r.rows[y][x] == Rgb(g.rows[y][x].r, g.rows[y][x].g, g.rows[y][x].b)
  {
    Grid(g.width, g.height,
         seq(g.height, y requires 0 <= y < g.height =>
           seq(g.width, x requires 0 <= x < g.width =>
             Rgb(g.rows[y][x].r, g.rows[y][x].g, g.rows[y][x].b))))
  }

  /** What `findOutlines` returns: `[]` when there are no edges, otherwise a
      `Paths` object. */
  datatype Outlines = EmptyArray | PathsObject(paths: seq<Path<Corner>>)

  function Vertices(ps: seq<Path<Corner>>): (r: seq<seq<Corner>>)
    ensures |r| == |ps| && forall p :: 0 <= p < |ps| ==> r[p] == ps[p].vertices
  {
    seq(|ps|, p requires 0 <= p < |ps| => ps[p].vertices)
  }

  /** `findOutlines`: the canvas tracer. */
  method FindOutlines(g: Grid<Rgba>) returns (r: Outlines)
    requires Valid(g)
    ensures r.EmptyArray? <==> NoTransition(Opaque(g))
    ensures r.PathsObject? ==> |r.paths| >= 1 && TracesBoundary(Opaque(g), Vertices(r.paths))
  {
    var rgb := Opaque(g);
    var edges := GenerateEdges(rgb);
    if |edges| == 0 {
      return EmptyArray;
    }
    var paths, trail := Walk(edges);
    WalkTracesBoundary(rgb, edges, paths, trail);
    var objects := seq(|paths|, p requires 0 <= p < |paths| => Path(paths[p]));
    assert Vertices(objects) == paths;
    return PathsObject(objects);
  }

  /** The web tracer separates two pixels exactly when their red, green or
      blue bytes differ; alpha never matters. */
  lemma WebEdgeIff(g: Grid<Rgba>, x: int, y: int)
    requires Valid(g) && 0 <= x && x + 1 < g.width && 0 <= y && y + 1 < g.height
    ensures VerticalEdge(x, y) in GenerateEdges(Opaque(g)) <==>
      (g.rows[y][x].r != g.rows[y][x + 1].r || g.rows[y][x].g != g.rows[y][x + 1].g ||
       g.rows[y][x].b != g.rows[y][x + 1].b)
    ensures HorizontalEdge(x, y) in GenerateEdges(Opaque(g)) <==>
      (g.rows[y][x].r != g.rows[y + 1][x].r || g.rows[y][x].g != g.rows[y + 1][x].g ||
       g.rows[y][x].b != g.rows[y + 1][x].b)
  {
    EdgeEmittedIff(Opaque(g), x, y);
  }

  /** An edge object of web/outliner.js, with the `used` flag the walk
      sets. */
  datatype FlaggedEdge = FlaggedEdge(v1: Vectors.Vec2, v2: Vectors.Vec2, used: bool)

  /** `Edge.equals`: both endpoints equal, whatever the flags say. */
  function EdgeEquals(a: FlaggedEdge, b: FlaggedEdge): (r: bool)
    ensures r <==> Edge(a.v1, a.v2) == Edge(b.v1, b.v2)
  {
    Vectors.Equals(a.v1, b.v1) && Vectors.Equals(a.v2, b.v2)
  }

  /** `Edge.hashCode`: the Effective Java recipe on the endpoints' hashes. */
  function EdgeHashCode(e: FlaggedEdge): int {
    37 * (37 * 17 + Vectors.HashCode(e.v1)) + Vectors.HashCode(e.v2)
  }

  /** Equal edges hash equally, and neither equality nor the hash looks at
      the flag. */
  lemma EdgeHashRespectsEquals(a: FlaggedEdge, b: FlaggedEdge, used: bool)
    ensures EdgeEquals(a, b) ==> EdgeHashCode(a) == EdgeHashCode(b)
    ensures EdgeEquals(a, a.(used := used))
    ensures EdgeHashCode(a.(used := used)) == EdgeHashCode(a)
  {
    if EdgeEquals(a, b) {
      Vectors.EqualsImpliesEqualHash(a.v1, b.v1);
      Vectors.EqualsImpliesEqualHash(a.v2, b.v2);
    }
  }
}
