/** The degeneracy of a graph, computed by Matula and Beck's bucket-queue
    peeling: repeatedly remove a vertex of least live degree and report the
    largest such degree met along the way. */
module Degeneracy {
  import opened Graphs

  /** `s` has a vertex with at most `k` neighbours inside `s`. */
  ghost predicate HasLowVertex(g: Graph, s: set<VertexId>, k: int) {
    exists v :: v in s && DegreeIn(g, v, s) <= k
  }

  /** `k` is the degeneracy of `g`: every non-empty vertex subset has a member
      with at most `k` neighbours inside it, and some vertex subset (non-empty
      unless `k` is 0) has all members with at least `k` neighbours inside it.
      So `k` is the largest minimum degree over all subgraphs. */
  ghost predicate IsDegeneracy(g: Graph, k: int) {
    && k >= 0
    && (forall s :: s <= g.Keys && s != {} ==> HasLowVertex(g, s, k))
    && (exists w :: w <= g.Keys && (w != {} || k == 0) && IsCore(g, w, k))
  }

  /** Go's swap-remove `b[j], b = b[len(b)-1], b[:len(b)-1]`: drops `b[j]` and
      moves the last element into its place. */
  function SwapRemove(b: seq<VertexId>, j: nat): (r: seq<VertexId>)
    requires Distinct(b) && j < |b|
    ensures |r| == |b| - 1
    ensures Distinct(r)
    ensures forall x :: x in r <==> x in b && x != b[j]
  {
    var last := |b| - 1;
    var r := b[j := b[last]][..last];
    assert forall x :: x in b && x != b[j] ==> x in r by {
      forall x | x in b && x != b[j]
        ensures x in r
      {
        var a :| 0 <= a < |b| && b[a] == x;
        if a == last {
          assert r[j] == x;
        } else {
          assert r[a] == x;
        }
      }
    }
    r
  }

  /** Removing a vertex `v` from the live set lowers the live degree of `w`
      by one exactly when `v` is a neighbour of `w`. */
  lemma DegreeWithout(g: Graph, w: VertexId, live: set<VertexId>, v: VertexId)
    requires w in g && v in live
    ensures DegreeIn(g, w, live) == DegreeIn(g, w, live - {v}) + (if v in g[w] then 1 else 0)
  {
    if v in g[w] {
      assert g[w] * live == (g[w] * (live - {v})) + {v};
    } else {
      assert g[w] * live == g[w] * (live - {v});
    }
  }

  /** A live degree never exceeds the full degree, and shrinking the vertex
      set never raises it. */
  lemma DegreeMonotone(g: Graph, w: VertexId, s: set<VertexId>, t: set<VertexId>)
    requires s <= t
    ensures DegreeIn(g, w, s) <= DegreeIn(g, w, t)
  {
    if w in g {
      SubsetCard(g[w] * s, g[w] * t);
    }
  }

  /** `dv` holds, for every live vertex, its number of live neighbours. */
  ghost predicate LiveDegrees(g: Graph, dv: map<VertexId, int>) {
    && dv.Keys <= g.Keys
    && forall w :: w in dv ==> dv[w] == DegreeIn(g, w, dv.Keys)
  }

  /** The bucket array: `d[j]` lists, without repetition, exactly the live
      vertices whose `dv` is `j`. */
  ghost predicate Buckets(d: array<seq<VertexId>>, dv: map<VertexId, int>)
    reads d
  {
    && (forall j, w :: 0 <= j < d.Length && w in d[j] ==> w in dv && dv[w] == j)
    && (forall w :: w in dv ==> 0 <= dv[w] < d.Length && w in d[dv[w]])
    && (forall j :: 0 <= j < d.Length ==> Distinct(d[j]))
  }

  /** Every non-empty vertex subset that has lost a member to the peeling
      already has a member of degree at most `k` inside it. */
  ghost predicate PeeledBelow(g: Graph, live: set<VertexId>, k: int) {
    forall s :: s <= g.Keys && s != {} && !(s <= live) ==> HasLowVertex(g, s, k)
  }

  /** The first pass of graphDegeneracy: every vertex's degree and the
      maximum degree. */
  method InitialDegrees(g: Graph) returns (dv: map<VertexId, int>, maxDegree: int)
    ensures dv.Keys == g.Keys && 0 <= maxDegree
    ensures forall w :: w in dv ==> dv[w] == |g[w]| <= maxDegree
    ensures g != map[] ==> exists w :: w in g && |g[w]| == maxDegree
  {
    dv := map[];
    maxDegree := 0;
    var todo := g.Keys;
    while todo != {}
      invariant todo <= g.Keys
      invariant dv.Keys == g.Keys - todo && 0 <= maxDegree
      invariant forall w :: w in dv ==> dv[w] == |g[w]| <= maxDegree
      invariant dv != map[] ==> exists w :: w in dv && |g[w]| == maxDegree
      invariant dv == map[] ==> maxDegree == 0
    {
      ghost var some := ElementOf(todo);
      var n :| n in todo;
      var adj := g[n];
      dv := dv[n := |adj|];
      if |adj| > maxDegree {
        maxDegree := |adj|;
      }
      todo := todo - {n};
    }
    assert g != map[] ==> exists w :: w in g by {
      if g != map[] {
        assert g.Keys != {};
      }
    }
  }

  /** The second pass: put every vertex into the bucket of its degree. */
  method FillBuckets(g: Graph, dv: map<VertexId, int>, d: array<seq<VertexId>>)
    requires dv.Keys == g.Keys
    requires forall w :: w in dv ==> 0 <= dv[w] < d.Length
    requires forall j :: 0 <= j < d.Length ==> d[j] == []
    modifies d
    ensures Buckets(d, dv)
  {
    var todo := g.Keys;
    while todo != {}
      invariant todo <= g.Keys
      invariant forall j, w :: 0 <= j < d.Length && w in d[j] ==> w in dv && w !in todo && dv[w] == j
      invariant forall w :: w in dv && w !in todo ==> 0 <= dv[w] < d.Length && w in d[dv[w]]
      invariant forall j :: 0 <= j < d.Length ==> Distinct(d[j])
    {
      ghost var some := ElementOf(todo);
      var n :| n in todo;
      var deg := dv[n];
      d[deg] := d[deg] + [n];
      todo := todo - {n};
    }
  }

  /** Scan D[0], D[1], ... until a non-empty cell: its index is the least
      live degree. */
  method LowestBucket(d: array<seq<VertexId>>, dv: map<VertexId, int>) returns (i: int)
    requires Buckets(d, dv) && dv != map[]
    ensures 0 <= i < d.Length && d[i] != []
    ensures forall j :: 0 <= j < i ==> d[j] == []
    ensures forall w :: w in dv ==> i <= dv[w]
  {
    assert dv.Keys != {};
    ghost var w0 := ElementOf(dv.Keys);
    i := 0;
    while |d[i]| == 0
      invariant 0 <= i <= dv[w0]
      invariant forall j :: 0 <= j < i ==> d[j] == []
      decreases dv[w0] - i
    {
      i := i + 1;
    }
  }

  /** Move a live vertex `w` from D[d_w] to D[d_w - 1] and lower d_w. */
  method MoveDown(d: array<seq<VertexId>>, dv: map<VertexId, int>, w: VertexId) returns (dv': map<VertexId, int>)
    requires Buckets(d, dv) && w in dv && dv[w] >= 1
    modifies d
    ensures dv' == dv[w := dv[w] - 1]
    ensures Buckets(d, dv')
  {
    var dw := dv[w];
    var j := 0;
    while d[dw][j] != w
      invariant 0 <= j < |d[dw]|
      invariant w in d[dw][j..]
      decreases |d[dw]| - j
    {
      j := j + 1;
    }
    d[dw] := SwapRemove(d[dw], j);
    dw := dw - 1;
    d[dw] := d[dw] + [w];
    dv' := dv[w := dw];
  }

  /** For each neighbour w of the removed vertex v still live, subtract one
      from d_w and move w down one bucket. */
  method LowerNeighbours(g: Graph, d: array<seq<VertexId>>, dv: map<VertexId, int>, v: VertexId) returns (dv': map<VertexId, int>)
    requires ValidGraph(g) && v in g && v !in dv && dv.Keys <= g.Keys
    requires Buckets(d, dv)
    requires forall w :: w in dv ==> dv[w] == DegreeIn(g, w, dv.Keys + {v})
    modifies d
    ensures dv'.Keys == dv.Keys
    ensures LiveDegrees(g, dv') && Buckets(d, dv')
  {
    dv' := dv;
    var pending := g[v];
    StaleDegrees(g, dv, v);
    while pending != {}
      invariant dv'.Keys == dv.Keys
      invariant Pending(g, dv', pending)
      invariant Buckets(d, dv')
    {
      ghost var some := ElementOf(pending);
      var w :| w in pending;
      LowerOne(g, dv', pending, w);
      if w in dv' {
        dv' := MoveDown(d, dv', w);
      }
      pending := pending - {w};
    }
    PendingDone(g, dv');
  }

  /** The live degrees, except that the vertices of `pending` still count
      one neighbour too many. */
  ghost predicate Pending(g: Graph, dv: map<VertexId, int>, pending: set<VertexId>) {
    forall w :: w in dv ==> dv[w] == DegreeIn(g, w, dv.Keys) + (if w in pending then 1 else 0)
  }

  lemma PendingDone(g: Graph, dv: map<VertexId, int>)
    requires dv.Keys <= g.Keys && Pending(g, dv, {})
    ensures LiveDegrees(g, dv)
  {
  }

  /** Lowering one pending vertex keeps the other counts right. */
  lemma LowerOne(g: Graph, dv: map<VertexId, int>, pending: set<VertexId>, w: VertexId)
    requires Pending(g, dv, pending) && w in pending
    ensures w in dv ==> dv[w] >= 1 && dv[w := dv[w] - 1].Keys == dv.Keys
    ensures Pending(g, if w in dv then dv[w := dv[w] - 1] else dv, pending - {w})
  {
    if w in dv {
      var dv' := dv[w := dv[w] - 1];
      assert dv'.Keys == dv.Keys;
      forall u | u in dv'
        ensures dv'[u] == DegreeIn(g, u, dv'.Keys) + (if u in pending - {w} then 1 else 0)
      {
        if u != w {
          assert dv'[u] == dv[u];
        }
      }
    }
  }

  /** Right after v leaves the live set, exactly its live neighbours
      count one neighbour too many. */
  lemma StaleDegrees(g: Graph, dv: map<VertexId, int>, v: VertexId)
    requires ValidGraph(g) && v in g && v !in dv && dv.Keys <= g.Keys
    requires forall w :: w in dv ==> dv[w] == DegreeIn(g, w, dv.Keys + {v})
    ensures Pending(g, dv, g[v])
  {
    forall w | w in dv
      ensures dv[w] == DegreeIn(g, w, dv.Keys) + (if w in g[v] then 1 else 0)
    {
      DegreeWithout(g, w, dv.Keys + {v}, v);
      assert dv.Keys + {v} - {v} == dv.Keys;
    }
  }

  /** Select the last vertex v of D[i] and remove it from D[i] and from the
      live set. */
  method TakeVertex(d: array<seq<VertexId>>, dv: map<VertexId, int>, i: int) returns (v: VertexId, dv': map<VertexId, int>)
    requires Buckets(d, dv) && 0 <= i < d.Length && d[i] != []
    modifies d
    ensures v in dv && dv[v] == i
    ensures dv' == dv - {v} && dv'.Keys == dv.Keys - {v}
    ensures Buckets(d, dv')
  {
    var bucket := d[i];
    v := bucket[|bucket| - 1];
    d[i] := bucket[..|bucket| - 1];
    dv' := dv - {v};
  }

  /** Before the peeling starts, d_v is each vertex's degree, which is its
      number of live neighbours. */
  lemma AllLive(g: Graph, dv: map<VertexId, int>)
    requires ValidGraph(g) && dv.Keys == g.Keys
    requires forall w :: w in dv ==> dv[w] == |g[w]|
    ensures LiveDegrees(g, dv)
  {
    forall w | w in dv
      ensures dv[w] == DegreeIn(g, w, dv.Keys)
    {
      assert g[w] <= dv.Keys by {
        forall x | x in g[w]
          ensures x in dv.Keys
        {
          assert x in g;
        }
      }
      assert g[w] * dv.Keys == g[w];
    }
  }

  /** Raising k keeps every earlier low-degree witness valid. */
  lemma RaiseBound(g: Graph, live: set<VertexId>, k: int, i: int)
    requires PeeledBelow(g, live, k) && k <= i
    ensures PeeledBelow(g, live, i)
  {
    forall s | s <= g.Keys && s != {} && !(s <= live)
      ensures HasLowVertex(g, s, i)
    {
      var x :| x in s && DegreeIn(g, x, s) <= k;
    }
  }

  /** Peeling a vertex whose live degree is at most k: every subset that
      contained it inside the live set now has a witness of degree at most k. */
  lemma PeelVertex(g: Graph, live: set<VertexId>, v: VertexId, k: int)
    requires PeeledBelow(g, live, k)
    requires v in live && DegreeIn(g, v, live) <= k
    ensures PeeledBelow(g, live - {v}, k)
  {
    forall s | s <= g.Keys && s != {} && !(s <= live - {v})
      ensures HasLowVertex(g, s, k)
    {
      if s <= live {
        assert v in s;
        DegreeMonotone(g, v, s, live);
      }
    }
  }

  /** When every live degree is at least i, the live set is an i-core. */
  lemma LiveSetIsCore(g: Graph, dv: map<VertexId, int>, i: int)
    requires LiveDegrees(g, dv)
    requires forall w :: w in dv ==> i <= dv[w]
    ensures IsCore(g, dv.Keys, i)
  {
  }

  /** The state the peeling loop keeps between rounds: live degrees and
      buckets are up to date, `k` is the largest least degree met so far,
      `dense` is a k-core, and every subset that has lost a vertex is low at k. */
  ghost predicate Peeling(g: Graph, d: array<seq<VertexId>>, dv: map<VertexId, int>, k: int, dense: set<VertexId>)
    reads d
  {
    && ValidGraph(g)
    && LiveDegrees(g, dv) && Buckets(d, dv)
    && 0 <= k
    && dense <= g.Keys && (dense != {} || k == 0) && IsCore(g, dense, k)
    && PeeledBelow(g, dv.Keys, k)
  }

  /** One round of the peeling: find the least non-empty bucket, raise k to
      its index (so k becomes the larger of k and the least live degree),
      remove one vertex of it and update its neighbours. */
  method PeelRound(g: Graph, d: array<seq<VertexId>>, dv: map<VertexId, int>, k: int, ghost dense: set<VertexId>)
    returns (dv': map<VertexId, int>, k': int, ghost dense': set<VertexId>)
    requires Peeling(g, d, dv, k, dense) && dv != map[]
    modifies d
    ensures Peeling(g, d, dv', k', dense')
    ensures exists v :: && v in dv && dv'.Keys == dv.Keys - {v}
                        && (forall w :: w in dv ==> dv[v] <= dv[w])
                        && k' == (if dv[v] > k then dv[v] else k)
  {
    var i := LowestBucket(d, dv);
    ghost var live := dv.Keys;
    k', dense' := k, dense;
    if i > k {
      RaiseBound(g, live, k, i);
      LiveSetIsCore(g, dv, i);
      k', dense' := i, live;
    }
    var v, rest := TakeVertex(d, dv, i);
    assert v in dv && (forall w :: w in dv ==> dv[v] <= dv[w]) && k' == (if dv[v] > k then dv[v] else k);
    assert |rest.Keys| == |live| - 1;
    PeelVertex(g, live, v, k');
    assert rest.Keys + {v} == live;
    dv' := LowerNeighbours(g, d, rest, v);
    assert dv'.Keys == dv.Keys - {v};
  }

  /** graphDegeneracy: the bucket-queue peeling of the whole graph. */
  method GraphDegeneracy(g: Graph) returns (k: int)
    requires ValidGraph(g)
    ensures IsDegeneracy(g, k)
  {
    var dv, maxDegree := InitialDegrees(g);
    AllLive(g, dv);
    var d := new seq<VertexId>[maxDegree + 1](_ => []);
    FillBuckets(g, dv, d);

    // Repeat |V| times; k is the running maximum.
    k := 0;
    ghost var dense: set<VertexId> := {};
    var round := 0;
    while round < |g|
      invariant 0 <= round <= |g|
      invariant |dv.Keys| == |g| - round
      invariant Peeling(g, d, dv, k, dense)
    {
      dv, k, dense := PeelRound(g, d, dv, k, dense);
      round := round + 1;
    }
    Finish(g, d, dv, k, dense);
  }

  lemma Finish(g: Graph, d: array<seq<VertexId>>, dv: map<VertexId, int>, k: int, dense: set<VertexId>)
    requires Peeling(g, d, dv, k, dense) && |dv.Keys| == 0
    ensures IsDegeneracy(g, k)
  {
    assert dv.Keys == {};
  }

  // ---------------------------------------------------------------------
  // Properties of the degeneracy

  /** A degeneracy bounds every other candidate from above. */
  lemma DegeneracyBoundsOthers(g: Graph, k: int, c: int)
    requires IsDegeneracy(g, k) && IsDegeneracy(g, c)
    ensures c <= k
  {
    var w :| w <= g.Keys && (w != {} || c == 0) && IsCore(g, w, c);
    if w != {} {
      CoreBelowDegeneracy(g, k, w, c);
    }
  }

  /** A graph has one degeneracy. */
  lemma DegeneracyUnique(g: Graph, k1: int, k2: int)
    requires IsDegeneracy(g, k1) && IsDegeneracy(g, k2)
    ensures k1 == k2
  {
    DegeneracyBoundsOthers(g, k1, k2);
    DegeneracyBoundsOthers(g, k2, k1);
  }

  /** No non-empty vertex subset is a core for a bound above the degeneracy;
      in particular the driver's first bound, degeneracy + 1, admits nothing. */
  lemma CoreBelowDegeneracy(g: Graph, k: int, s: set<VertexId>, c: int)
    requires IsDegeneracy(g, k)
    requires s <= g.Keys && s != {} && IsCore(g, s, c)
    ensures c <= k
  {
    var x :| x in s && DegreeIn(g, x, s) <= k;
    assert DegreeIn(g, x, s) >= c;
  }

  /** In a simple graph the whole vertex set holds every neighbour. */
  lemma FullDegree(g: Graph, v: VertexId)
    requires ValidGraph(g) && v in g
    ensures DegreeIn(g, v, g.Keys) == |g[v]|
  {
    assert g[v] <= g.Keys by {
      forall x | x in g[v]
        ensures x in g.Keys
      {
        assert x in g;
      }
    }
    assert g[v] * g.Keys == g[v];
  }

  /** The degeneracy never exceeds the maximum degree, so the bucket array
      of size maxDegree + 1 has a cell for every bound the peeling meets. */
  lemma DegeneracyAtMostDegree(g: Graph, k: int)
    requires ValidGraph(g) && IsDegeneracy(g, k) && k > 0
    ensures exists v :: v in g && |g[v]| >= k
  {
    var w :| w <= g.Keys && (w != {} || k == 0) && IsCore(g, w, k);
    var v := ElementOf(w);
    DegreeMonotone(g, v, w, g.Keys);
    FullDegree(g, v);
  }

  /** An edge u-v makes {u, v} a 1-core. */
  lemma EdgeIsCore(g: Graph, u: VertexId, v: VertexId)
    requires ValidGraph(g) && u in g && v in g[u]
    ensures {u, v} <= g.Keys && IsCore(g, {u, v}, 1)
  {
    assert v in g[u] * {u, v};
    assert u in g[v] * {u, v};
  }

  /** The degeneracy is 0 exactly when the graph has no edge. */
  lemma DegeneracyZeroIffEdgeless(g: Graph, k: int)
    requires ValidGraph(g) && IsDegeneracy(g, k)
    ensures k == 0 <==> forall v :: v in g ==> g[v] == {}
  {
    if exists v :: v in g && g[v] != {} {
      var v :| v in g && g[v] != {};
      var u := ElementOf(g[v]);
      EdgeIsCore(g, v, u);
      CoreBelowDegeneracy(g, k, {v, u}, 1);
    } else {
      var w :| w <= g.Keys && (w != {} || k == 0) && IsCore(g, w, k);
      if w != {} {
        var v := ElementOf(w);
        assert DegreeIn(g, v, w) == 0;
      }
    }
  }
}
