/** Undirected graphs, vertex subsets and the quasi-clique notions that the
    degeneracy computation, the gamma-QC(k) model and the DDA driver share. */
module Graphs {

  datatype Option<+T> = None | Some(value: T)

  /** Vertex identifiers (gonum node IDs; unbounded integers here). */
  type VertexId = int

  /** An undirected graph: every vertex is mapped to the set of its neighbours. */
  type Graph = map<VertexId, set<VertexId>>

  /** An ordered list of vertices, as a gonum node iterator yields them. */
  type NodeList = seq<VertexId>

  /** A simple undirected graph: no self-loops, every neighbour is a vertex,
      and adjacency is symmetric. */
  ghost predicate ValidGraph(g: Graph) {
    && (forall u :: u in g ==> u !in g[u])
    && (forall u, w :: u in g && w in g[u] ==> w in g && u in g[w])
  }

  /** gonum's HasEdgeBetween. */
  predicate HasEdge(g: Graph, u: VertexId, v: VertexId) {
    u in g && v in g[u]
  }

  /** The number of neighbours of `v` that lie in `s`. */
  function DegreeIn(g: Graph, v: VertexId, s: set<VertexId>): nat {
    if v in g then |g[v] * s| else 0
  }

  /** Every member of `s` has at least `k` neighbours inside `s`. */
  ghost predicate IsCore(g: Graph, s: set<VertexId>, k: int) {
    forall v :: v in s ==> DegreeIn(g, v, s) >= k
  }

  /** Every two distinct members of `s` are adjacent. */
  ghost predicate IsClique(g: Graph, s: set<VertexId>) {
    forall u, v :: u in s && v in s && u != v ==> HasEdge(g, u, v)
  }

  /** `s` is a gamma-quasi-clique: each member is adjacent to at least
      gamma * (|s| - 1) other members. */
  ghost predicate IsQuasiClique(g: Graph, s: set<VertexId>, gamma: real) {
    && s <= g.Keys
    && forall v :: v in s ==> DegreeIn(g, v, s) as real >= gamma * (|s| - 1) as real
  }

  /** `n` is the size of a largest gamma-quasi-clique of `g`. */
  ghost predicate IsMaxQuasiCliqueSize(g: Graph, gamma: real, n: int) {
    && (exists q :: IsQuasiClique(g, q, gamma) && |q| == n)
    && (forall q :: IsQuasiClique(g, q, gamma) ==> |q| <= n)
  }

  /** The size bound floor(k / gamma) + 1 that the driver's loop guard and the
      model's global row both use. */
  function SizeCap(k: int, gamma: real): int
    requires gamma != 0.0
  {
    ((k as real) / gamma).Floor + 1
  }

  /** A vertex set the gamma-QC(k) model admits: a k-core of itself whose
      size respects the cap. */
  ghost predicate IsCappedCore(g: Graph, s: set<VertexId>, k: int, gamma: real)
    requires gamma != 0.0
  {
    s <= g.Keys && IsCore(g, s, k) && |s| <= SizeCap(k, gamma)
  }

  /** The vertices of a node list. */
  function Elements(l: NodeList): (r: set<VertexId>)
    ensures forall v :: v in r <==> v in l
  {
    set v | v in l
  }

  /** A node list without repeated vertices. */
  predicate Distinct(l: NodeList) {
    forall a, b :: 0 <= a < b < |l| ==> l[a] != l[b]
  }

  /** What a gamma-QC(k) solver hands back: the solution node lists (None for
      Go's nil slice), the solution size and an error. */
  datatype SolverOutput = SolverOutput(nodes: Option<seq<NodeList>>, size: int, err: Option<string>)

  /** What a gamma-QC(k) solver promises about one call: no error; no
      solution list means size 0; otherwise at least one list (exactly one
      unless all solutions were asked for), each list a repetition-free
      capped core of the reported size, no vertex set listed twice, and no
      capped core larger than the reported size. */
  ghost predicate SoundAnswer(g: Graph, gamma: real, k: int, allSolutions: bool, out: SolverOutput)
    requires gamma != 0.0
  {
    && out.err == None
    && (out.nodes.None? ==> out.size == 0)
    && (out.nodes.Some? ==>
          && |out.nodes.value| >= 1
          && (!allSolutions ==> |out.nodes.value| == 1)
          && (forall i :: 0 <= i < |out.nodes.value| ==>
                && Distinct(out.nodes.value[i])
                && |out.nodes.value[i]| == out.size
                && IsCappedCore(g, Elements(out.nodes.value[i]), k, gamma))
          && (forall i, j :: 0 <= i < j < |out.nodes.value| ==>
                Elements(out.nodes.value[i]) != Elements(out.nodes.value[j]))
          && (forall s :: IsCappedCore(g, s, k, gamma) ==> |s| <= out.size))
  }

  /** What an exact solver adds: it reports solutions whenever some capped
      core exists (the cap is not negative, so the empty set qualifies); in
      all-solutions mode only when a non-empty one exists, and then every
      capped core of the reported size is listed. */
  ghost predicate CompleteAnswer(g: Graph, gamma: real, k: int, allSolutions: bool, out: SolverOutput)
    requires gamma != 0.0
  {
    && (SizeCap(k, gamma) >= 0 && (!allSolutions || exists s :: s != {} && IsCappedCore(g, s, k, gamma)) ==>
          out.nodes.Some?)
    && (allSolutions && out.nodes.Some? ==>
          forall s :: IsCappedCore(g, s, k, gamma) && |s| == out.size ==>
            exists i :: 0 <= i < |out.nodes.value| && Elements(out.nodes.value[i]) == s)
  }

  // ---------------------------------------------------------------------
  // Cardinality facts about finite sets

  /** An element of a non-empty set. */
  lemma ElementOf<T>(s: set<T>) returns (x: T)
    requires s != {}
    ensures x in s
  {
    x :| x in s;
  }

  lemma SubsetCard<T>(a: set<T>, b: set<T>)
    requires a <= b
    ensures |a| <= |b|
    ensures |a| == |b| ==> a == b
  {
    assert b == a + (b - a);
    if |a| == |b| {
      assert |b - a| == 0;
    }
  }

  lemma DistinctCard(l: NodeList)
    requires Distinct(l)
    ensures |Elements(l)| == |l|
    decreases |l|
  {
    if l != [] {
      var last := |l| - 1;
      var init := l[..last];
      assert Distinct(init);
      DistinctCard(init);
      assert Elements(l) == Elements(init) + {l[last]};
    }
  }

  // ---------------------------------------------------------------------
  // The size cap

  /** The cap grows with k. */
  lemma CapMonotone(k1: int, k2: int, gamma: real)
    requires 0.0 < gamma && k1 <= k2
    ensures SizeCap(k1, gamma) <= SizeCap(k2, gamma)
  {
    assert (k1 as real) / gamma <= (k2 as real) / gamma by {
      assert (k2 as real) / gamma - (k1 as real) / gamma == ((k2 - k1) as real) / gamma;
    }
  }

  /** The smallest integer that is at least x. */
  function Ceil(x: real): (c: int)
    ensures x <= c as real < x + 1.0
  {
    -((-x).Floor)
  }

  /** The least k whose cap still admits n vertices: a quasi-clique of size n
      is a Ceil(gamma * (n - 1))-core, and that k fits the cap. */
  lemma ThresholdFitsCap(n: int, gamma: real)
    requires 0.0 < gamma && n >= 1
    ensures Ceil(gamma * (n - 1) as real) >= 0
    ensures SizeCap(Ceil(gamma * (n - 1) as real), gamma) >= n
  {
    var t := Ceil(gamma * (n - 1) as real);
    var m := (n - 1) as real;
    assert gamma * m >= 0.0;
    var q := (t as real) / gamma;
    var slack := t as real - gamma * m;
    assert slack >= 0.0;
    assert q - m == slack / gamma;
    assert slack / gamma >= 0.0;
    assert (n - 1) as real <= q;
  }

  // ---------------------------------------------------------------------
  // Capped cores and quasi-cliques

  lemma MulMonotone(a: real, b: real, c: real)
    requires a <= b && 0.0 < c
    ensures c * a <= c * b
  {
  }

  /** Every vertex set the gamma-QC(k) model admits is a gamma-quasi-clique. */
  lemma CappedCoreIsQuasiClique(g: Graph, s: set<VertexId>, k: int, gamma: real)
    requires 0.0 < gamma
    requires IsCappedCore(g, s, k, gamma)
    ensures IsQuasiClique(g, s, gamma)
  {
    var q := (k as real) / gamma;
    var m := (|s| - 1) as real;
    assert m <= q;
    var slack := q - m;
    assert gamma * slack >= 0.0;
    assert gamma * q == k as real;
    assert gamma * m == gamma * q - gamma * slack;
    assert gamma * m <= k as real;
    forall v | v in s
      ensures DegreeIn(g, v, s) as real >= gamma * m
    {
      assert DegreeIn(g, v, s) >= k;
    }
  }

  /** A quasi-clique of size n is a core for the threshold Ceil(gamma * (n - 1)). */
  lemma QuasiCliqueIsThresholdCore(g: Graph, s: set<VertexId>, gamma: real)
    requires IsQuasiClique(g, s, gamma)
    ensures IsCore(g, s, Ceil(gamma * (|s| - 1) as real))
  {
  }

  /** A 1-quasi-clique is a clique (the gamma = 1.0 case of the driver). */
  lemma QuasiCliqueAtOneIsClique(g: Graph, s: set<VertexId>)
    requires ValidGraph(g)
    requires IsQuasiClique(g, s, 1.0)
    ensures IsClique(g, s)
  {
    forall u, v | u in s && v in s && u != v
      ensures HasEdge(g, u, v)
    {
      var others := s - {u};
      assert g[u] * s <= others;
      assert |others| == |s| - 1;
      assert DegreeIn(g, u, s) >= |s| - 1;
      SubsetCard(g[u] * s, others);
      assert v in others;
    }
  }
}
