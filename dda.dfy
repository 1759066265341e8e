/** The DDA driver: option validation, the descending k-loop over a pluggable
    gamma-QC(k) solver, and the construction of the induced subgraphs it
    returns. */
module Dda {
  import opened Graphs
  import opened Degeneracy

  /** A gamma-QC(k) solver: it receives the input graph, gamma, k and the
      all-solutions flag. */
  type Solver = (Graph, real, int, bool) -> SolverOutput

  /** How many solutions DDA reports (a bool in the source: OneSolution is
      false, AllSolutions is true). */
  datatype SolveMode = OneSolution | AllSolutions

  // ---------------------------------------------------------------------
  // Options and their validation

  datatype ValidationError =
    | MissingSolver
    | MissingGraphConstructor
    | MissingEdgeConstructor
    | MissingInputGraph
    | GammaOutOfRange

  /** The text of each validation error. */
  function Message(e: ValidationError): string {
    match e
    case MissingSolver => "dda: YQCSolver must be provided"
    case MissingGraphConstructor => "dda: GraphConstructor must be provided"
    case MissingEdgeConstructor => "dda: EdgeConstructor must be provided"
    case MissingInputGraph => "dda: InputGraph must be provided"
    case GammaOutOfRange => "dda: Gamma must be between 0 and 1"
  }

  /** Each error text identifies its check. */
  lemma MessagesDistinct(e1: ValidationError, e2: ValidationError)
    ensures Message(e1) == Message(e2) <==> e1 == e2
  {
  }

  /** The DDA options. The graph and edge constructors only matter through
      whether they are present: the output graphs are built as maps. */
  datatype Opts = Opts(
    inputGraph: Option<Graph>,
    gamma: real,
    hasGraphConstructor: bool,
    hasEdgeConstructor: bool,
    solveMode: SolveMode,
    solver: Option<Solver>)

  /** The position of each check in the validation sequence. */
  function Rank(e: ValidationError): nat {
    match e
    case MissingSolver => 0
    case MissingGraphConstructor => 1
    case MissingEdgeConstructor => 2
    case MissingInputGraph => 3
    case GammaOutOfRange => 4
  }

  /** The condition each check demands of the options. */
  predicate Passes(o: Opts, e: ValidationError) {
    match e
    case MissingSolver => o.solver.Some?
    case MissingGraphConstructor => o.hasGraphConstructor
    case MissingEdgeConstructor => o.hasEdgeConstructor
    case MissingInputGraph => o.inputGraph.Some?
    case GammaOutOfRange => 0.0 <= o.gamma <= 1.0
  }

  /** DDAOpts.validate: the checks in source order, stopping at the first
      that fails. */
  function Validate(o: Opts): Option<ValidationError> {
    if o.solver.None? then Some(MissingSolver)
    else if !o.hasGraphConstructor then Some(MissingGraphConstructor)
    else if !o.hasEdgeConstructor then Some(MissingEdgeConstructor)
    else if o.inputGraph.None? then Some(MissingInputGraph)
    else if o.gamma < 0.0 || o.gamma > 1.0 then Some(GammaOutOfRange)
    else None
  }

  /** Validation succeeds exactly when the options pass every check, and
      otherwise reports a failed check all of whose predecessors pass. */
  lemma ValidateIsFirstFailure(o: Opts)
    ensures Validate(o).None? <==> forall e :: Passes(o, e)
    ensures Validate(o).Some? ==>
              && !Passes(o, Validate(o).value)
              && forall e :: Rank(e) < Rank(Validate(o).value) ==> Passes(o, e)
  {
    var r := Validate(o);
    if r.None? {
      forall e
        ensures Passes(o, e)
      {
        match e
        case MissingSolver =>
        case MissingGraphConstructor =>
        case MissingEdgeConstructor =>
        case MissingInputGraph =>
        case GammaOutOfRange =>
      }
    } else {
      assert !Passes(o, r.value);
      forall e | Rank(e) < Rank(r.value)
        ensures Passes(o, e)
      {
        match e
        case MissingSolver =>
        case MissingGraphConstructor =>
        case MissingEdgeConstructor =>
        case MissingInputGraph =>
        case GammaOutOfRange =>
      }
    }
  }

  /** Options that pass validation carry a solver, a graph and a gamma in
      [0, 1]. */
  lemma ValidOptions(o: Opts)
    requires Validate(o).None?
    ensures o.solver.Some? && o.inputGraph.Some? && 0.0 <= o.gamma <= 1.0
  {
    assert Passes(o, MissingSolver) && Passes(o, MissingInputGraph) && Passes(o, GammaOutOfRange);
  }

  // ---------------------------------------------------------------------
  // The loop bound in int64 arithmetic

  const MinInt64: int := -0x8000_0000_0000_0000
  const MaxInt64: int := 0x7fff_ffff_ffff_ffff

  /** Go's conversion of an integral float64 to int64, as amd64 performs it:
      a value outside the int64 range (and an infinity or NaN) becomes
      MinInt64. */
  function Cast64(x: int): int {
    if MinInt64 <= x <= MaxInt64 then x else MinInt64
  }

  /** int64 wrap-around. */
  function Wrap64(x: int): (r: int)
    ensures MinInt64 <= r <= MaxInt64
    ensures MinInt64 <= x <= MaxInt64 ==> r == x
    ensures (x - r) % 0x1_0000_0000_0000_0000 == 0
  {
    (x - MinInt64) % 0x1_0000_0000_0000_0000 + MinInt64
  }

  /** The loop bound int64(math.Floor(float64(k) / gamma)) + 1. With gamma = 0
      the quotient is an infinity or NaN, which converts to MinInt64. */
  function GuardCap(k: int, gamma: real): int {
    if gamma == 0.0 then MinInt64 + 1
    else Wrap64(Cast64(((k as real) / gamma).Floor) + 1)
  }

  /** Where no int64 limit is reached, the loop bound is the size cap. */
  lemma GuardIsCap(k: int, gamma: real)
    requires gamma != 0.0 && MinInt64 < SizeCap(k, gamma) <= MaxInt64
    ensures GuardCap(k, gamma) == SizeCap(k, gamma)
  {
  }

  /** k / gamma <= -1 for k <= -1 and gamma in (0, 1]. */
  lemma QuotientBelow(k: int, gamma: real)
    requires k <= -1 && 0.0 < gamma <= 1.0
    ensures (k as real) / gamma <= -1.0
  {
    var q := (k as real) / gamma;
    assert q * gamma == k as real;
    assert q < 0.0;
    MulMonotone(gamma, 1.0, -q);
    assert -q * gamma <= -q;
  }

  /** For gamma in [0, 1] the loop bound at any k <= -1 is not positive. */
  lemma GuardBelowZero(k: int, gamma: real)
    requires 0.0 <= gamma <= 1.0
    ensures k <= -1 ==> GuardCap(k, gamma) <= 0
  {
    if k <= -1 && gamma != 0.0 {
      QuotientBelow(k, gamma);
      var f := ((k as real) / gamma).Floor;
      assert f <= -1;
      var c := Cast64(f);
      assert MinInt64 <= c <= -1;
      assert GuardCap(k, gamma) == Wrap64(c + 1);
    }
  }

  // ---------------------------------------------------------------------
  // The k-loop as a function of its state

  /** The loop state: the last k, currentMax, currentSolution, and (for the
      proofs) every k passed to the solver so far. */
  datatype Run = Run(k: int, best: int, sols: seq<NodeList>, calls: seq<int>)

  /** One pass of the loop body: lower k, call the solver, and keep its answer
      only when it brings nodes and a strictly larger size. */
  function Step(g: Graph, gamma: real, all: bool, solver: Solver, st: Run): (r: Run)
    ensures r.k == st.k - 1 && r.calls == st.calls + [st.k - 1]
    ensures r.best >= st.best
    ensures r.best > st.best <==>
              solver(g, gamma, st.k - 1, all).nodes.Some? && solver(g, gamma, st.k - 1, all).size > st.best
    ensures r.best > st.best ==>
              r.best == solver(g, gamma, st.k - 1, all).size && r.sols == solver(g, gamma, st.k - 1, all).nodes.value
    ensures r.best == st.best ==> r.sols == st.sols
  {
    var out := solver(g, gamma, st.k - 1, all);
    if out.nodes.Some? && out.size > st.best then Run(st.k - 1, out.size, out.nodes.value, st.calls + [st.k - 1])
    else Run(st.k - 1, st.best, st.sols, st.calls + [st.k - 1])
  }

  /** The loop: step while currentMax is below the bound for the current k. It
      stops with k >= -1 and currentMax at or above the bound, having called
      the solver with k - 1, k - 2, ... down to the final k. */
  function Search(g: Graph, gamma: real, all: bool, solver: Solver, st: Run): (r: Run)
    requires 0.0 <= gamma <= 1.0 && st.best >= 0 && st.k >= -1
    ensures -1 <= r.k <= st.k && r.best >= st.best
    ensures r.best >= GuardCap(r.k, gamma)
    ensures |r.calls| == |st.calls| + (st.k - r.k)
    ensures forall i :: 0 <= i < |st.calls| ==> r.calls[i] == st.calls[i]
    ensures forall i :: |st.calls| <= i < |r.calls| ==> r.calls[i] == st.k - 1 - (i - |st.calls|)
    decreases st.k + 1
  {
    GuardBelowZero(st.k, gamma);
    if st.best < GuardCap(st.k, gamma) then
      var next := Step(g, gamma, all, solver, st);
      Search(g, gamma, all, solver, next)
    else
      st
  }

  /** The loop's start: k = degeneracy + 1, nothing found yet. */
  function Start(degeneracy: int): Run {
    Run(degeneracy + 1, 0, [], [])
  }

  /** With gamma = 0 the loop bound is MinInt64 + 1, so the loop never runs:
      no solver call, no solution, size 0. */
  lemma GammaZeroFindsNothing(g: Graph, all: bool, solver: Solver, degeneracy: nat)
    ensures Search(g, 0.0, all, solver, Start(degeneracy)) == Start(degeneracy)
  {
  }

  /** For gamma in [0, 1] the solver is called at most degeneracy + 2 times,
      first with k = degeneracy and then with each k one lower. */
  lemma CallsCountDown(g: Graph, gamma: real, all: bool, solver: Solver, degeneracy: nat)
    requires 0.0 <= gamma <= 1.0
    ensures var r := Search(g, gamma, all, solver, Start(degeneracy));
      && |r.calls| <= degeneracy + 2
      && forall i :: 0 <= i < |r.calls| ==> r.calls[i] == degeneracy - i
  {
  }

  /** What the kept solutions satisfy: currentMax is not negative and is 0
      when nothing is kept; every kept list is a repetition-free
      gamma-quasi-clique of size currentMax; no vertex set is kept twice; and
      in one-solution mode at most one list is kept. */
  ghost predicate Kept(g: Graph, gamma: real, all: bool, st: Run) {
    && st.best >= 0
    && (st.best > 0 ==> st.sols != [])
    && (!all ==> |st.sols| <= 1)
    && (forall i :: 0 <= i < |st.sols| ==>
          && Distinct(st.sols[i])
          && |st.sols[i]| == st.best
          && IsQuasiClique(g, Elements(st.sols[i]), gamma))
    && (forall i, j :: 0 <= i < j < |st.sols| ==> Elements(st.sols[i]) != Elements(st.sols[j]))
  }

  lemma StepKeeps(g: Graph, gamma: real, all: bool, solver: Solver, st: Run)
    requires 0.0 < gamma && Kept(g, gamma, all, st)
    requires SoundAnswer(g, gamma, st.k - 1, all, solver(g, gamma, st.k - 1, all))
    ensures Kept(g, gamma, all, Step(g, gamma, all, solver, st))
  {
    var out := solver(g, gamma, st.k - 1, all);
    var r := Step(g, gamma, all, solver, st);
    if r.best > st.best {
      forall i | 0 <= i < |r.sols|
        ensures IsQuasiClique(g, Elements(r.sols[i]), gamma)
      {
        CappedCoreIsQuasiClique(g, Elements(r.sols[i]), st.k - 1, gamma);
      }
    }
  }

  /** A solver that answers soundly at every k the loop reaches only ever
      leaves quasi-cliques of the reported size in currentSolution. */
  lemma {:induction false} SearchKeeps(g: Graph, gamma: real, all: bool, solver: Solver, st: Run)
    requires 0.0 < gamma <= 1.0 && st.k >= -1 && Kept(g, gamma, all, st)
    requires forall k :: -1 <= k < st.k ==> SoundAnswer(g, gamma, k, all, solver(g, gamma, k, all))
    ensures Kept(g, gamma, all, Search(g, gamma, all, solver, st))
    decreases st.k + 1
  {
    GuardBelowZero(st.k, gamma);
    if st.best < GuardCap(st.k, gamma) {
      StepKeeps(g, gamma, all, solver, st);
      SearchKeeps(g, gamma, all, solver, Step(g, gamma, all, solver, st));
    }
  }

  /** If a capped core of size n exists at some t below the current k, and the
      solver answers exactly from t up, the loop ends with currentMax >= n:
      either it reaches t, where the solver reports at least n, or it stops
      earlier because currentMax already meets a bound that is at least n. */
  lemma {:induction false} FinalBestAtLeast(g: Graph, gamma: real, all: bool, solver: Solver, st: Run,
                                            degeneracy: int, t: int, q: set<VertexId>)
    requires 0.0 < gamma <= 1.0 && st.best >= 0
    requires 0 <= t < st.k <= degeneracy + 1 && SizeCap(degeneracy + 1, gamma) <= MaxInt64
    requires IsCappedCore(g, q, t, gamma)
    requires forall k :: t <= k < st.k ==>
               SoundAnswer(g, gamma, k, all, solver(g, gamma, k, all)) && CompleteAnswer(g, gamma, k, all, solver(g, gamma, k, all))
    ensures Search(g, gamma, all, solver, st).best >= |q|
    decreases st.k
  {
    GuardBelowZero(st.k, gamma);
    if st.best < GuardCap(st.k, gamma) {
      var next := Step(g, gamma, all, solver, st);
      if st.k - 1 == t && q != {} {
        var out := solver(g, gamma, t, all);
        assert out.nodes.Some? && |q| <= out.size;
        assert next.best >= |q|;
      } else if st.k - 1 == t {
        assert Search(g, gamma, all, solver, next).best >= next.best >= 0;
      } else {
        FinalBestAtLeast(g, gamma, all, solver, next, degeneracy, t, q);
      }
    } else {
      CapMonotone(0, st.k, gamma);
      CapMonotone(st.k, degeneracy + 1, gamma);
      GuardIsCap(st.k, gamma);
      CapMonotone(t, st.k, gamma);
    }
  }

  /** The empty vertex set is a quasi-clique of size 0. */
  lemma EmptyQuasiClique(g: Graph, gamma: real)
    ensures IsQuasiClique(g, {}, gamma)
  {
  }

  /** currentMax is the size of a quasi-clique: a kept list, or the empty
      set when nothing is kept. */
  lemma KeptIsAchieved(g: Graph, gamma: real, all: bool, st: Run)
    requires Kept(g, gamma, all, st)
    ensures exists q :: IsQuasiClique(g, q, gamma) && |q| == st.best
  {
    if st.best == 0 {
      var none: set<VertexId> := {};
      EmptyQuasiClique(g, gamma);
      assert IsQuasiClique(g, none, gamma) && |none| == st.best;
    } else {
      DistinctCard(st.sols[0]);
      assert IsQuasiClique(g, Elements(st.sols[0]), gamma) && |Elements(st.sols[0])| == st.best;
    }
  }

  /** A non-empty quasi-clique q is a capped core at the threshold
      ceil(gamma * (|q| - 1)). */
  lemma Threshold(g: Graph, q: set<VertexId>, gamma: real) returns (t: int)
    requires 0.0 < gamma && q != {} && IsQuasiClique(g, q, gamma)
    ensures 0 <= t && IsCappedCore(g, q, t, gamma)
  {
    var n := |q|;
    t := Ceil(gamma * (n - 1) as real);
    QuasiCliqueIsThresholdCore(g, q, gamma);
    ThresholdFitsCap(n, gamma);
    assert SizeCap(t, gamma) >= n;
  }

  /** No quasi-clique is larger than the final currentMax: the threshold
      ceil(gamma * (|q| - 1)) of a quasi-clique q is at most the degeneracy,
      and q is a capped core there. */
  lemma NoLargerQuasiClique(g: Graph, gamma: real, all: bool, solver: Solver, degeneracy: int, q: set<VertexId>)
    requires ValidGraph(g) && IsDegeneracy(g, degeneracy)
    requires 0.0 < gamma <= 1.0 && SizeCap(degeneracy + 1, gamma) <= MaxInt64
    requires forall k :: -1 <= k <= degeneracy ==>
               SoundAnswer(g, gamma, k, all, solver(g, gamma, k, all)) && CompleteAnswer(g, gamma, k, all, solver(g, gamma, k, all))
    requires IsQuasiClique(g, q, gamma)
    ensures |q| <= Search(g, gamma, all, solver, Start(degeneracy)).best
  {
    if q != {} {
      var t := Threshold(g, q, gamma);
      CoreBelowDegeneracy(g, degeneracy, q, t);
      FinalBestAtLeast(g, gamma, all, solver, Start(degeneracy), degeneracy, t, q);
    }
  }

  /** The main theorem: with gamma in (0, 1], a bound that fits int64, and a
      solver that answers soundly and exactly at every k from the degeneracy
      down to -1, the loop ends with currentMax the size of a maximum
      gamma-quasi-clique and currentSolution a list of such quasi-cliques. */
  lemma DDAFindsMaximum(g: Graph, gamma: real, all: bool, solver: Solver, degeneracy: int)
    requires ValidGraph(g) && IsDegeneracy(g, degeneracy)
    requires 0.0 < gamma <= 1.0 && SizeCap(degeneracy + 1, gamma) <= MaxInt64
    requires forall k :: -1 <= k <= degeneracy ==>
               SoundAnswer(g, gamma, k, all, solver(g, gamma, k, all)) && CompleteAnswer(g, gamma, k, all, solver(g, gamma, k, all))
    ensures IsMaxQuasiCliqueSize(g, gamma, Search(g, gamma, all, solver, Start(degeneracy)).best)
    ensures Kept(g, gamma, all, Search(g, gamma, all, solver, Start(degeneracy)))
  {
    var r := Search(g, gamma, all, solver, Start(degeneracy));
    SearchKeeps(g, gamma, all, solver, Start(degeneracy));
    KeptIsAchieved(g, gamma, all, r);
    forall q | IsQuasiClique(g, q, gamma)
      ensures |q| <= r.best
    {
      NoLargerQuasiClique(g, gamma, all, solver, degeneracy, q);
    }
  }

  // ---------------------------------------------------------------------
  // Induced subgraphs

  /** The subgraph of `g` induced by `s`. */
  function Induced(g: Graph, s: set<VertexId>): (h: Graph)
    ensures h.Keys == s
    ensures forall u :: u in h ==> h[u] <= s
    ensures forall u, v :: u in s && v in s ==> (v in h[u] <==> HasEdge(g, u, v))
  {
    map u | u in s :: if u in g then g[u] * s else {}
  }

  /** An induced subgraph of a simple graph is simple. */
  lemma InducedIsSimple(g: Graph, s: set<VertexId>)
    requires ValidGraph(g)
    ensures ValidGraph(Induced(g, s))
  {
  }

  /** Inside `s`, every vertex keeps its degree in the induced subgraph. */
  lemma InducedDegrees(g: Graph, s: set<VertexId>)
    ensures forall v :: v in s ==> DegreeIn(Induced(g, s), v, s) == DegreeIn(g, v, s)
  {
    var h := Induced(g, s);
    forall v | v in s
      ensures DegreeIn(h, v, s) == DegreeIn(g, v, s)
    {
      assert h[v] * s == (if v in g then g[v] * s else {});
    }
  }

  /** A quasi-clique of the input is one of the subgraph it induces, over all
      of that subgraph's vertices. */
  lemma InducedQuasiClique(g: Graph, s: set<VertexId>, gamma: real)
    requires IsQuasiClique(g, s, gamma)
    ensures IsQuasiClique(Induced(g, s), s, gamma)
  {
    InducedDegrees(g, s);
  }

  /** gonum's SetEdge on an undirected graph: both directions. */
  function SetEdge(h: Graph, u: VertexId, v: VertexId): Graph
    requires u in h && v in h
  {
    h[u := h[u] + {v}][v := h[v] + {u}]
  }

  /** The edges set between outer nodes: those of `g` between two members of
      `s` with an end in `done`. */
  ghost predicate Settled(g: Graph, s: set<VertexId>, h: Graph, done: set<VertexId>) {
    && h.Keys == s
    && (forall u :: u in h ==> h[u] <= s)
    && forall u, v :: u in s && v in s ==> (v in h[u] <==> HasEdge(g, u, v) && (u in done || v in done))
  }

  /** The edges already set inside the inner loop: those of Settled, and
      those of `g` with one end the current outer vertex `o` and the other
      in `inner`. */
  ghost predicate Linked(g: Graph, s: set<VertexId>, h: Graph, done: set<VertexId>, o: VertexId, inner: set<VertexId>) {
    && h.Keys == s
    && (forall u :: u in h ==> h[u] <= s)
    && forall u, v :: u in s && v in s ==>
         (v in h[u] <==> HasEdge(g, u, v) && (u in done || v in done || (u == o && v in inner) || (v == o && u in inner)))
  }

  lemma LinkStep(g: Graph, s: set<VertexId>, h: Graph, done: set<VertexId>, o: VertexId, inner: set<VertexId>, i: VertexId)
    requires ValidGraph(g) && Linked(g, s, h, done, o, inner) && o in s && i in s
    ensures var h' := if HasEdge(g, i, o) then SetEdge(h, i, o) else h;
      Linked(g, s, h', done, o, inner + {i})
  {
  }

  lemma LinkOuter(g: Graph, s: set<VertexId>, h: Graph, done: set<VertexId>, o: VertexId)
    requires Linked(g, s, h, done, o, s)
    ensures Settled(g, s, h, done + {o})
  {
  }

  lemma LinkedIsInduced(g: Graph, s: set<VertexId>, h: Graph)
    requires Settled(g, s, h, s)
    ensures h == Induced(g, s)
  {
    var want := Induced(g, s);
    forall u | u in s
      ensures h[u] == want[u]
    {
      assert forall v :: v in h[u] <==> v in want[u];
    }
  }

  /** The output construction for one solution: add its nodes, then for every
      two nodes of the new graph add the edge when the input graph has it. */
  method InducedSubgraph(g: Graph, nodes: NodeList) returns (h: Graph)
    requires ValidGraph(g)
    ensures h == Induced(g, Elements(nodes))
  {
    h := map[];
    var i := 0;
    while i < |nodes|
      invariant 0 <= i <= |nodes|
      invariant h.Keys == Elements(nodes[..i])
      invariant forall u :: u in h ==> h[u] == {}
    {
      assert nodes[..i + 1] == nodes[..i] + [nodes[i]];
      if nodes[i] !in h {
        h := h[nodes[i] := {}];
      }
      i := i + 1;
    }
    assert nodes[..i] == nodes;
    ghost var s := h.Keys;
    ghost var done: set<VertexId> := {};
    var outerIt := h.Keys;
    while outerIt != {}
      invariant done == s - outerIt && outerIt <= s
      invariant Settled(g, s, h, done)
    {
      ghost var some := ElementOf(outerIt);
      var outer :| outer in outerIt;
      outerIt := outerIt - {outer};
      var innerIt := h.Keys;
      ghost var seen: set<VertexId> := {};
      while innerIt != {}
        invariant seen == s - innerIt && innerIt <= s
        invariant Linked(g, s, h, done, outer, seen)
      {
        ghost var one := ElementOf(innerIt);
        var inner :| inner in innerIt;
        innerIt := innerIt - {inner};
        LinkStep(g, s, h, done, outer, seen, inner);
        if HasEdge(g, inner, outer) {
          h := SetEdge(h, inner, outer);
        }
        seen := seen + {inner};
      }
      LinkOuter(g, s, h, done, outer);
      done := done + {outer};
    }
    LinkedIsInduced(g, s, h);
  }

  // ---------------------------------------------------------------------
  // DDA

  /** The k-loop of DDA, from k = degeneracy + 1: it ends in the state Search
      describes. */
  method Descend(g: Graph, gamma: real, all: bool, solver: Solver, degeneracy: int)
    returns (best: int, sols: seq<NodeList>)
    requires 0.0 <= gamma <= 1.0 && degeneracy >= 0
    ensures best == Search(g, gamma, all, solver, Start(degeneracy)).best
    ensures sols == Search(g, gamma, all, solver, Start(degeneracy)).sols
  {
    var k := degeneracy + 1;
    best := 0;
    sols := [];
    ghost var calls: seq<int> := [];
    while best < GuardCap(k, gamma)
      invariant k >= -1 && best >= 0
      invariant Search(g, gamma, all, solver, Run(k, best, sols, calls)) == Search(g, gamma, all, solver, Start(degeneracy))
      decreases k + 1
    {
      GuardBelowZero(k, gamma);
      k := k - 1;
      calls := calls + [k];
      var out := solver(g, gamma, k, all);
      // a solver error is only logged
      if out.nodes.Some? && out.size > best {
        best := out.size;
        sols := out.nodes.value;
      }
    }
  }

  /** One induced subgraph of the input per kept solution, in order. */
  method BuildOutputs(g: Graph, sols: seq<NodeList>) returns (res: seq<Graph>)
    requires ValidGraph(g)
    ensures |res| == |sols|
    ensures forall i :: 0 <= i < |res| ==> res[i] == Induced(g, Elements(sols[i]))
  {
    res := [];
    var i := 0;
    while i < |sols|
      invariant 0 <= i <= |sols| && |res| == i
      invariant forall j :: 0 <= j < i ==> res[j] == Induced(g, Elements(sols[j]))
    {
      var h := InducedSubgraph(g, sols[i]);
      res := res + [h];
      i := i + 1;
    }
  }

  /** DDA: validate the options; compute the degeneracy; run the k-loop; turn
      every kept solution into the subgraph it induces. The ghost result is
      the degeneracy the loop started from. */
  method DDA(opts: Opts) returns (res: seq<Graph>, size: int, err: Option<ValidationError>, ghost degeneracy: int)
    requires opts.inputGraph.Some? ==> ValidGraph(opts.inputGraph.value)
    ensures Validate(opts).Some? ==> res == [] && size == 0 && err == Validate(opts)
    ensures Validate(opts).None? ==>
              && err.None?
              && opts.solver.Some? && opts.inputGraph.Some? && 0.0 <= opts.gamma <= 1.0
              && IsDegeneracy(opts.inputGraph.value, degeneracy)
              && var r := Search(opts.inputGraph.value, opts.gamma, opts.solveMode == AllSolutions,
                                 opts.solver.value, Start(degeneracy));
                 && size == r.best
                 && |res| == |r.sols|
                 && forall i :: 0 <= i < |res| ==> res[i] == Induced(opts.inputGraph.value, Elements(r.sols[i]))
  {
    res, size, err := [], 0, Validate(opts);
    degeneracy := 0;
    if err.Some? {
      return;
    }
    ValidOptions(opts);
    var g := opts.inputGraph.value;
    var deg := GraphDegeneracy(g);
    degeneracy := deg;
    var sols;
    size, sols := Descend(g, opts.gamma, opts.solveMode == AllSolutions, opts.solver.value, deg);
    res := BuildOutputs(g, sols);
  }
}
