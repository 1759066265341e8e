/** The gamma-QC(k) solver backed by a mixed-integer program (GLPK in the
    repository). Column j is the binary variable "vertex order[j] is in the
    quasi-clique" (GLPK's column j + 1); the objective maximises the number
    of chosen vertices; row i says that a chosen vertex order[i] has at least
    k chosen neighbours; a last row caps the size at floor(k / gamma) + 1.
    The MIP engine itself is an oracle: a function from problems to answers
    whose promises are stated by OracleSound and OracleComplete. */
module Yqck {
  import opened Graphs

  /** The tolerance of isOne. */
  const Eps: real := 0.000001

  /** isOne: a column value within Eps of 1 means "chosen". */
  predicate IsOne(v: real) {
    1.0 - Eps <= v <= 1.0 + Eps
  }

  /** GLPK row bounds as the solver uses them: GLP_LO and GLP_UP. */
  datatype Bound = AtLeast(lo: real) | AtMost(hi: real)

  /** One constraint row: a coefficient per column and a bound. */
  datatype Row = Row(coefs: seq<real>, bound: Bound)

  /** A maximisation problem over `numCols` binary columns. */
  datatype Problem = Problem(numCols: nat, objCoefs: seq<real>, rows: seq<Row>)

  /** What one Intopt run reports: an optimal solution (MipStatus OPT with its
      column values and objective value), another status, or an error. */
  datatype Answer = Optimal(colVals: seq<real>, objVal: real) | NotOptimal | Failed

  /** The MIP engine. */
  type Oracle = Problem -> Answer

  // ---------------------------------------------------------------------
  // Evaluating rows on a 0/1 assignment

  /** The sum of the first m coefficients of the chosen columns. */
  function ActivityUpTo(c: seq<real>, x: seq<bool>, m: nat): real
    requires m <= |c| && m <= |x|
  {
    if m == 0 then 0.0 else ActivityUpTo(c, x, m - 1) + (if x[m - 1] then c[m - 1] else 0.0)
  }

  function Activity(c: seq<real>, x: seq<bool>): real
    requires |c| == |x|
  {
    ActivityUpTo(c, x, |x|)
  }

  predicate BoundHolds(b: Bound, a: real) {
    match b
    case AtLeast(lo) => lo <= a
    case AtMost(hi) => a <= hi
  }

  predicate Holds(r: Row, x: seq<bool>) {
    |r.coefs| == |x| && BoundHolds(r.bound, Activity(r.coefs, x))
  }

  /** Every row and the objective have one coefficient per column. */
  predicate WellFormed(p: Problem) {
    && |p.objCoefs| == p.numCols
    && forall i :: 0 <= i < |p.rows| ==> |p.rows[i].coefs| == p.numCols
  }

  /** A 0/1 assignment that satisfies every row. */
  predicate Feasible(p: Problem, x: seq<bool>) {
    |x| == p.numCols && forall i :: 0 <= i < |p.rows| ==> Holds(p.rows[i], x)
  }

  /** The 0/1 reading of column values through isOne. */
  function Rounded(vals: seq<real>): seq<bool> {
    seq(|vals|, j requires 0 <= j < |vals| => IsOne(vals[j]))
  }

  /** An optimal answer: its 0/1 reading is feasible, the objective value is
      the objective of that reading, and no feasible assignment does better. */
  ghost predicate OptimalFor(p: Problem, a: Answer) {
    && a.Optimal?
    && |p.objCoefs| == p.numCols
    && |a.colVals| == p.numCols
    && Feasible(p, Rounded(a.colVals))
    && a.objVal == Activity(p.objCoefs, Rounded(a.colVals))
    && forall y :: Feasible(p, y) ==> Activity(p.objCoefs, y) <= a.objVal
  }

  /** The engine never reports a wrong optimum. */
  ghost predicate OracleSound(o: Oracle) {
    forall p :: WellFormed(p) && o(p).Optimal? ==> OptimalFor(p, o(p))
  }

  /** The engine is exact: it answers anything but OPT, a non-OPT status or
      an error, only for a problem that has no feasible assignment. With the
      presolver on, as Solve configures it, GLPK's intopt reports an
      infeasible problem as an error rather than as a status. */
  ghost predicate OracleComplete(o: Oracle) {
    forall p :: WellFormed(p) && !o(p).Optimal? ==> forall y :: !Feasible(p, y)
  }

  // ---------------------------------------------------------------------
  // The gamma-QC(k) problem of a graph

  /** The vertices whose columns are chosen among the first m. */
  function SelUpTo(order: NodeList, x: seq<bool>, m: nat): set<VertexId>
    requires m <= |x| && m <= |order|
  {
    set j | 0 <= j < m && x[j] :: order[j]
  }

  /** The vertex set a 0/1 assignment chooses. */
  function Sel(order: NodeList, x: seq<bool>): set<VertexId>
    requires |x| == |order|
  {
    SelUpTo(order, x, |x|)
  }

  /** Row i: -k at column i, 1 at the columns of the neighbours of order[i],
      0 elsewhere; bounded below by 0. */
  function VertexRow(g: Graph, order: NodeList, k: int, i: nat): Row
    requires i < |order|
  {
    Row(seq(|order|, j requires 0 <= j < |order| =>
          if i == j then -(k as real) else if HasEdge(g, order[i], order[j]) then 1.0 else 0.0),
        AtLeast(0.0))
  }

  function Ones(n: nat): seq<real> {
    seq(n, _ => 1.0)
  }

  /** The last row: at most floor(k / gamma) + 1 chosen vertices. */
  function CapRow(n: nat, k: int, gamma: real): Row
    requires gamma != 0.0
  {
    Row(Ones(n), AtMost(SizeCap(k, gamma) as real))
  }

  /** The problem Solve hands to the engine first. */
  function InitialProblem(g: Graph, order: NodeList, gamma: real, k: int): Problem
    requires gamma != 0.0
  {
    Problem(|order|, Ones(|order|),
            seq(|order|, i requires 0 <= i < |order| => VertexRow(g, order, k, i)) + [CapRow(|order|, k, gamma)])
  }

  /** The row that forbids a previous solution: 1 at its columns `prev`,
      and a sum of at most size - 0.5. */
  function ExclusionRow(n: nat, prev: seq<int>, size: int): Row {
    Row(seq(n, j => if j in prev then 1.0 else 0.0), AtMost(size as real - 0.5))
  }

  /** The column indices an assignment chooses, in column order. */
  function PickedIdx(x: seq<bool>): seq<int> {
    if x == [] then [] else PickedIdx(x[..|x| - 1]) + (if x[|x| - 1] then [|x| - 1] else [])
  }

  /** The vertices an assignment chooses, in column order. */
  function Picked(order: NodeList, x: seq<bool>): NodeList
    requires |x| <= |order|
  {
    if x == [] then [] else Picked(order, x[..|x| - 1]) + (if x[|x| - 1] then [order[|x| - 1]] else [])
  }

  /** One exclusion row per earlier solution. */
  function Exclusions(n: nat, found: seq<seq<bool>>, size: int): seq<Row> {
    seq(|found|, i requires 0 <= i < |found| => ExclusionRow(n, PickedIdx(found[i]), size))
  }

  function WithExclusions(p0: Problem, found: seq<seq<bool>>, size: int): Problem {
    p0.(rows := p0.rows + Exclusions(p0.numCols, found, size))
  }

  /** Go's int64 conversion of a float: truncation toward zero. */
  function Trunc(r: real): (t: int)
    ensures r >= 0.0 ==> 0 <= t && t as real <= r < (t + 1) as real
    ensures r < 0.0 ==> t <= 0 && (t - 1) as real < r <= t as real
  {
    if r >= 0.0 then r.Floor else -((-r).Floor)
  }

  /** Every 0/1 assignment of length n. */
  function AllBools(n: nat): set<seq<bool>> {
    if n == 0 then {[]}
    else (set y | y in AllBools(n - 1) :: y + [false]) + (set y | y in AllBools(n - 1) :: y + [true])
  }

  /** The assignment that chooses exactly the vertices of s. */
  function Indicator(order: NodeList, s: set<VertexId>): seq<bool> {
    seq(|order|, j requires 0 <= j < |order| => order[j] in s)
  }

  // ---------------------------------------------------------------------
  // Counting lemmas

  /** A row whose coefficient is 1 at the columns of the vertices of t and 0
      elsewhere, except for one column `diag` outside t that carries dk,
      sums to the number of chosen vertices in t, plus dk if diag is chosen. */
  lemma {:induction false} IndicatorActivity(c: seq<real>, order: NodeList, x: seq<bool>,
                                             t: set<VertexId>, diag: int, dk: real, m: nat)
    requires |c| == |x| == |order| && m <= |x| && Distinct(order)
    requires forall j :: 0 <= j < m ==> c[j] == (if j == diag then dk else if order[j] in t then 1.0 else 0.0)
    requires 0 <= diag < |order| ==> order[diag] !in t
    ensures ActivityUpTo(c, x, m) == |SelUpTo(order, x, m) * t| as real + (if 0 <= diag < m && x[diag] then dk else 0.0)
  {
    if m > 0 {
      IndicatorActivity(c, order, x, t, diag, dk, m - 1);
      SelCardStep(order, x, t, m);
      if m - 1 == diag {
        assert c[m - 1] == dk && order[m - 1] !in t;
      } else {
        assert c[m - 1] == (if order[m - 1] in t then 1.0 else 0.0);
      }
    }
  }

  /** Column m - 1 adds its vertex to the chosen vertices in t exactly when it
      is chosen and its vertex is in t. */
  lemma SelCardStep(order: NodeList, x: seq<bool>, t: set<VertexId>, m: nat)
    requires 0 < m <= |x| && m <= |order| && Distinct(order)
    ensures |SelUpTo(order, x, m) * t| == |SelUpTo(order, x, m - 1) * t| + (if x[m - 1] && order[m - 1] in t then 1 else 0)
  {
    SelStep(order, x, m);
    var v := order[m - 1];
    var before := SelUpTo(order, x, m - 1) * t;
    if x[m - 1] && v in t {
      assert SelUpTo(order, x, m) * t == before + {v};
    } else {
      assert SelUpTo(order, x, m) * t == before;
    }
  }

  /** Choosing among m columns adds column m - 1 to the choice among m - 1,
      and that vertex was not chosen before. */
  lemma SelStep(order: NodeList, x: seq<bool>, m: nat)
    requires 0 < m <= |x| && m <= |order| && Distinct(order)
    ensures SelUpTo(order, x, m) == SelUpTo(order, x, m - 1) + (if x[m - 1] then {order[m - 1]} else {})
    ensures order[m - 1] !in SelUpTo(order, x, m - 1)
  {
  }

  /** The chosen vertices are among the listed ones. */
  lemma SelInOrder(order: NodeList, x: seq<bool>)
    requires |x| == |order|
    ensures Sel(order, x) <= Elements(order)
  {
  }

  /** The objective counts the chosen vertices. */
  lemma OnesActivity(order: NodeList, x: seq<bool>)
    requires |x| == |order| && Distinct(order)
    ensures Activity(Ones(|order|), x) == |Sel(order, x)| as real
  {
    IndicatorActivity(Ones(|order|), order, x, Elements(order), -1, 0.0, |x|);
    assert Sel(order, x) * Elements(order) == Sel(order, x);
  }

  /** Row i sums to the number of chosen neighbours of order[i], minus k
      when order[i] is itself chosen. */
  lemma VertexRowActivity(g: Graph, order: NodeList, k: int, i: nat, x: seq<bool>)
    requires ValidGraph(g) && Distinct(order) && Elements(order) == g.Keys
    requires i < |order| && |x| == |order|
    ensures Activity(VertexRow(g, order, k, i).coefs, x)
            == DegreeIn(g, order[i], Sel(order, x)) as real - (if x[i] then k as real else 0.0)
  {
    var v := order[i];
    assert v in g;
    IndicatorActivity(VertexRow(g, order, k, i).coefs, order, x, g[v], i, -(k as real), |x|);
    assert Sel(order, x) * g[v] == g[v] * Sel(order, x);
  }

  /** The exclusion row of y sums to the number of vertices chosen by both. */
  lemma ExclusionActivity(order: NodeList, y: seq<bool>, size: int, x: seq<bool>)
    requires Distinct(order) && |y| == |order| && |x| == |order|
    ensures Activity(ExclusionRow(|order|, PickedIdx(y), size).coefs, x) == |Sel(order, x) * Sel(order, y)| as real
  {
    PickedIdxMembers(y);
    var c := ExclusionRow(|order|, PickedIdx(y), size).coefs;
    forall j | 0 <= j < |order|
      ensures c[j] == if order[j] in Sel(order, y) then 1.0 else 0.0
    {
      if order[j] in Sel(order, y) {
        var a :| 0 <= a < |y| && y[a] && order[a] == order[j];
        assert a == j;
      }
    }
    IndicatorActivity(c, order, x, Sel(order, y), -1, 0.0, |x|);
  }

  lemma {:induction false} PickedIdxMembers(x: seq<bool>)
    ensures forall j :: j in PickedIdx(x) <==> 0 <= j < |x| && x[j]
  {
    if x != [] {
      PickedIdxMembers(x[..|x| - 1]);
    }
  }

  /** The chosen vertices in column order list the chosen set without
      repetition. */
  lemma {:induction false} PickedLists(order: NodeList, x: seq<bool>)
    requires Distinct(order) && |x| <= |order|
    ensures Elements(Picked(order, x)) == SelUpTo(order, x, |x|)
    ensures Distinct(Picked(order, x))
    ensures |Picked(order, x)| == |SelUpTo(order, x, |x|)|
  {
    if x != [] {
      var m := |x| - 1;
      var init := x[..m];
      PickedLists(order, init);
      assert SelUpTo(order, init, m) == SelUpTo(order, x, m);
      assert order[m] !in SelUpTo(order, x, m);
      if x[m] {
        assert SelUpTo(order, x, |x|) == SelUpTo(order, x, m) + {order[m]};
      } else {
        assert SelUpTo(order, x, |x|) == SelUpTo(order, x, m);
      }
      DistinctCard(Picked(order, x));
    }
  }

  /** The extracted solution lists, without repetition, exactly the vertices
      whose column value isOne accepts. */
  lemma PickedAreOnes(order: NodeList, vals: seq<real>)
    requires Distinct(order) && |vals| == |order|
    ensures Distinct(Picked(order, Rounded(vals)))
    ensures forall j :: 0 <= j < |order| ==> (order[j] in Picked(order, Rounded(vals)) <==> IsOne(vals[j]))
  {
    var x := Rounded(vals);
    PickedLists(order, x);
    forall j | 0 <= j < |order|
      ensures order[j] in Picked(order, x) <==> IsOne(vals[j])
    {
      if order[j] in SelUpTo(order, x, |x|) {
        var j' :| 0 <= j' < |x| && x[j'] && order[j'] == order[j];
        assert j' == j;
      }
    }
  }

  /** A prefix chooses no more vertices than the whole assignment. */
  lemma {:induction false} PickedPrefix(order: NodeList, x: seq<bool>, i: nat)
    requires i <= |x| <= |order|
    ensures |Picked(order, x[..i])| <= |Picked(order, x)|
    decreases |x|
  {
    if i < |x| {
      var m := |x| - 1;
      assert x[..m][..i] == x[..i];
      PickedPrefix(order, x[..m], i);
    } else {
      assert x[..i] == x;
    }
  }

  /** The indicator of a set of listed vertices chooses exactly that set. */
  lemma IndicatorSel(order: NodeList, s: set<VertexId>)
    requires s <= Elements(order)
    ensures Sel(order, Indicator(order, s)) == s
  {
    var x := Indicator(order, s);
    forall v | v in s
      ensures v in Sel(order, x)
    {
      var j :| 0 <= j < |order| && order[j] == v;
      assert x[j];
    }
  }

  lemma {:induction false} AllBoolsComplete(y: seq<bool>)
    ensures y in AllBools(|y|)
  {
    if y != [] {
      var init := y[..|y| - 1];
      AllBoolsComplete(init);
      if y[|y| - 1] {
        assert y == init + [true];
      } else {
        assert y == init + [false];
      }
    }
  }

  // ---------------------------------------------------------------------
  // What the rows mean

  /** A vertex row holds exactly when its vertex, if chosen, has at least k
      chosen neighbours. */
  lemma VertexRowHolds(g: Graph, order: NodeList, k: int, i: nat, x: seq<bool>)
    requires ValidGraph(g) && Distinct(order) && Elements(order) == g.Keys
    requires i < |order| && |x| == |order|
    ensures Holds(VertexRow(g, order, k, i), x) <==> (x[i] ==> DegreeIn(g, order[i], Sel(order, x)) >= k)
  {
    VertexRowActivity(g, order, k, i, x);
  }

  /** The cap row holds exactly when at most SizeCap vertices are chosen. */
  lemma CapRowHolds(order: NodeList, k: int, gamma: real, x: seq<bool>)
    requires Distinct(order) && |x| == |order| && gamma != 0.0
    ensures Holds(CapRow(|order|, k, gamma), x) <==> |Sel(order, x)| <= SizeCap(k, gamma)
  {
    OnesActivity(order, x);
  }

  /** The feasible assignments of the initial problem are exactly the capped
      cores: each chosen vertex has at least k chosen neighbours and at most
      floor(k / gamma) + 1 vertices are chosen. */
  lemma InitialFeasibleIff(g: Graph, order: NodeList, gamma: real, k: int, x: seq<bool>)
    requires ValidGraph(g) && Distinct(order) && Elements(order) == g.Keys && gamma != 0.0
    requires |x| == |order|
    ensures Feasible(InitialProblem(g, order, gamma, k), x) <==> IsCappedCore(g, Sel(order, x), k, gamma)
  {
    var p := InitialProblem(g, order, gamma, k);
    var n := |order|;
    var s := Sel(order, x);
    forall i | 0 <= i < n
      ensures p.rows[i] == VertexRow(g, order, k, i)
      ensures Holds(p.rows[i], x) <==> (x[i] ==> DegreeIn(g, order[i], s) >= k)
    {
      VertexRowHolds(g, order, k, i, x);
    }
    assert p.rows[n] == CapRow(n, k, gamma);
    CapRowHolds(order, k, gamma, x);
    SelInOrder(order, x);
    if Feasible(p, x) {
      forall v | v in s
        ensures DegreeIn(g, v, s) >= k
      {
        var j :| 0 <= j < n && x[j] && order[j] == v;
        assert Holds(p.rows[j], x);
      }
    }
    if IsCappedCore(g, s, k, gamma) {
      forall i | 0 <= i < |p.rows|
        ensures Holds(p.rows[i], x)
      {
        if i < n && x[i] {
          assert order[i] in s;
        }
      }
    }
  }

  /** The exclusion row of an earlier solution y of size `size` holds exactly
      when x does not choose all of y's vertices. */
  lemma ExclusionRowHolds(order: NodeList, y: seq<bool>, size: int, x: seq<bool>)
    requires Distinct(order) && |y| == |order| && |x| == |order|
    requires |Sel(order, y)| == size
    ensures Holds(ExclusionRow(|order|, PickedIdx(y), size), x) <==> !(Sel(order, y) <= Sel(order, x))
  {
    ExclusionActivity(order, y, size, x);
    var both := Sel(order, x) * Sel(order, y);
    SubsetCard(both, Sel(order, y));
    if Sel(order, y) <= Sel(order, x) {
      assert both == Sel(order, y);
    }
  }

  /** After adding the exclusion rows of `found`, the feasible assignments
      are the capped cores that contain no earlier solution. */
  lemma ExcludedFeasibleIff(g: Graph, order: NodeList, gamma: real, k: int, size: int,
                            found: seq<seq<bool>>, x: seq<bool>)
    requires ValidGraph(g) && Distinct(order) && Elements(order) == g.Keys && gamma != 0.0
    requires |x| == |order|
    requires forall i :: 0 <= i < |found| ==> |found[i]| == |order| && |Sel(order, found[i])| == size
    ensures Feasible(WithExclusions(InitialProblem(g, order, gamma, k), found, size), x)
            <==> IsCappedCore(g, Sel(order, x), k, gamma)
                 && forall i :: 0 <= i < |found| ==> !(Sel(order, found[i]) <= Sel(order, x))
  {
    var p0 := InitialProblem(g, order, gamma, k);
    var p := WithExclusions(p0, found, size);
    var m := |p0.rows|;
    InitialFeasibleIff(g, order, gamma, k, x);
    forall i | 0 <= i < |found|
      ensures p.rows[m + i] == ExclusionRow(|order|, PickedIdx(found[i]), size)
      ensures Holds(p.rows[m + i], x) <==> !(Sel(order, found[i]) <= Sel(order, x))
    {
      ExclusionRowHolds(order, found[i], size, x);
    }
    assert forall i :: 0 <= i < m ==> p.rows[i] == p0.rows[i];
    if Feasible(p, x) {
      forall i | 0 <= i < |found|
        ensures !(Sel(order, found[i]) <= Sel(order, x))
      {
        assert Holds(p.rows[m + i], x);
      }
      assert Feasible(p0, x) by {
        forall i | 0 <= i < m
          ensures Holds(p0.rows[i], x)
        {
          assert Holds(p.rows[i], x);
        }
      }
    }
    if Feasible(p0, x) && forall i :: 0 <= i < |found| ==> !(Sel(order, found[i]) <= Sel(order, x)) {
      forall i | 0 <= i < |p.rows|
        ensures Holds(p.rows[i], x)
      {
        if i < m {
          assert Holds(p0.rows[i], x);
        } else {
          assert Holds(p.rows[m + (i - m)], x);
        }
      }
    }
  }

  /** The problems Solve builds have one coefficient per column everywhere. */
  lemma WithExclusionsWellFormed(g: Graph, order: NodeList, gamma: real, k: int, size: int, found: seq<seq<bool>>)
    requires gamma != 0.0
    ensures WellFormed(WithExclusions(InitialProblem(g, order, gamma, k), found, size))
    ensures WithExclusions(InitialProblem(g, order, gamma, k), found, size).numCols == |order|
    ensures WithExclusions(InitialProblem(g, order, gamma, k), found, size).objCoefs == Ones(|order|)
  {
    var p0 := InitialProblem(g, order, gamma, k);
    var p := WithExclusions(p0, found, size);
    forall i | 0 <= i < |p.rows|
      ensures |p.rows[i].coefs| == |order|
    {
      if i < |order| {
        assert p.rows[i] == VertexRow(g, order, k, i);
      } else if i == |order| {
        assert p.rows[i] == CapRow(|order|, k, gamma);
      } else {
        assert p.rows[i] == ExclusionRow(|order|, PickedIdx(found[i - |p0.rows|]), size);
      }
    }
  }

  /** Adding one more earlier solution appends its exclusion row. */
  lemma WithExclusionsSnoc(p0: Problem, found: seq<seq<bool>>, y: seq<bool>, size: int)
    ensures WithExclusions(p0, found + [y], size)
            == WithExclusions(p0, found, size).(rows := WithExclusions(p0, found, size).rows + [ExclusionRow(p0.numCols, PickedIdx(y), size)])
  {
    assert Exclusions(p0.numCols, found + [y], size)
        == Exclusions(p0.numCols, found, size) + [ExclusionRow(p0.numCols, PickedIdx(y), size)];
  }

  // ---------------------------------------------------------------------
  // What a sound engine's answers mean

  /** The setting Solve works in: a simple graph whose vertices `order`
      lists once each. */
  ghost predicate Setting(g: Graph, order: NodeList, gamma: real) {
    ValidGraph(g) && Distinct(order) && Elements(order) == g.Keys && gamma != 0.0
  }

  /** At most `size` vertices are chosen by any feasible assignment of p. */
  ghost predicate SizeBound(order: NodeList, p: Problem, size: int) {
    forall x :: |x| == |order| && Feasible(p, x) ==> |Sel(order, x)| <= size
  }

  /** An optimal answer to the problem with the exclusions of `found`
      chooses a capped core containing no earlier solution, its size is the
      truncated objective value, and no feasible assignment chooses more. */
  lemma OptimalAnswer(g: Graph, order: NodeList, gamma: real, k: int, size: int,
                      found: seq<seq<bool>>, oracle: Oracle)
    requires Setting(g, order, gamma) && OracleSound(oracle)
    requires forall i :: 0 <= i < |found| ==> |found[i]| == |order| && |Sel(order, found[i])| == size
    requires oracle(WithExclusions(InitialProblem(g, order, gamma, k), found, size)).Optimal?
    ensures var p := WithExclusions(InitialProblem(g, order, gamma, k), found, size);
            var y := Rounded(oracle(p).colVals);
            && |y| == |order|
            && IsCappedCore(g, Sel(order, y), k, gamma)
            && (forall i :: 0 <= i < |found| ==> !(Sel(order, found[i]) <= Sel(order, y)))
            && Trunc(oracle(p).objVal) == |Sel(order, y)|
            && |Picked(order, y)| == |Sel(order, y)|
            && SizeBound(order, p, |Sel(order, y)|)
  {
    var p := WithExclusions(InitialProblem(g, order, gamma, k), found, size);
    WithExclusionsWellFormed(g, order, gamma, k, size, found);
    var a := oracle(p);
    assert OptimalFor(p, a);
    var y := Rounded(a.colVals);
    ExcludedFeasibleIff(g, order, gamma, k, size, found, y);
    OnesActivity(order, y);
    PickedLists(order, y);
    forall x | |x| == |order| && Feasible(p, x)
      ensures |Sel(order, x)| <= |Sel(order, y)|
    {
      OnesActivity(order, x);
    }
  }

  /** On the initial problem the bound on feasible assignments is a bound
      on every capped core. */
  lemma CappedCoresBounded(g: Graph, order: NodeList, gamma: real, k: int, size: int)
    requires Setting(g, order, gamma)
    requires SizeBound(order, InitialProblem(g, order, gamma, k), size)
    ensures forall s :: IsCappedCore(g, s, k, gamma) ==> |s| <= size
  {
    forall s | IsCappedCore(g, s, k, gamma)
      ensures |s| <= size
    {
      IndicatorSel(order, s);
      InitialFeasibleIff(g, order, gamma, k, Indicator(order, s));
    }
  }

  /** When the enumeration stops without an error and the engine is
      complete, the last problem admits no assignment of the optimal size. */
  lemma NothingLeftAtExit(g: Graph, order: NodeList, gamma: real, k: int, size: int,
                          found: seq<seq<bool>>, oracle: Oracle, last: Answer, lastSize: int, x: seq<bool>)
    requires Setting(g, order, gamma) && OracleSound(oracle) && OracleComplete(oracle)
    requires forall i :: 0 <= i < |found| ==> |found[i]| == |order| && |Sel(order, found[i])| == size
    requires forall s :: IsCappedCore(g, s, k, gamma) ==> |s| <= size
    requires last == oracle(WithExclusions(InitialProblem(g, order, gamma, k), found, size))
    requires last.Optimal? ==> lastSize == Trunc(last.objVal) && lastSize != size
    requires |x| == |order| && |Sel(order, x)| == size
    ensures !Feasible(WithExclusions(InitialProblem(g, order, gamma, k), found, size), x)
  {
    WithExclusionsWellFormed(g, order, gamma, k, size, found);
    if last.Optimal? {
      OptimalAnswer(g, order, gamma, k, size, found, oracle);
    }
  }

  /** When the enumeration stops without an error and the engine is
      complete, every capped core of the optimal size is an earlier solution. */
  lemma EnumerationComplete(g: Graph, order: NodeList, gamma: real, k: int, size: int,
                            found: seq<seq<bool>>, oracle: Oracle, last: Answer, lastSize: int)
    requires Setting(g, order, gamma) && OracleSound(oracle) && OracleComplete(oracle)
    requires forall i :: 0 <= i < |found| ==> |found[i]| == |order| && |Sel(order, found[i])| == size
    requires forall s :: IsCappedCore(g, s, k, gamma) ==> |s| <= size
    requires last == oracle(WithExclusions(InitialProblem(g, order, gamma, k), found, size))
    requires last.Optimal? ==> lastSize == Trunc(last.objVal) && lastSize != size
    ensures forall s :: IsCappedCore(g, s, k, gamma) && |s| == size ==>
              exists i :: 0 <= i < |found| && Sel(order, found[i]) == s
  {
    forall s | IsCappedCore(g, s, k, gamma) && |s| == size
      ensures exists i :: 0 <= i < |found| && Sel(order, found[i]) == s
    {
      var x := Indicator(order, s);
      IndicatorSel(order, s);
      NothingLeftAtExit(g, order, gamma, k, size, found, oracle, last, lastSize, x);
      ExcludedFeasibleIff(g, order, gamma, k, size, found, x);
      var i :| 0 <= i < |found| && Sel(order, found[i]) <= s;
      SubsetCard(Sel(order, found[i]), s);
    }
  }

  // ---------------------------------------------------------------------
  // Solve

  /** Build the initial problem: number the columns after the node
      iterator, then write one row per vertex and the cap row. */
  method BuildProblem(g: Graph, order: NodeList, gamma: real, k: int) returns (p: Problem)
    requires gamma != 0.0
    ensures p == InitialProblem(g, order, gamma, k)
  {
    var n := |order|;
    var colToNode: map<int, VertexId> := map[];
    var objCoefs: seq<real> := [];
    var ones: seq<real> := [];
    var i := 0;
    while i < n
      invariant 0 <= i <= n
      invariant forall c :: c in colToNode <==> 1 <= c <= i
      invariant forall c :: 1 <= c <= i ==> colToNode[c] == order[c - 1]
      invariant objCoefs == Ones(i) && ones == Ones(i)
    {
      colToNode := colToNode[i + 1 := order[i]];
      objCoefs := objCoefs + [1.0];
      ones := ones + [1.0];
      i := i + 1;
    }
    var rows: seq<Row> := [];
    i := 0;
    while i < n
      invariant 0 <= i <= n
      invariant |rows| == i && forall r :: 0 <= r < i ==> rows[r] == VertexRow(g, order, k, r)
    {
      var coefs := new real[n];
      var j := 0;
      while j < n
        invariant 0 <= j <= n
        invariant forall c :: 0 <= c < j ==> coefs[c] == VertexRow(g, order, k, i).coefs[c]
      {
        var matVal := 0.0;
        if i == j {
          matVal := -(k as real);
        } else if HasEdge(g, colToNode[i + 1], colToNode[j + 1]) {
          matVal := 1.0;
        }
        coefs[j] := matVal;
        j := j + 1;
      }
      assert coefs[..] == VertexRow(g, order, k, i).coefs;
      rows := rows + [Row(coefs[..], AtLeast(0.0))];
      i := i + 1;
    }
    var cap := ((k as real) / gamma).Floor as real + 1.0;
    rows := rows + [Row(ones, AtMost(cap))];
    p := Problem(n, objCoefs, rows);
  }

  /** Read the chosen columns into a buffer of `size` nodes and keep their
      indices for the next exclusion row. */
  method ExtractSelection(order: NodeList, vals: seq<real>, size: int) returns (qc: NodeList, prev: seq<int>)
    requires |vals| == |order|
    requires |Picked(order, Rounded(vals))| == size
    ensures qc == Picked(order, Rounded(vals))
    ensures prev == PickedIdx(Rounded(vals))
  {
    ghost var x := Rounded(vals);
    var buf := new VertexId[size];
    var qcI := 0;
    prev := [];
    var i := 0;
    while i < |vals|
      invariant 0 <= i <= |vals|
      invariant qcI == |Picked(order, x[..i])| <= size
      invariant buf[..qcI] == Picked(order, x[..i])
      invariant prev == PickedIdx(x[..i])
    {
      PickedPrefix(order, x, i + 1);
      assert x[..i + 1][..i] == x[..i];
      if IsOne(vals[i]) {
        buf[qcI] := order[i];
        prev := prev + [i];
        qcI := qcI + 1;
      }
      i := i + 1;
    }
    assert x[..|vals|] == x;
    qc := buf[..];
  }

  /** The exclusion row of the previous solution, from its column indices. */
  method BuildExclusion(n: nat, prev: seq<int>, prevSize: int) returns (r: Row)
    requires forall c :: c in prev ==> 0 <= c < n
    ensures r == ExclusionRow(n, prev, prevSize)
  {
    var coefs := new real[n](_ => 0.0);
    var t := 0;
    while t < |prev|
      invariant 0 <= t <= |prev|
      invariant forall c :: 0 <= c < n ==> coefs[c] == if c in prev[..t] then 1.0 else 0.0
    {
      assert prev[..t + 1] == prev[..t] + [prev[t]];
      assert prev[t] in prev;
      coefs[prev[t]] := 1.0;
      t := t + 1;
    }
    assert prev[..|prev|] == prev;
    r := Row(coefs[..], AtMost(prevSize as real - 0.5));
  }

  /** The solutions collected so far: each is the vertex list of a capped
      core of the optimal size, and no vertex set comes twice. */
  ghost predicate Enumerated(g: Graph, order: NodeList, gamma: real, k: int, size: int,
                             found: seq<seq<bool>>, sols: seq<NodeList>)
    requires gamma != 0.0
  {
    && |found| == |sols| >= 1
    && (forall i :: 0 <= i < |found| ==>
          && |found[i]| == |order|
          && sols[i] == Picked(order, found[i])
          && IsCappedCore(g, Sel(order, found[i]), k, gamma)
          && |Sel(order, found[i])| == size)
    && (forall i, j :: 0 <= i < j < |found| ==> Sel(order, found[i]) != Sel(order, found[j]))
  }

  /** The collected solutions form a sound answer. */
  lemma EnumeratedSound(g: Graph, order: NodeList, gamma: real, k: int, size: int,
                        found: seq<seq<bool>>, sols: seq<NodeList>, allSolutions: bool)
    requires Setting(g, order, gamma) && Enumerated(g, order, gamma, k, size, found, sols)
    requires forall s :: IsCappedCore(g, s, k, gamma) ==> |s| <= size
    requires !allSolutions ==> |sols| == 1
    ensures forall i :: 0 <= i < |sols| ==> Elements(sols[i]) == Sel(order, found[i])
    ensures SoundAnswer(g, gamma, k, allSolutions, SolverOutput(Some(sols), size, None))
  {
    forall i | 0 <= i < |sols|
      ensures Elements(sols[i]) == Sel(order, found[i])
      ensures Distinct(sols[i]) && |sols[i]| == size
    {
      PickedLists(order, found[i]);
    }
  }

  /** A capped core exists whenever the cap is not negative, so a complete
      engine answers the initial problem with an optimum. */
  lemma InitialAnswerOptimal(g: Graph, order: NodeList, gamma: real, k: int, oracle: Oracle)
    requires Setting(g, order, gamma)
    ensures OracleComplete(oracle) && SizeCap(k, gamma) >= 0 ==> oracle(InitialProblem(g, order, gamma, k)).Optimal?
  {
    var none := seq(|order|, _ => false);
    assert Sel(order, none) == {};
    InitialFeasibleIff(g, order, gamma, k, none);
    assert WithExclusions(InitialProblem(g, order, gamma, k), [], 0) == InitialProblem(g, order, gamma, k);
    WithExclusionsWellFormed(g, order, gamma, k, 0, []);
  }

  lemma MeasureShrinks(all: set<seq<bool>>, done: set<seq<bool>>, y: seq<bool>)
    requires y in all && y !in done
    ensures |all - (done + {y})| < |all - done|
  {
    assert all - done == (all - (done + {y})) + {y};
  }

  /** A new capped core of the optimal size that contains no earlier
      solution extends the collected solutions, and was not collected before. */
  lemma EnumeratedSnoc(g: Graph, order: NodeList, gamma: real, k: int, size: int,
                       found: seq<seq<bool>>, sols: seq<NodeList>, y: seq<bool>)
    requires gamma != 0.0 && Enumerated(g, order, gamma, k, size, found, sols)
    requires |y| == |order| && IsCappedCore(g, Sel(order, y), k, gamma) && |Sel(order, y)| == size
    requires forall i :: 0 <= i < |found| ==> !(Sel(order, found[i]) <= Sel(order, y))
    ensures Enumerated(g, order, gamma, k, size, found + [y], sols + [Picked(order, y)])
    ensures y !in found
  {
    var found', sols' := found + [y], sols + [Picked(order, y)];
    forall i | 0 <= i < |found|
      ensures found'[i] == found[i] && sols'[i] == sols[i]
      ensures Sel(order, found[i]) != Sel(order, y)
    {
    }
  }

  /** One more collected assignment leaves fewer unexplored. */
  lemma FoundMeasure(n: nat, found: seq<seq<bool>>, y: seq<bool>)
    requires |y| == n && y !in found
    ensures |AllBools(n) - (set f | f in found + [y])| < |AllBools(n) - (set f | f in found)|
  {
    AllBoolsComplete(y);
    MeasureShrinks(AllBools(n), (set f | f in found), y);
    assert (set f | f in found + [y]) == (set f | f in found) + {y};
  }

  /** Once the first optimum is not empty, the empty selection is a capped
      core that contains no earlier solution, so every re-solve is feasible. */
  lemma EmptySelectionAdmitted(g: Graph, order: NodeList, gamma: real, k: int, size: int,
                               found: seq<seq<bool>>, sols: seq<NodeList>)
    requires Setting(g, order, gamma) && Enumerated(g, order, gamma, k, size, found, sols) && size >= 1
    ensures Feasible(WithExclusions(InitialProblem(g, order, gamma, k), found, size), seq(|order|, _ => false))
  {
    var none := seq(|order|, _ => false);
    assert Sel(order, none) == {};
    assert IsCappedCore(g, Sel(order, found[0]), k, gamma);
    forall i | 0 <= i < |found|
      ensures !(Sel(order, found[i]) <= Sel(order, none))
    {
      assert |Sel(order, found[i])| == size;
    }
    ExcludedFeasibleIff(g, order, gamma, k, size, found, none);
  }

  /** With an exact engine, a re-solve after solutions of a positive size
      always ends in an optimum: an engine error there can only follow an
      empty first optimum. */
  lemma ExclusionAnswerOptimal(g: Graph, order: NodeList, gamma: real, k: int, size: int,
                               found: seq<seq<bool>>, sols: seq<NodeList>, oracle: Oracle)
    requires Setting(g, order, gamma) && Enumerated(g, order, gamma, k, size, found, sols)
    ensures OracleComplete(oracle) && size >= 1 ==>
              oracle(WithExclusions(InitialProblem(g, order, gamma, k), found, size)).Optimal?
  {
    if size >= 1 {
      EmptySelectionAdmitted(g, order, gamma, k, size, found, sols);
      WithExclusionsWellFormed(g, order, gamma, k, size, found);
    }
  }

  /** When the first optimum is empty, its exclusion row 0 <= -0.5 can hold
      for no assignment, so the first re-solve has no feasible assignment. */
  lemma EmptyOptimumExcludesAll(g: Graph, order: NodeList, gamma: real, k: int,
                                found: seq<seq<bool>>, sols: seq<NodeList>, y: seq<bool>)
    requires Setting(g, order, gamma) && Enumerated(g, order, gamma, k, 0, found, sols)
    ensures !Feasible(WithExclusions(InitialProblem(g, order, gamma, k), found, 0), y)
  {
    if |y| == |order| {
      ExcludedFeasibleIff(g, order, gamma, k, 0, found, y);
      assert Sel(order, found[0]) == {};
    } else {
      WithExclusionsWellFormed(g, order, gamma, k, 0, found);
    }
  }

  /** When the all-solutions loop stops without an error, the collected
      solutions form a sound answer, and a complete one when the engine is
      complete. */
  lemma EnumerationResult(g: Graph, order: NodeList, gamma: real, k: int, size: int,
                          found: seq<seq<bool>>, sols: seq<NodeList>, oracle: Oracle, last: Answer, lastSize: int)
    requires Setting(g, order, gamma) && OracleSound(oracle)
    requires Enumerated(g, order, gamma, k, size, found, sols)
    requires forall s :: IsCappedCore(g, s, k, gamma) ==> |s| <= size
    requires last == oracle(WithExclusions(InitialProblem(g, order, gamma, k), found, size))
    requires last.Optimal? ==> lastSize == Trunc(last.objVal)
    requires !(lastSize == size && last.Optimal?)
    ensures SoundAnswer(g, gamma, k, true, SolverOutput(Some(sols), size, None))
    ensures OracleComplete(oracle) ==> CompleteAnswer(g, gamma, k, true, SolverOutput(Some(sols), size, None))
  {
    EnumeratedSound(g, order, gamma, k, size, found, sols, true);
    if OracleComplete(oracle) {
      EnumerationComplete(g, order, gamma, k, size, found, oracle, last, lastSize);
    }
  }

  /** A further optimum of the same size extends the collected solutions
      by a new one, so fewer 0/1 assignments remain unexplored. */
  lemma ExtendEnumeration(g: Graph, order: NodeList, gamma: real, k: int, size: int,
                          found: seq<seq<bool>>, sols: seq<NodeList>, oracle: Oracle, a: Answer)
    requires Setting(g, order, gamma) && OracleSound(oracle)
    requires Enumerated(g, order, gamma, k, size, found, sols)
    requires a == oracle(WithExclusions(InitialProblem(g, order, gamma, k), found, size))
    requires a.Optimal? && Trunc(a.objVal) == size
    ensures |a.colVals| == |order| && |Picked(order, Rounded(a.colVals))| == size
    ensures Enumerated(g, order, gamma, k, size, found + [Rounded(a.colVals)], sols + [Picked(order, Rounded(a.colVals))])
    ensures |AllBools(|order|) - (set f | f in found + [Rounded(a.colVals)])| < |AllBools(|order|) - (set f | f in found)|
  {
    OptimalAnswer(g, order, gamma, k, size, found, oracle);
    var y := Rounded(a.colVals);
    EnumeratedSnoc(g, order, gamma, k, size, found, sols, y);
    FoundMeasure(|order|, found, y);
  }

  /** Every solution after the first is the 0/1 reading of the engine's
      equal-size optimum for the problem that excludes all earlier ones. */
  ghost predicate Traced(oracle: Oracle, p0: Problem, size: int, found: seq<seq<bool>>) {
    forall i :: 1 <= i < |found| ==>
      var a := oracle(WithExclusions(p0, found[..i], size));
      a.Optimal? && Trunc(a.objVal) == size && found[i] == Rounded(a.colVals)
  }

  /** Collecting the equal-size optimum of the next problem keeps the trace. */
  lemma TracedSnoc(oracle: Oracle, p0: Problem, size: int, found: seq<seq<bool>>, a: Answer)
    requires Traced(oracle, p0, size, found)
    requires a == oracle(WithExclusions(p0, found, size)) && a.Optimal? && Trunc(a.objVal) == size
    ensures Traced(oracle, p0, size, found + [Rounded(a.colVals)])
  {
    var found' := found + [Rounded(a.colVals)];
    forall i | 1 <= i < |found'|
      ensures var b := oracle(WithExclusions(p0, found'[..i], size));
              b.Optimal? && Trunc(b.objVal) == size && found'[i] == Rounded(b.colVals)
    {
      if i < |found| {
        assert found'[..i] == found[..i];
      } else {
        assert found'[..i] == found;
      }
    }
  }

  /** One round of the all-solutions loop: add the exclusion row of the
      last solution, solve again, and collect the answer if it is optimal
      with the same size. */
  method Round(g: Graph, order: NodeList, gamma: real, k: int, oracle: Oracle, ghost p0: Problem,
               size: int, p: Problem, prev: seq<int>, sols: seq<NodeList>, ghost found: seq<seq<bool>>)
    returns (p': Problem, ans: Answer, prevSize: int, prev': seq<int>, sols': seq<NodeList>, ghost found': seq<seq<bool>>)
    requires Setting(g, order, gamma) && OracleSound(oracle) && p0 == InitialProblem(g, order, gamma, k)
    requires Enumerated(g, order, gamma, k, size, found, sols)
    requires p == WithExclusions(p0, found[..|found| - 1], size) && prev == PickedIdx(found[|found| - 1])
    ensures p' == WithExclusions(p0, found, size) && ans == oracle(p')
    ensures Enumerated(g, order, gamma, k, size, found', sols')
    ensures |sols'| >= |sols| && sols'[..|sols|] == sols
    ensures ans.Optimal? ==> prevSize == Trunc(ans.objVal)
    ensures !(ans.Optimal? && prevSize == size) ==> found' == found && sols' == sols
    ensures ans.Optimal? && prevSize == size ==>
              && |ans.colVals| == |order|
              && found' == found + [Rounded(ans.colVals)]
              && sols' == sols + [Picked(order, Rounded(ans.colVals))]
              && found'[..|found'| - 1] == found && prev' == PickedIdx(found'[|found'| - 1])
              && |AllBools(|order|) - (set f | f in found')| < |AllBools(|order|) - (set f | f in found)|
  {
    var n := |order|;
    ghost var last := found[|found| - 1];
    PickedIdxMembers(last);
    var row := BuildExclusion(n, prev, size);
    WithExclusionsSnoc(p0, found[..|found| - 1], last, size);
    assert found[..|found| - 1] + [last] == found;
    p' := p.(rows := p.rows + [row]);
    ans := oracle(p');
    prevSize, prev', sols', found' := size, prev, sols, found;
    if ans.Optimal? {
      prevSize := Trunc(ans.objVal);
      prev' := [];
      if prevSize == size {
        ExtendEnumeration(g, order, gamma, k, size, found, sols, oracle, ans);
        var next;
        next, prev' := ExtractSelection(order, ans.colVals, size);
        sols' := sols + [next];
        found' := found + [Rounded(ans.colVals)];
        assert found'[..|found'| - 1] == found;
      }
    }
  }

  /** The all-solutions loop of Solve: starting from the first optimum y0
      of size `size`, exclude the last solution and ask again while the
      engine finds another solution of that size. An engine error abandons
      everything found. */
  method Enumerate(g: Graph, order: NodeList, gamma: real, k: int, oracle: Oracle,
                   p0: Problem, size: int, qc: NodeList, prev: seq<int>, ghost y0: seq<bool>)
    returns (out: SolverOutput, ghost found: seq<seq<bool>>, ghost last: Answer)
    requires Setting(g, order, gamma) && OracleSound(oracle)
    requires p0 == InitialProblem(g, order, gamma, k)
    requires Enumerated(g, order, gamma, k, size, [y0], [qc]) && prev == PickedIdx(y0)
    requires forall s :: IsCappedCore(g, s, k, gamma) ==> |s| <= size
    ensures SoundAnswer(g, gamma, k, true, out)
    ensures OracleComplete(oracle) ==> CompleteAnswer(g, gamma, k, true, out)
    ensures |found| >= 1 && found[0] == y0 && Traced(oracle, p0, size, found)
    ensures last == oracle(WithExclusions(p0, found, size))
    ensures !(last.Optimal? && Trunc(last.objVal) == size)
    ensures out.nodes.None? <==> last.Failed?
    ensures out.nodes.None? ==> out == SolverOutput(None, 0, None)
    ensures out.nodes.Some? ==>
              && out.size == size && out.err.None? && |out.nodes.value| == |found|
              && forall i :: 0 <= i < |found| ==> |found[i]| == |order| && out.nodes.value[i] == Picked(order, found[i])
  {
    var p := p0;
    var ans := Optimal([], 0.0);  // stands for the first solve's OPT status; its values are not read
    var prevSize := size;
    var prev := prev;
    var sols := [qc];
    found := [y0];
    assert found[..0] == [];
    assert WithExclusions(p0, [], size) == p0;
    while prevSize == size && ans.Optimal?
      invariant Enumerated(g, order, gamma, k, size, found, sols)
      invariant |sols| >= 1 && sols[0] == qc && found[0] == y0
      invariant Traced(oracle, p0, size, found) && !ans.Failed?
      invariant prevSize == size && ans.Optimal? ==>
                  p == WithExclusions(p0, found[..|found| - 1], size) && prev == PickedIdx(found[|found| - 1])
      invariant !(prevSize == size && ans.Optimal?) ==>
                  p == WithExclusions(p0, found, size) && ans == oracle(p)
                  && (ans.Optimal? ==> prevSize == Trunc(ans.objVal))
      decreases |AllBools(|order|) - (set f | f in found)|, if prevSize == size && ans.Optimal? then 1 else 0
    {
      ghost var before := found;
      p, ans, prevSize, prev, sols, found := Round(g, order, gamma, k, oracle, p0, size, p, prev, sols, found);
      if ans.Optimal? && prevSize == size {
        TracedSnoc(oracle, p0, size, before, ans);
      }
      if ans.Failed? {
        // every capped core is then empty under an exact engine
        ExclusionAnswerOptimal(g, order, gamma, k, size, found, sols, oracle);
        last := ans;
        return SolverOutput(None, 0, None), found, last;
      }
    }
    last := ans;
    EnumerationResult(g, order, gamma, k, size, found, sols, oracle, ans, prevSize);
    out := SolverOutput(Some(sols), size, None);
  }

  /** Solve: build the gamma-QC(k) problem, ask the engine for an optimum,
      and in all-solutions mode enumerate the other optima of that size. */
  method Solve(g: Graph, order: NodeList, gamma: real, k: int, allSolutions: bool, oracle: Oracle)
    returns (out: SolverOutput, ghost found: seq<seq<bool>>, ghost last: Answer)
    requires Setting(g, order, gamma) && OracleSound(oracle)
    ensures SoundAnswer(g, gamma, k, allSolutions, out)
    ensures OracleComplete(oracle) ==> CompleteAnswer(g, gamma, k, allSolutions, out)
    ensures !oracle(InitialProblem(g, order, gamma, k)).Optimal? ==> out == SolverOutput(None, 0, None)
    ensures !allSolutions && oracle(InitialProblem(g, order, gamma, k)).Optimal? ==>
              var a := oracle(InitialProblem(g, order, gamma, k));
              out == SolverOutput(Some([Picked(order, Rounded(a.colVals))]), Trunc(a.objVal), None)
    ensures out.nodes.None? ==> out == SolverOutput(None, 0, None)
    ensures allSolutions && oracle(InitialProblem(g, order, gamma, k)).Optimal? && out.nodes.Some? ==>
              var a := oracle(InitialProblem(g, order, gamma, k));
              out.size == Trunc(a.objVal) && out.nodes.value[0] == Picked(order, Rounded(a.colVals))
    ensures allSolutions && oracle(InitialProblem(g, order, gamma, k)).Optimal? ==>
              var p := InitialProblem(g, order, gamma, k);
              var size := Trunc(oracle(p).objVal);
              && |found| >= 1 && found[0] == Rounded(oracle(p).colVals) && Traced(oracle, p, size, found)
              && last == oracle(WithExclusions(p, found, size))
              && !(last.Optimal? && Trunc(last.objVal) == size)
              && (out.nodes.None? <==> last.Failed?)
              && (out.nodes.Some? ==>
                    && |out.nodes.value| == |found|
                    && forall i :: 0 <= i < |found| ==> |found[i]| == |order| && out.nodes.value[i] == Picked(order, found[i]))
  {
    var p := BuildProblem(g, order, gamma, k);
    InitialAnswerOptimal(g, order, gamma, k, oracle);
    var ans := oracle(p);
    found, last := [], ans;
    if ans.Failed? {
      // Intopt error: logged, and no solution is reported
      return SolverOutput(None, 0, None), found, last;
    }
    if !ans.Optimal? {
      return SolverOutput(None, 0, None), found, last;
    }
    var size := Trunc(ans.objVal);
    assert WithExclusions(p, [], size) == p;
    OptimalAnswer(g, order, gamma, k, size, [], oracle);
    CappedCoresBounded(g, order, gamma, k, size);
    ghost var y0 := Rounded(ans.colVals);
    var qc, prev := ExtractSelection(order, ans.colVals, size);
    assert Enumerated(g, order, gamma, k, size, [y0], [qc]);
    if allSolutions {
      out, found, last := Enumerate(g, order, gamma, k, oracle, p, size, qc, prev, y0);
    } else {
      EnumeratedSound(g, order, gamma, k, size, [y0], [qc], false);
      out, found := SolverOutput(Some([qc]), size, None), [y0];
    }
  }
}
