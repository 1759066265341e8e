# DDA: maximum gamma-quasi-cliques by degree decomposition

This project is a Dafny model of the core of a Go library. The library finds
maximum *gamma-quasi-cliques* of an undirected graph. A gamma-quasi-clique is
a vertex set in which every member is adjacent to at least `gamma * (|S| - 1)`
of the other members.

The library uses the Degree Decomposition Algorithm (DDA), which has three
parts. Each part is one module here.

- **`Degeneracy`** (`dda/degeneracy.go`) models `graphDegeneracy`, the
  Matula–Beck bucket-queue peeling.
  - The live-degree map `dv` is a Dafny `map`.
  - The bucket slice `d` is an `array<seq<VertexId>>`.
  - `D[0], D[1], ...` are scanned for the first non-empty bucket, and a live
    neighbour is moved to the bucket one lower by swap-remove and append.
  - The result is proved to be the graph's degeneracy. Every non-empty vertex
    subset has a member with at most `k` neighbours inside it. Some subset,
    non-empty unless `k = 0`, is a `k`-core.
- **`Yqck`** (`dda/solvers/glpk/yqck.go`) models the GLPK gamma-QC(k) solver
  `Solve` and its `isOne`.
  - The model builds the integer program with one binary column per vertex. It
    has one row per vertex, `sum of neighbours - k * x_v >= 0`, and a size-cap
    row `sum x <= floor(k / gamma) + 1`.
  - The model reads the solution back through `isOne`.
  - In all-solutions mode it adds exclusion rows, `sum over the previous
    solution <= |prev| - 0.5`, and re-solves.
  - The integer-programming engine is an abstract `Oracle` (a function value).
    Its contract is stated as the predicates `OracleSound` (an OPT answer is a
    true optimum) and `OracleComplete` (the engine is exact: it answers
    anything but OPT only for a problem with no feasible assignment).
    `OracleComplete` admits an error on an infeasible problem, which is how
    GLPK's `intopt` reports one with the presolver on (yqck.go:76).
  - It is proved that the rows admit exactly the capped `k`-cores.
  - It is proved that `Solve` returns only capped cores of maximum size, with
    no set twice.
  - It is proved that, for an exact oracle, all-solutions mode returns every
    one of them whenever the maximum is not empty.
- **`Dda`** (`dda/alg.go`) models `DDAOpts.validate` and `DDA`.
  - `DDA` first validates the options. It then walks `k` down from
    `degeneracy + 1` while `currentMax < int64(floor(k / gamma)) + 1`, and
    keeps a solver answer only when its size is strictly larger.
  - The loop bound is written out in int64 arithmetic: amd64's conversion of
    an infinite, NaN or out-of-range float to `MinInt64`, then wrap-around.
  - Each kept vertex set becomes the subgraph it induces.
  - The loop is proved against a recursive specification function `Search`.
  - The main theorem (`DDAFindsMaximum`) states the result for a solver that
    answers soundly and exactly (`SoundAnswer` and `CompleteAnswer`, which
    `Yqck.Solve` guarantees under an exact engine), with `gamma` in `(0, 1]`. `currentMax` is
    then the size of a maximum gamma-quasi-clique, and every returned set is
    such a quasi-clique.

`Graphs` holds the shared notions: graphs as
`map<VertexId, set<VertexId>>`, degrees inside a subset, cores,
quasi-cliques, the size cap `floor(k / gamma) + 1`, and the solver-answer
predicates `SoundAnswer` and `CompleteAnswer`. `Yqck.Solve` guarantees these
predicates, and the `Dda` theorem assumes them.

In all-solutions mode, the result of `DDA` is the list of capped cores that
the solver reports at the last `k` whose answer raised `currentMax`. That is
the first `k` that reached the final size; `currentMax` may have risen at
larger `k` before, and those lists are replaced. A maximum
quasi-clique that is only a core at a smaller `k` is not returned, because a
later answer of equal size is discarded. The model therefore does not claim
that all-solutions DDA lists every maximum quasi-clique: `Kept` states what it
does return.

Two behaviours of the code are modelled as written:
- Validation checks five conditions, in source order. Besides the solver, the
  input graph and the range of gamma, it checks the graph constructor and the
  edge constructor.
- `Solve` never returns an error. On an engine error, even one during
  enumeration, it returns no sets and size 0, which discards the sets already
  collected.
- In all-solutions mode, when the largest capped core is the empty set, the
  first re-solve carries the exclusion row `0 <= -0.5`. No assignment meets
  that row (`Yqck.EmptyOptimumExcludesAll`), so the presolving engine reports
  an error, and `Solve` returns no sets. When the largest capped core is not
  empty, an exact engine never fails during enumeration
  (`Yqck.ExclusionAnswerOptimal`). `CompleteAnswer` therefore asks for
  solutions in all-solutions mode only when a non-empty capped core exists.
  `DDA` is unaffected, since an answer of size 0 never raises `currentMax`.

## Model

| member | source | states |
|---|---|---|
| Degeneracy.GraphDegeneracy | dda/degeneracy.go:5-92 | The result is the degeneracy of the graph. It is not negative. Every non-empty vertex subset has a member with at most k neighbours in it. Some subset, non-empty unless k is 0, is a k-core. |
| Degeneracy.InitialDegrees | dda/degeneracy.go:16-29 | dv maps every vertex to its degree. maxDegree bounds every degree and is attained unless the graph is empty. |
| Degeneracy.FillBuckets | dda/degeneracy.go:31-37 | After the pass, D[j] lists, without repetition, exactly the vertices of degree j, and every vertex lies in D[dv[v]]. |
| Degeneracy.LowestBucket | dda/degeneracy.go:44-54 | The scan stops at a non-empty bucket inside the array. Every earlier bucket is empty, and the index is at most every live degree. |
| Degeneracy.TakeVertex | dda/degeneracy.go:62-69 | The taken vertex has live degree i. It leaves dv and its bucket, and the buckets still list exactly the live vertices. |
| Degeneracy.SwapRemove | dda/degeneracy.go:81 | The swap-remove keeps the list repetition-free, drops exactly the chosen element and shortens the list by one. |
| Degeneracy.MoveDown | dda/degeneracy.go:79-87 | d_w goes down by one, nothing else in dv changes, and w moves to the bucket below, so the buckets stay consistent. |
| Degeneracy.StaleDegrees | dda/degeneracy.go:69-74 | Right after v is deleted from dv, exactly the live neighbours of v count one neighbour too many. |
| Degeneracy.LowerOne | dda/degeneracy.go:74-87 | A live neighbour still pending has d_w >= 1 before its decrement (so no bucket index goes negative), and the decrement leaves every other count right. |
| Degeneracy.LowerNeighbours | dda/degeneracy.go:71-88 | After the neighbour loop, every live vertex's dv equals its number of live neighbours, and the buckets match dv. |
| Degeneracy.PeelRound | dda/degeneracy.go:43-88 | One round removes exactly one vertex v of least live degree from the live set, and nothing else. The new k is the larger of the old k and dv[v]. The peeling invariant is kept: live degrees, buckets, a k-core witness, and a low vertex in every subset that has lost a member. |
| Degeneracy.DegeneracyUnique | dda/degeneracy.go:8-9 | The characterisation fixes the value: two degeneracies of a graph are equal. |
| Degeneracy.CoreBelowDegeneracy | dda/degeneracy.go:8-9 | A non-empty c-core exists only for c at most the degeneracy. |
| Degeneracy.DegeneracyAtMostDegree | dda/degeneracy.go:18-33 | A positive result is at most the maximum degree: some vertex has at least k neighbours. |
| Degeneracy.DegeneracyZeroIffEdgeless | dda/degeneracy.go:39-58 | The result is 0 exactly when the graph has no edge, including the empty graph. |
| Yqck.BuildProblem | dda/solvers/glpk/yqck.go:30-73 | The loops build the specified problem. It has one binary column per vertex with objective 1, the per-vertex rows (-k on the diagonal, 1 for a neighbour, lower bound 0) and the all-ones cap row. |
| Yqck.VertexRowHolds | dda/solvers/glpk/yqck.go:54-69 | Row i holds for a 0/1 assignment exactly when, if vertex i is chosen, it has at least k chosen neighbours. |
| Yqck.CapRowHolds | dda/solvers/glpk/yqck.go:71-73 | The last row holds exactly when at most floor(k/gamma)+1 vertices are chosen. |
| Yqck.InitialFeasibleIff | dda/solvers/glpk/yqck.go:53-73 | A 0/1 assignment satisfies the initial rows if and only if the chosen set is a k-core of itself within the size cap. |
| Yqck.ExclusionRowHolds | dda/solvers/glpk/yqck.go:107-113 | An exclusion row is violated exactly when the assignment chooses every vertex of the previous solution. |
| Yqck.ExcludedFeasibleIff | dda/solvers/glpk/yqck.go:103-113 | With exclusion rows added, an assignment is feasible if and only if it chooses a capped core that contains none of the earlier solutions. |
| Yqck.BuildExclusion | dda/solvers/glpk/yqck.go:107-113 | The loop builds the exclusion row: 1 at the previous solution's columns, 0 elsewhere, at most size - 0.5. |
| Yqck.Trunc | dda/solvers/glpk/yqck.go:88 | Go's int64 conversion of the objective value truncates toward zero: the result lies between 0 and the value, within 1 of the value. |
| Yqck.ExtractSelection | dda/solvers/glpk/yqck.go:88-99 | The extraction loop fills the size-long buffer with the chosen vertices in column order and records their column indices. |
| Yqck.PickedAreOnes | dda/solvers/glpk/yqck.go:93-99 | The extracted list is repetition-free and holds exactly the vertices whose column value `Yqck.IsOne` (isOne, yqck.go:147-149) accepts, that is, within 1e-6 of 1. |
| Yqck.OptimalAnswer | dda/solvers/glpk/yqck.go:87-101 | Under a sound engine, an OPT answer reads as a capped core containing no earlier solution. Its truncated objective is its size, and no feasible assignment chooses more. |
| Yqck.CappedCoresBounded | dda/solvers/glpk/yqck.go:87-90 | The first optimum's size bounds every capped core. |
| Yqck.InitialAnswerOptimal | dda/solvers/glpk/yqck.go:79-87 | An exact engine, including one that reports infeasibility as an error, reports OPT for the first problem whenever the cap is not negative, since the empty selection is then feasible. |
| Yqck.EmptySelectionAdmitted | dda/solvers/glpk/yqck.go:104-113 | Once the first optimum is not empty, choosing nothing satisfies every exclusion row and the initial rows, so every re-solve has a feasible assignment. |
| Yqck.ExclusionAnswerOptimal | dda/solvers/glpk/yqck.go:117-120 | With an exact engine and a non-empty first optimum, every re-solve ends in OPT: the error return during enumeration is never taken. |
| Yqck.EmptyOptimumExcludesAll | dda/solvers/glpk/yqck.go:104-120 | When the first optimum is empty, its exclusion row (bound -0.5) admits no assignment, so the re-solve is infeasible, which the presolving engine reports as an error. |
| Yqck.EnumeratedSound | dda/solvers/glpk/yqck.go:104-140 | Collected solutions are distinct, repetition-free capped cores of the first optimum's size, and that size bounds every capped core. |
| Yqck.EnumerationComplete | dda/solvers/glpk/yqck.go:104-140 | When the loop stops with a non-OPT status or a different optimum, an exact engine has left no capped core of the maximum size unlisted. |
| Yqck.EnumerationResult | dda/solvers/glpk/yqck.go:105-144 | At loop exit the collected list is a sound answer, and a complete one under an exact engine. |
| Yqck.ExtendEnumeration | dda/solvers/glpk/yqck.go:122-138 | An equal-size optimum extends the collection with a new solution, and the number of unseen assignments drops. |
| Yqck.Round | dda/solvers/glpk/yqck.go:105-139 | One enumeration pass adds the exclusion row of the last solution and re-solves. When the answer is OPT with the first size, it appends exactly that answer's isOne reading and the vertices it picks. Otherwise the collection is unchanged. |
| Yqck.Enumerate | dda/solvers/glpk/yqck.go:103-141 | The all-solutions loop ends with a sound answer. Under an exact engine the answer is complete: an engine error only follows an empty first optimum, and otherwise every maximum capped core is listed. Every set after the first is the reading of the engine's equal-size optimum for the problem excluding all earlier sets (`Traced`). The loop stops at the first answer that is not such an optimum. An engine error there gives exactly no sets, size 0 and no error. Otherwise the output lists the collected sets in order. |
| Yqck.Solve | dda/solvers/glpk/yqck.go:18-145 | Solve returns a sound answer, and a complete one under an exact engine: solutions whenever the cap is not negative (in all-solutions mode, whenever a non-empty capped core exists), and in all-solutions mode every capped core of the reported size. No sets always comes with size 0 and no error, which covers a non-OPT first status. One-solution mode returns exactly the isOne vertices of the first answer, with its truncated objective. All-solutions mode returns the sets traced from the engine's answers, the first answer's set first. It returns no sets exactly when the engine fails on the last problem. |
| Dda.ValidateIsFirstFailure | dda/alg.go:40-57 | `Dda.Validate` (DDAOpts.validate) succeeds if and only if all five checks pass. Otherwise it reports a failing check whose predecessors all pass. The checks, in order: solver, graph constructor, edge constructor, input graph, gamma in [0,1]. |
| Dda.MessagesDistinct | dda/alg.go:42-54 | `Dda.Message` gives each check's error text, and no two checks share a text. |
| Dda.ValidOptions | dda/alg.go:40-57 | Options that validate carry a solver, an input graph and a gamma in [0, 1]. |
| Dda.Wrap64 | dda/alg.go:73 | int64 addition wraps: the result is in range, congruent modulo 2^64, and unchanged when already in range. |
| Dda.GuardIsCap | dda/alg.go:73 | `Dda.GuardCap` is the loop bound int64(math.Floor(float64(k)/gamma))+1, with `Dda.Cast64` for the float-to-int64 conversion and `Dda.Wrap64` for the +1. Away from the int64 limits it is floor(k/gamma)+1. |
| Dda.GuardBelowZero | dda/alg.go:72-74 | For gamma in [0,1], `Dda.GuardCap` is not positive at k <= -1, so the loop stops there at the latest. |
| Dda.Step | dda/alg.go:74-90 | One pass lowers k by one and calls the solver with the new k. currentMax never decreases. The solution list is replaced exactly when the solver returns nodes with a strictly larger size, so ties are discarded. |
| Dda.Search | dda/alg.go:72-91 | The loop ends with k >= -1 and currentMax >= int64(floor(k/gamma))+1 for the final k. currentMax never decreases, and the solver calls count down by one from the starting k. |
| Dda.CallsCountDown | dda/alg.go:72-76 | The first solver call uses k = degeneracy and each later call uses the previous k minus one, with at most degeneracy + 2 calls. |
| Dda.GammaZeroFindsNothing | dda/alg.go:53-73 | With gamma = 0, which validation admits, `Dda.GuardCap` is MinInt64 + 1: the infinite or NaN quotient converts to MinInt64. The loop never runs, and DDA reports size 0 and no graphs. |
| Dda.StepKeeps | dda/alg.go:81-90 | A sound solver answer keeps the stored solutions repetition-free quasi-cliques of size currentMax. There is at most one in one-solution mode, and no set is stored twice. |
| Dda.SearchKeeps | dda/alg.go:72-91 | With sound solver answers, the final currentSolution lists only quasi-cliques of size currentMax, and is non-empty when currentMax is positive. |
| Dda.KeptIsAchieved | dda/alg.go:81-90 | The final currentMax is the size of some quasi-clique. |
| Dda.FinalBestAtLeast | dda/alg.go:72-91 | If a capped core of size n exists at a t below the current k, and the solver's answers meet SoundAnswer and CompleteAnswer from t up, the loop ends with currentMax >= n. |
| Dda.NoLargerQuasiClique | dda/alg.go:68-91 | With a solver whose answers meet SoundAnswer and CompleteAnswer, as Yqck.Solve's do under an exact engine, no quasi-clique is larger than the final currentMax. |
| Dda.DDAFindsMaximum | dda/alg.go:61-91 | With gamma in (0,1] and a solver whose answers meet SoundAnswer and CompleteAnswer at every k (Yqck.Solve's ensures under an exact engine), the final currentMax is the size of a maximum gamma-quasi-clique, and every stored solution is a maximum quasi-clique. |
| Dda.Induced | dda/alg.go:93-117 | An output graph has exactly the solution's vertices, with an edge between two of them exactly when the input graph has it. |
| Dda.InducedIsSimple | dda/alg.go:104-114 | An output graph is a simple undirected graph. |
| Dda.InducedDegrees | dda/alg.go:104-114 | Every vertex of an output graph has the same number of neighbours in it as in the input restricted to the solution. |
| Dda.InducedQuasiClique | dda/alg.go:93-117 | A quasi-clique of the input is a quasi-clique of its output graph over all that graph's vertices. |
| Dda.LinkStep | dda/alg.go:107-113 | One inner-loop step sets, in both directions, exactly the input edge between the inner and outer node. |
| Dda.LinkOuter | dda/alg.go:105-114 | Finishing the inner loop completes all edges at the outer node. |
| Dda.LinkedIsInduced | dda/alg.go:104-114 | Once every outer node is done, the built graph is the induced subgraph. |
| Dda.InducedSubgraph | dda/alg.go:96-115 | The node loop and the nested edge loops build exactly the subgraph that the solution induces. |
| Dda.BuildOutputs | dda/alg.go:93-117 | The output has one graph per stored solution, in order, each the subgraph it induces. |
| Dda.Descend | dda/alg.go:68-91 | The k-loop, started at degeneracy + 1, ends in the state the Search specification describes. |
| Dda.DDA | dda/alg.go:61-120 | On a validation error DDA returns no graphs, size 0 and that error, without calling the solver. Otherwise the error is nil and the degeneracy is computed. Size and graphs are the final state of the loop, one induced subgraph per stored solution. |
| Graphs.CappedCoreIsQuasiClique | dda/solvers/glpk/yqck.go:53-73 | Every vertex set the gamma-QC(k) rows admit, a k-core within the cap floor(k/gamma)+1, is a gamma-quasi-clique. |
| Graphs.ThresholdFitsCap | dda/alg.go:73 | A quasi-clique of size n fits the cap at k = ceil(gamma*(n-1)). |
| Graphs.CapMonotone | dda/alg.go:73 | The cap floor(k/gamma)+1 grows with k. |
| Graphs.QuasiCliqueAtOneIsClique | dda/alg_test.go:36 | At gamma = 1.0 a quasi-clique is a clique: every two of its vertices are adjacent. |

## Left out

- The GLPK engine is not modelled. `Intopt`, `MipStatus`, `MipObjVal` and `MipColVal` are native calls into a C library. They are an `Oracle` function value. What the engine guarantees is stated as the predicates `OracleSound` and `OracleComplete`, which the theorems take as hypotheses. `OracleComplete` is exactness of the branch-and-bound search. Presolve-time errors on infeasible problems are admitted. Limits on time, iterations or memory, after which GLPK stops early, are not modelled.
- `runtime.LockOSThread`, log output, problem names and row and column names are not modelled. They are thread pinning and diagnostics.
- Yqck.Solve: requires gamma != 0. Go's `Solve` accepts gamma 0 and writes an infinite or NaN cap into the last row (yqck.go:71), which exact reals cannot express. `DDA` never calls the solver with gamma 0 (`Dda.GammaZeroFindsNothing`). It also requires a simple graph and a repetition-free column order covering every vertex.
- Floating point is not modelled: `gamma`, column values and objective values are exact reals.
  - `math.Floor(float64(k) / gamma)` is computed exactly, without float rounding.
  - The int64 conversion is written out as amd64 performs it: an infinity, NaN or out-of-range value becomes `MinInt64`.
- Dda.DDAFindsMaximum: assumes `floor((degeneracy + 1) / gamma) + 1` fits in int64. For a smaller positive gamma the bound converts to `MinInt64`, so the loop does not run; `GuardCap` models that, but the theorem does not cover it.
- Dda.DDAFindsMaximum: in all-solutions mode it claims that the stored solutions are maximum quasi-cliques, not that they are all of them (see the remark above).
- Node and neighbour iteration order is not fixed.
  - In `Degeneracy` and `Dda.InducedSubgraph`, vertices are picked with `:|`, so the proofs cover every order.
  - `Yqck.Solve` takes the column order as the parameter `order`.
- Yqck.ExtractSelection: requires the number of isOne columns to equal the truncated objective. With fewer, Go would leave nil entries in the buffer. With more, it would index out of range. Under a sound engine the two are equal (`Yqck.OptimalAnswer`).
- gonum's graph values, node iterators, `GraphConstructor` and `EdgeConstructor` are not modelled. Graphs are maps, and the two constructors appear only as "present or missing" for validation.
  - Output graphs are built as maps. A repeated `AddNode`, which would panic on a gonum simple graph, adds nothing here. Solver answers never repeat a vertex under `SoundAnswer`.
- Dda.DDA: requires a simple graph without self-loops (`ValidGraph`). A gonum `graph.Undirected` may have a self-loop, and `graphDegeneracy` would then count the vertex among its own neighbours (degeneracy.go:23-25). The model does not cover such inputs.
- Degeneracy.GraphDegeneracy: requires `ValidGraph` for the same reason, so a self-loop's extra count is not modelled.
- The unused locals `s` and `l` of `graphDegeneracy` are not modelled: they have no observable effect.
- The solver's error result is not modelled beyond being ignored: `DDA` only logs it.
- Random graph generation, DOT and file I/O, the example driver and the test harness are not part of this model.
