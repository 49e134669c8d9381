/** `calculate_edges` as the program runs it: a loop that fills the name index,
    then nested loops that append one edge per dependency. The first loop and
    the inner loop are written as methods of their own. */
module NetworkUtils {
  import opened EdgeSpec
  import EdgeProperties

  /** The first loop of `calculate_edges`: maps each work's name to its position,
      a later occurrence of a name overwriting an earlier one. */
  method IndexWorks(works: seq<Work>) returns (workToNode: map<string, nat>)
    ensures workToNode == NameIndex(works)
  {
    workToNode := map[];
    for i := 0 to |works|
      invariant workToNode == NameIndex(works[..i])
    {
      EdgeProperties.NameIndexStep(works, i);
      workToNode := workToNode[works[i].name := i];
    }
    assert works[..|works|] == works;
  }

  /** The inner loop of `calculate_edges`: appends to `edges` the edge
      (dependency node, `workNode`) of every dependency other than the
      sentinel, and fails on the first dependency missing from `workToNode`. */
  method AppendDependencyEdges(workToNode: map<string, nat>, dependencies: seq<string>,
                               workNode: nat, edges: seq<Edge>)
    returns (r: Result<seq<Edge>>)
    ensures r == Then(Success(edges), DependencyEdges(workToNode, dependencies, workNode))
  {
    var appended := edges;
    ghost var own: seq<Edge> := [];
    assert dependencies[..0] == [];
    for j := 0 to |dependencies|
      invariant DependencyEdges(workToNode, dependencies[..j], workNode) == Success(own)
      invariant appended == edges + own
    {
      var dep := dependencies[j];
      EdgeProperties.DependencyEdgesStep(workToNode, dependencies, j, workNode);
      if dep == NoDependency {
        assert own + [] == own;
      } else {
        if dep !in workToNode {
          r := Failure(UnknownDependency(dep));
          assert DependencyEdges(workToNode, dependencies[..j + 1], workNode) == r;
          EdgeProperties.DependencyEdgesFailurePersists(workToNode, dependencies, j + 1, workNode);
          return;
        }
        appended := appended + [(workToNode[dep], workNode)];
        own := own + [(workToNode[dep], workNode)];
      }
    }
    assert dependencies[..|dependencies|] == dependencies;
    r := Success(appended);
  }

  /** Computes the arcs (dependency node, work node) of the network of `works`.
      Fails with the first dependency, in input order, that names no work. */
  method CalculateEdges(works: seq<Work>) returns (r: Result<seq<Edge>>)
    ensures r == SpecEdges(works)
    ensures works == [] ==> r == Success([])
    ensures r.Success? <==> AllDependenciesKnown(works)
    ensures r.Success? ==> forall e :: e in r.value ==> e.0 < |works| && e.1 < |works|
  {
    var workToNode := IndexWorks(works);
    var edges: seq<Edge> := [];
    for i := 0 to |works|
      invariant EdgesOf(workToNode, works[..i]) == Success(edges)
    {
      var workNode := workToNode[works[i].name];
      var next := AppendDependencyEdges(workToNode, works[i].dependencies, workNode, edges);
      EdgeProperties.EdgesOfStep(workToNode, works, i);
      if next.Failure? {
        EdgeProperties.EdgesOfFailurePersists(workToNode, works, i + 1);
        EdgeProperties.SpecEdgesSucceeds(works);
        return next;
      }
      edges := next.value;
    }
    assert works[..|works|] == works;
    r := Success(edges);
    EdgeProperties.SpecEdgesSucceeds(works);
    EdgeProperties.EdgeEndpoints(works);
  }
}
