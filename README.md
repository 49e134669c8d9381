# Precedence edges of a project network

This project models `calculate_edges` from `labs/utils/network_utils.py`.
The function takes the list of works of a project. Each work is a record
(name, dependencies, pessimistic, most likely and optimistic duration, cost
reduction). It returns the arcs of the project network as pairs
(dependency node, work node). A node is the position of a work in the input
list.

The function runs in two phases:

1. A loop builds the dictionary `work_to_node` from each work's name to its
   position. When a name occurs twice, the later position overwrites the
   earlier one.
2. Nested loops walk the works in list order, and each work's dependencies in
   list order. For every dependency other than the sentinel `-`, they append
   the pair (node of the dependency, node of the work). If a dependency names
   no work, the dictionary lookup raises and no list is returned.

The model has three modules:

- `EdgeSpec` (`edge_spec.dfy`) holds the data model and two definitions of
  the result.
  - A work is `Work(name, dependencies)`. The failure is
    `UnknownDependency(name)`. Results are `Success(edges)` or
    `Failure(error)`.
  - `NameIndex` is the dictionary of phase 1.
  - `DependencyEdges`, `EdgesOf` and `SpecEdges` follow the order of the
    loops. The first unknown dependency stops the computation.
  - The reference definition works differently. `Precedences` flattens the
    input into its (dependency name, work name) pairs, with the sentinel
    filtered out. `Resolve` then looks up both names of every pair.
- `EdgeProperties` (`edge_properties.dfy`) proves that the two definitions
  agree. It also proves the properties of the edge list: its length, its
  endpoints, its order, what it means when names are unique, and which name
  a failure reports.
- `NetworkUtils` (`network_utils.dfy`) holds the program itself. It has a
  `for` loop that fills a `map<string, nat>`, and nested `for` loops that
  append to a `seq<Edge>`. `CalculateEdges` is proved equal to `SpecEdges`.
  The first loop is the method `IndexWorks`. The inner loop is the method
  `AppendDependencyEdges`.

Two facts about the code that the model keeps:

- The sentinel for "no dependency" is `-`.
- Work names do not have to be unique. A repeated name resolves to its last
  position.

## Model

| member | source | states |
|---|---|---|
| `EdgeSpec.NameIndex` | labs/utils/network_utils.py:14-16 | every work's name is a key; each key maps to a position in the input that carries that name; that position is at least as large as every position of the name, so it is the last occurrence |
| `EdgeSpec.SpecEdges` | labs/utils/network_utils.py:1-27 | definition of the result of `calculate_edges` (the name index, then the edges work by work); its properties are stated by `SpecEdgesSucceeds`, `SpecEdgesIsResolvedPrecedences`, `FailureNamesFirstUnknown`, `EdgeCount` and `EdgeEndpoints` |
| `EdgeSpec.EdgesOf` | labs/utils/network_utils.py:19-25 | definition of the outer loop: the edges of the earlier works, then those of the last work, the first failure winning; its properties are stated by `EdgesOfOutcome`, `EdgesOfIsResolved`, `EdgesOfFailurePersists` and `EdgesOfTargetsSorted` |
| `EdgeSpec.DependencyEdges` | labs/utils/network_utils.py:22-25 | definition of the inner loop over one work's dependencies, in their order; its properties are stated by `DependencyEdgesOutcome`, `DependencyEdgesIsResolved` and `DependencyEdgesFailurePersists` |
| `EdgeSpec.DependencyEdge` | labs/utils/network_utils.py:23-25 | definition of one inner iteration: no edge for `-`, otherwise the lookup of the dependency; used by `DependencyEdgesOutcome` and `AppendDependencyEdges` |
| `EdgeSpec.Lookup` | labs/utils/network_utils.py:24-25 | definition of the dictionary lookup of one name: the edge (its node, the target node), or a failure naming it; shared by the loop-order and the reference definitions |
| `EdgeSpec.RealDependencies` | labs/utils/network_utils.py:22-23 | definition of the `-` filter; its properties are stated by `RealDependenciesMembers` and `RealDependenciesLength` |
| `EdgeSpec.PairsOf` | labs/utils/network_utils.py:19-23 | definition of the (dependency, work name) pairs of one work, sentinel filtered out, in dependency order; its membership is stated by `PrecedencesMembers` |
| `EdgeProperties.NameIndexKeys` | labs/utils/network_utils.py:14-16 | the keys of the name index are exactly the names of the works |
| `EdgeProperties.IndexOfUniqueName` | labs/utils/network_utils.py:15-16 | when names are unique, the work at position i has node i |
| `NetworkUtils.IndexWorks` | labs/utils/network_utils.py:14-16 | the loop leaves `work_to_node` equal to the name index of the whole input |
| `NetworkUtils.AppendDependencyEdges` | labs/utils/network_utils.py:22-25 | the inner loop appends exactly the edges of one work's dependencies to the list built so far, or fails as `DependencyEdges` does |
| `NetworkUtils.CalculateEdges` | labs/utils/network_utils.py:1-27 | the result equals `SpecEdges`; an empty input gives an empty list; the call succeeds exactly when every dependency other than `-` names a work; every endpoint is a position in the input |
| `EdgeProperties.DependencyEdgesOutcome` | labs/utils/network_utils.py:22-25 | one work's dependencies succeed exactly when each non-sentinel dependency is in the index; every edge then ends at the work's node; a failure names a non-sentinel dependency missing from the index |
| `EdgeProperties.EdgesOfOutcome` | labs/utils/network_utils.py:19-25 | the edges of a list of works succeed exactly when every non-sentinel dependency of every work is in the index |
| `EdgeProperties.SpecEdgesSucceeds` | labs/utils/network_utils.py:24 | the function returns an edge list exactly when every dependency other than `-` names some work; otherwise it fails |
| `EdgeProperties.FailureNamesFirstUnknown` | labs/utils/network_utils.py:19-24 | on failure, the reported name is the first dependency, in traversal order, that names no work; all earlier dependencies name works |
| `EdgeProperties.DependencyEdgesFailurePersists` | labs/utils/network_utils.py:22-24 | once a work's dependency lookup fails, the later dependencies do not change the outcome |
| `EdgeProperties.EdgesOfFailurePersists` | labs/utils/network_utils.py:19-24 | once a work fails, the later works do not change the outcome: no partial list is returned |
| `EdgeSpec.Precedences` | labs/utils/network_utils.py:19-23 | every (dependency, work) pair in the flattened list has a work's name as its second component |
| `EdgeProperties.RealDependenciesMembers` | labs/utils/network_utils.py:22-23 | filtering a dependency list keeps exactly the entries that are not the sentinel |
| `EdgeProperties.RealDependenciesLength` | labs/utils/network_utils.py:22-23 | filtering drops one entry per occurrence of the sentinel |
| `EdgeProperties.PrecedencesLength` | labs/utils/network_utils.py:19-23 | there is one precedence per dependency entry other than the sentinel, across all works |
| `EdgeProperties.PrecedencesMembers` | labs/utils/network_utils.py:19-23 | (d, n) is a precedence exactly when some work named n lists d, and d is not the sentinel |
| `EdgeSpec.FirstUnknown` | labs/utils/network_utils.py:24 | the returned position is the first pair whose dependency is not in the index, or the length when there is none |
| `EdgeSpec.Resolve` | labs/utils/network_utils.py:24-25 | resolving fails exactly when some dependency is missing from the index, and it names the first one; on success the k-th edge is the pair of indices of the k-th pair |
| `EdgeProperties.DependencyEdgesIsResolved` | labs/utils/network_utils.py:20-25 | one work's edges, in the loop's order, equal its resolved (dependency, work) pairs |
| `EdgeProperties.EdgesOfIsResolved` | labs/utils/network_utils.py:19-25 | the edges of a list of works, work by work, equal the resolved flattened precedences |
| `EdgeProperties.SpecEdgesIsResolvedPrecedences` | labs/utils/network_utils.py:14-27 | the result equals the flattened, order-preserving list of (dependency, work) pairs, sentinel filtered out, each name replaced by its index; on failure it reports the same name |
| `EdgeProperties.EdgeCount` | labs/utils/network_utils.py:22-25 | on success the number of edges is the number of dependency entries other than `-` |
| `EdgeProperties.EdgeEndpoints` | labs/utils/network_utils.py:15-25 | on success both endpoints of every edge are positions in the input, and the names at the endpoints of the k-th edge are the k-th (dependency, work) precedence |
| `EdgeProperties.NoDependenciesNoEdges` | labs/utils/network_utils.py:19-27 | on success the list is empty exactly when no work lists a dependency other than `-` |
| `EdgeProperties.UniqueNamesEdgeMeaning` | labs/utils/network_utils.py:20-25 | with unique names, for every edge (a, b) the work at b lists the name of the work at a as a dependency, and that name is not the sentinel |
| `EdgeProperties.EdgesOfTargetsSorted` | labs/utils/network_utils.py:19-25 | when work k has node k, every edge target is below the number of works and targets never decrease along the list |
| `EdgeProperties.UniqueNamesTargetsSorted` | labs/utils/network_utils.py:19-25 | with unique names, the edges are grouped by target in increasing order: all edges of work i come before those of work i + 1 |

## Left out

- Duration and cost fields: the three durations and the cost reduction are read and discarded by the function, so a work is modelled as its name and its dependency list only.
- Record shape: a record that does not unpack into six fields makes Python raise while unpacking. Such a record cannot be written in the model's `Work` type.
- Exception type: an unknown dependency is the failure `UnknownDependency(name)`. The model does not reproduce the `KeyError` exception itself or its message.
- Name types: names and dependencies are strings (`seq<char>`). Python would accept any hashable value. It would also iterate a bare string given as a dependency list character by character. The model takes a sequence of names.
- Mutation of the input: the input is a Dafny sequence, which is a value. So the model shows that the function cannot change its input, but it does not model Python list aliasing.
- Loop bodies: the first loop and the inner loop of the function are written as separate methods (`IndexWorks`, `AppendDependencyEdges`) called from `CalculateEdges`. The statements inside each loop are the same as in the function.
- The rest of the network builder: dummy-arc insertion, cycle detection and its fallback rebuild, source and sink events, PERT durations and the layered layout are not part of this model. The only code modelled is `labs/utils/network_utils.py`.
