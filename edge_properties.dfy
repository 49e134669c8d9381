/** What the edge list of `calculate_edges` is: the reference definition it
    equals, its length, where its endpoints point, and what it reports when a
    dependency names no work. */
module EdgeProperties {
  import opened EdgeSpec

  // ---------------------------------------------------------------------------
  // Sequencing of partial results.
  // ---------------------------------------------------------------------------

  lemma ThenAssociative(a: Result<seq<Edge>>, b: Result<seq<Edge>>, c: Result<seq<Edge>>)
    ensures Then(Then(a, b), c) == Then(a, Then(b, c))
  {
    if a.Success? && b.Success? && c.Success? {
      assert (a.value + b.value) + c.value == a.value + (b.value + c.value);
    }
  }

  lemma ThenUnit(a: Result<seq<Edge>>)
    ensures Then(Success([]), a) == a
    ensures Then(a, Success([])) == a
  {
    if a.Success? {
      assert [] + a.value == a.value;
      assert a.value + [] == a.value;
    }
  }

  // ---------------------------------------------------------------------------
  // The name index.
  // ---------------------------------------------------------------------------

  /** The index has exactly the names of the works as keys. */
  lemma NameIndexKeys(works: seq<Work>)
    ensures NameIndex(works).Keys == Names(works)
    ensures forall w :: w in works ==> w.name in NameIndex(works)
  {
    var index := NameIndex(works);
    forall w | w in works ensures w.name in index {
      var k :| 0 <= k < |works| && works[k] == w;
    }
    forall n | n in index ensures n in Names(works) {
      assert works[index[n]] in works;
    }
  }

  // ---------------------------------------------------------------------------
  // When the computation succeeds.
  // ---------------------------------------------------------------------------

  /** One work's dependencies succeed exactly when each of them, other than the
      sentinel, is in the index; every edge then ends at the work's node, and a
      failure names a dependency missing from the index. */
  lemma {:induction false} DependencyEdgesOutcome(index: map<string, nat>, deps: seq<string>, target: nat)
    ensures var r := DependencyEdges(index, deps, target);
            && (r.Success? <==> forall d :: d in deps && d != NoDependency ==> d in index)
            && (r.Success? ==> forall e :: e in r.value ==> e.1 == target)
            && (r.Failure? ==> r.error.name in deps && r.error.name != NoDependency && r.error.name !in index)
    decreases |deps|
  {
    if deps != [] {
      var last := |deps| - 1;
      assert deps == deps[..last] + [deps[last]];
      DependencyEdgesOutcome(index, deps[..last], target);
    }
  }

  /** The edges of several works succeed exactly when every dependency other
      than the sentinel is in the index. */
  lemma {:induction false} EdgesOfOutcome(index: map<string, nat>, works: seq<Work>)
    requires forall w :: w in works ==> w.name in index
    ensures EdgesOf(index, works).Success? <==>
            forall w, d :: w in works && d in w.dependencies && d != NoDependency ==> d in index
    decreases |works|
  {
    if works != [] {
      var last := |works| - 1;
      assert works == works[..last] + [works[last]];
      EdgesOfOutcome(index, works[..last]);
      DependencyEdgesOutcome(index, works[last].dependencies, index[works[last].name]);
    }
  }

  /** `calculate_edges` returns an edge list exactly when every dependency
      other than the sentinel names a work. */
  lemma SpecEdgesSucceeds(works: seq<Work>)
    ensures SpecEdges(works).Success? <==> AllDependenciesKnown(works)
  {
    NameIndexKeys(works);
    EdgesOfOutcome(NameIndex(works), works);
  }

  // ---------------------------------------------------------------------------
  // The program's order of evaluation agrees with the reference definition.
  // ---------------------------------------------------------------------------

  /** Resolving two runs of pairs one after the other is resolving their concatenation. */
  lemma {:induction false} ResolveAppend(index: map<string, nat>, ps: seq<(string, string)>, qs: seq<(string, string)>)
    requires forall p :: p in ps ==> p.1 in index
    requires forall q :: q in qs ==> q.1 in index
    ensures Resolve(index, ps + qs) == Then(Resolve(index, ps), Resolve(index, qs))
  {
    if ps == [] {
      assert ps + qs == qs;
      ThenUnit(Resolve(index, qs));
    } else {
      assert (ps + qs)[1..] == ps[1..] + qs;
      ResolveAppend(index, ps[1..], qs);
      ThenAssociative(Lookup(index, ps[0].0, index[ps[0].1]), Resolve(index, ps[1..]), Resolve(index, qs));
    }
  }

  lemma {:induction false} RealDependenciesSnoc(deps: seq<string>, d: string)
    ensures RealDependencies(deps + [d]) ==
            RealDependencies(deps) + (if d == NoDependency then [] else [d])
  {
    if deps == [] {
      assert deps + [d] == [d];
    } else {
      var head := if deps[0] == NoDependency then [] else [deps[0]];
      var tail := if d == NoDependency then [] else [d];
      assert (deps + [d])[0] == deps[0];
      assert (deps + [d])[1..] == deps[1..] + [d];
      RealDependenciesSnoc(deps[1..], d);
      calc {
        RealDependencies(deps + [d]);
        head + RealDependencies(deps[1..] + [d]);
        head + (RealDependencies(deps[1..]) + tail);
        (head + RealDependencies(deps[1..])) + tail;
        RealDependencies(deps) + tail;
      }
    }
  }

  lemma PairsOfSnoc(name: string, deps: seq<string>, d: string)
    ensures PairsOf(Work(name, deps + [d])) ==
            PairsOf(Work(name, deps)) + (if d == NoDependency then [] else [(d, name)])
  {
    RealDependenciesSnoc(deps, d);
    var ds := RealDependencies(deps);
    var ds' := RealDependencies(deps + [d]);
    var tail: seq<(string, string)> := if d == NoDependency then [] else [(d, name)];
    var lhs := PairsOf(Work(name, deps + [d]));
    var rhs := PairsOf(Work(name, deps)) + tail;
    assert |lhs| == |rhs|;
    forall k | 0 <= k < |lhs| ensures lhs[k] == rhs[k] {
      if k < |ds| {
        assert ds'[k] == ds[k];
      }
    }
  }

  /** One work's edges, as the inner loop produces them, are its resolved pairs. */
  lemma {:induction false} DependencyEdgesIsResolved(index: map<string, nat>, w: Work)
    requires w.name in index
    ensures DependencyEdges(index, w.dependencies, index[w.name]) == Resolve(index, PairsOf(w))
    decreases |w.dependencies|
  {
    var deps := w.dependencies;
    var target := index[w.name];
    if deps != [] {
      var last := |deps| - 1;
      var d := deps[last];
      var init := Work(w.name, deps[..last]);
      assert deps == deps[..last] + [d];
      DependencyEdgesIsResolved(index, init);
      PairsOfSnoc(w.name, deps[..last], d);
      var tail: seq<(string, string)> := if d == NoDependency then [] else [(d, w.name)];
      ResolveAppend(index, PairsOf(init), tail);
      assert Resolve(index, tail) == DependencyEdge(index, d, target) by {
        if d != NoDependency {
          ThenUnit(DependencyEdge(index, d, target));
        }
      }
    }
  }

  lemma {:induction false} PrecedencesSnoc(works: seq<Work>, w: Work)
    ensures Precedences(works + [w]) == Precedences(works) + PairsOf(w)
  {
    if works == [] {
      assert works + [w] == [w];
      assert Precedences([w]) == PairsOf(w) + [];
    } else {
      assert (works + [w])[0] == works[0];
      assert (works + [w])[1..] == works[1..] + [w];
      PrecedencesSnoc(works[1..], w);
    }
  }

  lemma {:induction false} EdgesOfIsResolved(index: map<string, nat>, works: seq<Work>)
    requires forall w :: w in works ==> w.name in index
    ensures forall p :: p in Precedences(works) ==> p.1 in index
    ensures EdgesOf(index, works) == Resolve(index, Precedences(works))
    decreases |works|
  {
    assert forall p :: p in Precedences(works) ==> p.1 in index by {
      forall p | p in Precedences(works) ensures p.1 in index {
        assert p.1 in Names(works);
      }
    }
    if works != [] {
      var last := |works| - 1;
      var init := works[..last];
      assert works == init + [works[last]];
      EdgesOfIsResolved(index, init);
      DependencyEdgesIsResolved(index, works[last]);
      PrecedencesSnoc(init, works[last]);
      ResolveAppend(index, Precedences(init), PairsOf(works[last]));
    }
  }

  /** The edge list is the list of all (dependency, work) precedences in
      input order, each name replaced by its index. */
  lemma SpecEdgesIsResolvedPrecedences(works: seq<Work>)
    ensures forall p :: p in Precedences(works) ==> p.1 in NameIndex(works)
    ensures SpecEdges(works) == Resolve(NameIndex(works), Precedences(works))
  {
    NameIndexKeys(works);
    EdgesOfIsResolved(NameIndex(works), works);
  }

  // ---------------------------------------------------------------------------
  // Properties of the precedences.
  // ---------------------------------------------------------------------------

  lemma PairsOfMembers(w: Work, d: string, n: string)
    ensures (d, n) in PairsOf(w) <==> n == w.name && d in w.dependencies && d != NoDependency
  {
    var ds := RealDependencies(w.dependencies);
    RealDependenciesMembers(w.dependencies);
    if n == w.name && d in ds {
      var k :| 0 <= k < |ds| && ds[k] == d;
      assert PairsOf(w)[k] == (d, n);
    }
  }

  /** The sentinel is dropped and every other entry kept. */
  lemma {:induction false} RealDependenciesMembers(deps: seq<string>)
    ensures forall d :: d in RealDependencies(deps) <==> d in deps && d != NoDependency
  {
    if deps != [] {
      assert deps == [deps[0]] + deps[1..];
      RealDependenciesMembers(deps[1..]);
    }
  }

  /** One entry is dropped per occurrence of the sentinel. */
  lemma {:induction false} RealDependenciesLength(deps: seq<string>)
    ensures |RealDependencies(deps)| == |deps| - multiset(deps)[NoDependency]
  {
    if deps != [] {
      assert deps == [deps[0]] + deps[1..];
      RealDependenciesLength(deps[1..]);
    }
  }

  /** There is one precedence per dependency entry other than the sentinel. */
  lemma {:induction false} PrecedencesLength(works: seq<Work>)
    ensures |Precedences(works)| == RealDependencyCount(works)
  {
    if works != [] {
      RealDependenciesLength(works[0].dependencies);
      PrecedencesLength(works[1..]);
    }
  }

  /** A pair (d, n) is a precedence exactly when some work named n lists d
      as a dependency other than the sentinel. */
  lemma {:induction false} PrecedencesMembers(works: seq<Work>, d: string, n: string)
    ensures (d, n) in Precedences(works) <==>
            exists w :: w in works && w.name == n && d in w.dependencies && d != NoDependency
  {
    if works != [] {
      PrecedencesMembers(works[1..], d, n);
      PairsOfMembers(works[0], d, n);
      assert works == [works[0]] + works[1..];
      if exists w :: w in works && w.name == n && d in w.dependencies && d != NoDependency {
        var w :| w in works && w.name == n && d in w.dependencies && d != NoDependency;
        if w != works[0] {
          assert w in works[1..];
        }
      }
    }
  }

  // ---------------------------------------------------------------------------
  // Properties of the edge list.
  // ---------------------------------------------------------------------------

  /** No sentinel produces an edge: there is one edge per other dependency entry. */
  lemma EdgeCount(works: seq<Work>)
    requires SpecEdges(works).Success?
    ensures |SpecEdges(works).value| == RealDependencyCount(works)
  {
    SpecEdgesIsResolvedPrecedences(works);
    PrecedencesLength(works);
  }

  /** Every endpoint is a position in the input, and the k-th edge joins the
      works named by the k-th precedence. */
  lemma EdgeEndpoints(works: seq<Work>)
    requires SpecEdges(works).Success?
    ensures forall e :: e in SpecEdges(works).value ==> e.0 < |works| && e.1 < |works|
    ensures |SpecEdges(works).value| == |Precedences(works)|
    ensures forall k :: 0 <= k < |SpecEdges(works).value| ==>
              var e := SpecEdges(works).value[k];
              (works[e.0].name, works[e.1].name) == Precedences(works)[k]
  {
    SpecEdgesIsResolvedPrecedences(works);
    var index := NameIndex(works);
    var ps := Precedences(works);
    var es := SpecEdges(works).value;
    forall k | 0 <= k < |es|
      ensures es[k].0 < |works| && es[k].1 < |works|
      ensures (works[es[k].0].name, works[es[k].1].name) == ps[k]
    {
      assert ps[k].0 in index && ps[k].1 in index;
      assert es[k] == (index[ps[k].0], index[ps[k].1]);
    }
    forall e | e in es ensures e.0 < |works| && e.1 < |works| {
      var k :| 0 <= k < |es| && es[k] == e;
    }
  }

  /** The edge list is empty exactly when no work lists a real dependency. */
  lemma NoDependenciesNoEdges(works: seq<Work>)
    requires SpecEdges(works).Success?
    ensures SpecEdges(works).value == [] <==>
            forall w, d :: w in works && d in w.dependencies ==> d == NoDependency
  {
    SpecEdgesIsResolvedPrecedences(works);
    if Precedences(works) != [] {
      var p := Precedences(works)[0];
      PrecedencesMembers(works, p.0, p.1);
    }
    forall w, d | w in works && d in w.dependencies && d != NoDependency
      ensures Precedences(works) != []
    {
      PrecedencesMembers(works, d, w.name);
    }
  }

  /** On failure the reported name is the first dependency, in input order,
      that names no work. */
  lemma FailureNamesFirstUnknown(works: seq<Work>)
    requires SpecEdges(works).Failure?
    ensures var ps := Precedences(works);
            var m := FirstUnknown(NameIndex(works), ps);
            && m < |ps|
            && SpecEdges(works).error.name == ps[m].0
            && ps[m].0 !in Names(works)
            && forall l :: 0 <= l < m ==> ps[l].0 in Names(works)
  {
    NameIndexKeys(works);
    SpecEdgesIsResolvedPrecedences(works);
  }

  /** With unique names, the work at position i is node i. */
  lemma IndexOfUniqueName(works: seq<Work>)
    requires UniqueNames(works)
    ensures forall k :: 0 <= k < |works| ==> NameIndex(works)[works[k].name] == k
  {
    var index := NameIndex(works);
    forall k | 0 <= k < |works| ensures index[works[k].name] == k {
      SameNameSamePosition(works, index[works[k].name], k);
    }
  }

  /** With unique names, each edge (a, b) says that work b lists work a's name
      among its dependencies. */
  lemma UniqueNamesEdgeMeaning(works: seq<Work>)
    requires UniqueNames(works)
    requires SpecEdges(works).Success?
    ensures forall e :: e in SpecEdges(works).value ==>
              && e.0 < |works| && e.1 < |works|
              && works[e.0].name in works[e.1].dependencies
              && works[e.0].name != NoDependency
  {
    EdgeEndpoints(works);
    var es := SpecEdges(works).value;
    var ps := Precedences(works);
    forall k | 0 <= k < |es|
      ensures works[es[k].0].name in works[es[k].1].dependencies
      ensures works[es[k].0].name != NoDependency
    {
      var a, b := es[k].0, es[k].1;
      assert (works[a].name, works[b].name) == ps[k];
      assert ps[k] in ps;
      PrecedencesMembers(works, works[a].name, works[b].name);
      var w :| w in works && w.name == works[b].name && works[a].name in w.dependencies
               && works[a].name != NoDependency;
      var i :| 0 <= i < |works| && works[i] == w;
      SameNameSamePosition(works, i, b);
    }
    forall e | e in es
      ensures works[e.0].name in works[e.1].dependencies && works[e.0].name != NoDependency
    {
      var k :| 0 <= k < |es| && es[k] == e;
    }
  }

  lemma SameNameSamePosition(works: seq<Work>, i: nat, j: nat)
    requires UniqueNames(works)
    requires i < |works| && j < |works|
    requires works[i].name == works[j].name
    ensures i == j
  {
  }

  lemma {:induction false} EdgesOfTargetsSorted(index: map<string, nat>, works: seq<Work>)
    requires forall k :: 0 <= k < |works| ==> works[k].name in index && index[works[k].name] == k
    requires EdgesOf(index, works).Success?
    ensures forall e :: e in EdgesOf(index, works).value ==> e.1 < |works|
    ensures forall p, q :: 0 <= p <= q < |EdgesOf(index, works).value| ==>
              EdgesOf(index, works).value[p].1 <= EdgesOf(index, works).value[q].1
    decreases |works|
  {
    if works != [] {
      var last := |works| - 1;
      var init := works[..last];
      assert forall w :: w in works ==> w.name in index;
      EdgesOfTargetsSorted(index, init);
      var es := EdgesOf(index, init).value;
      DependencyEdgesOutcome(index, works[last].dependencies, last);
      var ds := DependencyEdges(index, works[last].dependencies, last).value;
      assert EdgesOf(index, works).value == es + ds;
      assert forall q :: 0 <= q < |ds| ==> ds[q] in ds;
    }
  }

  /** With unique names, the edges are grouped by target node in increasing
      order: all edges of work i come before those of work i + 1. */
  lemma UniqueNamesTargetsSorted(works: seq<Work>)
    requires UniqueNames(works)
    requires SpecEdges(works).Success?
    ensures forall p, q :: 0 <= p <= q < |SpecEdges(works).value| ==>
              SpecEdges(works).value[p].1 <= SpecEdges(works).value[q].1
  {
    IndexOfUniqueName(works);
    EdgesOfTargetsSorted(NameIndex(works), works);
  }

  // ---------------------------------------------------------------------------
  // One more step of each loop.
  // ---------------------------------------------------------------------------

  lemma NameIndexStep(works: seq<Work>, i: nat)
    requires i < |works|
    ensures NameIndex(works[..i + 1]) == NameIndex(works[..i])[works[i].name := i]
  {
    assert works[..i + 1][..i] == works[..i];
  }

  lemma DependencyEdgesStep(index: map<string, nat>, deps: seq<string>, j: nat, target: nat)
    requires j < |deps|
    ensures DependencyEdges(index, deps[..j + 1], target) ==
            Then(DependencyEdges(index, deps[..j], target), DependencyEdge(index, deps[j], target))
  {
    assert deps[..j + 1][..j] == deps[..j];
  }

  lemma EdgesOfStep(index: map<string, nat>, works: seq<Work>, i: nat)
    requires i < |works|
    requires forall w :: w in works ==> w.name in index
    ensures forall w :: w in works[..i] ==> w.name in index
    ensures EdgesOf(index, works[..i + 1]) ==
            Then(EdgesOf(index, works[..i]),
                 DependencyEdges(index, works[i].dependencies, index[works[i].name]))
  {
    assert works[..i + 1][..i] == works[..i];
  }

  // ---------------------------------------------------------------------------
  // The first failure ends the computation.
  // ---------------------------------------------------------------------------

  lemma {:induction false} DependencyEdgesFailurePersists(index: map<string, nat>, deps: seq<string>, j: nat, target: nat)
    requires j <= |deps|
    requires DependencyEdges(index, deps[..j], target).Failure?
    ensures DependencyEdges(index, deps, target) == DependencyEdges(index, deps[..j], target)
    decreases |deps| - j
  {
    if j < |deps| {
      assert deps[..j + 1][..j] == deps[..j];
      DependencyEdgesFailurePersists(index, deps, j + 1, target);
    } else {
      assert deps[..j] == deps;
    }
  }

  lemma {:induction false} EdgesOfFailurePersists(index: map<string, nat>, works: seq<Work>, i: nat)
    requires i <= |works|
    requires forall w :: w in works ==> w.name in index
    requires EdgesOf(index, works[..i]).Failure?
    ensures EdgesOf(index, works) == EdgesOf(index, works[..i])
    decreases |works| - i
  {
    if i < |works| {
      assert works[..i + 1][..i] == works[..i];
      EdgesOfFailurePersists(index, works, i + 1);
    } else {
      assert works[..i] == works;
    }
  }
}
