/**
 From the installed packages to what Node finds: the whole of `runtimeDependencyCopyPatterns` stated on manifests
 and their resolution, and installations on which it fails.
 */
module Installation {
  import opened Basics
  import opened Packages
  import opened Preferred
  import opened Collector
  import opened Layout
  import opened Copier
  import opened Resolution

  /** The source of the step asks for the request and the resolver answers with the package. */
  ghost predicate IsRequest(reg: Registry, s: Step)
  {
    && s.source in reg.manifests
    && (s.edge.request in reg.manifests[s.source].dependencies || s.edge.request in reg.manifests[s.source].optionalDependencies)
    && Get(reg.resolve, (s.edge.request, s.source)) == Some(s.edge.node)
  }

  ghost predicate IsRequestCycle(reg: Registry, steps: seq<Step>)
  {
    && steps != []
    && (forall k :: 0 <= k < |steps| ==> IsRequest(reg, steps[k]))
    && (forall k, l :: 0 <= k && l == k + 1 && l < |steps| ==> steps[k].edge.node == steps[l].source)
    && steps[|steps| - 1].edge.node == steps[0].source
  }

  /** Around any cycle of installed packages, a name always resolves to the same package. */
  ghost predicate OneVersionInstalled(reg: Registry)
  {
    forall steps :: IsRequestCycle(reg, steps) ==> AgreeOnNames(steps)
  }

  /** The edges of a collected package are its answerable requests. */
  lemma EdgesAreRequests(reg: Registry, app: Id, g: Graph, id: Id, e: Edge)
    requires IsDependencyGraph(reg, app, g) && id in g.links
    ensures e in g.links[id] <==> IsRequest(reg, Step(id, e))
  {
    hide CountsRequests, Listed, Needed, WellLinked;
    assert Complete(reg, id, g.links[id]);
    var names := DependencyNames(reg.manifests[id]);
    EdgeIff(reg, id, names, |names|, e);
    assert names[..|names|] == names;
  }

  /** An installation without mixed versions around a cycle is laid out in finitely many steps. */
  lemma OneVersionTerminates(reg: Registry, app: Id, collation: Id -> int)
    requires OneVersionInstalled(reg)
    ensures forall g: Graph, preferred: seq<Edge> :: Hoists(reg, app, g, collation, preferred) ==> NeverRepeats(g.links, AsMap(preferred))
  {
    hide NeverRepeats, IsDependencyGraph, AsMap, AgreeOnNames;
    forall g: Graph, preferred: seq<Edge> | Hoists(reg, app, g, collation, preferred)
      ensures NeverRepeats(g.links, AsMap(preferred))
    {
      HoistsWellFormed(reg, app, g, collation, preferred);
      forall steps: seq<Step> | IsCycle(g.links, steps) ensures AgreeOnNames(steps) {
        forall k | 0 <= k < |steps| ensures IsRequest(reg, steps[k]) {
          EdgesAreRequests(reg, app, g, steps[k].source, steps[k].edge);
          assert steps[k] == Step(steps[k].source, steps[k].edge);
        }
        assert IsRequestCycle(reg, steps);
      }
      OneVersionNeverRepeats(g.links, AsMap(preferred));
    }
  }

  /**
   The whole of it: wherever a package was copied, Node resolves each name its manifest asks for to the package the
   installation resolves it to, if and only if no sibling shadows that import.
   */
  lemma ImportResolvesIff(reg: Registry, app: Id, g: Graph, collation: Id -> int, preferred: seq<Edge>,
                          copied: map<Path, Id>, path: Path, name: Name)
    requires Hoists(reg, app, g, collation, preferred) && IsLayout(g.links, AsMap(preferred), copied)
    requires path in copied && copied[path] in reg.manifests
    requires var m := reg.manifests[copied[path]]; name in m.dependencies || name in m.optionalDependencies
    requires (name, copied[path]) in reg.resolve
    ensures Placed(g.links, AsMap(preferred), path)
    ensures var wanted := reg.resolve[(name, copied[path])];
            NodeLookup(copied, path, name) == Some(wanted)
            <==> Unshadowed(g.links, AsMap(preferred), path, name, wanted)
  {
    hide IsDependencyGraph, InstanceAt, NodeLookup, AsMap, Unshadowed, IsRequest;
    var top, id := AsMap(preferred), copied[path];
    var e := Edge(name, reg.resolve[(name, id)]);
    CopiedIff(g.links, top, copied, path);
    HoistsWellFormed(reg, app, g, collation, preferred);
    PlacedFits(g.links, top, path);
    EdgesAreRequests(reg, app, g, id, e);
    AsksFor(reg, id, name);
    EdgeToIff(g.links[id], e);
    UnshadowedIff(g.links, top, copied, path, name, e.node);
  }

  lemma AsksFor(reg: Registry, id: Id, name: Name)
    requires id in reg.manifests && (name, id) in reg.resolve
    requires name in reg.manifests[id].dependencies || name in reg.manifests[id].optionalDependencies
    ensures IsRequest(reg, Step(id, Edge(name, reg.resolve[(name, id)])))
  {
  }

  lemma UnshadowedIff(links: Links, top: Available, copied: map<Path, Id>, path: Path, request: Name, wanted: Id)
    requires IsLayout(links, top, copied) && Placed(links, top, path)
    requires Requests(links, InstanceAt(links, top, path).value.node, request) == Some(wanted)
    ensures NodeLookup(copied, path, request) == Some(wanted) <==> Unshadowed(links, top, path, request, wanted)
  {
    hide InstanceAt, NodeLookup, NearerAgree;
    ResolvesIff(links, top, copied, path, request, wanted);
  }

  // ---- Small installations ----

  /** Nothing leads out of `ids`, and nothing a package of `ids` asks for is missing. */
  ghost predicate Closed(reg: Registry, ids: set<Id>)
  {
    forall id :: id in ids ==> !Broken(reg, id) && forall next :: Succ(reg, id, next) ==> next in ids
  }

  lemma {:induction false} WalkStays(reg: Registry, ids: set<Id>, walk: seq<Id>)
    requires Closed(reg, ids) && IsWalk(reg, walk) && walk[0] in ids
    ensures walk[|walk| - 1] in ids
  {
    hide Broken, Succ;
    if |walk| > 1 {
      var init := walk[..|walk| - 1];
      WalkStays(reg, ids, init);
      assert Succ(reg, walk[|walk| - 2], walk[|walk| - 1]);
    }
  }

  lemma ClosedIsCollectable(reg: Registry, app: Id, ids: set<Id>)
    requires app in reg.manifests && Closed(reg, ids)
    requires forall name :: name in reg.manifests[app].dependencies ==> (name, app) in reg.resolve
    requires forall e :: e in RootEdges(reg, app) ==> e.node in ids
    ensures Collectable(reg, app)
    ensures forall id :: Needed(reg, app, id) ==> id in ids
  {
    hide Broken, Succ, RootEdges;
    forall id | Needed(reg, app, id) ensures id in ids {
      var e :| IsRoot(reg, app, e) && Reaches(reg, e.node, id);
      RootEdgesAre(reg, app, e);
      var walk :| IsWalk(reg, walk) && walk[0] == e.node && walk[|walk| - 1] == id;
      WalkStays(reg, ids, walk);
    }
  }

  lemma {:induction false} DistinctAlready(names: seq<Name>)
    requires NoDuplicates(names)
    ensures Distinct(names) == names
  {
    if names != [] {
      var init := names[..|names| - 1];
      DistinctAlready(init);
      assert names == init + [names[|names| - 1]];
    }
  }

  /** A manifest with plain dependencies only. */
  function Needing(names: seq<Name>): Manifest
  {
    Manifest(names, [], false)
  }

  lemma NamesOf(names: seq<Name>)
    requires NoDuplicates(names)
    ensures DependencyNames(Needing(names)) == names && Distinct(names) == names
  {
    DistinctAlready(names);
    assert names + [] == names;
  }

  lemma OneEdge(reg: Registry, id: Id, name: Name)
    requires (name, id) in reg.resolve
    ensures EdgesUpTo(reg, id, [name], 1) == [Edge(name, reg.resolve[(name, id)])]
  {
  }

  /** What `a` needs is `a` again, in the other version. */
  const ALTERNATING: Registry := Registry(
    map[("a", "app") := "a1", ("a", "a1") := "a2", ("a", "a2") := "a1"],
    map["app" := Needing(["a"]), "a1" := Needing(["a"]), "a2" := Needing(["a"])])

  lemma AlternatingIsClosed()
    ensures Closed(ALTERNATING, {"a1", "a2"})
  {
    NamesOf(["a"]);
  }

  lemma AlternatingIsNeeded()
    ensures Collectable(ALTERNATING, "app") && RootEdges(ALTERNATING, "app") == [Edge("a", "a1")]
    ensures forall id :: Needed(ALTERNATING, "app", id) <==> id in {"a1", "a2"}
  {
    hide Closed, Collectable;
    NamesOf(["a"]);
    OneEdge(ALTERNATING, "app", "a");
    AlternatingIsClosed();
    ClosedIsCollectable(ALTERNATING, "app", {"a1", "a2"});
    assert Edge("a", "a1") in RootEdges(ALTERNATING, "app");
    ReachesSelf(ALTERNATING, "a1");
    ReachesSelf(ALTERNATING, "a2");
    assert Succ(ALTERNATING, "a1", "a2");
    ReachesStep(ALTERNATING, "a1", "a2", "a2");
    assert Needed(ALTERNATING, "app", "a1") && Needed(ALTERNATING, "app", "a2");
  }

  /** If the application itself asks for every name that any package asks for, only its own packages are hoisted. */
  lemma RootsOnly(reg: Registry, app: Id, g: Graph, collation: Id -> int, preferred: seq<Edge>)
    requires Hoists(reg, app, g, collation, preferred)
    requires forall id, e :: id in g.links && e in g.links[id] ==> Requested(g.roots, e.request)
    ensures preferred == g.roots
  {
    hide *;
    HoistsMeans(reg, app, g, collation, preferred);
    if |g.roots| < |preferred| {
      LaterIsCandidate(g, collation, preferred, |g.roots|);
      NewName(g.roots, preferred);
      assert false;
    }
  }

  lemma HoistsMeans(reg: Registry, app: Id, g: Graph, collation: Id -> int, preferred: seq<Edge>)
    requires Hoists(reg, app, g, collation, preferred)
    ensures CountsRequests(g) && Listed(g.candidates, g.incoming, g.requestOrder)
    ensures forall name :: name in g.requestOrder ==> name in g.candidates && g.candidates[name] != []
    ensures IsPreferred(g, collation, g.requestOrder, preferred)
    ensures DistinctRequests(preferred) && g.roots <= preferred
  {
    hide Best, Needed, Complete, CountsRequests, IsRoot, DistinctRequests, WellLinked;
  }

  lemma LaterIsCandidate(g: Graph, collation: Id -> int, preferred: seq<Edge>, i: nat)
    requires CountsRequests(g) && Listed(g.candidates, g.incoming, g.requestOrder)
    requires forall name :: name in g.requestOrder ==> name in g.candidates && g.candidates[name] != []
    requires IsPreferred(g, collation, g.requestOrder, preferred) && |g.roots| <= i < |preferred|
    requires forall n, e :: n in g.links && e in g.links[n] ==> Requested(g.roots, e.request)
    ensures Requested(g.roots, preferred[i].request)
  {
    hide Best, CountsRequests, Requested;
    var name := preferred[i].request;
    assert IsCandidate(g.candidates, name, g.candidates[name][0]);
    CandidateIsRoot(g, name, g.candidates[name][0]);
  }

  lemma NewName(roots: seq<Edge>, preferred: seq<Edge>)
    requires DistinctRequests(preferred) && roots < preferred
    ensures !Requested(roots, preferred[|roots|].request)
  {
    forall e | e in roots ensures e.request != preferred[|roots|].request {
      var j :| 0 <= j < |roots| && roots[j] == e;
      assert preferred[j] == e;
    }
  }

  lemma CandidateIsRoot(g: Graph, name: Name, id: Id)
    requires CountsRequests(g) && Listed(g.candidates, g.incoming, g.requestOrder)
    requires IsCandidate(g.candidates, name, id)
    requires forall n, e :: n in g.links && e in g.links[n] ==> Requested(g.roots, e.request)
    ensures Requested(g.roots, name)
  {
    if Edge(name, id) !in g.roots {
      var issuers := Issuers(g.links, name, id);
      assert |issuers| > 0;
      var n :| n in issuers;
      assert Edge(name, id) in g.links[n];
    }
  }

  lemma AlternatingEdges()
    ensures EdgesOf(ALTERNATING, "a1") == [Edge("a", "a2")] && EdgesOf(ALTERNATING, "a2") == [Edge("a", "a1")]
  {
    NamesOf(["a"]);
    OneEdge(ALTERNATING, "a1", "a");
    OneEdge(ALTERNATING, "a2", "a");
  }

  lemma AlternatingLinks(g: Graph)
    requires IsDependencyGraph(ALTERNATING, "app", g)
    ensures g.links == ALTERNATING_LINKS && g.roots == [Edge("a", "a1")]
  {
    hide Needed, Collectable, CountsRequests, Listed, EdgesOf, RootEdges, WellLinked;
    AlternatingIsNeeded();
    AlternatingEdges();
    assert Complete(ALTERNATING, "a1", g.links["a1"]) && Complete(ALTERNATING, "a2", g.links["a2"]);
    assert g.links.Keys == {"a1", "a2"};
  }

  /** Whatever is collected and hoisted from it is the example of module `Layout`. */
  lemma AlternatingHoists(g: Graph, collation: Id -> int, preferred: seq<Edge>)
    requires Hoists(ALTERNATING, "app", g, collation, preferred)
    ensures g.links == ALTERNATING_LINKS && AsMap(preferred) == ALTERNATING_TOP
  {
    hide IsDependencyGraph, IsPreferred;
    AlternatingLinks(g);
    assert Edge("a", "a1") in g.roots;
    RootsOnly(ALTERNATING, "app", g, collation, preferred);
    assert preferred[..0] == [];
  }

  /** The collector and the hoisting do return on it, and the copier could not: the layout has no greatest depth. */
  method CollectAlternating(collation: Id -> int) returns (g: Graph, preferred: seq<Edge>)
    ensures Hoists(ALTERNATING, "app", g, collation, preferred)
    ensures !OneVersionInstalled(ALTERNATING) && !NeverRepeats(g.links, AsMap(preferred))
    ensures forall depth :: !DepthAtMost(g.links, AsMap(preferred), depth)
  {
    hide *;
    AlternatingIsNeeded();
    var r, read := CollectDependencyGraph(ALTERNATING, "app");
    g := r.graph;
    GraphOrder(ALTERNATING, "app", g);
    preferred := PreferredPackages(g, collation);
    HoistsIff(ALTERNATING, "app", g, collation, preferred);
    AlternatingHoists(g, collation, preferred);
    MixedVersionsDiverge();
    AlternatingMixes(g, collation, preferred);
  }

  lemma AlternatingMixes(g: Graph, collation: Id -> int, preferred: seq<Edge>)
    requires Hoists(ALTERNATING, "app", g, collation, preferred)
    ensures !OneVersionInstalled(ALTERNATING)
  {
    hide *;
    AlternatingHoists(g, collation, preferred);
    MixedVersionsDiverge();
    if OneVersionInstalled(ALTERNATING) {
      OneVersionTerminates(ALTERNATING, "app", collation);
    }
  }

  /** `a` brings its own `b1` and `x2`; its `b1` asks for the `x1` that the application has. */
  const SHADOWED: Registry := Registry(
    map[("a", "app") := "a", ("b", "app") := "b2", ("x", "app") := "x1", ("b", "a") := "b1", ("x", "a") := "x2",
        ("x", "b1") := "x1"],
    map["app" := Needing(["a", "b", "x"]), "a" := Needing(["b", "x"]), "b1" := Needing(["x"]), "b2" := Needing([]),
        "x1" := Needing([]), "x2" := Needing([])])

  const SHADOWED_IDS: set<Id> := {"a", "b1", "b2", "x1", "x2"}

  lemma ShadowedNames()
    ensures DependencyNames(Needing(["a", "b", "x"])) == ["a", "b", "x"] && Distinct(["a", "b", "x"]) == ["a", "b", "x"]
    ensures DependencyNames(Needing(["b", "x"])) == ["b", "x"]
    ensures DependencyNames(Needing(["x"])) == ["x"] && DependencyNames(Needing([])) == []
  {
    NamesOf(["a", "b", "x"]);
    NamesOf(["b", "x"]);
    NamesOf(["x"]);
    NamesOf([]);
  }

  lemma ShadowedIsClosed()
    ensures Closed(SHADOWED, SHADOWED_IDS)
  {
    hide DependencyNames, Broken, Succ;
    forall id | id in SHADOWED_IDS
      ensures !Broken(SHADOWED, id) && forall next :: Succ(SHADOWED, id, next) ==> next in SHADOWED_IDS
    {
      ShadowedLeadsInside(id);
    }
  }

  lemma ShadowedLeadsInside(id: Id)
    requires id in SHADOWED_IDS
    ensures !Broken(SHADOWED, id) && forall next :: Succ(SHADOWED, id, next) ==> next in SHADOWED_IDS
  {
    hide DependencyNames;
  }

  lemma ShadowedEdges()
    ensures RootEdges(SHADOWED, "app") == [Edge("a", "a"), Edge("b", "b2"), Edge("x", "x1")]
    ensures EdgesOf(SHADOWED, "a") == [Edge("b", "b1"), Edge("x", "x2")] && EdgesOf(SHADOWED, "b1") == [Edge("x", "x1")]
    ensures EdgesOf(SHADOWED, "b2") == [] && EdgesOf(SHADOWED, "x1") == [] && EdgesOf(SHADOWED, "x2") == []
  {
    hide DependencyNames, Distinct;
    ShadowedNames();
    var three, two := ["a", "b", "x"], ["b", "x"];
    assert EdgesUpTo(SHADOWED, "app", three, 1) == [Edge("a", "a")];
    assert EdgesUpTo(SHADOWED, "app", three, 2) == [Edge("a", "a"), Edge("b", "b2")];
    assert EdgesUpTo(SHADOWED, "a", two, 1) == [Edge("b", "b1")];
  }

  lemma NeededThrough(reg: Registry, app: Id, e: Edge, id: Id)
    requires app in reg.manifests && e in RootEdges(reg, app)
    requires id == e.node || Succ(reg, e.node, id)
    ensures Needed(reg, app, id)
  {
    hide RootEdges, Succ;
    RootEdgesAre(reg, app, e);
    ReachesSelf(reg, id);
    if id != e.node {
      ReachesStep(reg, e.node, id, id);
    }
  }

  lemma ShadowedSuccessors()
    ensures Succ(SHADOWED, "a", "b1") && Succ(SHADOWED, "a", "x2")
  {
    hide DependencyNames;
    ShadowedNames();
    assert "b" in DependencyNames(SHADOWED.manifests["a"]) && "x" in DependencyNames(SHADOWED.manifests["a"]);
  }

  lemma ShadowedIsNeeded()
    ensures Collectable(SHADOWED, "app")
    ensures forall id :: Needed(SHADOWED, "app", id) <==> id in SHADOWED_IDS
  {
    hide Closed, Collectable, RootEdges, EdgesOf, Needed, DependencyNames, Succ;
    ShadowedEdges();
    ShadowedSuccessors();
    ShadowedIsClosed();
    ClosedIsCollectable(SHADOWED, "app", SHADOWED_IDS);
    var roots := RootEdges(SHADOWED, "app");
    assert Edge("a", "a") in roots && Edge("b", "b2") in roots && Edge("x", "x1") in roots;
    NeededThrough(SHADOWED, "app", Edge("a", "a"), "a");
    NeededThrough(SHADOWED, "app", Edge("a", "a"), "b1");
    NeededThrough(SHADOWED, "app", Edge("a", "a"), "x2");
    NeededThrough(SHADOWED, "app", Edge("b", "b2"), "b2");
    NeededThrough(SHADOWED, "app", Edge("x", "x1"), "x1");
  }

  lemma ShadowedLinks(g: Graph)
    requires IsDependencyGraph(SHADOWED, "app", g)
    ensures g.links == SHADOW_LINKS && g.roots == [Edge("a", "a"), Edge("b", "b2"), Edge("x", "x1")]
  {
    hide Needed, Collectable, CountsRequests, Listed, EdgesOf, RootEdges, WellLinked, NeedsMissing;
    ShadowedIsNeeded();
    ShadowedEdges();
    forall id | id in SHADOWED_IDS ensures id in g.links && g.links[id] == EdgesOf(SHADOWED, id) {
      assert Complete(SHADOWED, id, g.links[id]);
    }
    assert g.links.Keys == SHADOWED_IDS;
  }

  /** Whatever is collected and hoisted from it is the example of module `Resolution`. */
  lemma ShadowedHoists(g: Graph, collation: Id -> int, preferred: seq<Edge>)
    requires Hoists(SHADOWED, "app", g, collation, preferred)
    ensures g.links == SHADOW_LINKS && AsMap(preferred) == SHADOW_TOP
  {
    hide IsDependencyGraph, IsPreferred;
    ShadowedLinks(g);
    var a, b, x := Edge("a", "a"), Edge("b", "b2"), Edge("x", "x1");
    assert a in g.roots && b in g.roots && x in g.roots;
    RootsOnly(SHADOWED, "app", g, collation, preferred);
    ThreeAsMap(a, b, x);
  }

  lemma ThreeAsMap(a: Edge, b: Edge, c: Edge)
    ensures AsMap([a, b, c]) == map[a.request := a.node][b.request := b.node][c.request := c.node]
  {
    var one, two, three := [a], [a, b], [a, b, c];
    assert one[..0] == [] && two[..1] == one && three[..2] == two;
    assert AsMap(one) == map[a.request := a.node];
  }

  /** Packages can be ranked above everything they ask for, so no cycle exists at all. */
  lemma {:induction false} RanksFall(reg: Registry, rank: Id -> int, steps: seq<Step>, k: nat)
    requires forall s :: IsRequest(reg, s) ==> rank(s.edge.node) < rank(s.source)
    requires IsRequestCycle(reg, steps) && k < |steps|
    ensures rank(steps[k].edge.node) < rank(steps[0].source)
  {
    hide IsRequest;
    assert IsRequest(reg, steps[k]);
    if k > 0 {
      RanksFall(reg, rank, steps, k - 1);
      assert steps[k - 1].edge.node == steps[k].source;
    }
  }

  function Rank(id: Id): int
  {
    match id case "app" => 3 case "a" => 2 case "b1" => 1 case _ => 0
  }

  lemma ShadowedTerminates()
    ensures OneVersionInstalled(SHADOWED)
  {
    hide DependencyNames;
    ShadowedNames();
    forall s | IsRequest(SHADOWED, s) ensures Rank(s.edge.node) < Rank(s.source) {
      assert s.source in SHADOWED.manifests;
    }
    forall steps ensures !IsRequestCycle(SHADOWED, steps) {
      if IsRequestCycle(SHADOWED, steps) {
        RanksFall(SHADOWED, Rank, steps, |steps| - 1);
      }
    }
  }

  /** Copying it leaves `b1` with the sibling `x2` where the installation gives it `x1`. */
  method CopyShadowed(collation: Id -> int) returns (copied: map<Path, Id>)
    ensures Get(copied, ["a", "b"]) == Some("b1") && Get(SHADOWED.resolve, ("x", "b1")) == Some("x1")
    ensures NodeLookup(copied, ["a", "b"], "x") == Some("x2")
  {
    hide *;
    ShadowedIsNeeded();
    ShadowedTerminates();
    OneVersionTerminates(SHADOWED, "app", collation);
    var r, preferred, c, patterns := RuntimeDependencyCopyPatterns(SHADOWED, "app", collation);
    copied := c;
    ShadowedHoists(r.graph, collation, preferred);
    SiblingShadows(copied);
    ShadowedAnswer();
  }

  lemma ShadowedAnswer()
    ensures Get(SHADOWED.resolve, ("x", "b1")) == Some("x1")
  {
  }
}
