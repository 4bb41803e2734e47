/** `runtimeDependencyCopyPatterns`: the recursive copier, proved to produce exactly the layout of module `Layout`. */
module Copier {
  import opened Basics
  import opened Packages
  import opened Collector
  import opened Preferred
  import opened Layout

  /** `withNested` is set for packages that bundle dependencies: only those keep their own `node_modules`. */
  datatype CopyPattern = CopyPattern(node: Id, to: Path, withNested: bool)

  /** Every path of the layout, and nothing else, holds the package the layout says. */
  ghost predicate IsLayout(links: Links, top: Available, copied: map<Path, Id>)
  {
    && (forall path :: path in copied <==> Placed(links, top, path))
    && (forall path :: path in copied ==> Placed(links, top, path) && copied[path] == InstanceAt(links, top, path).value.node)
  }

  /** One pattern per copied target, each for the package that target holds. */
  ghost predicate PatternsFor(copied: map<Path, Id>, bundling: set<Id>, patterns: seq<CopyPattern>)
  {
    && (forall i :: 0 <= i < |patterns| ==> PatternFits(copied, bundling, patterns[i]))
    && (forall i, j :: 0 <= i < j < |patterns| ==> patterns[i].to != patterns[j].to)
    && |patterns| == |copied|
  }

  ghost predicate PatternFits(copied: map<Path, Id>, bundling: set<Id>, p: CopyPattern)
  {
    p.to in copied && copied[p.to] == p.node && p.withNested == (p.node in bundling)
  }

  /** `path` lies below `target`, through one of the first `k` requests. */
  ghost predicate Below(target: Path, edges: seq<Edge>, k: nat, path: Path)
    requires k <= |edges|
  {
    target <= path && |target| < |path| && exists m :: 0 <= m < k && edges[m].request == path[|target|]
  }

  lemma ChildPath(target: Path, name: Name, path: Path)
    requires target + [name] <= path
    ensures target <= path && |target| < |path| && path[|target|] == name
  {
    assert path[|target|] == (target + [name])[|target|];
    assert target == (target + [name])[..|target|];
  }

  lemma BelowChild(target: Path, edges: seq<Edge>, k: nat, path: Path)
    requires k < |edges|
    ensures Below(target, edges, k + 1, path) <==>
            Below(target, edges, k, path) || target + [edges[k].request] <= path
  {
    if target + [edges[k].request] <= path {
      ChildPath(target, edges[k].request, path);
    }
    if target <= path && |target| < |path| && edges[k].request == path[|target|] {
      assert path[..|target| + 1] == target + [edges[k].request];
    }
  }

  /** Whatever is placed below a package was nested for one of its requests that the package could not see. */
  lemma ThroughChild(links: Links, top: Available, target: Path, path: Path)
    requires WellLinked(links)
    requires target != [] && Placed(links, top, target) && Placed(links, top, path)
    requires target <= path && |target| < |path|
    ensures var s := InstanceAt(links, top, target).value;
            && Child(links, s, path[|target|]).Some?
            && s.node in links && Below(target, links[s.node], |links[s.node]|, path)
  {
    PrefixPlaced(links, top, path, |target| + 1);
    assert path[..|target| + 1] == target + [path[|target|]];
    Extend(links, top, target, path[|target|]);
    var s := InstanceAt(links, top, target).value;
    var c := Child(links, s, path[|target|]).value;
    EdgeToIff(links[s.node], Edge(path[|target|], c.node));
  }

  /** From `before` to `after` the layout's packages at the wanted paths were recorded, and nothing else changed. */
  ghost predicate AddedBelow(links: Links, top: Available, before: map<Path, Id>, after: map<Path, Id>,
                             target: Path, edges: seq<Edge>, k: nat)
    requires k <= |edges|
  {
    && (forall path :: path in after <==>
          path in before || ((path == target || Below(target, edges, k, path)) && Placed(links, top, path)))
    && Holds(links, top, before, after)
  }

  ghost predicate AddedUnder(links: Links, top: Available, before: map<Path, Id>, after: map<Path, Id>, target: Path)
  {
    && (forall path :: path in after <==> path in before || (target <= path && Placed(links, top, path)))
    && Holds(links, top, before, after)
  }

  ghost predicate Holds(links: Links, top: Available, before: map<Path, Id>, after: map<Path, Id>)
  {
    forall path :: path in after ==>
      if path in before then after[path] == before[path]
      else Placed(links, top, path) && after[path] == InstanceAt(links, top, path).value.node
  }

  ghost predicate NoneUnder(copied: map<Path, Id>, target: Path)
  {
    forall path :: path in copied ==> !(target <= path)
  }

  lemma SkipEdge(links: Links, top: Available, before: map<Path, Id>, after: map<Path, Id>, target: Path, s: Instance, k: nat)
    requires WellFormed(links, top) && target != [] && InstanceAt(links, top, target) == Some(s)
    requires s.node in links && k < |links[s.node]|
    requires Get(s.available, links[s.node][k].request) == Some(links[s.node][k].node)
    requires AddedBelow(links, top, before, after, target, links[s.node], k)
    ensures AddedBelow(links, top, before, after, target, links[s.node], k + 1)
  {
    var edges := links[s.node];
    EdgeToIff(edges, edges[k]);
    forall path
      ensures Placed(links, top, path) && Below(target, edges, k + 1, path) ==> Below(target, edges, k, path)
    {
      if Placed(links, top, path) && Below(target, edges, k + 1, path) {
        ThroughChild(links, top, target, path);
      }
    }
  }

  lemma NestEdge(links: Links, top: Available, before: map<Path, Id>, mid: map<Path, Id>, after: map<Path, Id>,
                 target: Path, edges: seq<Edge>, k: nat)
    requires k < |edges|
    requires AddedBelow(links, top, before, mid, target, edges, k)
    requires AddedUnder(links, top, mid, after, target + [edges[k].request])
    ensures AddedBelow(links, top, before, after, target, edges, k + 1)
  {
    forall path
      ensures Below(target, edges, k + 1, path) <==>
              Below(target, edges, k, path) || target + [edges[k].request] <= path
    {
      BelowChild(target, edges, k, path);
    }
  }

  lemma ChildIsFree(links: Links, top: Available, before: map<Path, Id>, after: map<Path, Id>,
                    node: Id, target: Path, edges: seq<Edge>, k: nat)
    requires WellFormed(links, top) && node in links && edges == links[node] && k < |edges|
    requires NoneUnder(before, target) && AddedBelow(links, top, before, after, target, edges, k)
    ensures NoneUnder(after, target + [edges[k].request])
  {
    forall path | path in after && target + [edges[k].request] <= path
      ensures false
    {
      ChildPath(target, edges[k].request, path);
    }
  }

  lemma AllEdges(links: Links, top: Available, before: map<Path, Id>, after: map<Path, Id>, target: Path, s: Instance)
    requires WellFormed(links, top) && target != [] && InstanceAt(links, top, target) == Some(s) && s.node in links
    requires AddedBelow(links, top, before, after, target, links[s.node], |links[s.node]|)
    ensures AddedUnder(links, top, before, after, target)
  {
    forall path | target <= path && Placed(links, top, path)
      ensures path == target || Below(target, links[s.node], |links[s.node]|, path)
    {
      if |target| < |path| {
        ThroughChild(links, top, target, path);
      } else {
        assert path == target;
      }
    }
  }

  lemma NestedChild(links: Links, top: Available, target: Path, s: Instance, e: Edge)
    requires WellFormed(links, top) && NeverRepeats(links, top)
    requires target != [] && InstanceAt(links, top, target) == Some(s)
    requires s.node in links && e in links[s.node] && Get(s.available, e.request) != Some(e.node)
    ensures InstanceAt(links, top, target + [e.request]) == Some(Instance(e.node, s.available[e.request := e.node]))
    ensures Space(links, top) - Trace(links, top, target + [e.request]) < Space(links, top) - Trace(links, top, target)
  {
    var child := target + [e.request];
    EdgeToIff(links[s.node], e);
    Extend(links, top, target, e.request);
    assert child[..|child| - 1] == target;
    TraceGrows(links, top, child);
  }

  class Copier {
    const links: Links
    const top: Available
    const bundling: set<Id>
    var copiedTargets: map<Path, Id>
    var patterns: seq<CopyPattern>

    constructor (links: Links, top: Available, bundling: set<Id>)
      ensures this.links == links && this.top == top && this.bundling == bundling
      ensures copiedTargets == map[] && patterns == []
    {
      this.links, this.top, this.bundling := links, top, bundling;
      copiedTargets, patterns := map[], [];
    }

    method Record(node: Id, target: Path)
      requires target !in copiedTargets && PatternsFor(copiedTargets, bundling, patterns)
      modifies this
      ensures copiedTargets == old(copiedTargets)[target := node]
      ensures PatternsFor(copiedTargets, bundling, patterns) && old(patterns) <= patterns
    {
      assert forall i :: 0 <= i < |patterns| ==> PatternFits(copiedTargets, bundling, patterns[i]);
      copiedTargets := copiedTargets[target := node];
      patterns := patterns + [CopyPattern(node, target, node in bundling)];
    }

    method AddPackage(packageName: Name, node: Id, target: Path, availablePackages: Available)
      requires WellFormed(links, top) && NeverRepeats(links, top)
      requires target != []
      requires InstanceAt(links, top, target) == Some(Instance(node, availablePackages[packageName := node]))
      requires NoneUnder(copiedTargets, target)
      requires PatternsFor(copiedTargets, bundling, patterns)
      modifies this
      ensures PatternsFor(copiedTargets, bundling, patterns) && old(patterns) <= patterns
      ensures AddedUnder(links, top, old(copiedTargets), copiedTargets, target)
      decreases Space(links, top) - Trace(links, top, target), 1
    {
      assert target in copiedTargets ==> target <= target;
      if target in copiedTargets {
        // Neither "Conflicting runtime packages" nor the silent return is ever reached.
        assert false;
      } else {
        assert Placed(links, top, target);
        PlacedFits(links, top, target);
        assert node in links;
        hide *;
        ghost var before := copiedTargets;
        Record(node, target);
        var childPackages := availablePackages[packageName := node];
        ghost var self := Instance(node, childPackages);
        var edges := links[node];
        OnlyTarget(links, top, before, target, self);
        var k := 0;
        while k < |edges|
          invariant 0 <= k <= |edges|
          invariant PatternsFor(copiedTargets, bundling, patterns) && old(patterns) <= patterns
          invariant AddedBelow(links, top, before, copiedTargets, target, edges, k)
        {
          FollowEdge(childPackages, node, target, k, before);
          k := k + 1;
        }
        AllEdges(links, top, before, copiedTargets, target, self);
      }
    }

    /** One turn of the loop over the edges of the package at `target`. */
    method FollowEdge(childPackages: Available, node: Id, target: Path, k: nat, ghost before: map<Path, Id>)
      requires WellFormed(links, top) && NeverRepeats(links, top)
      requires target != [] && InstanceAt(links, top, target) == Some(Instance(node, childPackages))
      requires node in links && k < |links[node]|
      requires NoneUnder(before, target)
      requires PatternsFor(copiedTargets, bundling, patterns)
      requires AddedBelow(links, top, before, copiedTargets, target, links[node], k)
      modifies this
      ensures PatternsFor(copiedTargets, bundling, patterns) && old(patterns) <= patterns
      ensures AddedBelow(links, top, before, copiedTargets, target, links[node], k + 1)
      decreases Space(links, top) - Trace(links, top, target), 0
    {
      hide *;
      ghost var self := Instance(node, childPackages);
      var edge := links[node][k];
      if Get(childPackages, edge.request) == Some(edge.node) {
        SkipEdge(links, top, before, copiedTargets, target, self, k);
      } else {
        ghost var mid := copiedTargets;
        NestedChild(links, top, target, self, edge);
        ChildIsFree(links, top, before, mid, node, target, links[node], k);
        AddPackage(edge.request, edge.node, target + [edge.request], childPackages);
        NestEdge(links, top, before, mid, copiedTargets, target, links[node], k);
      }
    }
  }

  lemma OnlyTarget(links: Links, top: Available, before: map<Path, Id>, target: Path, s: Instance)
    requires target != [] && InstanceAt(links, top, target) == Some(s) && s.node in links
    requires NoneUnder(before, target)
    ensures AddedBelow(links, top, before, before[target := s.node], target, links[s.node], 0)
  {
  }

  ghost predicate AddedRoots(links: Links, top: Available, copied: map<Path, Id>, preferred: seq<Edge>, k: nat)
    requires k <= |preferred|
  {
    && (forall path :: path in copied <==> Placed(links, top, path) && RootedIn(preferred, k, path))
    && Holds(links, top, map[], copied)
  }

  ghost predicate RootedIn(preferred: seq<Edge>, k: nat, path: Path)
    requires k <= |preferred|
  {
    path != [] && exists m :: 0 <= m < k && preferred[m].request == path[0]
  }

  lemma NextRoot(links: Links, top: Available, before: map<Path, Id>, after: map<Path, Id>, preferred: seq<Edge>, k: nat)
    requires k < |preferred| && AddedRoots(links, top, before, preferred, k)
    requires AddedUnder(links, top, before, after, [preferred[k].request])
    ensures AddedRoots(links, top, after, preferred, k + 1)
  {
    forall path: Path
      ensures RootedIn(preferred, k + 1, path) <==> RootedIn(preferred, k, path) || [preferred[k].request] <= path
    {
      if path != [] {
        assert [path[0]] <= path;
      }
    }
  }

  lemma RootIsFree(links: Links, top: Available, copied: map<Path, Id>, preferred: seq<Edge>, k: nat)
    requires DistinctRequests(preferred) && k < |preferred| && AddedRoots(links, top, copied, preferred, k)
    ensures NoneUnder(copied, [preferred[k].request])
  {
  }

  lemma RootPlaced(links: Links, preferred: seq<Edge>, k: nat)
    requires DistinctRequests(preferred) && k < |preferred|
    ensures var top, e := AsMap(preferred), preferred[k];
            InstanceAt(links, top, [e.request]) == Some(Instance(e.node, top[e.request := e.node]))
  {
    AsMapIff(preferred, preferred[k]);
    var top, e := AsMap(preferred), preferred[k];
    assert [e.request][..0] == [];
    assert top[e.request := e.node] == top;
  }

  lemma {:induction false} AllRoots(links: Links, preferred: seq<Edge>, copied: map<Path, Id>)
    requires DistinctRequests(preferred)
    requires AddedRoots(links, AsMap(preferred), copied, preferred, |preferred|)
    ensures IsLayout(links, AsMap(preferred), copied)
  {
    forall path | Placed(links, AsMap(preferred), path)
      ensures RootedIn(preferred, |preferred|, path)
    {
      PrefixPlaced(links, AsMap(preferred), path, 1);
      assert path[..1] == [path[0]] && [path[0]][..0] == [];
      AsMapIff(preferred, Edge(path[0], AsMap(preferred)[path[0]]));
    }
  }

  /** The copying half: everything after the graph and the hoisted packages are known. */
  method CopyAll(links: Links, preferred: seq<Edge>, bundling: set<Id>)
    returns (copied: map<Path, Id>, patterns: seq<CopyPattern>)
    requires DistinctRequests(preferred) && WellFormed(links, AsMap(preferred))
    requires NeverRepeats(links, AsMap(preferred))
    ensures IsLayout(links, AsMap(preferred), copied)
    ensures PatternsFor(copied, bundling, patterns)
  {
    var top := AsMap(preferred);
    var c := new Copier(links, top, bundling);
    var k := 0;
    while k < |preferred|
      invariant 0 <= k <= |preferred|
      invariant PatternsFor(c.copiedTargets, bundling, c.patterns)
      invariant AddedRoots(links, top, c.copiedTargets, preferred, k)
      modifies c
    {
      hide *;
      ghost var before := c.copiedTargets;
      var e := preferred[k];
      RootPlaced(links, preferred, k);
      RootIsFree(links, top, before, preferred, k);
      c.AddPackage(e.request, e.node, [e.request], top);
      NextRoot(links, top, before, c.copiedTargets, preferred, k);
      k := k + 1;
    }
    AllRoots(links, preferred, c.copiedTargets);
    return c.copiedTargets, c.patterns;
  }

  ghost predicate Hoists(reg: Registry, app: Id, g: Graph, collation: Id -> int, preferred: seq<Edge>)
  {
    IsDependencyGraph(reg, app, g) && IsPreferred(g, collation, g.requestOrder, preferred)
  }

  lemma HoistsWellFormed(reg: Registry, app: Id, g: Graph, collation: Id -> int, preferred: seq<Edge>)
    requires Hoists(reg, app, g, collation, preferred)
    ensures DistinctRequests(preferred) && WellFormed(g.links, AsMap(preferred))
  {
    forall id | id in AsMap(preferred).Values
      ensures id in g.links
    {
      var name :| name in AsMap(preferred) && AsMap(preferred)[name] == id;
      AsMapIff(preferred, Edge(name, id));
      var i :| 0 <= i < |preferred| && preferred[i] == Edge(name, id);
      PreferredIsLinked(reg, app, g, collation, preferred, i);
    }
  }

  /** The whole function. It is defined on exactly the inputs whose layout is finite (`TerminatesIff`). */
  method RuntimeDependencyCopyPatterns(reg: Registry, app: Id, collation: Id -> int)
    returns (r: Collected, preferred: seq<Edge>, copied: map<Path, Id>, patterns: seq<CopyPattern>)
    requires forall g, preferred :: Hoists(reg, app, g, collation, preferred) ==> NeverRepeats(g.links, AsMap(preferred))
    ensures r.Collected? <==> Collectable(reg, app)
    ensures r.Collected? ==>
      && Hoists(reg, app, r.graph, collation, preferred)
      && IsLayout(r.graph.links, AsMap(preferred), copied)
      && PatternsFor(copied, Bundling(reg, r.graph.links), patterns)
      && forall p :: p in patterns ==>
           && p.to in copied && copied[p.to] == p.node && p.node in reg.manifests
           && p.withNested == reg.manifests[p.node].bundled
  {
    hide *;
    preferred, copied, patterns := [], map[], [];
    ghost var read;
    r, read := CollectDependencyGraph(reg, app);
    if r.Collected? {
      GraphOrder(reg, app, r.graph);
      preferred := PreferredPackages(r.graph, collation);
      HoistsIff(reg, app, r.graph, collation, preferred);
      HoistsWellFormed(reg, app, r.graph, collation, preferred);
      copied, patterns := CopyAll(r.graph.links, preferred, Bundling(reg, r.graph.links));
      PatternsFollowManifests(reg, app, r.graph, preferred, copied, patterns);
    }
  }

  /** A package keeps its own `node_modules` exactly if its manifest bundles dependencies. */
  lemma PatternsFollowManifests(reg: Registry, app: Id, g: Graph, preferred: seq<Edge>, copied: map<Path, Id>,
                                patterns: seq<CopyPattern>)
    requires IsDependencyGraph(reg, app, g) && WellFormed(g.links, AsMap(preferred))
    requires IsLayout(g.links, AsMap(preferred), copied) && PatternsFor(copied, Bundling(reg, g.links), patterns)
    ensures forall p :: p in patterns ==>
              && p.to in copied && copied[p.to] == p.node && p.node in reg.manifests
              && p.withNested == reg.manifests[p.node].bundled
  {
    hide InstanceAt, Needed, CountsRequests, Listed, NeedsMissing, EdgesOf, RootEdges, IsRoot;
    forall p | p in patterns
      ensures p.to in copied && copied[p.to] == p.node && p.node in reg.manifests
      ensures p.withNested == reg.manifests[p.node].bundled
    {
      assert PatternFits(copied, Bundling(reg, g.links), p);
      PlacedFits(g.links, AsMap(preferred), p.to);
      assert Complete(reg, p.node, g.links[p.node]);
    }
  }

  function Bundling(reg: Registry, links: Links): set<Id>
  {
    set id | id in links.Keys && id in reg.manifests && reg.manifests[id].bundled
  }

  lemma GraphOrder(reg: Registry, app: Id, g: Graph)
    requires IsDependencyGraph(reg, app, g)
    ensures DistinctRequests(g.roots)
    ensures forall name :: name in g.requestOrder ==> name in g.candidates && g.candidates[name] != []
  {
  }

  lemma HoistsIff(reg: Registry, app: Id, g: Graph, collation: Id -> int, preferred: seq<Edge>)
    requires IsDependencyGraph(reg, app, g)
    ensures forall name :: name in g.requestOrder ==> name in g.candidates && g.candidates[name] != []
    ensures Hoists(reg, app, g, collation, preferred) <==> IsPreferred(g, collation, g.requestOrder, preferred)
  {
  }
}
