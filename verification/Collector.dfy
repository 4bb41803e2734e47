/** `collectDependencyGraph`: a depth-first walk of the installed packages that tolerates cycles. */
module Collector {
  import opened Basics
  import opened Packages

  datatype Visited = Found(node: Id) | Skipped | Threw
  datatype Collected = Collected(graph: Graph) | Failed

  /** The counters agree with the edges recorded so far, plus the requests in `owed` that no recorded edge stands for. */
  ghost predicate Tallied(links: Links, incoming: map<(Name, Id), nat>, owed: multiset<(Name, Id)>)
  {
    forall name, id :: Count(incoming, name, id) == |Issuers(links, name, id)| + owed[(name, id)]
  }

  /** What `incomingCounts` becomes when one more request of `name` reaches `id`. */
  function OneMore(incoming: map<(Name, Id), nat>, name: Name, id: Id): map<(Name, Id), nat>
  {
    incoming[(name, id) := Count(incoming, name, id) + 1]
  }

  lemma RequestTally(links: Links, incoming: map<(Name, Id), nat>, owed: multiset<(Name, Id)>, name: Name, id: Id)
    requires Tallied(links, incoming, owed)
    ensures Tallied(links, OneMore(incoming, name, id), owed + multiset{(name, id)})
  {
    hide Issuers;
    assert forall n, i :: Count(OneMore(incoming, name, id), n, i)
                          == Count(incoming, n, i) + (if (n, i) == (name, id) then 1 else 0);
  }

  lemma RequestListed(candidates: map<Name, seq<Id>>, incoming: map<(Name, Id), nat>, order: seq<Name>, name: Name, id: Id)
    requires Listed(candidates, incoming, order)
    ensures name !in candidates ==> Listed(candidates[name := [id]], OneMore(incoming, name, id), order + [name])
    ensures name in candidates && id !in candidates[name] ==>
              Listed(candidates[name := candidates[name] + [id]], OneMore(incoming, name, id), order)
    ensures name in candidates && id in candidates[name] ==> Listed(candidates, OneMore(incoming, name, id), order)
  {
    assert forall n, i :: Count(OneMore(incoming, name, id), n, i)
                          == Count(incoming, n, i) + (if (n, i) == (name, id) then 1 else 0);
  }

  /** Every package but the ones still being expanded has all its edges, and no required dependency was missing. */
  ghost predicate Expanded(reg: Registry, links: Links, open: set<Id>)
  {
    && links.Keys <= reg.manifests.Keys
    && (forall id {:trigger Complete(reg, id, links[id])} ::
          id in links && id !in open ==> Complete(reg, id, links[id]))
    && (forall id, e :: id in links && e in links[id] ==> e.node in links)
  }

  lemma PushTally(links: Links, incoming: map<(Name, Id), nat>, owed: multiset<(Name, Id)>, issuer: Id, e: Edge)
    requires issuer in links && e !in links[issuer]
    requires Tallied(links, incoming, owed + multiset{(e.request, e.node)})
    ensures Tallied(links[issuer := links[issuer] + [e]], incoming, owed)
  {
    var pushed := links[issuer := links[issuer] + [e]];
    forall name, id
      ensures Count(incoming, name, id) == |Issuers(pushed, name, id)| + owed[(name, id)]
    {
      var own := Edge(name, id);
      assert own in pushed[issuer] <==> own in links[issuer] || own == e;
      if own == e {
        assert Issuers(pushed, name, id) == Issuers(links, name, id) + {issuer};
      } else {
        assert Issuers(pushed, name, id) == Issuers(links, name, id);
      }
    }
  }

  lemma OpenTally(links: Links, incoming: map<(Name, Id), nat>, owed: multiset<(Name, Id)>, id: Id)
    requires id !in links
    requires Tallied(links, incoming, owed)
    ensures Tallied(links[id := []], incoming, owed)
  {
    forall name, node
      ensures Issuers(links[id := []], name, node) == Issuers(links, name, node)
    {
    }
  }

  class Collector {
    const reg: Registry
    var links: Links
    var requestOrder: seq<Name>
    var candidates: map<Name, seq<Id>>
    var incoming: map<(Name, Id), nat>
    var manifestsRead: seq<Id>  // the manifests read, in order

    constructor (reg: Registry)
      ensures this.reg == reg
      ensures links == map[] && manifestsRead == []
      ensures Valid({}, multiset{})
    {
      this.reg := reg;
      links, requestOrder, candidates, incoming, manifestsRead := map[], [], map[], map[], [];
    }

    ghost predicate Valid(open: set<Id>, owed: multiset<(Name, Id)>)
      reads this
    {
      && Expanded(reg, links, open)
      && Tallied(links, incoming, owed)
      && Listed(candidates, incoming, requestOrder)
      && NoDuplicates(manifestsRead)
      && (forall id :: id in manifestsRead <==> id in links)
    }

    /** The bookkeeping at the end of `visit`: one more request of `packageName` reached `node`. */
    method Request(packageName: Name, node: Id, ghost open: set<Id>, ghost owed: multiset<(Name, Id)>)
      requires Valid(open, owed)
      modifies this`requestOrder, this`candidates, this`incoming
      ensures Valid(open, owed + multiset{(packageName, node)})
      ensures incoming == old(incoming)[(packageName, node) := Count(old(incoming), packageName, node) + 1]
    {
      RequestTally(links, incoming, owed, packageName, node);
      RequestListed(candidates, incoming, requestOrder, packageName, node);
      hide Expanded, Tallied, Listed, NoDuplicates;
      if packageName !in candidates {
        requestOrder := requestOrder + [packageName];
        candidates := candidates[packageName := [node]];
      } else if node !in candidates[packageName] {
        candidates := candidates[packageName := candidates[packageName] + [node]];
      }
      incoming := incoming[(packageName, node) := Count(incoming, packageName, node) + 1];
    }

    /** `open` are the packages whose edges are still being collected; `owed` are the root requests already counted. */
    method Visit(packageName: Name, issuer: Id, optional: bool, ghost open: set<Id>, ghost owed: multiset<(Name, Id)>)
      returns (r: Visited)
      requires Valid(open, owed)
      modifies this
      ensures Extends(old(links), links)
      ensures r.Skipped? ==> optional && (packageName, issuer) !in reg.resolve && links == old(links) && Valid(open, owed)
      ensures r.Found? ==>
        && Get(reg.resolve, (packageName, issuer)) == Some(r.node)
        && r.node in links
        && Valid(open, owed + multiset{(packageName, r.node)})
        && NewReachable(reg, r.node, old(links), links)
      ensures r.Threw? ==>
        match Get(reg.resolve, (packageName, issuer))
        case None => !optional
        case Some(node) => Hopeless(reg, node)
      decreases reg.manifests.Keys - links.Keys, 1
    {
      if (packageName, issuer) !in reg.resolve {
        return if optional then Skipped else Threw;
      }
      var node := reg.resolve[(packageName, issuer)];
      if node !in links {
        if node !in reg.manifests {
          ReachesSelf(reg, node);
          return Threw;
        }
        var ok := Expand(node, open, owed);
        if !ok {
          return Threw;
        }
      }
      Request(packageName, node, open, owed);
      return Found(node);
    }

    /** A package enters the graph with no edges, before its dependencies are visited. */
    method Open(node: Id, ghost open: set<Id>, ghost owed: multiset<(Name, Id)>)
      requires Valid(open, owed) && node in reg.manifests && node !in links
      modifies this`links, this`manifestsRead
      ensures Valid(open + {node}, owed) && links == old(links)[node := []]
    {
      OpenTally(links, incoming, owed, node);
      links, manifestsRead := links[node := []], manifestsRead + [node];
    }

    method AddEdge(node: Id, e: Edge, ghost open: set<Id>, ghost owed: multiset<(Name, Id)>)
      requires Valid(open, owed + multiset{(e.request, e.node)})
      requires node in links && node in open && e !in links[node] && e.node in links
      modifies this`links
      ensures Valid(open, owed) && links == old(links)[node := old(links)[node] + [e]]
    {
      PushTally(links, incoming, owed, node, e);
      links := links[node := links[node] + [e]];
    }

    /** One turn of the loop over the dependency names of `node`. */
    method Follow(node: Id, names: seq<Name>, i: nat, ghost open: set<Id>, ghost owed: multiset<(Name, Id)>)
      returns (ok: bool)
      requires node in reg.manifests && names == DependencyNames(reg.manifests[node]) && i < |names|
      requires node in open && Valid(open, owed)
      requires node in links && links[node] == EdgesUpTo(reg, node, names, i)
      modifies this
      ensures Extends(old(links) - {node}, links)
      ensures ok ==>
        && Valid(open, owed) && node in links && links[node] == EdgesUpTo(reg, node, names, i + 1)
        && NewReachable(reg, node, old(links), links)
        && Answered(reg, node, names[i])
      ensures !ok ==> Hopeless(reg, node)
      decreases reg.manifests.Keys - links.Keys, 2
    {
      hide Tallied, Listed, Reaches, Distinct;
      var child := Visit(names[i], node, names[i] in reg.manifests[node].optionalDependencies, open, owed);
      if child.Threw? {
        ChildFailed(reg, node, names[i]);
        return false;
      }
      if child.Found? {
        NewEdge(reg, node, names, i, child.node);
        ReachThrough(reg, node, child.node, old(links), links);
        AddEdge(node, Edge(names[i], child.node), open, owed);
      }
      return true;
    }

    /** The first visit of a package: read its manifest and visit its dependencies. */
    method Expand(node: Id, ghost open: set<Id>, ghost owed: multiset<(Name, Id)>) returns (ok: bool)
      requires Valid(open, owed)
      requires node in reg.manifests && node !in links
      modifies this
      ensures Extends(old(links), links)
      ensures ok ==> node in links && Valid(open, owed) && NewReachable(reg, node, old(links), links)
      ensures !ok ==> Hopeless(reg, node)
      decreases reg.manifests.Keys - links.Keys, 0
    {
      hide Tallied, Listed, Reaches, Distinct;
      Open(node, open, owed);
      ReachesSelf(reg, node);
      var names := DependencyNames(reg.manifests[node]);
      var i := 0;
      while i < |names|
        invariant 0 <= i <= |names|
        invariant node in links && links[node] == EdgesUpTo(reg, node, names, i)
        invariant Valid(open + {node}, owed)
        invariant Extends(old(links), links)
        invariant NewReachable(reg, node, old(links), links)
        invariant forall j :: 0 <= j < i ==> Answered(reg, node, names[j])
      {
        ghost var before := links;
        var ok := Follow(node, names, i, open + {node}, owed);
        if !ok {
          return false;
        }
        NewerReachable(reg, node, old(links), before, links);
        i := i + 1;
      }
      Close(reg, links, open, node);
      return true;
    }
  }

  ghost predicate Extends(before: Links, after: Links)
  {
    forall id :: id in before ==> id in after && after[id] == before[id]
  }

  ghost predicate NewReachable(reg: Registry, node: Id, before: Links, after: Links)
  {
    forall id {:trigger Reaches(reg, node, id)} :: id in after && id !in before ==> Reaches(reg, node, id)
  }

  /** Some package that throws when visited can be reached from `node`. */
  ghost predicate Hopeless(reg: Registry, node: Id)
  {
    exists id :: Reaches(reg, node, id) && Broken(reg, id)
  }

  ghost predicate Answered(reg: Registry, node: Id, name: Name)
    requires node in reg.manifests
  {
    (name, node) in reg.resolve || name in reg.manifests[node].optionalDependencies
  }

  lemma Close(reg: Registry, links: Links, open: set<Id>, node: Id)
    requires node in links && Expanded(reg, links, open + {node})
    requires links[node] == EdgesOf(reg, node)
    requires forall name :: name in DependencyNames(reg.manifests[node]) ==> Answered(reg, node, name)
    ensures Expanded(reg, links, open)
  {
  }

  lemma ChildFailed(reg: Registry, node: Id, name: Name)
    requires node in reg.manifests && name in DependencyNames(reg.manifests[node])
    requires match Get(reg.resolve, (name, node))
             case None => name !in reg.manifests[node].optionalDependencies
             case Some(child) => Hopeless(reg, child)
    ensures Hopeless(reg, node)
  {
    if (name, node) in reg.resolve {
      var child := reg.resolve[(name, node)];
      var id :| Reaches(reg, child, id) && Broken(reg, id);
      assert Succ(reg, node, child);
      ReachesStep(reg, node, child, id);
    } else {
      ReachesSelf(reg, node);
      assert Broken(reg, node);
    }
  }

  lemma NewEdge(reg: Registry, node: Id, names: seq<Name>, i: nat, child: Id)
    requires node in reg.manifests && names == DependencyNames(reg.manifests[node]) && i < |names|
    requires Get(reg.resolve, (names[i], node)) == Some(child)
    ensures Succ(reg, node, child)
    ensures Edge(names[i], child) !in EdgesUpTo(reg, node, names, i)
  {
    EdgeIff(reg, node, names, i, Edge(names[i], child));
  }

  lemma ReachThrough(reg: Registry, node: Id, child: Id, before: Links, after: Links)
    requires Succ(reg, node, child) && NewReachable(reg, child, before, after)
    ensures NewReachable(reg, node, before, after)
  {
    forall id | id in after && id !in before
      ensures Reaches(reg, node, id)
    {
      ReachesStep(reg, node, child, id);
    }
  }

  lemma NewerReachable(reg: Registry, node: Id, start: Links, before: Links, after: Links)
    requires NewReachable(reg, node, start, before) && NewReachable(reg, node, before, after)
    ensures NewReachable(reg, node, start, after)
  {
  }

  /** `collectDependencyGraph`; `manifestsRead` lists the package manifests it read. */
  method CollectDependencyGraph(reg: Registry, app: Id) returns (r: Collected, manifestsRead: seq<Id>)
    ensures r.Collected? <==> Collectable(reg, app)
    ensures r.Collected? ==> IsDependencyGraph(reg, app, r.graph)
    ensures r.Collected? ==> NoDuplicates(manifestsRead) && forall id :: id in manifestsRead <==> id in r.graph.links
  {
    hide *;
    if app !in reg.manifests {
      NoManifest(reg, app);
      return Failed, [];
    }
    var names := Distinct(reg.manifests[app].dependencies);
    var roots: seq<Edge> := [];
    NoRoots(reg, app, names);
    var c := new Collector(reg);
    var i := 0;
    while i < |names|
      invariant 0 <= i <= |names|
      invariant c.reg == reg && c.Valid({}, RootBag(roots))
      invariant RootsFollowed(reg, app, names, i, roots, c.links)
      modifies c
    {
      ghost var before := c.links;
      var root := c.Visit(names[i], app, false, {}, RootBag(roots));
      if root.Threw? {
        RootFailed(reg, app, names, i);
        return Failed, c.manifestsRead;
      }
      if root.Found? {
        var e := Edge(names[i], root.node);
        RootBagPush(roots, e);
        MoreRoots(reg, app, names, i, roots, e, before, c.links);
        roots := roots + [e];
      }
      i := i + 1;
    }
    ValidMeans(c, RootBag(roots));
    var graph := Graph(c.links, c.requestOrder, c.candidates, c.incoming, roots);
    CollectableIfLinked(reg, app, graph.links, roots);
    GraphIsRight(reg, app, graph);
    return Collected(graph), c.manifestsRead;
  }

  lemma NoManifest(reg: Registry, app: Id)
    requires app !in reg.manifests
    ensures !Collectable(reg, app)
  {
  }

  lemma ValidMeans(c: Collector, owed: multiset<(Name, Id)>)
    requires c.Valid({}, owed)
    ensures Expanded(c.reg, c.links, {}) && Tallied(c.links, c.incoming, owed)
    ensures Listed(c.candidates, c.incoming, c.requestOrder)
    ensures NoDuplicates(c.manifestsRead) && forall id :: id in c.manifestsRead <==> id in c.links
  {
  }

  lemma CollectableIfLinked(reg: Registry, app: Id, links: Links, roots: seq<Edge>)
    requires app in reg.manifests && Expanded(reg, links, {})
    requires var names := Distinct(reg.manifests[app].dependencies); RootsFollowed(reg, app, names, |names|, roots, links)
    ensures Collectable(reg, app)
  {
    hide Expanded, Needed, Broken, Distinct, EdgesUpTo, FromRoots;
    NeededAreLinked(reg, app, links);
  }

  lemma AllComplete(reg: Registry, links: Links)
    requires Expanded(reg, links, {})
    ensures forall id {:trigger Complete(reg, id, links[id])} :: id in links ==> Complete(reg, id, links[id])
  {
    hide Complete;
  }

  lemma LinkedIffNeeded(reg: Registry, app: Id, g: Graph)
    requires app in reg.manifests && Expanded(reg, g.links, {})
    requires var names := Distinct(reg.manifests[app].dependencies);
             RootsFollowed(reg, app, names, |names|, g.roots, g.links)
    ensures g.roots == RootEdges(reg, app)
    ensures forall id :: id in g.links <==> Needed(reg, app, id)
  {
    assert g.roots == RootEdges(reg, app);
    hide Expanded, Needed, FromRoots, RootEdges, Distinct, EdgesUpTo, Broken;
    NeededAreLinked(reg, app, g.links);
    LinkedAreNeeded(reg, app, g.links);
  }

  lemma GraphIsRight(reg: Registry, app: Id, g: Graph)
    requires app in reg.manifests
    requires var names := Distinct(reg.manifests[app].dependencies);
             RootsFollowed(reg, app, names, |names|, g.roots, g.links)
    requires Expanded(reg, g.links, {})
    requires Tallied(g.links, g.incoming, RootBag(g.roots)) && Listed(g.candidates, g.incoming, g.requestOrder)
    ensures IsDependencyGraph(reg, app, g)
  {
    hide RootsFollowed, Needed, Expanded, Complete, WellLinked, Tallied, RootEdges, RootBag, DistinctRequests, Listed,
         CountsRequests, Distinct;
    LinkedIffNeeded(reg, app, g);
    AllComplete(reg, g.links);
    LinksAreWell(reg, g.links);
    RootTally(reg, app, g);
    RootsAre(reg, app, g.roots);
  }

  lemma RootsAre(reg: Registry, app: Id, roots: seq<Edge>)
    requires app in reg.manifests && roots == RootEdges(reg, app)
    ensures forall e :: e in roots <==> IsRoot(reg, app, e)
  {
    hide RootEdges, IsRoot;
    forall e
      ensures e in roots <==> IsRoot(reg, app, e)
    {
      RootEdgesAre(reg, app, e);
    }
  }

  /** After the application's first `i` dependencies: all of them resolve, and `links` is what their packages reach. */
  ghost predicate RootsFollowed(reg: Registry, app: Id, names: seq<Name>, i: nat, roots: seq<Edge>, links: Links)
    requires i <= |names|
  {
    && roots == EdgesUpTo(reg, app, names, i)
    && (forall e :: e in roots ==> e.node in links)
    && (forall j :: 0 <= j < i ==> (names[j], app) in reg.resolve)
    && FromRoots(reg, roots, links)
  }

  lemma NoRoots(reg: Registry, app: Id, names: seq<Name>)
    ensures RootsFollowed(reg, app, names, 0, [], map[]) && RootBag([]) == multiset{}
  {
  }

  ghost predicate FromRoots(reg: Registry, roots: seq<Edge>, links: Links)
  {
    forall id {:trigger Rooted(reg, roots, id)} :: id in links ==> Rooted(reg, roots, id)
  }

  ghost predicate Rooted(reg: Registry, roots: seq<Edge>, id: Id)
  {
    exists e :: e in roots && Reaches(reg, e.node, id)
  }

  lemma MoreRoots(reg: Registry, app: Id, names: seq<Name>, i: nat, roots: seq<Edge>, e: Edge, before: Links, after: Links)
    requires i < |names| && RootsFollowed(reg, app, names, i, roots, before)
    requires e.request == names[i] && Get(reg.resolve, (names[i], app)) == Some(e.node)
    requires e.node in after && Extends(before, after) && NewReachable(reg, e.node, before, after)
    ensures RootsFollowed(reg, app, names, i + 1, roots + [e], after)
  {
    MoreRooted(reg, roots, e, before, after);
    hide FromRoots, NewReachable;
  }

  lemma MoreRooted(reg: Registry, roots: seq<Edge>, e: Edge, before: Links, after: Links)
    requires FromRoots(reg, roots, before) && NewReachable(reg, e.node, before, after)
    ensures FromRoots(reg, roots + [e], after)
  {
    hide Reaches;
    forall id | id in after
      ensures Rooted(reg, roots + [e], id)
    {
      if id in before {
        assert Rooted(reg, roots, id);
        var f :| f in roots && Reaches(reg, f.node, id);
        assert f in roots + [e];
      } else {
        assert e in roots + [e] && Reaches(reg, e.node, id);
      }
    }
  }

  ghost function RootBag(roots: seq<Edge>): multiset<(Name, Id)>
  {
    if roots == [] then multiset{}
    else var last := roots[|roots| - 1]; RootBag(roots[..|roots| - 1]) + multiset{(last.request, last.node)}
  }

  lemma RootBagPush(roots: seq<Edge>, e: Edge)
    ensures RootBag(roots + [e]) == RootBag(roots) + multiset{(e.request, e.node)}
  {
    assert (roots + [e])[..|roots|] == roots;
  }

  lemma {:induction false} RootBagCounts(roots: seq<Edge>, name: Name, id: Id)
    requires DistinctRequests(roots)
    ensures RootBag(roots)[(name, id)] == if Edge(name, id) in roots then 1 else 0
  {
    if roots != [] {
      var init := roots[..|roots| - 1];
      assert roots == init + [roots[|roots| - 1]];
      RootBagCounts(init, name, id);
    }
  }

  lemma RootFailed(reg: Registry, app: Id, names: seq<Name>, i: nat)
    requires app in reg.manifests && names == Distinct(reg.manifests[app].dependencies) && i < |names|
    requires match Get(reg.resolve, (names[i], app))
             case None => true
             case Some(node) => Hopeless(reg, node)
    ensures !Collectable(reg, app)
  {
    assert names[i] in reg.manifests[app].dependencies;
    if (names[i], app) in reg.resolve {
      var e := Edge(names[i], reg.resolve[(names[i], app)]);
      EdgeIff(reg, app, names, |names|, e);
      assert names[i] == names[..|names|][i];
      var id :| Reaches(reg, e.node, id) && Broken(reg, id);
      assert Needed(reg, app, id);
    }
  }

  /** A closed, fully expanded set of packages that starts at the roots is exactly the set of needed packages. */
  lemma LinksAreWell(reg: Registry, links: Links)
    requires Expanded(reg, links, {})
    ensures WellLinked(links)
  {
    forall id | id in links
      ensures DistinctRequests(links[id])
    {
      assert Complete(reg, id, links[id]);
      var names := DependencyNames(reg.manifests[id]);
      EdgesKeepDistinct(reg, id, names, |names|);
    }
  }

  lemma NeededAreLinked(reg: Registry, app: Id, links: Links)
    requires app in reg.manifests
    requires Expanded(reg, links, {})
    requires forall e :: e in RootEdges(reg, app) ==> e.node in links
    ensures forall id :: Needed(reg, app, id) ==> id in links && !Broken(reg, id)
  {
    LinksAreWell(reg, links);
    forall id | Needed(reg, app, id)
      ensures id in links && !Broken(reg, id)
    {
      var e :| IsRoot(reg, app, e) && Reaches(reg, e.node, id);
      RootEdgesAre(reg, app, e);
      var walk :| IsWalk(reg, walk) && walk[0] == e.node && walk[|walk| - 1] == id;
      ClosedUnderWalks(reg, links, walk);
      assert Complete(reg, id, links[id]);
    }
  }

  lemma LinkedAreNeeded(reg: Registry, app: Id, links: Links)
    requires app in reg.manifests && FromRoots(reg, RootEdges(reg, app), links)
    ensures forall id :: id in links ==> Needed(reg, app, id)
  {
    forall id | id in links
      ensures Needed(reg, app, id)
    {
      assert Rooted(reg, RootEdges(reg, app), id);
      var e :| e in RootEdges(reg, app) && Reaches(reg, e.node, id);
      RootEdgesAre(reg, app, e);
    }
  }

  lemma RootTally(reg: Registry, app: Id, g: Graph)
    requires app in reg.manifests && g.roots == RootEdges(reg, app)
    requires Tallied(g.links, g.incoming, RootBag(g.roots))
    ensures DistinctRequests(g.roots)
    ensures CountsRequests(g)
  {
    var names := Distinct(reg.manifests[app].dependencies);
    EdgesKeepDistinct(reg, app, names, |names|);
    forall name, id
      ensures Count(g.incoming, name, id) ==
              |Issuers(g.links, name, id)| + (if Edge(name, id) in g.roots then 1 else 0)
    {
      RootBagCounts(g.roots, name, id);
    }
  }
}
