/** Installed packages as the module resolver sees them, and what a dependency graph of them has to contain. */
module Packages {
  import opened Basics

  type Name = string  // a package name as an `import` writes it
  type Id = string    // the path of a package manifest

  datatype Manifest = Manifest(dependencies: seq<Name>, optionalDependencies: seq<Name>, bundled: bool)

  /** `resolve` is the resolver restricted to the requests it can answer; `manifests` are the readable manifests. */
  datatype Registry = Registry(resolve: map<(Name, Id), Id>, manifests: map<Id, Manifest>)

  datatype Edge = Edge(request: Name, node: Id)

  type Links = map<Id, seq<Edge>>

  /** `requests` of the source: names in first-request order, and for each name its candidates in the same order. */
  datatype Graph = Graph(
    links: Links,
    requestOrder: seq<Name>,
    candidates: map<Name, seq<Id>>,
    incoming: map<(Name, Id), nat>,
    roots: seq<Edge>)

  /** The names `collectDependencyGraph` visits for a package, plain and optional dependencies together. */
  function DependencyNames(m: Manifest): (names: seq<Name>)
    ensures NoDuplicates(names)
    ensures forall name :: name in names <==> name in m.dependencies || name in m.optionalDependencies
  {
    Distinct(m.dependencies + m.optionalDependencies)
  }

  function EdgesUpTo(reg: Registry, issuer: Id, names: seq<Name>, k: nat): seq<Edge>
    requires k <= |names|
  {
    if k == 0 then []
    else
      var before := EdgesUpTo(reg, issuer, names, k - 1);
      match Get(reg.resolve, (names[k - 1], issuer))
      case None => before
      case Some(node) => before + [Edge(names[k - 1], node)]
  }

  /** The edges a readable package must end up with: its answerable requests, in manifest order. */
  function EdgesOf(reg: Registry, id: Id): seq<Edge>
    requires id in reg.manifests
  {
    var names := DependencyNames(reg.manifests[id]);
    EdgesUpTo(reg, id, names, |names|)
  }

  /** The edges of the application itself; only its plain `dependencies` are followed. */
  function RootEdges(reg: Registry, app: Id): seq<Edge>
    requires app in reg.manifests
  {
    var names := Distinct(reg.manifests[app].dependencies);
    EdgesUpTo(reg, app, names, |names|)
  }

  ghost predicate Succ(reg: Registry, a: Id, b: Id)
  {
    && a in reg.manifests
    && exists name ::
         && (name in reg.manifests[a].dependencies || name in reg.manifests[a].optionalDependencies)
         && Get(reg.resolve, (name, a)) == Some(b)
  }

  ghost predicate IsWalk(reg: Registry, walk: seq<Id>)
  {
    walk != [] && forall i, j :: 0 <= i && j == i + 1 && j < |walk| ==> Succ(reg, walk[i], walk[j])
  }

  ghost predicate Reaches(reg: Registry, a: Id, b: Id)
  {
    exists walk :: IsWalk(reg, walk) && walk[0] == a && walk[|walk| - 1] == b
  }

  /** Visiting this package throws: its manifest cannot be read, or a dependency it needs cannot be resolved. */
  ghost predicate Broken(reg: Registry, id: Id)
  {
    id !in reg.manifests || NeedsMissing(reg, id)
  }

  ghost predicate NeedsMissing(reg: Registry, id: Id)
    requires id in reg.manifests
  {
    exists name :: name in reg.manifests[id].dependencies && name !in reg.manifests[id].optionalDependencies
      && (name, id) !in reg.resolve
  }

  /** The application's manifest asks for `e.request`, and that is what it resolves to. */
  ghost predicate IsRoot(reg: Registry, app: Id, e: Edge)
    requires app in reg.manifests
  {
    e.request in reg.manifests[app].dependencies && Get(reg.resolve, (e.request, app)) == Some(e.node)
  }

  ghost predicate Needed(reg: Registry, app: Id, id: Id)
    requires app in reg.manifests
  {
    exists e :: IsRoot(reg, app, e) && Reaches(reg, e.node, id)
  }

  lemma RootEdgesAre(reg: Registry, app: Id, e: Edge)
    requires app in reg.manifests
    ensures e in RootEdges(reg, app) <==> IsRoot(reg, app, e)
  {
    var names := Distinct(reg.manifests[app].dependencies);
    EdgeIff(reg, app, names, |names|, e);
    assert names[..|names|] == names;
  }

  /** Collection succeeds on exactly these inputs. */
  ghost predicate Collectable(reg: Registry, app: Id)
  {
    && app in reg.manifests
    && (forall name :: name in reg.manifests[app].dependencies ==> (name, app) in reg.resolve)
    && (forall id :: Needed(reg, app, id) ==> !Broken(reg, id))
  }

  ghost function Issuers(links: Links, name: Name, id: Id): set<Id>
  {
    set n | n in links && Edge(name, id) in links[n]
  }

  function Count(incoming: map<(Name, Id), nat>, name: Name, id: Id): nat
  {
    if (name, id) in incoming then incoming[(name, id)] else 0
  }

  ghost predicate IsCandidate(candidates: map<Name, seq<Id>>, name: Name, id: Id)
  {
    name in candidates && id in candidates[name]
  }

  ghost predicate DistinctRequests(edges: seq<Edge>)
  {
    forall i, j :: 0 <= i < j < |edges| ==> edges[i].request != edges[j].request
  }

  /** Every package lists each request once and links only to packages of the graph. */
  ghost predicate WellLinked(links: Links)
  {
    forall n :: n in links ==> DistinctRequests(links[n]) && forall e :: e in links[n] ==> e.node in links
  }

  /** `id` has exactly the edges its manifest asks for, and nothing it needs is missing. */
  ghost predicate Complete(reg: Registry, id: Id, edges: seq<Edge>)
  {
    id in reg.manifests && edges == EdgesOf(reg, id) && !NeedsMissing(reg, id)
  }

  /** What `collectDependencyGraph` promises, stated without a traversal. */
  ghost predicate IsDependencyGraph(reg: Registry, app: Id, g: Graph)
  {
    && app in reg.manifests
    && g.roots == RootEdges(reg, app)
    && (forall e :: e in g.roots <==> IsRoot(reg, app, e))
    && DistinctRequests(g.roots)
    && WellLinked(g.links)
    && (forall id :: id in g.links <==> Needed(reg, app, id))
    && (forall id {:trigger Complete(reg, id, g.links[id])} :: id in g.links ==> Complete(reg, id, g.links[id]))
    && CountsRequests(g)
    && Listed(g.candidates, g.incoming, g.requestOrder)
  }

  /** `incomingCounts` of a name and a package: the edges and root requests with that name that reach the package. */
  ghost predicate CountsRequests(g: Graph)
  {
    forall name, id :: Count(g.incoming, name, id) ==
      |Issuers(g.links, name, id)| + (if Edge(name, id) in g.roots then 1 else 0)
  }

  /** The candidates of a name are the packages some request with that name reached, each listed once. */
  ghost predicate Listed(candidates: map<Name, seq<Id>>, incoming: map<(Name, Id), nat>, order: seq<Name>)
  {
    && (forall name, id :: IsCandidate(candidates, name, id) <==> Count(incoming, name, id) > 0)
    && (forall name :: name in candidates ==> NoDuplicates(candidates[name]) && candidates[name] != [])
    && NoDuplicates(order)
    && (forall name :: name in order <==> name in candidates)
  }

  lemma {:induction false} EdgeIff(reg: Registry, issuer: Id, names: seq<Name>, k: nat, e: Edge)
    requires k <= |names|
    ensures e in EdgesUpTo(reg, issuer, names, k) <==>
            e.request in names[..k] && Get(reg.resolve, (e.request, issuer)) == Some(e.node)
  {
    if k > 0 {
      EdgeIff(reg, issuer, names, k - 1, e);
      assert names[..k] == names[..k - 1] + [names[k - 1]];
    }
  }

  lemma {:induction false} EdgesKeepDistinct(reg: Registry, issuer: Id, names: seq<Name>, k: nat)
    requires k <= |names| && NoDuplicates(names)
    ensures DistinctRequests(EdgesUpTo(reg, issuer, names, k))
  {
    if k > 0 {
      EdgesKeepDistinct(reg, issuer, names, k - 1);
      forall e | e in EdgesUpTo(reg, issuer, names, k - 1)
        ensures e.request != names[k - 1]
      {
        EdgeIff(reg, issuer, names, k - 1, e);
      }
    }
  }

  lemma ReachesSelf(reg: Registry, a: Id)
    ensures Reaches(reg, a, a)
  {
    assert IsWalk(reg, [a]);
  }

  lemma ReachesStep(reg: Registry, a: Id, b: Id, c: Id)
    requires Succ(reg, a, b) && Reaches(reg, b, c)
    ensures Reaches(reg, a, c)
  {
    var walk :| IsWalk(reg, walk) && walk[0] == b && walk[|walk| - 1] == c;
    var longer := [a] + walk;
    forall i, j | 0 <= i && j == i + 1 && j < |longer|
      ensures Succ(reg, longer[i], longer[j])
    {
      if i > 0 { assert longer[i] == walk[i - 1] && longer[j] == walk[j - 1]; }
    }
    assert IsWalk(reg, longer) && longer[0] == a && longer[|longer| - 1] == c;
  }

  lemma {:induction false} ClosedUnderWalks(reg: Registry, links: Links, walk: seq<Id>)
    requires IsWalk(reg, walk) && walk[0] in links
    requires forall id {:trigger Complete(reg, id, links[id])} :: id in links ==> Complete(reg, id, links[id])
    requires WellLinked(links)
    ensures walk[|walk| - 1] in links
  {
    if |walk| > 1 {
      var init := walk[..|walk| - 1];
      ClosedUnderWalks(reg, links, init);
      var a, b := walk[|walk| - 2], walk[|walk| - 1];
      assert Succ(reg, a, b) && Complete(reg, a, links[a]);
      var names := DependencyNames(reg.manifests[a]);
      var name :| name in names && Get(reg.resolve, (name, a)) == Some(b);
      EdgeIff(reg, a, names, |names|, Edge(name, b));
      assert names[..|names|] == names;
    }
  }
}
