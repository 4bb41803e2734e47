/** `preferredPackages`: which package of each name is hoisted to the top-level `node_modules`. */
module Preferred {
  import opened Basics
  import opened Packages

  /** The comparison given to `sort`; `collation` stands for `localeCompare` on manifest paths. */
  predicate Before(incoming: map<(Name, Id), nat>, collation: Id -> int, name: Name, left: Id, right: Id)
  {
    var l, r := Count(incoming, name, left), Count(incoming, name, right);
    l > r || (l == r && collation(left) < collation(right))
  }

  /** The head of the stably sorted candidates: the first one that no other candidate sorts before. */
  function Best(incoming: map<(Name, Id), nat>, collation: Id -> int, name: Name, candidates: seq<Id>): (best: Id)
    requires candidates != []
    ensures best in candidates
    ensures forall c :: c in candidates ==> !Before(incoming, collation, name, c, best)
  {
    if |candidates| == 1 then candidates[0]
    else
      var last := candidates[|candidates| - 1];
      var best := Best(incoming, collation, name, candidates[..|candidates| - 1]);
      assert candidates == candidates[..|candidates| - 1] + [last];
      if Before(incoming, collation, name, last, best) then last else best
  }

  ghost predicate Requested(edges: seq<Edge>, name: Name)
  {
    exists e :: e in edges && e.request == name
  }

  /** Roots keep the package the application itself gets; every other requested name gets its best candidate. */
  ghost predicate IsPreferred(g: Graph, collation: Id -> int, names: seq<Name>, preferred: seq<Edge>)
    requires forall name :: name in names ==> name in g.candidates && g.candidates[name] != []
  {
    && DistinctRequests(preferred)
    && g.roots <= preferred
    && (forall name :: name in names ==> Requested(preferred, name))
    && (forall i :: |g.roots| <= i < |preferred| ==>
          && preferred[i].request in names
          && preferred[i].node == Best(g.incoming, collation, preferred[i].request, g.candidates[preferred[i].request]))
  }

  /** The result is an ordered map, listed as request/package pairs in insertion order. */
  method PreferredPackages(g: Graph, collation: Id -> int) returns (preferred: seq<Edge>)
    requires DistinctRequests(g.roots)
    requires forall name :: name in g.requestOrder ==> name in g.candidates && g.candidates[name] != []
    ensures IsPreferred(g, collation, g.requestOrder, preferred)
  {
    preferred := g.roots;
    var i := 0;
    while i < |g.requestOrder|
      invariant 0 <= i <= |g.requestOrder|
      invariant IsPreferred(g, collation, g.requestOrder[..i], preferred)
    {
      var name := g.requestOrder[i];
      assert g.requestOrder[..i + 1] == g.requestOrder[..i] + [name];
      if !(exists k :: 0 <= k < |preferred| && preferred[k].request == name) {
        var best := Edge(name, Best(g.incoming, collation, name, g.candidates[name]));
        ghost var before := preferred;
        preferred := preferred + [best];
        assert best in preferred;
        assert forall e :: e in before ==> e in preferred;
      }
      i := i + 1;
    }
    assert g.requestOrder[..i] == g.requestOrder;
  }

  function AsMap(edges: seq<Edge>): map<Name, Id>
  {
    if edges == [] then map[]
    else AsMap(edges[..|edges| - 1])[edges[|edges| - 1].request := edges[|edges| - 1].node]
  }

  lemma {:induction false} AsMapIff(edges: seq<Edge>, e: Edge)
    requires DistinctRequests(edges)
    ensures e in edges <==> Get(AsMap(edges), e.request) == Some(e.node)
  {
    if edges != [] {
      var init := edges[..|edges| - 1];
      assert edges == init + [edges[|edges| - 1]];
      AsMapIff(init, e);
      if e in init {
        var k :| 0 <= k < |init| && init[k] == e;
        assert edges[k].request != edges[|edges| - 1].request;
      }
    }
  }

  /** What is hoisted is a package of the graph. */
  lemma PreferredIsLinked(reg: Registry, app: Id, g: Graph, collation: Id -> int, preferred: seq<Edge>, i: nat)
    requires IsDependencyGraph(reg, app, g) && IsPreferred(g, collation, g.requestOrder, preferred)
    requires i < |preferred|
    ensures preferred[i].node in g.links
  {
    hide Complete, Succ;
    if i < |g.roots| {
      RootIsLinked(reg, app, g, preferred[i]);
    } else {
      CandidateIsLinked(reg, app, g, preferred[i].request, preferred[i].node);
    }
  }

  /** Every name that any package asks for is hoisted in some version. */
  lemma RequestIsHoisted(reg: Registry, app: Id, g: Graph, collation: Id -> int, preferred: seq<Edge>, n: Id, e: Edge)
    requires IsDependencyGraph(reg, app, g) && IsPreferred(g, collation, g.requestOrder, preferred)
    requires n in g.links && e in g.links[n]
    ensures Requested(preferred, e.request)
  {
    hide Complete, Needed;
    assert n in Issuers(g.links, e.request, e.node);
    assert IsCandidate(g.candidates, e.request, e.node);
  }

  /** Of what the packages ask for under a name, the hoisted one is asked for by most, and first among equals. */
  lemma MostRequested(reg: Registry, app: Id, g: Graph, collation: Id -> int, preferred: seq<Edge>, i: nat, n: Id, other: Id)
    requires IsDependencyGraph(reg, app, g) && IsPreferred(g, collation, g.requestOrder, preferred)
    requires |g.roots| <= i < |preferred|
    requires n in g.links && Edge(preferred[i].request, other) in g.links[n]
    ensures var name, hoisted := preferred[i].request, preferred[i].node;
            && |Issuers(g.links, name, other)| <= |Issuers(g.links, name, hoisted)|
            && (|Issuers(g.links, name, other)| == |Issuers(g.links, name, hoisted)| ==>
                  collation(hoisted) <= collation(other))
  {
    hide Complete, Needed, IsRoot;
    var name, hoisted := preferred[i].request, preferred[i].node;
    assert n in Issuers(g.links, name, other);
    assert IsCandidate(g.candidates, name, other);
    forall k | 0 <= k < |g.roots|
      ensures g.roots[k].request != name
    {
      assert g.roots[k] == preferred[k];
    }
    assert Count(g.incoming, name, other) == |Issuers(g.links, name, other)|;
    assert Count(g.incoming, name, hoisted) == |Issuers(g.links, name, hoisted)|;
  }

  lemma RootIsLinked(reg: Registry, app: Id, g: Graph, e: Edge)
    requires IsDependencyGraph(reg, app, g) && e in g.roots
    ensures e.node in g.links
  {
    hide Complete;
    ReachesSelf(reg, e.node);
    assert Needed(reg, app, e.node);
  }

  lemma CandidateIsLinked(reg: Registry, app: Id, g: Graph, name: Name, id: Id)
    requires IsDependencyGraph(reg, app, g) && IsCandidate(g.candidates, name, id)
    ensures id in g.links
  {
    hide Complete, Needed;
    if Edge(name, id) in g.roots {
      RootIsLinked(reg, app, g, Edge(name, id));
    } else {
      var issuers := Issuers(g.links, name, id);
      assert |issuers| > 0;
      var n :| n in issuers;
      assert Edge(name, id) in g.links[n];
    }
  }
}
