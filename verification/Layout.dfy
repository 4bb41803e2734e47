/**
 Where packages land. A path `[a, b]` stands for `node_modules/a/node_modules/b`. The copier descends
 through the dependency graph carrying a map of the packages already visible by name; it nests a
 dependency exactly when that map does not already hold the wanted package.
 */
module Layout {
  import opened Basics
  import opened Packages

  type Path = seq<Name>
  type Available = map<Name, Id>

  /** A copied package together with the map its own dependencies are judged by (`childPackages`). */
  datatype Instance = Instance(node: Id, available: Available)

  function EdgeTo(edges: seq<Edge>, request: Name): Option<Id>
  {
    if edges == [] then None
    else if edges[0].request == request then Some(edges[0].node)
    else EdgeTo(edges[1..], request)
  }

  function Requests(links: Links, id: Id, request: Name): Option<Id>
  {
    if id in links then EdgeTo(links[id], request) else None
  }

  function Child(links: Links, s: Instance, request: Name): Option<Instance>
  {
    match Requests(links, s.node, request)
    case None => None
    case Some(wanted) =>
      if Get(s.available, request) == Some(wanted) then None
      else Some(Instance(wanted, s.available[request := wanted]))
  }

  /** The package copied to `path`, if the layout puts one there; defined without running the copier. */
  function InstanceAt(links: Links, top: Available, path: Path): Option<Instance>
  {
    if path == [] then None
    else
      var parent, name := path[..|path| - 1], path[|path| - 1];
      if parent == [] then
        if name in top then Some(Instance(top[name], top)) else None
      else
        match InstanceAt(links, top, parent)
        case None => None
        case Some(s) => Child(links, s, name)
  }

  ghost predicate Placed(links: Links, top: Available, path: Path)
  {
    InstanceAt(links, top, path).Some?
  }

  /** No branch of the layout meets the same package with the same visible packages twice. */
  ghost predicate NeverRepeats(links: Links, top: Available)
  {
    forall path: Path, i {:trigger path[..i], Placed(links, top, path)} ::
      0 < i < |path| && Placed(links, top, path) ==> InstanceAt(links, top, path[..i]) != InstanceAt(links, top, path)
  }

  ghost predicate DepthAtMost(links: Links, top: Available, depth: nat)
  {
    forall path :: Placed(links, top, path) ==> |path| <= depth
  }

  ghost predicate WellFormed(links: Links, top: Available)
  {
    WellLinked(links) && top.Values <= links.Keys
  }

  lemma {:induction false} EdgeToIff(edges: seq<Edge>, e: Edge)
    requires DistinctRequests(edges)
    ensures e in edges <==> EdgeTo(edges, e.request) == Some(e.node)
  {
    if edges != [] {
      assert edges == [edges[0]] + edges[1..];
      EdgeToIff(edges[1..], e);
      if e in edges[1..] {
        var k :| 0 <= k < |edges[1..]| && edges[1..][k] == e;
        assert edges[k + 1] == e;
      }
    }
  }

  lemma Extend(links: Links, top: Available, path: Path, name: Name)
    requires path != []
    ensures InstanceAt(links, top, path + [name]) ==
            match InstanceAt(links, top, path)
            case None => None
            case Some(s) => Child(links, s, name)
  {
    assert (path + [name])[..|path|] == path;
  }

  lemma {:induction false} PrefixPlaced(links: Links, top: Available, path: Path, i: nat)
    requires 0 < i <= |path| && Placed(links, top, path)
    ensures Placed(links, top, path[..i])
  {
    if i < |path| {
      PrefixPlaced(links, top, path[..|path| - 1], i);
      assert path[..|path| - 1][..i] == path[..i];
    } else {
      assert path[..i] == path;
    }
  }

  // ---- A finite space of instances ----

  ghost function AllMaps(names: set<Name>, ids: set<Id>): set<Available>
  {
    if names == {} then {map[]}
    else
      var x := Pick(names);
      var rest := AllMaps(names - {x}, ids);
      rest + (set m, v | m in rest && v in ids :: m[x := v])
  }

  ghost function Pick(names: set<Name>): (x: Name)
    requires names != {}
    ensures x in names
  {
    var x :| x in names; x
  }

  lemma {:induction false} AllMapsIsComplete(names: set<Name>, ids: set<Id>, m: Available)
    requires m.Keys <= names && m.Values <= ids
    ensures m in AllMaps(names, ids)
  {
    if names == {} {
      assert m == map[];
    } else {
      var x := Pick(names);
      var rest := m - {x};
      assert rest.Values <= ids by {
        forall v | v in rest.Values ensures v in m.Values { var k :| k in rest && rest[k] == v; assert m[k] == v; }
      }
      AllMapsIsComplete(names - {x}, ids, rest);
      if x in m {
        assert m == rest[x := m[x]] && m[x] in ids;
      } else {
        assert m == rest;
      }
    }
  }

  ghost function Names(links: Links, top: Available): set<Name>
  {
    top.Keys + (set n, i | n in links && 0 <= i < |links[n]| :: links[n][i].request)
  }

  ghost function Space(links: Links, top: Available): set<Instance>
  {
    set id, m | id in links.Keys && m in AllMaps(Names(links, top), links.Keys) :: Instance(id, m)
  }

  ghost predicate Fits(links: Links, top: Available, s: Instance)
  {
    s.node in links && s.available.Keys <= Names(links, top) && s.available.Values <= links.Keys
  }

  lemma ChildFits(links: Links, top: Available, s: Instance, name: Name)
    requires WellFormed(links, top) && Fits(links, top, s) && Child(links, s, name).Some?
    ensures Fits(links, top, Child(links, s, name).value)
  {
    var edges := links[s.node];
    var c := Child(links, s, name).value;
    EdgeToIff(edges, Edge(name, c.node));
    var k :| 0 <= k < |edges| && edges[k] == Edge(name, c.node);
    assert links[s.node][k].request == name;
    forall v | v in c.available.Values ensures v in links {
      var n :| n in c.available && c.available[n] == v;
      if n != name { assert s.available[n] == v && v in s.available.Values; }
    }
  }

  lemma {:induction false} PlacedFits(links: Links, top: Available, path: Path)
    requires WellFormed(links, top) && Placed(links, top, path)
    ensures Fits(links, top, InstanceAt(links, top, path).value)
  {
    var parent, name := path[..|path| - 1], path[|path| - 1];
    if parent == [] {
      assert top[name] in top.Values;
    } else {
      PlacedFits(links, top, parent);
      ChildFits(links, top, InstanceAt(links, top, parent).value, name);
    }
  }

  lemma PlacedInSpace(links: Links, top: Available, path: Path)
    requires WellFormed(links, top) && Placed(links, top, path)
    ensures InstanceAt(links, top, path).value in Space(links, top)
  {
    PlacedFits(links, top, path);
    AllMapsIsComplete(Names(links, top), links.Keys, InstanceAt(links, top, path).value.available);
  }

  /** The instances met on the way to `path`, itself included. */
  ghost function Trace(links: Links, top: Available, path: Path): set<Instance>
    requires path == [] || Placed(links, top, path)
  {
    if path == [] then {}
    else
      var parent := path[..|path| - 1];
      assert parent != [] ==> Placed(links, top, parent);
      Trace(links, top, parent) + {InstanceAt(links, top, path).value}
  }

  lemma {:induction false} TraceIff(links: Links, top: Available, path: Path, s: Instance)
    requires path == [] || Placed(links, top, path)
    ensures s in Trace(links, top, path) <==>
            exists i :: 0 < i <= |path| && InstanceAt(links, top, path[..i]) == Some(s)
  {
    if path != [] {
      var parent := path[..|path| - 1];
      TraceIff(links, top, parent, s);
      assert path[..|path|] == path;
      assert forall i :: 0 <= i <= |parent| ==> parent[..i] == path[..i];
    }
  }

  lemma ParentPlaced(links: Links, top: Available, path: Path)
    requires path != [] && Placed(links, top, path)
    ensures path[..|path| - 1] == [] || Placed(links, top, path[..|path| - 1])
  {
  }

  lemma TraceGrows(links: Links, top: Available, path: Path)
    requires WellFormed(links, top) && NeverRepeats(links, top)
    requires path != [] && Placed(links, top, path)
    ensures InstanceAt(links, top, path).value in Space(links, top)
    ensures path[..|path| - 1] == [] || Placed(links, top, path[..|path| - 1])
    ensures InstanceAt(links, top, path).value !in Trace(links, top, path[..|path| - 1])
  {
    var parent, s := path[..|path| - 1], InstanceAt(links, top, path).value;
    PlacedInSpace(links, top, path);
    ParentPlaced(links, top, path);
    TraceIff(links, top, parent, s);
    hide InstanceAt, Trace, Space, WellFormed;
    forall i | 0 < i <= |parent|
      ensures InstanceAt(links, top, parent[..i]) != Some(s)
    {
      assert parent[..i] == path[..i];
    }
  }

  lemma {:induction false} TraceSize(links: Links, top: Available, path: Path)
    requires WellFormed(links, top) && NeverRepeats(links, top)
    requires path == [] || Placed(links, top, path)
    ensures Trace(links, top, path) <= Space(links, top) && |Trace(links, top, path)| == |path|
  {
    if path != [] {
      TraceGrows(links, top, path);
      TraceSize(links, top, path[..|path| - 1]);
    }
  }

  // ---- Exactly when the copier stops ----

  lemma {:induction false} SameFuture(links: Links, top: Available, p: Path, q: Path, more: Path)
    requires p != [] && q != [] && InstanceAt(links, top, p) == InstanceAt(links, top, q)
    ensures InstanceAt(links, top, p + more) == InstanceAt(links, top, q + more)
  {
    if more == [] {
      assert p + more == p && q + more == q;
    } else {
      var init, last := more[..|more| - 1], more[|more| - 1];
      SameFuture(links, top, p, q, init);
      assert p + more == (p + init) + [last] && q + more == (q + init) + [last];
      Extend(links, top, p + init, last);
      Extend(links, top, q + init, last);
    }
  }

  lemma {:induction false} Pump(links: Links, top: Available, path: Path, i: nat, depth: nat) returns (deeper: Path)
    requires 0 < i < |path| && Placed(links, top, path)
    requires InstanceAt(links, top, path[..i]) == InstanceAt(links, top, path)
    ensures |deeper| > depth && InstanceAt(links, top, deeper) == InstanceAt(links, top, path)
  {
    deeper := path;
    var cycle := path[i..];
    while |deeper| <= depth
      invariant deeper != [] && InstanceAt(links, top, deeper) == InstanceAt(links, top, path)
      decreases depth - |deeper|
    {
      SameFuture(links, top, deeper, path[..i], cycle);
      assert path[..i] + cycle == path;
      deeper := deeper + cycle;
    }
  }

  /** The nesting depth is bounded, so the copier stops, if and only if no branch repeats an instance. */
  lemma TerminatesIff(links: Links, top: Available)
    requires WellFormed(links, top)
    ensures NeverRepeats(links, top) <==> exists depth :: DepthAtMost(links, top, depth)
  {
    if NeverRepeats(links, top) {
      forall path | Placed(links, top, path)
        ensures |path| <= |Space(links, top)|
      {
        TraceSize(links, top, path);
        SubsetSize(Trace(links, top, path), Space(links, top));
      }
      assert DepthAtMost(links, top, |Space(links, top)|);
    } else {
      var path: Path, i: int :| 0 < i < |path| && Placed(links, top, path)
        && InstanceAt(links, top, path[..i]) == InstanceAt(links, top, path);
      forall depth: nat
        ensures !DepthAtMost(links, top, depth)
      {
        var deeper := Pump(links, top, path, i, depth);
        assert Placed(links, top, deeper);
      }
    }
  }

  lemma {:induction false} SubsetSize(a: set<Instance>, b: set<Instance>)
    requires a <= b
    ensures |a| <= |b|
  {
    if a != {} {
      var x :| x in a;
      SubsetSize(a - {x}, b - {x});
    }
  }

  // ---- A condition on the dependency graph alone ----

  datatype Step = Step(source: Id, edge: Edge)

  ghost predicate IsCycle(links: Links, steps: seq<Step>)
  {
    && steps != []
    && (forall k :: 0 <= k < |steps| ==> steps[k].source in links && steps[k].edge in links[steps[k].source])
    && (forall k, l :: 0 <= k && l == k + 1 && l < |steps| ==> steps[k].edge.node == steps[l].source)
    && steps[|steps| - 1].edge.node == steps[0].source
  }

  /** Around any dependency cycle, a name always means the same package. */
  ghost predicate OneVersionPerCycle(links: Links)
  {
    forall steps :: IsCycle(links, steps) ==> AgreeOnNames(steps)
  }

  ghost predicate AgreeOnNames(steps: seq<Step>)
  {
    forall k, l :: 0 <= k < |steps| && 0 <= l < |steps| && steps[k].edge.request == steps[l].edge.request ==>
      steps[k].edge.node == steps[l].edge.node
  }

  ghost function NodeAt(links: Links, top: Available, path: Path, i: nat): Id
    requires 0 < i <= |path| && Placed(links, top, path)
  {
    PrefixPlaced(links, top, path, i);
    InstanceAt(links, top, path[..i]).value.node
  }

  ghost function StepsFrom(links: Links, top: Available, path: Path, i: nat): seq<Step>
    requires 0 < i <= |path| && Placed(links, top, path)
  {
    seq(|path| - i, k requires 0 <= k < |path| - i =>
      Step(NodeAt(links, top, path, i + k), Edge(path[i + k], NodeAt(links, top, path, i + k + 1))))
  }

  lemma Descend(links: Links, top: Available, path: Path, i: nat)
    requires 0 < i < |path| && Placed(links, top, path)
    ensures Placed(links, top, path[..i]) && Placed(links, top, path[..i + 1])
    ensures var s, c := InstanceAt(links, top, path[..i]).value, InstanceAt(links, top, path[..i + 1]).value;
            && Requests(links, s.node, path[i]) == Some(c.node)
            && Get(s.available, path[i]) != Some(c.node)
            && c.available == s.available[path[i] := c.node]
  {
    PrefixPlaced(links, top, path, i);
    PrefixPlaced(links, top, path, i + 1);
    assert path[..i + 1] == path[..i] + [path[i]];
    Extend(links, top, path[..i], path[i]);
  }

  lemma StepsAreEdges(links: Links, top: Available, path: Path, i: nat)
    requires WellLinked(links) && 0 < i < |path| && Placed(links, top, path)
    requires NodeAt(links, top, path, i) == NodeAt(links, top, path, |path|)
    ensures IsCycle(links, StepsFrom(links, top, path, i))
  {
    hide InstanceAt, Child;
    var steps := StepsFrom(links, top, path, i);
    forall k | 0 <= k < |steps|
      ensures steps[k].source in links && steps[k].edge in links[steps[k].source]
    {
      Descend(links, top, path, i + k);
      assert steps[k] == Step(NodeAt(links, top, path, i + k), Edge(path[i + k], NodeAt(links, top, path, i + k + 1)));
      EdgeToIff(links[steps[k].source], steps[k].edge);
    }
  }

  /** While a cycle agrees on names, the package its first step made visible stays visible. */
  lemma {:induction false} StaysVisible(links: Links, top: Available, path: Path, i: nat, j: nat)
    requires 0 < i < j <= |path| && Placed(links, top, path)
    requires AgreeOnNames(StepsFrom(links, top, path, i))
    ensures Placed(links, top, path[..j])
    ensures Get(InstanceAt(links, top, path[..j]).value.available, path[i]) == Some(NodeAt(links, top, path, i + 1))
  {
    hide Child, InstanceAt, Requests;
    Descend(links, top, path, j - 1);
    assert path[..j - 1 + 1] == path[..j];
    if j > i + 1 {
      StaysVisible(links, top, path, i, j - 1);
      var steps := StepsFrom(links, top, path, i);
      assert steps[0].edge == Edge(path[i], NodeAt(links, top, path, i + 1));
      assert steps[j - 1 - i].edge == Edge(path[j - 1], NodeAt(links, top, path, j));
    }
  }

  /** Sufficient for termination, and checkable on the graph: no cycle mixes versions of one name. */
  lemma OneVersionNeverRepeats(links: Links, top: Available)
    requires WellFormed(links, top) && OneVersionPerCycle(links)
    ensures NeverRepeats(links, top)
  {
    forall path: Path, i | 0 < i < |path| && Placed(links, top, path)
      ensures InstanceAt(links, top, path[..i]) != InstanceAt(links, top, path)
    {
      assert path[..|path|] == path;
      if InstanceAt(links, top, path[..i]) == InstanceAt(links, top, path) {
        StepsAreEdges(links, top, path, i);
        StaysVisible(links, top, path, i, |path|);
        Descend(links, top, path, i);
        assert false;
      }
    }
  }

  const ALTERNATING_LINKS: Links := map["a1" := [Edge("a", "a2")], "a2" := [Edge("a", "a1")]]

  const ALTERNATING_TOP: Available := map["a" := "a1"]

  lemma AlternatingRepeats()
    ensures InstanceAt(ALTERNATING_LINKS, ALTERNATING_TOP, ["a"]).Some?
    ensures InstanceAt(ALTERNATING_LINKS, ALTERNATING_TOP, ["a", "a", "a"]) == InstanceAt(ALTERNATING_LINKS, ALTERNATING_TOP, ["a"])
  {
    var links, top := ALTERNATING_LINKS, ALTERNATING_TOP;
    var p1, p2, p3: Path := ["a"], ["a", "a"], ["a", "a", "a"];
    assert p3[..2] == p2 && p2[..1] == p1 && p1[..0] == [];
    assert InstanceAt(links, top, p1) == Some(Instance("a1", top));
    assert Requests(links, "a1", "a") == Some("a2") && Requests(links, "a2", "a") == Some("a1");
    assert InstanceAt(links, top, p2) == Child(links, Instance("a1", top), "a") == Some(Instance("a2", top["a" := "a2"]));
    assert InstanceAt(links, top, p3) == Child(links, Instance("a2", top["a" := "a2"]), "a");
    assert top["a" := "a2"]["a" := "a1"] == top;
  }

  lemma AlternatingIsWellFormed()
    ensures WellFormed(ALTERNATING_LINKS, ALTERNATING_TOP)
  {
  }

  /** Two packages that ask for each other's name in alternating versions are nested without end. */
  lemma MixedVersionsDiverge()
    ensures WellFormed(ALTERNATING_LINKS, ALTERNATING_TOP) && !NeverRepeats(ALTERNATING_LINKS, ALTERNATING_TOP)
    ensures forall depth :: !DepthAtMost(ALTERNATING_LINKS, ALTERNATING_TOP, depth)
  {
    hide InstanceAt, WellFormed;
    AlternatingRepeats();
    AlternatingIsWellFormed();
    var p3: Path := ["a", "a", "a"];
    assert p3[..1] == ["a"];
    assert Placed(ALTERNATING_LINKS, ALTERNATING_TOP, p3);
    TerminatesIff(ALTERNATING_LINKS, ALTERNATING_TOP);
  }
}
