/**
 What Node finds in a copied layout. A package at `[a, b]` that asks for `r` is answered by the nearest of
 `[a, b, r]`, `[a, r]` and `[r]`, the order of the CommonJS "loading from node_modules folders" algorithm.
 */
module Resolution {
  import opened Basics
  import opened Packages
  import opened Preferred
  import opened Layout
  import opened Copier

  function NodeLookup(copied: map<Path, Id>, from: Path, request: Name): Option<Id>
  {
    if from + [request] in copied then Some(copied[from + [request]])
    else if from == [] then None
    else NodeLookup(copied, from[..|from| - 1], request)
  }

  /** How many packages deep the copy recorded for `request` hangs: just above the last package of that name, else at the top. */
  function RecordedAt(path: Path, request: Name): (k: nat)
    ensures k <= |path|
  {
    if path == [] then 0
    else if path[|path| - 1] == request then |path| - 1
    else RecordedAt(path[..|path| - 1], request)
  }

  /** No package strictly between the recorded copy and `path` asks for a different package under the same name. */
  ghost predicate NearerAgree(links: Links, top: Available, path: Path, request: Name, wanted: Id)
    requires Placed(links, top, path)
  {
    forall j :: RecordedAt(path, request) < j < |path| ==>
      Agrees(links, NodeAt(links, top, path, j), request, wanted)
  }

  predicate Agrees(links: Links, id: Id, request: Name, wanted: Id)
  {
    Requests(links, id, request) == None || Requests(links, id, request) == Some(wanted)
  }

  /** The map handed down the branch records real copies: what it calls visible was placed where `RecordedAt` says. */
  lemma {:induction false} RecordedIsPlaced(links: Links, top: Available, path: Path, request: Name)
    requires Placed(links, top, path)
    requires request in InstanceAt(links, top, path).value.available
    ensures var at := path[..RecordedAt(path, request)] + [request];
            && Placed(links, top, at)
            && InstanceAt(links, top, at).value.node == InstanceAt(links, top, path).value.available[request]
  {
    var init, last := path[..|path| - 1], path[|path| - 1];
    assert path == init + [last];
    if init == [] {
      RecordedAtTop(links, top, last, request);
    } else {
      Extend(links, top, init, last);
      hide InstanceAt, Requests;
      if last == request {
        assert RecordedAt(path, request) == |init| && path[..|init|] == init;
      } else {
        var k := RecordedAt(init, request);
        assert RecordedAt(path, request) == k && path[..k] == init[..k];
        RecordedIsPlaced(links, top, init, request);
      }
    }
  }

  lemma RecordedAtTop(links: Links, top: Available, name: Name, request: Name)
    requires name in top && request in top
    ensures RecordedAt([name], request) == 0 && [name][..0] == []
    ensures InstanceAt(links, top, [name]) == Some(Instance(top[name], top))
    ensures InstanceAt(links, top, [request]) == Some(Instance(top[request], top))
  {
  }

  /** Below the recorded copy the same package stays visible all the way down. */
  lemma {:induction false} VisibleBelow(links: Links, top: Available, path: Path, request: Name, j: nat)
    requires Placed(links, top, path) && RecordedAt(path, request) < j <= |path|
    ensures Placed(links, top, path[..j])
    ensures Get(InstanceAt(links, top, path[..j]).value.available, request)
         == Get(InstanceAt(links, top, path).value.available, request)
    decreases |path|
  {
    if j == |path| {
      assert path[..j] == path;
    } else {
      var init := path[..|path| - 1];
      PrefixPlaced(links, top, path, |path| - 1);
      VisibleBelow(links, top, init, request, j);
      assert init[..j] == path[..j];
    }
  }

  /** One directory of the walk up: it answers exactly when the package there nested another version. */
  lemma DirectoryHit(links: Links, top: Available, path: Path, request: Name, wanted: Id, j: nat)
    requires Placed(links, top, path) && RecordedAt(path, request) < j <= |path|
    requires Get(InstanceAt(links, top, path).value.available, request) == Some(wanted)
    ensures Agrees(links, NodeAt(links, top, path, j), request, wanted) <==> !Placed(links, top, path[..j] + [request])
    ensures Placed(links, top, path[..j] + [request]) ==>
              InstanceAt(links, top, path[..j] + [request]).value.node != wanted
  {
    VisibleBelow(links, top, path, request, j);
    Extend(links, top, path[..j], request);
  }

  lemma {:induction false} WalkUp(links: Links, top: Available, copied: map<Path, Id>, path: Path, request: Name,
                                  wanted: Id, j: nat)
    requires IsLayout(links, top, copied) && Placed(links, top, path)
    requires Get(InstanceAt(links, top, path).value.available, request) == Some(wanted)
    requires RecordedAt(path, request) <= j <= |path|
    ensures NodeLookup(copied, path[..j], request) == Some(wanted) <==>
            forall i :: RecordedAt(path, request) < i <= j ==> Agrees(links, NodeAt(links, top, path, i), request, wanted)
  {
    hide InstanceAt, RecordedAt, Agrees;
    if j == RecordedAt(path, request) {
      RecordedIsPlaced(links, top, path, request);
    } else {
      DirectoryHit(links, top, path, request, wanted, j);
      WalkUp(links, top, copied, path, request, wanted, j - 1);
      assert path[..j][..j - 1] == path[..j - 1];
    }
  }

  /**
   Meaning is preserved, for every copied package and every dependency of it: the wanted package is always
   on its path, and Node finds that copy if and only if it was nested here or no nearer package disagrees.
   */
  lemma ResolvesIff(links: Links, top: Available, copied: map<Path, Id>, path: Path, request: Name, wanted: Id)
    requires IsLayout(links, top, copied) && Placed(links, top, path)
    requires Requests(links, InstanceAt(links, top, path).value.node, request) == Some(wanted)
    ensures exists k :: 0 <= k <= |path| && Get(copied, path[..k] + [request]) == Some(wanted)
    ensures NodeLookup(copied, path, request) == Some(wanted) <==>
            path + [request] in copied || NearerAgree(links, top, path, request, wanted)
  {
    var s := InstanceAt(links, top, path).value;
    if Get(s.available, request) == Some(wanted) {
      VisibleResolvesIff(links, top, copied, path, request, wanted);
    } else {
      NestedResolves(links, top, copied, path, request, wanted);
    }
  }

  lemma WantsHere(links: Links, top: Available, path: Path, request: Name, wanted: Id)
    requires Placed(links, top, path)
    requires Requests(links, InstanceAt(links, top, path).value.node, request) == Some(wanted)
    ensures path != [] && path[..|path|] == path
    ensures Agrees(links, NodeAt(links, top, path, |path|), request, wanted)
  {
    assert path != [] && path[..|path|] == path;
  }

  lemma NestedResolves(links: Links, top: Available, copied: map<Path, Id>, path: Path, request: Name, wanted: Id)
    requires IsLayout(links, top, copied) && Placed(links, top, path)
    requires Requests(links, InstanceAt(links, top, path).value.node, request) == Some(wanted)
    requires Get(InstanceAt(links, top, path).value.available, request) != Some(wanted)
    ensures Get(copied, path + [request]) == Some(wanted)
    ensures path[..|path|] == path
    ensures NodeLookup(copied, path, request) == Some(wanted)
  {
    hide InstanceAt, IsLayout, NodeLookup;
    WantsHere(links, top, path, request, wanted);
    Extend(links, top, path, request);
    CopiedIff(links, top, copied, path + [request]);
    FoundHere(copied, path, request);
  }

  lemma CopiedIff(links: Links, top: Available, copied: map<Path, Id>, path: Path)
    requires IsLayout(links, top, copied)
    ensures Get(copied, path) == match InstanceAt(links, top, path) case None => None case Some(s) => Some(s.node)
  {
    hide InstanceAt;
  }

  lemma FoundHere(copied: map<Path, Id>, path: Path, request: Name)
    requires path + [request] in copied
    ensures NodeLookup(copied, path, request) == Some(copied[path + [request]])
  {
  }

  lemma VisibleResolvesIff(links: Links, top: Available, copied: map<Path, Id>, path: Path, request: Name, wanted: Id)
    requires IsLayout(links, top, copied) && Placed(links, top, path)
    requires Requests(links, InstanceAt(links, top, path).value.node, request) == Some(wanted)
    requires Get(InstanceAt(links, top, path).value.available, request) == Some(wanted)
    ensures path + [request] !in copied
    ensures exists k :: 0 <= k <= |path| && Get(copied, path[..k] + [request]) == Some(wanted)
    ensures NodeLookup(copied, path, request) == Some(wanted) <==> NearerAgree(links, top, path, request, wanted)
  {
    hide InstanceAt, RecordedAt, Agrees, NodeAt, NodeLookup, IsLayout;
    WantsHere(links, top, path, request, wanted);
    Extend(links, top, path, request);
    CopiedIff(links, top, copied, path + [request]);
    RecordedIsPlaced(links, top, path, request);
    CopiedIff(links, top, copied, path[..RecordedAt(path, request)] + [request]);
    WalkUp(links, top, copied, path, request, wanted, |path|);
  }

  /** Hoisted packages never suffer from shadowing. */
  lemma TopLevelResolves(links: Links, top: Available, copied: map<Path, Id>, name: Name, request: Name, wanted: Id)
    requires IsLayout(links, top, copied) && name in top
    requires Requests(links, top[name], request) == Some(wanted)
    ensures NodeLookup(copied, [name], request) == Some(wanted)
  {
    assert [name][..0] == [];
    assert Placed(links, top, [name]);
    ResolvesIff(links, top, copied, [name], request, wanted);
  }

  /** The application's own imports get the packages its manifest resolves to. */
  lemma RootsResolve(reg: Registry, app: Id, g: Graph, collation: Id -> int, preferred: seq<Edge>,
                     copied: map<Path, Id>, e: Edge)
    requires Hoists(reg, app, g, collation, preferred)
    requires IsLayout(g.links, AsMap(preferred), copied)
    requires e in g.roots
    ensures NodeLookup(copied, [], e.request) == Some(e.node)
  {
    hide IsDependencyGraph, IsLayout, InstanceAt, NodeLookup, AsMap, Best;
    var i :| 0 <= i < |g.roots| && g.roots[i] == e;
    assert preferred[i] == e;
    AsMapIff(preferred, e);
    TopInstance(g.links, AsMap(preferred), e);
    CopiedIff(g.links, AsMap(preferred), copied, [e.request]);
    assert [] + [e.request] == [e.request];
    FoundHere(copied, [], e.request);
  }

  lemma TopInstance(links: Links, top: Available, e: Edge)
    requires Get(top, e.request) == Some(e.node)
    ensures InstanceAt(links, top, [e.request]) == Some(Instance(e.node, top))
  {
    assert [e.request][..0] == [];
  }

  /** Every import of every copied package resolves correctly exactly when no sibling shadows any of them. */
  lemma LayoutPreservesMeaningIff(links: Links, top: Available, copied: map<Path, Id>)
    requires WellFormed(links, top) && IsLayout(links, top, copied)
    ensures PreservesMeaning(links, copied) <==> NothingShadowed(links, top)
  {
    forall path, request, wanted | path in copied && Requests(links, copied[path], request) == Some(wanted)
      ensures NodeLookup(copied, path, request) == Some(wanted) <==> Unshadowed(links, top, path, request, wanted)
    {
      ResolvesIff(links, top, copied, path, request, wanted);
    }
    if NothingShadowed(links, top) {
      forall path, request, wanted | path in copied && Requests(links, copied[path], request) == Some(wanted)
        ensures NodeLookup(copied, path, request) == Some(wanted)
      {
        assert Unshadowed(links, top, path, request, wanted);
      }
    }
  }

  ghost predicate PreservesMeaning(links: Links, copied: map<Path, Id>)
  {
    forall path, request, wanted :: path in copied && Requests(links, copied[path], request) == Some(wanted) ==>
      NodeLookup(copied, path, request) == Some(wanted)
  }

  ghost predicate Unshadowed(links: Links, top: Available, path: Path, request: Name, wanted: Id)
    requires Placed(links, top, path)
  {
    Placed(links, top, path + [request]) || NearerAgree(links, top, path, request, wanted)
  }

  ghost predicate NothingShadowed(links: Links, top: Available)
  {
    forall path, request, wanted ::
      Placed(links, top, path)
      && Requests(links, InstanceAt(links, top, path).value.node, request) == Some(wanted) ==>
        Unshadowed(links, top, path, request, wanted)
  }

  const SHADOW_LINKS: Links :=
    map["a" := [Edge("b", "b1"), Edge("x", "x2")], "b1" := [Edge("x", "x1")], "b2" := [], "x1" := [], "x2" := []]

  const SHADOW_TOP: Available := map["a" := "a", "b" := "b2", "x" := "x1"]

  lemma ShadowInstances()
    ensures InstanceAt(SHADOW_LINKS, SHADOW_TOP, ["a", "b"]) == Some(Instance("b1", SHADOW_TOP["b" := "b1"]))
    ensures InstanceAt(SHADOW_LINKS, SHADOW_TOP, ["a", "x"]) == Some(Instance("x2", SHADOW_TOP["x" := "x2"]))
    ensures InstanceAt(SHADOW_LINKS, SHADOW_TOP, ["a", "b", "x"]) == None
  {
    assert ["a"][..0] == [];
    var edges := SHADOW_LINKS["a"];
    assert edges[1..] == [Edge("x", "x2")] && SHADOW_LINKS["b1"] == [Edge("x", "x1")];
    Extend(SHADOW_LINKS, SHADOW_TOP, ["a"], "b");
    Extend(SHADOW_LINKS, SHADOW_TOP, ["a"], "x");
    Extend(SHADOW_LINKS, SHADOW_TOP, ["a", "b"], "x");
    assert ["a"] + ["b"] == ["a", "b"] && ["a"] + ["x"] == ["a", "x"] && ["a", "b"] + ["x"] == ["a", "b", "x"];
  }

  /**
   Shadowing happens: `a` nests its own `b1` and `x2`; `b1` wants the hoisted `x1`, is left without a copy
   because it is visible, and Node then finds the sibling `x2` first.
   */
  lemma SiblingShadows(copied: map<Path, Id>)
    requires IsLayout(SHADOW_LINKS, SHADOW_TOP, copied)
    ensures Get(copied, ["a", "b"]) == Some("b1") && Requests(SHADOW_LINKS, "b1", "x") == Some("x1")
    ensures NodeLookup(copied, ["a", "b"], "x") == Some("x2")
  {
    ShadowInstances();
    assert SHADOW_LINKS["b1"] == [Edge("x", "x1")];
    assert Placed(SHADOW_LINKS, SHADOW_TOP, ["a", "b"]) && Placed(SHADOW_LINKS, SHADOW_TOP, ["a", "x"]);
    assert !Placed(SHADOW_LINKS, SHADOW_TOP, ["a", "b", "x"]);
    assert ["a", "b"] + ["x"] == ["a", "b", "x"] && ["a", "b"][..1] == ["a"] && ["a"] + ["x"] == ["a", "x"];
  }
}
