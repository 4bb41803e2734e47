/** Which cycles of the dependency graph make the copier descend without end. */
module LayoutCycles {
  import opened Basics
  import opened Packages
  import opened Layout

  /** Step `l` is the next one after `k`, going around the cycle, that requests the name step `k` requests. */
  ghost predicate NextRequest(steps: seq<Step>, k: nat, l: nat)
    requires k < |steps| && l < |steps|
  {
    var name := steps[k].edge.request;
    && steps[l].edge.request == name
    && if k < l then Without(steps[k + 1..l], name) else Without(steps[k + 1..], name) && Without(steps[..l], name)
  }

  ghost predicate Without(steps: seq<Step>, name: Name)
  {
    forall m :: 0 <= m < |steps| ==> steps[m].edge.request != name
  }

  /** Around the cycle, each request of a name means another package than the request of that name before it. */
  ghost predicate Alternates(steps: seq<Step>)
  {
    forall k: nat, l: nat :: k < |steps| && l < |steps| && NextRequest(steps, k, l) ==>
      steps[k].edge.node != steps[l].edge.node
  }

  /** The first request of each name means another package than the one visible at the start. */
  ghost predicate Ready(available: Available, steps: seq<Step>)
  {
    forall k :: 0 <= k < |steps| && Without(steps[..k], steps[k].edge.request) ==>
      Get(available, steps[k].edge.request) != Some(steps[k].edge.node)
  }

  /** Some branch arrives at the start of an alternating cycle, and what is visible there does not stop it. */
  ghost predicate EntersCycle(links: Links, top: Available, path: Path, steps: seq<Step>)
  {
    && IsCycle(links, steps) && Alternates(steps)
    && Placed(links, top, path)
    && InstanceAt(links, top, path).value.node == steps[0].source
    && Ready(InstanceAt(links, top, path).value.available, steps)
  }

  // ---- A repeated instance comes from an alternating cycle ----

  ghost function AvailableAt(links: Links, top: Available, path: Path, i: nat): Available
    requires 0 < i <= |path| && Placed(links, top, path)
  {
    PrefixPlaced(links, top, path, i);
    InstanceAt(links, top, path[..i]).value.available
  }

  lemma {:induction false} Unchanged(links: Links, top: Available, path: Path, i: nat, j: nat, name: Name)
    requires 0 < i <= j <= |path| && Placed(links, top, path)
    requires forall m :: i <= m < j ==> path[m] != name
    ensures Get(AvailableAt(links, top, path, j), name) == Get(AvailableAt(links, top, path, i), name)
  {
    hide InstanceAt, Requests;
    if i < j {
      Unchanged(links, top, path, i, j - 1, name);
      Descend(links, top, path, j - 1);
      assert path[..j - 1 + 1] == path[..j];
    }
  }

  lemma StepAt(links: Links, top: Available, path: Path, i: nat, k: nat)
    requires 0 < i <= |path| && Placed(links, top, path) && k < |path| - i
    ensures |StepsFrom(links, top, path, i)| == |path| - i
    ensures StepsFrom(links, top, path, i)[k].edge == Edge(path[i + k], NodeAt(links, top, path, i + k + 1))
    ensures Get(AvailableAt(links, top, path, i + k), path[i + k]) != Some(NodeAt(links, top, path, i + k + 1))
    ensures Get(AvailableAt(links, top, path, i + k + 1), path[i + k]) == Some(NodeAt(links, top, path, i + k + 1))
  {
    hide InstanceAt, Requests;
    Descend(links, top, path, i + k);
  }

  lemma NotRequested(links: Links, top: Available, path: Path, i: nat, a: nat, b: nat, name: Name)
    requires 0 < i <= |path| && Placed(links, top, path) && a <= b <= |path| - i
    requires |StepsFrom(links, top, path, i)| == |path| - i
    requires Without(StepsFrom(links, top, path, i)[a..b], name)
    ensures forall m :: i + a <= m < i + b ==> path[m] != name
  {
    hide InstanceAt, NodeAt;
    var steps := StepsFrom(links, top, path, i);
    forall m | i + a <= m < i + b
      ensures path[m] != name
    {
      assert steps[a..b][m - i - a] == steps[m - i];
      assert steps[m - i].edge.request == path[m];
    }
  }

  lemma RepeatAlternates(links: Links, top: Available, path: Path, i: nat)
    requires 0 < i < |path| && Placed(links, top, path)
    requires InstanceAt(links, top, path[..i]) == InstanceAt(links, top, path)
    ensures Alternates(StepsFrom(links, top, path, i))
  {
    hide InstanceAt, NextRequest, Without, Requests, StepsFrom;
    StepAt(links, top, path, i, 0);
    var steps := StepsFrom(links, top, path, i);
    forall k: nat, l: nat | k < |steps| && l < |steps| && NextRequest(steps, k, l)
      ensures steps[k].edge.node != steps[l].edge.node
    {
      RepeatAlternatesAt(links, top, path, i, k, l);
    }
  }

  lemma RepeatAlternatesAt(links: Links, top: Available, path: Path, i: nat, k: nat, l: nat)
    requires 0 < i < |path| && Placed(links, top, path)
    requires InstanceAt(links, top, path[..i]) == InstanceAt(links, top, path)
    requires |StepsFrom(links, top, path, i)| == |path| - i && k < |path| - i && l < |path| - i
    requires NextRequest(StepsFrom(links, top, path, i), k, l)
    ensures StepsFrom(links, top, path, i)[k].edge.node != StepsFrom(links, top, path, i)[l].edge.node
  {
    hide InstanceAt, Without, Requests, StepsFrom, NodeAt;
    StepAt(links, top, path, i, k);
    StepAt(links, top, path, i, l);
    var steps := StepsFrom(links, top, path, i);
    var n, name := |path| - i, path[i + k];
    if k < l {
      NotRequested(links, top, path, i, k + 1, l, name);
      Unchanged(links, top, path, i + k + 1, i + l, name);
    } else {
      assert steps[k + 1..] == steps[k + 1..n] && steps[..l] == steps[0..l];
      NotRequested(links, top, path, i, k + 1, n, name);
      NotRequested(links, top, path, i, 0, l, name);
      Unchanged(links, top, path, i + k + 1, i + n, name);
      Unchanged(links, top, path, i, i + l, name);
      assert path[..i + n] == path;
    }
  }

  lemma RepeatIsReady(links: Links, top: Available, path: Path, i: nat)
    requires 0 < i < |path| && Placed(links, top, path)
    ensures Placed(links, top, path[..i])
    ensures Ready(InstanceAt(links, top, path[..i]).value.available, StepsFrom(links, top, path, i))
  {
    hide InstanceAt, Without, Requests, StepsFrom, NodeAt;
    PrefixPlaced(links, top, path, i);
    StepAt(links, top, path, i, 0);
    var steps := StepsFrom(links, top, path, i);
    forall k | 0 <= k < |steps| && Without(steps[..k], steps[k].edge.request)
      ensures Get(AvailableAt(links, top, path, i), steps[k].edge.request) != Some(steps[k].edge.node)
    {
      StepAt(links, top, path, i, k);
      assert steps[..k] == steps[0..k];
      NotRequested(links, top, path, i, 0, k, path[i + k]);
      Unchanged(links, top, path, i, i + k, path[i + k]);
    }
  }

  // ---- An alternating cycle is walked again and again ----

  function Walked(available: Available, steps: seq<Step>): Available
  {
    if steps == [] then available
    else
      var last := steps[|steps| - 1].edge;
      Walked(available, steps[..|steps| - 1])[last.request := last.node]
  }

  function Requested(steps: seq<Step>): Path
  {
    seq(|steps|, k requires 0 <= k < |steps| => steps[k].edge.request)
  }

  lemma {:induction false} WalkedWithout(available: Available, steps: seq<Step>, name: Name)
    requires Without(steps, name)
    ensures Get(Walked(available, steps), name) == Get(available, name)
  {
    if steps != [] {
      WalkedWithout(available, steps[..|steps| - 1], name);
    }
  }

  /** The last request of a name decides what is visible under it. */
  lemma {:induction false} WalkedLast(available: Available, steps: seq<Step>, k: nat)
    requires k < |steps| && Without(steps[k + 1..], steps[k].edge.request)
    ensures Get(Walked(available, steps), steps[k].edge.request) == Some(steps[k].edge.node)
  {
    var init := steps[..|steps| - 1];
    if k < |init| {
      assert steps[k + 1..][|init| - k - 1] == steps[|init|];
      assert steps[k + 1..] == init[k + 1..] + [steps[|init|]];
      WalkedLast(available, init, k);
    }
  }

  lemma {:induction false} LastRequest(steps: seq<Step>, name: Name) returns (k: nat)
    requires !Without(steps, name)
    ensures k < |steps| && steps[k].edge.request == name && Without(steps[k + 1..], name)
  {
    k := |steps| - 1;
    if steps[k].edge.request != name {
      var init := steps[..k];
      k := LastRequest(init, name);
      assert steps[k + 1..] == init[k + 1..] + [steps[|init|]];
    }
  }

  /** Walking the same steps again changes nothing. */
  lemma WalkedTwice(available: Available, steps: seq<Step>)
    ensures Walked(Walked(available, steps), steps) == Walked(available, steps)
  {
    hide Walked, Without;
    var once := Walked(available, steps);
    var twice := Walked(once, steps);
    forall name
      ensures Get(twice, name) == Get(once, name)
    {
      if Without(steps, name) {
        WalkedWithout(once, steps, name);
      } else {
        var k := LastRequest(steps, name);
        WalkedLast(available, steps, k);
        WalkedLast(once, steps, k);
      }
    }
    SameGets(twice, once);
  }

  lemma SameGets(a: Available, b: Available)
    requires forall name :: Get(a, name) == Get(b, name)
    ensures a == b
  {
    forall name
      ensures (name in a <==> name in b) && (name in a ==> a[name] == b[name])
    {
      assert Get(a, name) == Get(b, name);
    }
  }

  /** After one lap an alternating cycle can be walked again. */
  lemma ReadyAgain(available: Available, steps: seq<Step>)
    requires Alternates(steps)
    ensures Ready(Walked(available, steps), steps)
  {
    hide Walked, Without;
    forall k: nat | k < |steps| && Without(steps[..k], steps[k].edge.request)
      ensures Get(Walked(available, steps), steps[k].edge.request) != Some(steps[k].edge.node)
    {
      RequestedHere(steps, k);
      var l := LastRequest(steps, steps[k].edge.request);
      WalkedLast(available, steps, l);
      LastBeforeFirst(steps, l, k);
    }
  }

  lemma RequestedHere(steps: seq<Step>, k: nat)
    requires k < |steps|
    ensures !Without(steps, steps[k].edge.request)
  {
  }

  lemma LastBeforeFirst(steps: seq<Step>, l: nat, k: nat)
    requires l < |steps| && k < |steps| && steps[l].edge.request == steps[k].edge.request
    requires Without(steps[l + 1..], steps[k].edge.request) && Without(steps[..k], steps[k].edge.request)
    ensures NextRequest(steps, l, k)
  {
    assert forall m :: l < m < |steps| ==> steps[l + 1..][m - l - 1] == steps[m];
  }

  lemma WalkStep(links: Links, top: Available, path: Path, steps: seq<Step>, n: nat)
    requires WellLinked(links) && IsCycle(links, steps) && n < |steps| && path != []
    requires InstanceAt(links, top, path).Some?
    requires InstanceAt(links, top, path).value.node == steps[n].source
    requires Get(InstanceAt(links, top, path).value.available, steps[n].edge.request) != Some(steps[n].edge.node)
    ensures InstanceAt(links, top, path + [steps[n].edge.request])
         == Some(Instance(steps[n].edge.node,
                          InstanceAt(links, top, path).value.available[steps[n].edge.request := steps[n].edge.node]))
  {
    hide InstanceAt;
    Extend(links, top, path, steps[n].edge.request);
    EdgeToIff(links[steps[n].source], steps[n].edge);
  }

  lemma NotYet(available: Available, steps: seq<Step>, n: nat)
    requires Alternates(steps) && Ready(available, steps) && n < |steps|
    ensures Get(Walked(available, steps[..n]), steps[n].edge.request) != Some(steps[n].edge.node)
  {
    hide Walked, Without;
    var name := steps[n].edge.request;
    if Without(steps[..n], name) {
      WalkedWithout(available, steps[..n], name);
    } else {
      var k := LastRequest(steps[..n], name);
      WalkedLast(available, steps[..n], k);
      assert steps[..n][k + 1..] == steps[k + 1..n];
      assert NextRequest(steps, k, n);
    }
  }

  lemma {:induction false} Lap(links: Links, top: Available, path: Path, steps: seq<Step>, n: nat)
    requires WellLinked(links) && EntersCycle(links, top, path, steps) && n <= |steps|
    ensures InstanceAt(links, top, path + Requested(steps[..n]))
         == Some(Instance(if n == 0 then steps[0].source else steps[n - 1].edge.node,
                          Walked(InstanceAt(links, top, path).value.available, steps[..n])))
  {
    hide InstanceAt, Alternates, Ready;
    var available := InstanceAt(links, top, path).value.available;
    if n == 0 {
      assert path + Requested(steps[..0]) == path;
    } else {
      Lap(links, top, path, steps, n - 1);
      var before := path + Requested(steps[..n - 1]);
      NotYet(available, steps, n - 1);
      NotEmptyPath(links, top, path);
      assert n > 1 ==> steps[n - 2].edge.node == steps[n - 1].source;
      WalkStep(links, top, before, steps, n - 1);
      assert steps[..n][..n - 1] == steps[..n - 1];
      assert path + Requested(steps[..n]) == before + [steps[n - 1].edge.request];
    }
  }

  lemma NotEmptyPath(links: Links, top: Available, path: Path)
    requires Placed(links, top, path)
    ensures path != []
  {
  }

  lemma WholeLap(links: Links, top: Available, path: Path, steps: seq<Step>) returns (further: Path)
    requires WellLinked(links) && EntersCycle(links, top, path, steps)
    ensures further == path + Requested(steps) && EntersCycle(links, top, further, steps)
    ensures InstanceAt(links, top, further)
         == Some(Instance(steps[0].source, Walked(InstanceAt(links, top, path).value.available, steps)))
  {
    hide InstanceAt, Alternates, Ready, Walked;
    Lap(links, top, path, steps, |steps|);
    assert steps[..|steps|] == steps;
    ReadyAgain(InstanceAt(links, top, path).value.available, steps);
    further := path + Requested(steps);
  }

  lemma CycleRepeats(links: Links, top: Available, path: Path, steps: seq<Step>)
    requires WellLinked(links) && EntersCycle(links, top, path, steps)
    ensures !NeverRepeats(links, top)
  {
    hide InstanceAt, Walked, EntersCycle;
    EnteredIsPlaced(links, top, path, steps);
    var once := WholeLap(links, top, path, steps);
    var twice := WholeLap(links, top, once, steps);
    WalkedTwice(InstanceAt(links, top, path).value.available, steps);
    assert twice[..|once|] == once;
    assert Placed(links, top, twice);
    assert 0 < |once| < |twice|;
  }

  lemma EnteredIsPlaced(links: Links, top: Available, path: Path, steps: seq<Step>)
    requires EntersCycle(links, top, path, steps)
    ensures Placed(links, top, path) && path != [] && steps != []
  {
  }

  /**
   The layout is unbounded exactly when some branch enters a dependency cycle around which every request of a name
   means another package than the request of that name before it.
   */
  lemma RepeatsIff(links: Links, top: Available)
    requires WellFormed(links, top)
    ensures !NeverRepeats(links, top) <==> exists path, steps :: EntersCycle(links, top, path, steps)
  {
    hide EntersCycle;
    if !NeverRepeats(links, top) {
      var path: Path, i: int :| 0 < i < |path| && Placed(links, top, path)
        && InstanceAt(links, top, path[..i]) == InstanceAt(links, top, path);
      RepeatEnters(links, top, path, i);
    }
    if path, steps :| EntersCycle(links, top, path, steps) {
      CycleRepeats(links, top, path, steps);
    }
  }

  lemma RepeatEnters(links: Links, top: Available, path: Path, i: nat)
    requires WellLinked(links) && 0 < i < |path| && Placed(links, top, path)
    requires InstanceAt(links, top, path[..i]) == InstanceAt(links, top, path)
    ensures EntersCycle(links, top, path[..i], StepsFrom(links, top, path, i))
  {
    hide InstanceAt, Alternates, Ready;
    assert path[..|path|] == path;
    StepsAreEdges(links, top, path, i);
    RepeatAlternates(links, top, path, i);
    RepeatIsReady(links, top, path, i);
  }

  // ---- Conditions on the graph alone ----

  /** Around every dependency cycle some name always means the same package. */
  ghost predicate SteadyNamePerCycle(links: Links)
  {
    forall steps :: IsCycle(links, steps) ==> exists k: nat :: k < |steps| && Steady(steps, k)
  }

  ghost predicate Steady(steps: seq<Step>, k: nat)
    requires k < |steps|
  {
    forall l :: 0 <= l < |steps| && steps[l].edge.request == steps[k].edge.request ==>
      steps[l].edge.node == steps[k].edge.node
  }

  lemma {:induction false} FirstRequest(steps: seq<Step>, name: Name) returns (k: nat)
    requires !Without(steps, name)
    ensures k < |steps| && steps[k].edge.request == name && Without(steps[..k], name)
  {
    k := 0;
    if steps[0].edge.request != name {
      k := FirstRequest(steps[1..], name);
      assert steps[..k + 1] == [steps[0]] + steps[1..][..k];
      k := k + 1;
    }
  }

  lemma SteadyDoesNotAlternate(steps: seq<Step>, k: nat)
    requires k < |steps| && Steady(steps, k)
    ensures !Alternates(steps)
  {
    hide Without;
    var name := steps[k].edge.request;
    RequestedHere(steps, k);
    var last := LastRequest(steps, name);
    var first := FirstRequest(steps, name);
    LastBeforeFirst(steps, last, first);
  }

  /** So the copier stops, though versions may mix in a cycle. */
  lemma SteadyNeverRepeats(links: Links, top: Available)
    requires WellFormed(links, top) && SteadyNamePerCycle(links)
    ensures NeverRepeats(links, top)
  {
    RepeatsIff(links, top);
    if path, steps :| EntersCycle(links, top, path, steps) {
      var k: nat :| k < |steps| && Steady(steps, k);
      SteadyDoesNotAlternate(steps, k);
    }
  }

  lemma OneVersionIsSteady(links: Links)
    requires OneVersionPerCycle(links)
    ensures SteadyNamePerCycle(links)
  {
    forall steps | IsCycle(links, steps)
      ensures exists k: nat :: k < |steps| && Steady(steps, k)
    {
      assert Steady(steps, 0);
    }
  }

  /** Two versions of `a` in one cycle, with a single `b` between them. */
  const MIXED_LINKS: Links := map["a1" := [Edge("a", "a2")], "a2" := [Edge("b", "b1")], "b1" := [Edge("a", "a1")]]

  lemma MixedSteps(steps: seq<Step>, k: nat)
    requires IsCycle(MIXED_LINKS, steps) && k < |steps|
    ensures var s := steps[k];
            s == Step("a1", Edge("a", "a2")) || s == Step("a2", Edge("b", "b1")) || s == Step("b1", Edge("a", "a1"))
    ensures k + 1 < |steps| ==> steps[k + 1].source == steps[k].edge.node
    ensures k + 1 == |steps| ==> steps[0].source == steps[k].edge.node
  {
    assert steps[k].edge in MIXED_LINKS[steps[k].source];
  }

  lemma RequestsB(steps: seq<Step>) returns (k: nat)
    requires IsCycle(MIXED_LINKS, steps)
    ensures k < |steps| && steps[k].edge == Edge("b", "b1")
  {
    MixedSteps(steps, 0);
    k := 0;
    if steps[0].source == "a1" {
      MixedSteps(steps, 1);
      k := 1;
    } else if steps[0].source == "b1" {
      MixedSteps(steps, 1);
      MixedSteps(steps, 2);
      k := 2;
    }
  }

  /** Such a graph is laid out in finitely many steps although a cycle mixes versions. */
  lemma MixedVersionsCanStop(top: Available)
    requires top.Values <= MIXED_LINKS.Keys
    ensures !OneVersionPerCycle(MIXED_LINKS) && NeverRepeats(MIXED_LINKS, top)
  {
    hide NeverRepeats, IsCycle;
    forall steps: seq<Step> | IsCycle(MIXED_LINKS, steps)
      ensures exists k: nat :: k < |steps| && Steady(steps, k)
    {
      var k := RequestsB(steps);
      forall l: nat | l < |steps| && steps[l].edge.request == "b"
        ensures steps[l].edge.node == "b1"
      {
        MixedSteps(steps, l);
      }
      assert Steady(steps, k);
    }
    SteadyNeverRepeats(MIXED_LINKS, top);
    MixedCycle();
  }

  lemma MixedCycle()
    ensures !OneVersionPerCycle(MIXED_LINKS)
  {
    var steps := [Step("a1", Edge("a", "a2")), Step("a2", Edge("b", "b1")), Step("b1", Edge("a", "a1"))];
    assert IsCycle(MIXED_LINKS, steps);
    assert steps[0].edge.request == steps[2].edge.request && steps[0].edge.node != steps[2].edge.node;
  }
}
