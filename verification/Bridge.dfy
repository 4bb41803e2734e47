/**
 The bridge's shared account: lazy bootstrap, the background sync loop, and the wipe after the server revokes
 the session, interleaved at every `await`. Operations queue at the gate of module `AsyncMutex`, which
 refines the first-in first-out lock used here.
 */
module Bridge {
  import opened Basics

  type AppId = nat  // apps are numbered in order of creation

  datatype Wipe = NotStarted | Erasing | Erased

  /** The closure state of `bootstrapHeadlessApp`, with the number of calls of `onUnauthorized` and `app.deinit`. */
  datatype App = App(
    authorizationLost: bool,
    notifications: nat,
    wiping: Wipe,
    deinitialized: bool,
    teardowns: nat,
    timer: bool,
    syncing: bool)

  const FRESH: App := App(false, 0, NotStarted, false, 0, false, false)

  datatype Job = Tool | LoopSync(app: AppId)

  datatype SyncResult = Synced | Failed | Unauthorized

  /** What follows once `wipe` has settled. */
  datatype Then = BackToTool | LoopEnds | InitFails(unauthorized: bool) | InitEnds

  /** Where the operation holding the gate is suspended. */
  datatype Holder =
    | Nobody
    | Entered                          // a tool, before `getClient`
    | Bootstrapping
    | SigningIn(app: AppId)
    | Wiping(app: AppId, next: Then)
    | TearingDown(app: AppId)
    | Ready(app: AppId)                // `getClient` resolved, the operation has not started
    | Operating(app: AppId)
    | LoopSyncing(app: AppId)

  datatype State = State(
    apps: seq<App>,
    headless: Option<AppId>,
    client: Option<AppId>,
    initPromise: bool,
    queue: seq<Job>,
    holder: Holder)

  const START: State := State([], None, None, false, [], Nobody)

  datatype Action =
    | ToolCalled
    | TimerFires(app: AppId)
    | Acquire
    | GetClient
    | Bootstrapped(ok: bool)
    | SignedIn(result: SyncResult, bySync: bool)
    | WipeSettles(tornDown: bool)
    | TornDown
    | StartOperation
    | ToolSyncs(result: SyncResult)
    | ToolEnds
    | LoopSyncs(result: SyncResult)
    | LoopCleared(app: AppId)

  function Update(s: State, a: AppId, app: App): State
    requires a < |s.apps|
  {
    s.(apps := s.apps[a := app])
  }

  /** The part of `handleAuthorizationLoss` before its `await`, for an app that had not lost authorization yet. */
  function Lose(s: State, a: AppId): State
    requires a < |s.apps|
  {
    var app := s.apps[a];
    var t := Update(s, a, app.(authorizationLost := true, notifications := app.notifications + 1));
    if s.headless == Some(a) then t.(headless := None, client := None, initPromise := false) else t
  }

  /** The part of `wipe` before its first `await`; later calls share the first one's promise. */
  function BeginWipe(s: State, a: AppId, next: Then): State
    requires a < |s.apps|
  {
    var t := s.(holder := Wiping(a, next));
    if s.apps[a].wiping == NotStarted then Update(t, a, s.apps[a].(wiping := Erasing, timer := false)) else t
  }

  function Deinit(app: App): App
  {
    if app.deinitialized then app else app.(deinitialized := true, teardowns := app.teardowns + 1)
  }

  /** The last lines of the `catch` handler of `getClient`. */
  function GiveUp(s: State): State
  {
    s.(headless := None, client := None, holder := Nobody)
  }

  /** The `catch` handler: tear down a half-made app, erasing it if the failure was an authorization failure. */
  function InitCatch(s: State, unauthorized: bool): State
    requires s.headless.Some? ==> s.headless.value < |s.apps|
  {
    var t := s.(initPromise := false);
    match t.headless
    case None => GiveUp(t)
    case Some(a) =>
      if unauthorized then BeginWipe(t, a, InitEnds)
      else Update(t, a, Deinit(t.apps[a].(timer := false))).(holder := TearingDown(a))
  }

  /** A failed sync runs `handleAuthorizationLoss` first if the failure says so, then rethrows. */
  function AfterFailure(s: State, a: AppId, result: SyncResult, next: Then): State
    requires a < |s.apps|
    requires s.headless.Some? ==> s.headless.value < |s.apps|
  {
    if result == Unauthorized && !s.apps[a].authorizationLost then BeginWipe(Lose(s, a), a, next)
    else Resume(s, a, next)
  }

  function Resume(s: State, a: AppId, next: Then): State
    requires s.headless.Some? ==> s.headless.value < |s.apps|
  {
    match next
    case BackToTool => s.(holder := Operating(a))
    case LoopEnds => s.(holder := Nobody)
    case InitFails(unauthorized) => InitCatch(s, unauthorized)
    case InitEnds => GiveUp(s)
  }

  predicate LoopRunning(s: State, a: AppId)
  {
    s.holder == LoopSyncing(a) || s.holder == Wiping(a, LoopEnds)
  }

  predicate Known(s: State, a: AppId)
  {
    a < |s.apps| && (s.headless.Some? ==> s.headless.value < |s.apps|)
  }

  /** The effect of an action, `None` where it cannot happen. */
  function Next(s: State, action: Action): Option<State>
  {
    match action
    case ToolCalled => Some(s.(queue := s.queue + [Tool]))
    case TimerFires(a) =>
      if a < |s.apps| && s.apps[a].timer && !s.apps[a].syncing
      then Some(Update(s, a, s.apps[a].(syncing := true)).(queue := s.queue + [LoopSync(a)])) else None
    case Acquire =>
      if s.holder == Nobody && s.queue != []
      then Some(s.(queue := s.queue[1..],
                   holder := match s.queue[0] case Tool => Entered case LoopSync(a) => LoopSyncing(a)))
      else None
    case GetClient =>
      if s.holder != Entered then None
      else if s.client.Some? then Some(s.(holder := Ready(s.client.value)))
      else if s.initPromise then None  // would wait for another operation's bootstrap
      else Some(s.(initPromise := true, holder := Bootstrapping))
    case Bootstrapped(ok) =>
      if s.holder != Bootstrapping || !(s.headless.Some? ==> s.headless.value < |s.apps|) then None
      else if ok then Some(s.(apps := s.apps + [FRESH], headless := Some(|s.apps|), holder := SigningIn(|s.apps|)))
      else Some(InitCatch(s, false))
    case SignedIn(result, bySync) =>
      if !s.holder.SigningIn? || !Known(s, s.holder.app) then None
      else
        var a := s.holder.app;
        if result == Synced
        then Some(Update(s, a, s.apps[a].(timer := true)).(client := Some(a), holder := Ready(a)))
        else if bySync then Some(AfterFailure(s, a, result, InitFails(result == Unauthorized)))
        else Some(InitCatch(s, result == Unauthorized))
    case WipeSettles(tornDown) =>
      if !s.holder.Wiping? || !Known(s, s.holder.app) then None
      else
        var a := s.holder.app;
        var app := s.apps[a].(wiping := Erased);
        Some(Resume(Update(s, a, if tornDown then Deinit(app) else app), a, s.holder.next))
    case TornDown =>
      if s.holder.TearingDown? then Some(GiveUp(s)) else None
    case StartOperation =>
      if s.holder.Ready? then Some(s.(holder := Operating(s.holder.app))) else None
    case ToolSyncs(result) =>
      if !s.holder.Operating? || !Known(s, s.holder.app) then None
      else if result == Synced then Some(s)
      else Some(AfterFailure(s, s.holder.app, result, BackToTool))
    case ToolEnds =>
      if s.holder.Operating? then Some(s.(holder := Nobody)) else None
    case LoopSyncs(result) =>
      if !s.holder.LoopSyncing? || !Known(s, s.holder.app) then None
      else if result == Synced then Some(s.(holder := Nobody))
      else Some(AfterFailure(s, s.holder.app, result, LoopEnds))
    case LoopCleared(a) =>
      if a < |s.apps| && s.apps[a].syncing && LoopSync(a) !in s.queue && !LoopRunning(s, a)
      then Some(Update(s, a, s.apps[a].(syncing := false))) else None
  }

  function RunFrom(actions: seq<Action>): Option<State>
  {
    if actions == [] then Some(START)
    else
      match RunFrom(actions[..|actions| - 1])
      case None => None
      case Some(s) => Next(s, actions[|actions| - 1])
  }

  // ---- Invariants ----

  /** The app is gone for good: its erasure has settled or it was torn down. */
  predicate Retired(app: App)
  {
    app.wiping == Erased || app.deinitialized
  }

  /** Whose wipe or teardown is being awaited right now. */
  function Leaving(s: State): Option<AppId>
  {
    match s.holder
    case Wiping(a, _) => Some(a)
    case TearingDown(a) => Some(a)
    case _ => None
  }

  ghost predicate AppInv(s: State, a: AppId)
    requires a < |s.apps|
  {
    var app := s.apps[a];
    && app.notifications == (if app.authorizationLost then 1 else 0)
    && app.teardowns == (if app.deinitialized then 1 else 0)
    && (app.wiping == Erasing ==> s.holder.Wiping? && s.holder.app == a)
    && (Leaving(s) != Some(a) ==> if s.headless == Some(a) then app.wiping == NotStarted && !app.deinitialized
                                   else Retired(app))
    && (s.headless == Some(a) ==> !app.authorizationLost)
    && (app.authorizationLost ==> app.wiping != NotStarted)
    && (app.timer <==> s.client == Some(a))
  }

  ghost predicate LoopInv(s: State, a: AppId)
    requires a < |s.apps|
  {
    && (LoopSync(a) in s.queue ==> s.apps[a].syncing && !LoopRunning(s, a))
    && (LoopRunning(s, a) ==> s.apps[a].syncing)
  }

  ghost predicate QueueInv(s: State)
  {
    && (forall i :: 0 <= i < |s.queue| && s.queue[i].LoopSync? ==> s.queue[i].app < |s.apps|)
    && (forall i, j :: 0 <= i < j < |s.queue| && s.queue[i].LoopSync? ==> s.queue[i] != s.queue[j])
  }

  /** Between operations the account is either fully set up or not at all. */
  predicate Settled(s: State)
  {
    s.headless == s.client && (s.initPromise <==> s.client.Some?)
  }

  ghost predicate HolderInv(s: State)
  {
    match s.holder
    case Nobody => Settled(s)
    case Entered => Settled(s)
    case Bootstrapping => s.headless == None && s.client == None && s.initPromise
    case SigningIn(a) => s.headless == Some(a) && s.client == None && s.initPromise
    case Wiping(a, next) =>
      && a < |s.apps| && s.apps[a].wiping != NotStarted
      && (match next
          case BackToTool => Settled(s) && s.headless != Some(a) && s.apps[a].authorizationLost
          case LoopEnds => Settled(s) && s.headless != Some(a)
          case InitFails(_) => s.headless == None && s.client == None && !s.initPromise
          case InitEnds => s.headless == Some(a) && s.client == None && !s.initPromise)
    case TearingDown(a) =>
      s.headless == Some(a) && s.client == None && !s.initPromise && a < |s.apps| && s.apps[a].deinitialized
    case Ready(a) => Settled(s) && s.client == Some(a)
    case Operating(a) => Settled(s) && a < |s.apps| && (s.client == Some(a) || s.apps[a].authorizationLost)
    case LoopSyncing(a) => Settled(s) && a < |s.apps|
  }

  ghost predicate Inv(s: State)
  {
    && (s.headless.Some? ==> s.headless.value < |s.apps|)
    && (s.client.Some? ==> s.client == s.headless)
    && HolderInv(s)
    && QueueInv(s)
    && (forall a :: 0 <= a < |s.apps| ==> AppInv(s, a) && LoopInv(s, a))
  }

  /** Arriving at the mutex, leaving its queue and clearing `syncing` touch no app beyond its `syncing` flag. */
  predicate OnlyQueueing(s: State, t: State)
  {
    && s.headless == t.headless && s.client == t.client && s.initPromise == t.initPromise && |s.apps| == |t.apps|
    && forall a :: 0 <= a < |s.apps| ==> t.apps[a] == s.apps[a].(syncing := t.apps[a].syncing)
  }

  lemma QueueingKeepsApps(s: State, t: State)
    requires Inv(s) && OnlyQueueing(s, t) && Leaving(t) == Leaving(s) && (s.holder.Wiping? ==> t.holder == s.holder)
    ensures forall a :: 0 <= a < |t.apps| ==> AppInv(t, a)
  {
    forall a | 0 <= a < |t.apps| ensures AppInv(t, a) {
      assert AppInv(s, a) && t.apps[a] == s.apps[a].(syncing := t.apps[a].syncing);
    }
  }

  lemma ArrivalKeepsInv(s: State, action: Action)
    requires Inv(s) && Next(s, action).Some?
    requires action.ToolCalled? || action.TimerFires? || action.LoopCleared?
    ensures Inv(Next(s, action).value)
  {
    var t := Next(s, action).value;
    QueueingKeepsApps(s, t);
    hide AppInv;
    if action.TimerFires? {
      assert LoopInv(s, action.app);
    }
    forall a | 0 <= a < |t.apps| ensures LoopInv(t, a) {
      assert LoopInv(s, a);
    }
  }

  lemma AcquireKeepsInv(s: State)
    requires Inv(s) && Next(s, Acquire).Some?
    ensures Inv(Next(s, Acquire).value)
  {
    var t := Next(s, Acquire).value;
    QueueingKeepsApps(s, t);
    hide AppInv;
    assert s.queue == [s.queue[0]] + t.queue;
    forall a | 0 <= a < |t.apps| ensures LoopInv(t, a) {
      assert LoopInv(s, a);
    }
  }

  lemma ToolKeepsInv(s: State, action: Action)
    requires Inv(s) && Next(s, action).Some?
    requires action.GetClient? || action.StartOperation? || action.ToolEnds? || action.TornDown?
    ensures Inv(Next(s, action).value)
  {
    var t := Next(s, action).value;
    forall a | 0 <= a < |t.apps|
      ensures AppInv(t, a) && LoopInv(t, a)
    {
      assert AppInv(s, a) && LoopInv(s, a);
    }
  }

  /** Nothing is suspended in a wipe or teardown, and the handler starts from what `HolderInv` says of its caller. */
  lemma CatchKeepsInv(s: State, unauthorized: bool)
    requires s.client == None
    requires s.headless.Some? ==> s.headless.value < |s.apps|
    requires QueueInv(s) && !(s.holder.Wiping? && s.headless.Some?) && !s.holder.TearingDown? && !s.holder.LoopSyncing?
    requires s.holder.Wiping? ==>
               s.holder.next.InitFails? && s.holder.app < |s.apps| && s.apps[s.holder.app].wiping == Erased
    requires forall a :: 0 <= a < |s.apps| ==> AppInv(s, a) && LoopInv(s, a)
    ensures Inv(InitCatch(s, unauthorized))
  {
    var t := InitCatch(s, unauthorized);
    forall a | 0 <= a < |t.apps|
      ensures AppInv(t, a) && LoopInv(t, a)
    {
      assert AppInv(s, a) && LoopInv(s, a);
    }
  }

  lemma LossKeepsInv(s: State, a: AppId, next: Then)
    requires Inv(s) && a < |s.apps| && !s.apps[a].authorizationLost
    requires match next
             case BackToTool => s.holder == Operating(a)
             case LoopEnds => s.holder == LoopSyncing(a)
             case InitFails(_) => s.holder == SigningIn(a)
             case InitEnds => false
    ensures Inv(BeginWipe(Lose(s, a), a, next))
  {
    var t := BeginWipe(Lose(s, a), a, next);
    forall b | 0 <= b < |t.apps|
      ensures AppInv(t, b) && LoopInv(t, b)
    {
      assert AppInv(s, b) && LoopInv(s, b);
    }
  }

  lemma SyncKeepsInv(s: State, action: Action)
    requires Inv(s) && Next(s, action).Some?
    requires action.ToolSyncs? || action.LoopSyncs?
    ensures Inv(Next(s, action).value)
  {
    var t := Next(s, action).value;
    var a := s.holder.app;
    if action.result == Unauthorized && !s.apps[a].authorizationLost {
      LossKeepsInv(s, a, if action.ToolSyncs? then BackToTool else LoopEnds);
    } else {
      forall b | 0 <= b < |t.apps|
        ensures AppInv(t, b) && LoopInv(t, b)
      {
        assert AppInv(s, b) && LoopInv(s, b);
      }
    }
  }

  lemma InitKeepsInv(s: State, action: Action)
    requires Inv(s) && Next(s, action).Some?
    requires action.Bootstrapped? || action.SignedIn?
    ensures Inv(Next(s, action).value)
  {
    var t := Next(s, action).value;
    if action.Bootstrapped? {
      if action.ok {
        forall b | 0 <= b < |t.apps|
          ensures AppInv(t, b) && LoopInv(t, b)
        {
          assert b < |s.apps| ==> AppInv(s, b) && LoopInv(s, b);
        }
      } else {
        CatchKeepsInv(s, false);
      }
    } else if action.result == Synced {
      forall b | 0 <= b < |t.apps|
        ensures AppInv(t, b) && LoopInv(t, b)
      {
        assert AppInv(s, b) && LoopInv(s, b);
      }
    } else if action.bySync && action.result == Unauthorized {
      assert AppInv(s, s.holder.app);
      LossKeepsInv(s, s.holder.app, InitFails(true));
    } else {
      CatchKeepsInv(s, action.result == Unauthorized);
    }
  }

  lemma WipeKeepsInv(s: State, tornDown: bool)
    requires Inv(s) && Next(s, WipeSettles(tornDown)).Some?
    ensures Inv(Next(s, WipeSettles(tornDown)).value)
  {
    var t := Next(s, WipeSettles(tornDown)).value;
    var a, next := s.holder.app, s.holder.next;
    var app := s.apps[a].(wiping := Erased);
    var u := Update(s, a, if tornDown then Deinit(app) else app);
    forall b | 0 <= b < |u.apps|
      ensures AppInv(u, b) && LoopInv(u, b)
    {
      assert AppInv(s, b) && LoopInv(s, b);
    }
    if next.InitFails? {
      CatchKeepsInv(u, next.unauthorized);
    } else {
      forall b | 0 <= b < |t.apps|
        ensures AppInv(t, b) && LoopInv(t, b)
      {
        assert AppInv(u, b) && LoopInv(u, b);
      }
    }
  }

  lemma StepKeepsInv(s: State, action: Action)
    requires Inv(s) && Next(s, action).Some?
    ensures Inv(Next(s, action).value)
  {
    hide Inv, Next;
    match action
    case ToolCalled => ArrivalKeepsInv(s, action);
    case TimerFires(_) => ArrivalKeepsInv(s, action);
    case Acquire => AcquireKeepsInv(s);
    case LoopCleared(_) => ArrivalKeepsInv(s, action);
    case GetClient => ToolKeepsInv(s, action);
    case StartOperation => ToolKeepsInv(s, action);
    case ToolEnds => ToolKeepsInv(s, action);
    case TornDown => ToolKeepsInv(s, action);
    case ToolSyncs(_) => SyncKeepsInv(s, action);
    case LoopSyncs(_) => SyncKeepsInv(s, action);
    case Bootstrapped(_) => InitKeepsInv(s, action);
    case SignedIn(_, _) => InitKeepsInv(s, action);
    case WipeSettles(tornDown) => WipeKeepsInv(s, tornDown);
  }

  lemma {:induction false} ReachableInv(actions: seq<Action>)
    requires RunFrom(actions).Some?
    ensures Inv(RunFrom(actions).value)
  {
    hide Next;
    if actions != [] {
      ReachableInv(actions[..|actions| - 1]);
      StepKeepsInv(RunFrom(actions[..|actions| - 1]).value, actions[|actions| - 1]);
    }
  }

  // ---- What holds in every run ----

  /** A tool operation never starts on an app that lost authorization, nor on one being erased or torn down. */
  lemma ToolStartsAuthorized(actions: seq<Action>)
    requires RunFrom(actions).Some? && Next(RunFrom(actions).value, StartOperation).Some?
    ensures var s := RunFrom(actions).value;
            && s.holder.app < |s.apps| && s.client == Some(s.holder.app)
            && var app := s.apps[s.holder.app];
               !app.authorizationLost && app.wiping == NotStarted && !app.deinitialized
  {
    ReachableInv(actions);
    var s := RunFrom(actions).value;
    assert AppInv(s, s.holder.app);
  }

  /** Losing authorization is announced once and each app is torn down at most once, whatever interleaves. */
  lemma OncePerApp(actions: seq<Action>, a: AppId)
    requires RunFrom(actions).Some? && a < |RunFrom(actions).value.apps|
    ensures var app := RunFrom(actions).value.apps[a];
            && app.notifications <= 1 && app.teardowns <= 1
            && (app.notifications == 1 <==> app.authorizationLost)
  {
    ReachableInv(actions);
    assert AppInv(RunFrom(actions).value, a);
  }

  /** Only the current account has a timer: it is stopped when erasure or teardown begins, and never fires again. */
  lemma TimerIffCurrent(actions: seq<Action>, a: AppId)
    requires RunFrom(actions).Some? && a < |RunFrom(actions).value.apps|
    ensures var s := RunFrom(actions).value; var app := s.apps[a];
            && (app.timer <==> s.client == Some(a))
            && (app.wiping != NotStarted || app.deinitialized || app.authorizationLost ==>
                  !app.timer && Next(s, TimerFires(a)) == None)
  {
    ReachableInv(actions);
    assert AppInv(RunFrom(actions).value, a);
  }

  /** The current account keeps syncing: its timer can start a sync, or one is under way, or can be once the last is cleared. */
  lemma SyncsAgain(actions: seq<Action>, a: AppId)
    requires RunFrom(actions).Some? && RunFrom(actions).value.client == Some(a)
    ensures var s := RunFrom(actions).value;
            || Next(s, TimerFires(a)).Some?
            || LoopSync(a) in s.queue || s.holder == LoopSyncing(a) || s.holder == Wiping(a, LoopEnds)
            || (Next(s, LoopCleared(a)).Some? && Next(Next(s, LoopCleared(a)).value, TimerFires(a)).Some?)
  {
    ReachableInv(actions);
    assert AppInv(RunFrom(actions).value, a);
  }

  /** Of the background syncs of one app, at most one is queued or running, and none starts meanwhile. */
  lemma OneLoopSync(actions: seq<Action>, a: AppId)
    requires RunFrom(actions).Some? && a < |RunFrom(actions).value.apps|
    ensures var s := RunFrom(actions).value;
            && (LoopSync(a) in s.queue ==> s.holder != LoopSyncing(a) && s.holder != Wiping(a, LoopEnds))
            && (LoopSync(a) in s.queue || s.holder == LoopSyncing(a) || s.holder == Wiping(a, LoopEnds) ==>
                  s.apps[a].syncing && Next(s, TimerFires(a)) == None)
            && forall i, j :: 0 <= i < j < |s.queue| ==> s.queue[i] != LoopSync(a) || s.queue[j] != LoopSync(a)
  {
    ReachableInv(actions);
    assert LoopInv(RunFrom(actions).value, a);
  }

  /**
   A bootstrap begins only when the erasure or teardown of every earlier app has settled: two apps never share
   the data directory, and what a revoked session left behind is gone before the next sign-in.
   */
  lemma BootstrapAfterErasure(actions: seq<Action>, a: AppId)
    requires RunFrom(actions).Some?
    requires var s := RunFrom(actions).value; s.holder == Entered && s.client == None && a < |s.apps|
    ensures var s := RunFrom(actions).value;
            && Retired(s.apps[a]) && s.apps[a].wiping != Erasing
            && (s.apps[a].authorizationLost ==> s.apps[a].wiping == Erased)
            && Next(s, GetClient) == Some(s.(initPromise := true, holder := Bootstrapping))
  {
    ReachableInv(actions);
    assert AppInv(RunFrom(actions).value, a);
  }

  /** Only the current account, or the app whose end is being awaited, is not retired. */
  lemma OneLiveApp(actions: seq<Action>, a: AppId)
    requires RunFrom(actions).Some? && a < |RunFrom(actions).value.apps|
    requires !Retired(RunFrom(actions).value.apps[a])
    ensures var s := RunFrom(actions).value; s.headless == Some(a) || Leaving(s) == Some(a)
  {
    ReachableInv(actions);
    assert AppInv(RunFrom(actions).value, a);
  }

  // ---- Who is erased ----

  /** The server answers a sync of app `a` that its session is no longer valid. */
  predicate Refuses(s: State, action: Action, a: AppId)
  {
    match action
    case ToolSyncs(result) => s.holder == Operating(a) && result == Unauthorized
    case LoopSyncs(result) => s.holder == LoopSyncing(a) && result == Unauthorized
    case SignedIn(result, _) => s.holder == SigningIn(a) && result == Unauthorized
    case _ => false
  }

  ghost predicate WasRefused(actions: seq<Action>, a: AppId)
  {
    exists i :: 0 <= i < |actions| && RunFrom(actions[..i]).Some? && Refuses(RunFrom(actions[..i]).value, actions[i], a)
  }

  lemma WipeStarts(s: State, action: Action, a: AppId)
    requires Inv(s) && Next(s, action).Some? && a < |s.apps|
    ensures a < |Next(s, action).value.apps|
    ensures Next(s, action).value.apps[a].wiping != NotStarted <==>
            s.apps[a].wiping != NotStarted || Refuses(s, action, a)
  {
    assert AppInv(s, a);
    if action.ToolSyncs? || action.LoopSyncs? || action.SignedIn? || action.WipeSettles? {
      assert AppInv(s, s.holder.app);
    }
  }

  lemma {:induction false} PrefixRuns(actions: seq<Action>, i: nat)
    requires RunFrom(actions).Some? && i <= |actions|
    ensures RunFrom(actions[..i]).Some?
  {
    if i < |actions| {
      var init := actions[..|actions| - 1];
      PrefixRuns(init, i);
      assert init[..i] == actions[..i];
    } else {
      assert actions[..i] == actions;
    }
  }

  lemma RefusedOneMore(actions: seq<Action>, a: AppId)
    requires actions != [] && RunFrom(actions).Some?
    ensures var init := actions[..|actions| - 1];
            && RunFrom(init).Some?
            && (WasRefused(actions, a) <==>
                WasRefused(init, a) || Refuses(RunFrom(init).value, actions[|actions| - 1], a))
  {
    hide Next;
    var n := |actions| - 1;
    var init := actions[..n];
    PrefixRuns(actions, n);
    assert forall i :: 0 <= i <= n ==> init[..i] == actions[..i];
  }

  /** An app is erased, or about to be, exactly when the server has refused one of its syncs; no other failure does it. */
  lemma {:induction false} ErasedIffRefused(actions: seq<Action>, a: AppId)
    requires RunFrom(actions).Some? && a < |RunFrom(actions).value.apps|
    ensures RunFrom(actions).value.apps[a].wiping != NotStarted <==> WasRefused(actions, a)
  {
    hide Inv, Refuses, WasRefused;
    if actions == [] {
      return;
    }
    var init := actions[..|actions| - 1];
    RefusedOneMore(actions, a);
    var s := RunFrom(init).value;
    ReachableInv(init);
    if a < |s.apps| {
      ErasedIffRefused(init, a);
      WipeStarts(s, actions[|actions| - 1], a);
    } else {
      NewApp(s, actions[|actions| - 1], a);
      NotRefusedBefore(init, a);
    }
  }

  lemma NewApp(s: State, action: Action, a: AppId)
    requires Inv(s) && Next(s, action).Some? && |s.apps| <= a < |Next(s, action).value.apps|
    ensures Next(s, action).value.apps[a].wiping == NotStarted && !Refuses(s, action, a)
  {
  }

  lemma AppsGrow(s: State, action: Action)
    requires Inv(s) && Next(s, action).Some?
    ensures |s.apps| <= |Next(s, action).value.apps|
  {
  }

  lemma RefusedIsKnown(s: State, action: Action, a: AppId)
    requires Inv(s) && Refuses(s, action, a)
    ensures a < |s.apps|
  {
  }

  lemma {:induction false} NotRefusedBefore(actions: seq<Action>, a: AppId)
    requires RunFrom(actions).Some? && |RunFrom(actions).value.apps| <= a
    ensures !WasRefused(actions, a)
  {
    hide Inv, Refuses, Next, WasRefused;
    if actions == [] {
      NothingRefused(a);
    } else {
      var init := actions[..|actions| - 1];
      RefusedOneMore(actions, a);
      var s := RunFrom(init).value;
      ReachableInv(init);
      AppsGrow(s, actions[|actions| - 1]);
      NotRefusedBefore(init, a);
      if Refuses(s, actions[|actions| - 1], a) {
        RefusedIsKnown(s, actions[|actions| - 1], a);
      }
    }
  }

  lemma NothingRefused(a: AppId)
    ensures !WasRefused([], a)
  {
  }

  // ---- Order and progress ----

  /** The jobs in order of arrival: tool calls, and background syncs whose timer fired. */
  function Arrived(actions: seq<Action>): seq<Job>
  {
    if actions == [] then []
    else
      var before := Arrived(actions[..|actions| - 1]);
      match actions[|actions| - 1]
      case ToolCalled => before + [Tool]
      case TimerFires(a) => before + [LoopSync(a)]
      case _ => before
  }

  /** The jobs that got the gate, as the state right after says who holds it. */
  function Admitted(actions: seq<Action>): seq<Job>
    requires RunFrom(actions).Some?
  {
    if actions == [] then []
    else
      var before := Admitted(actions[..|actions| - 1]);
      if !actions[|actions| - 1].Acquire? then before
      else
        match RunFrom(actions).value.holder
        case LoopSyncing(a) => before + [LoopSync(a)]
        case _ => before + [Tool]
  }

  /** Jobs get the gate in the order they arrived, and the others are waiting. */
  lemma {:induction false} AdmittedInOrder(actions: seq<Action>)
    requires RunFrom(actions).Some?
    ensures Arrived(actions) == Admitted(actions) + RunFrom(actions).value.queue
  {
    if actions != [] {
      var init, action := actions[..|actions| - 1], actions[|actions| - 1];
      AdmittedInOrder(init);
      OneMoreArrival(RunFrom(init).value, action, Arrived(init), Admitted(init));
    }
  }

  lemma OneMoreArrival(s: State, action: Action, arrived: seq<Job>, admitted: seq<Job>)
    requires Next(s, action).Some? && arrived == admitted + s.queue
    ensures var t := Next(s, action).value;
            match action
            case ToolCalled => arrived + [Tool] == admitted + t.queue
            case TimerFires(a) => arrived + [LoopSync(a)] == admitted + t.queue
            case Acquire =>
              arrived == (match t.holder case LoopSyncing(a) => admitted + [LoopSync(a)] case _ => admitted + [Tool]) + t.queue
            case _ => arrived == admitted + t.queue
  {
    if action.Acquire? {
      assert s.queue == [s.queue[0]] + s.queue[1..];
    }
  }

  /** How far the operation that holds the gate is from giving it back. */
  function Distance(s: State): nat
  {
    match s.holder
    case Nobody => 0
    case Entered => 8
    case Bootstrapping => 7
    case SigningIn(_) => 6
    case Ready(_) => 4
    case Operating(a) => if a < |s.apps| && !s.apps[a].authorizationLost then 3 else 1
    case LoopSyncing(_) => 3
    case Wiping(_, next) => if next.InitFails? then 4 else 2
    case TearingDown(_) => 1
  }

  predicate IsArrival(action: Action)
  {
    action.ToolCalled? || action.TimerFires? || action.LoopCleared?
  }

  /** The holder can always go on. Each of its steps brings it nearer to the end, but for a tool's syncs that change nothing. */
  lemma HolderAdvances(actions: seq<Action>)
    requires RunFrom(actions).Some? && RunFrom(actions).value.holder != Nobody
    ensures var s := RunFrom(actions).value;
            exists action :: !IsArrival(action) && Next(s, action).Some? && Distance(Next(s, action).value) < Distance(s)
    ensures var s := RunFrom(actions).value;
            forall action :: !IsArrival(action) && Next(s, action).Some? ==>
              Distance(Next(s, action).value) < Distance(s) || (action.ToolSyncs? && Next(s, action).value == s)
  {
    hide Next, Inv, Distance;
    ReachableInv(actions);
    var s := RunFrom(actions).value;
    var action := SomeStep(s);
    StepApproaches(s, action);
    forall other | !IsArrival(other) && Next(s, other).Some?
      ensures Distance(Next(s, other).value) < Distance(s) || (other.ToolSyncs? && Next(s, other).value == s)
    {
      StepApproaches(s, other);
    }
  }

  lemma SomeStep(s: State) returns (action: Action)
    requires Inv(s) && s.holder != Nobody
    ensures !IsArrival(action) && !action.ToolSyncs? && Next(s, action).Some?
  {
    action := match s.holder
      case Entered => GetClient
      case Bootstrapping => Bootstrapped(true)
      case SigningIn(_) => SignedIn(Synced, false)
      case Ready(_) => StartOperation
      case Operating(_) => ToolEnds
      case LoopSyncing(_) => LoopSyncs(Synced)
      case Wiping(_, _) => WipeSettles(true)
      case _ => TornDown;
  }

  lemma StepApproaches(s: State, action: Action)
    requires Inv(s) && s.holder != Nobody && !IsArrival(action) && Next(s, action).Some?
    ensures Distance(Next(s, action).value) < Distance(s) || (action.ToolSyncs? && Next(s, action).value == s)
  {
    if action.ToolSyncs? || action.LoopSyncs? || action.SignedIn? || action.WipeSettles? {
      assert AppInv(s, s.holder.app);
    }
  }

  /** A free gate is given to the first job that waits. */
  lemma FreeGateIsTaken(actions: seq<Action>)
    requires RunFrom(actions).Some? && RunFrom(actions).value.holder == Nobody && RunFrom(actions).value.queue != []
    ensures var s := RunFrom(actions).value;
            && Next(s, Acquire).Some?
            && Next(s, Acquire).value.holder == match s.queue[0] case Tool => Entered case LoopSync(a) => LoopSyncing(a)
  {
  }
}
