/**
 Admission of HTTP sessions: requests that initialize a session, the sessions they register, and everything
 that ends them, in any order.
 */
module HttpSessions {
  import opened Basics

  type RequestId = nat
  type SessionId = nat

  /**
   `pending` are the initializations being counted, with the session each registered so far; `abandoned` are
   requests no longer counted whose handler may still be running, because a timeout does not cancel it.
   */
  datatype State = State(
    sessions: set<SessionId>,
    initializations: nat,
    pending: map<RequestId, Option<SessionId>>,
    abandoned: set<RequestId>,
    used: set<SessionId>,
    late: nat)

  const START: State := State({}, 0, map[], {}, {}, 0)

  datatype Action =
    | Initialize(r: RequestId)
    | Register(r: RequestId, id: SessionId)     // `onsessioninitialized`
    | Succeed(r: RequestId)                     // the `finally` block alone
    | CleanUp(r: RequestId)                     // `cleanupFailedInitialization`, after an error or timeout
    | Fail(r: RequestId)                        // the `finally` block after it
    | Close(id: SessionId)                      // closed by the client, timed out, or idle

  /** Admission, or the refusal with status 503, which changes nothing. */
  function Admit(s: State, r: RequestId, cap: nat): State
  {
    if |s.sessions| + s.initializations >= cap then s
    else s.(initializations := s.initializations + 1, pending := s.pending[r := None])
  }

  function Finish(s: State, r: RequestId): State
    requires s.initializations > 0
  {
    s.(initializations := s.initializations - 1, pending := s.pending - {r})
  }

  /** The effect of an action, `None` where it cannot happen. Session ids are random and never repeat. */
  function Next(s: State, a: Action, cap: nat): Option<State>
  {
    match a
    case Initialize(r) =>
      if r in s.pending || r in s.abandoned then None else Some(Admit(s, r, cap))
    case Register(r, id) =>
      if id in s.used then None
      else if Get(s.pending, r) == Some(None) then
        Some(s.(sessions := s.sessions + {id}, used := s.used + {id}, pending := s.pending[r := Some(id)]))
      else if r in s.abandoned then
        Some(s.(sessions := s.sessions + {id}, used := s.used + {id}, abandoned := s.abandoned - {r}, late := s.late + 1))
      else None
    case Succeed(r) =>
      if r in s.pending && s.initializations > 0 then Some(Finish(s, r)) else None
    case CleanUp(r) =>
      if r !in s.pending then None
      else if s.pending[r].Some? then Some(s.(sessions := s.sessions - {s.pending[r].value})) else Some(s)
    case Fail(r) =>
      if r in s.pending && s.initializations > 0 then
        Some(Finish(s, r).(abandoned := if s.pending[r].None? then s.abandoned + {r} else s.abandoned))
      else None
    case Close(id) => Some(s.(sessions := s.sessions - {id}))
  }

  ghost function Registered(s: State): set<SessionId>
  {
    set r | r in s.pending && s.pending[r].Some? :: s.pending[r].value
  }

  /** No two pending initializations registered the same session. */
  ghost predicate EachItsOwn(pending: map<RequestId, Option<SessionId>>)
  {
    forall r, q :: r in pending && q in pending && r != q && pending[r].Some? ==> pending[r] != pending[q]
  }

  ghost predicate Inv(s: State, cap: nat)
  {
    && s.initializations == |s.pending|
    && s.sessions <= s.used
    && Registered(s) <= s.used
    && EachItsOwn(s.pending)
    && |s.sessions - Registered(s)| + s.initializations <= cap + s.late
  }

  lemma {:induction false} FewRegistered(s: State, requests: set<RequestId>)
    requires requests <= s.pending.Keys
    ensures |set r | r in requests && s.pending[r].Some? :: s.pending[r].value| <= |requests|
  {
    var ids := set r | r in requests && s.pending[r].Some? :: s.pending[r].value;
    if requests == {} {
      assert ids == {};
    } else {
      var r :| r in requests;
      var fewer := set q | q in requests - {r} && s.pending[q].Some? :: s.pending[q].value;
      FewRegistered(s, requests - {r});
      if s.pending[r].Some? {
        assert ids == fewer + {s.pending[r].value};
      } else {
        assert ids == fewer;
      }
    }
  }

  lemma SubsetSize(a: set<SessionId>, b: set<SessionId>)
    requires a <= b
    ensures |a| <= |b|
  {
    assert b == a + (b - a);
  }

  lemma RegisteredOneMore(s: State, r: RequestId, id: SessionId, t: State)
    requires r in s.pending && s.pending[r] == None && t.pending == s.pending[r := Some(id)]
    ensures Registered(t) == Registered(s) + {id} && |t.pending| == |s.pending|
  {
    assert t.pending[r] == Some(id);
    forall q | q in s.pending && s.pending[q].Some?
      ensures s.pending[q].value in Registered(t)
    {
      assert t.pending[q] == s.pending[q];
    }
    assert t.pending.Keys == s.pending.Keys;
    assert |t.pending| == |t.pending.Keys|;
  }

  lemma DistinctOneMore(s: State, r: RequestId, id: SessionId, t: State, cap: nat)
    requires Inv(s, cap) && id !in s.used
    requires r in s.pending && t.pending == s.pending[r := Some(id)]
    ensures EachItsOwn(t.pending)
  {
    forall q | q in s.pending && s.pending[q].Some?
      ensures s.pending[q].value != id
    {
      assert s.pending[q].value in Registered(s);
    }
  }

  lemma RegisterKeepsInv(s: State, r: RequestId, id: SessionId, cap: nat)
    requires Inv(s, cap) && Next(s, Register(r, id), cap).Some?
    ensures Inv(Next(s, Register(r, id), cap).value, cap)
  {
    var t := Next(s, Register(r, id), cap).value;
    if Get(s.pending, r) == Some(None) {
      RegisterPendingKeepsInv(s, t, r, id, cap);
    } else {
      RegisterLateKeepsInv(s, t, id, cap);
    }
  }

  lemma RegisterPendingKeepsInv(s: State, t: State, r: RequestId, id: SessionId, cap: nat)
    requires Inv(s, cap) && id !in s.used && r in s.pending && s.pending[r] == None
    requires t.pending == s.pending[r := Some(id)] && t.initializations == s.initializations && t.late == s.late
    requires t.sessions == s.sessions + {id} && t.used == s.used + {id}
    ensures Inv(t, cap)
  {
    RegisteredOneMore(s, r, id, t);
    DistinctOneMore(s, r, id, t, cap);
    hide Registered, EachItsOwn;
    assert t.sessions - Registered(t) == s.sessions - Registered(s);
  }

  lemma SameRegistered(s: State, t: State)
    requires t.pending == s.pending
    ensures Registered(t) == Registered(s)
  {
  }

  lemma OneMore(sessions: set<SessionId>, registered: set<SessionId>, id: SessionId)
    requires id !in sessions && id !in registered
    ensures |sessions + {id} - registered| == |sessions - registered| + 1
  {
    assert sessions + {id} - registered == (sessions - registered) + {id};
  }

  lemma RegisterLateKeepsInv(s: State, t: State, id: SessionId, cap: nat)
    requires Inv(s, cap) && id !in s.used
    requires t.pending == s.pending && t.initializations == s.initializations && t.late == s.late + 1
    requires t.sessions == s.sessions + {id} && t.used == s.used + {id}
    ensures Inv(t, cap)
  {
    hide Registered, EachItsOwn;
    SameRegistered(s, t);
    OneMore(s.sessions, Registered(s), id);
  }

  lemma CloseKeepsInv(s: State, t: State, id: SessionId, cap: nat)
    requires Inv(s, cap) && t == s.(sessions := s.sessions - {id})
    ensures Inv(t, cap)
  {
    hide Registered, EachItsOwn;
    SameRegistered(s, t);
    SubsetSize(t.sessions - Registered(t), s.sessions - Registered(s));
  }

  lemma FinishKeepsInv(s: State, r: RequestId, cap: nat)
    requires Inv(s, cap) && r in s.pending && s.initializations > 0
    ensures Inv(Finish(s, r), cap)
  {
    var t := Finish(s, r);
    PendingOneLess(s, r, t);
    hide Registered, EachItsOwn;
    if s.pending[r].Some? {
      var id := s.pending[r].value;
      var more := (s.sessions - Registered(s)) + {id};
      assert |more| <= |s.sessions - Registered(s)| + 1;
      SubsetSize(t.sessions - Registered(t), more);
    }
  }

  lemma PendingOneLess(s: State, r: RequestId, t: State)
    requires r in s.pending && t.pending == s.pending - {r} && EachItsOwn(s.pending)
    ensures EachItsOwn(t.pending) && |t.pending| == |s.pending| - 1
    ensures Registered(s) == Registered(t) + (match s.pending[r] case None => {} case Some(id) => {id})
  {
    assert |t.pending| == |s.pending| - 1 by {
      assert s.pending.Keys == t.pending.Keys + {r};
      assert |t.pending.Keys| == |s.pending.Keys| - 1;
    }
    forall q | q in s.pending && s.pending[q].Some? && q != r ensures s.pending[q].value in Registered(t) {
      assert q in t.pending && t.pending[q] == s.pending[q];
    }
  }

  lemma StepKeepsInv(s: State, a: Action, cap: nat)
    requires Inv(s, cap) && Next(s, a, cap).Some?
    ensures Inv(Next(s, a, cap).value, cap)
  {
    hide Inv;
    match a
    case Initialize(r) =>
      AdmitKeepsInv(s, r, cap);
    case Register(r, id) =>
      RegisterKeepsInv(s, r, id, cap);
    case Succeed(r) =>
      FinishKeepsInv(s, r, cap);
    case Fail(r) =>
      FinishKeepsInv(s, r, cap);
      AbandonKeepsInv(Finish(s, r), Next(s, a, cap).value, cap);
    case CleanUp(r) =>
      if s.pending[r].Some? {
        CloseKeepsInv(s, Next(s, a, cap).value, s.pending[r].value, cap);
      }
    case Close(id) =>
      CloseKeepsInv(s, Next(s, a, cap).value, id, cap);
  }

  lemma AbandonKeepsInv(s: State, t: State, cap: nat)
    requires Inv(s, cap) && t == s.(abandoned := t.abandoned)
    ensures Inv(t, cap)
  {
    hide Registered, EachItsOwn;
    SameRegistered(s, t);
  }

  lemma AdmitKeepsInv(s: State, r: RequestId, cap: nat)
    requires Inv(s, cap) && r !in s.pending
    ensures Inv(Admit(s, r, cap), cap)
  {
    if |s.sessions| + s.initializations < cap {
      var t := Admit(s, r, cap);
      PendingOneMore(s, r, t);
      hide Registered, EachItsOwn;
      SubsetSize(s.sessions - Registered(s), s.sessions);
    }
  }

  lemma PendingOneMore(s: State, r: RequestId, t: State)
    requires r !in s.pending && t.pending == s.pending[r := None]
    requires EachItsOwn(s.pending)
    ensures EachItsOwn(t.pending) && Registered(t) == Registered(s) && |t.pending| == |s.pending| + 1
  {
    forall q | q in s.pending && s.pending[q].Some? ensures s.pending[q].value in Registered(t) {
      assert t.pending[q] == s.pending[q];
    }
    assert t.pending.Keys == s.pending.Keys + {r};
    assert |t.pending| == |t.pending.Keys|;
  }

  function RunFrom(actions: seq<Action>, cap: nat): Option<State>
  {
    if actions == [] then Some(START)
    else
      match RunFrom(actions[..|actions| - 1], cap)
      case None => None
      case Some(s) => Next(s, actions[|actions| - 1], cap)
  }

  lemma {:induction false} ReachableInv(actions: seq<Action>, cap: nat)
    requires RunFrom(actions, cap).Some?
    ensures Inv(RunFrom(actions, cap).value, cap)
  {
    if actions == [] {
      assert Registered(START) == {};
    } else {
      ReachableInv(actions[..|actions| - 1], cap);
      StepKeepsInv(RunFrom(actions[..|actions| - 1], cap).value, actions[|actions| - 1], cap);
    }
  }

  /** What admission compares with the limit, sessions that a pending request already owns counted once. */
  ghost function Slots(s: State): nat
  {
    |s.sessions - Registered(s)| + s.initializations
  }

  lemma SessionsHaveSlots(s: State, cap: nat)
    requires Inv(s, cap)
    ensures |s.sessions| <= Slots(s)
  {
    FewRegistered(s, s.pending.Keys);
    assert Registered(s) == set r | r in s.pending.Keys && s.pending[r].Some? :: s.pending[r].value;
    var both := (s.sessions - Registered(s)) + Registered(s);
    SubsetSize(s.sessions, both);
  }

  /**
   In every run the live sessions exceed the limit by at most the registrations that came after their own
   request had stopped being counted; the counter is exactly the number of pending initializations.
   */
  lemma SessionsBounded(actions: seq<Action>, cap: nat)
    requires RunFrom(actions, cap).Some?
    ensures var s := RunFrom(actions, cap).value;
            && |s.sessions| <= cap + s.late
            && s.initializations == |s.pending|
  {
    hide Registered, Next;
    ReachableInv(actions, cap);
    SessionsHaveSlots(RunFrom(actions, cap).value, cap);
  }

  // ---- Exactly when the limit holds ----

  /** A session registered by a request that is no longer counted. */
  predicate IsLate(s: State, a: Action)
  {
    a.Register? && Get(s.pending, a.r) != Some(None)
  }

  /** One step breaks the limit exactly when it registers late while no slot is free. */
  lemma StepExceedsIff(s: State, a: Action, cap: nat)
    requires Inv(s, cap) && Slots(s) <= cap && Next(s, a, cap).Some?
    ensures Slots(Next(s, a, cap).value) <= cap <==> !(IsLate(s, a) && Slots(s) == cap)
  {
    hide Inv, Slots;
    SlotsOnTime(s, cap);
    if IsLate(s, a) {
      LateTakesSlot(s, a.r, a.id, cap);
    } else {
      var unlate := s.(late := 0);
      StepKeepsInv(unlate, a, cap);
      SameButLate(s, a, cap);
      SlotsOnTime(Next(unlate, a, cap).value, cap);
    }
  }

  /** With no late registration to its account, the invariant is the limit. */
  lemma SlotsOnTime(s: State, cap: nat)
    ensures Inv(s, cap) && Slots(s) <= cap ==> Inv(s.(late := 0), cap)
    ensures Inv(s, cap) && s.late == 0 ==> Slots(s) <= cap
  {
    SameRegistered(s, s.(late := 0));
    hide Registered, EachItsOwn;
  }

  lemma SameButLate(s: State, a: Action, cap: nat)
    requires Next(s, a, cap).Some? && !IsLate(s, a)
    ensures Next(s.(late := 0), a, cap) == Some(Next(s, a, cap).value.(late := 0))
    ensures Slots(Next(s, a, cap).value) == Slots(Next(s.(late := 0), a, cap).value)
  {
    SameRegistered(Next(s, a, cap).value, Next(s, a, cap).value.(late := 0));
    hide Registered;
  }

  lemma LateTakesSlot(s: State, r: RequestId, id: SessionId, cap: nat)
    requires Inv(s, cap) && IsLate(s, Register(r, id)) && Next(s, Register(r, id), cap).Some?
    ensures Slots(Next(s, Register(r, id), cap).value) == Slots(s) + 1
  {
    var t := Next(s, Register(r, id), cap).value;
    SameRegistered(s, t);
    hide Registered, EachItsOwn;
    OneMore(s.sessions, Registered(s), id);
  }

  /** No prefix of the run was followed by a late registration that found every slot taken. */
  ghost predicate NeverLateWhenFull(actions: seq<Action>, cap: nat)
  {
    forall i :: 0 <= i < |actions| ==> !LateWhenFull(actions, i, cap)
  }

  ghost predicate LateWhenFull(actions: seq<Action>, i: nat, cap: nat)
    requires i < |actions|
  {
    match RunFrom(actions[..i], cap)
    case None => false
    case Some(s) => IsLate(s, actions[i]) && Slots(s) == cap
  }

  ghost predicate AlwaysWithin(actions: seq<Action>, cap: nat)
  {
    forall i :: 0 <= i <= |actions| ==> WithinAt(actions, i, cap)
  }

  ghost predicate WithinAt(actions: seq<Action>, i: nat, cap: nat)
    requires i <= |actions|
  {
    match RunFrom(actions[..i], cap) case None => true case Some(s) => Slots(s) <= cap
  }

  /**
   A run stays within the limit throughout if and only if no session is ever registered by a request that is no
   longer counted while every slot is taken. Live sessions then never exceed the limit.
   */
  lemma {:induction false} LimitHoldsIff(actions: seq<Action>, cap: nat)
    requires RunFrom(actions, cap).Some?
    ensures AlwaysWithin(actions, cap) <==> NeverLateWhenFull(actions, cap)
    ensures AlwaysWithin(actions, cap) ==> |RunFrom(actions, cap).value.sessions| <= cap
  {
    hide Next, Slots, Inv;
    assert actions[..|actions|] == actions;
    if actions == [] {
      NothingTaken();
    } else {
      var n := |actions| - 1;
      var init := actions[..n];
      var s := RunFrom(init, cap).value;
      LimitHoldsIff(init, cap);
      PrefixWithin(actions, cap);
      ReachableInv(init, cap);
      if Slots(s) <= cap {
        StepExceedsIff(s, actions[n], cap);
      }
      assert init[..n] == init;
      assert WithinAt(init, n, cap) <==> Slots(s) <= cap;
      assert WithinAt(actions, n + 1, cap) <==> Slots(RunFrom(actions, cap).value) <= cap;
      assert LateWhenFull(actions, n, cap) <==> IsLate(s, actions[n]) && Slots(s) == cap;
    }
    ReachableInv(actions, cap);
    SessionsHaveSlots(RunFrom(actions, cap).value, cap);
    assert AlwaysWithin(actions, cap) ==> WithinAt(actions, |actions|, cap);
  }

  lemma NothingTaken()
    ensures Slots(START) == 0
  {
    assert Registered(START) == {};
  }

  lemma PrefixWithin(actions: seq<Action>, cap: nat)
    requires actions != []
    ensures var n := |actions| - 1;
            && (AlwaysWithin(actions, cap) <==> AlwaysWithin(actions[..n], cap) && WithinAt(actions, n + 1, cap))
            && (NeverLateWhenFull(actions, cap) <==> NeverLateWhenFull(actions[..n], cap) && !LateWhenFull(actions, n, cap))
  {
    hide RunFrom, Slots;
    var n := |actions| - 1;
    var init := actions[..n];
    forall i | 0 <= i <= n ensures WithinAt(actions, i, cap) <==> WithinAt(init, i, cap) {
      assert init[..i] == actions[..i];
    }
    forall i | 0 <= i < n ensures LateWhenFull(actions, i, cap) <==> LateWhenFull(init, i, cap) {
      assert init[..i] == actions[..i];
    }
  }

  // ---- By how much it can fail ----

  function UpTo(n: nat): set<nat>
  {
    if n == 0 then {} else UpTo(n - 1) + {n - 1}
  }

  lemma {:induction false} UpToIff(n: nat)
    ensures forall k: nat :: k in UpTo(n) <==> k < n
    ensures |UpTo(n)| == n
  {
    if n > 0 {
      UpToIff(n - 1);
    }
  }

  lemma UpToNext(n: nat)
    ensures n !in UpTo(n) && UpTo(n + 1) == UpTo(n) + {n}
  {
    UpToIff(n);
  }

  lemma FirstGone(n: nat, k: nat)
    requires k < n
    ensures k in UpTo(n) - UpTo(k) && UpTo(n) - UpTo(k) - {k} == UpTo(n) - UpTo(k + 1)
  {
    UpToIff(n);
    UpToIff(k);
    UpToNext(k);
  }

  lemma OneMoreStep(actions: seq<Action>, a: Action, cap: nat)
    requires RunFrom(actions, cap).Some?
    ensures RunFrom(actions + [a], cap) == Next(RunFrom(actions, cap).value, a, cap)
  {
    assert (actions + [a])[..|actions|] == actions;
  }

  lemma InitializedStep(s: State, r: RequestId, cap: nat)
    requires s.initializations == 0 && s.pending == map[] && |s.sessions| < cap && r !in s.abandoned
    ensures Next(s, Initialize(r), cap) == Some(s.(initializations := 1, pending := map[r := None]))
  {
  }

  lemma Forgotten(r: RequestId, registered: Option<SessionId>)
    ensures map[r := registered] - {r} == map[]
    ensures forall before: Option<SessionId> :: map[r := before][r := registered] == map[r := registered]
  {
  }

  /** `n` requests time out before they have registered anything. */
  lemma {:induction false} TimeOut(n: nat, cap: nat) returns (actions: seq<Action>)
    requires cap >= 1
    ensures RunFrom(actions, cap) == Some(START.(abandoned := UpTo(n)))
  {
    hide UpTo;
    actions := [];
    if n == 0 {
      UpToIff(0);
      assert UpTo(0) == {};
    } else {
      var r := n - 1;
      actions := TimeOut(r, cap);
      UpToNext(r);
      var s := START.(abandoned := UpTo(r));
      OneMoreStep(actions, Initialize(r), cap);
      InitializedStep(s, r, cap);
      actions := actions + [Initialize(r)];
      OneMoreStep(actions, Fail(r), cap);
      actions := actions + [Fail(r)];
      Forgotten(r, None);
    }
  }

  /** Then as many sessions as the limit allows are opened in good time. */
  lemma {:induction false} FillUp(n: nat, filled: nat, cap: nat) returns (actions: seq<Action>)
    requires filled <= cap && cap >= 1
    ensures RunFrom(actions, cap) == Some(Filled(n, filled))
  {
    hide Next, Filled;
    if filled == 0 {
      actions := TimeOut(n, cap);
      NoneFilled(n);
    } else {
      var r, id := n, filled - 1;
      actions := FillUp(n, id, cap);
      FillOne(n, id, cap);
      OneMoreStep(actions, Initialize(r), cap);
      actions := actions + [Initialize(r)];
      OneMoreStep(actions, Register(r, id), cap);
      actions := actions + [Register(r, id)];
      OneMoreStep(actions, Succeed(r), cap);
      actions := actions + [Succeed(r)];
    }
  }

  function Filled(n: nat, filled: nat): State
  {
    State(UpTo(filled), 0, map[], UpTo(n), UpTo(filled), 0)
  }

  lemma NoneFilled(n: nat)
    ensures Filled(n, 0) == START.(abandoned := UpTo(n))
  {
  }

  lemma FillOne(n: nat, id: nat, cap: nat)
    requires id < cap
    ensures var a := Next(Filled(n, id), Initialize(n), cap);
            && a.Some?
            && var b := Next(a.value, Register(n, id), cap);
               b.Some? && Next(b.value, Succeed(n), cap) == Some(Filled(n, id + 1))
  {
    hide UpTo;
    UpToIff(n);
    UpToIff(id);
    UpToNext(id);
    InitializedStep(Filled(n, id), n, cap);
    Forgotten(n, Some(id));
  }

  /** Every excess the bound allows is reached: for any limit and any number of late registrations. */
  lemma {:induction false} BoundIsTight(n: nat, k: nat, cap: nat) returns (actions: seq<Action>)
    requires cap >= 1 && k <= n
    ensures RunFrom(actions, cap).Some?
    ensures var s := RunFrom(actions, cap).value; s.late == k && |s.sessions| == cap + k
    ensures RunFrom(actions, cap) == Some(Overfull(n, k, cap))
  {
    hide Next, UpTo;
    UpToIff(cap + k);
    if k == 0 {
      UpToIff(0);
      actions := FillUp(n, cap, cap);
      assert UpTo(n) - UpTo(0) == UpTo(n);
      assert Filled(n, cap) == Overfull(n, 0, cap);
    } else {
      actions := BoundIsTight(n, k - 1, cap);
      var late := Register(k - 1, cap + k - 1);
      LateStep(n, k, cap);
      OneMoreStep(actions, late, cap);
      actions := actions + [late];
    }
  }

  function Overfull(n: nat, k: nat, cap: nat): State
  {
    State(UpTo(cap + k), 0, map[], UpTo(n) - UpTo(k), UpTo(cap + k), k)
  }

  lemma LateStep(n: nat, k: nat, cap: nat)
    requires cap >= 1 && 0 < k <= n
    ensures Next(Overfull(n, k - 1, cap), Register(k - 1, cap + k - 1), cap) == Some(Overfull(n, k, cap))
  {
    hide UpTo;
    FirstGone(n, k - 1);
    UpToNext(cap + k - 1);
  }

  /** The limit can be exceeded: a handler that outlives its timeout registers after its place was given away. */
  lemma LateRegistrationExceedsLimit()
    ensures var s := RunFrom([Initialize(0), CleanUp(0), Fail(0), Initialize(1), Register(1, 7), Succeed(1), Register(0, 8)], 1);
            s.Some? && |s.value.sessions| == 2
  {
    var run := [Initialize(0), CleanUp(0), Fail(0), Initialize(1), Register(1, 7), Succeed(1), Register(0, 8)];
    var s1 := State({}, 1, map[0 := None], {}, {}, 0);
    var s3 := State({}, 0, map[], {0}, {}, 0);
    var s4 := State({}, 1, map[1 := None], {0}, {}, 0);
    var s5 := State({7}, 1, map[1 := Some(7)], {0}, {7}, 0);
    var s6 := State({7}, 0, map[], {0}, {7}, 0);
    assert run[..6][..5] == run[..5] && run[..5][..4] == run[..4] && run[..4][..3] == run[..3];
    assert run[..3][..2] == run[..2] && run[..2][..1] == run[..1] && run[..1][..0] == [];
    assert RunFrom(run[..1], 1) == Next(START, Initialize(0), 1) == Some(s1);
    assert RunFrom(run[..2], 1) == Next(s1, CleanUp(0), 1) == Some(s1);
    assert s1.pending - {0} == map[];
    assert RunFrom(run[..3], 1) == Next(s1, Fail(0), 1) == Some(s3);
    assert RunFrom(run[..4], 1) == Next(s3, Initialize(1), 1) == Some(s4);
    assert {} + {7} == {7} && s4.pending[1 := Some(7)] == map[1 := Some(7)];
    assert Next(s4, Register(1, 7), 1) == Some(s5);
    assert RunFrom(run[..5], 1) == Next(s4, Register(1, 7), 1) == Some(s5);
    assert s5.pending - {1} == map[];
    assert RunFrom(run[..6], 1) == Next(s5, Succeed(1), 1) == Some(s6);
  }

  // ---- Which sessions are live ----

  /** The action ends session `id`: it is closed, or the failed request that registered it is cleaned up. */
  predicate Ends(s: State, a: Action, id: SessionId)
  {
    match a
    case Close(i) => i == id
    case CleanUp(r) => Get(s.pending, r) == Some(Some(id))
    case _ => false
  }

  predicate Opens(a: Action, id: SessionId)
  {
    a.Register? && a.id == id
  }

  /** Some action registered session `id` and none after it ended it. */
  ghost predicate Survives(actions: seq<Action>, cap: nat, id: SessionId)
  {
    exists j :: 0 <= j < |actions| && Opens(actions[j], id) && NotEnded(actions, cap, j, id)
  }

  ghost predicate NotEnded(actions: seq<Action>, cap: nat, j: int, id: SessionId)
    requires 0 <= j
  {
    forall k :: j < k < |actions| ==>
      RunFrom(actions[..k], cap).Some? && !Ends(RunFrom(actions[..k], cap).value, actions[k], id)
  }

  lemma StepLives(s: State, a: Action, cap: nat, id: SessionId)
    requires Next(s, a, cap).Some?
    ensures id in Next(s, a, cap).value.sessions <==> Opens(a, id) || (id in s.sessions && !Ends(s, a, id))
  {
  }

  lemma NotEndedMore(actions: seq<Action>, cap: nat, j: nat, id: SessionId)
    requires actions != [] && j < |actions| - 1 && RunFrom(actions, cap).Some?
    ensures var init := actions[..|actions| - 1];
            && RunFrom(init, cap).Some?
            && (NotEnded(actions, cap, j, id) <==>
                NotEnded(init, cap, j, id) && !Ends(RunFrom(init, cap).value, actions[|actions| - 1], id))
  {
    hide Next, Ends;
    var init := actions[..|actions| - 1];
    assert forall k :: 0 <= k <= |init| ==> init[..k] == actions[..k];
  }

  lemma SurvivesMore(actions: seq<Action>, cap: nat, id: SessionId)
    requires actions != [] && RunFrom(actions, cap).Some?
    ensures var init, last := actions[..|actions| - 1], actions[|actions| - 1];
            && RunFrom(init, cap).Some?
            && (Survives(actions, cap, id) <==>
                Opens(last, id) || (Survives(init, cap, id) && !Ends(RunFrom(init, cap).value, last, id)))
  {
    hide Next, Ends, RunFrom, NotEnded, Opens;
    RunsBefore(actions, cap);
    var init, n := actions[..|actions| - 1], |actions| - 1;
    forall j: nat | j < n
      ensures init[j] == actions[j]
      ensures NotEnded(actions, cap, j, id) <==>
              NotEnded(init, cap, j, id) && !Ends(RunFrom(init, cap).value, actions[n], id)
    {
      NotEndedMore(actions, cap, j, id);
    }
    LastIsNotEnded(actions, cap, id);
    if Survives(init, cap, id) {
      var j :| 0 <= j < |init| && Opens(init[j], id) && NotEnded(init, cap, j, id);
      assert Opens(actions[j], id);
    }
    if Survives(actions, cap, id) {
      var j :| 0 <= j < |actions| && Opens(actions[j], id) && NotEnded(actions, cap, j, id);
      assert j < n ==> Opens(init[j], id);
    }
  }

  lemma RunsBefore(actions: seq<Action>, cap: nat)
    requires actions != [] && RunFrom(actions, cap).Some?
    ensures RunFrom(actions[..|actions| - 1], cap).Some?
  {
  }

  lemma LastIsNotEnded(actions: seq<Action>, cap: nat, id: SessionId)
    requires actions != []
    ensures NotEnded(actions, cap, |actions| - 1, id)
  {
  }

  /**
   In every run exactly those sessions are live that were registered and since then neither closed nor cleaned up
   with the request that registered them.
   */
  lemma {:induction false} LiveIff(actions: seq<Action>, cap: nat, id: SessionId)
    requires RunFrom(actions, cap).Some?
    ensures id in RunFrom(actions, cap).value.sessions <==> Survives(actions, cap, id)
  {
    hide Next, Survives, Ends, Opens;
    if actions == [] {
      NothingSurvives(cap, id);
    } else {
      var init, last := actions[..|actions| - 1], actions[|actions| - 1];
      LiveIff(init, cap, id);
      SurvivesMore(actions, cap, id);
      StepLives(RunFrom(init, cap).value, last, cap, id);
    }
  }

  lemma NothingSurvives(cap: nat, id: SessionId)
    ensures !Survives([], cap, id)
  {
  }

  /** The session that a failed request had registered when it was cleaned up is not live, then or ever after. */
  lemma CleanedUpIsGone(actions: seq<Action>, cap: nat, i: nat, id: SessionId)
    requires RunFrom(actions, cap).Some? && i < |actions| && actions[i].CleanUp?
    requires RunFrom(actions[..i], cap).Some?
    requires Get(RunFrom(actions[..i], cap).value.pending, actions[i].r) == Some(Some(id))
    ensures id !in RunFrom(actions, cap).value.sessions
    decreases |actions|
  {
    hide Next, Inv, Registered;
    var init, last := actions[..|actions| - 1], actions[|actions| - 1];
    RunsBefore(actions, cap);
    var s := RunFrom(init, cap).value;
    StepLives(s, last, cap, id);
    ReachableInv(init, cap);
    if i == |init| {
      assert Ends(s, last, id);
    } else {
      assert init[..i] == actions[..i];
      CleanedUpIsGone(init, cap, i, id);
      StaysUsed(init, cap, i, id);
      NotOpenedAgain(s, last, cap, id);
    }
  }

  lemma NotOpenedAgain(s: State, a: Action, cap: nat, id: SessionId)
    requires Next(s, a, cap).Some? && id in s.used
    ensures !Opens(a, id) && id in Next(s, a, cap).value.used
  {
  }

  lemma {:induction false} StaysUsed(actions: seq<Action>, cap: nat, i: nat, id: SessionId)
    requires RunFrom(actions, cap).Some? && i <= |actions| && RunFrom(actions[..i], cap).Some?
    requires exists r :: Get(RunFrom(actions[..i], cap).value.pending, r) == Some(Some(id))
    ensures id in RunFrom(actions, cap).value.used
  {
    hide Next;
    if i == |actions| {
      assert actions[..i] == actions;
      ReachableInv(actions, cap);
      PendingIsUsed(RunFrom(actions, cap).value, cap, id);
    } else {
      RunsBefore(actions, cap);
      var init := actions[..|actions| - 1];
      assert init[..i] == actions[..i];
      StaysUsed(init, cap, i, id);
      NotOpenedAgain(RunFrom(init, cap).value, actions[|actions| - 1], cap, id);
    }
  }

  lemma PendingIsUsed(s: State, cap: nat, id: SessionId)
    requires Inv(s, cap) && exists r :: Get(s.pending, r) == Some(Some(id))
    ensures id in s.used
  {
    var r :| Get(s.pending, r) == Some(Some(id));
    assert s.pending[r].Some? && s.pending[r].value in Registered(s);
  }

  /** But a request still running while it is cleaned up can register its session then, and that one stays. */
  lemma RegistrationOutlivesCleanUp()
    ensures var s := RunFrom([Initialize(0), CleanUp(0), Register(0, 7), Fail(0)], 1);
            s.Some? && s.value.sessions == {7} && s.value.initializations == 0
  {
    var a4 := [Initialize(0), CleanUp(0), Register(0, 7), Fail(0)];
    var a3, a2, a1 := a4[..3], a4[..2], a4[..1];
    assert a3[..2] == a2 && a2[..1] == a1 && a1[..0] == [];
    var s1 := State({}, 1, map[0 := None], {}, {}, 0);
    assert RunFrom(a1, 1) == Some(s1);
    assert RunFrom(a2, 1) == Some(s1);
    var s3 := State({7}, 1, map[0 := Some(7)], {}, {7}, 0);
    assert map[0 := None][0 := Some(7)] == map[0 := Some(7)];
    assert RunFrom(a3, 1) == Some(s3);
    assert map[0 := Some(7)] - {0} == map[];
  }
}
