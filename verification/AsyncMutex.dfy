/**
 `AsyncMutex`: a lock made of a chain of promises. Each call leaves its own promise as the new tail and waits
 for the one it found there; it is shown to be a first-in first-out lock.
 */
module AsyncMutex {
  import opened Basics

  type Promise = nat  // 0 is the resolved promise the chain starts with

  datatype Phase = Waiting | Running | Settled(threw: bool)

  /** One call of `runExclusive`: the promise it awaits and the promise its `release` resolves. */
  datatype Ticket = Ticket(previous: Promise, turn: Promise, phase: Phase)

  datatype Gate = Gate(tail: Promise, resolved: set<Promise>, tickets: seq<Ticket>)

  const OPEN: Gate := Gate(0, {0}, [])

  datatype Action = Call | Resume(k: nat) | Settle(k: nat, threw: bool)

  function SetPhase(g: Gate, k: nat, phase: Phase): Gate
    requires k < |g.tickets|
  {
    g.(tickets := g.tickets[k := g.tickets[k].(phase := phase)])
  }

  /** The effect of an action, `None` where it cannot happen. A new promise is one never used before. */
  function Next(g: Gate, a: Action): Option<Gate>
  {
    match a
    case Call =>
      var turn := |g.tickets| + 1;
      Some(Gate(turn, g.resolved, g.tickets + [Ticket(g.tail, turn, Waiting)]))
    case Resume(k) =>
      if k < |g.tickets| && g.tickets[k].phase == Waiting && g.tickets[k].previous in g.resolved
      then Some(SetPhase(g, k, Running)) else None
    case Settle(k, threw) =>
      if k < |g.tickets| && g.tickets[k].phase == Running
      then Some(SetPhase(g, k, Settled(threw)).(resolved := g.resolved + {g.tickets[k].turn})) else None
  }

  /** Calls settle strictly in order: before `served` all are settled, after it all are waiting. */
  ghost predicate Inv(g: Gate, served: nat)
  {
    && served <= |g.tickets|
    && g.tail == |g.tickets|
    && (forall k :: 0 <= k < |g.tickets| ==> g.tickets[k].previous == k && g.tickets[k].turn == k + 1)
    && (forall k :: 0 <= k < served ==> g.tickets[k].phase.Settled?)
    && (forall k :: served < k < |g.tickets| ==> g.tickets[k].phase == Waiting)
    && (served < |g.tickets| ==> !g.tickets[served].phase.Settled?)
    && (forall p :: p in g.resolved <==> 0 <= p <= served)
  }

  function Served(g: Gate): nat
  {
    Leading(g.tickets)
  }

  function Leading(tickets: seq<Ticket>): (n: nat)
    ensures n <= |tickets|
    ensures forall k :: 0 <= k < n ==> tickets[k].phase.Settled?
    ensures n < |tickets| ==> !tickets[n].phase.Settled?
  {
    if tickets != [] && tickets[0].phase.Settled? then 1 + Leading(tickets[1..]) else 0
  }

  lemma StepKeepsInv(g: Gate, a: Action, served: nat)
    requires Inv(g, served) && Next(g, a).Some?
    ensures Inv(Next(g, a).value, if a.Settle? then served + 1 else served)
  {
  }

  function RunFrom(actions: seq<Action>): Option<Gate>
  {
    if actions == [] then Some(OPEN)
    else
      match RunFrom(actions[..|actions| - 1])
      case None => None
      case Some(g) => Next(g, actions[|actions| - 1])
  }

  lemma {:induction false} ReachableInv(actions: seq<Action>)
    requires RunFrom(actions).Some?
    ensures Inv(RunFrom(actions).value, Served(RunFrom(actions).value))
  {
    if actions != [] {
      var g := RunFrom(actions[..|actions| - 1]).value;
      ReachableInv(actions[..|actions| - 1]);
      StepKeepsInv(g, actions[|actions| - 1], Served(g));
    }
  }

  // ---- The lock it implements ----

  /** A plain queue lock: calls in order of arrival, of which the first may be holding the lock. */
  datatype Lock = Lock(queue: seq<nat>, held: bool)

  ghost predicate LockStep(before: Lock, a: Action, id: nat, after: Lock)
  {
    match a
    case Call => after == before.(queue := before.queue + [id])
    case Resume(k) => !before.held && before.queue != [] && before.queue[0] == k && after == before.(held := true)
    case Settle(k, _) =>
      before.held && before.queue != [] && before.queue[0] == k && after == Lock(before.queue[1..], false)
  }

  ghost predicate ValidLock(l: Lock)
  {
    l.held ==> l.queue != []
  }

  ghost function Abstract(g: Gate): Lock
  {
    LockAt(g, Served(g))
  }

  ghost function LockAt(g: Gate, served: nat): Lock
    requires served <= |g.tickets|
  {
    Lock(seq(|g.tickets| - served, i requires 0 <= i < |g.tickets| - served => served + i),
         served < |g.tickets| && g.tickets[served].phase == Running)
  }

  lemma StepRefines(g: Gate, served: nat, a: Action)
    requires Inv(g, served) && Next(g, a).Some?
    ensures var h, later := Next(g, a).value, if a.Settle? then served + 1 else served;
            Inv(h, later) && LockStep(LockAt(g, served), a, |g.tickets|, LockAt(h, later))
  {
    StepKeepsInv(g, a, served);
    var l, later := LockAt(Next(g, a).value, if a.Settle? then served + 1 else served), LockAt(g, served);
    match a
    case Call => assert l.queue == later.queue + [|g.tickets|];
    case Resume(k) => assert l.queue == later.queue;
    case Settle(k, _) => assert l.queue == later.queue[1..];
  }

  lemma LockAllows(g: Gate, served: nat, a: Action, after: Lock)
    requires Inv(g, served) && LockStep(LockAt(g, served), a, |g.tickets|, after)
    ensures Next(g, a).Some?
  {
    if !a.Call? {
      assert LockAt(g, served).queue[0] == served == a.k;
    }
  }

  /** Every action of every run is the same action of the queue lock, and is possible exactly when that is. */
  lemma RefinesLock(actions: seq<Action>, a: Action)
    requires RunFrom(actions).Some?
    ensures var g := RunFrom(actions).value;
            && ValidLock(Abstract(g))
            && (Next(g, a).Some? <==> exists after :: LockStep(Abstract(g), a, |g.tickets|, after))
            && (Next(g, a).Some? ==> LockStep(Abstract(g), a, |g.tickets|, Abstract(Next(g, a).value)))
  {
    var g := RunFrom(actions).value;
    ReachableInv(actions);
    hide Inv, LockStep, Next, Served;
    if Next(g, a).Some? {
      StepRefines(g, Served(g), a);
      LeadingIs(Next(g, a).value, if a.Settle? then Served(g) + 1 else Served(g));
    }
    if after :| LockStep(Abstract(g), a, |g.tickets|, after) {
      LockAllows(g, Served(g), a, after);
    }
  }

  lemma LeadingIs(g: Gate, served: nat)
    requires Inv(g, served)
    ensures Served(g) == served
  {
  }

  /** Over every run: one operation at a time, started in the order of the calls. */
  lemma MutualExclusion(actions: seq<Action>, i: nat, j: nat)
    requires RunFrom(actions).Some?
    requires i < j < |RunFrom(actions).value.tickets|
    ensures var t := RunFrom(actions).value.tickets;
            !t[j].phase.Waiting? ==> t[i].phase.Settled?
  {
    ReachableInv(actions);
  }

  /** Calls ahead of `k` that have not settled, by return or by throwing. */
  function HoldersAhead(tickets: seq<Ticket>, k: nat): nat
    requires k <= |tickets|
  {
    if k == 0 then 0
    else HoldersAhead(tickets, k - 1) + (if tickets[k - 1].phase.Settled? then 0 else 1)
  }

  lemma {:induction false} AheadOf(g: Gate, served: nat, k: nat)
    requires Inv(g, served) && k <= |g.tickets|
    ensures HoldersAhead(g.tickets, k) == if k <= served then 0 else k - served
  {
    if k > 0 {
      AheadOf(g, served, k - 1);
    }
  }

  /**
   A waiter can start if and only if nobody ahead is unsettled; each settling, whatever its outcome, brings every
   later waiter one closer; and while anyone is unsettled, some operation can start or is running.
   */
  lemma EveryWaiterAdvances(actions: seq<Action>, k: nat)
    requires RunFrom(actions).Some? && k < |RunFrom(actions).value.tickets|
    requires RunFrom(actions).value.tickets[k].phase == Waiting
    ensures var g := RunFrom(actions).value;
            && (Next(g, Resume(k)).Some? <==> HoldersAhead(g.tickets, k) == 0)
            && (HoldersAhead(g.tickets, k) > 0 ==>
                  Next(g, Resume(Served(g))).Some? || g.tickets[Served(g)].phase == Running)
            && forall i, threw :: Next(g, Settle(i, threw)).Some? ==>
                 HoldersAhead(Next(g, Settle(i, threw)).value.tickets, k) + 1 == HoldersAhead(g.tickets, k)
  {
    var g := RunFrom(actions).value;
    ReachableInv(actions);
    AheadOf(g, Served(g), k);
    forall i, threw | Next(g, Settle(i, threw)).Some?
      ensures HoldersAhead(Next(g, Settle(i, threw)).value.tickets, k) + 1 == HoldersAhead(g.tickets, k)
    {
      StepKeepsInv(g, Settle(i, threw), Served(g));
      AheadOf(Next(g, Settle(i, threw)).value, Served(g) + 1, k);
    }
  }

  // ---- The class ----

  /** `tail` is the object's only field; `resolved` and `tickets` are the promises and suspended calls it shares. */
  class Mutex {
    var tail: Promise
    var resolved: set<Promise>
    var tickets: seq<Ticket>

    ghost function State(): Gate
      reads this
    {
      Gate(tail, resolved, tickets)
    }

    constructor ()
      ensures State() == OPEN
    {
      tail, resolved, tickets := 0, {0}, [];
    }

    /** `runExclusive` up to its first `await`. */
    method Begin() returns (k: nat)
      modifies this
      ensures Some(State()) == Next(old(State()), Call) && k == |old(tickets)|
    {
      k := |tickets|;
      var turn := |tickets| + 1;
      var previous := tail;
      tail := turn;
      tickets := tickets + [Ticket(previous, turn, Waiting)];
    }

    /** The continuation after `await previous`: the operation starts. */
    method Continue(k: nat)
      requires Next(State(), Resume(k)).Some?
      modifies this`tickets
      ensures Some(State()) == Next(old(State()), Resume(k))
    {
      tickets := tickets[k := tickets[k].(phase := Running)];
    }

    /** The `finally` block, reached by returning and by throwing alike. */
    method Release(k: nat, threw: bool)
      requires Next(State(), Settle(k, threw)).Some?
      modifies this`tickets, this`resolved
      ensures Some(State()) == Next(old(State()), Settle(k, threw))
    {
      resolved := resolved + {tickets[k].turn};
      tickets := tickets[k := tickets[k].(phase := Settled(threw))];
    }
  }
}
