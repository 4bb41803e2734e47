/**
 The write chain of `NodeDevice`: every mutation of a store queues a snapshot of it, and snapshots reach the
 disk one at a time through a temporary file and a rename. Any file operation may fail and the process may
 stop between any two of them.
 */
module WriteChain {
  import opened Basics

  datatype Store = Storage | Keychain | Database

  type Contents = map<string, string>  // the entries of a store; a value is its JSON text

  /** One value per store: the memory of the device, or its three files. */
  datatype Stores = Stores(storage: Contents, keychain: Contents, database: Contents) {
    function Of(f: Store): Contents
    {
      match f case Storage => storage case Keychain => keychain case Database => database
    }

    function With(f: Store, c: Contents): (s: Stores)
      ensures forall g :: s.Of(g) == if g == f then c else Of(g)
    {
      match f
      case Storage => this.(storage := c)
      case Keychain => this.(keychain := c)
      case Database => this.(database := c)
    }
  }

  /** A queued `doWrite(name, data)`; `data` was serialized when it was queued. */
  datatype Write = Write(store: Store, data: Contents)

  /** Where the write at the head of the chain is suspended. */
  datatype Stage = Idle | WritingTemp | Renaming | SettingMode | CleaningUp

  /** The name of a temporary file: the file it is for, and a number. */
  datatype TempFile = TempFile(store: Store, number: nat)

  /**
   `writes` are all writes since the files were loaded, `done` of them settled; `landed` are those whose rename
   took effect, `rejected` those whose promise rejected. `temps` are the temporary files, `None` if one may be incomplete.
   */
  datatype State = State(
    memory: Stores,
    writes: seq<Write>,
    done: nat,
    stage: Stage,
    writeSeq: nat,
    temps: map<TempFile, Option<Contents>>,
    disk: Stores,
    loaded: Stores,
    landed: seq<nat>,
    rejected: seq<nat>)

  function Load(disk: Stores, temps: map<TempFile, Option<Contents>>): State
  {
    State(disk, [], 0, Idle, 0, temps, disk, disk, [], [])
  }

  datatype Action =
    | Mutate(store: Store, contents: Contents)
    | BeginWrite
    | TempWritten(ok: bool)
    | Renamed(ok: bool)
    | ModeSet(ok: bool)
    | CleanedUp(ok: bool)
    | Crash

  /** `writeJson`: the store takes its new contents and their snapshot joins the chain. */
  function Mutated(s: State, f: Store, c: Contents): State
  {
    s.(memory := s.memory.With(f, c), writes := s.writes + [Write(f, c)])
  }

  function Settle(s: State): State
  {
    s.(done := s.done + 1, stage := Idle)
  }

  function Head(s: State): Write
    requires s.done < |s.writes|
  {
    s.writes[s.done]
  }

  /** The temporary file in use: `writeSeq` was incremented when the write began. */
  function Temp(s: State): TempFile
    requires s.writeSeq > 0 && s.done < |s.writes|
  {
    TempFile(Head(s).store, s.writeSeq - 1)
  }

  /** The effect of an action, `None` where it cannot happen. A failed write settles like a successful one. */
  function Next(s: State, a: Action): Option<State>
  {
    match a
    case Mutate(f, c) => Some(Mutated(s, f, c))
    case Crash => Some(Load(s.disk, s.temps))
    case BeginWrite =>
      if s.stage == Idle && s.done < |s.writes| then
        var temp := TempFile(Head(s).store, s.writeSeq);
        Some(s.(stage := WritingTemp, writeSeq := s.writeSeq + 1, temps := s.temps[temp := None]))
      else None
    case TempWritten(ok) =>
      if s.stage == WritingTemp && s.done < |s.writes| && s.writeSeq > 0 then
        Some(s.(temps := s.temps[Temp(s) := if ok then Some(Head(s).data) else None],
                stage := if ok then Renaming else CleaningUp))
      else None
    case Renamed(ok) =>
      if s.stage == Renaming && s.done < |s.writes| && s.writeSeq > 0 && Temp(s) in s.temps && s.temps[Temp(s)].Some? then
        if ok then
          Some(s.(disk := s.disk.With(Head(s).store, s.temps[Temp(s)].value), temps := s.temps - {Temp(s)},
                  landed := s.landed + [s.done], stage := SettingMode))
        else Some(s.(stage := CleaningUp))
      else None
    case ModeSet(ok) =>
      if s.stage == SettingMode then Some(if ok then Settle(s) else s.(stage := CleaningUp)) else None
    case CleanedUp(ok) =>
      if s.stage == CleaningUp && s.done < |s.writes| && s.writeSeq > 0 then
        Some(Settle(s.(rejected := s.rejected + [s.done], temps := if ok then s.temps - {Temp(s)} else s.temps)))
      else None
  }

  function RunFrom(disk: Stores, actions: seq<Action>): Option<State>
  {
    if actions == [] then Some(Load(disk, map[]))
    else
      match RunFrom(disk, actions[..|actions| - 1])
      case None => None
      case Some(s) => Next(s, actions[|actions| - 1])
  }

  // ---- What the disk holds ----

  /** The newest write to `f` among the first `n`, if there is one. */
  function Newest(writes: seq<Write>, f: Store, n: nat): (k: Option<nat>)
    requires n <= |writes|
    ensures k.Some? ==> k.value < n
  {
    if n == 0 then None else if writes[n - 1].store == f then Some(n - 1) else Newest(writes, f, n - 1)
  }

  /** What `f` holds after the given writes took effect in this order. */
  function Replayed(loaded: Stores, writes: seq<Write>, landed: seq<nat>): Stores
    requires forall i :: 0 <= i < |landed| ==> landed[i] < |writes|
  {
    if landed == [] then loaded
    else
      var w := writes[landed[|landed| - 1]];
      Replayed(loaded, writes, landed[..|landed| - 1]).With(w.store, w.data)
  }

  predicate Increasing(landed: seq<nat>)
  {
    forall i, j :: 0 <= i < j < |landed| ==> landed[i] < landed[j]
  }

  ghost predicate Inv(s: State)
  {
    && s.done <= |s.writes|
    && (s.stage != Idle ==> s.done < |s.writes| && s.writeSeq > 0)
    && (s.stage == Renaming ==> Get(s.temps, Temp(s)) == Some(Some(Head(s).data)))
    && Increasing(s.landed)
    && (forall i :: 0 <= i < |s.landed| ==>
          s.landed[i] < |s.writes| && (s.landed[i] < s.done || (s.landed[i] == s.done && s.stage in {SettingMode, CleaningUp})))
    && s.disk == Replayed(s.loaded, s.writes, s.landed)
    && (forall f :: s.memory.Of(f) ==
          match Newest(s.writes, f, |s.writes|) case None => s.loaded.Of(f) case Some(k) => s.writes[k].data)
  }

  lemma {:induction false} ReplayMore(loaded: Stores, writes: seq<Write>, landed: seq<nat>, w: Write)
    requires forall i :: 0 <= i < |landed| ==> landed[i] < |writes|
    ensures Replayed(loaded, writes + [w], landed) == Replayed(loaded, writes, landed)
  {
    if landed != [] {
      ReplayMore(loaded, writes, landed[..|landed| - 1], w);
    }
  }

  lemma {:induction false} NewestMore(writes: seq<Write>, f: Store, n: nat, w: Write)
    requires n <= |writes|
    ensures Newest(writes + [w], f, n) == Newest(writes, f, n)
  {
    if n > 0 {
      NewestMore(writes, f, n - 1, w);
    }
  }

  lemma MutateKeepsInv(s: State, f: Store, c: Contents)
    requires Inv(s)
    ensures Inv(Mutated(s, f, c))
  {
    var t := Mutated(s, f, c);
    ReplayMore(s.loaded, s.writes, s.landed, Write(f, c));
    hide Replayed;
    forall g
      ensures Newest(t.writes, g, |t.writes|) == if g == f then Some(|s.writes|) else Newest(s.writes, g, |s.writes|)
    {
      NewestMore(s.writes, g, |s.writes|, Write(f, c));
    }
  }

  lemma RenameKeepsInv(s: State)
    requires Inv(s) && Next(s, Renamed(true)).Some?
    ensures Inv(Next(s, Renamed(true)).value)
  {
    hide Newest;
    assert (s.landed + [s.done])[..|s.landed|] == s.landed;
  }

  lemma StepKeepsInv(s: State, a: Action)
    requires Inv(s) && Next(s, a).Some?
    ensures Inv(Next(s, a).value)
  {
    if a.Mutate? {
      MutateKeepsInv(s, a.store, a.contents);
    } else if a == Renamed(true) {
      RenameKeepsInv(s);
    } else if a.Crash? {
      LoadInv(s.disk, s.temps);
    } else {
      hide Newest, Replayed;
    }
  }

  lemma {:induction false} ReachableInv(disk: Stores, actions: seq<Action>)
    requires RunFrom(disk, actions).Some?
    ensures Inv(RunFrom(disk, actions).value)
  {
    hide Next, Inv;
    if actions == [] {
      LoadInv(disk, map[]);
    } else {
      ReachableInv(disk, actions[..|actions| - 1]);
      StepKeepsInv(RunFrom(disk, actions[..|actions| - 1]).value, actions[|actions| - 1]);
    }
  }

  lemma LoadInv(disk: Stores, temps: map<TempFile, Option<Contents>>)
    ensures Inv(Load(disk, temps))
  {
  }

  // ---- Durability ----

  /** At some moment of the run the device itself held these contents in this store. */
  ghost predicate Held(disk: Stores, actions: seq<Action>, f: Store, c: Contents)
  {
    exists i :: 0 <= i <= |actions| && HeldAt(disk, actions, i, f, c)
  }

  ghost predicate HeldAt(disk: Stores, actions: seq<Action>, i: nat, f: Store, c: Contents)
    requires i <= |actions|
  {
    RunFrom(disk, actions[..i]).Some? && RunFrom(disk, actions[..i]).value.memory.Of(f) == c
  }

  lemma HeldLonger(disk: Stores, actions: seq<Action>, f: Store, c: Contents)
    requires actions != [] && Held(disk, actions[..|actions| - 1], f, c)
    ensures Held(disk, actions, f, c)
  {
    var init := actions[..|actions| - 1];
    var i :| 0 <= i <= |init| && HeldAt(disk, init, i, f, c);
    assert init[..i] == actions[..i];
    assert HeldAt(disk, actions, i, f, c);
  }

  lemma HeldNow(disk: Stores, actions: seq<Action>, f: Store)
    requires RunFrom(disk, actions).Some?
    ensures Held(disk, actions, f, RunFrom(disk, actions).value.memory.Of(f))
  {
    assert actions[..|actions|] == actions;
    assert HeldAt(disk, actions, |actions|, f, RunFrom(disk, actions).value.memory.Of(f));
  }

  /** The contents of a temporary file that is known to be complete. */
  predicate Complete(s: State, t: TempFile, c: Contents)
  {
    Get(s.temps, t) == Some(Some(c))
  }

  /** Where contents come from in one step: a snapshot is of the memory, and a file changes only to a queued snapshot. */
  lemma Provenance(s: State, a: Action, f: Store)
    requires Inv(s) && Next(s, a).Some?
    ensures var t := Next(s, a).value;
            && (t.disk.Of(f) == s.disk.Of(f) || (s.done < |s.writes| && Head(s) == Write(f, t.disk.Of(f))))
            && |t.writes| <= |s.writes| + 1
            && (forall k :: 0 <= k < |t.writes| && k < |s.writes| ==> t.writes[k] == s.writes[k])
            && (|s.writes| < |t.writes| ==> var w := t.writes[|s.writes|]; w.data == t.memory.Of(w.store))
            && (forall temp: TempFile, c :: temp.store == f && Complete(t, temp, c) ==>
                  Complete(s, temp, c) || (s.done < |s.writes| && Head(s) == Write(f, c)))
  {
    hide Newest, Replayed;
  }

  /**
   Everything queued, in a file or in a complete temporary file was really held by its own store: no torn, mixed or
   invented contents, in memory or after a crash.
   */
  lemma {:induction false} EverythingWasHeld(disk: Stores, actions: seq<Action>)
    requires RunFrom(disk, actions).Some?
    ensures forall f :: Held(disk, actions, f, RunFrom(disk, actions).value.disk.Of(f))
    ensures forall k :: 0 <= k < |RunFrom(disk, actions).value.writes| ==>
              var w := RunFrom(disk, actions).value.writes[k]; Held(disk, actions, w.store, w.data)
    ensures forall t, c :: Complete(RunFrom(disk, actions).value, t, c) ==> Held(disk, actions, t.store, c)
  {
    hide Held, Inv, Next;
    var t := RunFrom(disk, actions).value;
    if actions == [] {
      forall f
        ensures Held(disk, actions, f, t.disk.Of(f))
      {
        HeldNow(disk, actions, f);
      }
    } else {
      var init, a := actions[..|actions| - 1], actions[|actions| - 1];
      var s := RunFrom(disk, init).value;
      EverythingWasHeld(disk, init);
      ReachableInv(disk, init);
      forall f
        ensures Held(disk, actions, f, t.disk.Of(f))
      {
        Provenance(s, a, f);
        HeldLonger(disk, actions, f, t.disk.Of(f));
      }
      forall k | 0 <= k < |t.writes|
        ensures Held(disk, actions, t.writes[k].store, t.writes[k].data)
      {
        Provenance(s, a, t.writes[k].store);
        if k < |s.writes| {
          HeldLonger(disk, actions, t.writes[k].store, t.writes[k].data);
        } else {
          HeldNow(disk, actions, t.writes[k].store);
        }
      }
      forall temp, c | Complete(t, temp, c)
        ensures Held(disk, actions, temp.store, c)
      {
        Provenance(s, a, temp.store);
        assert Complete(s, temp, c) || (s.done < |s.writes| && s.writes[s.done] == Write(temp.store, c));
        HeldLonger(disk, actions, temp.store, c);
      }
    }
  }

  /** A crash loses at most what had not landed: the device restarts with contents each store really held. */
  lemma RestartsFromHeld(disk: Stores, actions: seq<Action>, f: Store)
    requires RunFrom(disk, actions).Some?
    ensures RunFrom(disk, actions + [Crash]).Some?
    ensures Held(disk, actions, f, RunFrom(disk, actions + [Crash]).value.memory.Of(f))
  {
    assert (actions + [Crash])[..|actions|] == actions;
    EverythingWasHeld(disk, actions);
  }

  /** Snapshots land in the order they were queued, each at most once, and the disk is what they leave. */
  lemma LandsInOrder(disk: Stores, actions: seq<Action>)
    requires RunFrom(disk, actions).Some?
    ensures var s := RunFrom(disk, actions).value;
            && (forall i, j :: 0 <= i < j < |s.landed| ==> s.landed[i] < s.landed[j])
            && (forall i :: 0 <= i < |s.landed| ==> s.landed[i] < |s.writes| && s.landed[i] <= s.done)
            && s.disk == Replayed(s.loaded, s.writes, s.landed)
  {
    ReachableInv(disk, actions);
  }

  lemma {:induction false} ReplayEndsWith(loaded: Stores, writes: seq<Write>, landed: seq<nat>, f: Store, k: nat)
    requires Increasing(landed) && forall i :: 0 <= i < |landed| ==> landed[i] < |writes|
    requires k in landed && Newest(writes, f, |writes|) == Some(k)
    ensures k < |writes| && Replayed(loaded, writes, landed).Of(f) == writes[k].data
  {
    var last := landed[|landed| - 1];
    NewestIs(writes, f, |writes|, k);
    if last != k {
      var init := landed[..|landed| - 1];
      assert k in init by { var i :| 0 <= i < |landed| && landed[i] == k; assert init[i] == k; }
      assert last > k by { var i :| 0 <= i < |init| && init[i] == k; assert landed[i] < landed[|landed| - 1]; }
      ReplayEndsWith(loaded, writes, init, f, k);
    }
  }

  lemma {:induction false} NewestIs(writes: seq<Write>, f: Store, n: nat, k: nat)
    requires n <= |writes| && Newest(writes, f, n) == Some(k)
    ensures k < n && writes[k].store == f && forall i :: k < i < n ==> writes[i].store != f
  {
    if n > 0 && writes[n - 1].store != f {
      NewestIs(writes, f, n - 1, k);
    }
  }

  /**
   Once the newest write to a store has landed, the file equals the memory, whatever failed before or is still
   queued for other stores. In particular this holds for every such store when the queue has drained.
   */
  lemma NewestLandedMeansDurable(disk: Stores, actions: seq<Action>, f: Store)
    requires RunFrom(disk, actions).Some?
    requires var s := RunFrom(disk, actions).value;
             match Newest(s.writes, f, |s.writes|) case None => true case Some(k) => k in s.landed
    ensures RunFrom(disk, actions).value.disk.Of(f) == RunFrom(disk, actions).value.memory.Of(f)
  {
    ReachableInv(disk, actions);
    var s := RunFrom(disk, actions).value;
    match Newest(s.writes, f, |s.writes|)
    case None => ReplayKeeps(s.loaded, s.writes, s.landed, f);
    case Some(k) => ReplayEndsWith(s.loaded, s.writes, s.landed, f, k);
  }

  lemma {:induction false} ReplayKeeps(loaded: Stores, writes: seq<Write>, landed: seq<nat>, f: Store)
    requires forall i :: 0 <= i < |landed| ==> landed[i] < |writes|
    requires Newest(writes, f, |writes|) == None
    ensures Replayed(loaded, writes, landed).Of(f) == loaded.Of(f)
  {
    if landed != [] {
      NoneNewest(writes, f, |writes|, landed[|landed| - 1]);
      ReplayKeeps(loaded, writes, landed[..|landed| - 1], f);
    }
  }

  lemma {:induction false} NoneNewest(writes: seq<Write>, f: Store, n: nat, k: nat)
    requires k < n <= |writes| && Newest(writes, f, n) == None
    ensures writes[k].store != f
  {
    if k < n - 1 {
      NoneNewest(writes, f, n - 1, k);
    }
  }

  /** Failures never block the chain: while writes are queued some step is possible, and only `Mutate` adds work. */
  lemma ChainAdvances(disk: Stores, actions: seq<Action>)
    requires RunFrom(disk, actions).Some?
    requires RunFrom(disk, actions).value.done < |RunFrom(disk, actions).value.writes|
    ensures var s := RunFrom(disk, actions).value;
            exists a: Action :: !a.Mutate? && !a.Crash? && Next(s, a).Some? && Remaining(Next(s, a).value) < Remaining(s)
    ensures var s := RunFrom(disk, actions).value;
            forall a: Action :: !a.Mutate? && !a.Crash? && Next(s, a).Some? ==> 0 <= Remaining(Next(s, a).value) < Remaining(s)
  {
    hide *;
    ReachableInv(disk, actions);
    var s := RunFrom(disk, actions).value;
    var a := SomeStep(s);
    StepsRemain(s, a);
    forall b: Action | !b.Mutate? && !b.Crash? && Next(s, b).Some?
      ensures 0 <= Remaining(Next(s, b).value) < Remaining(s)
    {
      StepsRemain(s, b);
    }
  }

  /** The writes begun since the files were loaded. */
  function Begun(actions: seq<Action>): nat
  {
    if actions == [] then 0
    else
      var before := Begun(actions[..|actions| - 1]);
      match actions[|actions| - 1] case Crash => 0 case BeginWrite => before + 1 case _ => before
  }

  /** Writes run one at a time in queue order: the next one begins as soon as all before it settled, however they did. */
  lemma {:induction false} WritesRunOneByOne(disk: Stores, actions: seq<Action>)
    requires RunFrom(disk, actions).Some?
    ensures var s := RunFrom(disk, actions).value;
            && s.done <= Begun(actions) <= s.done + 1
            && (Next(s, BeginWrite).Some? <==> Begun(actions) == s.done < |s.writes|)
            && (Begun(actions) == s.done <==> s.stage == Idle)
  {
    if actions != [] {
      WritesRunOneByOne(disk, actions[..|actions| - 1]);
    }
  }

  /** The writes whose file operations failed since the files were loaded. */
  function Failures(actions: seq<Action>): nat
  {
    if actions == [] then 0
    else
      var before := Failures(actions[..|actions| - 1]);
      match actions[|actions| - 1]
      case Crash => 0
      case TempWritten(ok) => if ok then before else before + 1
      case Renamed(ok) => if ok then before else before + 1
      case ModeSet(ok) => if ok then before else before + 1
      case _ => before
  }

  /** The part of the invariant that concerns promises: the head may have landed, all before it that resolved have. */
  ghost predicate Promised(s: State, failures: nat)
  {
    && |s.rejected| == failures - (if s.stage == CleaningUp then 1 else 0)
    && (forall i, j :: 0 <= i < j < |s.rejected| ==> s.rejected[i] < s.rejected[j])
    && (forall i :: 0 <= i < |s.rejected| ==> s.rejected[i] < s.done)
    && (forall k :: 0 <= k < s.done && k !in s.rejected ==> k in s.landed)
    && (s.stage == SettingMode ==> s.done in s.landed)
  }

  lemma StepPromised(s: State, a: Action, failures: nat)
    requires Next(s, a).Some? && Promised(s, failures)
    ensures Promised(Next(s, a).value,
                     if a.Crash? then 0
                     else if a == TempWritten(false) || a == Renamed(false) || a == ModeSet(false) then failures + 1
                     else failures)
  {
  }

  /**
   A promise rejects for each write of which a file operation failed, one for one, and whoever's promise resolved has
   the snapshot in the file, or a later one of that store.
   */
  lemma {:induction false} ResolvedHasLanded(disk: Stores, actions: seq<Action>)
    requires RunFrom(disk, actions).Some?
    ensures Promised(RunFrom(disk, actions).value, Failures(actions))
    ensures var s := RunFrom(disk, actions).value;
            && |s.rejected| == Failures(actions) - (if s.stage == CleaningUp then 1 else 0)
            && forall k :: 0 <= k < s.done && k !in s.rejected ==> k in s.landed
  {
    hide Promised, Next;
    if actions == [] {
      NothingPromised(disk);
    } else {
      ResolvedHasLanded(disk, actions[..|actions| - 1]);
      StepPromised(RunFrom(disk, actions[..|actions| - 1]).value, actions[|actions| - 1], Failures(actions[..|actions| - 1]));
    }
    PromisedMeans(RunFrom(disk, actions).value, Failures(actions));
  }

  lemma NothingPromised(disk: Stores)
    ensures Promised(Load(disk, map[]), 0)
  {
  }

  lemma PromisedMeans(s: State, failures: nat)
    requires Promised(s, failures)
    ensures |s.rejected| == failures - (if s.stage == CleaningUp then 1 else 0)
    ensures forall k :: 0 <= k < s.done && k !in s.rejected ==> k in s.landed
  {
  }

  /** No crash, and every clean-up removed its file. */
  predicate Tidy(actions: seq<Action>)
  {
    forall i :: 0 <= i < |actions| ==> actions[i] != Crash && actions[i] != CleanedUp(false)
  }

  /** The only temporary file is the one of the write under way, numbered by the writes begun before it. */
  ghost predicate OnlyOwn(s: State, begun: nat)
  {
    match s.stage
    case Idle => s.temps == map[]
    case SettingMode => s.temps == map[] && s.done < |s.writes| && begun > 0
    case _ =>
      && s.done < |s.writes| && begun > 0
      && var own := TempFile(s.writes[s.done].store, begun - 1);
         s.temps.Keys == {own} || (s.stage == CleaningUp && s.temps == map[])
  }

  lemma StepOwns(s: State, a: Action)
    requires Next(s, a).Some? && OnlyOwn(s, s.writeSeq) && a != Crash && a != CleanedUp(false)
    ensures OnlyOwn(Next(s, a).value, Next(s, a).value.writeSeq)
  {
    var t := Next(s, a).value;
    if a.TempWritten? || a.Renamed? || a.CleanedUp? {
      var own := TempFile(s.writes[s.done].store, s.writeSeq - 1);
      assert own == Temp(s);
      assert s.temps - {own} == map[];
      assert a.TempWritten? ==> t.temps.Keys == s.temps.Keys + {own};
    }
  }

  /**
   Temporary files are numbered by the writes begun, so no two writes share one; while no clean-up fails there is at
   most the one of the write under way, and none between writes.
   */
  lemma {:induction false} TempFiles(disk: Stores, actions: seq<Action>)
    requires RunFrom(disk, actions).Some?
    ensures RunFrom(disk, actions).value.writeSeq == Begun(actions)
    ensures Tidy(actions) ==> OnlyOwn(RunFrom(disk, actions).value, Begun(actions))
  {
    hide Next, OnlyOwn;
    if actions == [] {
      NoTemps(disk);
    } else {
      var init, a := actions[..|actions| - 1], actions[|actions| - 1];
      TempFiles(disk, init);
      StepNumbers(RunFrom(disk, init).value, a);
      if Tidy(actions) {
        TidyBefore(actions);
        StepOwns(RunFrom(disk, init).value, a);
      }
    }
  }

  lemma NoTemps(disk: Stores)
    ensures OnlyOwn(Load(disk, map[]), 0)
  {
  }

  lemma StepNumbers(s: State, a: Action)
    requires Next(s, a).Some?
    ensures Next(s, a).value.writeSeq == match a case Crash => 0 case BeginWrite => s.writeSeq + 1 case _ => s.writeSeq
  {
  }

  lemma TidyBefore(actions: seq<Action>)
    requires actions != [] && Tidy(actions)
    ensures Tidy(actions[..|actions| - 1]) && actions[|actions| - 1] != Crash && actions[|actions| - 1] != CleanedUp(false)
  {
  }

  lemma SomeStep(s: State) returns (a: Action)
    requires Inv(s) && s.done < |s.writes|
    ensures !a.Mutate? && !a.Crash? && Next(s, a).Some?
  {
    a := match s.stage
      case Idle => BeginWrite
      case WritingTemp => TempWritten(false)
      case Renaming => Renamed(false)
      case SettingMode => ModeSet(false)
      case CleaningUp => CleanedUp(false);
  }

  lemma StepsRemain(s: State, a: Action)
    requires Inv(s) && !a.Mutate? && !a.Crash? && Next(s, a).Some?
    ensures 0 <= Remaining(Next(s, a).value) < Remaining(s)
  {
    hide Replayed, Newest, Increasing;
  }

  /** The file operations left, at most five per queued write. */
  function Remaining(s: State): int
  {
    5 * (|s.writes| - s.done)
    - match s.stage case Idle => 0 case WritingTemp => 1 case Renaming => 2 case SettingMode => 3 case CleaningUp => 4
  }
}
