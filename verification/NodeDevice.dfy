/** The mutators of `NodeDevice`, each tied to one `Mutate` of module `WriteChain`, and its load chunks. */
module NodeDevice {
  import opened Basics
  import opened WriteChain

  /** `key.includes(part)` */
  predicate Includes(key: string, part: string)
  {
    part <= key || (key != "" && Includes(key[1..], part))
  }

  predicate HoldsAt(key: string, part: string, i: nat)
  {
    i + |part| <= |key| && key[i..i + |part|] == part
  }

  /** Somewhere in the key, and not only at its beginning. */
  lemma {:induction false} IncludesIff(key: string, part: string)
    ensures Includes(key, part) <==> exists i: nat :: HoldsAt(key, part, i)
  {
    if part <= key {
      assert HoldsAt(key, part, 0);
    } else if key != "" {
      var tail := key[1..];
      IncludesIff(tail, part);
      forall i: nat | i < |key|
        ensures HoldsAt(tail, part, i) <==> HoldsAt(key, part, i + 1)
      {
        if i + |part| <= |tail| {
          assert tail[i..i + |part|] == key[i + 1..i + 1 + |part|];
        }
      }
      if i: nat :| HoldsAt(key, part, i) {
        assert i > 0 && HoldsAt(tail, part, i - 1);
      }
    }
  }

  datatype Payload = Payload(uuid: string, json: string)

  /** `db.set` for each payload in turn: the last payload of a uuid wins. */
  function Saved(db: Contents, payloads: seq<Payload>): Contents
  {
    if payloads == [] then db
    else
      var last := payloads[|payloads| - 1];
      Saved(db, payloads[..|payloads| - 1])[last.uuid := last.json]
  }

  lemma {:induction false} SavedIff(db: Contents, payloads: seq<Payload>, uuid: string)
    ensures match LastOf(payloads, uuid)
            case None => Get(Saved(db, payloads), uuid) == Get(db, uuid)
            case Some(k) => Get(Saved(db, payloads), uuid) == Some(payloads[k].json)
  {
    if payloads != [] {
      SavedIff(db, payloads[..|payloads| - 1], uuid);
    }
  }

  function LastOf(payloads: seq<Payload>, uuid: string): (k: Option<nat>)
    ensures k.Some? ==> k.value < |payloads|
    ensures match k
            case None => forall i :: 0 <= i < |payloads| ==> payloads[i].uuid != uuid
            case Some(i) => payloads[i].uuid == uuid && forall j :: i < j < |payloads| ==> payloads[j].uuid != uuid
  {
    if payloads == [] then None
    else if payloads[|payloads| - 1].uuid == uuid then Some(|payloads| - 1)
    else LastOf(payloads[..|payloads| - 1], uuid)
  }

  class NodeDevice {
    var storage: Contents
    var keychain: Contents
    var db: Contents
    var queued: seq<Write>  // everything `writeJson` has appended to `writeChain`

    /** A state of the write chain whose memory and queue are this device's. */
    ghost function View(s: State): State
      reads this
    {
      s.(memory := Stores(storage, keychain, db), writes := queued)
    }

    constructor (files: Stores)
      ensures forall s :: View(s) == s.(memory := files, writes := [])
    {
      storage, keychain, db, queued := files.storage, files.keychain, files.database, [];
    }

    method WriteJson(store: Store, value: Contents)
      modifies this`queued
      ensures queued == old(queued) + [Write(store, value)]
    {
      queued := queued + [Write(store, value)];
    }

    method SetRawStorageValue(key: string, value: string)
      modifies this`storage, this`queued
      ensures forall s :: View(s) == Mutated(old(View(s)), Storage, old(storage)[key := value])
    {
      storage := storage[key := value];
      WriteJson(Storage, storage);
    }

    method RemoveRawStorageValue(key: string)
      modifies this`storage, this`queued
      ensures forall s :: View(s) == Mutated(old(View(s)), Storage, old(storage) - {key})
    {
      storage := storage - {key};
      WriteJson(Storage, storage);
    }

    method RemoveAllRawStorageValues()
      modifies this`storage, this`queued
      ensures forall s :: View(s) == Mutated(old(View(s)), Storage, map[])
    {
      storage := map[];
      WriteJson(Storage, storage);
    }

    method RemoveRawStorageValuesForIdentifier(identifier: string)
      modifies this`storage, this`queued
      ensures forall s :: View(s) == Mutated(old(View(s)), Storage,
                                             map k | k in old(storage) && !Includes(k, identifier) :: old(storage)[k])
    {
      var keys := storage.Keys;
      while keys != {}
        invariant keys <= old(storage).Keys
        invariant storage == map k | k in old(storage) && (k in keys || !Includes(k, identifier)) :: old(storage)[k]
        invariant queued == old(queued)
        decreases keys
      {
        var key :| key in keys;
        if Includes(key, identifier) {
          storage := storage - {key};
        }
        keys := keys - {key};
      }
      assert storage == map k | k in old(storage) && !Includes(k, identifier) :: old(storage)[k];
      WriteJson(Storage, storage);
    }

    method SaveDatabaseEntry(payload: Payload)
      modifies this`db, this`queued
      ensures forall s :: View(s) == Mutated(old(View(s)), Database, Saved(old(db), [payload]))
    {
      db := db[payload.uuid := payload.json];
      assert [payload][..0] == [];
      WriteJson(Database, db);
    }

    method SaveDatabaseEntries(payloads: seq<Payload>)
      modifies this`db, this`queued
      ensures forall s :: View(s) == Mutated(old(View(s)), Database, Saved(old(db), payloads))
    {
      var i := 0;
      while i < |payloads|
        invariant 0 <= i <= |payloads|
        invariant db == Saved(old(db), payloads[..i])
        invariant queued == old(queued)
      {
        assert payloads[..i + 1][..i] == payloads[..i];
        db := db[payloads[i].uuid := payloads[i].json];
        i := i + 1;
      }
      assert payloads[..i] == payloads;
      WriteJson(Database, db);
    }

    method RemoveDatabaseEntry(id: string)
      modifies this`db, this`queued
      ensures forall s :: View(s) == Mutated(old(View(s)), Database, old(db) - {id})
    {
      db := db - {id};
      WriteJson(Database, db);
    }

    method RemoveAllDatabaseEntries()
      modifies this`db, this`queued
      ensures forall s :: View(s) == Mutated(old(View(s)), Database, map[])
    {
      db := map[];
      WriteJson(Database, db);
    }

    method SetNamespacedKeychainValue(value: string, identifier: string)
      modifies this`keychain, this`queued
      ensures forall s :: View(s) == Mutated(old(View(s)), Keychain, old(keychain)[identifier := value])
    {
      keychain := keychain[identifier := value];
      WriteJson(Keychain, keychain);
    }

    method ClearNamespacedKeychainValue(identifier: string)
      modifies this`keychain, this`queued
      ensures forall s :: View(s) == Mutated(old(View(s)), Keychain, old(keychain) - {identifier})
    {
      keychain := keychain - {identifier};
      WriteJson(Keychain, keychain);
    }

    method ClearRawKeychainValue()
      modifies this`keychain, this`queued
      ensures forall s :: View(s) == Mutated(old(View(s)), Keychain, map[])
    {
      keychain := map[];
      WriteJson(Keychain, keychain);
    }

    /** All three stores are cleared before any of them is serialized. */
    method ClearAllDataFromDevice()
      modifies this
      ensures forall s :: View(s) ==
                Mutated(Mutated(Mutated(old(View(s)), Storage, map[]), Keychain, map[]), Database, map[])
    {
      storage, keychain, db := map[], map[], map[];
      WriteJson(Storage, storage);
      WriteJson(Keychain, keychain);
      WriteJson(Database, db);
    }
  }

  /** After the erasure's three writes have landed, the files are empty. */
  lemma ErasureIsDurable(disk: Stores, actions: seq<Action>, f: Store)
    requires RunFrom(disk, actions).Some?
    requires var s := RunFrom(disk, actions).value;
             |s.writes| >= 3 && s.writes[|s.writes| - 3..] ==
               [Write(Storage, map[]), Write(Keychain, map[]), Write(Database, map[])]
    requires var s := RunFrom(disk, actions).value;
             forall k :: |s.writes| - 3 <= k < |s.writes| ==> k in s.landed
    ensures RunFrom(disk, actions).value.disk.Of(f) == map[]
  {
    var s := RunFrom(disk, actions).value;
    var n := |s.writes|;
    var k := match f case Storage => n - 3 case Keychain => n - 2 case Database => n - 1;
    var tail := s.writes[n - 3..];
    assert s.writes[n - 3] == tail[0] && s.writes[n - 2] == tail[1] && s.writes[n - 1] == tail[2];
    assert Newest(s.writes, f, k + 1) == Some(k);
    assert f == Storage ==> Newest(s.writes, f, n - 1) == Some(k);
    assert Newest(s.writes, f, n) == Some(k);
    NewestLandedMeansDurable(disk, actions, f);
    ReachableInv(disk, actions);
  }

  // ---- Load chunks ----

  function Flatten<T>(chunks: seq<seq<T>>): seq<T>
  {
    if chunks == [] then [] else Flatten(chunks[..|chunks| - 1]) + chunks[|chunks| - 1]
  }

  lemma FlattenMore<T>(chunks: seq<seq<T>>, next: seq<T>)
    ensures Flatten(chunks + [next]) == Flatten(chunks) + next
    ensures chunks == [] ==> Flatten(chunks + [next]) == next
  {
    assert (chunks + [next])[..|chunks|] == chunks;
  }

  /** The loop of `getDatabaseLoadChunks`: no payload is lost, repeated or reordered, and every batch but the last is full. */
  method LoadChunks<T>(priority: seq<T>, remaining: seq<T>, batchSize: nat) returns (chunks: seq<seq<T>>)
    requires batchSize > 0
    ensures |chunks| >= 1 && chunks[0] == priority && Flatten(chunks) == priority + remaining
    ensures forall i :: 0 < i < |chunks| ==> 0 < |chunks[i]| <= batchSize
    ensures forall i :: 0 < i < |chunks| - 1 ==> |chunks[i]| == batchSize
  {
    hide Flatten;
    chunks := [priority];
    FlattenMore([], priority);
    assert [] + [priority] == chunks;
    var i := 0;
    while i < |remaining|
      invariant 0 <= i && |chunks| >= 1 && chunks[0] == priority
      invariant Flatten(chunks) == priority + remaining[..if i < |remaining| then i else |remaining|]
      invariant forall k :: 0 < k < |chunks| ==> 0 < |chunks[k]| <= batchSize
      invariant forall k :: 0 < k < |chunks| - (if i < |remaining| then 0 else 1) ==> |chunks[k]| == batchSize
    {
      var end := if i + batchSize < |remaining| then i + batchSize else |remaining|;
      ghost var before := chunks;
      chunks := chunks + [remaining[i..end]];
      FlattenMore(before, remaining[i..end]);
      assert remaining[..i] + remaining[i..end] == remaining[..end];
      i := i + batchSize;
    }
  }
}
