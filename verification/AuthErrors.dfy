/** `isUnauthorizedError`: a search through an arbitrary, possibly cyclic, error value. */
module AuthErrors {
  import opened Basics

  /** A JavaScript value; objects are references into a heap. `Opaque` is any value the search ignores. */
  datatype Value = Nullish | Number(n: real) | Str(s: string) | Opaque | Ref(id: nat)

  datatype Object = Object(isError: bool, message: Value, cause: Value, entries: seq<(string, Value)>)

  type Heap = map<nat, Object>

  /** The two regular expressions of the source, as a test on strings. */
  type Mentions = string -> bool

  predicate IsStatusKey(key: string) { key in ["status", "statusCode", "code"] }

  predicate IsFollowedKey(key: string) { key in ["message", "error", "cause", "response", "data"] }

  predicate IsRevoked(v: Value) { v == Number(401.0) || v == Number(498.0) }

  /** An entry `status`, `statusCode` or `code` is 401 or 498. */
  predicate HasStatus(o: Object)
  {
    exists i :: 0 <= i < |o.entries| && IsStatus(o.entries[i])
  }

  predicate IsStatus(entry: (string, Value))
  {
    && (entry.0 == "status" || entry.0 == "statusCode" || entry.0 == "code")
    && entry.1.Number? && (entry.1.n == 401.0 || entry.1.n == 498.0)
  }

  function FollowedEntries(entries: seq<(string, Value)>): seq<Value>
  {
    if entries == [] then []
    else
      var before := FollowedEntries(entries[..|entries| - 1]);
      var last := entries[|entries| - 1];
      if IsFollowedKey(last.0) then before + [last.1] else before
  }

  /** The values the search goes on to from an object. */
  function Followed(o: Object): seq<Value>
  {
    (if o.isError then [o.message, o.cause] else []) + FollowedEntries(o.entries)
  }

  predicate Tells(heap: Heap, mentions: Mentions, v: Value)
  {
    match v
    case Number(n) => n == 401.0 || n == 498.0
    case Str(s) => mentions(s)
    case Ref(id) => id in heap && HasStatus(heap[id])
    case _ => false
  }

  /** From an object to what it holds under one of five names; from an `Error` also to its message and cause. */
  ghost predicate Leads(heap: Heap, v: Value, w: Value)
  {
    && v.Ref? && v.id in heap
    && var o := heap[v.id];
       (o.isError && (w == o.message || w == o.cause)) || exists i :: 0 <= i < |o.entries| && IsLink(o.entries[i], w)
  }

  predicate IsLink(entry: (string, Value), w: Value)
  {
    && entry.1 == w
    && (entry.0 == "message" || entry.0 == "error" || entry.0 == "cause" || entry.0 == "response" || entry.0 == "data")
  }

  lemma {:induction false} FollowedEntriesAre(entries: seq<(string, Value)>, w: Value)
    ensures w in FollowedEntries(entries) <==> exists i :: 0 <= i < |entries| && IsLink(entries[i], w)
  {
    if entries != [] {
      var init := entries[..|entries| - 1];
      FollowedEntriesAre(init, w);
      assert forall i :: 0 <= i < |init| ==> init[i] == entries[i];
    }
  }

  lemma FollowedAre(heap: Heap, id: nat)
    requires id in heap
    ensures forall w :: w in Followed(heap[id]) <==> Leads(heap, Ref(id), w)
  {
    forall w
      ensures w in Followed(heap[id]) <==> Leads(heap, Ref(id), w)
    {
      FollowedEntriesAre(heap[id].entries, w);
    }
  }

  ghost predicate IsTrail(heap: Heap, trail: seq<Value>)
  {
    trail != [] && forall i, j :: 0 <= i && j == i + 1 && j < |trail| ==> Leads(heap, trail[i], trail[j])
  }

  ghost predicate Reachable(heap: Heap, root: Value, v: Value)
  {
    exists trail :: IsTrail(heap, trail) && trail[0] == root && trail[|trail| - 1] == v
  }

  lemma ReachesItself(heap: Heap, root: Value)
    ensures Reachable(heap, root, root)
  {
    assert IsTrail(heap, [root]);
  }

  lemma ReachesNext(heap: Heap, root: Value, v: Value, w: Value)
    requires Reachable(heap, root, v) && Leads(heap, v, w)
    ensures Reachable(heap, root, w)
  {
    var trail :| IsTrail(heap, trail) && trail[0] == root && trail[|trail| - 1] == v;
    var longer := trail + [w];
    assert IsTrail(heap, longer) && longer[0] == root && longer[|longer| - 1] == w;
  }

  /** Everything the search can meet: a finite set, whatever cycles there are. */
  ghost function Universe(heap: Heap, root: Value): set<Value>
  {
    {root} + (set id, v | id in heap && v in Followed(heap[id]) :: v)
  }

  ghost predicate Explored(heap: Heap, mentions: Mentions, root: Value, seen: set<Value>, queue: seq<Value>)
  {
    && (forall v :: v in seen ==> !Tells(heap, mentions, v) && v != Nullish)
    && (forall v, w :: v in seen && Leads(heap, v, w) ==> w in seen || w in queue || w == Nullish)
    && (root in seen || root in queue || root == Nullish)
  }

  ghost predicate Pending(heap: Heap, root: Value, seen: set<Value>, queue: seq<Value>)
  {
    && seen <= Universe(heap, root)
    && (forall v {:trigger Reachable(heap, root, v)} :: v in queue ==> Reachable(heap, root, v))
    && (forall v :: v in queue ==> v in Universe(heap, root))
  }

  lemma {:induction false} TrailIsSeen(heap: Heap, mentions: Mentions, root: Value, seen: set<Value>, trail: seq<Value>)
    requires Explored(heap, mentions, root, seen, [])
    requires IsTrail(heap, trail) && trail[0] == root
    ensures trail[|trail| - 1] in seen || trail[|trail| - 1] == Nullish
  {
    if |trail| > 1 {
      var init := trail[..|trail| - 1];
      TrailIsSeen(heap, mentions, root, seen, init);
      assert Leads(heap, trail[|trail| - 2], trail[|trail| - 1]);
    }
  }

  lemma NothingTells(heap: Heap, mentions: Mentions, root: Value, seen: set<Value>)
    requires Explored(heap, mentions, root, seen, [])
    ensures forall v :: Reachable(heap, root, v) ==> !Tells(heap, mentions, v)
  {
    forall v | Reachable(heap, root, v)
      ensures !Tells(heap, mentions, v)
    {
      var trail :| IsTrail(heap, trail) && trail[0] == root && trail[|trail| - 1] == v;
      TrailIsSeen(heap, mentions, root, seen, trail);
    }
  }

  lemma Skip(heap: Heap, mentions: Mentions, root: Value, seen: set<Value>, queue: seq<Value>)
    requires queue != [] && Explored(heap, mentions, root, seen, queue) && Pending(heap, root, seen, queue)
    requires queue[0] == Nullish || queue[0] in seen
    ensures Explored(heap, mentions, root, seen, queue[1..]) && Pending(heap, root, seen, queue[1..])
  {
    assert queue == [queue[0]] + queue[1..];
  }

  lemma Expand(heap: Heap, mentions: Mentions, root: Value, seen: set<Value>, queue: seq<Value>, more: seq<Value>)
    requires queue != [] && Explored(heap, mentions, root, seen, queue) && Pending(heap, root, seen, queue)
    requires queue[0] != Nullish && !Tells(heap, mentions, queue[0])
    requires forall w :: w in more <==> Leads(heap, queue[0], w)
    ensures Explored(heap, mentions, root, seen + {queue[0]}, queue[1..] + more)
    ensures Pending(heap, root, seen + {queue[0]}, queue[1..] + more)
  {
    ExpandPending(heap, root, seen, queue, more);
    hide Pending, Tells, Leads;
    assert queue == [queue[0]] + queue[1..];
  }

  lemma ExpandPending(heap: Heap, root: Value, seen: set<Value>, queue: seq<Value>, more: seq<Value>)
    requires queue != [] && Pending(heap, root, seen, queue) && queue[0] != Nullish
    requires forall w :: w in more <==> Leads(heap, queue[0], w)
    ensures Pending(heap, root, seen + {queue[0]}, queue[1..] + more)
  {
    hide Reachable, Universe, Leads;
    var v := queue[0];
    assert queue == [v] + queue[1..];
    assert Reachable(heap, root, v);
    forall w | w in more
      ensures Reachable(heap, root, w) && w in Universe(heap, root)
    {
      ReachesNext(heap, root, v, w);
      LedToIsThere(heap, root, v, w);
    }
    forall w | w in queue[1..] + more
      ensures Reachable(heap, root, w) && w in Universe(heap, root)
    {
      assert w in queue || w in more;
    }
  }

  lemma LedToIsThere(heap: Heap, root: Value, v: Value, w: Value)
    requires Leads(heap, v, w)
    ensures w in Universe(heap, root)
  {
    hide Followed;
    FollowedAre(heap, v.id);
    assert w in Followed(heap[v.id]);
  }

  /** The loop over the entries of one object: stops at a revoked status, else appends what is to be followed. */
  method ScanEntries(entries: seq<(string, Value)>, queue: seq<Value>) returns (found: bool, q: seq<Value>)
    ensures found <==> HasStatus(Object(false, Nullish, Nullish, entries))
    ensures !found ==> q == queue + FollowedEntries(entries)
  {
    q := queue;
    var i := 0;
    while i < |entries|
      invariant 0 <= i <= |entries|
      invariant q == queue + FollowedEntries(entries[..i])
      invariant forall j :: 0 <= j < i ==> !IsStatus(entries[j])
    {
      var (key, nested) := entries[i];
      if IsStatusKey(key) && IsRevoked(nested) {
        assert IsStatus(entries[i]);
        return true, q;
      }
      assert entries[..i + 1][..i] == entries[..i];
      if IsFollowedKey(key) {
        q := q + [nested];
      }
      i := i + 1;
    }
    assert entries[..i] == entries;
    return false, q;
  }

  /**
   Terminates on every heap and answers true exactly when some value reachable from the error through the
   followed properties is a revoked status, a message that mentions one, or an object carrying one.
   */
  method IsUnauthorizedError(heap: Heap, mentions: Mentions, error: Value) returns (r: bool)
    ensures r <==> exists v :: Reachable(heap, error, v) && Tells(heap, mentions, v)
  {
    hide Reachable, Universe, Tells, Leads, HasStatus;
    var seen: set<Value> := {};
    var queue := [error];
    StartSearch(heap, mentions, error);
    while |queue| > 0
      invariant Explored(heap, mentions, error, seen, queue) && Pending(heap, error, seen, queue)
      decreases Universe(heap, error) - seen, |queue|
    {
      var value := queue[0];
      assert Reachable(heap, error, value);
      if value == Nullish || value in seen {
        Skip(heap, mentions, error, seen, queue);
        queue := queue[1..];
        continue;
      }
      var tells, more := Inspect(heap, mentions, value);
      if tells {
        return true;
      }
      Expand(heap, mentions, error, seen, queue, more);
      assert value in queue;
      seen, queue := seen + {value}, queue[1..] + more;
    }
    assert queue == [];
    NothingTells(heap, mentions, error, seen);
    return false;
  }

  lemma StartSearch(heap: Heap, mentions: Mentions, root: Value)
    ensures Explored(heap, mentions, root, {}, [root]) && Pending(heap, root, {}, [root])
  {
    ReachesItself(heap, root);
  }

  /** One value taken off the queue: either it tells, or these values are to be followed. */
  method Inspect(heap: Heap, mentions: Mentions, value: Value) returns (tells: bool, more: seq<Value>)
    ensures tells <==> Tells(heap, mentions, value)
    ensures !tells ==> forall w :: w in more <==> Leads(heap, value, w)
  {
    more := [];
    match value {
      case Number(_) => tells := IsRevoked(value);
      case Str(s) => tells := mentions(s);
      case Ref(id) =>
        tells := false;
        if id in heap {
          if heap[id].isError {
            more := [heap[id].message, heap[id].cause];
          }
          tells, more := ScanEntries(heap[id].entries, more);
          FollowedAre(heap, id);
        }
      case _ => tells := false;
    }
  }
}
