/** Paging through an account with the cursors that `listNotes` writes and reads back. */
module NotePaging {
  import opened Basics
  import opened Utf8
  import opened Cursor
  import opened JsonText
  import opened NoteListing

  // ---- Following the cursors that `listNotes` writes and reads ----

  /** What a caller receives who passes each cursor back; `stores[i]` is the account at the `i`-th call. */
  function FollowListed(stores: seq<seq<Note>>, limit: int, cursorValue: Option<Text>, collates: Collation)
    : (listings: seq<Listing>)
  {
    if stores == [] then []
    else
      var r := ListedNotes(stores[0], limit, cursorValue, collates);
      if r.Listed? && r.cursor.Some? then [r] + FollowListed(stores[1..], limit, r.cursor, collates) else [r]
  }

  function AllSummaries(listings: seq<Listing>): seq<NoteSummary>
  {
    if listings == [] then []
    else (if listings[0].Listed? then listings[0].notes else []) + AllSummaries(listings[1..])
  }

  /** The caller came to the end: the last answer is a page without a cursor. */
  predicate Completed(listings: seq<Listing>)
  {
    listings != [] && listings[|listings| - 1].Listed? && listings[|listings| - 1].cursor == None
  }

  function WrittenAll(pages: seq<Page>): seq<Listing>
  {
    seq(|pages|, i requires 0 <= i < |pages| => Written(pages[i]))
  }

  /** The first page that is followed by another although its cursor is not accepted back. */
  function FirstRejected(pages: seq<Page>): (k: Option<nat>)
    ensures k.Some? ==> k.value < |pages| - 1 && !Accepted(pages[k.value])
    ensures forall i :: 0 <= i < (if k.Some? then k.value else |pages| - 1) ==> Accepted(pages[i])
  {
    if |pages| < 2 then None
    else if !Accepted(pages[0]) then Some(0)
    else match FirstRejected(pages[1..]) case None => None case Some(k) => Some(k + 1)
  }

  predicate Accepted(p: Page)
  {
    p.cursor.Some? && Encodable(p.cursor.value)
  }

  ghost predicate AllSortByUnits(stores: seq<seq<Note>>, collates: Collation)
  {
    forall i :: 0 <= i < |stores| ==> SortsByUnits(stores[i], collates)
  }

  /** The pages as they are, up to the first whose cursor is not accepted back and is followed; there the caller gets an error. */
  function Received(pages: seq<Page>): seq<Listing>
  {
    match FirstRejected(pages)
    case None => WrittenAll(pages)
    case Some(k) => WrittenAll(pages[..k + 1]) + [BadCursor]
  }

  lemma {:induction false} FollowListedFrom(stores: seq<seq<Note>>, limit: int, cursor: Option<NoteCursor>,
                                            collates: Collation)
    requires ValidLimit(limit) && Snapshots(stores) && AllSortByUnits(stores, collates)
    requires cursor.Some? ==> Encodable(cursor.value)
    ensures FollowListed(stores, limit, CursorText(cursor), collates) == Received(Follow(stores, limit, cursor))
  {
    hide PageOf, Encodable, EncodeNoteCursor, DistinctNotes, SortsByUnits, Sorted, CollatedSort, Summaries;
    if stores != [] {
      var store, later := stores[0], stores[1..];
      SortedAlike(store, collates);
      if cursor.Some? {
        IssuedCursorContinues(store, limit, cursor.value, collates);
      }
      var page := PageAfter(store, limit, cursor);
      IssuedCursor(Sorted(store), limit, cursor);
      assert ListedNotes(store, limit, CursorText(cursor), collates) == Written(page);
      if page.cursor.Some? && later != [] {
        if Encodable(page.cursor.value) {
          FollowListedFrom(later, limit, page.cursor, collates);
          ReceivedMore(page, Follow(later, limit, page.cursor));
        } else {
          IssuedCursorContinues(later[0], limit, page.cursor.value, collates);
          ReceivedRejection(page, Follow(later, limit, page.cursor));
        }
      } else {
        ReceivedOne(page);
      }
    }
  }

  lemma ReceivedOne(page: Page)
    ensures Received([page]) == [Written(page)]
  {
  }

  lemma ReceivedMore(page: Page, later: seq<Page>)
    requires Accepted(page)
    ensures Received([page] + later) == [Written(page)] + Received(later)
  {
    hide Accepted, Written, FirstRejected;
    RejectedLater(page, later);
    WrittenMore(page, later);
    if FirstRejected(later).Some? {
      var k := FirstRejected(later).value;
      WrittenMore(page, later[..k + 1]);
      assert ([page] + later)[..k + 2] == [page] + later[..k + 1];
    }
  }

  lemma RejectedLater(page: Page, later: seq<Page>)
    requires Accepted(page)
    ensures FirstRejected([page] + later) == match FirstRejected(later) case None => None case Some(k) => Some(k + 1)
  {
    assert ([page] + later)[1..] == later;
  }

  lemma WrittenMore(page: Page, later: seq<Page>)
    ensures WrittenAll([page] + later) == [Written(page)] + WrittenAll(later)
  {
  }

  lemma ReceivedRejection(page: Page, later: seq<Page>)
    requires !Accepted(page) && later != []
    ensures Received([page] + later) == [Written(page), BadCursor]
  {
    assert ([page] + later)[..1] == [page];
  }

  /**
   Following cursors over any changing account gives the pages of the abstract paging if and only if the last note
   of every page that is followed has a position that is accepted back; otherwise it gives the pages up to the
   first that has not, and then an error.
   */
  lemma FollowListedIff(stores: seq<seq<Note>>, limit: int, collates: Collation)
    requires ValidLimit(limit) && Snapshots(stores) && AllSortByUnits(stores, collates)
    ensures var pages, listings := Follow(stores, limit, None), FollowListed(stores, limit, None, collates);
            && (listings == WrittenAll(pages) <==> forall i :: 0 <= i < |pages| - 1 ==> Accepted(pages[i]))
            && listings == Received(pages)
  {
    FollowListedFrom(stores, limit, None, collates);
    hide Follow, FollowListed, Accepted;
    var pages := Follow(stores, limit, None);
    match FirstRejected(pages)
    case None =>
    case Some(k) => assert Received(pages)[k + 1] == BadCursor;
  }

  /** Positions strictly increase: page after page, whatever changes in between, and also up to an error. */
  lemma ListedAscends(stores: seq<seq<Note>>, limit: int, collates: Collation)
    requires ValidLimit(limit) && Snapshots(stores) && AllSortByUnits(stores, collates)
    ensures SummariesAscend(AllSummaries(FollowListed(stores, limit, None, collates)))
  {
    hide Follow, FollowListed;
    FollowListedFrom(stores, limit, None, collates);
    FollowAscends(stores, limit, None);
    ReceivedSummaries(Follow(stores, limit, None));
  }

  function SummaryPosition(s: NoteSummary): NoteCursor
  {
    NoteCursor(s.updatedAtMs, s.uuid)
  }

  ghost predicate SummariesAscend(s: seq<NoteSummary>)
  {
    forall i, j :: 0 <= i < j < |s| ==> Before(SummaryPosition(s[i]), SummaryPosition(s[j]))
  }

  lemma ReceivedSummaries(pages: seq<Page>)
    ensures AllSummaries(Received(pages)) <= Summaries(AllNotes(pages))
    ensures FirstRejected(pages).None? ==> AllSummaries(Received(pages)) == Summaries(AllNotes(pages))
    ensures Ascending(AllNotes(pages)) ==> SummariesAscend(AllSummaries(Received(pages)))
  {
    hide Ascending, SummariesAscend, Accepted, AllNotes, WrittenAll, Summaries;
    WrittenSummaries(pages);
    NotesOfPrefix(pages, |pages|);
    if FirstRejected(pages).Some? {
      var k := FirstRejected(pages).value;
      WrittenSummaries(pages[..k + 1]);
      SummariesOfJoin(WrittenAll(pages[..k + 1]), [BadCursor]);
      NotesOfPrefix(pages, k + 1);
      assert [BadCursor][1..] == [] && AllSummaries([BadCursor]) == [];
      assert AllSummaries(Received(pages)) == Summaries(AllNotes(pages[..k + 1]));
      PrefixAscends(AllNotes(pages[..k + 1]), AllNotes(pages));
    } else {
      PrefixAscends(AllNotes(pages), AllNotes(pages));
    }
  }

  lemma PrefixAscends(s: seq<Note>, t: seq<Note>)
    requires s <= t
    ensures Summaries(s) <= Summaries(t)
    ensures Ascending(t) ==> SummariesAscend(Summaries(s))
  {
    forall i | 0 <= i < |s|
      ensures SummaryPosition(Summaries(s)[i]) == PositionOf(t[i])
    {
    }
  }

  lemma {:induction false} WrittenSummaries(pages: seq<Page>)
    ensures AllSummaries(WrittenAll(pages)) == Summaries(AllNotes(pages))
  {
    if pages != [] {
      WrittenSummaries(pages[1..]);
      assert WrittenAll(pages)[1..] == WrittenAll(pages[1..]);
    }
  }

  lemma {:induction false} SummariesOfJoin(a: seq<Listing>, b: seq<Listing>)
    ensures AllSummaries(a + b) == AllSummaries(a) + AllSummaries(b)
  {
    if a == [] {
      assert a + b == b;
    } else {
      SummariesOfJoin(a[1..], b);
      assert (a + b)[1..] == a[1..] + b;
    }
  }

  lemma {:induction false} NotesOfPrefix(pages: seq<Page>, k: nat)
    requires k <= |pages|
    ensures AllNotes(pages[..k]) <= AllNotes(pages)
  {
    if k > 0 {
      NotesOfPrefix(pages[1..], k - 1);
      assert pages[..k][1..] == pages[1..][..k - 1];
    }
  }

  /** Paging over a changing account: a note present and unchanged throughout is returned exactly once. */
  lemma ReturnedExactlyOnce(stores: seq<seq<Note>>, limit: int, n: Note, collates: Collation)
    requires ValidLimit(limit) && Snapshots(stores) && AllSortByUnits(stores, collates)
    requires Completed(FollowListed(stores, limit, None, collates))
    requires forall i :: 0 <= i < |stores| ==> n in stores[i]
    ensures multiset(AllSummaries(FollowListed(stores, limit, None, collates)))[Summary(n)] == 1
  {
    hide Follow, FollowListed;
    var pages := Follow(stores, limit, None);
    FollowListedFrom(stores, limit, None, collates);
    CompletedIsFinished(pages);
    FollowFinds(stores, limit, None, n);
    FollowAscends(stores, limit, None);
    ReceivedSummaries(pages);
    var i :| 0 <= i < |AllNotes(pages)| && AllNotes(pages)[i] == n;
    assert Summaries(AllNotes(pages))[i] == Summary(n);
    AscendingOnce(AllSummaries(Received(pages)), Summary(n));
  }

  lemma CompletedIsFinished(pages: seq<Page>)
    requires Completed(Received(pages))
    ensures FirstRejected(pages).None? && Finished(pages)
  {
    hide FirstRejected, Accepted, Summaries, CursorText;
    var listings := Received(pages);
    if FirstRejected(pages).None? {
      assert listings[|listings| - 1] == Written(pages[|pages| - 1]);
      LastHasNoCursor(pages[|pages| - 1]);
    }
  }

  lemma LastHasNoCursor(page: Page)
    ensures Written(page).cursor == None <==> page.cursor == None
  {
  }

  lemma {:induction false} AscendingOnce(s: seq<NoteSummary>, x: NoteSummary)
    requires SummariesAscend(s)
    ensures multiset(s)[x] == if x in s then 1 else 0
  {
    if s != [] {
      AscendingOnce(s[1..], x);
      assert s == [s[0]] + s[1..];
      var p := SummaryPosition(s[0]);
      PositionOrder(p, p, p);
      forall i | 0 <= i < |s[1..]|
        ensures s[1..][i] != s[0]
      {
        assert Before(p, SummaryPosition(s[1 + i]));
      }
    }
  }

  /** The positions a caller has to pass back on the way through a fixed account, from its `k`-th note on, are accepted. */
  predicate BoundariesAccepted(sorted: seq<Note>, limit: nat, k: nat)
    requires limit > 0 && k <= |sorted|
    decreases |sorted| - k
  {
    |sorted| - k <= limit || (Encodable(PositionOf(sorted[k + limit - 1])) && BoundariesAccepted(sorted, limit, k + limit))
  }

  lemma {:induction false} BoundariesIff(store: seq<Note>, limit: nat, k: nat, stores: seq<seq<Note>>)
    requires limit > 0 && DistinctNotes(store) && k <= |store|
    requires forall i :: 0 <= i < |stores| ==> stores[i] == store
    requires Calls(|store| - k, limit) <= |stores|
    ensures |Sorted(store)| == |store|
    ensures FirstRejected(Follow(stores, limit, Reached(store, k))).None? <==> BoundariesAccepted(Sorted(store), limit, k)
    decreases |store| - k
  {
    hide Sorted, PageAfter, DistinctNotes, Encodable;
    FixedPage(store, limit, k);
    var page := PageAfter(store, limit, Reached(store, k));
    var pages := Follow(stores, limit, Reached(store, k));
    assert stores[0] == store;
    if |store| - k <= limit {
      assert pages == [page];
    } else {
      BoundariesIff(store, limit, k + limit, stores[1..]);
      var rest := Follow(stores[1..], limit, page.cursor);
      assert pages == [page] + rest && pages[1..] == rest && rest != [];
      assert page.cursor == Some(PositionOf(Sorted(store)[k + limit - 1]));
    }
  }

  /**
   On a fixed account the caller receives the whole sorted list in exactly ceil(n / limit) calls, one for an empty
   account, if and only if every position passed back on the way is accepted. Otherwise the last answer is an error.
   */
  lemma FixedStore(store: seq<Note>, limit: int, stores: seq<seq<Note>>, collates: Collation)
    requires ValidLimit(limit) && DistinctNotes(store) && SortsByUnits(store, collates)
    requires forall i :: 0 <= i < |stores| ==> stores[i] == store
    requires Calls(|store|, limit) <= |stores|
    ensures multiset(Sorted(store)) == multiset(store) && Ascending(Sorted(store))
    ensures var listings := FollowListed(stores, limit, None, collates);
            if BoundariesAccepted(Sorted(store), limit, 0) then
              Completed(listings) && AllSummaries(listings) == Summaries(Sorted(store)) && |listings| == Calls(|store|, limit)
            else listings != [] && listings[|listings| - 1] == BadCursor
  {
    hide Follow, FollowListed, Sorted, SortsByUnits, DistinctNotes, BoundariesAccepted;
    SortedSorts(store);
    FollowListedFrom(stores, limit, None, collates);
    FixedStoreFrom(store, limit, 0, stores);
    BoundariesIff(store, limit, 0, stores);
    assert Reached(store, 0) == None;
    assert Sorted(store)[0..] == Sorted(store);
    ReceivedSummaries(Follow(stores, limit, None));
  }

  /** In particular when every note has a position that is accepted back. */
  lemma {:induction false} EncodableBoundaries(sorted: seq<Note>, limit: nat, k: nat)
    requires limit > 0 && k <= |sorted| && forall n :: n in sorted ==> Encodable(PositionOf(n))
    ensures BoundariesAccepted(sorted, limit, k)
    decreases |sorted| - k
  {
    if |sorted| - k > limit {
      EncodableBoundaries(sorted, limit, k + limit);
    }
  }

  // ---- When the collation is another order ----

  /** One call, then the rest. */
  lemma FollowStep(stores: seq<seq<Note>>, limit: int, cursor: Option<NoteCursor>, collates: Collation)
    requires ValidLimit(limit) && stores != [] && (cursor.Some? ==> Encodable(cursor.value))
    ensures var page := PageOf(CollatedSort(stores[0], collates), limit, cursor);
            var later := if page.cursor.Some? then FollowListed(stores[1..], limit, CursorText(page.cursor), collates) else [];
            && FollowListed(stores, limit, CursorText(cursor), collates) == [Written(page)] + later
            && AllSummaries([Written(page)] + later) == Summaries(page.notes) + AllSummaries(later)
  {
    hide PageOf, Encodable, EncodeNoteCursor, CollatedSort, Summaries;
    if cursor.Some? {
      IssuedCursorContinues(stores[0], limit, cursor.value, collates);
    }
    var page := PageOf(CollatedSort(stores[0], collates), limit, cursor);
    var later := if page.cursor.Some? then FollowListed(stores[1..], limit, CursorText(page.cursor), collates) else [];
    assert ([Written(page)] + later)[1..] == later;
  }

  lemma AfterRejection(stores: seq<seq<Note>>, limit: int, c: NoteCursor, collates: Collation)
    requires ValidLimit(limit) && -MAX_SAFE_INTEGER <= c.updatedAtMs <= MAX_SAFE_INTEGER && !Encodable(c)
    ensures AllSummaries(FollowListed(stores, limit, Some(EncodeNoteCursor(c)), collates)) == []
  {
    hide Encodable, EncodeNoteCursor, CollatedSort;
    if stores != [] {
      IssuedCursorContinues(stores[0], limit, c, collates);
      assert [BadCursor][1..] == [];
    }
  }

  lemma {:induction false} ListedBehind(stores: seq<seq<Note>>, limit: int, c: NoteCursor, collates: Collation, x: NoteSummary)
    requires ValidLimit(limit) && -MAX_SAFE_INTEGER <= c.updatedAtMs <= MAX_SAFE_INTEGER
    requires x in AllSummaries(FollowListed(stores, limit, Some(EncodeNoteCursor(c)), collates))
    ensures Before(c, SummaryPosition(x))
    decreases |stores|
  {
    hide EncodeNoteCursor, Encodable, CollatedSort, Before, PageOf, Summaries;
    if !Encodable(c) {
      AfterRejection(stores, limit, c, collates);
    } else if stores != [] {
      var sorted := CollatedSort(stores[0], collates);
      var page := PageOf(sorted, limit, Some(c));
      FollowStep(stores, limit, Some(c), collates);
      IssuedCursor(sorted, limit, Some(c));
      PageBehind(sorted, limit, c);
      if x !in Summaries(page.notes) {
        ListedBehind(stores[1..], limit, page.cursor.value, collates, x);
        PositionOrder(c, page.cursor.value, SummaryPosition(x));
      }
    }
  }

  lemma PageBehind(sorted: seq<Note>, limit: nat, c: NoteCursor)
    requires limit > 0
    ensures var p := PageOf(sorted, limit, Some(c));
            && (forall x :: x in Summaries(p.notes) ==> Before(c, SummaryPosition(x)))
            && (p.cursor.Some? ==> Before(c, p.cursor.value))
  {
    AfterIff(sorted, Some(c));
    var p := PageOf(sorted, limit, Some(c));
    forall i | 0 <= i < |p.notes| ensures Before(c, PositionOf(p.notes[i])) {
      assert p.notes[i] == After(sorted, Some(c))[i];
      assert p.notes[i] in After(sorted, Some(c));
    }
    forall x | x in Summaries(p.notes) ensures Before(c, SummaryPosition(x)) {
      var i :| 0 <= i < |p.notes| && Summaries(p.notes)[i] == x;
      assert SummaryPosition(x) == PositionOf(p.notes[i]);
    }
  }

  /** The first note behind a cursor has nothing behind the cursor before it. */
  lemma {:induction false} FirstAfter(s: seq<Note>, cursor: Option<NoteCursor>, i: nat)
    requires i < |s| && DistinctNotes(s) && After(s, cursor) != [] && After(s, cursor)[0] == s[i]
    ensures forall k :: 0 <= k < i ==> !IsAfter(s[k], cursor)
  {
    if i > 0 && !IsAfter(s[0], cursor) {
      FirstAfter(s[1..], cursor, i - 1);
      forall k | 0 < k < i ensures !IsAfter(s[k], cursor) {
        assert s[1..][k - 1] == s[k];
      }
    }
  }

  lemma OnePage(sorted: seq<Note>, cursor: Option<NoteCursor>)
    ensures var p := PageOf(sorted, 1, cursor);
            && |p.notes| <= 1
            && (p.cursor.Some? ==> p.notes != [] && p.cursor == Some(PositionOf(p.notes[0])))
            && (p.notes != [] ==>
                  p.notes[0] in sorted && IsAfter(p.notes[0], cursor)
                  && After(sorted, cursor) != [] && After(sorted, cursor)[0] == p.notes[0])
  {
    AfterIff(sorted, cursor);
  }

  lemma DistinctSorted(store: seq<Note>, collates: Collation)
    requires DistinctNotes(store)
    ensures DistinctNotes(CollatedSort(store, collates))
    ensures forall n :: n in CollatedSort(store, collates) <==> n in store
  {
    var sorted := CollatedSort(store, collates);
    CollatedSortIff(store, collates);
    hide CollatedSort;
    forall n ensures n in sorted <==> n in store {
      assert n in multiset(sorted) <==> n in multiset(store);
    }
    forall i, j | 0 <= i < j < |sorted| ensures sorted[i].uuid != sorted[j].uuid {
      assert sorted[i] in sorted && sorted[j] in sorted;
      if sorted[i].uuid == sorted[j].uuid {
        CountedTwice(sorted, i, j);
        CountedOnce(store, sorted[i]);
      }
    }
  }

  lemma CountedTwice(s: seq<Note>, i: nat, j: nat)
    requires i < j < |s| && s[i] == s[j]
    ensures multiset(s)[s[i]] >= 2
  {
    assert s == s[..j] + s[j..];
    assert s[i] == s[..j][i] && s[j] == s[j..][0];
    assert s[i] in multiset(s[..j]) && s[i] in multiset(s[j..]);
  }

  lemma {:induction false} CountedOnce(s: seq<Note>, n: Note)
    requires DistinctNotes(s)
    ensures multiset(s)[n] <= 1
  {
    if s != [] {
      CountedOnce(s[1..], n);
      assert s == [s[0]] + s[1..];
      assert s[0] !in s[1..];
    }
  }

  /** Of two neighbours that the collation orders against the units, only one is returned when calls ask for one note. */
  lemma {:induction false} NotBoth(stores: seq<seq<Note>>, cursor: Option<NoteCursor>, sorted: seq<Note>, i: nat,
                                   collates: Collation)
    requires DistinctNotes(sorted) && forall j :: 0 <= j < |stores| ==> CollatedSort(stores[j], collates) == sorted
    requires cursor.Some? ==> Encodable(cursor.value)
    requires i + 1 < |sorted| && Before(PositionOf(sorted[i + 1]), PositionOf(sorted[i]))
    ensures var all := AllSummaries(FollowListed(stores, 1, CursorText(cursor), collates));
            Summary(sorted[i]) !in all || Summary(sorted[i + 1]) !in all
    decreases |stores|
  {
    hide EncodeNoteCursor, Encodable, CollatedSort, Before, PageOf, FollowListed;
    if stores == [] {
      NothingFollowed(cursor, collates);
    } else {
      var page := PageOf(sorted, 1, cursor);
      assert CollatedSort(stores[0], collates) == sorted;
      FollowStep(stores, 1, cursor, collates);
      IssuedCursor(sorted, 1, cursor);
      OnePage(sorted, cursor);
      if page.cursor.Some? {
        if !Encodable(page.cursor.value) {
          AfterRejection(stores[1..], 1, page.cursor.value, collates);
        } else {
          NotBothLater(stores, cursor, page, sorted, i, collates);
          if page.notes[0] != sorted[i] && page.notes[0] != sorted[i + 1] {
            NotBoth(stores[1..], page.cursor, sorted, i, collates);
          }
        }
      }
    }
  }

  lemma NothingFollowed(cursor: Option<NoteCursor>, collates: Collation)
    ensures AllSummaries(FollowListed([], 1, CursorText(cursor), collates)) == []
  {
  }

  /** Once either of the two was returned, the other stays behind the cursor. */
  lemma NotBothLater(stores: seq<seq<Note>>, cursor: Option<NoteCursor>, page: Page, sorted: seq<Note>, i: nat,
                     collates: Collation)
    requires DistinctNotes(sorted) && stores != [] && page == PageOf(sorted, 1, cursor) && page.cursor.Some?
    requires i + 1 < |sorted| && Before(PositionOf(sorted[i + 1]), PositionOf(sorted[i]))
    ensures page.notes != []
    ensures var later := AllSummaries(FollowListed(stores[1..], 1, CursorText(page.cursor), collates));
            && (page.notes[0] == sorted[i] ==> Summary(sorted[i + 1]) !in later)
            && (page.notes[0] == sorted[i + 1] ==> Summary(sorted[i]) !in later)
  {
    hide EncodeNoteCursor, CollatedSort, Before, PageOf, FollowListed;
    OnePage(sorted, cursor);
    IssuedCursor(sorted, 1, cursor);
    var m, q := sorted[i], sorted[i + 1];
    var later := AllSummaries(FollowListed(stores[1..], 1, CursorText(page.cursor), collates));
    if page.notes[0] == m {
      if Summary(q) in later {
        ListedBehind(stores[1..], 1, page.cursor.value, collates, Summary(q));
        PositionOrder(PositionOf(m), PositionOf(q), PositionOf(m));
      }
    } else if page.notes[0] == q {
      if Summary(m) in later {
        FirstAfter(sorted, cursor, i + 1);
        ListedBehind(stores[1..], 1, page.cursor.value, collates, Summary(m));
        BehindBoth(cursor, q, m);
      }
    }
  }

  lemma BehindBoth(cursor: Option<NoteCursor>, q: Note, m: Note)
    requires IsAfter(q, cursor) && Before(PositionOf(q), PositionOf(m))
    ensures IsAfter(m, cursor)
  {
    if cursor.Some? {
      PositionOrder(cursor.value, PositionOf(q), PositionOf(m));
    }
  }

  lemma {:induction false} AdjacentAscends(s: seq<Note>)
    requires forall i, j :: 0 <= i && j == i + 1 && j < |s| ==> Before(PositionOf(s[i]), PositionOf(s[j]))
    ensures Ascending(s)
  {
    if |s| > 1 {
      var rest := s[1..];
      AdjacentAscends(rest);
      forall j | 0 < j < |s| ensures Before(PositionOf(s[0]), PositionOf(s[j])) {
        assert s[j] == rest[j - 1] && s[1] == rest[0];
        PositionOrder(PositionOf(s[0]), PositionOf(s[1]), PositionOf(s[j]));
      }
      forall i, j | 0 < i < j < |s| ensures Before(PositionOf(s[i]), PositionOf(s[j])) {
        assert s[i] == rest[i - 1] && s[j] == rest[j - 1];
      }
    }
  }

  /**
   An account whose notes the collation puts in any other order loses one: a caller who asks for one note at a time
   never receives it, however often it calls.
   */
  lemma DisagreementLosesNote(store: seq<Note>, stores: seq<seq<Note>>, collates: Collation) returns (n: Note)
    requires DistinctNotes(store) && !SortsByUnits(store, collates)
    requires forall i :: 0 <= i < |stores| ==> stores[i] == store
    ensures n in store && Summary(n) !in AllSummaries(FollowListed(stores, 1, None, collates))
  {
    hide FollowListed, CollatedSort;
    var sorted := CollatedSort(store, collates);
    DistinctSorted(store, collates);
    if forall i, j :: 0 <= i && j == i + 1 && j < |sorted| ==> Before(PositionOf(sorted[i]), PositionOf(sorted[j])) {
      AdjacentAscends(sorted);
      assert false;
    }
    var i, j :| 0 <= i && j == i + 1 && j < |sorted| && !Before(PositionOf(sorted[i]), PositionOf(sorted[j]));
    PositionOrder(PositionOf(sorted[i]), PositionOf(sorted[j]), PositionOf(sorted[i]));
    NotBoth(stores, None, sorted, i, collates);
    n := if Summary(sorted[i]) !in AllSummaries(FollowListed(stores, 1, None, collates)) then sorted[i] else sorted[j];
  }

  /** Enough calls, all on the same account. */
  ghost predicate FixedCalls(stores: seq<seq<Note>>, store: seq<Note>, limit: nat)
    requires limit > 0
  {
    Calls(|store|, limit) <= |stores| && forall i :: 0 <= i < |stores| ==> stores[i] == store
  }

  ghost predicate ReceivesAll(store: seq<Note>, stores: seq<seq<Note>>, limit: int, collates: Collation)
  {
    forall n :: n in store ==> Summary(n) in AllSummaries(FollowListed(stores, limit, None, collates))
  }

  ghost predicate CompleteForEveryLimit(store: seq<Note>, collates: Collation)
  {
    forall limit: int, stores :: ValidLimit(limit) && FixedCalls(stores, store, limit) ==>
      ReceivesAll(store, stores, limit, collates)
  }

  lemma AgreementReceivesAll(store: seq<Note>, stores: seq<seq<Note>>, limit: int, collates: Collation)
    requires ValidLimit(limit) && DistinctNotes(store) && FixedCalls(stores, store, limit)
    requires (forall n :: n in store ==> Encodable(PositionOf(n))) && SortsByUnits(store, collates)
    ensures ReceivesAll(store, stores, limit, collates)
  {
    hide FollowListed, Sorted, SortsByUnits, Encodable, PositionOf, Summary;
    FixedStore(store, limit, stores, collates);
    var sorted := Sorted(store);
    forall n ensures n in sorted <==> n in store {
      assert n in multiset(sorted) <==> n in multiset(store);
    }
    EncodableBoundaries(sorted, limit, 0);
    forall n | n in store
      ensures Summary(n) in Summaries(sorted)
    {
      var i :| 0 <= i < |sorted| && sorted[i] == n;
      assert Summaries(sorted)[i] == Summary(n);
    }
  }

  /**
   If all positions are accepted back, a caller receives every note of a fixed account, whatever page size it asks
   for, exactly when the collation orders the account as the cursors assume.
   */
  lemma PagingCompleteIff(store: seq<Note>, collates: Collation)
    requires DistinctNotes(store) && forall n :: n in store ==> Encodable(PositionOf(n))
    ensures CompleteForEveryLimit(store, collates) <==> SortsByUnits(store, collates)
  {
    hide FollowListed, SortsByUnits, Encodable, PositionOf, DistinctNotes, FixedCalls, ReceivesAll;
    if SortsByUnits(store, collates) {
      forall limit: int, stores | ValidLimit(limit) && FixedCalls(stores, store, limit)
        ensures ReceivesAll(store, stores, limit, collates)
      {
        AgreementReceivesAll(store, stores, limit, collates);
      }
    } else {
      var stores := seq(Calls(|store|, 1), _ => store);
      assert FixedCalls(stores, store, 1) by { CallsOn(stores, store); }
      LosesOne(store, stores, collates);
    }
  }

  lemma CallsOn(stores: seq<seq<Note>>, store: seq<Note>)
    requires Calls(|store|, 1) <= |stores| && forall i :: 0 <= i < |stores| ==> stores[i] == store
    ensures FixedCalls(stores, store, 1)
  {
  }

  lemma LosesOne(store: seq<Note>, stores: seq<seq<Note>>, collates: Collation)
    requires DistinctNotes(store) && !SortsByUnits(store, collates) && FixedCalls(stores, store, 1)
    ensures !ReceivesAll(store, stores, 1, collates)
  {
    hide FollowListed, SortsByUnits, DistinctNotes;
    var n := DisagreementLosesNote(store, stores, collates);
  }

  function Lower(a: Text): Text
  {
    seq(|a|, i requires 0 <= i < |a| => if 0x41 <= a[i] < 0x5B then a[i] + 0x20 else a[i])
  }

  /** A locale's order ignores case first. */
  function CaseBlind(): Collation
  {
    (a: Text, b: Text) => TextLess(Lower(a), Lower(b))
  }

  /** `a` and `B`, of the same time */
  const MIXED_CASE: seq<Note> := [Note([0x61], None, Some(1), None), Note([0x42], None, Some(1), None)]

  /** Ids of mixed case are such an account. */
  lemma MixedCaseDisagrees()
    ensures DistinctNotes(MIXED_CASE) && !SortsByUnits(MIXED_CASE, CaseBlind())
  {
    var m, n := MIXED_CASE[0], MIXED_CASE[1];
    assert MIXED_CASE[..1] == [m] && [m][..0] == [];
    assert CollatedSort([m], CaseBlind()) == [m];
    assert !TextLess(Lower(n.uuid), Lower(m.uuid)) by {
      assert Lower(n.uuid) == [0x62] && Lower(m.uuid) == [0x61];
    }
    assert !CollatedBefore(PositionOf(n), PositionOf(m), CaseBlind());
    assert [m][1..] == [] && CollatedInsert(n, [m], CaseBlind()) == [m] + CollatedInsert(n, [], CaseBlind());
    assert CollatedSort(MIXED_CASE, CaseBlind()) == CollatedInsert(n, CollatedSort([m], CaseBlind()), CaseBlind());
    assert CollatedSort(MIXED_CASE, CaseBlind()) == [m, n];
    assert !Before(PositionOf(m), PositionOf(n));
  }

  /** Two notes from before 1970 */
  const EARLY_NOTES: seq<Note> := [Note([0x61], None, None, Some(-5)), Note([0x62], None, None, Some(-5))]

  lemma EarlyBoundary()
    ensures DistinctNotes(EARLY_NOTES) && |Sorted(EARLY_NOTES)| == 2
    ensures !BoundariesAccepted(Sorted(EARLY_NOTES), 1, 0)
  {
    hide Sorted, Ascending;
    SortedSorts(EARLY_NOTES);
    var sorted := Sorted(EARLY_NOTES);
    assert sorted[0] in multiset(EARLY_NOTES);
  }

  /** Positions before 1970 are written but not accepted back: the second call for one of these notes is an error. */
  lemma EarlyNotesStopPaging()
    ensures var listings := FollowListed([EARLY_NOTES, EARLY_NOTES], 1, None, TextLess);
            listings != [] && listings[|listings| - 1] == BadCursor
  {
    hide FollowListed, Sorted, SortsByUnits, BoundariesAccepted, AllSummaries;
    EarlyBoundary();
    AgreeingCollation(EARLY_NOTES, TextLess);
    assert Calls(2, 1) == 2;
    FixedStore(EARLY_NOTES, 1, [EARLY_NOTES, EARLY_NOTES], TextLess);
  }
}
