/** `listNotes`: keyset pagination over a store that may change between calls. */
module NoteListing {
  import opened Basics
  import opened Utf8
  import opened Cursor
  import opened JsonText

  const MAX_DATE: int := 8_640_000_000_000_000

  /** The times a valid `Date` can hold. */
  type Time = t: int | -MAX_DATE <= t <= MAX_DATE

  /** A note as the listing sees it; times are `None` where they are missing or not valid dates. */
  datatype Note = Note(uuid: Text, title: Option<Text>, updatedAt: Option<Time>, createdAt: Option<Time>)

  /** What a caller gets of a note; `updatedAtMs` stands for the ISO string of that time. */
  datatype NoteSummary = NoteSummary(uuid: Text, title: Text, updatedAtMs: Time)

  /** `a.localeCompare(b) < 0` */
  type Collation = (Text, Text) -> bool

  /** A note that the server has not stamped yet reports time zero and falls back to its creation. */
  function UpdatedAtMs(n: Note): Time
  {
    if n.updatedAt.Some? && n.updatedAt.value > 0 then n.updatedAt.value
    else if n.createdAt.Some? then n.createdAt.value else 0
  }

  function PositionOf(n: Note): NoteCursor
  {
    NoteCursor(UpdatedAtMs(n), n.uuid)
  }

  function Summary(n: Note): NoteSummary
  {
    NoteSummary(n.uuid, if n.title.Some? then n.title.value else [], UpdatedAtMs(n))
  }

  function Summaries(notes: seq<Note>): seq<NoteSummary>
  {
    seq(|notes|, i requires 0 <= i < |notes| => Summary(notes[i]))
  }

  /** The order of JavaScript's `<` and `>` on strings: by UTF-16 units. */
  predicate TextLess(a: Text, b: Text)
  {
    b != [] && (a == [] || a[0] < b[0] || (a[0] == b[0] && TextLess(a[1..], b[1..])))
  }

  /** `isAfterNoteCursor(q, p)`: newest first, then by id. */
  predicate Before(p: NoteCursor, q: NoteCursor)
  {
    q.updatedAtMs < p.updatedAtMs || (q.updatedAtMs == p.updatedAtMs && TextLess(p.uuid, q.uuid))
  }

  lemma {:induction false} TextOrder(a: Text, b: Text, c: Text)
    ensures !TextLess(a, a)
    ensures TextLess(a, b) || a == b || TextLess(b, a)
    ensures TextLess(a, b) && TextLess(b, c) ==> TextLess(a, c)
  {
    if a != [] {
      TextOrder(a[1..], if b == [] then [] else b[1..], if c == [] then [] else c[1..]);
      if b != [] && a[0] == b[0] && a[1..] == b[1..] {
        assert a == [a[0]] + a[1..] && b == [b[0]] + b[1..];
      }
    }
  }

  /** At unit `k` the texts first differ, and `a` has the smaller one. */
  predicate DiffersAt(a: Text, b: Text, k: nat)
  {
    k < |a| && k < |b| && a[..k] == b[..k] && a[k] < b[k]
  }

  lemma DiffersLater(a: Text, b: Text, k: nat)
    requires a != [] && b != []
    ensures DiffersAt(a, b, k + 1) <==> a[0] == b[0] && DiffersAt(a[1..], b[1..], k)
  {
    if k + 1 <= |a| && k + 1 <= |b| {
      assert a[..k + 1] == [a[0]] + a[1..][..k] && b[..k + 1] == [b[0]] + b[1..][..k];
    }
  }

  /** Where two different texts first differ decides, and a text comes after each of its beginnings. */
  lemma {:induction false} TextLessIff(a: Text, b: Text)
    ensures TextLess(a, b) <==> a < b || exists k: nat :: DiffersAt(a, b, k)
  {
    hide DiffersAt;
    if a == [] || b == [] {
      NothingDiffers(a, b);
    } else {
      FirstDiffers(a, b);
      if a[0] == b[0] {
        TextLessIff(a[1..], b[1..]);
        assert a == [a[0]] + a[1..] && b == [b[0]] + b[1..];
        if k: nat :| DiffersAt(a[1..], b[1..], k) {
          DiffersLater(a, b, k);
        }
      }
      if k: nat :| DiffersAt(a, b, k) {
        if k > 0 {
          DiffersLater(a, b, k - 1);
        }
      }
    }
  }

  lemma NothingDiffers(a: Text, b: Text)
    requires a == [] || b == []
    ensures forall k: nat :: !DiffersAt(a, b, k)
  {
  }

  lemma FirstDiffers(a: Text, b: Text)
    requires a != [] && b != []
    ensures DiffersAt(a, b, 0) <==> a[0] < b[0]
  {
    assert a[..0] == b[..0];
  }

  lemma PositionOrder(p: NoteCursor, q: NoteCursor, r: NoteCursor)
    ensures !Before(p, p)
    ensures Before(p, q) || p == q || Before(q, p)
    ensures Before(p, q) && Before(q, r) ==> Before(p, r)
  {
    TextOrder(p.uuid, q.uuid, r.uuid);
  }

  // ---- Sorting ----

  /** No two notes have the same id. */
  ghost predicate DistinctNotes(s: seq<Note>)
  {
    forall i, j :: 0 <= i < j < |s| ==> s[i].uuid != s[j].uuid
  }

  ghost predicate Ascending(s: seq<Note>)
  {
    forall i, j :: 0 <= i < j < |s| ==> Before(PositionOf(s[i]), PositionOf(s[j]))
  }

  /** Where a note goes in a sorted list: before the first note it sorts before. */
  function Insert(n: Note, s: seq<Note>): seq<Note>
  {
    if s == [] || Before(PositionOf(n), PositionOf(s[0])) then [n] + s else [s[0]] + Insert(n, s[1..])
  }

  /** The order the cursors assume. */
  function Sorted(s: seq<Note>): (r: seq<Note>)
  {
    if s == [] then [] else Insert(s[|s| - 1], Sorted(s[..|s| - 1]))
  }

  lemma {:induction false} InsertIff(n: Note, s: seq<Note>)
    ensures multiset(Insert(n, s)) == multiset(s) + multiset{n} && |Insert(n, s)| == |s| + 1
  {
    if s != [] {
      assert s == [s[0]] + s[1..];
      InsertIff(n, s[1..]);
    }
  }

  lemma {:induction false} InsertAscends(n: Note, s: seq<Note>)
    requires Ascending(s) && forall m :: m in s ==> PositionOf(m) != PositionOf(n)
    ensures Ascending(Insert(n, s))
  {
    if s != [] && !Before(PositionOf(n), PositionOf(s[0])) {
      InsertAscends(n, s[1..]);
      InsertIff(n, s[1..]);
      PositionOrder(PositionOf(n), PositionOf(s[0]), PositionOf(n));
      var r := Insert(n, s);
      forall j | 0 < j < |r|
        ensures Before(PositionOf(r[0]), PositionOf(r[j]))
      {
        assert r[j] == Insert(n, s[1..])[j - 1];
        assert r[j] in multiset(Insert(n, s[1..]));
        assert r[j] in multiset(s[1..]) || r[j] == n;
      }
    } else if s != [] {
      forall j | 0 < j < |s|
        ensures Before(PositionOf(n), PositionOf(s[j]))
      {
        PositionOrder(PositionOf(n), PositionOf(s[0]), PositionOf(s[j]));
      }
    }
  }

  lemma {:induction false} SortedSorts(s: seq<Note>)
    requires DistinctNotes(s)
    ensures multiset(Sorted(s)) == multiset(s) && |Sorted(s)| == |s| && Ascending(Sorted(s))
  {
    if s != [] {
      var init, last := s[..|s| - 1], s[|s| - 1];
      assert s == init + [last];
      SortedSorts(init);
      InsertIff(last, Sorted(init));
      forall m | m in Sorted(init)
        ensures PositionOf(m) != PositionOf(last)
      {
        assert m in multiset(init);
      }
      InsertAscends(last, Sorted(init));
    }
  }

  lemma {:induction false} AscendingUnique(s: seq<Note>, t: seq<Note>)
    requires Ascending(s) && Ascending(t) && multiset(s) == multiset(t)
    ensures s == t
  {
    hide Before, PositionOf;
    if s == [] || t == [] {
      assert |multiset(s)| == |multiset(t)|;
    } else {
      FirstIsFirst(s, t);
      FirstIsFirst(t, s);
      PositionOrder(PositionOf(s[0]), PositionOf(t[0]), PositionOf(s[0]));
      TailBag(s);
      TailBag(t);
      AscendingUnique(s[1..], t[1..]);
      assert s == [s[0]] + s[1..] && t == [t[0]] + t[1..];
    }
  }

  lemma TailBag(s: seq<Note>)
    requires s != []
    ensures multiset(s[1..]) == multiset(s) - multiset{s[0]}
    ensures Ascending(s) ==> Ascending(s[1..])
  {
    assert s == [s[0]] + s[1..];
  }

  lemma FirstIsFirst(s: seq<Note>, t: seq<Note>)
    requires s != [] && t != [] && Ascending(s) && multiset(s) == multiset(t)
    ensures t[0] == s[0] || Before(PositionOf(s[0]), PositionOf(t[0]))
  {
    assert t[0] in multiset(s);
  }

  // ---- Sorting by `localeCompare` ----

  /** `compareNotePosition(p, q) < 0` */
  predicate CollatedBefore(p: NoteCursor, q: NoteCursor, collates: Collation)
  {
    q.updatedAtMs < p.updatedAtMs || (q.updatedAtMs == p.updatedAtMs && collates(p.uuid, q.uuid))
  }

  function CollatedInsert(n: Note, s: seq<Note>, collates: Collation): seq<Note>
  {
    if s == [] || CollatedBefore(PositionOf(n), PositionOf(s[0]), collates) then [n] + s
    else [s[0]] + CollatedInsert(n, s[1..], collates)
  }

  /** `sort(compareNotePosition)`, which is stable. */
  function CollatedSort(s: seq<Note>, collates: Collation): (r: seq<Note>)
  {
    if s == [] then [] else CollatedInsert(s[|s| - 1], CollatedSort(s[..|s| - 1], collates), collates)
  }

  lemma {:induction false} CollatedInsertIff(n: Note, s: seq<Note>, collates: Collation)
    ensures multiset(CollatedInsert(n, s, collates)) == multiset(s) + multiset{n}
  {
    if s != [] {
      assert s == [s[0]] + s[1..];
      CollatedInsertIff(n, s[1..], collates);
    }
  }

  lemma {:induction false} CollatedSortIff(s: seq<Note>, collates: Collation)
    ensures multiset(CollatedSort(s, collates)) == multiset(s)
  {
    if s != [] {
      var init := s[..|s| - 1];
      assert s == init + [s[|s| - 1]];
      CollatedSortIff(init, collates);
      CollatedInsertIff(s[|s| - 1], CollatedSort(init, collates), collates);
    }
  }

  /** The collation puts the notes of this account in the order the cursors assume. */
  ghost predicate SortsByUnits(store: seq<Note>, collates: Collation)
  {
    Ascending(CollatedSort(store, collates))
  }

  lemma SortedAlike(store: seq<Note>, collates: Collation)
    requires DistinctNotes(store) && SortsByUnits(store, collates)
    ensures CollatedSort(store, collates) == Sorted(store)
  {
    SortedSorts(store);
    CollatedSortIff(store, collates);
    AscendingUnique(CollatedSort(store, collates), Sorted(store));
  }

  /** It does when it orders the ids of the account by units, as it does canonical lowercase uuids. */
  lemma {:induction false} AgreeingCollation(store: seq<Note>, collates: Collation)
    requires DistinctNotes(store)
    requires forall m, n :: m in store && n in store ==> (collates(m.uuid, n.uuid) <==> TextLess(m.uuid, n.uuid))
    ensures SortsByUnits(store, collates)
  {
    AgreeingSort(store, collates);
    SortedSorts(store);
  }

  lemma {:induction false} AgreeingSort(s: seq<Note>, collates: Collation)
    requires forall m, n :: m in s && n in s ==> (collates(m.uuid, n.uuid) <==> TextLess(m.uuid, n.uuid))
    ensures CollatedSort(s, collates) == Sorted(s)
  {
    if s != [] {
      var init, last := s[..|s| - 1], s[|s| - 1];
      assert s == init + [last];
      AgreeingSort(init, collates);
      CollatedSortIff(init, collates);
      forall m | m in Sorted(init) ensures m in s {
        assert m in multiset(init);
      }
      AgreeingInsert(last, Sorted(init), collates);
    }
  }

  lemma {:induction false} AgreeingInsert(n: Note, s: seq<Note>, collates: Collation)
    requires forall m :: m in s ==> (collates(n.uuid, m.uuid) <==> TextLess(n.uuid, m.uuid))
    ensures CollatedInsert(n, s, collates) == Insert(n, s)
  {
    if s != [] {
      AgreeingInsert(n, s[1..], collates);
    }
  }

  // ---- One page ----

  predicate IsAfter(n: Note, cursor: Option<NoteCursor>)
  {
    cursor.None? || Before(cursor.value, PositionOf(n))
  }

  function After(s: seq<Note>, cursor: Option<NoteCursor>): seq<Note>
  {
    if s == [] then []
    else if IsAfter(s[0], cursor) then [s[0]] + After(s[1..], cursor) else After(s[1..], cursor)
  }

  lemma {:induction false} AfterIff(s: seq<Note>, cursor: Option<NoteCursor>)
    ensures forall n :: n in After(s, cursor) <==> n in s && IsAfter(n, cursor)
  {
    if s != [] {
      assert s == [s[0]] + s[1..];
      AfterIff(s[1..], cursor);
    }
  }

  lemma {:induction false} AfterAscends(s: seq<Note>, cursor: Option<NoteCursor>)
    requires Ascending(s)
    ensures Ascending(After(s, cursor))
  {
    if s != [] {
      AfterAscends(s[1..], cursor);
      var rest := After(s[1..], cursor);
      AfterIff(s[1..], cursor);
      forall j | 0 <= j < |rest|
        ensures Before(PositionOf(s[0]), PositionOf(rest[j]))
      {
        assert rest[j] in s[1..];
      }
    }
  }

  datatype Page = Page(notes: seq<Note>, cursor: Option<NoteCursor>)

  /** The filter and slice of `listNotes`, with the cursor still a position. */
  function PageOf(sorted: seq<Note>, limit: nat, cursor: Option<NoteCursor>): Page
    requires limit > 0
  {
    var positioned := After(sorted, cursor);
    if |positioned| <= limit then Page(positioned, None)
    else Page(positioned[..limit], Some(PositionOf(positioned[limit - 1])))
  }

  function PageAfter(store: seq<Note>, limit: nat, cursor: Option<NoteCursor>): Page
    requires limit > 0
  {
    PageOf(Sorted(store), limit, cursor)
  }

  datatype Listing = Listed(notes: seq<NoteSummary>, cursor: Option<Text>) | BadLimit | BadCursor

  predicate ValidLimit(limit: int) { 1 <= limit <= 200 }

  // ---- What a listing shows, on the fields of the notes ----

  /** The time the server stamped the note with, or else its creation, or else 1970. */
  predicate LastEdited(n: Note, t: Time)
  {
    if n.updatedAt.Some? && n.updatedAt.value > 0 then n.updatedAt == Some(t)
    else n.createdAt == Some(t) || (n.createdAt == None && t == 0)
  }

  predicate Shows(s: NoteSummary, n: Note)
  {
    && s.uuid == n.uuid && (n.title == Some(s.title) || (n.title == None && s.title == []))
    && LastEdited(n, s.updatedAtMs)
  }

  ghost predicate NewestFirst(s: seq<NoteSummary>)
  {
    forall i, j :: 0 <= i < j < |s| ==> s[j].updatedAtMs <= s[i].updatedAtMs
  }

  lemma SummaryShows(n: Note)
    ensures Shows(Summary(n), n) && LastEdited(n, UpdatedAtMs(n))
  {
  }

  ghost predicate TimesDescend(s: seq<Note>)
  {
    forall i, j :: 0 <= i < j < |s| ==> UpdatedAtMs(s[j]) <= UpdatedAtMs(s[i])
  }

  lemma {:induction false} InsertDescends(n: Note, s: seq<Note>, collates: Collation)
    requires TimesDescend(s)
    ensures TimesDescend(CollatedInsert(n, s, collates))
    ensures forall m :: m in CollatedInsert(n, s, collates) ==> m in s || m == n
  {
    if s != [] && !CollatedBefore(PositionOf(n), PositionOf(s[0]), collates) {
      InsertDescends(n, s[1..], collates);
      var rest := CollatedInsert(n, s[1..], collates);
      forall j | 0 <= j < |rest|
        ensures UpdatedAtMs(rest[j]) <= UpdatedAtMs(s[0])
      {
        assert rest[j] in rest;
      }
    }
  }

  /** Whatever the collation does with notes of one time, newer notes come first. */
  lemma {:induction false} SortDescends(s: seq<Note>, collates: Collation)
    ensures TimesDescend(CollatedSort(s, collates))
  {
    if s != [] {
      SortDescends(s[..|s| - 1], collates);
      InsertDescends(s[|s| - 1], CollatedSort(s[..|s| - 1], collates), collates);
    }
  }

  lemma {:induction false} AfterIsPart(s: seq<Note>, cursor: Option<NoteCursor>)
    ensures multiset(After(s, cursor)) <= multiset(s)
    ensures cursor == None ==> After(s, cursor) == s
  {
    hide Before, IsAfter;
    if s != [] {
      AfterIsPart(s[1..], cursor);
      assert s == [s[0]] + s[1..];
      assert multiset(s) == multiset{s[0]} + multiset(s[1..]);
      EverythingIsAfterNone(s[0]);
    }
  }

  lemma EverythingIsAfterNone(n: Note)
    ensures IsAfter(n, None)
  {
  }

  lemma {:induction false} AfterDescends(s: seq<Note>, cursor: Option<NoteCursor>)
    requires TimesDescend(s)
    ensures TimesDescend(After(s, cursor))
  {
    hide IsAfter, UpdatedAtMs;
    if s != [] {
      AfterDescends(s[1..], cursor);
      AfterIff(s[1..], cursor);
      var rest := After(s[1..], cursor);
      forall j | 0 <= j < |rest|
        ensures UpdatedAtMs(rest[j]) <= UpdatedAtMs(s[0])
      {
        assert rest[j] in rest;
      }
    }
  }

  /** The listing is of these notes, the newest of the account that come after the cursor. */
  ghost predicate ListsNotes(r: Listing, notes: seq<Note>, store: seq<Note>, limit: int)
    requires r.Listed?
  {
    && |r.notes| == |notes| <= limit && (r.cursor.Some? ==> |notes| == limit)
    && (forall i :: 0 <= i < |notes| ==> Shows(r.notes[i], notes[i]))
    && NewestFirst(r.notes)
    && multiset(notes) <= multiset(store)
  }

  lemma PageShows(sorted: seq<Note>, limit: nat, cursor: Option<NoteCursor>)
    requires limit > 0 && TimesDescend(sorted)
    ensures var p := PageOf(sorted, limit, cursor);
            && TimesDescend(p.notes) && multiset(p.notes) <= multiset(sorted)
            && |p.notes| <= limit && (p.cursor.Some? ==> |p.notes| == limit)
            && (cursor == None ==> if |sorted| <= limit then p.notes == sorted && p.cursor == None
                                   else p.notes == sorted[..limit] && p.cursor.Some?)
  {
    hide Before, IsAfter, After, UpdatedAtMs;
    AfterIsPart(sorted, cursor);
    AfterDescends(sorted, cursor);
    var positioned := After(sorted, cursor);
    if |positioned| > limit {
      assert positioned == positioned[..limit] + positioned[limit..];
    }
  }

  /** Every listing shows notes of the account, newest first, at most as many as asked for. */
  lemma ListingShows(store: seq<Note>, limit: int, cursorValue: Option<Text>, collates: Collation)
    returns (notes: seq<Note>)
    requires ListedNotes(store, limit, cursorValue, collates).Listed?
    ensures ListsNotes(ListedNotes(store, limit, cursorValue, collates), notes, store, limit)
    ensures var r := ListedNotes(store, limit, cursorValue, collates);
            cursorValue == None ==>
              && (r.cursor.Some? <==> |store| > limit)
              && (r.cursor.None? ==> multiset(notes) == multiset(store))
              && forall n, t: Time, i :: n in multiset(store) - multiset(notes) && LastEdited(n, t) && 0 <= i < |notes| ==>
                   t <= r.notes[i].updatedAtMs
  {
    hide CollatedSort, DecodeNoteCursor, PageOf, Shows, UpdatedAtMs, LastEdited, Summary;
    var sorted := CollatedSort(store, collates);
    SortDescends(store, collates);
    CollatedSortIff(store, collates);
    var cursor := if cursorValue.None? || cursorValue.value == [] then None else DecodeNoteCursor(cursorValue.value);
    var page := PageOf(sorted, limit, cursor);
    PageShows(sorted, limit, cursor);
    notes := page.notes;
    PageListed(page, store, limit);
    assert |multiset(sorted)| == |multiset(store)|;
    if cursorValue == None {
      OlderLeft(sorted, store, limit, notes);
    }
  }

  lemma PageListed(page: Page, store: seq<Note>, limit: nat)
    requires TimesDescend(page.notes) && multiset(page.notes) <= multiset(store)
    requires |page.notes| <= limit && (page.cursor.Some? ==> |page.notes| == limit)
    ensures ListsNotes(Written(page), page.notes, store, limit)
    ensures forall i :: 0 <= i < |page.notes| ==> Written(page).notes[i].updatedAtMs == UpdatedAtMs(page.notes[i])
  {
    hide Shows, EncodeNoteCursor, UpdatedAtMs;
    var r := Written(page);
    forall i | 0 <= i < |page.notes|
      ensures Shows(r.notes[i], page.notes[i]) && r.notes[i].updatedAtMs == UpdatedAtMs(page.notes[i])
    {
      SummaryShows(page.notes[i]);
      assert r.notes[i] == Summary(page.notes[i]);
    }
  }

  lemma OlderLeft(sorted: seq<Note>, store: seq<Note>, limit: nat, notes: seq<Note>)
    requires TimesDescend(sorted) && multiset(sorted) == multiset(store)
    requires notes == if |sorted| <= limit then sorted else sorted[..limit]
    ensures forall n, t: Time, i :: n in multiset(store) - multiset(notes) && LastEdited(n, t) && 0 <= i < |notes| ==>
              t <= UpdatedAtMs(notes[i])
  {
    if |sorted| > limit {
      var rest := sorted[limit..];
      assert sorted == notes + rest;
      forall n, t: Time, i | n in multiset(store) - multiset(notes) && LastEdited(n, t) && 0 <= i < |notes|
        ensures t <= UpdatedAtMs(notes[i])
      {
        assert n in multiset(rest);
        var j :| 0 <= j < |rest| && rest[j] == n;
        assert sorted[limit + j] == n;
        SummaryShows(n);
      }
    }
  }

  lemma ListsSome(store: seq<Note>, limit: int, cursorValue: Option<Text>, collates: Collation)
    ensures var r := ListedNotes(store, limit, cursorValue, collates);
            r.Listed? ==> exists notes :: ListsNotes(r, notes, store, limit)
  {
    hide ListedNotes, ListsNotes;
    if ListedNotes(store, limit, cursorValue, collates).Listed? {
      var notes := ListingShows(store, limit, cursorValue, collates);
    }
  }

  /** `listNotes`; an empty cursor string counts as none. */
  method ListNotes(store: seq<Note>, limit: int, cursorValue: Option<Text>, collates: Collation) returns (r: Listing)
    ensures r == ListedNotes(store, limit, cursorValue, collates)
    ensures r == BadLimit <==> limit < 1 || 200 < limit
    ensures r.Listed? ==> exists notes :: ListsNotes(r, notes, store, limit)
  {
    hide DecodeNoteCursor, EncodeNoteCursor, CollatedSort, After, Summary, ListsNotes;
    ListsSome(store, limit, cursorValue, collates);
    if limit < 1 || limit > 200 {
      return BadLimit;
    }
    var cursor: Option<NoteCursor> := None;
    if cursorValue.Some? && cursorValue.value != [] {
      cursor := DecodeNoteCursor(cursorValue.value);
      if cursor.None? {
        return BadCursor;
      }
    }
    var positioned := After(CollatedSort(store, collates), cursor);
    var page := positioned[..if limit < |positioned| then limit else |positioned|];
    if |positioned| > limit && |page| > 0 {
      r := Listed(Summaries(page), Some(EncodeNoteCursor(PositionOf(page[|page| - 1]))));
    } else {
      r := Listed(Summaries(page), None);
    }
  }

  function ListedNotes(store: seq<Note>, limit: int, cursorValue: Option<Text>, collates: Collation): Listing
  {
    if !ValidLimit(limit) then BadLimit
    else if cursorValue.None? || cursorValue.value == [] then Written(PageOf(CollatedSort(store, collates), limit, None))
    else
      match DecodeNoteCursor(cursorValue.value)
      case None => BadCursor
      case Some(c) => Written(PageOf(CollatedSort(store, collates), limit, Some(c)))
  }

  function CursorText(cursor: Option<NoteCursor>): Option<Text>
  {
    match cursor case None => None case Some(c) => Some(EncodeNoteCursor(c))
  }

  function Written(p: Page): Listing
  {
    Listed(Summaries(p.notes), CursorText(p.cursor))
  }

  /** A cursor this bridge issued continues exactly where its page ended, if it is accepted back at all. */
  lemma IssuedCursorContinues(store: seq<Note>, limit: int, c: NoteCursor, collates: Collation)
    requires ValidLimit(limit) && (Encodable(c) || -MAX_SAFE_INTEGER <= c.updatedAtMs <= MAX_SAFE_INTEGER)
    ensures ListedNotes(store, limit, Some(EncodeNoteCursor(c)), collates) ==
            if Encodable(c) then Written(PageOf(CollatedSort(store, collates), limit, Some(c))) else BadCursor
  {
    hide DecodeNoteCursor, EncodeNoteCursor, PageOf;
    RoundTripIff(c);
    NonEmptyCursor(c);
  }

  lemma NonEmptyCursor(c: NoteCursor)
    ensures EncodeNoteCursor(c) != []
  {
    hide Encode;
    EncodedLength(Stringify(c));
    NotEmpty(Stringify(c));
  }

  lemma IssuedCursor(sorted: seq<Note>, limit: nat, cursor: Option<NoteCursor>)
    requires limit > 0
    ensures var p := PageOf(sorted, limit, cursor);
            p.cursor.Some? ==> -MAX_SAFE_INTEGER <= p.cursor.value.updatedAtMs <= MAX_SAFE_INTEGER
  {
  }

  // ---- Following cursors ----

  ghost predicate Snapshots(stores: seq<seq<Note>>)
  {
    forall i :: 0 <= i < |stores| ==> DistinctNotes(stores[i])
  }

  /** The pages a caller collects who follows cursors; `stores[i]` is the account at the `i`-th call. */
  function Follow(stores: seq<seq<Note>>, limit: nat, cursor: Option<NoteCursor>): (pages: seq<Page>)
    requires limit > 0
  {
    if stores == [] then []
    else
      var page := PageAfter(stores[0], limit, cursor);
      if page.cursor.None? then [page] else [page] + Follow(stores[1..], limit, page.cursor)
  }

  predicate Finished(pages: seq<Page>)
  {
    pages != [] && pages[|pages| - 1].cursor == None
  }

  function AllNotes(pages: seq<Page>): seq<Note>
  {
    if pages == [] then [] else pages[0].notes + AllNotes(pages[1..])
  }

  lemma PageIsRight(store: seq<Note>, limit: nat, cursor: Option<NoteCursor>)
    requires limit > 0 && DistinctNotes(store)
    ensures var p := PageAfter(store, limit, cursor);
            && Ascending(p.notes)
            && (forall n :: n in p.notes ==> n in store && IsAfter(n, cursor))
            && (forall n :: n in store && IsAfter(n, cursor) ==>
                  n in p.notes || (p.cursor.Some? && IsAfter(n, p.cursor)))
            && (p.cursor.Some? ==> |p.notes| == limit && p.cursor.value == PositionOf(p.notes[limit - 1]))
  {
    var sorted := Sorted(store);
    SortedSorts(store);
    AfterIff(sorted, cursor);
    AfterAscends(sorted, cursor);
    var positioned := After(sorted, cursor);
    forall n
      ensures n in sorted <==> n in store
    {
      assert n in multiset(sorted) <==> n in multiset(store);
    }
    var p := PageAfter(store, limit, cursor);
    forall n | n in store && IsAfter(n, cursor) && n !in p.notes
      ensures p.cursor.Some? && IsAfter(n, p.cursor)
    {
      assert n in positioned && forall i :: 0 <= i < |p.notes| ==> p.notes[i] == positioned[i];
      var i :| 0 <= i < |positioned| && positioned[i] == n;
    }
  }

  /** Over any changing store, positions strictly increase from page to page, so no note is returned twice in place. */
  lemma {:induction false} FollowAscends(stores: seq<seq<Note>>, limit: nat, cursor: Option<NoteCursor>)
    requires limit > 0 && Snapshots(stores)
    ensures Ascending(AllNotes(Follow(stores, limit, cursor)))
    ensures forall n :: n in AllNotes(Follow(stores, limit, cursor)) ==> IsAfter(n, cursor)
  {
    if stores != [] {
      var pages := Follow(stores, limit, cursor);
      var page := PageAfter(stores[0], limit, cursor);
      PageIsRight(stores[0], limit, cursor);
      if page.cursor.None? {
        assert pages[1..] == [];
        assert AllNotes(pages) == page.notes;
      } else {
        var rest := Follow(stores[1..], limit, page.cursor);
        FollowAscends(stores[1..], limit, page.cursor);
        assert pages[1..] == rest;
        LaterPagesFollow(page.notes, AllNotes(rest), page.cursor.value, cursor);
      }
    }
  }

  lemma LaterPagesFollow(first: seq<Note>, later: seq<Note>, end: NoteCursor, cursor: Option<NoteCursor>)
    requires Ascending(first) && Ascending(later) && first != [] && end == PositionOf(first[|first| - 1])
    requires (forall n :: n in later ==> IsAfter(n, Some(end))) && (forall n :: n in first ==> IsAfter(n, cursor))
    ensures Ascending(first + later)
    ensures forall n :: n in first + later ==> IsAfter(n, cursor)
  {
    var all, last := first + later, first[|first| - 1];
    forall n | n in later
      ensures IsAfter(n, cursor)
    {
      assert last in first;
      if cursor.Some? { PositionOrder(cursor.value, end, PositionOf(n)); }
    }
    forall i, j | 0 <= i < |first| <= j < |all|
      ensures Before(PositionOf(all[i]), PositionOf(all[j]))
    {
      assert all[j] in later;
      PositionOrder(PositionOf(first[i]), end, PositionOf(all[j]));
    }
  }

  /** A note that is in every snapshot is on some page, once the listing has come to its end. */
  lemma {:induction false} FollowFinds(stores: seq<seq<Note>>, limit: nat, cursor: Option<NoteCursor>, n: Note)
    requires limit > 0 && Snapshots(stores)
    requires Finished(Follow(stores, limit, cursor))
    requires IsAfter(n, cursor) && forall i :: 0 <= i < |stores| ==> n in stores[i]
    ensures n in AllNotes(Follow(stores, limit, cursor))
  {
    var pages := Follow(stores, limit, cursor);
    var page := PageAfter(stores[0], limit, cursor);
    PageIsRight(stores[0], limit, cursor);
    if page.cursor.Some? {
      var rest := Follow(stores[1..], limit, page.cursor);
      assert pages == [page] + rest && pages[1..] == rest;
      assert pages[0] == page && |pages| > 1;
      assert pages[|pages| - 1] == rest[|rest| - 1];
      if n !in page.notes {
        FollowFinds(stores[1..], limit, page.cursor, n);
      }
    } else {
      assert pages == [page];
    }
  }

  // ---- A store that does not change ----

  lemma {:induction false} AfterAscending(s: seq<Note>, k: nat)
    requires Ascending(s) && 0 < k <= |s|
    ensures After(s, Some(PositionOf(s[k - 1]))) == s[k..]
  {
    var c := PositionOf(s[k - 1]);
    if k == 1 {
      PositionOrder(c, c, c);
      AfterEverything(s[1..], c);
    } else {
      PositionOrder(c, PositionOf(s[0]), c);
      AfterAscending(s[1..], k - 1);
      assert s[1..][k - 1..] == s[k..];
    }
  }

  lemma {:induction false} AfterEverything(s: seq<Note>, c: NoteCursor)
    requires forall n :: n in s ==> Before(c, PositionOf(n))
    ensures After(s, Some(c)) == s
  {
    if s != [] {
      AfterEverything(s[1..], c);
    }
  }

  lemma {:induction false} AfterNothing(s: seq<Note>)
    ensures After(s, None) == s
  {
    if s != [] {
      AfterNothing(s[1..]);
    }
  }

  function Calls(notes: nat, limit: nat): nat
    requires limit > 0
  {
    if notes <= limit then 1 else 1 + Calls(notes - limit, limit)
  }

  /** `Calls` is ceil(notes / limit), and one for an empty store. */
  lemma {:induction false} CallsIsCeiling(notes: nat, limit: nat)
    requires limit > 0
    ensures notes <= Calls(notes, limit) * limit
    ensures notes > 0 ==> (Calls(notes, limit) - 1) * limit < notes
    ensures notes == 0 ==> Calls(notes, limit) == 1
  {
    if notes > limit {
      CallsIsCeiling(notes - limit, limit);
      var c := Calls(notes - limit, limit);
      assert (1 + c) * limit == limit + c * limit;
      assert (1 + c - 1) * limit == limit + (c - 1) * limit;
    }
  }

  /** One page of a fixed store, continuing after its first `k` notes. */
  lemma FixedPage(store: seq<Note>, limit: nat, k: nat)
    requires limit > 0 && DistinctNotes(store) && k <= |store|
    ensures |Sorted(store)| == |store|
    ensures var rest, page := Sorted(store)[k..], PageAfter(store, limit, Reached(store, k));
            if |rest| <= limit then page == Page(rest, None)
            else page == Page(rest[..limit], Reached(store, k + limit))
  {
    SortedSorts(store);
    hide Sorted;
    var sorted := Sorted(store);
    if k == 0 { AfterNothing(sorted); } else { AfterAscending(sorted, k); }
  }

  /** The cursor after the first `k` notes. */
  function Reached(store: seq<Note>, k: nat): Option<NoteCursor>
  {
    if 0 < k <= |Sorted(store)| then Some(PositionOf(Sorted(store)[k - 1])) else None
  }

  lemma {:induction false} FixedStoreFrom(store: seq<Note>, limit: nat, k: nat, stores: seq<seq<Note>>)
    requires limit > 0 && DistinctNotes(store) && k <= |store|
    requires forall i :: 0 <= i < |stores| ==> stores[i] == store
    requires Calls(|store| - k, limit) <= |stores|
    ensures |Sorted(store)| == |store|
    ensures var pages := Follow(stores, limit, Reached(store, k));
            Finished(pages) && AllNotes(pages) == Sorted(store)[k..] && |pages| == Calls(|store| - k, limit)
    decreases |store| - k
  {
    hide Sorted, PageAfter, DistinctNotes;
    FixedPage(store, limit, k);
    var page := PageAfter(store, limit, Reached(store, k));
    var pages := Follow(stores, limit, Reached(store, k));
    assert stores[0] == store;
    if |store| - k <= limit {
      assert pages == [page] && pages[1..] == [];
    } else {
      assert page.cursor.Some?;
      FixedStoreFrom(store, limit, k + limit, stores[1..]);
      var rest := Follow(stores[1..], limit, page.cursor);
      assert pages == [page] + rest && pages[1..] == rest;
      assert Sorted(store)[k..][..limit] + Sorted(store)[k + limit..] == Sorted(store)[k..];
    }
  }
}
