/** Occurrence counting, highlight ranges and highlighted pieces of the documentation search. */
module DocsSearch {
  import opened Basics
  import opened Utf8
  import opened DocsFolding

  // ---- Greedy scanning ----

  predicate Occurs(text: Text, needle: Text, at: nat)
  {
    at + |needle| <= |text| && text[at..at + |needle|] == needle
  }

  /** `String.indexOf` for a needle that is not empty. */
  function IndexOf(text: Text, needle: Text, from: nat): (at: Option<nat>)
    requires needle != []
    ensures at.Some? ==> from <= at.value <= |text| - |needle| && Occurs(text, needle, at.value)
    ensures forall k :: from <= k < (if at.Some? then at.value else |text|) ==> !Occurs(text, needle, k)
    decreases |text| - from
  {
    if from + |needle| > |text| then None
    else if text[from..from + |needle|] == needle then Some(from)
    else IndexOf(text, needle, from + 1)
  }

  /** Where the loops of `countOccurrences` and `matchingRanges` stop: leftmost occurrences that do not overlap the one before. */
  function Scan(text: Text, needle: Text, from: nat): (found: seq<nat>)
    requires needle != []
    decreases |text| - from
  {
    match IndexOf(text, needle, from)
    case None => []
    case Some(at) => [at] + Scan(text, needle, at + |needle|)
  }

  /** Occurrences of `needle`, no two of which overlap. */
  ghost predicate IsPacking(text: Text, needle: Text, s: set<nat>)
  {
    && (forall a :: a in s ==> Occurs(text, needle, a))
    && (forall a, b :: a in s && b in s && a < b ==> a + |needle| <= b)
  }

  lemma NoneLeft(text: Text, needle: Text, from: nat, s: set<nat>)
    requires needle != [] && IsPacking(text, needle, s) && forall a :: a in s ==> from <= a
    requires IndexOf(text, needle, from) == None
    ensures s == {}
  {
    hide IndexOf;
    assert forall a :: a in s ==> Occurs(text, needle, a);
  }

  /** The leftmost occurrence displaces at most one occurrence of any other packing. */
  lemma {:induction false} GreedyIsOptimal(text: Text, needle: Text, from: nat, s: set<nat>)
    requires needle != [] && IsPacking(text, needle, s) && forall a :: a in s ==> from <= a
    ensures |s| <= |Scan(text, needle, from)|
    decreases |text| - from
  {
    hide IndexOf, Occurs;
    match IndexOf(text, needle, from) {
      case None =>
        NoneLeft(text, needle, from, s);
      case Some(at) =>
        var later := set a | a in s && at + |needle| <= a;
        GreedyIsOptimal(text, needle, at + |needle|, later);
        OneIsNear(text, needle, from, at, s, later);
    }
  }

  /** Of a packing, at most one member begins where it would overlap the leftmost occurrence. */
  lemma OneIsNear(text: Text, needle: Text, from: nat, at: nat, s: set<nat>, later: set<nat>)
    requires needle != [] && IsPacking(text, needle, s) && IndexOf(text, needle, from) == Some(at)
    requires forall a :: a in s ==> from <= a
    requires forall a :: a in later <==> a in s && at + |needle| <= a
    ensures |s| <= 1 + |later|
  {
    hide Occurs, IndexOf;
    var near := s - later;
    forall a | a in s ensures at <= a {
      assert Occurs(text, needle, a);
    }
    AtMostOne(near);
    assert s == near + later;
  }

  lemma AtMostOne(s: set<nat>)
    requires forall a, b :: a in s && b in s ==> a == b
    ensures |s| <= 1
  {
    if a :| a in s {
      assert s == {a};
    }
  }

  /** Occurrences at or after `from`, from left to right, none overlapping another. */
  ghost predicate AreStops(text: Text, needle: Text, from: nat, found: seq<nat>)
  {
    && (forall i :: 0 <= i < |found| ==> from <= found[i] && Occurs(text, needle, found[i]))
    && (forall i, j :: 0 <= i < j < |found| ==> found[i] + |needle| <= found[j])
  }

  lemma {:induction false} ScanStops(text: Text, needle: Text, from: nat)
    requires needle != []
    ensures AreStops(text, needle, from, Scan(text, needle, from))
    decreases |text| - from
  {
    if IndexOf(text, needle, from).Some? {
      var at := IndexOf(text, needle, from).value;
      var rest := Scan(text, needle, at + |needle|);
      ScanStops(text, needle, at + |needle|);
      StopsGrow(text, needle, from, at, rest);
    }
  }

  lemma StopsGrow(text: Text, needle: Text, from: nat, at: nat, rest: seq<nat>)
    requires from <= at && Occurs(text, needle, at) && AreStops(text, needle, at + |needle|, rest)
    ensures AreStops(text, needle, from, [at] + rest)
  {
  }

  lemma {:induction false} ScanIsPacking(text: Text, needle: Text, from: nat) returns (s: set<nat>)
    requires needle != []
    ensures IsPacking(text, needle, s) && |s| == |Scan(text, needle, from)|
    ensures forall a :: a in s ==> from <= a
    decreases |text| - from
  {
    hide IndexOf, Occurs;
    s := {};
    if IndexOf(text, needle, from).Some? {
      var at := IndexOf(text, needle, from).value;
      var rest := ScanIsPacking(text, needle, at + |needle|);
      s := {at} + rest;
    }
  }

  /** `countOccurrences`: the size of a largest set of occurrences that do not overlap. */
  method CountOccurrences(haystack: Text, needle: Text) returns (count: nat)
    requires needle != []
    ensures exists s :: IsPacking(haystack, needle, s) && |s| == count
    ensures forall s :: IsPacking(haystack, needle, s) ==> |s| <= count
  {
    hide IsPacking, Occurs, IndexOf;
    count := 0;
    var position: nat := 0;
    var found := IndexOf(haystack, needle, position);
    while found.Some?
      invariant found == IndexOf(haystack, needle, position)
      invariant count + |Scan(haystack, needle, position)| == |Scan(haystack, needle, 0)|
      decreases |haystack| - position
    {
      count := count + 1;
      position := found.value + |needle|;
      found := IndexOf(haystack, needle, position);
    }
    ghost var packing := ScanIsPacking(haystack, needle, 0);
    forall s | IsPacking(haystack, needle, s) ensures |s| <= count {
      GreedyIsOptimal(haystack, needle, 0, s);
    }
  }

  /** No occurrence is left wholly untouched: each one overlaps an occurrence the scan stopped at. */
  lemma {:induction false} OccurrencesAreTouched(text: Text, needle: Text, from: nat, at: nat) returns (p: nat)
    requires needle != [] && from <= at && Occurs(text, needle, at)
    ensures p in Scan(text, needle, from) && p <= at < p + |needle|
    decreases |text| - from
  {
    var first := IndexOf(text, needle, from).value;
    if at < first + |needle| {
      p := first;
    } else {
      p := OccurrencesAreTouched(text, needle, first + |needle|, at);
    }
  }

  // ---- Ranges ----

  datatype Range = Range(start: nat, end: nat)

  predicate Within(r: Range, x: nat)
  {
    r.start <= x < r.end
  }

  ghost predicate Covers(ranges: seq<Range>, x: nat)
  {
    exists r :: r in ranges && Within(r, x)
  }

  ghost predicate SameCover(a: seq<Range>, b: seq<Range>)
  {
    forall x: nat :: Covers(a, x) <==> Covers(b, x)
  }

  /** Ranges that hold something, in order, with at least one position between neighbours. */
  ghost predicate Canonical(ranges: seq<Range>)
  {
    && (forall i :: 0 <= i < |ranges| ==> ranges[i].start < ranges[i].end)
    && (forall i, j :: 0 <= i < j < |ranges| ==> ranges[i].end < ranges[j].start)
  }

  /** A canonical list is determined by the positions it covers. */
  lemma {:induction false} CanonicalIsUnique(a: seq<Range>, b: seq<Range>)
    requires Canonical(a) && Canonical(b) && SameCover(a, b)
    ensures a == b
  {
    hide Covers;
    BothEmpty(a, b);
    BothEmpty(b, a);
    if a != [] {
      FirstIsNoLater(a, b);
      FirstIsNoLater(b, a);
      TailsCover(a, b);
      CanonicalIsUnique(a[1..], b[1..]);
      assert a == [a[0]] + a[1..] && b == [b[0]] + b[1..];
    }
  }

  lemma BothEmpty(a: seq<Range>, b: seq<Range>)
    requires Canonical(b) && SameCover(a, b)
    ensures a == [] ==> b == []
  {
    if b != [] {
      assert Within(b[0], b[0].start);
      assert Covers(b, b[0].start);
    }
  }

  lemma TailsCover(a: seq<Range>, b: seq<Range>)
    requires a != [] && b != [] && Canonical(a) && Canonical(b) && SameCover(a, b) && a[0] == b[0]
    ensures Canonical(a[1..]) && Canonical(b[1..]) && SameCover(a[1..], b[1..])
  {
    hide Covers;
    forall x: nat ensures Covers(a[1..], x) <==> Covers(b[1..], x) {
      CoversTail(a, x);
      CoversTail(b, x);
    }
  }

  lemma FirstIsNoLater(a: seq<Range>, b: seq<Range>)
    requires a != [] && b != [] && Canonical(a) && Canonical(b) && SameCover(a, b)
    ensures a[0].start <= b[0].start && (a[0].start == b[0].start ==> b[0].end <= a[0].end)
  {
    assert Within(b[0], b[0].start);
    assert Covers(b, b[0].start);
    var r :| r in a && Within(r, b[0].start);
    FirstEnds(a);
    var gap: nat := a[0].end;
    var first := b[0];
    assert Within(first, gap) ==> Covers(b, gap);
  }

  lemma FirstEnds(a: seq<Range>)
    requires a != [] && Canonical(a)
    ensures !Covers(a, a[0].end)
  {
    forall r | r in a ensures !Within(r, a[0].end) {
    }
  }

  lemma CoversTail(a: seq<Range>, x: nat)
    requires a != [] && Canonical(a)
    ensures Covers(a[1..], x) <==> Covers(a, x) && a[0].end <= x
  {
    if Covers(a, x) && a[0].end <= x {
      var r :| r in a && Within(r, x);
      assert r in a[1..];
    }
  }

  // ---- Sorting and merging ----

  /** The comparator given to `sort` in `matchingRanges`, read as "may stand before". */
  predicate Precedes(l: Range, r: Range)
  {
    l.start < r.start || (l.start == r.start && l.end >= r.end)
  }

  function InsertRange(x: Range, s: seq<Range>): (r: seq<Range>)
    ensures forall y :: y in r <==> y == x || y in s
  {
    if s == [] || Precedes(x, s[0]) then [x] + s else [s[0]] + InsertRange(x, s[1..])
  }

  function SortRanges(s: seq<Range>): (r: seq<Range>)
    ensures forall y :: y in r <==> y in s
  {
    if s == [] then [] else InsertRange(s[0], SortRanges(s[1..]))
  }

  ghost predicate StartsAscend(s: seq<Range>)
  {
    forall i, j :: 0 <= i < j < |s| ==> s[i].start <= s[j].start
  }

  lemma {:induction false} InsertAscends(x: Range, s: seq<Range>)
    requires StartsAscend(s)
    ensures StartsAscend(InsertRange(x, s))
  {
    if s != [] && !Precedes(x, s[0]) {
      InsertAscends(x, s[1..]);
      var rest := InsertRange(x, s[1..]);
      forall j | 0 <= j < |rest| ensures s[0].start <= rest[j].start {
        assert rest[j] in rest;
      }
    }
  }

  lemma {:induction false} SortAscends(s: seq<Range>)
    ensures StartsAscend(SortRanges(s))
  {
    if s != [] {
      SortAscends(s[1..]);
      InsertAscends(s[0], SortRanges(s[1..]));
    }
  }

  function Max(a: nat, b: nat): nat
  {
    if a < b then b else a
  }

  /** The reducer given to `reduce` in `matchingRanges`. */
  function MergeOne(merged: seq<Range>, range: Range): seq<Range>
  {
    var n := |merged| - 1;
    if merged != [] && range.start <= merged[n].end then
      merged[n := merged[n].(end := Max(merged[n].end, range.end))]
    else merged + [range]
  }

  lemma MergeOneCanonical(merged: seq<Range>, range: Range)
    requires Canonical(merged) && range.start < range.end
    requires forall i :: 0 <= i < |merged| ==> merged[i].start <= range.start
    ensures Canonical(MergeOne(merged, range))
    ensures forall i :: 0 <= i < |MergeOne(merged, range)| ==> MergeOne(merged, range)[i].start <= range.start
  {
  }

  lemma MergeOneCovers(merged: seq<Range>, range: Range, x: nat)
    requires forall i :: 0 <= i < |merged| ==> merged[i].start <= range.start
    ensures Covers(MergeOne(merged, range), x) <==> Covers(merged, x) || Within(range, x)
  {
    var next, n := MergeOne(merged, range), |merged| - 1;
    if Covers(merged, x) {
      var r :| r in merged && Within(r, x);
      var i :| 0 <= i < |merged| && merged[i] == r;
      assert next[i] in next && Within(next[i], x);
    }
    if Within(range, x) {
      assert next[|next| - 1] in next && Within(next[|next| - 1], x);
    }
    if Covers(next, x) {
      var r :| r in next && Within(r, x);
      assert r in merged || r == next[|next| - 1];
      assert r !in merged && |next| == |merged| ==> Within(merged[n], x) || Within(range, x);
    }
  }

  /** The `reduce` over the sorted ranges. */
  method MergeRanges(ranges: seq<Range>) returns (merged: seq<Range>)
    requires StartsAscend(ranges) && forall r :: r in ranges ==> r.start < r.end
    ensures Canonical(merged) && SameCover(merged, ranges)
  {
    merged := [];
    var i := 0;
    while i < |ranges|
      invariant 0 <= i <= |ranges|
      invariant Canonical(merged)
      invariant SameCover(merged, ranges[..i])
      invariant forall k :: 0 <= k < |merged| ==> i > 0 && merged[k].start <= ranges[i - 1].start
    {
      var range := ranges[i];
      ghost var before := merged;
      MergeOneCanonical(before, range);
      if |merged| > 0 && range.start <= merged[|merged| - 1].end {
        var previous := merged[|merged| - 1];
        merged := merged[|merged| - 1 := Range(previous.start, Max(previous.end, range.end))];
      } else {
        merged := merged + [range];
      }
      assert merged == MergeOne(before, range);
      forall x: nat ensures Covers(merged, x) <==> Covers(ranges[..i + 1], x) {
        MergeOneCovers(before, range, x);
        CoversOneMore(ranges, i, x);
      }
      i := i + 1;
    }
    assert ranges[..i] == ranges;
  }

  lemma CoversOneMore(ranges: seq<Range>, i: nat, x: nat)
    requires i < |ranges|
    ensures Covers(ranges[..i + 1], x) <==> Covers(ranges[..i], x) || Within(ranges[i], x)
  {
    assert ranges[..i + 1] == ranges[..i] + [ranges[i]];
  }

  // ---- Matching ----

  /** The offsets of this occurrence exist; where they do not, the source reads `undefined`. */
  predicate InReach(f: Fold, term: Text, at: nat)
  {
    term != [] && at + |term| <= |f.starts| == |f.ends|
  }

  /** The empty range stands for one with an undefined end. */
  function RangeAt(f: Fold, term: Text, at: nat): Range
  {
    if InReach(f, term, at) then Range(f.starts[at], f.ends[at + |term| - 1]) else Range(0, 0)
  }

  ghost predicate AllInReach(f: Fold, term: Text, from: nat)
    requires term != []
  {
    forall at :: at in Scan(f.text, term, from) ==> InReach(f, term, at)
  }

  /** Some scanned occurrence of some term has no offsets. */
  ghost predicate Overreaches(f: Fold, terms: seq<Text>)
  {
    exists term :: term in terms && term != [] && !AllInReach(f, term, 0)
  }

  /** The ranges `matchingRanges` pushes for one term, from `from` on. */
  function RangesFrom(f: Fold, term: Text, from: nat): seq<Range>
    requires term != []
    decreases |f.text| - from
  {
    match IndexOf(f.text, term, from)
    case None => []
    case Some(at) => [RangeAt(f, term, at)] + RangesFrom(f, term, at + |term|)
  }

  function RangesOf(f: Fold, terms: seq<Text>): seq<Range>
    requires [] !in terms
  {
    if terms == [] then []
    else RangesOf(f, terms[..|terms| - 1]) + RangesFrom(f, terms[|terms| - 1], 0)
  }

  /** Position `x` of the source belongs to the scanned occurrence of `term` at `at`. */
  ghost predicate Lights(f: Fold, term: Text, at: nat, x: nat)
  {
    term != [] && at in Scan(f.text, term, 0) && Within(RangeAt(f, term, at), x)
  }

  ghost predicate Lit(f: Fold, terms: seq<Text>, x: nat)
  {
    exists term, at: nat :: term in terms && Lights(f, term, at, x)
  }

  /** The canonical ranges whose union is that of all scanned occurrences of the terms. */
  ghost predicate IsHighlighting(f: Fold, terms: seq<Text>, ranges: seq<Range>)
  {
    Canonical(ranges) && forall x: nat :: Covers(ranges, x) <==> Lit(f, terms, x)
  }

  /** Neither the order of the terms nor repeating one changes the ranges. */
  lemma HighlightingIgnoresTermOrder(f: Fold, terms: seq<Text>, others: seq<Text>, a: seq<Range>, b: seq<Range>)
    requires IsHighlighting(f, terms, a) && IsHighlighting(f, others, b)
    requires forall term :: term in terms <==> term in others
    ensures a == b
  {
    forall x: nat ensures Lit(f, terms, x) <==> Lit(f, others, x) {
    }
    CanonicalIsUnique(a, b);
  }

  lemma {:induction false} RangesFromScan(f: Fold, term: Text, from: nat, r: Range)
    requires term != []
    ensures r in RangesFrom(f, term, from) <==> exists at :: at in Scan(f.text, term, from) && r == RangeAt(f, term, at)
    decreases |f.text| - from
  {
    hide IndexOf, Occurs;
    if IndexOf(f.text, term, from).Some? {
      var at := IndexOf(f.text, term, from).value;
      RangesFromScan(f, term, at + |term|, r);
      assert Scan(f.text, term, from) == [at] + Scan(f.text, term, at + |term|);
    }
  }

  lemma CoversBoth(a: seq<Range>, b: seq<Range>, x: nat)
    ensures Covers(a + b, x) <==> Covers(a, x) || Covers(b, x)
  {
  }

  lemma RangesFromLights(f: Fold, term: Text, x: nat)
    requires term != []
    ensures Covers(RangesFrom(f, term, 0), x) <==> exists at: nat :: Lights(f, term, at, x)
  {
    hide RangesFrom, Scan, Occurs;
    if Covers(RangesFrom(f, term, 0), x) {
      var r :| r in RangesFrom(f, term, 0) && Within(r, x);
      RangesFromScan(f, term, 0, r);
      var at :| at in Scan(f.text, term, 0) && r == RangeAt(f, term, at);
      assert Lights(f, term, at, x);
    }
    if exists at: nat :: Lights(f, term, at, x) {
      var at: nat :| Lights(f, term, at, x);
      RangesFromScan(f, term, 0, RangeAt(f, term, at));
    }
  }

  lemma {:induction false} RangesOfLit(f: Fold, terms: seq<Text>, x: nat)
    requires [] !in terms
    ensures Covers(RangesOf(f, terms), x) <==> Lit(f, terms, x)
  {
    hide RangesFrom, Lights, Covers;
    if terms == [] {
      NothingCovers(x);
    } else {
      var init, last := terms[..|terms| - 1], terms[|terms| - 1];
      assert terms == init + [last];
      RangesOfLit(f, init, x);
      RangesFromLights(f, last, x);
      CoversBoth(RangesOf(f, init), RangesFrom(f, last, 0), x);
      LitOneMore(f, init, last, x);
    }
  }

  lemma NothingCovers(x: nat)
    ensures !Covers([], x)
  {
  }

  lemma LitOneMore(f: Fold, init: seq<Text>, last: Text, x: nat)
    ensures Lit(f, init + [last], x) <==> Lit(f, init, x) || exists at: nat :: Lights(f, last, at, x)
  {
    hide Lights;
    if exists at: nat :: Lights(f, last, at, x) {
      var at: nat :| Lights(f, last, at, x);
      assert last in init + [last];
    }
    if Lit(f, init, x) {
      var term, at: nat :| term in init && Lights(f, term, at, x);
      assert term in init + [last];
    }
  }

  function InsertTerm(x: Text, s: seq<Text>): (r: seq<Text>)
    ensures forall y :: y in r <==> y == x || y in s
  {
    if s == [] || |x| >= |s[0]| then [x] + s else [s[0]] + InsertTerm(x, s[1..])
  }

  /** Longest first, ties in their old order. */
  function LongestFirst(s: seq<Text>): (r: seq<Text>)
    ensures forall y :: y in r <==> y in s
  {
    if s == [] then [] else InsertTerm(s[0], LongestFirst(s[1..]))
  }

  function NonEmpty(s: seq<Text>): (r: seq<Text>)
    ensures forall y :: y in r <==> y in s && y != []
  {
    if s == [] then [] else (if s[0] == [] then [] else [s[0]]) + NonEmpty(s[1..])
  }

  function SearchedTerms(terms: seq<Text>): (r: seq<Text>)
    ensures forall y :: y in r <==> y in terms && y != []
  {
    LongestFirst(NonEmpty(Distinct(terms)))
  }

  lemma RangeIsProper(source: seq<Character>, term: Text, at: nat)
    requires WellFormed(source) && InReach(FoldOf(source), term, at)
    ensures var r := RangeAt(FoldOf(source), term, at); r.start < r.end <= |SourceUnits(source)|
  {
    AlignedIff(source);
    OffsetsOrdered(source);
  }

  lemma {:induction false} RangesAreProper(source: seq<Character>, terms: seq<Text>)
    requires WellFormed(source) && [] !in terms && !Overreaches(FoldOf(source), terms)
    ensures forall r :: r in RangesOf(FoldOf(source), terms) ==> r.start < r.end <= |SourceUnits(source)|
  {
    hide FoldOf, WellFormed, SourceUnits, RangesFrom, Scan, RangeAt;
    var f := FoldOf(source);
    if terms != [] {
      var init, last := terms[..|terms| - 1], terms[|terms| - 1];
      RangesAreProper(source, init);
      forall r | r in RangesFrom(f, last, 0) ensures r.start < r.end <= |SourceUnits(source)| {
        RangesFromScan(f, last, 0, r);
        var at :| at in Scan(f.text, last, 0) && r == RangeAt(f, last, at);
        assert AllInReach(f, last, 0);
        RangeIsProper(source, last, at);
      }
    }
  }

  /** Every occurrence of every term has its offsets exactly when no letter or number folds to a surrogate pair. */
  lemma NeverOverreachesIff(source: seq<Character>)
    requires WellFormed(source)
    ensures AllNarrow(source) <==> forall terms :: !Overreaches(FoldOf(source), terms)
  {
    AlignedIff(source);
    hide FoldOf, WellFormed, AllNarrow, SourceUnits;
    var f := FoldOf(source);
    if AllNarrow(source) {
      forall terms ensures !Overreaches(f, terms) {
        forall term | term in terms && term != [] ensures AllInReach(f, term, 0) {
          ScanStops(f.text, term, 0);
        }
      }
    } else {
      WholeTextScanned(f.text);
      assert 0 in Scan(f.text, f.text, 0) && !InReach(f, f.text, 0);
      assert f.text in [f.text] && !AllInReach(f, f.text, 0);
      assert Overreaches(f, [f.text]);
    }
  }

  lemma WholeTextScanned(text: Text)
    requires text != []
    ensures 0 in Scan(text, text, 0)
  {
  }

  lemma EndsCovered(merged: seq<Range>, ranges: seq<Range>, limit: nat)
    requires Canonical(merged) && SameCover(merged, ranges) && forall r :: r in ranges ==> r.end <= limit
    ensures forall r :: r in merged ==> r.end <= limit
  {
    forall r | r in merged ensures r.end <= limit {
      var last: nat := r.end - 1;
      assert Within(r, last);
      assert Covers(merged, last);
    }
  }

  lemma HighlightingFound(f: Fold, terms: seq<Text>, merged: seq<Range>)
    requires Canonical(merged)
    requires SameCover(merged, SortRanges(RangesOf(f, SearchedTerms(terms))))
    ensures IsHighlighting(f, terms, merged)
  {
    var todo := SearchedTerms(terms);
    var ranges := RangesOf(f, todo);
    forall x: nat ensures Covers(merged, x) <==> Lit(f, terms, x) {
      RangesOfLit(f, todo, x);
      assert Covers(SortRanges(ranges), x) <==> Covers(ranges, x);
      assert Lit(f, todo, x) <==> Lit(f, terms, x);
    }
  }

  lemma ReachOneMore(f: Fold, term: Text, from: nat)
    requires term != []
    ensures match IndexOf(f.text, term, from)
            case None => AllInReach(f, term, from)
            case Some(at) => AllInReach(f, term, from) <==> InReach(f, term, at) && AllInReach(f, term, at + |term|)
  {
    hide IndexOf, InReach;
    if IndexOf(f.text, term, from).Some? {
      var at := IndexOf(f.text, term, from).value;
      var rest := Scan(f.text, term, at + |term|);
      assert Scan(f.text, term, from) == [at] + rest;
      assert at in [at] + rest;
    }
  }

  lemma RangeOneMore(f: Fold, term: Text, from: nat)
    requires term != [] && |f.starts| == |f.ends|
    ensures match IndexOf(f.text, term, from)
            case None => RangesFrom(f, term, from) == []
            case Some(at) =>
              && RangesFrom(f, term, from) == [RangeAt(f, term, at)] + RangesFrom(f, term, at + |term|)
              && (InReach(f, term, at) <==> at + |term| <= |f.ends|)
              && (InReach(f, term, at) ==> RangeAt(f, term, at) == Range(f.starts[at], f.ends[at + |term| - 1]))
  {
    hide IndexOf;
  }

  lemma RangesNextTerm(f: Fold, todo: seq<Text>, i: nat)
    requires i < |todo| && [] !in todo
    ensures [] !in todo[..i] && [] !in todo[..i + 1]
    ensures RangesOf(f, todo[..i + 1]) == RangesOf(f, todo[..i]) + RangesFrom(f, todo[i], 0)
  {
    assert todo[..i + 1][..i] == todo[..i];
  }

  lemma NoRanges(f: Fold, todo: seq<Text>)
    ensures [] !in todo[..0] && RangesOf(f, todo[..0]) == []
  {
  }

  lemma NothingOverreaches(f: Fold, todo: seq<Text>)
    requires [] !in todo
    ensures Overreaches(f, todo) <==> exists k :: 0 <= k < |todo| && !AllInReach(f, todo[k], 0)
  {
    hide AllInReach;
  }

  lemma OverreachAlike(f: Fold, terms: seq<Text>)
    ensures Overreaches(f, SearchedTerms(terms)) <==> Overreaches(f, terms)
  {
    hide AllInReach, LongestFirst, NonEmpty;
  }

  /** `matchingRanges`; `None` where it reads offsets that do not exist. */
  method MatchingRanges(source: seq<Character>, terms: seq<Text>) returns (r: Option<seq<Range>>)
    requires WellFormed(source)
    ensures r.None? <==> Overreaches(FoldOf(source), terms)
    ensures r.Some? ==> IsHighlighting(FoldOf(source), terms, r.value)
    ensures r.Some? ==> forall range :: range in r.value ==> range.end <= |SourceUnits(source)|
  {
    hide *;
    var text, starts, ends := FoldForMatching(source);
    ghost var f := FoldOf(source);
    AlignedIff(source);
    var todo := SearchedTerms(terms);
    OverreachAlike(f, terms);
    NothingOverreaches(f, todo);
    var ranges: seq<Range> := [];
    var i := 0;
    NoRanges(f, todo);
    while i < |todo|
      invariant 0 <= i <= |todo|
      invariant [] !in todo[..i] && ranges == RangesOf(f, todo[..i])
      invariant forall k :: 0 <= k < i ==> AllInReach(f, todo[k], 0)
    {
      var term := todo[i];
      RangesNextTerm(f, todo, i);
      ghost var before := ranges;
      var position: nat := 0;
      var found := IndexOf(text, term, position);
      while found.Some?
        invariant found == IndexOf(text, term, position)
        invariant ranges + RangesFrom(f, term, position) == before + RangesFrom(f, term, 0)
        invariant AllInReach(f, term, 0) <==> AllInReach(f, term, position)
        decreases |text| - position
      {
        ReachOneMore(f, term, position);
        RangeOneMore(f, term, position);
        var at := found.value;
        var endPosition := at + |term| - 1;
        if endPosition >= |ends| {
          return None;
        }
        ranges := ranges + [Range(starts[at], ends[endPosition])];
        position := at + |term|;
        found := IndexOf(text, term, position);
      }
      ReachOneMore(f, term, position);
      RangeOneMore(f, term, position);
      i := i + 1;
    }
    assert todo[..i] == todo;
    RangesAreProper(source, todo);
    SortAscends(ranges);
    var merged := MergeRanges(SortRanges(ranges));
    HighlightingFound(f, terms, merged);
    EndsCovered(merged, SortRanges(ranges), |SourceUnits(source)|);
    return Some(merged);
  }

  // ---- Ranges and the characters they hold ----

  /**
   The characters from `i` to `j`: the first produces the first unit of the occurrence, the last one produces its last
   unit or is the last vanishing mark behind it, and by themselves they fold to a text that holds the term.
   */
  ghost predicate IsRun(source: seq<Character>, term: Text, at: nat, i: nat, j: nat)
  {
    var last := at + |term| - 1;
    && i < j <= |source| && term != []
    && Produces(source, i, at)
    && (Produces(source, j - 1, last) || Stretches(source, j - 1, last))
    && (forall c :: j <= c < |source| ==> !Stretches(source, c, last))
    && exists k: nat :: Occurs(FoldOf(source[i..j]).text, term, k)
  }

  /** A term that begins and ends with a letter or number. */
  predicate Bare(term: Text)
  {
    term != [] && term[0] != SPACE && term[|term| - 1] != SPACE
  }

  /**
   If letters fold to single units, the range of an occurrence is a run of whole characters, from the one that
   produces its first unit to the one that ends its last, and their own folding holds the term.
   */
  lemma OccurrenceIsRun(source: seq<Character>, term: Text, at: nat) returns (i: nat, j: nat)
    requires WellFormed(source) && AllNarrow(source) && Bare(term) && Occurs(FoldOf(source).text, term, at)
    ensures IsRun(source, term, at, i, j)
    ensures RangeAt(FoldOf(source), term, at) == Range(|SourceUnits(source[..i])|, |SourceUnits(source[..j])|)
  {
    hide FoldOf, WellFormed, AllNarrow, Produces, Stretches, SourceUnits;
    var n, last := |source|, at + |term| - 1;
    assert source[..n] == source;
    var text := FoldOf(source).text;
    assert text[at] == term[0] && text[last] == term[|term| - 1];
    var p, q;
    i, p := UnitOffsets(source, n, at);
    q, j := UnitOffsets(source, n, last);
    NarrowPrefix(source, n);
    NarrowPrefix(source, i);
    NarrowPrefix(source, j);
    ReachesBefore(source, q, j, last);
    StartsBefore(source, i, j, at, last);
    var k := PartOccurs(source, term, at, i, j);
  }

  lemma ReachesBefore(source: seq<Character>, q: nat, j: nat, k: nat)
    requires WellFormed(source) && AllNarrow(source) && q < j <= |source| && Produces(source, q, k)
    ensures k < |FoldTo(source, j).text|
  {
    hide FoldOf, WellFormed, AllNarrow;
    TextGrows(source, q + 1, j);
  }

  lemma StartsBefore(source: seq<Character>, i: nat, j: nat, at: nat, last: nat)
    requires WellFormed(source) && AllNarrow(source) && i < |source| && j <= |source|
    requires Produces(source, i, at) && at <= last < |FoldTo(source, j).text|
    ensures i < j && |FoldTo(source, i).text| <= at
  {
    hide FoldOf, WellFormed, AllNarrow;
    if j <= i {
      TextGrows(source, j, i);
    }
  }

  lemma PartOccurs(source: seq<Character>, term: Text, at: nat, i: nat, j: nat) returns (k: nat)
    requires WellFormed(source) && AllNarrow(source) && i < j <= |source|
    requires Bare(term) && Occurs(FoldOf(source).text, term, at)
    requires |FoldTo(source, i).text| <= at && at + |term| <= |FoldTo(source, j).text|
    ensures Occurs(FoldOf(source[i..j]).text, term, k)
  {
    hide FoldOf, WellFormed, AllNarrow;
    assert source[..|source|] == source;
    TextGrows(source, j, |source|);
    PartFolds(source, i, j);
    k := OccursBehind(FoldTo(source, j), FoldOf(source[i..j]), FoldTo(source, i).text, term, at);
  }

  lemma OccursBehind(whole: Fold, part: Fold, before: Text, term: Text, at: nat) returns (k: nat)
    requires EndsAs(whole, part, before) && Bare(term) && Occurs(whole.text, term, at) && |before| <= at
    ensures Occurs(part.text, term, k)
  {
    var gap := |whole.text| - |part.text|;
    assert whole.text[at] == term[0];
    assert whole.text[gap..] == part.text;
    k := at - gap;
    assert part.text[k..k + |term|] == whole.text[at..at + |term|];
  }

  /** So the lit units are those of the runs of the scanned occurrences. */
  lemma LitIffInRun(source: seq<Character>, terms: seq<Text>, x: nat)
    requires WellFormed(source) && AllNarrow(source) && forall term :: term in terms && term != [] ==> Bare(term)
    ensures Lit(FoldOf(source), terms, x) <==>
            exists term, at: nat, i: nat, j: nat :: term in terms && RunHolds(source, term, at, i, j, x)
  {
    hide WellFormed, AllNarrow, IsRun, FoldOf, RangeAt, Scan, Bare;
    if Lit(FoldOf(source), terms, x) {
      var term, at: nat :| term in terms && Lights(FoldOf(source), term, at, x);
      ScanStops(FoldOf(source).text, term, 0);
      var i, j := OccurrenceIsRun(source, term, at);
      assert RunHolds(source, term, at, i, j, x);
    }
    if exists term, at: nat, i: nat, j: nat :: term in terms && RunHolds(source, term, at, i, j, x) {
      var term, at: nat, i: nat, j: nat :| term in terms && RunHolds(source, term, at, i, j, x);
      RunIsLit(source, term, at, i, j, x);
    }
  }

  /** Position `x` of the source belongs to the run of the scanned occurrence at `at`. */
  ghost predicate RunHolds(source: seq<Character>, term: Text, at: nat, i: nat, j: nat, x: nat)
  {
    && term != [] && at in Scan(FoldOf(source).text, term, 0) && IsRun(source, term, at, i, j)
    && |SourceUnits(source[..i])| <= x < |SourceUnits(source[..j])|
  }

  lemma RunIsLit(source: seq<Character>, term: Text, at: nat, i: nat, j: nat, x: nat)
    requires WellFormed(source) && AllNarrow(source) && Bare(term) && RunHolds(source, term, at, i, j, x)
    ensures Lights(FoldOf(source), term, at, x)
  {
    hide WellFormed, AllNarrow, FoldOf, RangeAt, Scan, Bare;
    ScanStops(FoldOf(source).text, term, 0);
    var a, b := OccurrenceIsRun(source, term, at);
    OneRun(source, term, at, i, j, a, b);
  }

  /** An occurrence has one run only. */
  lemma OneRun(source: seq<Character>, term: Text, at: nat, i: nat, j: nat, a: nat, b: nat)
    requires WellFormed(source) && AllNarrow(source)
    requires IsRun(source, term, at, i, j) && IsRun(source, term, at, a, b)
    ensures i == a && j == b
  {
    hide WellFormed, AllNarrow, FoldOf, Produces, Stretches, Occurs;
    var last := at + |term| - 1;
    OneProduces(source, i, a, at);
    OneEnd(source, j - 1, b - 1, last);
  }

  lemma OneProduces(source: seq<Character>, c: nat, d: nat, k: nat)
    requires WellFormed(source) && AllNarrow(source) && Produces(source, c, k) && Produces(source, d, k)
    ensures c == d
  {
    hide WellFormed, AllNarrow, FoldTo;
    if c < d {
      TextGrows(source, c + 1, d);
    } else if d < c {
      TextGrows(source, d + 1, c);
    }
  }

  lemma OneEnd(source: seq<Character>, c: nat, d: nat, k: nat)
    requires WellFormed(source) && AllNarrow(source)
    requires Produces(source, c, k) || Stretches(source, c, k)
    requires Produces(source, d, k) || Stretches(source, d, k)
    requires forall e :: c < e < |source| ==> !Stretches(source, e, k)
    requires forall e :: d < e < |source| ==> !Stretches(source, e, k)
    ensures c == d
  {
    hide WellFormed, AllNarrow, FoldTo;
    if Produces(source, c, k) && Produces(source, d, k) {
      OneProduces(source, c, d, k);
    } else if Produces(source, c, k) {
      ProducedBefore(source, c, d, k);
    } else if Produces(source, d, k) {
      ProducedBefore(source, d, c, k);
    }
  }

  lemma ProducedBefore(source: seq<Character>, c: nat, d: nat, k: nat)
    requires WellFormed(source) && AllNarrow(source) && Produces(source, c, k) && Stretches(source, d, k)
    ensures c < d
  {
    hide WellFormed, AllNarrow, FoldTo;
    if d <= c {
      TextGrows(source, d, c);
    }
  }

  /** U+10400 folds to the letter U+10428, two units; `b` follows. */
  const ASTRAL_LETTER: seq<Character> := [
    Character([0xD801, 0xDC00], false, [Folded([0xD801, 0xDC28], true)]), Character([0x62], false, [Folded([0x62], true)])]

  lemma AstralLetterFolds()
    ensures FoldOf(ASTRAL_LETTER) == Fold([0xD801, 0xDC28, 0x62], [0, 2], [2, 3], 3, -1, -1)
  {
    hide FoldOf, TakeAll;
    var s := ASTRAL_LETTER;
    var f0, f1 := Fold([], [], [], 0, -1, -1), Fold([0xD801, 0xDC28], [0], [2], 2, -1, -1);
    FoldsNothing(s);
    FoldOneMore(s, 0);
    FoldsOne(f0, s[0]);
    assert FoldOf(s[..1]) == f1;
    FoldOneMore(s, 1);
    FoldsOne(f1, s[1]);
    assert FoldOf(s[..2]) == Fold([0xD801, 0xDC28, 0x62], [0, 2], [2, 3], 3, -1, -1);
    assert s[..2] == s;
  }

  lemma AstralScans()
    ensures var text: Text := [0xD801, 0xDC28, 0x62];
            0 in Scan(text, [0xD801, 0xDC28], 0) && 2 in Scan(text, [0x62], 0)
  {
    var text: Text := [0xD801, 0xDC28, 0x62];
    assert IndexOf(text, [0xD801, 0xDC28], 0) == Some(0);
    assert text[0..1] != [0x62] && text[1..2] != [0x62] && text[2..3] == [0x62];
    assert IndexOf(text, [0x62], 2) == Some(2) && IndexOf(text, [0x62], 1) == Some(2) && IndexOf(text, [0x62], 0) == Some(2);
  }

  /**
   Why the offsets must be aligned: after a letter that folds to a surrogate pair, a search for that letter ends at
   the offset of its neighbour, and a search for the neighbour looks past the last offset.
   */
  lemma AstralLetterMisplaces()
    ensures WellFormed(ASTRAL_LETTER) && !AllNarrow(ASTRAL_LETTER)
    ensures var f := FoldOf(ASTRAL_LETTER);
            && |f.starts| == |f.ends| == 2 && f.starts[0] == 0 && f.ends[1] == 3
            && Occurs(f.text, [0xD801, 0xDC28], 0) && Occurs(f.text, [0x62], 2)
    ensures Lit(FoldOf(ASTRAL_LETTER), [[0xD801, 0xDC28]], 2)
    ensures Overreaches(FoldOf(ASTRAL_LETTER), [[0x62]])
  {
    hide FoldOf, Scan;
    AstralLetterFolds();
    AstralScans();
    var f, letter, b := FoldOf(ASTRAL_LETTER), [0xD801, 0xDC28], [0x62];
    assert letter in [letter] && Lights(f, letter, 0, 2);
    assert b in [b] && !InReach(f, b, 2);
    assert !AllInReach(f, b, 0);
    assert !Narrow(ASTRAL_LETTER[0].folded) by {
      assert |ASTRAL_LETTER[0].folded[0].units| == 2;
    }
  }

  // ---- Highlighted pieces ----

  /** A text node, or the content of a `mark` element. */
  datatype Piece = Plain(units: Text) | Mark(units: Text)

  function Content(pieces: seq<Piece>): Text
  {
    if pieces == [] then [] else Content(pieces[..|pieces| - 1]) + pieces[|pieces| - 1].units
  }

  /** Whether each unit of the content stands in a `mark`. */
  function Marks(pieces: seq<Piece>): (marks: seq<bool>)
    ensures |marks| == |Content(pieces)|
  {
    if pieces == [] then []
    else
      var last := pieces[|pieces| - 1];
      Marks(pieces[..|pieces| - 1]) + seq(|last.units|, _ => last.Mark?)
  }

  lemma ContentJoin(pieces: seq<Piece>, next: Piece)
    ensures Content(pieces + [next]) == Content(pieces) + next.units
    ensures Marks(pieces + [next]) == Marks(pieces) + seq(|next.units|, _ => next.Mark?)
  {
    var longer := pieces + [next];
    assert longer[..|longer| - 1] == pieces;
  }

  /** The pieces so far spell the text up to `position` and mark exactly what `ranges` covers of it. */
  ghost predicate Spells(pieces: seq<Piece>, text: Text, position: nat, ranges: seq<Range>)
  {
    && position <= |text| && Content(pieces) == text[..position]
    && forall x: nat :: x < position ==> (Marks(pieces)[x] <==> Covers(ranges, x))
  }

  lemma SpellsMore(pieces: seq<Piece>, text: Text, position: nat, next: nat, ranges: seq<Range>, piece: Piece)
    requires Spells(pieces, text, position, ranges)
    requires position <= next <= |text| && piece.units == text[position..next]
    requires forall x: nat :: position <= x < next ==> (piece.Mark? <==> Covers(ranges, x))
    ensures Spells(pieces + [piece], text, next, ranges)
  {
    hide Covers, Content, Marks;
    ContentJoin(pieces, piece);
    assert text[..next] == text[..position] + text[position..next];
    assert |Marks(pieces)| == position;
    forall x: nat | x < next ensures Marks(pieces + [piece])[x] <==> Covers(ranges, x) {
      if x >= position {
        assert Marks(pieces + [piece])[x] == piece.Mark?;
      }
    }
  }

  /** Between two neighbours of a canonical list, before the first and after the last, nothing is covered. */
  lemma GapBefore(ranges: seq<Range>, i: nat, x: nat)
    requires Canonical(ranges) && i <= |ranges|
    requires (i > 0 ==> ranges[i - 1].end <= x) && (i < |ranges| ==> x < ranges[i].start)
    ensures !Covers(ranges, x)
  {
    forall r | r in ranges ensures !Within(r, x) {
      var k :| 0 <= k < |ranges| && ranges[k] == r;
      assert k < i - 1 ==> ranges[k].end < ranges[i - 1].start;
      assert k > i ==> ranges[i].end < ranges[k].start;
    }
  }

  /**
   `appendHighlightedText`: the pieces read as the text, and the marked units are the lit ones. Without ranges the
   one piece left is the whole text, as in the source's early return. `None` where `matchingRanges` reads offsets
   that do not exist.
   */
  method AppendHighlightedText(source: seq<Character>, terms: seq<Text>) returns (r: Option<seq<Piece>>)
    requires WellFormed(source)
    ensures r.None? <==> Overreaches(FoldOf(source), terms)
    ensures r.Some? ==> Content(r.value) == SourceUnits(source)
    ensures r.Some? ==> forall x: nat :: x < |SourceUnits(source)| ==>
              (Marks(r.value)[x] <==> Lit(FoldOf(source), terms, x))
  {
    hide FoldOf, WellFormed, Overreaches, Lit, Marks, Content;
    var text := SourceUnits(source);
    var found := MatchingRanges(source, terms);
    if found.None? {
      return None;
    }
    var ranges, pieces: seq<Piece> := found.value, [];
    NothingSpelled(text, ranges);
    var position: nat := 0;
    var i := 0;
    while i < |ranges|
      invariant 0 <= i <= |ranges|
      invariant position == (if i == 0 then 0 else ranges[i - 1].end)
      invariant Spells(pieces, text, position, ranges)
    {
      hide Spells, SourceUnits;
      var range := ranges[i];
      assert range in ranges;
      forall x: nat | position <= x < range.start ensures !Covers(ranges, x) {
        GapBefore(ranges, i, x);
      }
      SpellsMore(pieces, text, position, range.start, ranges, Plain(text[position..range.start]));
      pieces := pieces + [Plain(text[position..range.start])];
      forall x: nat | range.start <= x < range.end ensures Covers(ranges, x) {
        assert Within(range, x);
      }
      SpellsMore(pieces, text, range.start, range.end, ranges, Mark(text[range.start..range.end]));
      pieces := pieces + [Mark(text[range.start..range.end])];
      position := range.end;
      i := i + 1;
    }
    forall x: nat | position <= x < |text| ensures !Covers(ranges, x) {
      GapBefore(ranges, i, x);
    }
    SpellsMore(pieces, text, position, |text|, ranges, Plain(text[position..]));
    pieces := pieces + [Plain(text[position..])];
    return Some(pieces);
  }

  lemma NothingSpelled(text: Text, ranges: seq<Range>)
    ensures Spells([], text, 0, ranges)
  {
  }
}
