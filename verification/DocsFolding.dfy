/**
 `foldForMatching`: text folded for searching, with the source offsets of every folded unit. The Unicode
 tables enter as data: each source character carries its folding and whether it is a combining mark.
 */
module DocsFolding {
  import opened Basics
  import opened Utf8

  /** One code point of a folding: its UTF-16 units, and whether it is a letter or number. */
  datatype Folded = Folded(units: Text, alphanumeric: bool)

  datatype Character = Character(units: Text, isMark: bool, folded: seq<Folded>)

  predicate CodePoint(units: Text)
  {
    1 <= |units| <= 2
  }

  predicate WellFormed(source: seq<Character>)
  {
    forall i :: 0 <= i < |source| ==>
      CodePoint(source[i].units) && forall k :: 0 <= k < |source[i].folded| ==> CodePoint(source[i].folded[k].units)
  }

  /** The local variables of the loop; `-1` means no separator is pending. */
  datatype Fold = Fold(text: Text, starts: seq<nat>, ends: seq<nat>, offset: nat, separatorStart: int, separatorEnd: int)

  const SPACE: Unit := 0x20

  function Flush(f: Fold): Fold
  {
    if f.separatorStart >= 0 && f.separatorEnd >= 0 && |f.text| > 0 then
      f.(text := f.text + [SPACE], starts := f.starts + [f.separatorStart], ends := f.ends + [f.separatorEnd])
    else f
  }

  function TakeFolded(f: Fold, c: Folded, start: nat, end: nat): Fold
  {
    if c.alphanumeric then
      var g := Flush(f);
      Fold(g.text + c.units, g.starts + [start], g.ends + [end], g.offset, -1, -1)
    else
      f.(separatorStart := if f.separatorStart == -1 then start else f.separatorStart, separatorEnd := end)
  }

  function TakeAll(f: Fold, folded: seq<Folded>, start: nat, end: nat): Fold
  {
    if folded == [] then f
    else TakeFolded(TakeAll(f, folded[..|folded| - 1], start, end), folded[|folded| - 1], start, end)
  }

  /** A mark that folds to nothing stretches the last entry over itself. */
  function Stretch(f: Fold, c: Character, end: nat): Fold
  {
    if c.folded == [] && c.isMark && |f.ends| > 0 then f.(ends := f.ends[|f.ends| - 1 := end]) else f
  }

  function TakeCharacter(f: Fold, c: Character): Fold
  {
    var end := f.offset + |c.units|;
    TakeAll(Stretch(f.(offset := end), c, end), c.folded, f.offset, end)
  }

  function FoldOf(source: seq<Character>): Fold
  {
    if source == [] then Fold([], [], [], 0, -1, -1)
    else TakeCharacter(FoldOf(source[..|source| - 1]), source[|source| - 1])
  }

  lemma TakeOneMore(f: Fold, folded: seq<Folded>, k: nat, start: nat, end: nat)
    requires k < |folded|
    ensures TakeAll(f, folded[..k + 1], start, end) == TakeFolded(TakeAll(f, folded[..k], start, end), folded[k], start, end)
  {
    assert folded[..k + 1][..k] == folded[..k];
  }

  lemma FoldOneMore(source: seq<Character>, i: nat)
    requires i < |source|
    ensures FoldOf(source[..i + 1]) == TakeCharacter(FoldOf(source[..i]), source[i])
  {
    assert source[..i + 1][..i] == source[..i];
  }

  /** `foldForMatching` */
  method FoldForMatching(source: seq<Character>) returns (text: Text, starts: seq<nat>, ends: seq<nat>)
    ensures var f := FoldOf(source); text == f.text && starts == f.starts && ends == f.ends
  {
    hide FoldOf, TakeAll;
    text, starts, ends := [], [], [];
    var offset: nat, separatorStart, separatorEnd := 0, -1, -1;
    var i := 0;
    FoldsNothing(source);
    while i < |source|
      invariant 0 <= i <= |source|
      invariant FoldOf(source[..i]) == Fold(text, starts, ends, offset, separatorStart, separatorEnd)
      invariant separatorStart >= -1 && separatorEnd >= -1 && (separatorStart == -1 <==> separatorEnd == -1)
    {
      FoldOneMore(source, i);
      var character := source[i];
      var start := offset;
      var end := start + |character.units|;
      offset := end;
      if |character.folded| == 0 && character.isMark && |ends| > 0 {
        ends := ends[|ends| - 1 := end];
      }
      ghost var stretched := Fold(text, starts, ends, offset, separatorStart, separatorEnd);
      var k := 0;
      TakeNone(stretched, character.folded, start, end);
      while k < |character.folded|
        invariant 0 <= k <= |character.folded|
        invariant TakeAll(stretched, character.folded[..k], start, end)
               == Fold(text, starts, ends, offset, separatorStart, separatorEnd)
        invariant separatorStart >= -1 && separatorEnd >= -1 && (separatorStart == -1 <==> separatorEnd == -1)
      {
        TakeOneMore(stretched, character.folded, k, start, end);
        var folded := character.folded[k];
        if folded.alphanumeric {
          if separatorStart != -1 && |text| > 0 {
            var gapStart: nat, gapEnd: nat := separatorStart, separatorEnd;
            text, starts, ends := text + [SPACE], starts + [gapStart], ends + [gapEnd];
          }
          separatorStart, separatorEnd := -1, -1;
          text, starts, ends := text + folded.units, starts + [start], ends + [end];
        } else {
          if separatorStart == -1 {
            separatorStart := start;
          }
          separatorEnd := end;
        }
        k := k + 1;
      }
      assert character.folded[..k] == character.folded;
      i := i + 1;
    }
    assert source[..i] == source;
  }

  lemma TakeNone(f: Fold, folded: seq<Folded>, start: nat, end: nat)
    ensures TakeAll(f, folded[..0], start, end) == f
  {
  }

  function SourceUnits(source: seq<Character>): Text
  {
    if source == [] then [] else SourceUnits(source[..|source| - 1]) + source[|source| - 1].units
  }

  // ---- The folded text ----

  /** The letters and numbers of some folded code points, one after another. */
  function LettersIn(folded: seq<Folded>): Text
  {
    if folded == [] then []
    else
      var before, last := LettersIn(folded[..|folded| - 1]), folded[|folded| - 1];
      if last.alphanumeric then before + last.units else before
  }

  function LettersOf(source: seq<Character>): Text
  {
    if source == [] then [] else LettersOf(source[..|source| - 1]) + LettersIn(source[|source| - 1].folded)
  }

  /** The text without its spaces. */
  function Squeezed(text: Text): Text
  {
    if text == [] then []
    else
      var before, last := Squeezed(text[..|text| - 1]), text[|text| - 1];
      if last == SPACE then before else before + [last]
  }

  predicate Unspaced(folded: seq<Folded>)
  {
    forall k :: 0 <= k < |folded| && folded[k].alphanumeric ==> folded[k].units != [] && SPACE !in folded[k].units
  }

  /** Single spaces, and none at either end. */
  ghost predicate WellSpaced(text: Text)
  {
    && (text != [] ==> text[0] != SPACE && text[|text| - 1] != SPACE)
    && forall i, j :: 0 <= i && j == i + 1 && j < |text| ==> text[i] != SPACE || text[j] != SPACE
  }

  lemma {:induction false} SqueezedJoin(a: Text, b: Text)
    ensures Squeezed(a + b) == Squeezed(a) + Squeezed(b)
  {
    if b == [] {
      assert a + b == a;
    } else {
      assert (a + b)[..|a + b| - 1] == a + b[..|b| - 1];
      SqueezedJoin(a, b[..|b| - 1]);
    }
  }

  lemma {:induction false} SqueezedSame(text: Text)
    requires SPACE !in text
    ensures Squeezed(text) == text
  {
    if text != [] {
      assert text == text[..|text| - 1] + [text[|text| - 1]];
      SqueezedSame(text[..|text| - 1]);
    }
  }

  lemma TakeFoldedSpaces(f: Fold, c: Folded, start: nat, end: nat)
    requires WellSpaced(f.text) && (c.alphanumeric ==> c.units != [] && SPACE !in c.units)
    ensures WellSpaced(TakeFolded(f, c, start, end).text)
    ensures Squeezed(TakeFolded(f, c, start, end).text) == Squeezed(f.text) + (if c.alphanumeric then c.units else [])
  {
    hide Squeezed;
    if c.alphanumeric {
      var g := Flush(f);
      SqueezedJoin(f.text, [SPACE]);
      OneSpace();
      SqueezedJoin(g.text, c.units);
      SqueezedSame(c.units);
      JoinSpaced(f.text, c.units);
    }
  }

  lemma OneSpace()
    ensures Squeezed([SPACE]) == []
  {
    assert [SPACE][..0] == [];
  }

  lemma JoinSpaced(a: Text, b: Text)
    requires WellSpaced(a) && b != [] && SPACE !in b
    ensures WellSpaced(a + b) && (a != [] ==> WellSpaced(a + [SPACE] + b))
  {
  }

  lemma {:induction false} TakeAllSpaces(f: Fold, folded: seq<Folded>, start: nat, end: nat)
    requires WellSpaced(f.text) && Unspaced(folded)
    ensures WellSpaced(TakeAll(f, folded, start, end).text)
    ensures Squeezed(TakeAll(f, folded, start, end).text) == Squeezed(f.text) + LettersIn(folded)
  {
    hide TakeFolded, WellSpaced, Squeezed;
    if folded != [] {
      var init := folded[..|folded| - 1];
      TakeAllSpaces(f, init, start, end);
      TakeFoldedSpaces(TakeAll(f, init, start, end), folded[|folded| - 1], start, end);
    }
  }

  /** The folded text has the letters and numbers of the source, in order, with single spaces inside only. */
  lemma {:induction false} FoldSpaces(source: seq<Character>)
    requires forall i :: 0 <= i < |source| ==> Unspaced(source[i].folded)
    ensures WellSpaced(FoldOf(source).text) && Squeezed(FoldOf(source).text) == LettersOf(source)
  {
    hide TakeAll, Unspaced, WellSpaced, Squeezed;
    if source == [] {
      NothingSpaced();
    } else {
      var init, last := source[..|source| - 1], source[|source| - 1];
      FoldSpaces(init);
      var f := FoldOf(init);
      var end := f.offset + |last.units|;
      TakeAllSpaces(Stretch(f.(offset := end), last, end), last.folded, f.offset, end);
    }
  }

  lemma NothingSpaced()
    ensures WellSpaced([]) && Squeezed([]) == []
  {
  }

  // ---- Alignment ----

  /** Letters and numbers that fold to one UTF-16 unit each. */
  predicate Narrow(folded: seq<Folded>)
  {
    forall k :: 0 <= k < |folded| && folded[k].alphanumeric ==> |folded[k].units| == 1
  }

  predicate AllNarrow(source: seq<Character>)
  {
    forall i :: 0 <= i < |source| ==> Narrow(source[i].folded)
  }

  lemma {:induction false} TakeAllAligns(f: Fold, folded: seq<Folded>, start: nat, end: nat)
    requires forall k :: 0 <= k < |folded| ==> CodePoint(folded[k].units)
    requires |f.starts| == |f.ends| <= |f.text|
    ensures var g := TakeAll(f, folded, start, end);
            && |g.starts| == |g.ends| <= |g.text| && g.offset == f.offset
            && (|g.text| == |g.starts| <==> |f.text| == |f.starts| && Narrow(folded))
  {
    if folded != [] {
      TakeAllAligns(f, folded[..|folded| - 1], start, end);
    }
  }

  /**
   There is one pair of offsets per unit of the folded text exactly when no letter or number folds to a
   surrogate pair; otherwise every offset after the first such letter belongs to a later unit.
   */
  lemma {:induction false} AlignedIff(source: seq<Character>)
    requires WellFormed(source)
    ensures var f := FoldOf(source);
            && |f.starts| == |f.ends| <= |f.text|
            && (|f.text| == |f.starts| <==> AllNarrow(source))
            && f.offset == |SourceUnits(source)|
  {
    if source != [] {
      var init, last := source[..|source| - 1], source[|source| - 1];
      AlignedIff(init);
      var f := FoldOf(init);
      var end := f.offset + |last.units|;
      TakeAllAligns(Stretch(f.(offset := end), last, end), last.folded, f.offset, end);
    }
  }

  // ---- Offsets ----

  predicate NonDecreasing(s: seq<nat>)
  {
    forall i, j :: 0 <= i < j < |s| ==> s[i] <= s[j]
  }

  ghost predicate SeparatorOrdered(f: Fold, start: nat, limit: nat)
  {
    && 0 <= f.separatorStart <= start && f.separatorStart < f.separatorEnd <= limit
    && forall i :: 0 <= i < |f.starts| ==> f.starts[i] <= f.separatorStart
  }

  /** Offsets so far lie within the source read so far, every entry is non-empty, and starts never go back. */
  ghost predicate Ordered(f: Fold, start: nat, limit: nat)
  {
    && |f.starts| == |f.ends|
    && NonDecreasing(f.starts)
    && (forall i :: 0 <= i < |f.starts| ==> f.starts[i] <= start && f.starts[i] < f.ends[i] <= limit)
    && (f.separatorStart == -1 <==> f.separatorEnd == -1)
    && (f.separatorStart != -1 ==> SeparatorOrdered(f, start, limit))
  }

  lemma TakeFoldedOrdered(f: Fold, c: Folded, start: nat, end: nat)
    requires start < end && Ordered(f, start, end)
    ensures Ordered(TakeFolded(f, c, start, end), start, end)
  {
  }

  lemma {:induction false} TakeAllOrdered(f: Fold, folded: seq<Folded>, start: nat, end: nat)
    requires start < end && Ordered(f, start, end)
    ensures Ordered(TakeAll(f, folded, start, end), start, end)
  {
    hide TakeFolded;
    if folded != [] {
      var init := folded[..|folded| - 1];
      TakeAllOrdered(f, init, start, end);
      TakeFoldedOrdered(TakeAll(f, init, start, end), folded[|folded| - 1], start, end);
    }
  }

  lemma {:induction false} OffsetsOrdered(source: seq<Character>)
    requires WellFormed(source)
    ensures Ordered(FoldOf(source), FoldOf(source).offset, FoldOf(source).offset)
  {
    if source != [] {
      var init, last := source[..|source| - 1], source[|source| - 1];
      OffsetsOrdered(init);
      var f := FoldOf(init);
      var end := f.offset + |last.units|;
      var g := Stretch(f.(offset := end), last, end);
      assert Ordered(g, f.offset, end);
      TakeAllOrdered(g, last.folded, f.offset, end);
      TakeAllKeepsOffset(g, last.folded, f.offset, end);
    }
  }

  lemma {:induction false} TakeAllKeepsOffset(f: Fold, folded: seq<Folded>, start: nat, end: nat)
    ensures TakeAll(f, folded, start, end).offset == f.offset
  {
    if folded != [] {
      TakeAllKeepsOffset(f, folded[..|folded| - 1], start, end);
    }
  }

  // ---- Where folded units come from ----

  /** The folding of the first `i` characters. */
  function FoldTo(source: seq<Character>, i: nat): Fold
    requires i <= |source|
  {
    FoldOf(source[..i])
  }

  /** Character `c` contributes the folded unit `k`. */
  predicate Produces(source: seq<Character>, c: nat, k: nat)
  {
    c < |source| && |FoldTo(source, c).text| <= k < |FoldTo(source, c + 1).text|
  }

  /** Character `c` is a mark that folds to nothing, and the last unit before it is `k`. */
  predicate Stretches(source: seq<Character>, c: nat, k: nat)
  {
    c < |source| && source[c].folded == [] && source[c].isMark && |FoldTo(source, c).text| == k + 1
  }

  /** From `f` to `g` entries are only added: spaces, or letters with the offsets `start` and `end`. */
  ghost predicate Extends(f: Fold, g: Fold, start: nat, end: nat)
  {
    && |f.text| == |f.starts| == |f.ends| <= |g.text| == |g.starts| == |g.ends|
    && f.text == g.text[..|f.text|] && f.starts == g.starts[..|f.text|] && f.ends == g.ends[..|f.text|]
    && forall k :: |f.text| <= k < |g.text| && g.text[k] != SPACE ==> g.starts[k] == start && g.ends[k] == end
  }

  lemma ExtendsMore(f: Fold, g: Fold, h: Fold, start: nat, end: nat)
    requires Extends(f, g, start, end) && Extends(g, h, start, end)
    ensures Extends(f, h, start, end)
  {
    var n := |f.text|;
    assert g.text[..n] == h.text[..n] && g.starts[..n] == h.starts[..n] && g.ends[..n] == h.ends[..n];
    forall k | n <= k < |h.text| && h.text[k] != SPACE
      ensures h.starts[k] == start && h.ends[k] == end
    {
      if k < |g.text| {
        assert g.text[k] == h.text[k] && g.starts[k] == h.starts[k] && g.ends[k] == h.ends[k];
      }
    }
  }

  lemma TakeFoldedExtends(f: Fold, c: Folded, start: nat, end: nat)
    requires |f.text| == |f.starts| == |f.ends| && (c.alphanumeric ==> |c.units| == 1)
    ensures Extends(f, TakeFolded(f, c, start, end), start, end)
  {
    if c.alphanumeric {
      var g, h := Flush(f), TakeFolded(f, c, start, end);
      assert Extends(f, g, start, end);
      assert Extends(g, h, start, end);
      ExtendsMore(f, g, h, start, end);
    }
  }

  lemma {:induction false} TakeAllExtends(f: Fold, folded: seq<Folded>, start: nat, end: nat)
    requires |f.text| == |f.starts| == |f.ends| && Narrow(folded)
    ensures Extends(f, TakeAll(f, folded, start, end), start, end)
  {
    hide TakeFolded, Extends;
    if folded != [] {
      var init := folded[..|folded| - 1];
      TakeAllExtends(f, init, start, end);
      OneMoreExtends(f, TakeAll(f, init, start, end), folded[|folded| - 1], start, end);
    } else {
      ExtendsItself(f, start, end);
    }
  }

  lemma OneMoreExtends(f: Fold, g: Fold, c: Folded, start: nat, end: nat)
    requires Extends(f, g, start, end) && (c.alphanumeric ==> |c.units| == 1)
    ensures Extends(f, TakeFolded(g, c, start, end), start, end)
  {
    hide TakeFolded;
    TakeFoldedExtends(g, c, start, end);
    ExtendsMore(f, g, TakeFolded(g, c, start, end), start, end);
  }

  lemma ExtendsItself(f: Fold, start: nat, end: nat)
    requires |f.text| == |f.starts| == |f.ends|
    ensures Extends(f, f, start, end)
  {
  }

  lemma NarrowPrefix(source: seq<Character>, i: nat)
    requires WellFormed(source) && AllNarrow(source) && i <= |source|
    ensures var f := FoldTo(source, i); |f.text| == |f.starts| == |f.ends| && f.offset == |SourceUnits(source[..i])|
  {
    AlignedIff(source[..i]);
  }

  /** One more character: the last entry may be stretched, and then entries are only added. */
  lemma NextFold(source: seq<Character>, i: nat)
    requires WellFormed(source) && AllNarrow(source) && i < |source|
    ensures var f, g := FoldTo(source, i), FoldTo(source, i + 1);
            && Extends(Stretch(f, source[i], g.offset), g, f.offset, g.offset)
            && |f.text| == |f.starts| == |f.ends| && f.text <= g.text
            && (source[i].folded == [] ==> f.text == g.text)
            && (|f.ends| == 0 ==> Stretch(f, source[i], g.offset) == f)
  {
    hide FoldOf;
    NarrowPrefix(source, i);
    FoldOneMore(source, i);
    var f, c := FoldTo(source, i), source[i];
    var end := f.offset + |c.units|;
    var stretched := Stretch(f.(offset := end), c, end);
    TakeAllExtends(stretched, c.folded, f.offset, end);
    TakeAllKeepsOffset(stretched, c.folded, f.offset, end);
    if c.folded == [] {
      TakeAllOfNone(stretched, f.offset, end);
    }
  }

  lemma {:induction false} TextGrows(source: seq<Character>, i: nat, j: nat)
    requires WellFormed(source) && AllNarrow(source) && i <= j <= |source|
    ensures FoldTo(source, i).text <= FoldTo(source, j).text
  {
    hide FoldTo, Extends, WellFormed, AllNarrow;
    if i < j {
      TextGrows(source, i, j - 1);
      NextFold(source, j - 1);
    }
  }

  /**
   The offsets of unit `k`: it starts where the character `p` that produces it starts, and ends at `q`, behind that
   character or behind the last vanishing mark before any other letter.
   */
  ghost predicate OffsetsAre(source: seq<Character>, m: nat, k: nat, p: nat, q: nat)
    requires m <= |source|
  {
    var f := FoldTo(source, m);
    && p < q <= m && k < |f.starts| && k < |f.ends|
    && f.starts[k] == FoldTo(source, p).offset && f.ends[k] == FoldTo(source, q).offset
    && Produces(source, p, k)
    && (q == p + 1 || Stretches(source, q - 1, k))
    && forall c :: q <= c < m ==> !Stretches(source, c, k)
  }

  lemma {:induction false} UnitOffsets(source: seq<Character>, m: nat, k: nat) returns (p: nat, q: nat)
    requires WellFormed(source) && AllNarrow(source) && m <= |source|
    requires k < |FoldTo(source, m).text| && FoldTo(source, m).text[k] != SPACE
    ensures OffsetsAre(source, m, k, p, q)
  {
    hide FoldOf, WellFormed, AllNarrow;
    if m == 0 {
      FoldsNothing(source);
      assert false;
    } else {
      var i := m - 1;
      NextFold(source, i);
      NarrowPrefix(source, m);
      var f, g := FoldTo(source, i), FoldTo(source, m);
      if k < |f.text| {
        p, q := UnitOffsets(source, i, k);
        q := OffsetsLater(source, i, k, p, q);
      } else {
        p, q := i, m;
      }
    }
  }

  lemma OffsetsLater(source: seq<Character>, i: nat, k: nat, p: nat, r: nat) returns (q: nat)
    requires WellFormed(source) && AllNarrow(source) && i < |source| && OffsetsAre(source, i, k, p, r)
    ensures OffsetsAre(source, i + 1, k, p, q)
  {
    hide FoldOf, WellFormed, AllNarrow, Produces;
    q := if Stretches(source, i, k) then i + 1 else r;
    NextFold(source, i);
    NarrowPrefix(source, i);
    var f, g := FoldTo(source, i), FoldTo(source, i + 1);
    var stretched := Stretch(f, source[i], g.offset);
    assert stretched.starts[k] == g.starts[k] && stretched.ends[k] == g.ends[k];
  }

  // ---- Folding a part of the source ----

  predicate Pending(f: Fold)
  {
    f.separatorStart != -1
  }

  predicate SeparatorSet(f: Fold)
  {
    && f.separatorStart >= -1 && f.separatorEnd >= -1
    && (f.separatorStart == -1 <==> f.separatorEnd == -1)
  }

  /** `whole` has read what `part` has, and before it something that folds to `before`. */
  ghost predicate EndsAs(whole: Fold, part: Fold, before: Text)
  {
    && SeparatorSet(whole) && SeparatorSet(part)
    && (part.text == [] ==> whole.text == before)
    && (part.text != [] ==>
          && Pending(whole) == Pending(part)
          && (whole.text == before + part.text || whole.text == before + [SPACE] + part.text))
  }

  lemma TakeFoldedEnds(whole: Fold, part: Fold, before: Text, c: Folded, start: nat, end: nat, from: nat, to: nat)
    requires EndsAs(whole, part, before) && CodePoint(c.units)
    ensures EndsAs(TakeFolded(whole, c, start, end), TakeFolded(part, c, from, to), before)
  {
    if c.alphanumeric {
      var w, p := TakeFolded(whole, c, start, end).text, TakeFolded(part, c, from, to).text;
      if part.text == [] {
        assert p == c.units;
      } else {
        var gap: Text := if Pending(part) then [SPACE] else [];
        assert p == part.text + (gap + c.units) && w == whole.text + (gap + c.units);
        assert w == before + (part.text + (gap + c.units)) || w == before + [SPACE] + (part.text + (gap + c.units));
      }
    }
  }

  lemma {:induction false} TakeAllEnds(whole: Fold, part: Fold, before: Text, folded: seq<Folded>, start: nat, end: nat,
                                       from: nat, to: nat)
    requires EndsAs(whole, part, before) && forall k :: 0 <= k < |folded| ==> CodePoint(folded[k].units)
    ensures EndsAs(TakeAll(whole, folded, start, end), TakeAll(part, folded, from, to), before)
  {
    hide EndsAs, TakeFolded;
    if folded != [] {
      var init := folded[..|folded| - 1];
      TakeAllEnds(whole, part, before, init, start, end, from, to);
      TakeFoldedEnds(TakeAll(whole, init, start, end), TakeAll(part, init, from, to), before, folded[|folded| - 1],
                     start, end, from, to);
    }
  }

  /** The folding of a part of the source is what the folding of the whole has beyond the characters before. */
  lemma {:induction false} PartFolds(source: seq<Character>, i: nat, j: nat)
    requires WellFormed(source) && i <= j <= |source|
    ensures EndsAs(FoldTo(source, j), FoldOf(source[i..j]), FoldTo(source, i).text)
  {
    hide TakeAll, EndsAs, FoldOf;
    if i == j {
      assert source[i..j] == source[..0];
      FoldsNothing(source);
      NothingAfter(source, i);
    } else {
      PartFolds(source, i, j - 1);
      FoldOneMore(source, j - 1);
      var c := source[j - 1];
      assert source[i..][..j - i] == source[i..j] && source[i..][..j - 1 - i] == source[i..j - 1];
      FoldOneMore(source[i..], j - 1 - i);
      TakeCharacterEnds(FoldTo(source, j - 1), FoldOf(source[i..j - 1]), FoldTo(source, i).text, c);
    }
  }

  lemma TakeCharacterEnds(whole: Fold, part: Fold, before: Text, c: Character)
    requires EndsAs(whole, part, before) && forall k :: 0 <= k < |c.folded| ==> CodePoint(c.folded[k].units)
    ensures EndsAs(TakeCharacter(whole, c), TakeCharacter(part, c), before)
  {
    hide TakeAll;
    var end, to := whole.offset + |c.units|, part.offset + |c.units|;
    var w, p := Stretch(whole.(offset := end), c, end), Stretch(part.(offset := to), c, to);
    assert EndsAs(w, p, before);
    TakeAllEnds(w, p, before, c.folded, whole.offset, end, part.offset, to);
  }

  lemma NothingAfter(source: seq<Character>, i: nat)
    requires WellFormed(source) && i <= |source|
    ensures EndsAs(FoldTo(source, i), Fold([], [], [], 0, -1, -1), FoldTo(source, i).text)
  {
    hide FoldOf;
    OffsetsOrdered(source[..i]);
  }

  // ---- Ends can go back ----

  /** Where the reader is between letters: `Gap(true)` once a vanishing mark follows the last separator. */
  datatype Between = NoLetterYet | AfterLetter | Gap(markLast: bool)

  /** `strayed` once a letter closed a gap whose last mark came after its last separator. */
  datatype Watch = Watch(between: Between, strayed: bool)

  function WatchFolded(w: Watch, c: Folded): Watch
  {
    if c.alphanumeric then Watch(AfterLetter, w.strayed || w.between == Gap(true))
    else if w.between == NoLetterYet then w else w.(between := Gap(false))
  }

  function WatchAll(w: Watch, folded: seq<Folded>): Watch
  {
    if folded == [] then w else WatchFolded(WatchAll(w, folded[..|folded| - 1]), folded[|folded| - 1])
  }

  function WatchCharacter(w: Watch, c: Character): Watch
  {
    if c.folded == [] && c.isMark && w.between.Gap? then w.(between := Gap(true)) else WatchAll(w, c.folded)
  }

  function WatchOf(source: seq<Character>): Watch
  {
    if source == [] then Watch(NoLetterYet, false)
    else WatchCharacter(WatchOf(source[..|source| - 1]), source[|source| - 1])
  }

  ghost predicate Watched(w: Watch, f: Fold, start: nat, end: nat)
  {
    && Ordered(f, start, end)
    && (w.between == NoLetterYet <==> f.text == []) && (f.text == [] <==> f.ends == [])
    && (w.between == AfterLetter ==> f.separatorStart == -1)
    && (w.between.Gap? ==> f.separatorStart != -1)
    && (w.between.Gap? ==> (w.between.markLast <==> f.separatorEnd < f.ends[|f.ends| - 1]))
    && (w.strayed <==> !NonDecreasing(f.ends))
    && (forall i :: 0 <= i < |f.ends| ==> f.ends[i] <= f.ends[|f.ends| - 1])
  }

  lemma WatchFoldedStep(w: Watch, f: Fold, c: Folded, start: nat, end: nat)
    requires start < end && CodePoint(c.units) && Watched(w, f, start, end)
    ensures Watched(WatchFolded(w, c), TakeFolded(f, c, start, end), start, end)
  {
    TakeFoldedOrdered(f, c, start, end);
    if c.alphanumeric {
      var g := Flush(f);
      FlushedEnds(w, f, start, end);
      AppendEnd(g.ends, end);
    }
  }

  lemma AppendEnd(ends: seq<nat>, end: nat)
    requires forall i :: 0 <= i < |ends| ==> ends[i] <= end
    ensures NonDecreasing(ends + [end]) <==> NonDecreasing(ends)
  {
    if NonDecreasing(ends + [end]) {
      assert forall i :: 0 <= i < |ends| ==> (ends + [end])[i] == ends[i];
    }
  }

  lemma FlushedEnds(w: Watch, f: Fold, start: nat, end: nat)
    requires Watched(w, f, start, end)
    ensures NonDecreasing(Flush(f).ends) <==> !(w.strayed || w.between == Gap(true))
    ensures forall i :: 0 <= i < |Flush(f).ends| ==> Flush(f).ends[i] <= end
  {
    var g := Flush(f);
    if w.between.Gap? {
      assert g.ends == f.ends + [f.separatorEnd];
      assert forall i :: 0 <= i < |f.ends| ==> g.ends[i] == f.ends[i];
      if w.between.markLast {
        assert g.ends[|f.ends| - 1] > g.ends[|f.ends|];
      }
    }
  }

  lemma {:induction false} WatchAllStep(w: Watch, f: Fold, folded: seq<Folded>, start: nat, end: nat)
    requires start < end && (forall k :: 0 <= k < |folded| ==> CodePoint(folded[k].units)) && Watched(w, f, start, end)
    ensures Watched(WatchAll(w, folded), TakeAll(f, folded, start, end), start, end)
  {
    hide Watched, WatchFolded, TakeFolded;
    if folded != [] {
      var init := folded[..|folded| - 1];
      WatchAllStep(w, f, init, start, end);
      WatchFoldedStep(WatchAll(w, init), TakeAll(f, init, start, end), folded[|folded| - 1], start, end);
    }
  }

  lemma WatchStretch(w: Watch, f: Fold, c: Character, start: nat, end: nat)
    requires start < end && Watched(w, f, start, start) && c.folded == [] && c.isMark
    ensures Watched(WatchCharacter(w, c), Stretch(f, c, end), start, end)
  {
    if |f.ends| > 0 {
      RaiseLast(f.ends, end);
      hide NonDecreasing;
    }
  }

  /** Raising the last, greatest entry neither mends nor breaks the order of the entries. */
  lemma RaiseLast(ends: seq<nat>, end: nat)
    requires ends != [] && forall i :: 0 <= i < |ends| ==> ends[i] <= ends[|ends| - 1] <= end
    ensures var raised := ends[|ends| - 1 := end];
            && (NonDecreasing(raised) <==> NonDecreasing(ends))
            && forall i :: 0 <= i < |raised| ==> raised[i] <= end
  {
    var n := |ends| - 1;
    var raised := ends[n := end];
    assert forall i :: 0 <= i < n ==> raised[i] == ends[i];
    if !NonDecreasing(ends) {
      var i, j :| 0 <= i < j < |ends| && ends[i] > ends[j];
    }
  }

  lemma {:induction false} FoldIsWatched(source: seq<Character>)
    requires WellFormed(source)
    ensures Watched(WatchOf(source), FoldOf(source), FoldOf(source).offset, FoldOf(source).offset)
  {
    if source == [] {
      return;
    }
    hide Watched, WatchAll, TakeAll;
    var init, last := source[..|source| - 1], source[|source| - 1];
    FoldIsWatched(init);
    var w, f := WatchOf(init), FoldOf(init);
    WatchCharacterStep(w, f, last);
  }

  lemma WatchCharacterStep(w: Watch, f: Fold, c: Character)
    requires CodePoint(c.units) && (forall k :: 0 <= k < |c.folded| ==> CodePoint(c.folded[k].units))
    requires Watched(w, f, f.offset, f.offset)
    ensures var g := TakeCharacter(f, c); Watched(WatchCharacter(w, c), g, g.offset, g.offset)
  {
    hide Watched, WatchAll, TakeAll;
    var end := f.offset + |c.units|;
    var moved := f.(offset := end);
    var g := Stretch(moved, c, end);
    OffsetMoves(w, f, end);
    if c.folded == [] && c.isMark {
      WatchStretch(w, moved, c, f.offset, end);
      TakeAllOfNone(g, f.offset, end);
    } else {
      WatchAllStep(w, g, c.folded, f.offset, end);
    }
    TakeAllKeepsOffset(g, c.folded, f.offset, end);
    LaterStart(WatchCharacter(w, c), TakeCharacter(f, c), f.offset, end);
  }

  lemma OffsetMoves(w: Watch, f: Fold, end: nat)
    requires f.offset < end && Watched(w, f, f.offset, f.offset)
    ensures Watched(w, f.(offset := end), f.offset, end) && Watched(w, f.(offset := end), f.offset, f.offset)
  {
  }

  lemma TakeAllOfNone(f: Fold, start: nat, end: nat)
    ensures TakeAll(f, [], start, end) == f
  {
  }

  lemma LaterStart(w: Watch, f: Fold, start: nat, end: nat)
    requires start < end && Watched(w, f, start, end)
    ensures Watched(w, f, end, end)
  {
  }

  // ---- The same condition, read off the source ----

  predicate Lettered(c: Character)
  {
    exists k :: 0 <= k < |c.folded| && c.folded[k].alphanumeric
  }

  predicate StartsWithLetter(c: Character)
  {
    c.folded != [] && c.folded[0].alphanumeric
  }

  predicate EndsInSeparator(c: Character)
  {
    c.folded != [] && !c.folded[|c.folded| - 1].alphanumeric
  }

  predicate LetterBefore(source: seq<Character>, n: nat)
    requires n <= |source|
  {
    exists l :: 0 <= l < n && Lettered(source[l])
  }

  /** Character `p` ends in a separator after some letter, and everything from there to `n` folds to nothing. */
  predicate Apart(source: seq<Character>, p: nat, n: nat)
    requires n <= |source|
  {
    p < n && LetterBefore(source, p + 1) && EndsInSeparator(source[p]) && forall k :: p < k < n ==> source[k].folded == []
  }

  predicate MarkInGap(source: seq<Character>, p: nat, m: nat, n: nat)
    requires n <= |source|
  {
    Apart(source, p, n) && p < m < n && source[m].isMark
  }

  /** A letter right after a gap that holds a combining mark. */
  predicate Strays(source: seq<Character>, p: nat, m: nat, q: nat)
  {
    q < |source| && StartsWithLetter(source[q]) && MarkInGap(source, p, m, q)
  }

  ghost predicate GapOpen(source: seq<Character>, n: nat)
    requires n <= |source|
  {
    exists p: nat :: Apart(source, p, n)
  }

  ghost predicate MarkedGapOpen(source: seq<Character>, n: nat)
    requires n <= |source|
  {
    exists p: nat, m: nat :: MarkInGap(source, p, m, n)
  }

  ghost predicate StraysBefore(source: seq<Character>, n: nat)
  {
    exists p: nat, m: nat, q: nat :: q < n && Strays(source, p, m, q)
  }

  lemma {:induction false} WatchAllMeans(w: Watch, folded: seq<Folded>)
    requires folded != []
    ensures var v := WatchAll(w, folded);
            && v.strayed == (w.strayed || (w.between == Gap(true) && folded[0].alphanumeric))
            && (v.between == NoLetterYet <==>
                w.between == NoLetterYet && !exists k :: 0 <= k < |folded| && folded[k].alphanumeric)
            && (v.between.Gap? <==> v.between != NoLetterYet && !folded[|folded| - 1].alphanumeric)
            && v.between != Gap(true)
  {
    var init, last := folded[..|folded| - 1], folded[|folded| - 1];
    assert forall k :: 0 <= k < |init| ==> folded[k] == init[k];
    if init != [] {
      WatchAllMeans(w, init);
    } else {
      assert WatchAll(w, init) == w;
    }
  }

  lemma {:induction false} WatchMeans(source: seq<Character>, n: nat)
    requires n <= |source|
    ensures var w := WatchOf(source[..n]);
            && (w.between == NoLetterYet <==> !LetterBefore(source, n))
            && (w.between.Gap? <==> GapOpen(source, n))
            && (w.between == Gap(true) <==> MarkedGapOpen(source, n))
            && (w.strayed <==> StraysBefore(source, n))
  {
    hide GapOpen, MarkedGapOpen, StraysBefore, LetterBefore;
    if n > 0 {
      var last := n - 1;
      WatchMeans(source, last);
      assert source[..n][..last] == source[..last];
      LetterAt(source, last);
      StrayAt(source, last);
      if source[last].folded != [] {
        WatchAllMeans(WatchOf(source[..last]), source[last].folded);
        GapAfterLetters(source, last);
      } else {
        assert !Lettered(source[last]) && !StartsWithLetter(source[last]);
        GapAfterNothing(source, last);
        assert WatchOf(source[..n]) == WatchCharacter(WatchOf(source[..last]), source[last]);
      }
    } else {
      NothingYet(source);
    }
  }

  lemma NothingYet(source: seq<Character>)
    ensures !LetterBefore(source, 0) && !GapOpen(source, 0) && !MarkedGapOpen(source, 0) && !StraysBefore(source, 0)
  {
  }

  lemma LetterAt(source: seq<Character>, last: nat)
    requires last < |source|
    ensures LetterBefore(source, last + 1) <==> LetterBefore(source, last) || Lettered(source[last])
  {
  }

  lemma StrayAt(source: seq<Character>, last: nat)
    requires last < |source|
    ensures StraysBefore(source, last + 1)
       <==> StraysBefore(source, last) || (StartsWithLetter(source[last]) && MarkedGapOpen(source, last))
  {
    if StraysBefore(source, last + 1) {
      var p: nat, m: nat, q: nat :| q < last + 1 && Strays(source, p, m, q);
      assert q == last || StraysBefore(source, last);
    }
    if StartsWithLetter(source[last]) && MarkedGapOpen(source, last) {
      var p: nat, m: nat :| MarkInGap(source, p, m, last);
      assert Strays(source, p, m, last);
    }
  }

  lemma GapAfterLetters(source: seq<Character>, last: nat)
    requires last < |source| && source[last].folded != []
    ensures GapOpen(source, last + 1) <==> LetterBefore(source, last + 1) && EndsInSeparator(source[last])
    ensures !MarkedGapOpen(source, last + 1)
  {
    var n := last + 1;
    forall p: nat | Apart(source, p, n) ensures p == last {
    }
    if LetterBefore(source, last + 1) && EndsInSeparator(source[last]) {
      assert Apart(source, last, last + 1);
    }
  }

  lemma GapAfterNothing(source: seq<Character>, last: nat)
    requires last < |source| && source[last].folded == []
    ensures GapOpen(source, last + 1) <==> GapOpen(source, last)
    ensures MarkedGapOpen(source, last + 1)
       <==> MarkedGapOpen(source, last) || (source[last].isMark && GapOpen(source, last))
  {
    var n := last + 1;
    forall p: nat ensures Apart(source, p, n) <==> Apart(source, p, last) {
      assert !EndsInSeparator(source[last]);
    }
    if MarkedGapOpen(source, last) {
      var p: nat, m: nat :| MarkInGap(source, p, m, last);
      assert MarkInGap(source, p, m, n);
    }
    if source[last].isMark && GapOpen(source, last) {
      var p: nat :| Apart(source, p, last);
      assert MarkInGap(source, p, last, n);
    }
    if MarkedGapOpen(source, n) {
      var p: nat, m: nat :| MarkInGap(source, p, m, n);
      assert m < last ==> MarkInGap(source, p, m, last);
    }
  }

  /**
   The `ends` offsets never go back exactly when no letter follows a gap that holds a combining mark: such a mark
   stretches the letter before the gap past the gap's own separator.
   */
  lemma EndsNonDecreasingIff(source: seq<Character>)
    requires WellFormed(source)
    ensures NonDecreasing(FoldOf(source).ends) <==> !exists p: nat, m: nat, q: nat :: Strays(source, p, m, q)
  {
    FoldIsWatched(source);
    WatchMeans(source, |source|);
    assert source[..|source|] == source;
    forall p: nat, m: nat, q: nat | Strays(source, p, m, q) ensures q < |source| {
    }
  }

  /** `a`, a space, a combining acute accent, `b`: the ends are 3, 2, 4. */
  const STRAY_ACCENT: seq<Character> := [
    Character([0x61], false, [Folded([0x61], true)]), Character([0x20], false, [Folded([0x20], false)]),
    Character([0x301], true, []), Character([0x62], false, [Folded([0x62], true)])]

  lemma EndsCanGoBack()
    ensures WellFormed(STRAY_ACCENT) && FoldOf(STRAY_ACCENT).ends == [3, 2, 4]
    ensures FoldOf(STRAY_ACCENT).text == [0x61, 0x20, 0x62] && FoldOf(STRAY_ACCENT).starts == [0, 1, 3]
  {
    hide FoldOf, TakeAll;
    var s := STRAY_ACCENT;
    FoldsNothing(s);
    var f0: Fold := Fold([], [], [], 0, -1, -1);
    var f1 := Fold([0x61], [0], [1], 1, -1, -1);
    FoldOneMore(s, 0);
    FoldsOne(f0, s[0]);
    assert FoldOf(s[..1]) == f1;
    var f2 := Fold([0x61], [0], [1], 2, 1, 2);
    FoldOneMore(s, 1);
    FoldsOne(f1, s[1]);
    assert FoldOf(s[..2]) == f2;
    var f3 := Fold([0x61], [0], [3], 3, 1, 2);
    FoldOneMore(s, 2);
    FoldsNone(f2, s[2]);
    assert FoldOf(s[..3]) == f3;
    FoldOneMore(s, 3);
    FoldsOne(f3, s[3]);
    assert FoldOf(s[..4]) == Fold([0x61, 0x20, 0x62], [0, 1, 3], [3, 2, 4], 4, -1, -1);
    assert s[..4] == s;
  }

  lemma FoldsNothing(source: seq<Character>)
    ensures FoldOf(source[..0]) == Fold([], [], [], 0, -1, -1)
  {
  }

  lemma FoldsNone(f: Fold, c: Character)
    requires c.folded == []
    ensures TakeCharacter(f, c) == Stretch(f.(offset := f.offset + |c.units|), c, f.offset + |c.units|)
  {
  }

  lemma FoldsOne(f: Fold, c: Character)
    requires |c.folded| == 1
    ensures TakeCharacter(f, c)
         == TakeFolded(f.(offset := f.offset + |c.units|), c.folded[0], f.offset, f.offset + |c.units|)
  {
    var end := f.offset + |c.units|;
    assert c.folded[..0] == [];
    TakeOneMore(f.(offset := end), c.folded, 0, f.offset, end);
    assert c.folded[..1] == c.folded;
  }
}
