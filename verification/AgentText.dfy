/** `truncateText` and `appendBoundedText`: text bounded in UTF-8 bytes, in one piece or as it streams in. */
module AgentText {
  import opened Utf8

  /** `"\n<openclaw:truncated>"`, 21 ASCII characters. */
  function Marker(): (m: Text)
    ensures |m| == 21 && Ascii(m)
  {
    [10, 60, 111, 112, 101, 110, 99, 108, 97, 119, 58, 116, 114, 117, 110, 99, 97, 116, 101, 100, 62]
  }

  predicate Ascii(s: Text)
  {
    forall i :: 0 <= i < |s| ==> s[i] < 0x80
  }

  lemma {:induction false} AsciiBytes(s: Text)
    requires Ascii(s)
    ensures ByteLen(s) == |s| && Repair(s) == s
  {
    hide Marker;
    if s != [] {
      AsciiBytes(s[1..]);
    }
  }

  /** The units of the longest prefix of whole characters within `n` bytes. */
  function Fit(s: Text, n: nat): (k: nat)
    ensures k <= |s|
  {
    if s == [] || n < Width(FirstScalar(s)) then 0
    else CharLen(s) + Fit(s[CharLen(s)..], n - Width(FirstScalar(s)))
  }

  lemma {:induction false} FitIsLongest(s: Text, n: nat)
    ensures ByteLen(s[..Fit(s, n)]) <= n
    ensures Fit(s, n) < |s| ==> n < ByteLen(s[..Fit(s, n)]) + Width(FirstScalar(s[Fit(s, n)..]))
  {
    hide Width, FirstScalar, CharLen;
    if s == [] || n < Width(FirstScalar(s)) {
      assert s[..0] == [] && s[0..] == s;
    } else {
      FitIsLongest(s[CharLen(s)..], n - Width(FirstScalar(s)));
      FirstOfPrefix(s, Fit(s, n));
    }
  }

  /**
   What is kept of a text that does not fit: its longest prefix of whole characters within `n` bytes, and one
   U+FFFD in the single case where a four-byte character is cut after its third byte.
   */
  function Kept(s: Text, n: nat): Text
  {
    var k := Fit(s, n);
    WithReplacement(Repair(s[..k]), k < |s| && n == ByteLen(s[..k]) + 3)
  }

  function WithReplacement(s: Text, cut: bool): Text
  {
    if cut then s + [REPLACEMENT] else s
  }

  function Truncated(value: Text, maxBytes: nat): Text
  {
    if ByteLen(value) <= maxBytes then value
    else if maxBytes <= |Marker()| then Marker()[..maxBytes]
    else Kept(value, maxBytes - |Marker()|) + Marker()
  }

  /** Cutting bytes and decoding yields the whole characters and, if a character was cut, one U+FFFD for its bytes. */
  lemma {:induction false} ClipIsFit(s: Text, n: nat)
    requires n <= ByteLen(s)
    ensures Clip(s, n) == WithReplacement(Repair(s[..Fit(s, n)]), n != ByteLen(s[..Fit(s, n)]))
  {
    hide Width, FirstScalar, CharLen, Units;
    if s == [] || n < Width(FirstScalar(s)) {
      assert s[..0] == [];
    } else {
      ClipIsFit(s[CharLen(s)..], n - Width(FirstScalar(s)));
      FirstOfPrefix(s, Fit(s, n));
    }
  }

  lemma ReplacementBytes()
    ensures ByteLen([REPLACEMENT]) == 3
  {
  }

  /** The prefix before the loop of `truncateText`, in bytes. */
  lemma CutSize(s: Text, n: nat)
    requires n < ByteLen(s)
    ensures Fit(s, n) < |s|
    ensures var used := ByteLen(s[..Fit(s, n)]);
            && n - 3 <= used <= n
            && ByteLen(Clip(s, n) + Marker()) == used + (if n == used then 0 else 3) + |Marker()|
            && ByteLen(Repair(s[..Fit(s, n)]) + Marker()) == used + |Marker()|
  {
    hide Marker, ByteLen, Repair, Clip, Fit, Width, FirstScalar;
    var head := s[..Fit(s, n)];
    FitIsLongest(s, n);
    ClipIsFit(s, n);
    assert s[..|s|] == s;
    RepairKeepsBytes(head);
    AsciiBytes(Marker());
    ByteLenJoin(Repair(head), Marker());
    if n != ByteLen(head) {
      ReplacementBytes();
      ByteLenJoin(Repair(head), [REPLACEMENT]);
      ByteLenJoin(Repair(head) + [REPLACEMENT], Marker());
    }
  }

  /** `truncateText`, on the real bytes. */
  method TruncateText(value: Text, maxBytes: nat) returns (r: Text)
    ensures r == Truncated(value, maxBytes)
  {
    hide Marker, ByteLen, Repair, Clip, Fit, Encode, Decode;
    EncodedLength(value);
    if |Encode(value)| <= maxBytes {
      return value;
    }
    AsciiBytes(Marker());
    EncodedLength(Marker());
    if maxBytes <= |Encode(Marker())| {
      DecodeClips(Marker(), maxBytes);
      AsciiClips(Marker(), maxBytes);
      return Decode(Encode(Marker())[..maxBytes]);
    }
    ghost var n := maxBytes - |Marker()|;
    var prefix := Decode(Encode(value)[..maxBytes - |Encode(Marker())|]);
    DecodeClips(value, n);
    ClipIsFit(value, n);
    CutSize(value, n);
    ghost var whole := Repair(value[..Fit(value, n)]);
    while |prefix| > 0 && ByteLen(prefix + Marker()) > maxBytes
      invariant prefix == whole || (prefix == Clip(value, n) == whole + [REPLACEMENT])
      invariant prefix == whole ==> n == ByteLen(value[..Fit(value, n)]) || n < ByteLen(value[..Fit(value, n)]) + 3
    {
      prefix := prefix[..|prefix| - 1];
    }
    return prefix + Marker();
  }

  lemma {:induction false} AsciiClips(s: Text, n: nat)
    requires Ascii(s) && n <= |s|
    ensures Clip(s, n) == s[..n]
  {
    hide Marker;
    if n > 0 {
      AsciiClips(s[1..], n - 1);
      assert s[..n] == [s[0]] + s[1..][..n - 1];
    }
  }

  /** The bound the option promises, and how much of it can go unused. */
  lemma TruncatedFits(value: Text, maxBytes: nat)
    ensures ByteLen(Truncated(value, maxBytes)) <= maxBytes
    ensures maxBytes < ByteLen(value) ==> maxBytes <= ByteLen(Truncated(value, maxBytes)) + 2
  {
    hide Marker, ByteLen, Repair, Clip, Fit;
    AsciiBytes(Marker());
    if ByteLen(value) > maxBytes {
      if maxBytes <= |Marker()| {
        AsciiBytes(Marker()[..maxBytes]);
      } else {
        var n := maxBytes - |Marker()|;
        CutSize(value, n);
        ClipIsFit(value, n);
      }
    }
  }

  lemma {:induction false} FitAtBoundary(s: Text, n: nat)
    ensures CleanSeam(s[..Fit(s, n)], s[Fit(s, n)..])
  {
    if s != [] && Width(FirstScalar(s)) <= n {
      FitAtBoundary(s[CharLen(s)..], n - Width(FirstScalar(s)));
      FirstOfPrefix(s, Fit(s, n));
    }
  }

  lemma MarkerSpells()
    ensures Spells(Marker(), "\n<openclaw:truncated>")
  {
  }

  /**
   What may be left of `s` in `maxBytes` bytes: whole characters from its beginning, at most one U+FFFD, and the
   marker; in 21 bytes or fewer, the beginning of the marker alone.
   */
  ghost predicate IsCut(r: Text, s: Text, maxBytes: nat)
  {
    exists marker ::
      && Spells(marker, "\n<openclaw:truncated>")
      && if maxBytes <= 21 then r == marker[..maxBytes] else exists k: nat :: CutAt(r, s, k, marker)
  }

  ghost predicate CutAt(r: Text, s: Text, k: nat, marker: Text)
  {
    && k <= |s| && CleanSeam(s[..k], s[k..])
    && (r == Repair(s[..k]) + marker || r == Repair(s[..k]) + [REPLACEMENT] + marker)
  }

  /** Text within the limit is left alone; of longer text as much is kept as fits, up to two bytes. */
  ghost predicate Shortened(r: Text, s: Text, maxBytes: nat)
  {
    if ByteLen(s) <= maxBytes then r == s
    else IsCut(r, s, maxBytes) && maxBytes - 2 <= ByteLen(r) <= maxBytes
  }

  lemma TruncatedIs(s: Text, maxBytes: nat)
    ensures Shortened(Truncated(s, maxBytes), s, maxBytes)
  {
    hide ByteLen, Repair, Fit, Spells, Marker, CleanSeam;
    TruncatedFits(s, maxBytes);
    MarkerSpells();
    if maxBytes < ByteLen(s) && 21 < maxBytes {
      var n := maxBytes - 21;
      FitAtBoundary(s, n);
      assert CutAt(Truncated(s, maxBytes), s, Fit(s, n), Marker());
    }
  }

  lemma TruncatedKeepsNothing(value: Text)
    ensures Truncated(value, 0) == []
  {
    hide Marker;
  }

  // ---- Streaming ----

  predicate EndsWith(s: Text, suffix: Text)
  {
    |suffix| <= |s| && s[|s| - |suffix|..] == suffix
  }

  function AppendBoundedText(current: Text, chunk: Text, maxBytes: nat): Text
  {
    if EndsWith(current, Marker()) then current else Truncated(current + chunk, maxBytes)
  }

  function Streamed(chunks: seq<Text>, maxBytes: nat): Text
  {
    if chunks == [] then []
    else AppendBoundedText(Streamed(chunks[..|chunks| - 1], maxBytes), chunks[|chunks| - 1], maxBytes)
  }

  function Join(chunks: seq<Text>): Text
  {
    if chunks == [] then [] else Join(chunks[..|chunks| - 1]) + chunks[|chunks| - 1]
  }

  /** Kept text depends only on the beginning: appending to a text that already overflows changes nothing. */
  lemma {:induction false} FitIsLocal(s: Text, more: Text, n: nat)
    requires n + 3 < ByteLen(s)
    ensures Fit(s + more, n) == Fit(s, n) < |s|
  {
    hide Marker;
    assert |s| == 1 && IsHigh(s[0]) ==> ByteLen(s) == 3;
    FirstOfJoin(s, more);
    if Width(FirstScalar(s)) <= n {
      FitIsLocal(s[CharLen(s)..], more, n - Width(FirstScalar(s)));
    }
  }

  lemma AppendToCutMarker(chunk: Text, maxBytes: nat)
    requires maxBytes < |Marker()|
    ensures AppendBoundedText(Marker()[..maxBytes], chunk, maxBytes) == Marker()[..maxBytes]
  {
    hide Marker, ByteLen, Kept;
    var t := Marker()[..maxBytes];
    AsciiBytes(t);
    ByteLenGrows(t, chunk);
    if chunk == [] {
      assert t + chunk == t;
    }
  }

  lemma KeptIsLocal(s: Text, more: Text, n: nat)
    requires n + 3 < ByteLen(s)
    ensures Kept(s + more, n) == Kept(s, n)
  {
    hide ByteLen, Repair, Fit;
    FitIsLocal(s, more, n);
    assert (s + more)[..Fit(s, n)] == s[..Fit(s, n)];
  }

  lemma MarkerIsLast(s: Text)
    ensures EndsWith(s + Marker(), Marker())
  {
    hide Marker;
    assert (s + Marker())[|s|..] == Marker();
  }

  lemma AppendAfterOverflow(s: Text, chunk: Text, maxBytes: nat)
    requires maxBytes < ByteLen(s)
    ensures AppendBoundedText(Truncated(s, maxBytes), chunk, maxBytes) == Truncated(s + chunk, maxBytes)
  {
    hide Marker, ByteLen, Kept, EndsWith;
    ByteLenGrows(s, chunk);
    if maxBytes < |Marker()| {
      AppendToCutMarker(chunk, maxBytes);
    } else if maxBytes == |Marker()| {
      assert Marker()[..maxBytes] == [] + Marker();
      MarkerIsLast([]);
    } else {
      KeptIsLocal(s, chunk, maxBytes - |Marker()|);
      MarkerIsLast(Kept(s, maxBytes - |Marker()|));
    }
  }

  /** The early exit is taken although everything so far was kept: the text itself ends with the marker. */
  predicate Stuck(s: Text, maxBytes: nat)
  {
    EndsWith(s, Marker()) && ByteLen(s) <= maxBytes
  }

  lemma AppendStep(s: Text, chunk: Text, maxBytes: nat)
    requires !Stuck(s, maxBytes)
    ensures AppendBoundedText(Truncated(s, maxBytes), chunk, maxBytes) == Truncated(s + chunk, maxBytes)
  {
    hide Marker;
    if ByteLen(s) > maxBytes {
      AppendAfterOverflow(s, chunk, maxBytes);
    }
  }

  lemma {:induction false} StreamsUntilStuck(chunks: seq<Text>, maxBytes: nat)
    requires forall i :: 0 <= i < |chunks| ==> !Stuck(Join(chunks[..i]), maxBytes)
    ensures Streamed(chunks, maxBytes) == Truncated(Join(chunks), maxBytes)
  {
    hide Marker;
    if chunks != [] {
      var init, last := chunks[..|chunks| - 1], chunks[|chunks| - 1];
      forall i | 0 <= i < |init|
        ensures !Stuck(Join(init[..i]), maxBytes)
      {
        assert init[..i] == chunks[..i];
      }
      StreamsUntilStuck(init, maxBytes);
      AppendStep(Join(init), last, maxBytes);
    }
  }

  lemma {:induction false} StaysStuck(chunks: seq<Text>, i: nat, maxBytes: nat)
    requires i <= |chunks| && Stuck(Join(chunks[..i]), maxBytes)
    requires Streamed(chunks[..i], maxBytes) == Join(chunks[..i])
    ensures Streamed(chunks, maxBytes) == Join(chunks[..i])
  {
    hide Marker;
    if i == |chunks| {
      assert chunks[..i] == chunks;
    } else {
      var init := chunks[..|chunks| - 1];
      assert init[..i] == chunks[..i];
      StaysStuck(init, i, maxBytes);
    }
  }

  lemma {:induction false} JoinSplits(chunks: seq<Text>, i: nat)
    requires i <= |chunks|
    ensures Join(chunks) == Join(chunks[..i]) + Join(chunks[i..])
  {
    hide Marker;
    if i == |chunks| {
      assert chunks[..i] == chunks && chunks[i..] == [];
      assert Join(chunks) + [] == Join(chunks);
    } else {
      var init := chunks[..|chunks| - 1];
      JoinSplits(init, i);
      assert init[..i] == chunks[..i];
      var tail := chunks[i..];
      assert tail[..|tail| - 1] == init[i..];
      assert Join(tail) == Join(init[i..]) + chunks[|chunks| - 1];
      assert (Join(chunks[..i]) + Join(init[i..])) + chunks[|chunks| - 1] == Join(chunks[..i]) + Join(tail);
    }
  }

  /** A stuck prefix is wrong unless nothing follows, or it fills the limit exactly and is well-formed. */
  predicate LosesText(s: Text, rest: Text, maxBytes: nat)
  {
    Stuck(s, maxBytes) && rest != [] && (ByteLen(s) < maxBytes || Repair(s) != s)
  }

  lemma {:induction false} FitPassesPrefix(a: Text, b: Text, n: nat)
    requires CleanSeam(a, b) && ByteLen(a) <= n
    ensures Fit(a + b, n) == |a| + Fit(b, n - ByteLen(a))
  {
    hide Marker, Width, FirstScalar, CharLen;
    if a == [] {
      assert a + b == b;
    } else {
      FirstOfJoin(a, b);
      FitPassesPrefix(a[CharLen(a)..], b, n - Width(FirstScalar(a)));
    }
  }

  lemma NothingKeptIfEmpty(s: Text)
    ensures ByteLen(s) == 0 ==> s == []
    ensures Fit(s, 0) == 0
    ensures s != [] && s[0] < 0x80 ==> forall n: nat :: 0 < n ==> Fit(s, n) >= 1
  {
  }

  /** The overflowing text begins with a stuck prefix `q + marker`: compare what truncation keeps of it. */
  lemma KeptPastPrefix(q: Text, rest: Text, n: nat)
    requires ByteLen(q) <= n
    ensures var kept := Kept(q + (Marker() + rest), n);
            if ByteLen(q) == n then kept == Repair(q) else |kept| > |q|
  {
    hide ByteLen, Repair, Fit;
    var more := Marker() + rest;
    assert more[0] == Marker()[0];
    hide Marker;
    FitPassesPrefix(q, more, n);
    NothingKeptIfEmpty(more);
    var k := Fit(q + more, n);
    RepairKeepsBytes((q + more)[..k]);
    if ByteLen(q) == n {
      assert (q + more)[..k] == q;
    }
  }

  lemma StuckCompare(s: Text, rest: Text, maxBytes: nat)
    requires Stuck(s, maxBytes)
    ensures s == Truncated(s + rest, maxBytes) <==> !LosesText(s, rest, maxBytes)
  {
    hide Marker, ByteLen, Repair, Kept;
    AsciiBytes(Marker());
    var q := s[..|s| - |Marker()|];
    assert s == q + Marker();
    ByteLenJoin(q, Marker());
    RepairJoin(q, Marker());
    RepairKeepsBytes(q);
    ByteLenGrows(s, rest);
    if rest == [] {
      assert s + rest == s;
    } else if ByteLen(s + rest) > maxBytes {
      if maxBytes == |Marker()| {
        NothingKeptIfEmpty(q);
        assert Marker()[..maxBytes] == Marker() == [] + Marker();
      } else {
        KeptPastPrefix(q, rest, maxBytes - |Marker()|);
        assert s + rest == q + (Marker() + rest);
        assert (Repair(q) + Marker())[..|q|] == Repair(q) && s[..|q|] == q;
      }
    }
  }

  lemma {:induction false} FirstStuck(chunks: seq<Text>, maxBytes: nat, i: nat) returns (first: nat)
    requires i <= |chunks| && Stuck(Join(chunks[..i]), maxBytes)
    ensures first <= i && Stuck(Join(chunks[..first]), maxBytes)
    ensures forall k :: 0 <= k < first ==> !Stuck(Join(chunks[..k]), maxBytes)
  {
    hide Marker;
    first := 0;
    while !Stuck(Join(chunks[..first]), maxBytes)
      invariant first <= i
      invariant forall k :: 0 <= k < first ==> !Stuck(Join(chunks[..k]), maxBytes)
      decreases i - first
    {
      first := first + 1;
    }
  }

  /** Streaming equals truncating the whole text, unless some chunk boundary falls right after the marker in the text. */
  lemma StreamingIff(chunks: seq<Text>, maxBytes: nat)
    ensures Streamed(chunks, maxBytes) == Truncated(Join(chunks), maxBytes) <==>
            forall i :: 0 <= i <= |chunks| ==> !LosesText(Join(chunks[..i]), Join(chunks[i..]), maxBytes)
  {
    hide Marker;
    if i :| 0 <= i <= |chunks| && Stuck(Join(chunks[..i]), maxBytes) {
      var first := FirstStuck(chunks, maxBytes, i);
      var s, rest := Join(chunks[..first]), Join(chunks[first..]);
      forall k | 0 <= k < first
        ensures !Stuck(Join(chunks[..first][..k]), maxBytes)
      {
        assert chunks[..first][..k] == chunks[..k];
      }
      StreamsUntilStuck(chunks[..first], maxBytes);
      StaysStuck(chunks, first, maxBytes);
      JoinSplits(chunks, first);
      StuckCompare(s, rest, maxBytes);
      forall k | 0 <= k <= |chunks| && LosesText(Join(chunks[..k]), Join(chunks[k..]), maxBytes)
        ensures LosesText(s, rest, maxBytes)
      {
        LaterLossIsSameLoss(chunks, first, k, maxBytes);
      }
    } else {
      StreamsUntilStuck(chunks, maxBytes);
    }
  }

  lemma LaterLossIsSameLoss(chunks: seq<Text>, first: nat, k: nat, maxBytes: nat)
    requires first <= k <= |chunks|
    requires Stuck(Join(chunks[..first]), maxBytes)
    requires LosesText(Join(chunks[..k]), Join(chunks[k..]), maxBytes)
    ensures LosesText(Join(chunks[..first]), Join(chunks[first..]), maxBytes)
  {
    hide Marker;
    var s, t := Join(chunks[..first]), Join(chunks[..k]);
    JoinSplits(chunks[..k], first);
    assert chunks[..k][..first] == chunks[..first];
    var between := Join(chunks[..k][first..]);
    assert t == s + between;
    ByteLenGrows(s, between);
    JoinSplits(chunks[first..], k - first);
    assert chunks[first..][k - first..] == chunks[k..];
    if between == [] {
      assert t == s;
    }
  }

  lemma TwoChunks(a: Text, b: Text, maxBytes: nat)
    ensures Streamed([a, b], maxBytes) == AppendBoundedText(AppendBoundedText([], a, maxBytes), b, maxBytes)
    ensures Join([a, b]) == a + b
  {
    hide AppendBoundedText;
    var one, both := [a], [a, b];
    assert one[..0] == [] && both[..1] == one;
    assert Streamed(one, maxBytes) == AppendBoundedText([], a, maxBytes) && Join(one) == a;
  }

  lemma ShortIsWhole(s: Text, maxBytes: nat)
    requires ByteLen(s) <= maxBytes
    ensures Truncated(s, maxBytes) == s
  {
  }

  /** Such a text: the marker, then one more letter. The letter is lost although everything fits. */
  lemma MarkerInTextLosesText()
    ensures Streamed([Marker(), [65]], 100) == Marker() && Truncated(Join([Marker(), [65]]), 100) == Marker() + [65]
  {
    hide Marker, ByteLen, Truncated, Streamed, Join, Repair;
    var m := Marker();
    TwoChunks(m, [65], 100);
    AsciiBytes(m);
    AsciiBytes(m + [65]);
    ShortIsWhole(m, 100);
    ShortIsWhole(m + [65], 100);
    assert [] + m == m && m[|m| - |m|..] == m;
  }

  /** In particular, text that nowhere contains the marker streams correctly however it is chunked. */
  lemma StreamingWithoutMarker(chunks: seq<Text>, maxBytes: nat)
    requires forall i :: 0 <= i <= |Join(chunks)| ==> !EndsWith(Join(chunks)[..i], Marker())
    ensures Streamed(chunks, maxBytes) == Truncated(Join(chunks), maxBytes)
  {
    hide Marker;
    forall i | 0 <= i <= |chunks|
      ensures !LosesText(Join(chunks[..i]), Join(chunks[i..]), maxBytes)
    {
      JoinSplits(chunks, i);
      assert Join(chunks)[..|Join(chunks[..i])|] == Join(chunks[..i]);
    }
    StreamingIff(chunks, maxBytes);
  }
}
