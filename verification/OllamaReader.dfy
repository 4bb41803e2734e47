/** The read loop of the Ollama provider: bytes arrive in arbitrary chunks, events must not depend on where they are cut. */
module OllamaReader {
  import opened Basics
  import opened Utf8

  const NEWLINE: Unit := 10

  /**
   What one line means: nothing (blank, or not JSON), or a response. `broken` responses make the reader throw
   after the events that precede the malformed part.
   */
  datatype Line = Ignored | Answer(content: Option<Text>, calls: seq<(Text, Text)>, broken: bool, done: bool, cutShort: bool)

  /** `trim`, `JSON.parse` and the shape of the parsed value, as one function. */
  type LineParser = Text -> Line

  datatype Event =
    | TextDelta(delta: Text)
    | CallEvent(index: nat, name: Text, args: Text)  // the id is `ollama_call_<index>`
    | Finish(maxTokens: bool)
    | Threw

  /** `ended` once the generator returned or threw. */
  datatype Progress = Progress(events: seq<Event>, callIdx: nat, ended: bool)

  const BEGIN: Progress := Progress([], 0, false)

  // ---- Streaming UTF-8 ----

  /** The bytes could still become one character: `TextDecoder` keeps them back in streaming mode. */
  predicate Incomplete(b: Bytes)
  {
    b != [] && RunLength(b) == |b| && |b| < Announced(b[0])
  }

  function StreamText(b: Bytes): Text
  {
    if b == [] || Incomplete(b) then [] else Units(DecodeFirst(b)) + StreamText(b[RunLength(b)..])
  }

  function Withheld(b: Bytes): Bytes
  {
    if b == [] || Incomplete(b) then b else Withheld(b[RunLength(b)..])
  }

  lemma RunIsLocal(a: Bytes, b: Bytes)
    requires a != [] && !Incomplete(a)
    ensures RunLength(a + b) == RunLength(a) && DecodeFirst(a + b) == DecodeFirst(a) && !Incomplete(a + b)
    ensures (a + b)[RunLength(a)..] == a[RunLength(a)..] + b
  {
    var c := a + b;
    assert forall i :: 0 <= i < |a| ==> c[i] == a[i];
  }

  /** Decoding in two chunks is decoding at once. */
  lemma {:induction false} StreamSplits(a: Bytes, b: Bytes)
    ensures StreamText(a + b) == StreamText(a) + StreamText(Withheld(a) + b)
    ensures Withheld(a + b) == Withheld(Withheld(a) + b)
  {
    hide RunLength, DecodeFirst, Incomplete, Units;
    if a == [] {
      assert a + b == b;
    } else if !Incomplete(a) {
      RunIsLocal(a, b);
      StreamSplits(a[RunLength(a)..], b);
    }
  }

  /** What streaming has produced so far is the decoding of all bytes but the few that are kept back. */
  lemma {:induction false} StreamIsDecode(b: Bytes)
    ensures |Withheld(b)| <= |b| && b[|b| - |Withheld(b)|..] == Withheld(b)
    ensures StreamText(b) == Decode(b[..|b| - |Withheld(b)|])
    ensures Withheld(b) == [] || Incomplete(Withheld(b))
  {
    hide DecodeFirst, RunLength, Incomplete, Units;
    if b == [] || Incomplete(b) {
      assert b[..0] == [];
    } else {
      var n := RunLength(b);
      StreamIsDecode(b[n..]);
      var m := |b| - |Withheld(b)|;
      assert b[n..][..m - n] == b[..m][n..];
      assert b[m..] == b[n..][m - n..];
      RunKept(b, m);
    }
  }

  /** The first run does not depend on what is cut off behind it. */
  lemma RunKept(b: Bytes, m: nat)
    requires b != [] && RunLength(b) <= m <= |b|
    ensures RunLength(b[..m]) == RunLength(b) && DecodeFirst(b[..m]) == DecodeFirst(b)
  {
    assert forall i :: 0 <= i < m ==> b[..m][i] == b[i];
  }

  /** Nothing is kept back of whole characters. */
  lemma {:induction false} NothingWithheld(s: Text)
    ensures Withheld(Encode(s)) == []
  {
    if s != [] {
      var c, rest := FirstScalar(s), s[CharLen(s)..];
      FirstRoundTrip(c, Encode(rest));
      LeadByte(c);
      hide EncodeScalar, RunLength, Announced;
      var b := Encode(s);
      assert b[0] == EncodeScalar(c)[0];
      assert b[Width(c)..] == Encode(rest);
      NothingWithheld(rest);
    }
  }

  const BYTE_ORDER_MARK: Unit := 0xFEFF

  function Unmarked(text: Text): Text
  {
    if text != [] && text[0] == BYTE_ORDER_MARK then text[1..] else text
  }

  /** What `TextDecoder` makes of bytes given so far: a byte order mark at their very beginning is left out. */
  function Decoded(b: Bytes): Text
  {
    Unmarked(StreamText(b))
  }

  /** Only the first text the decoder produces can lose a mark. */
  function Piece(started: bool, text: Text): Text
  {
    if started then text else Unmarked(text)
  }

  lemma DecodedSplits(a: Bytes, b: Bytes)
    ensures Decoded(a + b) == Decoded(a) + Piece(StreamText(a) != [], StreamText(Withheld(a) + b))
    ensures Withheld(a + b) == Withheld(Withheld(a) + b)
    ensures StreamText(a + b) != [] <==> StreamText(a) != [] || StreamText(Withheld(a) + b) != []
  {
    hide StreamText, Withheld;
    StreamSplits(a, b);
    var first, second := StreamText(a), StreamText(Withheld(a) + b);
    if first == [] {
      assert first + second == second;
    } else {
      assert (first + second)[0] == first[0] && (first + second)[1..] == first[1..] + second;
    }
  }

  // ---- Lines ----

  /** `split("\n")` with its last piece popped off. */
  function Lines(s: Text): seq<Text>
  {
    if s == [] then []
    else if s[|s| - 1] == NEWLINE then Lines(s[..|s| - 1]) + [Rest(s[..|s| - 1])]
    else Lines(s[..|s| - 1])
  }

  /** The last piece of `split("\n")`. */
  function Rest(s: Text): Text
  {
    if s == [] then []
    else if s[|s| - 1] == NEWLINE then []
    else Rest(s[..|s| - 1]) + [s[|s| - 1]]
  }

  lemma OneMoreUnit(s: Text, u: Unit)
    ensures Lines(s + [u]) == if u == NEWLINE then Lines(s) + [Rest(s)] else Lines(s)
    ensures Rest(s + [u]) == if u == NEWLINE then [] else Rest(s) + [u]
  {
    assert (s + [u])[..|s|] == s;
  }

  lemma {:induction false} LinesSplit(a: Text, b: Text)
    ensures Lines(a + b) == Lines(a) + Lines(Rest(a) + b)
    ensures Rest(a + b) == Rest(Rest(a) + b)
  {
    hide Lines, Rest;
    if b == [] {
      assert a + b == a && Rest(a) + b == Rest(a);
      RestHasNoLines(a);
    } else {
      var init, last := b[..|b| - 1], b[|b| - 1];
      LinesSplit(a, init);
      assert a + b == (a + init) + [last] && Rest(a) + b == (Rest(a) + init) + [last];
      OneMoreUnit(a + init, last);
      OneMoreUnit(Rest(a) + init, last);
    }
  }

  lemma {:induction false} RestHasNoLines(s: Text)
    ensures Lines(Rest(s)) == [] && Rest(Rest(s)) == Rest(s)
  {
    if s != [] && s[|s| - 1] != NEWLINE {
      var init := s[..|s| - 1];
      RestHasNoLines(init);
      var r := Rest(s);
      assert r[..|r| - 1] == Rest(init);
    }
  }

  function Unlines(lines: seq<Text>): Text
  {
    if lines == [] then [] else Unlines(lines[..|lines| - 1]) + lines[|lines| - 1] + [NEWLINE]
  }

  /** The lines, each with its line break again, and the rest are the text, and none of them holds a line break. */
  lemma {:induction false} LinesAre(s: Text)
    ensures Unlines(Lines(s)) + Rest(s) == s
    ensures NEWLINE !in Rest(s) && forall line :: line in Lines(s) ==> NEWLINE !in line
  {
    if s != [] {
      var init, last := s[..|s| - 1], s[|s| - 1];
      LinesAre(init);
      assert s == init + [last];
      if last == NEWLINE {
        var lines := Lines(s);
        assert lines[..|lines| - 1] == Lines(init);
        assert Unlines(lines) + [] == (Unlines(Lines(init)) + Rest(init)) + [NEWLINE];
      } else {
        assert Unlines(Lines(init)) + (Rest(init) + [last]) == (Unlines(Lines(init)) + Rest(init)) + [last];
      }
    }
  }

  // ---- Events ----

  function Numbered(calls: seq<(Text, Text)>, first: nat): (events: seq<Event>)
    ensures |events| == |calls|
  {
    seq(|calls|, i requires 0 <= i < |calls| => CallEvent(first + i, calls[i].0, calls[i].1))
  }

  function Step(p: Progress, line: Line): Progress
  {
    if p.ended || line.Ignored? then p
    else
      var text := match line.content
        case None => []
        case Some(content) => if content == [] then [] else [TextDelta(content)];
      var before := p.events + text + Numbered(line.calls, p.callIdx);
      var callIdx := p.callIdx + |line.calls|;
      if line.broken then Progress(before + [Threw], callIdx, true)
      else if line.done then Progress(before + [Finish(line.cutShort)], callIdx, true)
      else Progress(before, callIdx, false)
  }

  /** The events of one response: its text if it has any, its calls numbered from `first`, and the end if it is one. */
  ghost predicate Tells(added: seq<Event>, line: Line, first: nat)
    requires line.Answer?
  {
    var texts := if line.content.Some? && line.content.value != [] then 1 else 0;
    var n := texts + |line.calls|;
    && |added| == n + (if line.broken || line.done then 1 else 0)
    && (texts == 1 ==> added[0] == TextDelta(line.content.value))
    && (forall i: nat :: i < |line.calls| ==>
          added[texts + i] == CallEvent(first + i, line.calls[i].0, line.calls[i].1))
    && (line.broken ==> added[n] == Threw)
    && (line.done && !line.broken ==> added[n] == Finish(line.cutShort))
  }

  lemma StepTells(p: Progress, line: Line)
    ensures var q := Step(p, line);
            if p.ended || line.Ignored? then q == p
            else
              && p.events <= q.events && Tells(q.events[|p.events|..], line, p.callIdx)
              && q.callIdx == p.callIdx + |line.calls|
              && (q.ended <==> line.broken || line.done)
  {
    hide Tells, Numbered, Step;
    StepAdds(p, line);
    if !p.ended && line.Answer? {
      var texts := if line.content.Some? && line.content.value != [] then [TextDelta(line.content.value)] else [];
      var end := if line.broken then [Threw] else if line.done then [Finish(line.cutShort)] else [];
      AddedTells(texts, Numbered(line.calls, p.callIdx), end, line, p.callIdx);
      var added := texts + Numbered(line.calls, p.callIdx) + end;
      assert (p.events + added)[|p.events|..] == added;
    }
  }

  lemma StepAdds(p: Progress, line: Line)
    ensures var q := Step(p, line);
            if p.ended || line.Ignored? then q == p
            else
              var texts := if line.content.Some? && line.content.value != [] then [TextDelta(line.content.value)] else [];
              var end := if line.broken then [Threw] else if line.done then [Finish(line.cutShort)] else [];
              && q.events == p.events + (texts + Numbered(line.calls, p.callIdx) + end)
              && q.callIdx == p.callIdx + |line.calls|
              && (q.ended <==> line.broken || line.done)
  {
    hide Numbered;
  }

  lemma AddedTells(texts: seq<Event>, calls: seq<Event>, end: seq<Event>, line: Line, first: nat)
    requires line.Answer? && calls == Numbered(line.calls, first)
    requires texts == if line.content.Some? && line.content.value != [] then [TextDelta(line.content.value)] else []
    requires end == if line.broken then [Threw] else if line.done then [Finish(line.cutShort)] else []
    ensures Tells(texts + calls + end, line, first)
  {
    var added := texts + calls + end;
    Parts(texts, calls, end);
    hide Numbered;
    NumberedAt(line.calls, first);
    assert |texts| == 1 ==> added[0] == texts[0];
  }

  lemma NumberedAt(calls: seq<(Text, Text)>, first: nat)
    ensures forall i: nat :: i < |calls| ==> Numbered(calls, first)[i] == CallEvent(first + i, calls[i].0, calls[i].1)
  {
  }

  lemma Parts(a: seq<Event>, b: seq<Event>, c: seq<Event>)
    ensures forall i: nat :: i < |a| ==> (a + b + c)[i] == a[i]
    ensures forall i: nat :: i < |b| ==> (a + b + c)[|a| + i] == b[i]
    ensures forall i: nat :: i < |c| ==> (a + b + c)[|a| + |b| + i] == c[i]
  {
  }

  function Steps(p: Progress, lines: seq<Text>, parse: LineParser): Progress
  {
    if lines == [] then p else Step(Steps(p, lines[..|lines| - 1], parse), parse(lines[|lines| - 1]))
  }

  lemma {:induction false} StepsSplit(p: Progress, a: seq<Text>, b: seq<Text>, parse: LineParser)
    ensures Steps(p, a + b, parse) == Steps(Steps(p, a, parse), b, parse)
  {
    hide Step;
    if b == [] {
      assert a + b == a;
    } else {
      assert (a + b)[..|a + b| - 1] == a + b[..|b| - 1];
      StepsSplit(p, a, b[..|b| - 1], parse);
    }
  }

  lemma {:induction false} EndedStays(p: Progress, lines: seq<Text>, parse: LineParser)
    requires p.ended
    ensures Steps(p, lines, parse) == p
  {
    if lines != [] {
      EndedStays(p, lines[..|lines| - 1], parse);
    }
  }

  /** One pass over a whole response. */
  function OnePass(response: Bytes, parse: LineParser): Progress
  {
    Steps(BEGIN, Lines(Decoded(response)), parse)
  }

  function Join(chunks: seq<Bytes>): Bytes
  {
    if chunks == [] then [] else Join(chunks[..|chunks| - 1]) + chunks[|chunks| - 1]
  }

  /** The lines of one chunk, in order, until the reader ends. */
  method ReadLines(start: Progress, lines: seq<Text>, parse: LineParser) returns (p: Progress)
    requires !start.ended
    ensures p == Steps(start, lines, parse)
  {
    p := start;
    var i := 0;
    while i < |lines| && !p.ended
      invariant 0 <= i <= |lines|
      invariant p == Steps(start, lines[..i], parse)
    {
      assert lines[..i + 1][..i] == lines[..i];
      p := Step(p, parse(lines[i]));
      i := i + 1;
    }
    assert lines == lines[..i] + lines[i..];
    StepsSplit(start, lines[..i], lines[i..], parse);
    if p.ended {
      EndedStays(p, lines[i..], parse);
    } else {
      assert lines[i..] == [];
    }
  }

  /**
   `send`, from the first read on. However the bytes are cut into chunks, the events and their call ids are
   those of one pass over the newline-terminated lines of the whole response, up to the first `done`.
   */
  method Read(chunks: seq<Bytes>, parse: LineParser) returns (p: Progress)
    ensures p == OnePass(Join(chunks), parse)
  {
    hide StreamText, Withheld, Lines, Rest, Steps, Step, Decoded, Piece;
    var withheld: Bytes, started := [], false;
    var buf: Text := [];
    p := BEGIN;
    var i := 0;
    NothingRead(parse);
    while i < |chunks| && !p.ended
      invariant 0 <= i <= |chunks|
      invariant withheld == Withheld(Join(chunks[..i])) && (started <==> StreamText(Join(chunks[..i])) != [])
      invariant buf == Rest(Decoded(Join(chunks[..i])))
      invariant p == OnePass(Join(chunks[..i]), parse)
    {
      assert chunks[..i + 1][..i] == chunks[..i];
      OneMoreChunk(Join(chunks[..i]), chunks[i], parse);
      var text := StreamText(withheld + chunks[i]);
      buf := buf + Piece(started, text);
      withheld, started := Withheld(withheld + chunks[i]), started || text != [];
      p := ReadLines(p, Lines(buf), parse);
      buf := Rest(buf);
      i := i + 1;
    }
    if p.ended {
      NothingMatters(chunks, i, parse);
    } else {
      assert chunks[..i] == chunks;
    }
  }

  lemma NothingRead(parse: LineParser)
    ensures Withheld([]) == [] && StreamText([]) == [] && Rest(Decoded([])) == [] && OnePass([], parse) == BEGIN
  {
  }

  lemma OneMoreChunk(before: Bytes, chunk: Bytes, parse: LineParser)
    ensures var text := StreamText(Withheld(before) + chunk);
            var buf := Rest(Decoded(before)) + Piece(StreamText(before) != [], text);
            && OnePass(before + chunk, parse) == Steps(OnePass(before, parse), Lines(buf), parse)
            && Rest(Decoded(before + chunk)) == Rest(buf)
            && Withheld(before + chunk) == Withheld(Withheld(before) + chunk)
            && (StreamText(before + chunk) != [] <==> StreamText(before) != [] || text != [])
  {
    hide StreamText, Withheld, Lines, Rest, Steps, Decoded, Piece;
    DecodedSplits(before, chunk);
    var more := Piece(StreamText(before) != [], StreamText(Withheld(before) + chunk));
    LinesSplit(Decoded(before), more);
    StepsSplit(BEGIN, Lines(Decoded(before)), Lines(Rest(Decoded(before)) + more), parse);
  }

  lemma {:induction false} NothingMatters(chunks: seq<Bytes>, i: nat, parse: LineParser)
    requires i <= |chunks| && OnePass(Join(chunks[..i]), parse).ended
    ensures OnePass(Join(chunks), parse) == OnePass(Join(chunks[..i]), parse)
  {
    hide OnePass;
    if i == |chunks| {
      assert chunks[..i] == chunks;
    } else {
      var init, last := chunks[..|chunks| - 1], chunks[|chunks| - 1];
      assert init[..i] == chunks[..i];
      NothingMatters(init, i, parse);
      OneMoreChunk(Join(init), last, parse);
      var more := Piece(StreamText(Join(init)) != [], StreamText(Withheld(Join(init)) + last));
      EndedStays(OnePass(Join(init), parse), Lines(Rest(Decoded(Join(init))) + more), parse);
    }
  }

  // ---- A whole response ----

  /** The texts of the deltas, one after another. */
  function Said(events: seq<Event>): Text
  {
    if events == [] then []
    else
      var before := Said(events[..|events| - 1]);
      match events[|events| - 1] case TextDelta(delta) => before + delta case _ => before
  }

  /** The contents of the responses up to the first that ends the reading, one after another. */
  function Contents(lines: seq<Text>, parse: LineParser): Text
  {
    if lines == [] then []
    else
      match parse(lines[0])
      case Ignored => Contents(lines[1..], parse)
      case Answer(content, _, broken, done, _) =>
        (if content.Some? then content.value else []) + (if broken || done then [] else Contents(lines[1..], parse))
  }

  ghost predicate Ends(line: Line)
  {
    line.Answer? && (line.broken || line.done)
  }

  lemma {:induction false} SaidSplit(a: seq<Event>, b: seq<Event>)
    ensures Said(a + b) == Said(a) + Said(b)
  {
    if b == [] {
      assert a + b == a;
    } else {
      assert (a + b)[..|a + b| - 1] == a + b[..|b| - 1];
      SaidSplit(a, b[..|b| - 1]);
    }
  }

  lemma {:induction false} CallsSayNothing(events: seq<Event>)
    requires forall i :: 0 <= i < |events| ==> !events[i].TextDelta?
    ensures Said(events) == []
  {
    if events != [] {
      CallsSayNothing(events[..|events| - 1]);
    }
  }

  lemma TellsContent(added: seq<Event>, line: Line, first: nat)
    requires line.Answer? && Tells(added, line, first)
    ensures Said(added) == if line.content.Some? then line.content.value else []
  {
    var texts := if line.content.Some? && line.content.value != [] then 1 else 0;
    var rest := added[texts..];
    forall i | 0 <= i < |rest|
      ensures !rest[i].TextDelta?
    {
      if i < |line.calls| {
        assert added[texts + i] == CallEvent(first + i, line.calls[i].0, line.calls[i].1);
      }
    }
    CallsSayNothing(rest);
    SaidSplit(added[..texts], rest);
    assert added == added[..texts] + rest;
    if texts == 1 {
      assert added[..1] == [added[0]] && [added[0]][..0] == [];
    }
  }

  lemma StepFirst(p: Progress, lines: seq<Text>, parse: LineParser)
    requires lines != []
    ensures Steps(p, lines, parse) == Steps(Step(p, parse(lines[0])), lines[1..], parse)
  {
    assert lines == [lines[0]] + lines[1..];
    StepsSplit(p, [lines[0]], lines[1..], parse);
    var one := [lines[0]];
    assert one[..0] == [] && Steps(p, one, parse) == Step(p, parse(lines[0]));
  }

  lemma {:induction false} ContentsFrom(p: Progress, lines: seq<Text>, parse: LineParser)
    requires !p.ended
    ensures Said(Steps(p, lines, parse).events) == Said(p.events) + Contents(lines, parse)
    ensures Steps(p, lines, parse).ended <==> exists line :: line in lines && Ends(parse(line))
    decreases |lines|
  {
    hide Step, Said;
    if lines != [] {
      StepFirst(p, lines, parse);
      var line := parse(lines[0]);
      var q := Step(p, line);
      StepTells(p, line);
      assert lines == [lines[0]] + lines[1..];
      if line.Answer? {
        TellsContent(q.events[|p.events|..], line, p.callIdx);
        SaidSplit(p.events, q.events[|p.events|..]);
        assert q.events == p.events + q.events[|p.events|..];
      }
      if q.ended {
        EndedStays(q, lines[1..], parse);
        assert Ends(parse(lines[0]));
      } else {
        ContentsFrom(q, lines[1..], parse);
        assert !Ends(parse(lines[0]));
      }
    }
  }

  /**
   A response that is the UTF-8 encoding of a text is read as the lines of that text, without a leading mark: the deltas
   say what their contents say up to the first that ends the reading, and it ends if there is one.
   */
  lemma EncodedIsRead(s: Text, parse: LineParser)
    ensures var text, p := Repair(s), OnePass(Encode(s), parse);
            var lines := Lines(if text != [] && text[0] == 0xFEFF then text[1..] else text);
            && p == Steps(BEGIN, lines, parse)
            && Said(p.events) == Contents(lines, parse)
            && (p.ended <==> exists line :: line in lines && Ends(parse(line)))
  {
    hide Steps, Lines, StreamText, Withheld, Encode, Repair, Decode, Contents, Said;
    var b := Encode(s);
    NothingWithheld(s);
    StreamIsDecode(b);
    assert b[..|b|] == b;
    RoundTrip(s);
    NothingSaid();
    ContentsFrom(BEGIN, Lines(Unmarked(Repair(s))), parse);
  }

  lemma NothingSaid()
    ensures Said(BEGIN.events) == []
  {
  }

  // ---- Call ids ----

  function CallIndices(events: seq<Event>): seq<nat>
  {
    if events == [] then []
    else
      var before := CallIndices(events[..|events| - 1]);
      match events[|events| - 1] case CallEvent(index, _, _) => before + [index] case _ => before
  }

  ghost predicate CountsUp(indices: seq<nat>, n: nat)
  {
    |indices| == n && forall i :: 0 <= i < n ==> indices[i] == i
  }

  lemma {:induction false} IndicesSplit(a: seq<Event>, b: seq<Event>)
    ensures CallIndices(a + b) == CallIndices(a) + CallIndices(b)
  {
    if b == [] {
      assert a + b == a;
    } else {
      assert (a + b)[..|a + b| - 1] == a + b[..|b| - 1];
      IndicesSplit(a, b[..|b| - 1]);
    }
  }

  lemma {:induction false} NumberedIndices(calls: seq<(Text, Text)>, first: nat)
    ensures |CallIndices(Numbered(calls, first))| == |calls|
    ensures forall i :: 0 <= i < |calls| ==> CallIndices(Numbered(calls, first))[i] == first + i
  {
    if calls != [] {
      var init := calls[..|calls| - 1];
      NumberedIndices(init, first);
      var n := Numbered(calls, first);
      assert n[..|n| - 1] == Numbered(init, first);
    }
  }

  /** The calls of a response are numbered 0, 1, 2, … in order of arrival: ids never repeat. */
  lemma {:induction false} CallIdsCountUp(lines: seq<Text>, parse: LineParser)
    ensures var p := Steps(BEGIN, lines, parse); CountsUp(CallIndices(p.events), p.callIdx)
  {
    if lines != [] {
      CallIdsCountUp(lines[..|lines| - 1], parse);
      StepCountsUp(Steps(BEGIN, lines[..|lines| - 1], parse), parse(lines[|lines| - 1]));
    }
  }

  lemma StepCountsUp(p: Progress, line: Line)
    requires CountsUp(CallIndices(p.events), p.callIdx)
    ensures CountsUp(CallIndices(Step(p, line).events), Step(p, line).callIdx)
  {
    hide CallIndices, Numbered, CountsUp;
    if !p.ended && line.Answer? {
      var text := match line.content
        case None => []
        case Some(content) => if content == [] then [] else [TextDelta(content)];
      MoreCalls(p, text, line.calls);
      var before := p.events + text + Numbered(line.calls, p.callIdx);
      OtherEvents(before, [Threw]);
      OtherEvents(before, [Finish(line.cutShort)]);
    }
  }

  lemma MoreCalls(p: Progress, text: seq<Event>, calls: seq<(Text, Text)>)
    requires CountsUp(CallIndices(p.events), p.callIdx)
    requires |text| <= 1 && forall i :: 0 <= i < |text| ==> !text[i].CallEvent?
    ensures CountsUp(CallIndices(p.events + text + Numbered(calls, p.callIdx)), p.callIdx + |calls|)
  {
    hide CallIndices, Numbered;
    OtherEvents(p.events, text);
    IndicesSplit(p.events + text, Numbered(calls, p.callIdx));
    NumberedIndices(calls, p.callIdx);
  }

  lemma OtherEvents(before: seq<Event>, events: seq<Event>)
    requires |events| <= 1 && forall i :: 0 <= i < |events| ==> !events[i].CallEvent?
    ensures CallIndices(before + events) == CallIndices(before)
  {
    if events == [] {
      assert before + events == before;
    } else {
      assert (before + events)[..|before|] == before;
    }
  }
}
