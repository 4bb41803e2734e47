/** What holds of every request of a run: it fits the byte limit, and tool results stay with their calls. */
module AgentPairing {
  import opened Basics
  import opened Utf8
  import opened AgentText
  import opened AgentHistory
  import opened AgentLoop

  /** The `i`-th of `ms` answers the call `c`. */
  predicate Answers(m: ChatMessage, c: ToolCall)
  {
    m.role == Tool && m.toolCallId == Some(c.id)
  }

  ghost predicate AllAnswer(results: seq<ChatMessage>, calls: seq<ToolCall>)
  {
    |results| == |calls| && forall i :: 0 <= i < |calls| ==> Answers(results[i], calls[i])
  }

  /** Results come only directly after the message that makes the calls: all of its calls, in order. */
  ghost predicate WellPaired(ms: seq<ChatMessage>)
  {
    if ms == [] then true
    else
      var n := |Calls(ms[0])|;
      && ms[0].role != Tool
      && n < |ms|
      && AllAnswer(ms[1..1 + n], Calls(ms[0]))
      && WellPaired(ms[1 + n..])
  }

  /** Bounding this message alone drops none of its calls. */
  predicate Roomy(m: ChatMessage, limit: nat)
  {
    Calls(m) == [] || Within(MessageBytes(Copied(m, limit)), limit)
  }

  /** `a` is `b` with calls dropped: pairing looks at nothing else. */
  ghost predicate Shrunk(a: ChatMessage, b: ChatMessage)
  {
    && a.role == b.role && a.toolCallId == b.toolCallId && |Calls(a)| <= |Calls(b)|
    && (|Calls(a)| == |Calls(b)| ==> forall i :: 0 <= i < |Calls(a)| ==> Calls(a)[i].id == Calls(b)[i].id)
  }

  predicate KeepsCalls(a: ChatMessage, b: ChatMessage)
  {
    a.role == Tool || |Calls(a)| == |Calls(b)|
  }

  ghost predicate AllKeepCalls(a: seq<ChatMessage>, b: seq<ChatMessage>)
    requires |a| == |b|
  {
    forall i :: 0 <= i < |a| ==> KeepsCalls(a[i], b[i])
  }

  ghost predicate AllShrunk(a: seq<ChatMessage>, b: seq<ChatMessage>)
  {
    |a| == |b| && forall i :: 0 <= i < |a| ==> Shrunk(a[i], b[i])
  }

  /** A message that lost calls leaves a result where the next group must begin. */
  lemma {:induction false} ShrunkPairs(a: seq<ChatMessage>, b: seq<ChatMessage>)
    requires AllShrunk(a, b) && WellPaired(b)
    ensures WellPaired(a) <==> AllKeepCalls(a, b)
  {
    if a != [] {
      var n := |Calls(b[0])|;
      assert Shrunk(a[0], b[0]);
      hide Shrunk, Calls, AllKeepCalls, AllAnswer;
      ResultsAreTools(a, b);
      if |Calls(a[0])| < n {
        LostCalls(a, b);
      } else {
        ShrunkAnswers(a[1..1 + n], b[1..1 + n], a[0], b[0]);
        ShrunkPairs(a[1 + n..], b[1 + n..]);
        RestKeepsCalls(a, b);
      }
    }
  }

  lemma LostCalls(a: seq<ChatMessage>, b: seq<ChatMessage>)
    requires |a| == |b| && a != [] && a[0].role != Tool && |Calls(a[0])| < |Calls(b[0])| < |b|
    requires forall i :: 1 <= i < 1 + |Calls(b[0])| ==> a[i].role == Tool
    ensures !WellPaired(a) && !AllKeepCalls(a, b)
  {
    var m := |Calls(a[0])|;
    assert a[1 + m..][0].role == Tool;
    assert !KeepsCalls(a[0], b[0]);
    hide AllAnswer, Calls;
  }

  lemma RestKeepsCalls(a: seq<ChatMessage>, b: seq<ChatMessage>)
    requires |a| == |b| && a != [] && |Calls(a[0])| == |Calls(b[0])| < |b|
    requires forall i :: 1 <= i < 1 + |Calls(b[0])| ==> a[i].role == Tool
    ensures var n := 1 + |Calls(b[0])|; AllKeepCalls(a, b) <==> AllKeepCalls(a[n..], b[n..])
  {
    var n := 1 + |Calls(b[0])|;
    hide Calls;
    assert KeepsCalls(a[0], b[0]);
    forall i | 0 <= i < |a|
      ensures i >= n ==> a[i] == a[n..][i - n] && b[i] == b[n..][i - n]
      ensures 1 <= i < n ==> KeepsCalls(a[i], b[i])
    {
    }
    forall i | 0 <= i < |a| - n
      ensures a[n..][i] == a[i + n] && b[n..][i] == b[i + n]
    {
    }
  }

  lemma ResultsAreTools(a: seq<ChatMessage>, b: seq<ChatMessage>)
    requires AllShrunk(a, b) && a != [] && |Calls(b[0])| < |b|
    requires AllAnswer(b[1..1 + |Calls(b[0])|], Calls(b[0]))
    ensures forall i :: 1 <= i < 1 + |Calls(b[0])| ==> a[i].role == Tool
  {
    forall i | 1 <= i < 1 + |Calls(b[0])|
      ensures a[i].role == Tool
    {
      assert Answers(b[1..1 + |Calls(b[0])|][i - 1], Calls(b[0])[i - 1]) && Shrunk(a[i], b[i]);
    }
  }

  lemma ShrunkAnswers(a: seq<ChatMessage>, b: seq<ChatMessage>, m: ChatMessage, n: ChatMessage)
    requires AllShrunk(a, b) && Shrunk(m, n) && |Calls(m)| == |Calls(n)| && AllAnswer(b, Calls(n))
    ensures AllAnswer(a, Calls(m))
  {
    forall i | 0 <= i < |Calls(m)|
      ensures Answers(a[i], Calls(m)[i])
    {
      assert Shrunk(a[i], b[i]) && Answers(b[i], Calls(n)[i]);
    }
  }

  lemma PreparedShrinks(ms: seq<ChatMessage>, limit: nat, i: nat)
    requires i < |ms|
    ensures Shrunk(Prepared(ms, limit)[i], ms[i])
    ensures KeepsCalls(Prepared(ms, limit)[i], ms[i]) <==> ms[i].role == Tool || Roomy(ms[i], limit)
  {
    hide MessageBytes, Truncated, ContentBudget, HistoryBytes;
    var copy := Copied(ms[i], limit);
    assert |Calls(copy)| == |Calls(ms[i])|;
    SameWithoutNone(copy);
  }

  lemma {:induction false} DropLeadingTools(ms: seq<ChatMessage>, n: nat)
    requires n <= |ms| && forall i :: 0 <= i < n ==> ms[i].role == Tool
    ensures DropTools(ms) == DropTools(ms[n..])
  {
    if n > 0 {
      DropLeadingTools(ms[1..], n - 1);
      assert ms[1..][n - 1..] == ms[n..];
    } else {
      assert ms[0..] == ms;
    }
  }

  /** Cutting anywhere and dropping the results at the front leaves whole groups. */
  lemma {:induction false} CutStaysPaired(ms: seq<ChatMessage>, k: nat)
    requires WellPaired(ms) && k <= |ms|
    ensures WellPaired(DropTools(ms[k..]))
  {
    hide AllAnswer, DropTools;
    if k == 0 {
      assert ms[0..] == ms;
      NotToolKept(ms);
    } else {
      var rest := ms[1 + |Calls(ms[0])|..];
      var j := if k <= |ms| - |rest| then 0 else k - (|ms| - |rest|);
      CutStaysPaired(rest, j);
      if j == 0 {
        CutInsideGroup(ms, k);
      } else {
        assert rest[j..] == ms[k..];
      }
    }
  }

  lemma NotToolKept(ms: seq<ChatMessage>)
    requires ms != [] ==> ms[0].role != Tool
    ensures DropTools(ms) == ms
  {
  }

  lemma CutInsideGroup(ms: seq<ChatMessage>, k: nat)
    requires ms != [] && 1 <= k <= |Calls(ms[0])| + 1 <= |ms|
    requires AllAnswer(ms[1..1 + |Calls(ms[0])|], Calls(ms[0]))
    ensures DropTools(ms[k..]) == DropTools(ms[1 + |Calls(ms[0])|..][0..])
  {
    var n := |Calls(ms[0])|;
    var cut, results := ms[k..], ms[1..1 + n];
    forall i | 0 <= i < n + 1 - k
      ensures cut[i].role == Tool
    {
      assert cut[i] == results[k - 1 + i] && Answers(results[k - 1 + i], Calls(ms[0])[k - 1 + i]);
    }
    DropLeadingTools(cut, n + 1 - k);
    assert cut[n + 1 - k..] == ms[1 + n..] == ms[1 + n..][0..];
  }

  lemma {:induction false} SameCut(a: seq<ChatMessage>, b: seq<ChatMessage>, k: nat) returns (t: nat)
    requires |a| == |b| && k <= |a| && forall i :: 0 <= i < |a| ==> a[i].role == b[i].role
    ensures k <= t <= |a| && DropTools(a[k..]) == a[t..] && DropTools(b[k..]) == b[t..]
    decreases |a| - k
  {
    if k < |a| && a[k].role == Tool {
      t := SameCut(a, b, k + 1);
      assert a[k..][1..] == a[k + 1..] && b[k..][1..] == b[k + 1..];
    } else {
      t := k;
    }
  }

  lemma PreparedRoles(ms: seq<ChatMessage>, limit: nat)
    ensures forall i :: 0 <= i < |ms| ==> Prepared(ms, limit)[i].role == ms[i].role
  {
    hide *;
    forall i | 0 <= i < |ms|
      ensures Prepared(ms, limit)[i].role == ms[i].role
    {
      PreparedShrinks(ms, limit, i);
      ShrunkRole(Prepared(ms, limit)[i], ms[i]);
    }
  }

  lemma ShrunkRole(a: ChatMessage, b: ChatMessage)
    requires Shrunk(a, b)
    ensures a.role == b.role
  {
  }

  /** The bounded history begins where a group of the whole history begins. */
  lemma KeptGroups(ms: seq<ChatMessage>, limit: nat) returns (t: nat)
    requires WellPaired(ms) && 2 <= limit
    ensures t <= |ms| && BoundedHistory(ms, limit) == Prepared(ms, limit)[t..] && WellPaired(ms[t..])
  {
    hide *;
    var prepared := Prepared(ms, limit);
    PreparedRoles(ms, limit);
    BoundedIs(ms, limit);
    var k := KeptFrom(prepared, limit);
    t := SameCut(prepared, ms, k);
    CutStaysPaired(ms, k);
  }

  lemma BoundedIs(ms: seq<ChatMessage>, limit: nat)
    requires 2 <= limit
    ensures var prepared := Prepared(ms, limit);
            BoundedHistory(ms, limit) == DropTools(prepared[KeptFrom(prepared, limit)..])
  {
    hide Prepared, KeptFrom, DropTools;
  }

  predicate KeptRoomy(ms: seq<ChatMessage>, limit: nat)
  {
    var forgotten := |ms| - |BoundedHistory(ms, limit)|;
    forall i :: 0 <= i < |ms| && forgotten <= i && ms[i].role != Tool ==> Roomy(ms[i], limit)
  }

  /** Bounding keeps calls and results together exactly when no kept message, with its calls, exceeds the limit alone. */
  lemma BoundingPairsIff(ms: seq<ChatMessage>, limit: nat)
    requires WellPaired(ms)
    ensures WellPaired(BoundedHistory(ms, limit)) <==> KeptRoomy(ms, limit)
  {
    hide Prepared, Shrunk, Roomy, WellPaired, KeepsCalls;
    if limit < 2 {
      NothingPaired();
    } else {
      hide BoundedHistory;
      var t := KeptGroups(ms, limit);
      var prepared := Prepared(ms, limit);
      var a, b := prepared[t..], ms[t..];
      forall i: nat | t <= i < |ms|
        ensures a[i - t] == prepared[i] && b[i - t] == ms[i] && Shrunk(a[i - t], b[i - t])
        ensures KeepsCalls(a[i - t], b[i - t]) <==> ms[i].role == Tool || Roomy(ms[i], limit)
      {
        PreparedShrinks(ms, limit, i);
      }
      assert forall i :: 0 <= i < |a| ==> Shrunk(a[i], b[i]) by {
        forall i | 0 <= i < |a|
          ensures Shrunk(a[i], b[i])
        {
          assert Shrunk(a[i + t - t], b[i + t - t]);
        }
      }
      ShrunkPairs(a, b);
    }
  }

  lemma BoundingStaysPaired(ms: seq<ChatMessage>, limit: nat)
    requires WellPaired(ms) && forall i :: 0 <= i < |ms| ==> Roomy(ms[i], limit)
    ensures WellPaired(BoundedHistory(ms, limit))
  {
    hide BoundedHistory, Roomy, WellPaired;
    BoundingPairsIff(ms, limit);
  }

  lemma NothingPaired()
    ensures WellPaired([])
  {
  }

  lemma OneGroup(m: ChatMessage, results: seq<ChatMessage>, rest: seq<ChatMessage>)
    requires m.role != Tool && AllAnswer(results, Calls(m)) && WellPaired(rest)
    ensures WellPaired([m] + results + rest)
  {
    assert |results| == |Calls(m)|;
    hide AllAnswer, Calls;
    var all := [m] + results + rest;
    assert all[1..1 + |results|] == results && all[1 + |results|..] == rest;
  }

  lemma Regroup(first: ChatMessage, a: seq<ChatMessage>, b: seq<ChatMessage>, m: ChatMessage, c: seq<ChatMessage>)
    ensures [first] + a + b + [m] + c == [first] + a + (b + [m] + c)
  {
  }

  lemma FirstGroup(ms: seq<ChatMessage>)
    requires WellPaired(ms) && ms != []
    ensures var n := |Calls(ms[0])|;
            && ms[0].role != Tool && n < |ms|
            && AllAnswer(ms[1..1 + n], Calls(ms[0])) && WellPaired(ms[1 + n..])
  {
  }

  lemma {:induction false} GroupAppended(ms: seq<ChatMessage>, m: ChatMessage, results: seq<ChatMessage>)
    requires WellPaired(ms) && m.role != Tool
    requires AllAnswer(results, Calls(m))
    ensures WellPaired(ms + [m] + results)
  {
    hide *;
    var all := ms + [m] + results;
    if ms == [] {
      NothingPaired();
      OneGroup(m, results, []);
      assert all == [m] + results + [];
    } else {
      FirstGroup(ms);
      var results0, rest := ms[1..1 + |Calls(ms[0])|], ms[1 + |Calls(ms[0])|..];
      GroupAppended(rest, m, results);
      OneGroup(ms[0], results0, rest + [m] + results);
      Regroup(ms[0], results0, rest, m, results);
      assert ms == [ms[0]] + results0 + rest;
    }
  }

  /** Messages of a bounded history are roomy, being already bounded. */
  lemma SentIsRoomy(ms: seq<ChatMessage>, limit: nat, i: nat)
    requires i < |BoundedHistory(ms, limit)|
    ensures Roomy(BoundedHistory(ms, limit)[i], limit)
  {
    hide BoundedHistory, Prepared, HistoryBytes, MessageBytes, ArgsBounded, Within, Roomy;
    NothingBelowTwo(ms, limit);
    KeepsLongestSuffix(ms, limit);
    var r := BoundedHistory(ms, limit);
    EachFits(r, i, limit);
    var prepared := Prepared(ms, limit);
    var k: nat, t: nat :| LongestFit(prepared, k, t, limit) && r == prepared[t..];
    PreparedArgs(ms, limit, t + i);
    BoundedIsRoomy(r[i], limit);
  }

  lemma NothingBelowTwo(ms: seq<ChatMessage>, limit: nat)
    ensures BoundedHistory(ms, limit) != [] ==> 2 <= limit
  {
  }

  lemma BoundedIsRoomy(m: ChatMessage, limit: nat)
    requires ArgsBounded(m, limit) && Within(MessageBytes(m), limit)
    ensures Roomy(m, limit)
  {
    ContentShorter(m, limit);
    CopiedAgain(m, limit);
  }

  /** The assistant message of a turn, with all its calls, fits the limit alone. */
  predicate TurnFits(provider: Provider, sends: seq<seq<ChatMessage>>, i: nat, limit: nat)
    requires i < |sends|
  {
    Roomy(AssistantMessage(Turn(provider, sends, i, limit)), limit)
  }

  /** One turn from a paired request: the next one is paired unless calls are dropped and anything is left. */
  lemma TurnPairsIff(sent: seq<ChatMessage>, b: Batch, session: Session, first: nat, limit: nat)
    requires WellPaired(sent) && forall i :: 0 <= i < |sent| ==> Roomy(sent[i], limit)
    ensures var next := After(sent, b, session, first, limit);
            WellPaired(next) <==> next == [] || Roomy(AssistantMessage(b), limit)
  {
    hide Roomy, BoundedHistory, WellPaired, Truncated;
    var results := ToolMessages(b.calls, session, first, limit);
    GroupAppended(sent, AssistantMessage(b), results);
    var all := sent + [AssistantMessage(b)] + results;
    BoundingPairsIff(all, limit);
    BoundedLength(all, limit);
    var next := BoundedHistory(all, limit);
    forall i | |sent| < i < |all|
      ensures all[i].role == Tool
    {
      assert all[i] == results[i - |sent| - 1];
    }
    assert all[|sent|] == AssistantMessage(b);
    if next == [] {
      NothingPaired();
    } else if Roomy(AssistantMessage(b), limit) {
      assert KeptRoomy(all, limit);
    } else {
      FirstKept(all, limit);
      assert |all| - |next| <= |sent|;
    }
  }

  lemma BoundedLength(ms: seq<ChatMessage>, limit: nat)
    ensures |BoundedHistory(ms, limit)| <= |ms|
  {
    hide Prepared;
    if limit >= 2 {
      var prepared := Prepared(ms, limit);
      var d := DropToolsIsSuffix(prepared[KeptFrom(prepared, limit)..]);
    }
  }

  lemma FirstKept(ms: seq<ChatMessage>, limit: nat)
    requires WellPaired(ms) && BoundedHistory(ms, limit) != []
    ensures 0 < |BoundedHistory(ms, limit)| <= |ms|
    ensures ms[|ms| - |BoundedHistory(ms, limit)|].role != Tool
  {
    hide WellPaired, Prepared;
    var t := KeptGroups(ms, limit);
    FirstGroup(ms[t..]);
  }

  /** Every request of a run is within the byte limit and is already in bounded form. */
  lemma SendsFit(messages: seq<ChatMessage>, provider: Provider, session: Session, sends: seq<seq<ChatMessage>>,
                 limit: nat, i: nat)
    requires Chained(messages, provider, session, sends, limit) && i < |sends| && 2 <= limit
    ensures Within(HistoryBytes(sends[i]), limit)
    ensures BoundedHistory(sends[i], limit) == sends[i]
    ensures sends[i] != [] ==> sends[i][0].role != Tool
  {
    var source := SentFrom(messages, provider, session, sends, limit, i);
    KeepsLongestSuffix(source, limit);
    BoundedHistoryAgain(source, limit);
  }

  lemma SentFrom(messages: seq<ChatMessage>, provider: Provider, session: Session, sends: seq<seq<ChatMessage>>,
                 limit: nat, i: nat) returns (source: seq<ChatMessage>)
    requires Chained(messages, provider, session, sends, limit) && i < |sends|
    ensures sends[i] == BoundedHistory(source, limit)
  {
    hide BoundedHistory;
    if i == 0 {
      source := messages;
    } else {
      var b := Turn(provider, sends, i - 1, limit);
      var first := |CallsOfTurns(provider, sends, i - 1, limit)|;
      source := sends[i - 1] + [AssistantMessage(b)] + ToolMessages(b.calls, session, first, limit);
      assert sends[i] == After(sends[i - 1], b, session, first, limit);
    }
  }

  /** From a paired request, the next is paired exactly when nothing is left of it or the turn's calls all fit. */
  lemma NextPairedIff(messages: seq<ChatMessage>, provider: Provider, session: Session,
                      sends: seq<seq<ChatMessage>>, limit: nat, i: nat)
    requires Chained(messages, provider, session, sends, limit) && i + 1 < |sends|
    requires WellPaired(sends[i])
    ensures WellPaired(sends[i + 1]) <==> sends[i + 1] == [] || TurnFits(provider, sends, i, limit)
  {
    hide Roomy, BoundedHistory, WellPaired, CallsOfTurns, After;
    var source := SentFrom(messages, provider, session, sends, limit, i);
    forall j | 0 <= j < |sends[i]|
      ensures Roomy(sends[i][j], limit)
    {
      SentIsRoomy(source, limit, j);
    }
    var b := Turn(provider, sends, i, limit);
    TurnPairsIff(sends[i], b, session, |CallsOfTurns(provider, sends, i, limit)|, limit);
  }

  ghost predicate AllPaired(sends: seq<seq<ChatMessage>>)
  {
    forall i :: 0 <= i < |sends| ==> WellPaired(sends[i])
  }

  /** Nothing of a turn is sent on, or its assistant message fits the limit with all its calls. */
  predicate TurnKeepsCalls(provider: Provider, sends: seq<seq<ChatMessage>>, i: nat, limit: nat)
    requires i + 1 < |sends|
  {
    sends[i + 1] == [] || TurnFits(provider, sends, i, limit)
  }

  /**
   In every request of a run each tool result directly follows the message that carries its call, and each call has
   its result, exactly when no message kept of the caller's and no assistant message sent on exceeds the limit alone.
   */
  lemma {:induction false} SendsPairedIff(messages: seq<ChatMessage>, provider: Provider, session: Session,
                                          sends: seq<seq<ChatMessage>>, limit: nat)
    requires Chained(messages, provider, session, sends, limit) && sends != [] && WellPaired(messages)
    ensures AllPaired(sends) <==>
            && KeptRoomy(messages, limit)
            && forall i :: 0 <= i < |sends| - 1 ==> TurnKeepsCalls(provider, sends, i, limit)
  {
    hide Roomy, BoundedHistory, WellPaired, CallsOfTurns, After, TurnFits, KeptRoomy;
    BoundingPairsIff(messages, limit);
    if AllPaired(sends) {
      forall i: nat | i < |sends| - 1
        ensures TurnKeepsCalls(provider, sends, i, limit)
      {
        NextPairedIff(messages, provider, session, sends, limit, i);
      }
    } else if KeptRoomy(messages, limit) && forall i :: 0 <= i < |sends| - 1 ==> TurnKeepsCalls(provider, sends, i, limit) {
      forall i | 0 <= i < |sends|
        ensures WellPaired(sends[i])
      {
        PairedUpTo(messages, provider, session, sends, limit, i);
      }
    }
  }

  lemma {:induction false} PairedUpTo(messages: seq<ChatMessage>, provider: Provider, session: Session,
                                      sends: seq<seq<ChatMessage>>, limit: nat, i: nat)
    requires Chained(messages, provider, session, sends, limit) && i < |sends| && WellPaired(sends[0])
    requires forall j :: 0 <= j < i ==> TurnKeepsCalls(provider, sends, j, limit)
    ensures WellPaired(sends[i])
  {
    hide Roomy, BoundedHistory, WellPaired, CallsOfTurns, After, TurnFits;
    if i > 0 {
      PairedUpTo(messages, provider, session, sends, limit, i - 1);
      assert TurnKeepsCalls(provider, sends, i - 1, limit);
      NextPairedIff(messages, provider, session, sends, limit, i - 1);
    }
  }

  lemma SendsStayPaired(messages: seq<ChatMessage>, provider: Provider, session: Session,
                        sends: seq<seq<ChatMessage>>, limit: nat, i: nat)
    requires Chained(messages, provider, session, sends, limit) && i < |sends|
    requires WellPaired(messages) && forall j :: 0 <= j < |messages| ==> Roomy(messages[j], limit)
    requires forall j :: 0 <= j < i ==> Roomy(AssistantMessage(Turn(provider, sends, j, limit)), limit)
    ensures WellPaired(sends[i])
  {
    hide Roomy, BoundedHistory, WellPaired, CallsOfTurns, After;
    BoundingPairsIff(messages, limit);
    PairedUpTo(messages, provider, session, sends, limit, i);
  }

  // ---- A run that loses a call ----

  /** The JSON text of a string of `n` letters. */
  function Letters(n: nat): (s: Text)
    ensures |s| == n + 2 && Ascii(s)
  {
    [0x22] + seq(n, _ => 0x61) + [0x22]
  }

  function LongCall(id: Text, n: nat): ToolCall
  {
    ToolCall(id, [0x74], Json(Letters(n)))
  }

  const FIRST_CALL: ToolCall := LongCall([0x31], 478)
  const SECOND_CALL: ToolCall := LongCall([0x32], 438)

  function Answered(m: ChatMessage): seq<ChatMessage>
  {
    [m, ChatMessage(Tool, [], Some([0x31]), None, Some([0x74])), ChatMessage(Tool, [], Some([0x32]), None, Some([0x74]))]
  }

  function Caller(calls: seq<ToolCall>): ChatMessage
  {
    ChatMessage(Assistant, [], None, Some(calls), None)
  }

  lemma OneLetter(c: Unit)
    requires 0x30 <= c < 0x5C || 0x5C < c < 0x80
    ensures StringBytes([c]) == 3
  {
    assert CharLen([c]) == 1 && EscapedWidth([c]) == 1;
    assert [c][1..] == [] && EscapedBytes([]) == 0;
  }

  lemma LongCallSize(id: Text, n: nat)
    requires n <= 498 && StringBytes(id) == 3
    ensures CallBytes(LongCall(id, n)) == Some(n + 31)
    ensures BoundedCall(LongCall(id, n), 1000) == LongCall(id, n)
  {
    AsciiBytes(Letters(n));
    OneLetter(0x74);
    hide StringBytes, ByteLen, Letters;
  }

  lemma ListSizes()
    ensures CallListBytes([FIRST_CALL, SECOND_CALL]) == Some(980)
    ensures CallListBytes([SECOND_CALL]) == Some(470) && CallListBytes([FIRST_CALL]) == Some(510)
    ensures BoundedCall(FIRST_CALL, 1000) == FIRST_CALL && BoundedCall(SECOND_CALL, 1000) == SECOND_CALL
  {
    OneLetter(0x31);
    OneLetter(0x32);
    LongCallSize([0x31], 478);
    LongCallSize([0x32], 438);
    hide CallBytes, LongCall, BoundedCall, StringBytes;
    ListsOfCalls(FIRST_CALL, SECOND_CALL);
  }

  lemma ListsOfCalls(c: ToolCall, d: ToolCall)
    ensures CallListBytes([d]) == Plus(Plus(Some(1), CallBytes(d)), Some(0))
    ensures CallListBytes([c]) == Plus(Plus(Some(1), CallBytes(c)), Some(0))
    ensures CallListBytes([c, d]) == Plus(Plus(Some(1), CallBytes(c)), CallListBytes([d]))
  {
    hide CallBytes;
    assert [c, d][1..] == [d] && [d][1..] == [] && [c][1..] == [];
  }

  lemma CallerSize(calls: seq<ToolCall>)
    requires calls != []
    ensures MessageBytes(Caller(calls)) == Plus(Some(47), CallListBytes(calls))
  {
    hide CallListBytes;
    assert StringBytes([]) == 2;
  }

  lemma CallerSizes()
    ensures MessageBytes(Caller([FIRST_CALL, SECOND_CALL])) == Some(1027)
    ensures MessageBytes(Caller([SECOND_CALL])) == Some(517)
  {
    hide CallListBytes, FIRST_CALL, SECOND_CALL, Caller, MessageBytes;
    ListSizes();
    CallerSize([FIRST_CALL, SECOND_CALL]);
    CallerSize([SECOND_CALL]);
  }

  lemma ResultSize(id: Text)
    requires StringBytes(id) == 3
    ensures MessageBytes(ChatMessage(Tool, [], Some(id), None, Some([0x74]))) == Some(56)
  {
    OneLetter(0x74);
    assert StringBytes([]) == 2;
    hide EscapedBytes;
  }

  lemma ThreeMessages(ms: seq<ChatMessage>, a: nat, b: nat, c: nat)
    requires |ms| == 3
    requires MessageBytes(ms[0]) == Some(a) && MessageBytes(ms[1]) == Some(b) && MessageBytes(ms[2]) == Some(c)
    ensures HistoryBytes(ms) == Some(a + b + c + 4)
  {
    hide MessageBytes;
    assert ms[2..] == [ms[2]] && ms[3..] == [];
    assert ListBytes(ms[2..]) == Some(1 + c);
    assert ms[1..][1..] == ms[2..];
    assert ListBytes(ms[1..]) == Some(1 + b + (1 + c));
  }

  lemma AnsweredSize()
    ensures HistoryBytes(Answered(Caller([SECOND_CALL]))) == Some(633)
  {
    hide FIRST_CALL, SECOND_CALL, Caller, MessageBytes, HistoryBytes, StringBytes;
    CallerSizes();
    OneLetter(0x31);
    OneLetter(0x32);
    ResultSize([0x31]);
    ResultSize([0x32]);
    ThreeMessages(Answered(Caller([SECOND_CALL])), 517, 56, 56);
  }

  lemma CallerLosesFirst()
    ensures Bounded(Caller([FIRST_CALL, SECOND_CALL]), 1000) == Caller([SECOND_CALL])
  {
    hide *;
    var m := Caller([FIRST_CALL, SECOND_CALL]);
    ListSizes();
    CallerCopied(FIRST_CALL, SECOND_CALL);
    CallerSizes();
    CallersWithout(FIRST_CALL, SECOND_CALL);
    FitsNow(Some(1027), 1000);
    FitsNow(Some(517), 1000);
    DropsOne(m, 1000);
    BoundedFrom(m, 1000);
  }

  lemma CallerCopied(c: ToolCall, d: ToolCall)
    requires BoundedCall(c, 1000) == c && BoundedCall(d, 1000) == d
    ensures Copied(Caller([c, d]), 1000) == Caller([c, d])
  {
    hide BoundedCall;
    assert Truncated([], 1000) == [];
    assert BoundedCalls([c, d], 1000) == [c, d];
  }

  lemma CallersWithout(c: ToolCall, d: ToolCall)
    ensures WithoutCalls(Caller([c, d]), 0) == Caller([c, d]) && WithoutCalls(Caller([c, d]), 1) == Caller([d])
    ensures |Calls(Caller([c, d]))| == 2
  {
    assert [c, d][0..] == [c, d] && [c, d][1..] == [d];
  }

  lemma FitsNow(size: Option<nat>, limit: nat)
    requires size.Some?
    ensures Within(size, limit) <==> size.value <= limit
  {
  }

  lemma DropsOne(m: ChatMessage, limit: nat)
    requires |Calls(m)| == 2
    requires !Within(MessageBytes(WithoutCalls(m, 0)), limit) && Within(MessageBytes(WithoutCalls(m, 1)), limit)
    ensures Dropped(m, limit) == 1
  {
    hide MessageBytes, Within, WithoutCalls;
    var d := Dropped(m, limit);
  }

  lemma FitsAlone(m: ChatMessage, limit: nat)
    requires m.toolCalls == None && Within(MessageBytes(m), limit)
    ensures Bounded(m, limit) == m
  {
    hide MessageBytes, Within, Bounded;
    BoundedAgain(m, limit);
  }

  lemma BoundedToOneCall()
    ensures BoundedHistory(Answered(Caller([FIRST_CALL, SECOND_CALL])), 1000) == Answered(Caller([SECOND_CALL]))
  {
    hide HistoryBytes, MessageBytes, FIRST_CALL, SECOND_CALL, Caller, Bounded;
    var all, kept := Answered(Caller([FIRST_CALL, SECOND_CALL])), Answered(Caller([SECOND_CALL]));
    AnsweredSize();
    FitsNow(Some(633), 1000);
    CallerLosesFirst();
    EachFits(kept, 1, 1000);
    EachFits(kept, 2, 1000);
    FitsAlone(all[1], 1000);
    FitsAlone(all[2], 1000);
    assert Prepared(all, 1000) == kept;
    KeptWhole(kept, 1000, 3);
    assert kept[0..] == kept && kept[0].role == Assistant by { CallerIsAssistant([SECOND_CALL]); }
  }

  lemma CallerIsAssistant(calls: seq<ToolCall>)
    ensures Caller(calls).role == Assistant && Calls(Caller(calls)) == calls
  {
  }

  function TwoCalls(): seq<Event>
  {
    [CallEvent(FIRST_CALL), CallEvent(SECOND_CALL), Finish(ToolUse)]
  }

  lemma OneEventMore(events: seq<Event>, event: Event, limit: nat)
    ensures Received(events + [event], limit) == Receive(Received(events, limit), event, limit)
  {
    hide Receive;
    assert (events + [event])[..|events|] == events;
  }

  lemma CallReceived(b: Batch, c: ToolCall, bytes: nat, limit: nat)
    requires |b.calls| < 2 && !b.failed && CallListBytes(b.calls + [c]) == Some(bytes) && bytes < limit
    ensures Receive(b, CallEvent(c), limit) == b.(calls := b.calls + [c])
  {
    hide CallListBytes;
  }

  lemma TwoCallsReceived()
    ensures Received(TwoCalls(), 1000) == Batch([], [FIRST_CALL, SECOND_CALL], ToolUse, false)
  {
    hide *;
    ListSizes();
    var c, d := FIRST_CALL, SECOND_CALL;
    NothingReceived(1000);
    assert [] + [c] == [c] && [c] + [d] == [c, d];
    CallReceived(Batch([], [], EndTurn, false), c, 510, 1000);
    CallReceived(Batch([], [c], EndTurn, false), d, 980, 1000);
    OneEventMore([], CallEvent(c), 1000);
    OneEventMore([] + [CallEvent(c)], CallEvent(d), 1000);
    OneEventMore([] + [CallEvent(c)] + [CallEvent(d)], Finish(ToolUse), 1000);
    FinishReceived(Batch([], [c, d], EndTurn, false), ToolUse, 1000);
    TwoCallsAre();
    assert TwoCalls() == [] + [CallEvent(c)] + [CallEvent(d)] + [Finish(ToolUse)];
  }

  lemma FinishReceived(b: Batch, reason: StopReason, limit: nat)
    requires !b.failed
    ensures Receive(b, Finish(reason), limit) == b.(stopReason := reason)
  {
  }

  lemma TwoCallsAre()
    ensures TwoCalls() == [CallEvent(FIRST_CALL), CallEvent(SECOND_CALL), Finish(ToolUse)]
  {
    hide FIRST_CALL, SECOND_CALL;
  }

  lemma NothingReceived(limit: nat)
    ensures Received([], limit) == Batch([], [], EndTurn, false)
  {
  }

  /** A run whose second request carries the result of a call that is no longer in it. */
  lemma DroppedCallLeavesResult(provider: Provider, session: Session)
    requires provider(0, []) == TwoCalls()
    requires session(0, FIRST_CALL) == Returned([]) && session(1, SECOND_CALL) == Returned([])
    ensures var sends := [[], Answered(Caller([SECOND_CALL]))];
            && Chained([], provider, session, sends, 1000)
            && KeepsGoing(Turn(provider, sends, 0, 1000))
            && Turn(provider, sends, 0, 1000).calls == [FIRST_CALL, SECOND_CALL]
            && !WellPaired(sends[1])
  {
    var sends := [[], Answered(Caller([SECOND_CALL]))];
    TwoCallsReceived();
    BoundedToOneCall();
    hide FIRST_CALL, SECOND_CALL, TwoCalls, Received, BoundedHistory;
    NothingBounded(1000);
    TwoResults(session, 1000);
    var b := Turn(provider, sends, 0, 1000);
    assert AssistantMessage(b) == Caller(b.calls);
    var all := [] + [AssistantMessage(b)] + ToolMessages(b.calls, session, 0, 1000);
    assert all == Answered(Caller([FIRST_CALL, SECOND_CALL]));
    assert CallsOfTurns(provider, sends, 0, 1000) == [];
    WrongResult();
  }

  lemma NothingBounded(limit: nat)
    ensures BoundedHistory([], limit) == []
  {
  }

  lemma TwoResults(session: Session, limit: nat)
    requires session(0, FIRST_CALL) == Returned([]) && session(1, SECOND_CALL) == Returned([])
    ensures ToolMessages([FIRST_CALL, SECOND_CALL], session, 0, limit) == Answered(Caller([]))[1..]
  {
    hide Letters;
    assert Truncated([], AtLeastOne(limit / 2)) == [];
  }

  lemma WrongResult()
    ensures !WellPaired(Answered(Caller([SECOND_CALL])))
  {
    hide Letters;
    var ms := Answered(Caller([SECOND_CALL]));
    assert SECOND_CALL.id == [0x32];
    assert ms[1..2][0].toolCallId == Some([0x31]);
    assert [0x31][0] != [0x32][0];
    assert !Answers(ms[1..2][0], SECOND_CALL);
  }
}
