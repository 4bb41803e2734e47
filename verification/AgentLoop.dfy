/** `run`: the agent loop. Provider and tool session are arbitrary functions of what they are given. */
module AgentLoop {
  import opened Basics
  import opened Utf8
  import opened AgentText
  import opened JsonText
  import opened AgentHistory

  datatype StopReason = EndTurn | MaxTokens | ToolUse | Stop | Error

  datatype Event =
    | TextDelta(delta: Text)
    | CallEvent(call: ToolCall)
    | Finish(stopReason: StopReason)
    | ProviderError
    | Unrecognized

  /** What one stream amounts to; `failed` once the stream reported an error or asked for too many tool calls. */
  datatype Batch = Batch(text: Text, calls: seq<ToolCall>, stopReason: StopReason, failed: bool)

  datatype CallResult = Returned(serialized: Text) | Thrown(description: Text)

  datatype Outcome = Finished | OutOfSteps | Aborted

  datatype AgentResult = AgentResult(finalText: Text, steps: nat, outcome: Outcome)

  /** Everything the run did to the outside: messages sent, tools called, and turns of the main loop. */
  datatype Log = Log(sends: seq<seq<ChatMessage>>, dispatched: seq<ToolCall>, turns: nat)

  type Provider = (nat, seq<ChatMessage>) -> seq<Event>
  type Session = (nat, ToolCall) -> CallResult

  const MAX_TOOL_CALLS_PER_STEP: nat := 64

  /** `"error: "` */
  const ERROR_PREFIX: Text := [101, 114, 114, 111, 114, 58, 32]

  predicate TooMany(calls: seq<ToolCall>, next: ToolCall, limit: nat)
  {
    |calls| >= MAX_TOOL_CALLS_PER_STEP || !Within(Bracketed(false, CallListBytes(calls + [next])), limit)
  }

  function Receive(b: Batch, event: Event, limit: nat): Batch
  {
    if b.failed then b
    else
      match event
      case TextDelta(delta) => b.(text := AppendBoundedText(b.text, delta, limit))
      case CallEvent(call) =>
        if TooMany(b.calls, call, limit) then b.(failed := true) else b.(calls := b.calls + [call])
      case Finish(stopReason) => b.(stopReason := stopReason)
      case ProviderError => b.(failed := true)
      case Unrecognized => b
  }

  function Received(events: seq<Event>, limit: nat): Batch
  {
    if events == [] then Batch([], [], EndTurn, false)
    else Receive(Received(events[..|events| - 1], limit), events[|events| - 1], limit)
  }

  /** The stream loop of one step. The source returns on the first failure; later events are not looked at. */
  method ReceiveAll(events: seq<Event>, limit: nat) returns (b: Batch)
    ensures b == Received(events, limit)
  {
    b := Batch([], [], EndTurn, false);
    var i := 0;
    while i < |events| && !b.failed
      invariant 0 <= i <= |events|
      invariant b == Received(events[..i], limit)
    {
      assert events[..i + 1][..i] == events[..i];
      b := Receive(b, events[i], limit);
      i := i + 1;
    }
    FailureIsFinal(events, i, limit);
  }

  lemma {:induction false} FailureIsFinal(events: seq<Event>, i: nat, limit: nat)
    requires i <= |events|
    requires i == |events| || Received(events[..i], limit).failed
    ensures Received(events, limit) == Received(events[..i], limit)
  {
    if i == |events| {
      assert events[..i] == events;
    } else {
      var init := events[..|events| - 1];
      assert init[..i] == events[..i];
      FailureIsFinal(init, i, limit);
    }
  }

  function CallsIn(events: seq<Event>): seq<ToolCall>
  {
    if events == [] then []
    else
      var before := CallsIn(events[..|events| - 1]);
      match events[|events| - 1] case CallEvent(call) => before + [call] case _ => before
  }

  function DeltasIn(events: seq<Event>): seq<Text>
  {
    if events == [] then []
    else
      var before := DeltasIn(events[..|events| - 1]);
      match events[|events| - 1] case TextDelta(delta) => before + [delta] case _ => before
  }

  /** A step that does not fail collects every call in arrival order, within both bounds, and streams exactly the deltas. */
  lemma {:induction false} BatchIsFaithful(events: seq<Event>, limit: nat)
    requires !Received(events, limit).failed
    ensures Received(events, limit).calls == CallsIn(events)
    ensures |CallsIn(events)| <= MAX_TOOL_CALLS_PER_STEP
    ensures CallsIn(events) != [] ==> Within(Bracketed(false, CallListBytes(CallsIn(events))), limit)
    ensures Received(events, limit).text == Streamed(DeltasIn(events), limit)
  {
    hide AppendBoundedText, CallListBytes, Bracketed;
    if events != [] {
      var init := events[..|events| - 1];
      BatchIsFaithful(init, limit);
      var deltas := DeltasIn(events);
      if events[|events| - 1].TextDelta? {
        assert deltas[..|deltas| - 1] == DeltasIn(init);
      }
    }
  }

  /** What makes the stream loop give up: an error, or a call too many for one step. */
  predicate GivesUp(before: seq<Event>, event: Event, limit: nat)
  {
    match event
    case ProviderError => true
    case CallEvent(call) =>
      || |CallsIn(before)| >= 64
      || !Within(Bracketed(false, CallListBytes(CallsIn(before) + [call])), limit)
    case _ => false
  }

  /** The reason of the last `finish`, and "end_turn" if there is none. */
  function LastReason(events: seq<Event>): StopReason
  {
    if events == [] then EndTurn
    else match events[|events| - 1] case Finish(reason) => reason case _ => LastReason(events[..|events| - 1])
  }

  /** A step fails exactly if some event makes it give up; otherwise it stops for the reason given last. */
  lemma {:induction false} FailsIff(events: seq<Event>, limit: nat)
    ensures Received(events, limit).failed <==>
            exists i :: 0 <= i < |events| && GivesUp(events[..i], events[i], limit)
    ensures !Received(events, limit).failed ==> Received(events, limit).stopReason == LastReason(events)
  {
    hide AppendBoundedText, CallListBytes, Bracketed, Within;
    if events != [] {
      var n := |events| - 1;
      var init := events[..n];
      FailsIff(init, limit);
      assert forall i :: 0 <= i < n ==> init[..i] == events[..i] && init[i] == events[i];
      if !Received(init, limit).failed {
        BatchIsFaithful(init, limit);
        assert Received(events, limit).failed <==> GivesUp(events[..n], events[n], limit);
      } else {
        var i :| 0 <= i < n && GivesUp(init[..i], init[i], limit);
        assert GivesUp(events[..i], events[i], limit);
      }
    }
  }

  // ---- One turn of the loop ----

  function AssistantMessage(b: Batch): ChatMessage
  {
    ChatMessage(Assistant, b.text, None, Some(b.calls), None)
  }

  function ToolMessage(call: ToolCall, result: CallResult, limit: nat): ChatMessage
  {
    var content :=
      match result
      case Returned(serialized) => Truncated(serialized, AtLeastOne(limit / 2))
      case Thrown(description) => ERROR_PREFIX + description;
    ChatMessage(Tool, content, Some(call.id), None, Some(call.name))
  }

  /** What a tool message says of the call it answers: the result, cut to `maxBytes`, or the error. */
  ghost predicate Reports(m: ChatMessage, call: ToolCall, result: CallResult, maxBytes: nat)
  {
    && m.role == Tool && m.toolCallId == Some(call.id) && m.name == Some(call.name) && m.toolCalls == None
    && match result
       case Returned(serialized) =>
         Shortened(m.content, serialized, maxBytes)
       case Thrown(description) =>
         |m.content| == 7 + |description| && Spells(m.content[..7], "error: ") && m.content[7..] == description
  }

  lemma ToolMessageReports(call: ToolCall, result: CallResult, limit: nat)
    ensures Reports(ToolMessage(call, result, limit), call, result, if limit < 4 then 1 else limit / 2)
  {
    hide Truncated, Shortened;
    if result.Returned? {
      TruncatedIs(result.serialized, AtLeastOne(limit / 2));
    }
  }

  /** Each result of a batch reports the call it answers, as the session answered it. */
  lemma ResultsReport(calls: seq<ToolCall>, session: Session, first: nat, limit: nat)
    ensures |ToolMessages(calls, session, first, limit)| == |calls|
    ensures forall i: nat :: i < |calls| ==>
              Reports(ToolMessages(calls, session, first, limit)[i], calls[i], session(first + i, calls[i]),
                      if limit < 4 then 1 else limit / 2)
  {
    hide Reports, ToolMessage;
    forall i: nat | i < |calls|
      ensures Reports(ToolMessages(calls, session, first, limit)[i], calls[i], session(first + i, calls[i]),
                      if limit < 4 then 1 else limit / 2)
    {
      ToolMessageReports(calls[i], session(first + i, calls[i]), limit);
    }
  }

  /** The results of a batch, the first call being the `first`-th of the whole run. */
  function ToolMessages(calls: seq<ToolCall>, session: Session, first: nat, limit: nat): (r: seq<ChatMessage>)
    ensures |r| == |calls|
    ensures forall i :: 0 <= i < |r| ==> r[i] == ToolMessage(calls[i], session(first + i, calls[i]), limit)
  {
    seq(|calls|, i requires 0 <= i < |calls| => ToolMessage(calls[i], session(first + i, calls[i]), limit))
  }

  /** The history after a turn: what was sent, the assistant's message, the results; then bounded again. */
  function After(sent: seq<ChatMessage>, b: Batch, session: Session, first: nat, limit: nat): seq<ChatMessage>
  {
    BoundedHistory(sent + [AssistantMessage(b)] + ToolMessages(b.calls, session, first, limit), limit)
  }

  lemma AppendedReport(history: seq<ChatMessage>, calls: seq<ToolCall>, session: Session, first: nat, limit: nat,
                       h: seq<ChatMessage>)
    requires h == history + ToolMessages(calls, session, first, limit)
    ensures |h| == |history| + |calls| && h[..|history|] == history
    ensures forall i: nat :: i < |calls| ==>
              Reports(h[|history| + i], calls[i], session(first + i, calls[i]), if limit < 4 then 1 else limit / 2)
  {
    hide Reports, ToolMessages;
    ResultsReport(calls, session, first, limit);
    var results := ToolMessages(calls, session, first, limit);
    assert forall i: nat :: i < |results| ==> h[|history| + i] == results[i];
  }

  /** Calls the session once per call, in order; `dispatched` are the calls the run has made before. */
  method Dispatch(history: seq<ChatMessage>, calls: seq<ToolCall>, session: Session, dispatched: seq<ToolCall>, limit: nat)
    returns (h: seq<ChatMessage>, made: seq<ToolCall>)
    ensures h == history + ToolMessages(calls, session, |dispatched|, limit)
    ensures made == dispatched + calls
    ensures |h| == |history| + |calls| && h[..|history|] == history
    ensures forall i: nat :: i < |calls| ==>
              Reports(h[|history| + i], calls[i], session(|dispatched| + i, calls[i]), if limit < 4 then 1 else limit / 2)
  {
    hide Reports, Truncated;
    h, made := history, dispatched;
    var i := 0;
    while i < |calls|
      invariant 0 <= i <= |calls|
      invariant h == history + ToolMessages(calls, session, |dispatched|, limit)[..i]
      invariant made == dispatched + calls[..i]
    {
      var call := calls[i];
      var outcome := session(|made|, call);
      made := made + [call];
      var content;
      match outcome {
        case Returned(serialized) =>
          content := TruncateText(serialized, AtLeastOne(limit / 2));
        case Thrown(description) =>
          content := ERROR_PREFIX + description;
      }
      h := h + [ChatMessage(Tool, content, Some(call.id), None, Some(call.name))];
      i := i + 1;
    }
    AppendedReport(history, calls, session, |dispatched|, limit, h);
  }

  // ---- The whole run ----

  function Turn(provider: Provider, sends: seq<seq<ChatMessage>>, i: nat, limit: nat): Batch
    requires i < |sends|
  {
    Received(provider(i, sends[i]), limit)
  }

  /** Tool calls of the first `turns` turns that did not fail, in order. */
  function CallsOfTurns(provider: Provider, sends: seq<seq<ChatMessage>>, turns: nat, limit: nat): seq<ToolCall>
    requires turns <= |sends|
  {
    if turns == 0 then []
    else
      var b := Turn(provider, sends, turns - 1, limit);
      CallsOfTurns(provider, sends, turns - 1, limit) + (if b.failed then [] else b.calls)
  }

  /** Each send carries the bounded history left by the turn before; the first one, the caller's messages, bounded. */
  ghost predicate Chained(messages: seq<ChatMessage>, provider: Provider, session: Session,
                          sends: seq<seq<ChatMessage>>, limit: nat)
  {
    && (|sends| > 0 ==> sends[0] == BoundedHistory(messages, limit))
    && forall i, j :: 0 <= i && j == i + 1 && j < |sends| ==>
         sends[j] == After(sends[i], Turn(provider, sends, i, limit), session,
                           |CallsOfTurns(provider, sends, i, limit)|, limit)
  }

  /** The turn of an assistant: the streamed text of its deltas, and its calls with their results. */
  ghost predicate Records(m: ChatMessage, results: seq<ChatMessage>, events: seq<Event>, session: Session, first: nat,
                          limit: nat)
  {
    var calls := CallsIn(events);
    && m.role == Assistant && m.toolCallId == None && m.name == None
    && m.content == Streamed(DeltasIn(events), limit) && m.toolCalls == Some(calls)
    && |results| == |calls|
    && forall k: nat :: k < |calls| ==>
         Reports(results[k], calls[k], session(first + k, calls[k]), if limit < 4 then 1 else limit / 2)
  }

  /** Every later request is the one before it with the record of the turn in between, bounded. */
  lemma NextSend(messages: seq<ChatMessage>, provider: Provider, session: Session, sends: seq<seq<ChatMessage>>,
                 limit: nat, i: nat) returns (m: ChatMessage, results: seq<ChatMessage>)
    requires Chained(messages, provider, session, sends, limit) && i + 1 < |sends|
    requires !Turn(provider, sends, i, limit).failed
    ensures Records(m, results, provider(i, sends[i]), session, |CallsOfTurns(provider, sends, i, limit)|, limit)
    ensures sends[i + 1] == BoundedHistory(sends[i] + [m] + results, limit)
  {
    hide BoundedHistory, Received, Streamed, CallsOfTurns, Reports, ToolMessages;
    var b, first := Turn(provider, sends, i, limit), |CallsOfTurns(provider, sends, i, limit)|;
    BatchIsFaithful(provider(i, sends[i]), limit);
    ResultsReport(b.calls, session, first, limit);
    m, results := AssistantMessage(b), ToolMessages(b.calls, session, first, limit);
    var j := i + 1;
    assert sends[j] == After(sends[i], b, session, first, limit);
  }

  lemma {:induction false} CallsOfPrefix(provider: Provider, sends: seq<seq<ChatMessage>>, next: seq<ChatMessage>,
                                         turns: nat, limit: nat)
    requires turns <= |sends|
    ensures CallsOfTurns(provider, sends + [next], turns, limit) == CallsOfTurns(provider, sends, turns, limit)
  {
    if turns > 0 {
      CallsOfPrefix(provider, sends, next, turns - 1, limit);
    }
  }

  lemma ChainOneMore(messages: seq<ChatMessage>, provider: Provider, session: Session,
                     sends: seq<seq<ChatMessage>>, next: seq<ChatMessage>, limit: nat)
    requires Chained(messages, provider, session, sends, limit)
    requires if |sends| == 0 then next == BoundedHistory(messages, limit)
             else var last := |sends| - 1;
               next == After(sends[last], Turn(provider, sends, last, limit), session,
                             |CallsOfTurns(provider, sends, last, limit)|, limit)
    ensures Chained(messages, provider, session, sends + [next], limit)
  {
    hide After;
    var longer := sends + [next];
    forall i, j | 0 <= i && j == i + 1 && j < |longer|
      ensures longer[j] == After(longer[i], Turn(provider, longer, i, limit), session,
                                 |CallsOfTurns(provider, longer, i, limit)|, limit)
    {
      CallsOfPrefix(provider, sends, next, i, limit);
    }
  }

  /** The last turn decides how the run ends; running out of steps adds one last send, whose text is the answer. */
  ghost predicate EndsRight(r: AgentResult, log: Log, provider: Provider, maxSteps: nat, limit: nat)
    requires |log.sends| == log.turns + (if r.outcome == OutOfSteps then 1 else 0)
  {
    match r.outcome
    case Finished =>
      && log.turns > 0 && r.steps == log.turns
      && var b := Turn(provider, log.sends, log.turns - 1, limit); !b.failed && b.calls == [] && r.finalText == b.text
    case Aborted =>
      && log.turns > 0 && r.steps == log.turns
      && var b := Turn(provider, log.sends, log.turns - 1, limit); b.failed && r.finalText == b.text
    case OutOfSteps =>
      && r.steps == maxSteps
      && (log.turns == maxSteps ||
          (log.turns > 0 &&
           var b := Turn(provider, log.sends, log.turns - 1, limit); !b.failed && b.calls != [] && b.stopReason != ToolUse))
      && r.finalText == Streamed(DeltasIn(provider(log.turns, log.sends[log.turns])), limit)
  }

  /** `None` where the run rejects because the byte limit is invalid. */
  method Run(messages: seq<ChatMessage>, provider: Provider, session: Session, maxSteps: nat, scratchpadBytes: int)
    returns (r: Option<AgentResult>, log: Log)
    ensures r.Some? <==> 1 <= scratchpadBytes <= 9_007_199_254_740_991
    ensures r.Some? ==>
      && Chained(messages, provider, session, log.sends, scratchpadBytes)
      && log.turns <= maxSteps
      && |log.sends| == log.turns + (if r.value.outcome == OutOfSteps then 1 else 0)
      && log.dispatched == CallsOfTurns(provider, log.sends, log.turns, scratchpadBytes)
      && (forall i :: 0 <= i < log.turns - 1 ==>
            var b := Turn(provider, log.sends, i, scratchpadBytes); !b.failed && b.calls != [] && b.stopReason == ToolUse)
      && EndsRight(r.value, log, provider, maxSteps, scratchpadBytes)
  {
    hide BoundedHistory, Received, Streamed, CallsOfTurns, Chained, TooMany, After, ToolMessages, AssistantMessage, Turn;
    log := Log([], [], 0);
    var bounded := BoundHistory(messages, scratchpadBytes);
    if bounded.None? {
      return None, log;
    }
    var limit: nat := scratchpadBytes;
    var history := bounded.value;
    BoundedHistoryAgain(messages, limit);
    EmptyChain(messages, provider, session, limit);
    ghost var next := history;
    while log.turns < maxSteps
      invariant log.turns <= maxSteps && |log.sends| == log.turns
      invariant Chained(messages, provider, session, log.sends, limit)
      invariant Chained(messages, provider, session, log.sends + [history], limit)
      invariant BoundedHistory(history, limit) == history
      invariant log.dispatched == CallsOfTurns(provider, log.sends, log.turns, limit)
      invariant forall i :: 0 <= i < log.turns ==> KeepsGoing(Turn(provider, log.sends, i, limit))
    {
      var sent := BoundHistory(history, scratchpadBytes);
      ghost var before := log;
      log := Log(log.sends + [sent.value], log.dispatched, log.turns + 1);
      var b := ReceiveAll(provider(log.turns - 1, sent.value), limit);
      OneMoreTurn(provider, before.sends, sent.value, limit);
      if b.failed {
        return Some(AgentResult(b.text, log.turns, Aborted)), log;
      }
      if |b.calls| == 0 {
        return Some(AgentResult(b.text, log.turns, Finished)), log;
      }
      history := history + [AssistantMessage(b)];
      ghost var first := |log.dispatched|;
      var made;
      history, made := Dispatch(history, b.calls, session, log.dispatched, limit);
      log := log.(dispatched := made);
      ghost var full := history;
      bounded := BoundHistory(history, scratchpadBytes);
      history := bounded.value;
      BoundedHistoryAgain(full, limit);
      AfterIs(sent.value, b, session, first, limit);
      ChainOneMore(messages, provider, session, log.sends, history, limit);
      if b.stopReason != ToolUse {
        assert Turn(provider, log.sends, log.turns - 1, limit) == b;
        break;
      }
    }
    var sent := BoundHistory(history, scratchpadBytes);
    var text := ReceiveText(provider(log.turns, sent.value), limit);
    OneMoreTurn(provider, log.sends, sent.value, limit);
    log := log.(sends := log.sends + [sent.value]);
    return Some(AgentResult(text, maxSteps, OutOfSteps)), log;
  }

  predicate KeepsGoing(b: Batch)
  {
    !b.failed && b.calls != [] && b.stopReason == ToolUse
  }

  lemma EmptyChain(messages: seq<ChatMessage>, provider: Provider, session: Session, limit: nat)
    ensures Chained(messages, provider, session, [], limit)
    ensures Chained(messages, provider, session, [] + [BoundedHistory(messages, limit)], limit)
    ensures CallsOfTurns(provider, [], 0, limit) == []
  {
  }

  lemma OneMoreTurn(provider: Provider, sends: seq<seq<ChatMessage>>, next: seq<ChatMessage>, limit: nat)
    ensures var b := Received(provider(|sends|, next), limit);
            && Turn(provider, sends + [next], |sends|, limit) == b
            && CallsOfTurns(provider, sends + [next], |sends| + 1, limit)
               == CallsOfTurns(provider, sends, |sends|, limit) + (if b.failed then [] else b.calls)
    ensures CallsOfTurns(provider, sends + [next], |sends|, limit) == CallsOfTurns(provider, sends, |sends|, limit)
    ensures forall i :: 0 <= i < |sends| ==> Turn(provider, sends + [next], i, limit) == Turn(provider, sends, i, limit)
  {
    CallsOfPrefix(provider, sends, next, |sends|, limit);
  }

  lemma AfterIs(sent: seq<ChatMessage>, b: Batch, session: Session, first: nat, limit: nat)
    ensures After(sent, b, session, first, limit) ==
            BoundedHistory((sent + [AssistantMessage(b)]) + ToolMessages(b.calls, session, first, limit), limit)
  {
  }

  /** The summary stream: only text matters, errors and tool calls are ignored. */
  method ReceiveText(events: seq<Event>, limit: nat) returns (text: Text)
    ensures text == Streamed(DeltasIn(events), limit)
  {
    text := [];
    var i := 0;
    while i < |events|
      invariant 0 <= i <= |events|
      invariant text == Streamed(DeltasIn(events[..i]), limit)
    {
      assert events[..i + 1][..i] == events[..i];
      if events[i].TextDelta? {
        var deltas := DeltasIn(events[..i + 1]);
        assert deltas[..|deltas| - 1] == DeltasIn(events[..i]);
        text := AppendBoundedText(text, events[i].delta, limit);
      }
      i := i + 1;
    }
    assert events[..i] == events;
  }
}
