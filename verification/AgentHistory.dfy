/** `boundedMessage` and `boundHistory`: model-visible history bounded by the bytes of its JSON serialization. */
module AgentHistory {
  import opened Basics
  import opened Utf8
  import opened AgentText
  import opened JsonText

  datatype Role = System | User | Assistant | Tool

  /** Tool arguments are arbitrary values: `undefined`, or something `JSON.stringify` throws on, or JSON text. */
  datatype Args = Json(json: Text) | Undefined | Unserializable

  datatype ToolCall = ToolCall(id: Text, name: Text, args: Args)

  datatype ChatMessage = ChatMessage(
    role: Role,
    content: Text,
    toolCallId: Option<Text>,
    toolCalls: Option<seq<ToolCall>>,
    name: Option<Text>)

  // ---- JSON sizes (section 7 of RFC 8259); `None` is the infinite size of what cannot be serialized ----

  function EscapedWidth(s: Text): nat
    requires s != []
  {
    if IsPair(s) then 4
    else if IsHigh(s[0]) || IsLow(s[0]) then 6
    else if s[0] in [0x22, 0x5C, 8, 9, 10, 12, 13] then 2
    else if s[0] < 0x20 then 6
    else Width(FirstScalar(s))
  }

  function EscapedBytes(s: Text): nat
  {
    if s == [] then 0 else EscapedWidth(s) + EscapedBytes(s[CharLen(s)..])
  }

  function StringBytes(s: Text): nat
  {
    2 + EscapedBytes(s)
  }

  /** `{"id":…,"name":…,"args":…}`, where `JSON.stringify` leaves out an undefined `args`. */
  function CallBytes(c: ToolCall): Option<nat>
  {
    var fixed := 15 + StringBytes(c.id) + StringBytes(c.name);
    match c.args
    case Json(json) => Some(fixed + 8 + ByteLen(json))
    case Undefined => Some(fixed)
    case Unserializable => None
  }

  function Plus(a: Option<nat>, b: Option<nat>): Option<nat>
  {
    if a.Some? && b.Some? then Some(a.value + b.value) else None
  }

  /** Elements with one byte each for the comma or bracket before them. */
  function CallListBytes(calls: seq<ToolCall>): Option<nat>
  {
    if calls == [] then Some(0)
    else Plus(Plus(Some(1), CallBytes(calls[0])), CallListBytes(calls[1..]))
  }

  /** The bytes of an array whose elements take `list` bytes, separators included. */
  function Bracketed(empty: bool, list: Option<nat>): Option<nat>
  {
    Plus(Some(if empty then 2 else 1), list)
  }

  function RoleBytes(r: Role): nat
  {
    match r case System => 8 case User => 6 case Assistant => 11 case Tool => 6
  }

  function FieldBytes(key: nat, value: Option<Text>): nat
  {
    match value case None => 0 case Some(s) => key + StringBytes(s)
  }

  /** `{"role":…,"content":…,"toolCallId":…,"toolCalls":…,"name":…}` with the optional fields that are present. */
  function MessageBytes(m: ChatMessage): Option<nat>
  {
    var fixed := 9 + RoleBytes(m.role) + 11 + StringBytes(m.content)
                 + FieldBytes(14, m.toolCallId) + FieldBytes(8, m.name);
    match m.toolCalls
    case None => Some(fixed)
    case Some(calls) => Plus(Some(fixed + 13), Bracketed(calls == [], CallListBytes(calls)))
  }

  function ListBytes(ms: seq<ChatMessage>): Option<nat>
  {
    if ms == [] then Some(0)
    else Plus(Plus(Some(1), MessageBytes(ms[0])), ListBytes(ms[1..]))
  }

  function HistoryBytes(ms: seq<ChatMessage>): Option<nat>
  {
    Bracketed(ms == [], ListBytes(ms))
  }

  predicate Within(size: Option<nat>, maxBytes: nat)
  {
    size.Some? && size.value <= maxBytes
  }

  lemma {:induction false} EscapingNeverShrinks(s: Text)
    ensures ByteLen(s) <= EscapedBytes(s)
  {
    if s != [] {
      EscapingNeverShrinks(s[CharLen(s)..]);
    }
  }

  // ---- One message ----

  /** The JSON text of the string `"<openclaw:truncated-tool-args>"`. */
  const TRUNCATED_ARGS: Args := Json(
    [34, 60, 111, 112, 101, 110, 99, 108, 97, 119, 58, 116, 114, 117, 110, 99, 97, 116, 101, 100, 45,
     116, 111, 111, 108, 45, 97, 114, 103, 115, 62, 34])

  /** `utf8Bytes(args)` on its own: a bare `undefined` has no serialization either. */
  function ArgsBytes(a: Args): Option<nat>
  {
    if a.Json? then Some(ByteLen(a.json)) else None
  }

  function BoundedCall(c: ToolCall, maxBytes: nat): ToolCall
  {
    if Within(ArgsBytes(c.args), maxBytes / 2) then c else c.(args := TRUNCATED_ARGS)
  }

  function BoundedCalls(calls: seq<ToolCall>, maxBytes: nat): (r: seq<ToolCall>)
    ensures |r| == |calls|
    ensures forall i :: 0 <= i < |r| ==> r[i] == BoundedCall(calls[i], maxBytes)
  {
    if calls == [] then [] else [BoundedCall(calls[0], maxBytes)] + BoundedCalls(calls[1..], maxBytes)
  }

  function AtLeastOne(n: nat): nat
  {
    if n == 0 then 1 else n
  }

  /** The copy before anything is dropped from it. */
  function Copied(m: ChatMessage, maxBytes: nat): ChatMessage
  {
    m.(content := Truncated(m.content, AtLeastOne(maxBytes)),
       toolCalls := match m.toolCalls case None => None case Some(calls) => Some(BoundedCalls(calls, maxBytes)))
  }

  function Calls(m: ChatMessage): seq<ToolCall>
  {
    match m.toolCalls case None => [] case Some(calls) => calls
  }

  /** How many leading calls have to go: the fewest that make the message fit, or all of them. */
  function Dropped(m: ChatMessage, maxBytes: nat): (d: nat)
    ensures d <= |Calls(m)|
    ensures d == |Calls(m)| || Within(MessageBytes(WithoutCalls(m, d)), maxBytes)
    ensures forall i :: 0 <= i < d ==> !Within(MessageBytes(WithoutCalls(m, i)), maxBytes)
    decreases |Calls(m)|
  {
    if Calls(m) == [] || Within(MessageBytes(m), maxBytes) then
      SameWithoutNone(m);
      0
    else
      var next := WithoutCalls(m, 1);
      var d := Dropped(next, maxBytes);
      DropOneMore(m, maxBytes, d);
      1 + d
  }

  function WithoutCalls(m: ChatMessage, d: nat): ChatMessage
    requires d <= |Calls(m)|
  {
    match m.toolCalls case None => m case Some(calls) => m.(toolCalls := Some(calls[d..]))
  }

  lemma SameWithoutNone(m: ChatMessage)
    ensures WithoutCalls(m, 0) == m
  {
    if m.toolCalls.Some? {
      assert m.toolCalls.value[0..] == m.toolCalls.value;
    }
  }

  lemma DropOneMore(m: ChatMessage, maxBytes: nat, d: nat)
    requires Calls(m) != [] && !Within(MessageBytes(m), maxBytes)
    requires d <= |Calls(WithoutCalls(m, 1))|
    requires forall i :: 0 <= i < d ==> !Within(MessageBytes(WithoutCalls(WithoutCalls(m, 1), i)), maxBytes)
    ensures WithoutCalls(WithoutCalls(m, 1), d) == WithoutCalls(m, 1 + d)
    ensures forall i :: 0 <= i < 1 + d ==> !Within(MessageBytes(WithoutCalls(m, i)), maxBytes)
  {
    SameWithoutNone(m);
    var calls := Calls(m);
    assert calls[1..][d..] == calls[1 + d..];
    forall i | 0 < i < 1 + d
      ensures !Within(MessageBytes(WithoutCalls(m, i)), maxBytes)
    {
      assert calls[1..][i - 1..] == calls[i..];
      assert WithoutCalls(m, i) == WithoutCalls(WithoutCalls(m, 1), i - 1);
    }
  }

  /** What `boundedMessage` computes. */
  function Bounded(m: ChatMessage, maxBytes: nat): ChatMessage
  {
    var copy := Copied(m, maxBytes);
    var fewer := WithoutCalls(copy, Dropped(copy, maxBytes));
    if Within(MessageBytes(fewer), maxBytes) then fewer
    else fewer.(content := Truncated(fewer.content, AtLeastOne(maxBytes / 2)))
  }

  lemma WithoutOneMore(m: ChatMessage, d: nat)
    requires d <= |Calls(m)|
    ensures |Calls(WithoutCalls(m, d))| == |Calls(m)| - d
    ensures WithoutCalls(m, d).toolCalls == None || WithoutCalls(m, d).toolCalls == Some(Calls(WithoutCalls(m, d)))
    ensures WithoutCalls(m, d).toolCalls == None ==> Calls(m) == []
    ensures d < |Calls(m)| ==>
      var fewer := WithoutCalls(m, d);
      fewer.toolCalls.Some? && fewer.(toolCalls := Some(fewer.toolCalls.value[1..])) == WithoutCalls(m, d + 1)
  {
    if d < |Calls(m)| {
      assert Calls(m)[d..][1..] == Calls(m)[d + 1..];
    }
  }

  lemma BoundedFrom(m: ChatMessage, maxBytes: nat)
    ensures var fewer := WithoutCalls(Copied(m, maxBytes), Dropped(Copied(m, maxBytes), maxBytes));
            Bounded(m, maxBytes) == if Within(MessageBytes(fewer), maxBytes) then fewer
                                    else fewer.(content := Truncated(fewer.content, AtLeastOne(maxBytes / 2)))
  {
  }

  method BoundedMessage(message: ChatMessage, maxBytes: nat) returns (copy: ChatMessage)
    ensures copy == Bounded(message, maxBytes)
  {
    hide *;
    var content := TruncateText(message.content, AtLeastOne(maxBytes));
    copy := message.(content := content);
    if message.toolCalls.Some? {
      copy := copy.(toolCalls := Some(BoundedCalls(message.toolCalls.value, maxBytes)));
    }
    CopiedIs(message, maxBytes);
    ghost var start := copy;
    ghost var d := 0;
    SameWithoutNone(copy);
    WithoutOneMore(copy, 0);
    while copy.toolCalls.Some? && |copy.toolCalls.value| > 0 && !Within(MessageBytes(copy), maxBytes)
      invariant d <= |Calls(start)| && copy == WithoutCalls(start, d) && |Calls(copy)| == |Calls(start)| - d
      invariant copy.toolCalls == None || copy.toolCalls == Some(Calls(copy))
      invariant copy.toolCalls == None ==> d == |Calls(start)|
      invariant forall i :: 0 <= i < d ==> !Within(MessageBytes(WithoutCalls(start, i)), maxBytes)
      decreases |Calls(copy)|
    {
      WithoutOneMore(start, d);
      copy := copy.(toolCalls := Some(copy.toolCalls.value[1..]));
      d := d + 1;
      WithoutOneMore(start, d);
    }
    assert d == Dropped(start, maxBytes);
    BoundedFrom(message, maxBytes);
    if !Within(MessageBytes(copy), maxBytes) {
      var shorter := TruncateText(copy.content, AtLeastOne(maxBytes / 2));
      copy := copy.(content := shorter);
    }
  }

  lemma CopiedIs(m: ChatMessage, maxBytes: nat)
    ensures var copy := m.(content := Truncated(m.content, AtLeastOne(maxBytes)));
            Copied(m, maxBytes) == match m.toolCalls
                                   case None => copy
                                   case Some(calls) => copy.(toolCalls := Some(BoundedCalls(calls, maxBytes)))
  {
  }

  // ---- What is left of a message ----

  /** The same call, with its arguments or, if their JSON is longer than half the limit, the placeholder. */
  ghost predicate KeepsCall(r: ToolCall, c: ToolCall, maxBytes: nat)
  {
    && r.id == c.id && r.name == c.name
    && if c.args.Json? && ByteLen(c.args.json) <= maxBytes / 2 then r.args == c.args
       else r.args.Json? && Spells(r.args.json, "\"<openclaw:truncated-tool-args>\"")
  }

  /** The same message with all its calls but the first `dropped`. */
  ghost predicate KeepsMessage(r: ChatMessage, m: ChatMessage, dropped: nat, maxBytes: nat)
  {
    && r.role == m.role && r.toolCallId == m.toolCallId && r.name == m.name && (r.toolCalls.None? <==> m.toolCalls.None?)
    && dropped <= |Calls(m)| && |Calls(r)| == |Calls(m)| - dropped
    && forall j :: 0 <= j < |Calls(r)| ==> KeepsCall(Calls(r)[j], Calls(m)[dropped + j], maxBytes)
  }

  /** Content is cut to the limit, and cut again to half of it only if the message without some calls is still too long. */
  ghost predicate KeepsContent(r: ChatMessage, m: ChatMessage, maxBytes: nat)
  {
    exists whole ::
      && Shortened(whole, m.content, if maxBytes == 0 then 1 else maxBytes)
      && if Within(MessageBytes(r.(content := whole)), maxBytes) then r.content == whole
         else Calls(r) == [] && Shortened(r.content, whole, if maxBytes < 4 then 1 else maxBytes / 2)
  }

  lemma CallKept(c: ToolCall, maxBytes: nat)
    ensures KeepsCall(BoundedCall(c, maxBytes), c, maxBytes)
  {
    hide ByteLen;
    assert Spells(TRUNCATED_ARGS.json, "\"<openclaw:truncated-tool-args>\"");
  }

  lemma CopyKeeps(m: ChatMessage, maxBytes: nat)
    ensures KeepsMessage(Copied(m, maxBytes), m, 0, maxBytes)
    ensures Copied(m, maxBytes).content == Truncated(m.content, AtLeastOne(maxBytes))
  {
    hide Truncated, BoundedCall, KeepsCall;
    forall j | 0 <= j < |Calls(m)|
      ensures KeepsCall(Calls(Copied(m, maxBytes))[j], Calls(m)[j], maxBytes)
    {
      CallKept(Calls(m)[j], maxBytes);
    }
  }

  lemma FewerKept(copy: ChatMessage, m: ChatMessage, d: nat, maxBytes: nat)
    requires KeepsMessage(copy, m, 0, maxBytes) && d <= |Calls(copy)|
    ensures KeepsMessage(WithoutCalls(copy, d), m, d, maxBytes) && WithoutCalls(copy, d).content == copy.content
    ensures |Calls(WithoutCalls(copy, d))| == |Calls(copy)| - d
  {
    hide KeepsCall;
  }

  lemma ContentAside(r: ChatMessage, m: ChatMessage, d: nat, content: Text, maxBytes: nat)
    requires KeepsMessage(r, m, d, maxBytes)
    ensures KeepsMessage(r.(content := content), m, d, maxBytes)
  {
    hide KeepsCall;
    assert Calls(r.(content := content)) == Calls(r);
  }

  /** What `boundedMessage` leaves of a message, without its own functions. */
  lemma BoundedKeeps(m: ChatMessage, maxBytes: nat) returns (dropped: nat)
    ensures KeepsMessage(Bounded(m, maxBytes), m, dropped, maxBytes) && KeepsContent(Bounded(m, maxBytes), m, maxBytes)
  {
    hide *;
    var copy := Copied(m, maxBytes);
    CopyKeeps(m, maxBytes);
    dropped := Dropped(copy, maxBytes);
    var fewer := WithoutCalls(copy, dropped);
    FewerKept(copy, m, dropped, maxBytes);
    BoundedFrom(m, maxBytes);
    ContentAside(fewer, m, dropped, Truncated(fewer.content, AtLeastOne(maxBytes / 2)), maxBytes);
    ContentKept(fewer, Bounded(m, maxBytes), m, maxBytes);
  }

  lemma ContentKept(fewer: ChatMessage, r: ChatMessage, m: ChatMessage, maxBytes: nat)
    requires fewer.content == Truncated(m.content, AtLeastOne(maxBytes))
    requires Within(MessageBytes(fewer), maxBytes) || Calls(fewer) == []
    requires r == if Within(MessageBytes(fewer), maxBytes) then fewer
                  else fewer.(content := Truncated(fewer.content, AtLeastOne(maxBytes / 2)))
    ensures KeepsContent(r, m, maxBytes)
  {
    hide MessageBytes, Truncated, Shortened;
    TruncatedIs(m.content, AtLeastOne(maxBytes));
    TruncatedIs(fewer.content, AtLeastOne(maxBytes / 2));
    assert r.(content := fewer.content) == fewer;
    assert Calls(r) == Calls(fewer);
  }

  // ---- The history ----

  /** The newest message gets a second chance: its content shrinks to what the rest of the message leaves. */
  function Newest(bounded: ChatMessage, maxBytes: nat): ChatMessage
  {
    if Within(HistoryBytes([bounded]), maxBytes) then bounded
    else bounded.(content := Truncated(bounded.content, ContentBudget(bounded, maxBytes)))
  }

  function ContentBudget(m: ChatMessage, maxBytes: nat): nat
  {
    var empty := HistoryBytes([m.(content := [])]);
    if empty.Some? && empty.value < maxBytes then maxBytes - empty.value else 0
  }

  /** Every message as the loop would add it, were there room for all. */
  function Prepared(ms: seq<ChatMessage>, maxBytes: nat): (r: seq<ChatMessage>)
    ensures |r| == |ms|
  {
    seq(|ms|, i requires 0 <= i < |ms| =>
      var b := Bounded(ms[i], maxBytes);
      if i == |ms| - 1 then Newest(b, maxBytes) else b)
  }

  /** Where the longest suffix that fits begins; everything before it is forgotten. */
  function KeptFrom(ms: seq<ChatMessage>, maxBytes: nat): (k: nat)
    ensures k <= |ms|
    ensures k == |ms| || Within(HistoryBytes(ms[k..]), maxBytes)
    ensures k > 0 ==> !Within(HistoryBytes(ms[k - 1..]), maxBytes)
  {
    KeptFromEnd(ms, maxBytes, |ms|)
  }

  function KeptFromEnd(ms: seq<ChatMessage>, maxBytes: nat, i: nat): (k: nat)
    requires i <= |ms|
    ensures k <= i
    ensures k == i || Within(HistoryBytes(ms[k..]), maxBytes)
    ensures k > 0 ==> !Within(HistoryBytes(ms[k - 1..]), maxBytes)
  {
    if i == 0 || !Within(HistoryBytes(ms[i - 1..]), maxBytes) then i else KeptFromEnd(ms, maxBytes, i - 1)
  }

  function DropTools(ms: seq<ChatMessage>): (r: seq<ChatMessage>)
    ensures r != [] ==> r[0].role != Tool
  {
    if ms != [] && ms[0].role == Tool then DropTools(ms[1..]) else ms
  }

  /** What `boundHistory` computes for a valid limit. */
  function BoundedHistory(ms: seq<ChatMessage>, maxBytes: nat): seq<ChatMessage>
  {
    if maxBytes < 2 then []
    else
      var prepared := Prepared(ms, maxBytes);
      DropTools(prepared[KeptFrom(prepared, maxBytes)..])
  }

  lemma PreparedStep(ms: seq<ChatMessage>, maxBytes: nat, i: nat)
    requires i < |ms|
    ensures var b := Bounded(ms[i], maxBytes);
            Prepared(ms, maxBytes)[i..]
            == [if i == |ms| - 1 then Newest(b, maxBytes) else b] + Prepared(ms, maxBytes)[i + 1..]
  {
    hide Bounded, Newest;
  }

  /** The first loop of `boundHistory`: from the newest message back, as long as everything fits. */
  method KeepNewest(messages: seq<ChatMessage>, maxBytes: nat) returns (kept: seq<ChatMessage>)
    ensures var prepared := Prepared(messages, maxBytes); kept == prepared[KeptFrom(prepared, maxBytes)..]
  {
    hide HistoryBytes, Bounded, ContentBudget, Within, Prepared;
    ghost var prepared := Prepared(messages, maxBytes);
    kept := [];
    var index := |messages|;
    while index > 0
      invariant 0 <= index <= |messages|
      invariant kept == prepared[index..]
      invariant KeptFrom(prepared, maxBytes) == KeptFromEnd(prepared, maxBytes, index)
    {
      var bounded := BoundedMessage(messages[index - 1], maxBytes);
      var candidate := [bounded] + kept;
      PreparedStep(messages, maxBytes, index - 1);
      assert kept == [] ==> candidate == [bounded];
      if !Within(HistoryBytes(candidate), maxBytes) && |kept| == 0 {
        var content := TruncateText(bounded.content, ContentBudget(bounded, maxBytes));
        bounded := bounded.(content := content);
        candidate := [bounded];
      }
      assert candidate == prepared[index - 1..];
      if !Within(HistoryBytes(candidate), maxBytes) {
        break;
      }
      kept := candidate;
      index := index - 1;
    }
  }

  /** `None` where the source throws "scratchpad byte limit must be a positive integer". */
  method BoundHistory(messages: seq<ChatMessage>, maxBytes: int) returns (r: Option<seq<ChatMessage>>)
    ensures r == if 1 <= maxBytes <= MAX_SAFE_INTEGER then Some(BoundedHistory(messages, maxBytes)) else None
  {
    if maxBytes > MAX_SAFE_INTEGER || maxBytes < 1 {
      return None;
    }
    if maxBytes < 2 {
      return Some([]);
    }
    var kept := KeepNewest(messages, maxBytes);
    ghost var start := kept;
    while |kept| > 0 && kept[0].role == Tool
      invariant DropTools(kept) == DropTools(start)
    {
      kept := kept[1..];
    }
    return Some(kept);
  }

  // ---- What the bounded history is ----

  lemma {:induction false} ListBytesSplit(ms: seq<ChatMessage>, k: nat)
    requires k <= |ms|
    ensures ListBytes(ms) == Plus(ListBytes(ms[..k]), ListBytes(ms[k..]))
  {
    hide MessageBytes;
    if k == 0 {
      assert ms[0..] == ms;
    } else {
      ListBytesSplit(ms[1..], k - 1);
      assert ms[1..][k - 1..] == ms[k..] && ms[1..][..k - 1] == ms[..k][1..];
    }
  }

  /** A suffix of what fits fits. */
  lemma SuffixFits(ms: seq<ChatMessage>, k: nat, maxBytes: nat)
    requires k <= |ms| && Within(HistoryBytes(ms), maxBytes)
    ensures Within(HistoryBytes(ms[k..]), maxBytes)
  {
    ListBytesSplit(ms, k);
    if 0 < k == |ms| {
      FirstFits(ms, maxBytes);
    }
  }

  lemma NothingFits(maxBytes: nat)
    requires 2 <= maxBytes
    ensures Within(HistoryBytes([]), maxBytes)
  {
  }

  lemma FirstFits(ms: seq<ChatMessage>, maxBytes: nat)
    requires ms != [] && Within(HistoryBytes(ms), maxBytes)
    ensures Within(HistoryBytes([ms[0]]), maxBytes) && Within(MessageBytes(ms[0]), maxBytes) && 2 <= maxBytes
  {
    hide MessageBytes;
    assert [ms[0]][1..] == [];
    assert ListBytes([ms[0]]) == Plus(Plus(Some(1), MessageBytes(ms[0])), Some(0));
  }

  lemma {:induction false} EachFits(ms: seq<ChatMessage>, i: nat, maxBytes: nat)
    requires i < |ms| && Within(HistoryBytes(ms), maxBytes)
    ensures Within(HistoryBytes([ms[i]]), maxBytes) && Within(MessageBytes(ms[i]), maxBytes)
  {
    SuffixFits(ms, i, maxBytes);
    FirstFits(ms[i..], maxBytes);
  }

  lemma {:induction false} DropToolsIsSuffix(ms: seq<ChatMessage>) returns (k: nat)
    ensures k <= |ms| && DropTools(ms) == ms[k..]
    ensures forall i :: 0 <= i < k ==> ms[i].role == Tool
  {
    if ms != [] && ms[0].role == Tool {
      k := DropToolsIsSuffix(ms[1..]);
      k := k + 1;
    } else {
      k := 0;
    }
  }

  /** From `k` on the history fits, from nowhere earlier does it, and all from `k` to `t` are tool results. */
  ghost predicate LongestFit(prepared: seq<ChatMessage>, k: nat, t: nat, maxBytes: nat)
  {
    && k <= t <= |prepared|
    && (forall i :: k <= i < t ==> prepared[i].role == Tool)
    && Within(HistoryBytes(prepared[k..]), maxBytes)
    && (forall j :: 0 <= j < k ==> !Within(HistoryBytes(prepared[j..]), maxBytes))
  }

  /**
   The bound, and what is kept under it: a suffix that fits, beyond which no longer suffix fits, without
   the tool results at its front.
   */
  lemma KeepsLongestSuffix(ms: seq<ChatMessage>, maxBytes: nat)
    requires 2 <= maxBytes
    ensures var prepared, r := Prepared(ms, maxBytes), BoundedHistory(ms, maxBytes);
            && Within(HistoryBytes(r), maxBytes)
            && (r != [] ==> r[0].role != Tool)
            && exists k: nat, t: nat :: LongestFit(prepared, k, t, maxBytes) && r == prepared[t..]
  {
    hide Prepared, HistoryBytes, Within, DropTools, KeptFrom, LongestFit;
    var prepared := Prepared(ms, maxBytes);
    var k := KeptFrom(prepared, maxBytes);
    var d := DropToolsIsSuffix(prepared[k..]);
    LongestIsKept(prepared, d, maxBytes);
    SuffixFits(prepared[k..], d, maxBytes);
    assert prepared[k..][d..] == prepared[k + d..];
  }

  lemma LongestIsKept(prepared: seq<ChatMessage>, d: nat, maxBytes: nat)
    requires 2 <= maxBytes
    requires var k := KeptFrom(prepared, maxBytes);
             k + d <= |prepared| && forall i :: 0 <= i < d ==> prepared[k..][i].role == Tool
    ensures var k := KeptFrom(prepared, maxBytes);
            LongestFit(prepared, k, k + d, maxBytes) && Within(HistoryBytes(prepared[k..]), maxBytes)
  {
    hide HistoryBytes, Within;
    var k := KeptFrom(prepared, maxBytes);
    NothingFits(maxBytes);
    assert k == |prepared| ==> prepared[k..] == [];
    forall j | 0 <= j < k
      ensures !Within(HistoryBytes(prepared[j..]), maxBytes)
    {
      assert prepared[j..][k - 1 - j..] == prepared[k - 1..];
      if Within(HistoryBytes(prepared[j..]), maxBytes) {
        SuffixFits(prepared[j..], k - 1 - j, maxBytes);
      }
    }
    forall i | k <= i < k + d
      ensures prepared[i].role == Tool
    {
      assert prepared[i] == prepared[k..][i - k];
    }
  }

  // ---- When nothing is kept ----

  /** The size of a one-message history, with the content's share told apart. */
  lemma OneMessageBytes(m: ChatMessage, content: Text)
    ensures HistoryBytes([m.(content := content)])
            == Plus(HistoryBytes([m.(content := [])]), Some(EscapedBytes(content)))
  {
    hide CallListBytes, RoleBytes, FieldBytes;
    var full, empty := m.(content := content), m.(content := []);
    assert EscapedBytes([]) == 0;
    OneInList(full);
    OneInList(empty);
  }

  lemma OneInList(m: ChatMessage)
    ensures HistoryBytes([m]) == Plus(Plus(Some(2), MessageBytes(m)), Some(0))
  {
    hide MessageBytes;
    assert [m][1..] == [] && ListBytes([]) == Some(0);
  }

  /**
   A newest message that is too long survives exactly when it fits without its content and the cut content fits the
   bytes left over. The cut counts bytes before escaping, the limit after: content without escapes always survives.
   */
  lemma NewestSurvivesIff(bounded: ChatMessage, maxBytes: nat)
    requires !Within(HistoryBytes([bounded]), maxBytes)
    ensures var cut := Newest(bounded, maxBytes).content;
            && (Within(HistoryBytes([Newest(bounded, maxBytes)]), maxBytes) <==>
                && Within(HistoryBytes([bounded.(content := [])]), maxBytes)
                && EscapedBytes(cut) <= ContentBudget(bounded, maxBytes))
            && ByteLen(cut) <= ContentBudget(bounded, maxBytes)
  {
    hide HistoryBytes, Truncated, ByteLen, EscapedBytes;
    var cut := Newest(bounded, maxBytes).content;
    OneMessageBytes(bounded, cut);
    TruncatedFits(bounded.content, ContentBudget(bounded, maxBytes));
  }

  /** A newest message that fits is left alone; of a longer one the content is cut to what the rest of it leaves. */
  lemma NewestKeeps(bounded: ChatMessage, maxBytes: nat)
    ensures Within(HistoryBytes([bounded]), maxBytes) ==> Newest(bounded, maxBytes) == bounded
    ensures !Within(HistoryBytes([bounded]), maxBytes) ==>
              && Newest(bounded, maxBytes) == bounded.(content := Newest(bounded, maxBytes).content)
              && match HistoryBytes([bounded.(content := [])])
                 case Some(n) =>
                   Shortened(Newest(bounded, maxBytes).content, bounded.content, if n < maxBytes then maxBytes - n else 0)
                 case None => Shortened(Newest(bounded, maxBytes).content, bounded.content, 0)
  {
    hide HistoryBytes, Truncated, Shortened;
    TruncatedIs(bounded.content, ContentBudget(bounded, maxBytes));
  }

  /** If the rest of the message takes the limit up exactly, the message survives without its content. */
  lemma SurvivesEmptied(bounded: ChatMessage, maxBytes: nat)
    requires !Within(HistoryBytes([bounded]), maxBytes)
    requires HistoryBytes([bounded.(content := [])]) == Some(maxBytes)
    ensures Newest(bounded, maxBytes) == bounded.(content := [])
    ensures Within(HistoryBytes([Newest(bounded, maxBytes)]), maxBytes)
  {
    hide HistoryBytes, Truncated;
    TruncatedKeepsNothing(bounded.content);
  }

  ghost predicate AllTools(ms: seq<ChatMessage>)
  {
    forall i :: 0 <= i < |ms| ==> ms[i].role == Tool
  }

  /** Nothing is kept exactly if there is nothing, or the newest message does not fit alone, or only results fit. */
  lemma ForgetsAllIff(ms: seq<ChatMessage>, maxBytes: nat)
    requires 2 <= maxBytes
    ensures var prepared := Prepared(ms, maxBytes);
            BoundedHistory(ms, maxBytes) == [] <==>
            || ms == []
            || !Within(HistoryBytes([prepared[|ms| - 1]]), maxBytes)
            || AllTools(prepared[KeptFrom(prepared, maxBytes)..])
  {
    hide Prepared, HistoryBytes, Within, DropTools, KeptFrom, AllTools;
    var prepared := Prepared(ms, maxBytes);
    var k := KeptFrom(prepared, maxBytes);
    DropsAllIff(prepared[k..]);
    if ms != [] {
      LastAlone(prepared, maxBytes);
    } else {
      assert prepared[k..] == [];
      DropsAllIff([]);
      NothingToDrop();
    }
  }

  lemma NothingToDrop()
    ensures DropTools([]) == []
  {
  }

  lemma LastAlone(prepared: seq<ChatMessage>, maxBytes: nat)
    requires prepared != []
    ensures KeptFrom(prepared, maxBytes) == |prepared| <==> !Within(HistoryBytes([prepared[|prepared| - 1]]), maxBytes)
    ensures KeptFrom(prepared, maxBytes) == |prepared| ==> AllTools(prepared[KeptFrom(prepared, maxBytes)..])
  {
    hide HistoryBytes, Within;
    var n := |prepared|;
    assert prepared[n - 1..] == [prepared[n - 1]];
  }

  lemma {:induction false} DropsAllIff(ms: seq<ChatMessage>)
    ensures DropTools(ms) == [] <==> AllTools(ms)
  {
    if ms != [] {
      if ms[0].role == Tool {
        DropsAllIff(ms[1..]);
        assert ms == [ms[0]] + ms[1..];
      } else {
        assert !AllTools(ms);
      }
    }
  }

  function LineBreaks(n: nat): (s: Text)
    ensures |s| == n && Ascii(s)
  {
    seq(n, _ => 10)
  }

  lemma {:induction false} LineBreaksEscaped(n: nat)
    ensures EscapedBytes(LineBreaks(n)) == 2 * n
  {
    if n > 0 {
      LineBreaksEscaped(n - 1);
      assert LineBreaks(n)[0] == 10 && LineBreaks(n)[1..] == LineBreaks(n - 1);
    }
  }

  lemma UserBytes(content: Text)
    ensures HistoryBytes([ChatMessage(User, content, None, None, None)]) == Some(30 + EscapedBytes(content))
  {
    hide EscapedBytes;
    OneInList(ChatMessage(User, content, None, None, None));
  }

  /** Content within half the limit, of which nothing is cut, in a message beyond the limit. */
  lemma UncutVanishes(content: Text, maxBytes: nat)
    requires ByteLen(content) <= maxBytes / 2 && ByteLen(content) <= maxBytes - 30 < EscapedBytes(content)
    ensures BoundedHistory([ChatMessage(User, content, None, None, None)], maxBytes) == []
  {
    hide HistoryBytes, Truncated, EscapedBytes, Prepared, BoundedHistory, ByteLen, MessageBytes;
    var m := ChatMessage(User, content, None, None, None);
    UserBytes(content);
    UserBytes([]);
    assert EscapedBytes([]) == 0 by { LineBreaksEscaped(0); }
    ShortIsWhole(content, maxBytes);
    ShortIsWhole(content, maxBytes / 2);
    ShortIsWhole(content, maxBytes - 30);
    SameWithoutNone(m);
    BoundedFrom(m, maxBytes);
    assert Bounded(m, maxBytes) == m;
    PreparedStep([m], maxBytes, 0);
    ForgetsAllIff([m], maxBytes);
  }

  /** A single message of 49 line breaks under a limit of 100 bytes: it vanishes whole. */
  lemma LineBreaksVanish()
    ensures BoundedHistory([ChatMessage(User, LineBreaks(49), None, None, None)], 100) == []
  {
    hide LineBreaks, EscapedBytes, BoundedHistory, ByteLen;
    LineBreaksEscaped(49);
    AsciiBytes(LineBreaks(49));
    UncutVanishes(LineBreaks(49), 100);
  }

  // ---- Bounding twice ----

  predicate ArgsBounded(m: ChatMessage, maxBytes: nat)
  {
    forall i :: 0 <= i < |Calls(m)| ==> BoundedCall(Calls(m)[i], maxBytes) == Calls(m)[i]
  }

  lemma BoundedArgs(m: ChatMessage, maxBytes: nat)
    ensures ArgsBounded(Bounded(m, maxBytes), maxBytes)
  {
    hide MessageBytes, Truncated, Within;
  }

  lemma PreparedArgs(ms: seq<ChatMessage>, maxBytes: nat, i: nat)
    requires i < |ms|
    ensures ArgsBounded(Prepared(ms, maxBytes)[i], maxBytes)
  {
    hide Bounded, MessageBytes, Truncated, Within, HistoryBytes;
    BoundedArgs(ms[i], maxBytes);
    var b := Bounded(ms[i], maxBytes);
    assert Calls(Newest(b, maxBytes)) == Calls(b);
  }

  lemma ContentShorter(m: ChatMessage, maxBytes: nat)
    requires Within(MessageBytes(m), maxBytes)
    ensures ByteLen(m.content) <= maxBytes
  {
    EscapingNeverShrinks(m.content);
  }

  lemma CopiedAgain(m: ChatMessage, maxBytes: nat)
    requires ArgsBounded(m, maxBytes) && ByteLen(m.content) <= maxBytes
    ensures Copied(m, maxBytes) == m
  {
    hide ByteLen, BoundedCall;
    if m.toolCalls.Some? {
      var calls := BoundedCalls(m.toolCalls.value, maxBytes);
      assert forall i :: 0 <= i < |calls| ==> calls[i] == Calls(m)[i];
      assert calls == m.toolCalls.value;
    }
  }

  lemma BoundedAgain(m: ChatMessage, maxBytes: nat)
    requires ArgsBounded(m, maxBytes) && Within(MessageBytes(m), maxBytes)
    ensures Bounded(m, maxBytes) == m
  {
    ContentShorter(m, maxBytes);
    hide MessageBytes, Copied, ArgsBounded, WithoutCalls, ByteLen;
    CopiedAgain(m, maxBytes);
    SameWithoutNone(m);
  }

  /** A bounded history is a fixed point: bounding it again, as every `send` does, changes nothing. */
  lemma BoundedHistoryAgain(ms: seq<ChatMessage>, maxBytes: nat)
    ensures var r := BoundedHistory(ms, maxBytes); BoundedHistory(r, maxBytes) == r
  {
    if maxBytes >= 2 {
      KeepsLongestSuffix(ms, maxBytes);
      hide BoundedHistory, HistoryBytes, ArgsBounded, Prepared, Within;
      var r := BoundedHistory(ms, maxBytes);
      var prepared := Prepared(ms, maxBytes);
      var k: nat, t: nat :| LongestFit(prepared, k, t, maxBytes) && r == prepared[t..];
      forall i | 0 <= i < |r|
        ensures ArgsBounded(r[i], maxBytes)
      {
        PreparedArgs(ms, maxBytes, t + i);
      }
      FitsUnchanged(r, maxBytes);
    }
  }

  lemma FitsUnchanged(r: seq<ChatMessage>, maxBytes: nat)
    requires 2 <= maxBytes && Within(HistoryBytes(r), maxBytes)
    requires forall i :: 0 <= i < |r| ==> ArgsBounded(r[i], maxBytes)
    requires r != [] ==> r[0].role != Tool
    ensures BoundedHistory(r, maxBytes) == r
  {
    hide HistoryBytes, Bounded, ArgsBounded, MessageBytes, Within;
    var prepared := Prepared(r, maxBytes);
    forall i | 0 <= i < |r|
      ensures prepared[i] == r[i]
    {
      EachFits(r, i, maxBytes);
      BoundedAgain(r[i], maxBytes);
    }
    assert prepared == r && r[0..] == r;
    KeptWhole(r, maxBytes, |r|);
  }

  lemma {:induction false} KeptWhole(r: seq<ChatMessage>, maxBytes: nat, i: nat)
    requires i <= |r| && Within(HistoryBytes(r), maxBytes)
    ensures KeptFromEnd(r, maxBytes, i) == 0
  {
    hide HistoryBytes, Within;
    if i > 0 {
      SuffixFits(r, i - 1, maxBytes);
      KeptWhole(r, maxBytes, i - 1);
    }
  }
}
