/** The JSON text behind the sizes of module `AgentHistory`: what `utf8Bytes` measures, written out. */
module AgentJson {
  import opened Basics
  import opened Utf8
  import opened JsonText
  import opened AgentText
  import opened AgentHistory

  /** A literal of printable ASCII characters. */
  function Chars(s: string): (t: Text)
    requires forall i :: 0 <= i < |s| ==> s[i] < 128 as char
    ensures |t| == |s| && Ascii(t)
  {
    seq(|s|, i requires 0 <= i < |s| => s[i] as int)
  }

  /** `None` is what cannot be serialized. */
  function Bytes(json: Option<Text>): Option<nat>
  {
    match json case None => None case Some(t) => Some(ByteLen(t))
  }

  // ---- Strings ----

  lemma EscapedWidthIs(s: Text)
    requires s != []
    ensures ByteLen(EscapeFirst(s)) == EscapedWidth(s)
  {
    var e := EscapeFirst(s);
    if IsPair(s) {
      assert e[2..] == [];
    } else if |e| == 1 {
      assert e[1..] == [];
    } else {
      AsciiBytes(e);
    }
  }

  /** The escaped bytes counted are the bytes of the escaped string. */
  lemma {:induction false} EscapedBytesAre(s: Text)
    ensures EscapedBytes(s) == ByteLen(Escape(s))
  {
    hide EscapeFirst, EscapedWidth, CharLen, ByteLen;
    if s == [] {
      NoBytes();
    } else {
      var rest := s[CharLen(s)..];
      EscapedWidthIs(s);
      EscapeFirstIsWellFormed(s);
      EscapedBytesAre(rest);
      ByteLenJoin(EscapeFirst(s), Escape(rest));
    }
  }

  lemma NoBytes()
    ensures ByteLen([]) == 0
  {
  }

  /** ASCII on either side of a seam splits no character. */
  lemma AsciiSeam(a: Text, b: Text)
    requires a == [] || b == [] || a[|a| - 1] < 0x80 || b[0] < 0x80
    ensures ByteLen(a + b) == ByteLen(a) + ByteLen(b)
  {
    ByteLenJoin(a, b);
  }

  lemma StringBytesAre(s: Text)
    ensures StringBytes(s) == ByteLen(Quoted(s))
    ensures |Quoted(s)| >= 2 && Quoted(s)[0] == QUOTE && Quoted(s)[|Quoted(s)| - 1] == QUOTE
  {
    hide ByteLen, Escape, EscapedBytes;
    EscapedBytesAre(s);
    var q: Text := [QUOTE];
    AsciiBytes(q);
    AsciiSeam(q, Escape(s));
    AsciiSeam(q + Escape(s), q);
  }

  // ---- Arrays ----

  function ArrayTail(items: seq<Option<Text>>): Option<Text>
  {
    if items == [] then Some(Chars("]"))
    else if items[0].None? || ArrayTail(items[1..]).None? then None
    else Some(Chars(",") + items[0].value + ArrayTail(items[1..]).value)
  }

  function ArrayJson(items: seq<Option<Text>>): Option<Text>
  {
    if items == [] then Some(Chars("[]"))
    else if items[0].None? || ArrayTail(items[1..]).None? then None
    else Some(Chars("[") + items[0].value + ArrayTail(items[1..]).value)
  }

  function ItemsBytes(items: seq<Option<Text>>): Option<nat>
  {
    if items == [] then Some(0) else Plus(Plus(Some(1), Bytes(items[0])), ItemsBytes(items[1..]))
  }

  lemma {:induction false} ArrayTailBytes(items: seq<Option<Text>>)
    ensures Bytes(ArrayTail(items)) == Plus(ItemsBytes(items), Some(1))
    ensures ArrayTail(items).Some? ==> ArrayTail(items).value != [] && ArrayTail(items).value[0] < 0x80
  {
    hide ByteLen;
    AsciiBytes(Chars("]"));
    if items != [] {
      ArrayTailBytes(items[1..]);
      if items[0].Some? && ArrayTail(items[1..]).Some? {
        Around(Chars(","), items[0].value, ArrayTail(items[1..]).value);
      }
    }
  }

  /** One ASCII character, any text, and text that begins with ASCII. */
  lemma Around(open: Text, item: Text, rest: Text)
    requires |open| == 1 && open[0] < 0x80 && rest != [] && rest[0] < 0x80
    ensures ByteLen(open + item + rest) == 1 + ByteLen(item) + ByteLen(rest)
  {
    hide ByteLen;
    AsciiBytes(open);
    AsciiSeam(open, item);
    AsciiSeam(open + item, rest);
  }

  lemma ArrayBytes(items: seq<Option<Text>>)
    ensures Bytes(ArrayJson(items)) == Bracketed(items == [], ItemsBytes(items))
  {
    hide ByteLen, ArrayTail;
    if items == [] {
      AsciiBytes(Chars("[]"));
    } else {
      ArrayTailBytes(items[1..]);
      if items[0].Some? && ArrayTail(items[1..]).Some? {
        Around(Chars("["), items[0].value, ArrayTail(items[1..]).value);
      }
    }
  }

  // ---- Calls and messages ----

  function CallJson(c: ToolCall): Option<Text>
  {
    var head := Chars("{\"id\":") + Quoted(c.id) + Chars(",\"name\":") + Quoted(c.name);
    match c.args
    case Json(json) => Some(head + (Chars(",\"args\":") + json) + Chars("}"))
    case Undefined => Some(head + Chars("}"))
    case Unserializable => None
  }

  function RoleJson(r: Role): Text
  {
    match r
    case System => Chars("\"system\"")
    case User => Chars("\"user\"")
    case Assistant => Chars("\"assistant\"")
    case Tool => Chars("\"tool\"")
  }

  function FieldJson(key: Text, value: Option<Text>): Text
  {
    match value case None => [] case Some(s) => key + Quoted(s)
  }

  function MessageJson(m: ChatMessage): Option<Text>
  {
    var head := Chars("{\"role\":") + RoleJson(m.role) + Chars(",\"content\":") + Quoted(m.content)
                + FieldJson(Chars(",\"toolCallId\":"), m.toolCallId);
    var tail := FieldJson(Chars(",\"name\":"), m.name) + Chars("}");
    match m.toolCalls
    case None => Some(head + tail)
    case Some(calls) =>
      match ArrayJson(CallTexts(calls))
      case None => None
      case Some(list) => Some(head + (Chars(",\"toolCalls\":") + list) + tail)
  }

  function CallTexts(calls: seq<ToolCall>): (texts: seq<Option<Text>>)
    ensures |texts| == |calls|
  {
    seq(|calls|, i requires 0 <= i < |calls| => CallJson(calls[i]))
  }

  function MessageTexts(ms: seq<ChatMessage>): (texts: seq<Option<Text>>)
    ensures |texts| == |ms|
  {
    seq(|ms|, i requires 0 <= i < |ms| => MessageJson(ms[i]))
  }

  /** A non-empty text that begins and ends in ASCII, and its bytes. */
  ghost predicate Framed(t: Text, bytes: nat)
  {
    t != [] && t[0] < 0x80 && t[|t| - 1] < 0x80 && ByteLen(t) == bytes
  }

  lemma FramedJoin(a: Text, m: nat, b: Text, n: nat)
    requires Framed(a, m) && Framed(b, n)
    ensures Framed(a + b, m + n)
  {
    hide ByteLen;
    AsciiSeam(a, b);
  }

  lemma FramedChars(t: Text)
    requires t != [] && Ascii(t)
    ensures Framed(t, |t|)
  {
    AsciiBytes(t);
  }

  lemma FramedString(s: Text)
    ensures Framed(Quoted(s), StringBytes(s))
  {
    hide ByteLen, Quoted, StringBytes;
    StringBytesAre(s);
  }

  lemma CallBytesAre(c: ToolCall)
    ensures CallBytes(c) == Bytes(CallJson(c))
  {
    hide ByteLen, Quoted, StringBytes;
    CallHead(c);
    var head := Chars("{\"id\":") + Quoted(c.id) + Chars(",\"name\":") + Quoted(c.name);
    var key, end := Chars(",\"args\":"), Chars("}");
    FramedChars(end);
    if c.args.Undefined? {
      AsciiSeam(head, end);
    } else if c.args.Json? {
      FramedChars(key);
      AsciiSeam(key, c.args.json);
      AsciiSeam(head, key + c.args.json);
      AsciiSeam(head + (key + c.args.json), end);
    }
  }

  lemma CallHead(c: ToolCall)
    ensures Framed(Chars("{\"id\":") + Quoted(c.id) + Chars(",\"name\":") + Quoted(c.name),
                   14 + StringBytes(c.id) + StringBytes(c.name))
  {
    hide Framed, Quoted, StringBytes;
    var open, key := Chars("{\"id\":"), Chars(",\"name\":");
    FramedChars(open);
    FramedChars(key);
    FramedString(c.id);
    FramedString(c.name);
    FramedJoin(open, 6, Quoted(c.id), StringBytes(c.id));
    FramedJoin(open + Quoted(c.id), 6 + StringBytes(c.id), key, 8);
    FramedJoin(open + Quoted(c.id) + key, 14 + StringBytes(c.id), Quoted(c.name), StringBytes(c.name));
  }

  lemma {:induction false} CallListBytesAre(calls: seq<ToolCall>)
    ensures CallListBytes(calls) == ItemsBytes(CallTexts(calls))
  {
    hide CallBytes, CallJson, Bytes;
    if calls != [] {
      CallBytesAre(calls[0]);
      CallListBytesAre(calls[1..]);
      assert CallTexts(calls)[1..] == CallTexts(calls[1..]);
    }
  }

  lemma FramedRole(r: Role)
    ensures Framed(RoleJson(r), RoleBytes(r))
  {
    hide ByteLen;
    FramedChars(RoleJson(r));
  }

  lemma FramedField(before: Text, bytes: nat, key: Text, value: Option<Text>)
    requires Framed(before, bytes) && key != [] && Ascii(key)
    ensures Framed(before + FieldJson(key, value), bytes + FieldBytes(|key|, value))
  {
    hide Framed, Quoted, StringBytes;
    match value
    case None => assert before + [] == before;
    case Some(s) =>
      FramedChars(key);
      FramedString(s);
      FramedJoin(key, |key|, Quoted(s), StringBytes(s));
      FramedJoin(before, bytes, key + Quoted(s), |key| + StringBytes(s));
  }

  lemma MessageHead(m: ChatMessage)
    ensures Framed(Chars("{\"role\":") + RoleJson(m.role) + Chars(",\"content\":") + Quoted(m.content)
                   + FieldJson(Chars(",\"toolCallId\":"), m.toolCallId),
                   8 + RoleBytes(m.role) + 11 + StringBytes(m.content) + FieldBytes(14, m.toolCallId))
  {
    hide Framed, Quoted, StringBytes, RoleJson, RoleBytes, FieldJson, FieldBytes;
    var open, key := Chars("{\"role\":"), Chars(",\"content\":");
    FramedChars(open);
    FramedChars(key);
    FramedRole(m.role);
    FramedString(m.content);
    FramedJoin(open, 8, RoleJson(m.role), RoleBytes(m.role));
    FramedJoin(open + RoleJson(m.role), 8 + RoleBytes(m.role), key, 11);
    var before, bytes := open + RoleJson(m.role) + key, 8 + RoleBytes(m.role) + 11;
    FramedJoin(before, bytes, Quoted(m.content), StringBytes(m.content));
    FramedField(before + Quoted(m.content), bytes + StringBytes(m.content), Chars(",\"toolCallId\":"), m.toolCallId);
  }

  /** The size the history limit counts is the size of the text `JSON.stringify` writes, or both are infinite. */
  lemma MessageBytesAre(m: ChatMessage)
    ensures MessageBytes(m) == Bytes(MessageJson(m))
  {
    hide ByteLen, Quoted, StringBytes, RoleJson, RoleBytes, FieldJson, FieldBytes, CallListBytes, ItemsBytes, ArrayJson;
    var head := Chars("{\"role\":") + RoleJson(m.role) + Chars(",\"content\":") + Quoted(m.content)
                + FieldJson(Chars(",\"toolCallId\":"), m.toolCallId);
    MessageHead(m);
    MessageTail(m.name);
    var tail := FieldJson(Chars(",\"name\":"), m.name) + Chars("}");
    match m.toolCalls
    case None => AsciiSeam(head, tail);
    case Some(calls) =>
      CallListBytesAre(calls);
      ArrayBytes(CallTexts(calls));
      if ArrayJson(CallTexts(calls)).Some? {
        var key, list := Chars(",\"toolCalls\":"), ArrayJson(CallTexts(calls)).value;
        FramedChars(key);
        AsciiSeam(key, list);
        AsciiSeam(head, key + list);
        AsciiSeam(head + (key + list), tail);
      }
  }

  lemma MessageTail(name: Option<Text>)
    ensures var tail := FieldJson(Chars(",\"name\":"), name) + Chars("}"); Framed(tail, FieldBytes(8, name) + 1)
  {
    hide Framed, Quoted, StringBytes;
    var key, end := Chars(",\"name\":"), Chars("}");
    FramedChars(end);
    match name
    case None => assert [] + end == end;
    case Some(s) =>
      FramedChars(key);
      FramedString(s);
      FramedJoin(key, 8, Quoted(s), StringBytes(s));
      FramedJoin(key + Quoted(s), 8 + StringBytes(s), end, 1);
  }

  lemma {:induction false} ListBytesAre(ms: seq<ChatMessage>)
    ensures ListBytes(ms) == ItemsBytes(MessageTexts(ms))
  {
    hide MessageBytes, MessageJson, Bytes;
    if ms != [] {
      MessageBytesAre(ms[0]);
      ListBytesAre(ms[1..]);
      assert MessageTexts(ms)[1..] == MessageTexts(ms[1..]);
    }
  }

  /** `utf8Bytes` of a whole history. */
  lemma HistoryBytesAre(ms: seq<ChatMessage>)
    ensures HistoryBytes(ms) == Bytes(ArrayJson(MessageTexts(ms)))
  {
    hide MessageJson, ArrayJson, ItemsBytes, ListBytes, Bytes;
    ListBytesAre(ms);
    ArrayBytes(MessageTexts(ms));
  }
}
