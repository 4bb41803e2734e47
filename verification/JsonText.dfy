/** What `JSON.stringify` writes for strings (section 7 of RFC 8259), and the greatest integer that is a safe number. */
module JsonText {
  import opened Utf8

  /** The greatest safe integer; up to it every integer prints as plain digits. */
  const MAX_SAFE_INTEGER: int := 9_007_199_254_740_991

  const QUOTE: Unit := 0x22
  const BACKSLASH: Unit := 0x5C

  function Hex(d: int): Unit
    requires 0 <= d < 16
  {
    if d < 10 then 0x30 + d else 0x57 + d
  }

  /** The escape of one character: two letters where JSON has them, `\uXXXX` for other controls and lone surrogates. */
  function EscapeFirst(s: Text): (e: Text)
    requires s != []
    ensures e != []
  {
    if IsPair(s) then s[..2]
    else if s[0] == QUOTE || s[0] == BACKSLASH then [BACKSLASH, s[0]]
    else if s[0] == 8 then [BACKSLASH, 0x62]
    else if s[0] == 9 then [BACKSLASH, 0x74]
    else if s[0] == 10 then [BACKSLASH, 0x6E]
    else if s[0] == 12 then [BACKSLASH, 0x66]
    else if s[0] == 13 then [BACKSLASH, 0x72]
    else if s[0] < 0x20 || IsHigh(s[0]) || IsLow(s[0]) then
      [BACKSLASH, 0x75, Hex(s[0] / 4096), Hex(s[0] / 256 % 16), Hex(s[0] / 16 % 16), Hex(s[0] % 16)]
    else [s[0]]
  }

  function Escape(s: Text): Text
  {
    if s == [] then [] else EscapeFirst(s) + Escape(s[CharLen(s)..])
  }

  /** The string with its quotation marks. */
  function Quoted(s: Text): Text
  {
    [QUOTE] + Escape(s) + [QUOTE]
  }

  lemma EscapeFirstIsWellFormed(s: Text)
    requires s != []
    ensures var e := EscapeFirst(s); Repair(e) == e && !IsHigh(e[|e| - 1])
  {
    var e := EscapeFirst(s);
    if IsPair(s) {
      assert e[2..] == [];
    } else if |e| == 1 {
      assert e[1..] == [];
    } else {
      PlainIsWellFormed(e);
    }
  }

  lemma {:induction false} PlainIsWellFormed(s: Text)
    requires forall i :: 0 <= i < |s| ==> s[i] < 0xD800
    ensures Repair(s) == s
  {
    if s != [] {
      PlainIsWellFormed(s[1..]);
    }
  }

  lemma {:induction false} EscapeIsWellFormed(s: Text)
    ensures Repair(Escape(s)) == Escape(s)
  {
    hide EscapeFirst, CharLen;
    if s != [] {
      EscapeFirstIsWellFormed(s);
      EscapeIsWellFormed(s[CharLen(s)..]);
      hide Repair;
      RepairJoin(EscapeFirst(s), Escape(s[CharLen(s)..]));
    }
  }
}
