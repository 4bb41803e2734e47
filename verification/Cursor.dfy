/**
 Note cursors: a position written as JSON, as UTF-8, as base64url without padding (section 5 of RFC 4648), and
 read back. Text is a sequence of UTF-16 units throughout.
 */
module Cursor {
  import opened Basics
  import opened Utf8
  import opened JsonText

  const MAX_CURSOR_LENGTH: nat := 512
  const MAX_UUID_LENGTH: nat := 128

  datatype NoteCursor = NoteCursor(updatedAtMs: int, uuid: Text)

  // ---- JSON ----

  /** `{"v":1,"t":` and `,"u":"` and `"}` */
  const PREFIX: Text := [0x7B, 0x22, 0x76, 0x22, 0x3A, 0x31, 0x2C, 0x22, 0x74, 0x22, 0x3A]
  const MIDDLE: Text := [0x2C, 0x22, 0x75, 0x22, 0x3A, 0x22]
  const SUFFIX: Text := [0x22, 0x7D]

  function Digits(n: nat): (s: Text)
    ensures s != [] && forall i :: 0 <= i < |s| ==> IsDigit(s[i])
  {
    if n < 10 then [0x30 + n] else Digits(n / 10) + [0x30 + n % 10]
  }

  predicate IsDigit(u: Unit) { 0x30 <= u < 0x3A }

  function Number(n: int): Text
  {
    if n < 0 then [0x2D] + Digits(-n) else Digits(n)
  }

  function Stringify(c: NoteCursor): Text
  {
    PREFIX + Number(c.updatedAtMs) + MIDDLE + Escape(c.uuid) + SUFFIX
  }

  function HexValue(u: Unit): Option<int>
  {
    if IsDigit(u) then Some(u - 0x30)
    else if 0x61 <= u < 0x67 then Some(u - 0x57)
    else if 0x41 <= u < 0x47 then Some(u - 0x37)
    else None
  }

  /** One unit of a JSON string, and how many units of text spell it; `None` if the text is not a string character. */
  function UnescapeFirst(s: Text): (r: Option<(Unit, nat)>)
    requires s != []
    ensures r.Some? ==> 1 <= r.value.1 <= |s|
  {
    if s[0] < 0x20 || s[0] == QUOTE then None
    else if s[0] != BACKSLASH then Some((s[0], 1))
    else if |s| < 2 then None
    else if s[1] == QUOTE || s[1] == BACKSLASH || s[1] == 0x2F then Some((s[1], 2))
    else if s[1] == 0x62 then Some((8, 2))
    else if s[1] == 0x74 then Some((9, 2))
    else if s[1] == 0x6E then Some((10, 2))
    else if s[1] == 0x66 then Some((12, 2))
    else if s[1] == 0x72 then Some((13, 2))
    else if s[1] == 0x75 && |s| >= 6 then
      match (HexValue(s[2]), HexValue(s[3]), HexValue(s[4]), HexValue(s[5]))
      case (Some(a), Some(b), Some(c), Some(d)) => Code(a, b, c, d)
      case _ => None
    else None
  }

  function Code(a: int, b: int, c: int, d: int): (r: Option<(Unit, nat)>)
    ensures r.Some? ==> r.value.1 == 6
  {
    var code := a * 4096 + b * 256 + c * 16 + d;
    if 0 <= code < 0x1_0000 then Some((code, 6)) else None
  }

  /** The string up to the closing quote, and the text after it. */
  function ParseString(s: Text): Option<(Text, Text)>
  {
    if s == [] then None
    else if s[0] == QUOTE then Some(([], s[1..]))
    else
      match UnescapeFirst(s)
      case None => None
      case Some((u, n)) =>
        match ParseString(s[n..])
        case None => None
        case Some((chars, after)) => Some(([u] + chars, after))
  }

  /** Leading digits, read as a number. */
  function CountDigits(s: Text): (k: nat)
    ensures k <= |s|
  {
    if s != [] && IsDigit(s[0]) then 1 + CountDigits(s[1..]) else 0
  }

  function Value(digits: Text): int
  {
    if digits == [] then 0 else Value(digits[..|digits| - 1]) * 10 + digits[|digits| - 1] - 0x30
  }

  function ParseNumber(s: Text): Option<(int, Text)>
  {
    var negative := s != [] && s[0] == 0x2D;
    var t := if negative then s[1..] else s;
    var k := CountDigits(t);
    if k == 0 || (k > 1 && t[0] == 0x30) then None
    else Some((if negative then -Value(t[..k]) else Value(t[..k]), t[k..]))
  }

  /** `JSON.parse` on the texts `Stringify` writes. */
  function Parse(s: Text): Option<NoteCursor>
  {
    if !(PREFIX <= s) then None
    else
      match ParseNumber(s[|PREFIX|..])
      case None => None
      case Some((t, rest)) =>
        if !(MIDDLE <= rest) then None
        else
          match ParseString(rest[|MIDDLE|..])
          case None => None
          case Some((uuid, after)) => if after == SUFFIX[1..] then Some(NoteCursor(t, uuid)) else None
  }

  // ---- Base64url ----

  function Letter(d: int): Unit
    requires 0 <= d < 64
  {
    if d < 26 then 0x41 + d else if d < 52 then 0x61 + (d - 26) else if d < 62 then 0x30 + (d - 52)
    else if d == 62 then 0x2D else 0x5F
  }

  function LetterValue(u: Unit): (r: Option<int>)
    ensures r.Some? ==> 0 <= r.value < 64
  {
    if 0x41 <= u < 0x5B then Some(u - 0x41)
    else if 0x61 <= u < 0x7B then Some(u - 0x61 + 26)
    else if 0x30 <= u < 0x3A then Some(u - 0x30 + 52)
    else if u == 0x2D || u == 0x2B then Some(62)
    else if u == 0x5F || u == 0x2F then Some(63)
    else None
  }

  function Sextets(b: Bytes): (s: seq<int>)
    ensures forall i :: 0 <= i < |s| ==> 0 <= s[i] < 64
    ensures |s| == (4 * |b| + 2) / 3
  {
    if b == [] then []
    else if |b| == 1 then [b[0] / 4, b[0] % 4 * 16]
    else if |b| == 2 then [b[0] / 4, b[0] % 4 * 16 + b[1] / 16, b[1] % 16 * 4]
    else [b[0] / 4, b[0] % 4 * 16 + b[1] / 16, b[1] % 16 * 4 + b[2] / 64, b[2] % 64] + Sextets(b[3..])
  }

  function Letters(s: seq<int>): (t: Text)
    requires forall i :: 0 <= i < |s| ==> 0 <= s[i] < 64
    ensures |t| == |s|
  {
    if s == [] then [] else [Letter(s[0])] + Letters(s[1..])
  }

  /** `toString("base64url")` */
  function Base64Url(b: Bytes): Text
  {
    Letters(Sextets(b))
  }

  /** `Buffer.from(s, "base64url")` is lenient: it stops at `=` and skips characters outside both alphabets. */
  function ReadLetters(s: Text): (r: seq<int>)
    ensures forall i :: 0 <= i < |r| ==> 0 <= r[i] < 64
  {
    if s == [] || s[0] == 0x3D then []
    else match LetterValue(s[0]) case None => ReadLetters(s[1..]) case Some(d) => [d] + ReadLetters(s[1..])
  }

  type Sextet = d: int | 0 <= d < 64

  function FirstOctet(p: Sextet, q: Sextet): Byte { p * 4 + q / 16 }

  function SecondOctet(q: Sextet, r: Sextet): Byte { q % 16 * 16 + r / 4 }

  function ThirdOctet(r: Sextet, t: Sextet): Byte { r % 4 * 64 + t }

  function JoinSextets(s: seq<int>): Bytes
    requires forall i :: 0 <= i < |s| ==> 0 <= s[i] < 64
  {
    if |s| < 2 then []
    else if |s| == 2 then [FirstOctet(s[0], s[1])]
    else if |s| == 3 then [FirstOctet(s[0], s[1]), SecondOctet(s[1], s[2])]
    else [FirstOctet(s[0], s[1]), SecondOctet(s[1], s[2]), ThirdOctet(s[2], s[3])] + JoinSextets(s[4..])
  }

  function FromBase64Url(s: Text): Bytes
  {
    JoinSextets(ReadLetters(s))
  }

  // ---- The two functions ----

  function EncodeNoteCursor(c: NoteCursor): Text
  {
    Base64Url(Encode(Stringify(c)))
  }

  /** `None` where the source throws "invalid notes cursor". */
  function DecodeNoteCursor(value: Text): Option<NoteCursor>
  {
    if |value| == 0 || |value| > MAX_CURSOR_LENGTH then None
    else
      match Parse(Decode(FromBase64Url(value)))
      case None => None
      case Some(c) =>
        if c.updatedAtMs < 0 || c.updatedAtMs > MAX_SAFE_INTEGER || |c.uuid| == 0 || |c.uuid| > MAX_UUID_LENGTH
        then None else Some(c)
  }

  // ---- Each layer is undone ----

  lemma {:induction false} LettersRead(s: seq<int>)
    requires forall i :: 0 <= i < |s| ==> 0 <= s[i] < 64
    ensures ReadLetters(Letters(s)) == s
  {
    hide Letter, LetterValue, ReadLetters;
    if s == [] {
      NothingReadsEmpty();
    } else {
      var tail := s[1..];
      LettersRead(tail);
      LetterReadFirst(s[0], Letters(tail));
      assert s == [s[0]] + tail;
    }
  }

  lemma NothingReadsEmpty()
    ensures ReadLetters([]) == []
  {
  }

  lemma LetterReadFirst(d: int, rest: Text)
    requires 0 <= d < 64
    ensures ReadLetters([Letter(d)] + rest) == [d] + ReadLetters(rest)
  {
    hide Letter, LetterValue;
    LetterRead(d);
    assert ([Letter(d)] + rest)[1..] == rest;
  }

  lemma LetterRead(d: int)
    requires 0 <= d < 64
    ensures LetterValue(Letter(d)) == Some(d) && Letter(d) != 0x3D
  {
  }

  lemma {:induction false} SextetsJoin(b: Bytes)
    ensures JoinSextets(Sextets(b)) == b
  {
    hide Sextets, JoinSextets, FirstOctet, SecondOctet, ThirdOctet;
    if |b| < 3 {
      FewSextetsJoin(b);
    } else {
      SextetsJoin(b[3..]);
      FourSextets(b);
      FourJoin(Sextets(b));
      BitsRegroup(b[0], b[1], b[2]);
      assert b == [b[0], b[1], b[2]] + b[3..];
    }
  }

  lemma FewSextetsJoin(b: Bytes)
    requires |b| < 3
    ensures JoinSextets(Sextets(b)) == b
  {
    hide Sextets, JoinSextets, FirstOctet, SecondOctet, ThirdOctet;
    FewSextets(b);
    FewJoin(Sextets(b));
    if b != [] {
      BitsRegroup(b[0], if |b| == 2 then b[1] else 0, 0);
    }
  }

  lemma FewSextets(b: Bytes)
    requires |b| < 3
    ensures var s := Sextets(b);
            && (|b| == 0 ==> s == [])
            && (|b| == 1 ==> |s| == 2 && s[0] == b[0] / 4 && s[1] == b[0] % 4 * 16)
            && (|b| == 2 ==> |s| == 3 && s[0] == b[0] / 4 && s[1] == b[0] % 4 * 16 + b[1] / 16 && s[2] == b[1] % 16 * 4)
  {
  }

  lemma FewJoin(s: seq<int>)
    requires |s| < 4 && forall i :: 0 <= i < |s| ==> 0 <= s[i] < 64
    ensures |s| < 2 ==> JoinSextets(s) == []
    ensures |s| == 2 ==> JoinSextets(s) == [FirstOctet(s[0], s[1])]
    ensures |s| == 3 ==> JoinSextets(s) == [FirstOctet(s[0], s[1]), SecondOctet(s[1], s[2])]
  {
    hide FirstOctet, SecondOctet, ThirdOctet;
  }

  lemma FourSextets(b: Bytes)
    requires |b| >= 3
    ensures var s := Sextets(b);
            && |s| >= 4 && s[0] == b[0] / 4 && s[1] == b[0] % 4 * 16 + b[1] / 16
            && s[2] == b[1] % 16 * 4 + b[2] / 64 && s[3] == b[2] % 64 && s[4..] == Sextets(b[3..])
  {
  }

  lemma FourJoin(s: seq<int>)
    requires |s| >= 4 && forall i :: 0 <= i < |s| ==> 0 <= s[i] < 64
    ensures JoinSextets(s) == [FirstOctet(s[0], s[1]), SecondOctet(s[1], s[2]), ThirdOctet(s[2], s[3])] + JoinSextets(s[4..])
  {
    hide FirstOctet, SecondOctet, ThirdOctet;
  }

  lemma BitsRegroup(x: Byte, y: Byte, z: Byte)
    ensures FirstOctet(x / 4, x % 4 * 16 + y / 16) == x
    ensures SecondOctet(x % 4 * 16 + y / 16, y % 16 * 4 + z / 64) == y
    ensures ThirdOctet(y % 16 * 4 + z / 64, z % 64) == z
  {
  }

  lemma {:induction false} DigitsRead(n: nat, after: Text)
    requires after == [] || !IsDigit(after[0])
    ensures CountDigits(Digits(n) + after) == |Digits(n)| && Value(Digits(n)) == n
  {
    if n >= 10 {
      DigitsRead(n / 10, []);
      assert Digits(n)[..|Digits(n)| - 1] == Digits(n / 10);
    }
    AllDigits(Digits(n), after);
  }

  lemma {:induction false} AllDigits(digits: Text, after: Text)
    requires forall i :: 0 <= i < |digits| ==> IsDigit(digits[i])
    requires after == [] || !IsDigit(after[0])
    ensures CountDigits(digits + after) == |digits|
  {
    if digits == [] {
      assert digits + after == after;
    } else {
      AllDigits(digits[1..], after);
      assert (digits + after)[1..] == digits[1..] + after;
    }
  }

  lemma {:induction false} NoLeadingZero(n: nat)
    ensures |Digits(n)| > 1 ==> n >= 10 && Digits(n)[0] != 0x30
    ensures n > 0 ==> Digits(n)[0] != 0x30
  {
    if n >= 10 {
      NoLeadingZero(n / 10);
    }
  }

  lemma NumberReads(n: int, after: Text)
    requires after == [] || !IsDigit(after[0])
    ensures ParseNumber(Number(n) + after) == Some((n, after))
  {
    hide Digits, CountDigits, Value;
    NoLeadingZero(if n < 0 then -n else n);
    var d := Digits(if n < 0 then -n else n);
    DigitsRead(if n < 0 then -n else n, after);
    var t := d + after;
    assert t[..|d|] == d && t[|d|..] == after && t[0] == d[0];
    if n < 0 {
      var signed := Number(n) + after;
      assert signed[0] == 0x2D && signed[1..] == t;
    }
  }

  lemma HexReads(d: int)
    requires 0 <= d < 16
    ensures HexValue(Hex(d)) == Some(d)
  {
  }

  /** The escape of a character is read as exactly its units. */
  lemma EscapeReads(s: Text, after: Text)
    requires s != []
    ensures var e := EscapeFirst(s);
            match ParseString(after)
            case None => true
            case Some((chars, rest)) => ParseString(e + after) == Some((s[..CharLen(s)] + chars, rest))
  {
    var e := EscapeFirst(s);
    if ParseString(after).Some? {
      var (chars, rest) := ParseString(after).value;
      if IsPair(s) {
        assert e + after == [s[0]] + ([s[1]] + after);
        assert ([s[1]] + after)[1..] == after;
        assert ParseString([s[1]] + after) == Some(([s[1]] + chars, rest));
        assert (e + after)[1..] == [s[1]] + after;
        assert [s[0]] + ([s[1]] + chars) == s[..2] + chars;
      } else {
        EscapeReadsUnit(s, after);
        assert (e + after)[0] == e[0] && (e + after)[|e|..] == after;
        assert s[..1] == [s[0]];
      }
    }
  }

  lemma EscapeReadsUnit(s: Text, after: Text)
    requires s != [] && !IsPair(s)
    ensures UnescapeFirst(EscapeFirst(s) + after) == Some((s[0], |EscapeFirst(s)|))
    ensures EscapeFirst(s)[0] != QUOTE
  {
    var e := EscapeFirst(s);
    assert forall i :: 0 <= i < |e| ==> (e + after)[i] == e[i];
    if |e| == 6 {
      HexReads(s[0] / 4096);
      HexReads(s[0] / 256 % 16);
      HexReads(s[0] / 16 % 16);
      HexReads(s[0] % 16);
      HexDigits(s[0]);
    }
  }

  lemma HexDigits(n: Unit)
    ensures n / 4096 * 4096 + n / 256 % 16 * 256 + n / 16 % 16 * 16 + n % 16 == n
  {
    assert n / 256 == n / 16 / 16 && n / 4096 == n / 256 / 16;
  }

  lemma {:induction false} StringReads(s: Text, rest: Text)
    ensures ParseString(Escape(s) + ([QUOTE] + rest)) == Some((s, rest))
  {
    hide EscapeFirst, UnescapeFirst, CharLen;
    if s == [] {
      assert Escape(s) + ([QUOTE] + rest) == [QUOTE] + rest;
      assert ([QUOTE] + rest)[1..] == rest;
    } else {
      var tail := s[CharLen(s)..];
      StringReads(tail, rest);
      hide ParseString;
      EscapeReads(s, Escape(tail) + ([QUOTE] + rest));
      assert Escape(s) + ([QUOTE] + rest) == EscapeFirst(s) + (Escape(tail) + ([QUOTE] + rest));
      assert s == s[..CharLen(s)] + tail;
    }
  }

  lemma StringifyParses(c: NoteCursor)
    ensures Parse(Stringify(c)) == Some(c)
  {
    hide Number, Escape, ParseNumber, ParseString;
    var number, chars := Number(c.updatedAtMs), Escape(c.uuid);
    var text := Stringify(c);
    assert text == PREFIX + (number + (MIDDLE + (chars + SUFFIX)));
    assert text[|PREFIX|..] == number + (MIDDLE + (chars + SUFFIX));
    NumberReads(c.updatedAtMs, MIDDLE + (chars + SUFFIX));
    assert (MIDDLE + (chars + SUFFIX))[|MIDDLE|..] == chars + SUFFIX;
    assert SUFFIX == [QUOTE] + SUFFIX[1..];
    StringReads(c.uuid, SUFFIX[1..]);
  }

  lemma HeadIsPlain(t: int)
    ensures var head := PREFIX + Number(t) + MIDDLE; forall i :: 0 <= i < |head| ==> head[i] < 0xD800
    ensures !IsHigh((PREFIX + Number(t) + MIDDLE)[|PREFIX + Number(t) + MIDDLE| - 1])
    ensures !IsHigh(SUFFIX[0])
  {
  }

  lemma StringifyIsWellFormed(c: NoteCursor)
    ensures Repair(Stringify(c)) == Stringify(c)
  {
    hide Repair, Escape, Number, IsHigh;
    var head := PREFIX + Number(c.updatedAtMs) + MIDDLE;
    HeadIsPlain(c.updatedAtMs);
    PlainIsWellFormed(head);
    PlainIsWellFormed(SUFFIX);
    EscapeIsWellFormed(c.uuid);
    RepairJoin(Escape(c.uuid), SUFFIX);
    RepairJoin(head, Escape(c.uuid) + SUFFIX);
    assert Stringify(c) == head + (Escape(c.uuid) + SUFFIX);
  }

  /** Reading undoes writing, layer by layer, for every position, whatever its id contains. */
  lemma LayersRoundTrip(c: NoteCursor)
    ensures Parse(Decode(FromBase64Url(EncodeNoteCursor(c)))) == Some(c)
  {
    hide Parse, Stringify, Decode, Encode, Sextets;
    LettersRead(Sextets(Encode(Stringify(c))));
    SextetsJoin(Encode(Stringify(c)));
    RoundTrip(Stringify(c));
    StringifyIsWellFormed(c);
    StringifyParses(c);
  }

  /** A position that `decodeNoteCursor` accepts once `encodeNoteCursor` has written it. */
  predicate Encodable(c: NoteCursor)
  {
    0 <= c.updatedAtMs <= 9_007_199_254_740_991 && 1 <= |c.uuid| <= 128 && |EncodeNoteCursor(c)| <= 512
  }

  /** A position survives the round trip if and only if it is one `decodeNoteCursor` accepts and its text is not too long. */
  lemma RoundTripIff(c: NoteCursor)
    requires -MAX_SAFE_INTEGER <= c.updatedAtMs <= MAX_SAFE_INTEGER
    ensures DecodeNoteCursor(EncodeNoteCursor(c)) == Some(c) <==> Encodable(c)
    ensures DecodeNoteCursor(EncodeNoteCursor(c)) in {None, Some(c)}
    ensures |EncodeNoteCursor(c)| == (4 * ByteLen(Stringify(c)) + 2) / 3
  {
    LayersRoundTrip(c);
    EncodedLength(Stringify(c));
    assert |Stringify(c)| > 0;
    hide Parse, Stringify, Decode, Encode;
    assert |EncodeNoteCursor(c)| == (4 * |Encode(Stringify(c))| + 2) / 3;
    NotEmpty(Stringify(c));
  }

  lemma NotEmpty(s: Text)
    requires s != []
    ensures ByteLen(s) > 0
  {
  }

  predicate PrintableAscii(s: Text)
  {
    forall i :: 0 <= i < |s| ==> 0x20 <= s[i] < 0x7F
  }

  lemma {:induction false} AsciiEscape(s: Text)
    requires PrintableAscii(s)
    ensures ByteLen(Escape(s)) <= 2 * |s|
    ensures forall i :: 0 <= i < |Escape(s)| ==> Escape(s)[i] < 0x80
  {
    if s != [] {
      AsciiEscape(s[1..]);
      AsciiLength(EscapeFirst(s));
      ByteLenJoin(EscapeFirst(s), Escape(s[1..]));
    }
  }

  lemma {:induction false} AsciiLength(s: Text)
    requires forall i :: 0 <= i < |s| ==> s[i] < 0x80
    ensures ByteLen(s) == |s|
  {
    if s != [] {
      AsciiLength(s[1..]);
    }
  }

  lemma {:induction false} DigitCount(n: nat, k: nat, bound: nat)
    requires k >= 1 && n < bound && bound == Pow10(k)
    ensures |Digits(n)| <= k
  {
    if n >= 10 {
      DigitCount(n / 10, k - 1, Pow10(k - 1));
    }
  }

  function Pow10(k: nat): nat
  {
    if k == 0 then 1 else 10 * Pow10(k - 1)
  }

  /** With an id of up to 128 printable ASCII characters every cursor fits with room to spare. */
  lemma AsciiCursorsRoundTrip(c: NoteCursor)
    requires 0 <= c.updatedAtMs <= MAX_SAFE_INTEGER && PrintableAscii(c.uuid) && 1 <= |c.uuid| <= MAX_UUID_LENGTH
    ensures |EncodeNoteCursor(c)| <= 388 < MAX_CURSOR_LENGTH
    ensures DecodeNoteCursor(EncodeNoteCursor(c)) == Some(c)
  {
    hide DecodeNoteCursor, EncodeNoteCursor;
    AsciiEscape(c.uuid);
    SixteenDigits(c.updatedAtMs);
    var head := PREFIX + Number(c.updatedAtMs) + MIDDLE;
    AsciiLength(head);
    AsciiLength(SUFFIX);
    ByteLenJoin(Escape(c.uuid), SUFFIX);
    ByteLenJoin(head, Escape(c.uuid) + SUFFIX);
    assert Stringify(c) == head + (Escape(c.uuid) + SUFFIX);
    RoundTripIff(c);
  }

  lemma SixteenDigits(n: nat)
    requires n <= MAX_SAFE_INTEGER
    ensures |Digits(n)| <= 16
  {
    assert Pow10(4) == 10_000;
    assert Pow10(8) == 100_000_000;
    assert Pow10(12) == 1_000_000_000_000;
    assert Pow10(16) == 10_000_000_000_000_000;
    DigitCount(n, 16, Pow10(16));
  }

  // ---- Which texts are cursors ----

  /** One unit of a JSON string and how it may be spelled (section 7 of RFC 8259). */
  predicate JsonUnit(e: Text, u: Unit)
  {
    || (|e| == 1 && u == e[0] && 0x20 <= u && u != '\"' as int && u != '\\' as int)
    || (|e| == 2 && e[0] == '\\' as int && TwoLetters(e[1], u))
    || (|e| == 6 && e[0] == '\\' as int && e[1] == 'u' as int && FourHex(e[2..], u))
  }

  predicate TwoLetters(letter: Unit, u: Unit)
  {
    || (u == letter && (u == '\"' as int || u == '\\' as int || u == '/' as int))
    || (letter == 'b' as int && u == 8) || (letter == 't' as int && u == 9) || (letter == 'n' as int && u == 10)
    || (letter == 'f' as int && u == 12) || (letter == 'r' as int && u == 13)
  }

  predicate FourHex(e: Text, u: Unit)
  {
    && |e| == 4 && HexDigit(e[0], u / 4096) && HexDigit(e[1], u / 256 % 16) && HexDigit(e[2], u / 16 % 16)
    && HexDigit(e[3], u % 16)
  }

  predicate HexDigit(e: Unit, d: int)
  {
    || ('0' as int <= e <= '9' as int && d == e - '0' as int)
    || ('a' as int <= e <= 'f' as int && d == e - 'a' as int + 10)
    || ('A' as int <= e <= 'F' as int && d == e - 'A' as int + 10)
  }

  lemma HexValueIff(e: Unit, d: int)
    ensures HexValue(e) == Some(d) <==> HexDigit(e, d)
  {
  }

  lemma CodeIff(e: Text, u: Unit)
    requires |e| == 4
    ensures FourHex(e, u) <==>
            && HexValue(e[0]).Some? && HexValue(e[1]).Some? && HexValue(e[2]).Some? && HexValue(e[3]).Some?
            && Code(HexValue(e[0]).value, HexValue(e[1]).value, HexValue(e[2]).value, HexValue(e[3]).value) == Some((u, 6))
  {
    HexDigits(u);
    hide HexValue;
    HexValueIff(e[0], u / 4096);
    HexValueIff(e[1], u / 256 % 16);
    HexValueIff(e[2], u / 16 % 16);
    HexValueIff(e[3], u % 16);
    if HexValue(e[0]).Some? && HexValue(e[1]).Some? && HexValue(e[2]).Some? && HexValue(e[3]).Some? {
      var a, b, c, d := HexValue(e[0]).value, HexValue(e[1]).value, HexValue(e[2]).value, HexValue(e[3]).value;
      HexValueIff(e[0], a);
      HexValueIff(e[1], b);
      HexValueIff(e[2], c);
      HexValueIff(e[3], d);
      if Code(a, b, c, d) == Some((u, 6)) {
        FourDigits(a, b, c, d, u);
      }
    }
  }

  lemma FourDigits(a: int, b: int, c: int, d: int, u: Unit)
    requires 0 <= a < 16 && 0 <= b < 16 && 0 <= c < 16 && 0 <= d < 16 && u == a * 4096 + b * 256 + c * 16 + d
    ensures u / 4096 == a && u / 256 % 16 == b && u / 16 % 16 == c && u % 16 == d
  {
    assert u / 16 == a * 256 + b * 16 + c && u / 256 == a * 16 + b;
  }

  /** The reader of one unit accepts exactly the spellings. */
  lemma UnescapeIff(s: Text, u: Unit, n: nat)
    requires s != []
    ensures UnescapeFirst(s) == Some((u, n)) <==> 1 <= n <= |s| && JsonUnit(s[..n], u)
  {
    hide HexValue, Code, FourHex;
    if |s| >= 6 {
      CodeIff(s[2..6], u);
      assert s[..6][2..] == s[2..6];
    }
  }

  predicate IsDecimal(digits: Text)
  {
    && digits != [] && (forall i :: 0 <= i < |digits| ==> '0' as int <= digits[i] <= '9' as int)
    && (|digits| > 1 ==> digits[0] != '0' as int)
  }

  predicate IsNumberText(s: Text, n: int)
  {
    var negative := s != [] && s[0] == '-' as int;
    var digits := if negative then s[1..] else s;
    && IsDecimal(digits)
    && n == if negative then -Value(digits) else Value(digits)
  }

  predicate IsStringText(e: Text, s: Text)
    decreases |s|
  {
    if s == [] then e == []
    else exists n :: 1 <= n <= |e| && JsonUnit(e[..n], s[0]) && IsStringText(e[n..], s[1..])
  }

  /** A JSON text of an object with just the version, the time and the id, in this order and without spaces. */
  ghost predicate IsCursorText(text: Text, c: NoteCursor)
  {
    exists number, body :: IsCursorTextWith(text, c, number, body)
  }

  ghost predicate IsCursorTextWith(text: Text, c: NoteCursor, number: Text, body: Text)
  {
    && text == PREFIX + number + MIDDLE + body + SUFFIX
    && Spells(PREFIX, "{\"v\":1,\"t\":") && Spells(MIDDLE, ",\"u\":\"") && Spells(SUFFIX, "\"}")
    && IsNumberText(number, c.updatedAtMs) && IsStringText(body, c.uuid)
  }

  lemma {:induction false} DigitsCounted(s: Text)
    ensures forall i :: 0 <= i < CountDigits(s) ==> IsDigit(s[i])
    ensures CountDigits(s) < |s| ==> !IsDigit(s[CountDigits(s)])
  {
    if s != [] && IsDigit(s[0]) {
      DigitsCounted(s[1..]);
    }
  }

  lemma NumberAccepted(number: Text, n: int, after: Text)
    requires IsNumberText(number, n) && (after == [] || !IsDigit(after[0]))
    ensures ParseNumber(number + after) == Some((n, after))
  {
    hide Value, CountDigits;
    var s := number + after;
    var negative := number[0] == 0x2D;
    assert s[0] == number[0];
    var digits := if negative then number[1..] else number;
    assert IsDecimal(digits);
    AllDigits(digits, after);
    var t := if negative then s[1..] else s;
    assert t == digits + after;
    assert t[..|digits|] == digits && t[|digits|..] == after && t[0] == digits[0];
  }

  lemma NumberFound(s: Text) returns (k: nat)
    requires ParseNumber(s).Some?
    ensures k <= |s| && ParseNumber(s).value.1 == s[k..]
    ensures IsNumberText(s[..k], ParseNumber(s).value.0)
  {
    hide Value, CountDigits;
    var negative := s != [] && s[0] == 0x2D;
    var t := if negative then s[1..] else s;
    var d := CountDigits(t);
    DigitsCounted(t);
    k := if negative then d + 1 else d;
    var number := s[..k];
    assert s[k..] == t[d..];
    assert number[0] == s[0] && t[..d] == if negative then number[1..] else number;
    assert IsDecimal(t[..d]);
  }

  lemma {:induction false} StringReadBack(e: Text, s: Text, after: Text)
    requires IsStringText(e, s)
    ensures ParseString(e + [QUOTE] + after) == Some((s, after))
    decreases |s|
  {
    hide ParseString, JsonUnit;
    var text := e + [QUOTE] + after;
    if s == [] {
      StringEnds(after);
      assert text == [QUOTE] + after;
    } else {
      var n :| 1 <= n <= |e| && JsonUnit(e[..n], s[0]) && IsStringText(e[n..], s[1..]);
      StringReadBack(e[n..], s[1..], after);
      assert text[..n] == e[..n] && text[n..] == e[n..] + [QUOTE] + after;
      NextUnit(text, s[0], n);
      assert s == [s[0]] + s[1..];
    }
  }

  lemma StringEnds(after: Text)
    ensures ParseString([QUOTE] + after) == Some(([], after))
  {
    assert ([QUOTE] + after)[1..] == after;
  }

  lemma NextUnit(text: Text, u: Unit, n: nat)
    requires 1 <= n <= |text| && JsonUnit(text[..n], u)
    ensures text[0] != QUOTE
    ensures ParseString(text[n..]).Some? ==>
              ParseString(text) == Some(([u] + ParseString(text[n..]).value.0, ParseString(text[n..]).value.1))
  {
    hide UnescapeFirst;
    UnescapeIff(text, u, n);
    assert text[..n][0] == text[0];
  }

  lemma {:induction false} StringFound(text: Text)
    requires ParseString(text).Some?
    ensures var (s, after) := ParseString(text).value;
            exists e :: text == e + [QUOTE] + after && IsStringText(e, s)
    decreases |text|
  {
    hide UnescapeFirst, JsonUnit, IsStringText;
    var (s, after) := ParseString(text).value;
    if text[0] == QUOTE {
      assert text == [] + [QUOTE] + after;
      NoString();
    } else {
      var (u, n) := UnescapeFirst(text).value;
      StringFound(text[n..]);
      var rest :| text[n..] == rest + [QUOTE] + after && IsStringText(rest, s[1..]);
      UnescapeIff(text, u, n);
      OneUnitMore(text[..n], rest, u, s[1..]);
      assert s == [u] + s[1..];
      assert text == (text[..n] + rest) + [QUOTE] + after;
    }
  }

  lemma NoString()
    ensures IsStringText([], [])
  {
  }

  lemma OneUnitMore(first: Text, rest: Text, u: Unit, s: Text)
    requires first != [] && JsonUnit(first, u) && IsStringText(rest, s)
    ensures IsStringText(first + rest, [u] + s)
  {
    hide JsonUnit;
    var e, n := first + rest, |first|;
    assert e[..n] == first && e[n..] == rest && ([u] + s)[1..] == s;
  }

  /** The reader accepts exactly these texts. */
  lemma ParseIff(text: Text, c: NoteCursor)
    ensures Parse(text) == Some(c) <==> IsCursorText(text, c)
  {
    if Parse(text) == Some(c) {
      ParseFinds(text, c);
    }
    if number, body :| IsCursorTextWith(text, c, number, body) {
      ParseAccepts(text, c, number, body);
    }
  }

  lemma ParseAccepts(text: Text, c: NoteCursor, number: Text, body: Text)
    requires IsCursorTextWith(text, c, number, body)
    ensures Parse(text) == Some(c)
  {
    hide ParseNumber, ParseString, IsNumberText, IsStringText;
    var tail := MIDDLE + (body + SUFFIX);
    assert text == PREFIX + (number + tail) && text[|PREFIX|..] == number + tail;
    assert (number + tail)[..|number|] == number && (number + tail)[|number|..] == tail;
    NumberAccepted(number, c.updatedAtMs, tail);
    assert tail[|MIDDLE|..] == body + SUFFIX && SUFFIX == [QUOTE] + SUFFIX[1..];
    StringReadBack(body, c.uuid, SUFFIX[1..]);
    assert body + SUFFIX == body + [QUOTE] + SUFFIX[1..];
  }

  lemma ParseFinds(text: Text, c: NoteCursor)
    requires Parse(text) == Some(c)
    ensures IsCursorText(text, c)
  {
    hide *;
    var s, rest, t := ParseSteps(text, c);
    var k := NumberFound(s);
    StringFound(t);
    SuffixIs();
    var body :| t == body + [QUOTE] + SUFFIX[1..] && IsStringText(body, c.uuid);
    assert t == body + SUFFIX && s == s[..k] + s[k..];
    CursorFound(text, c, s[..k], body);
  }

  lemma ParseSteps(text: Text, c: NoteCursor) returns (s: Text, rest: Text, t: Text)
    requires Parse(text) == Some(c)
    ensures text == PREFIX + s && ParseNumber(s) == Some((c.updatedAtMs, rest))
    ensures rest == MIDDLE + t && ParseString(t) == Some((c.uuid, SUFFIX[1..]))
  {
    hide ParseNumber, ParseString, PREFIX, MIDDLE;
    s := text[|PREFIX|..];
    rest := ParseNumber(s).value.1;
    t := rest[|MIDDLE|..];
  }

  lemma CursorFound(text: Text, c: NoteCursor, number: Text, body: Text)
    requires text == PREFIX + (number + (MIDDLE + (body + SUFFIX)))
    requires IsNumberText(number, c.updatedAtMs) && IsStringText(body, c.uuid)
    ensures IsCursorText(text, c)
  {
    ConstantsSpell();
    hide IsNumberText, IsStringText, PREFIX, MIDDLE, SUFFIX, Spells;
    PartsJoin(PREFIX, number, MIDDLE, body, SUFFIX);
    assert IsCursorTextWith(text, c, number, body);
  }

  lemma SuffixIs()
    ensures SUFFIX == [QUOTE] + SUFFIX[1..]
  {
  }

  lemma ConstantsSpell()
    ensures Spells(PREFIX, "{\"v\":1,\"t\":") && Spells(MIDDLE, ",\"u\":\"") && Spells(SUFFIX, "\"}")
  {
  }

  lemma PartsJoin(a: Text, b: Text, c: Text, d: Text, e: Text)
    ensures a + (b + (c + (d + e))) == a + b + c + d + e
  {
  }

  /** Whatever text a caller sends: it is accepted exactly if it is not too long and decodes to a text of a position in bounds. */
  lemma DecodeIff(value: Text, c: NoteCursor)
    ensures DecodeNoteCursor(value) == Some(c) <==>
            && 1 <= |value| <= 512 && IsCursorText(Decode(FromBase64Url(value)), c)
            && 0 <= c.updatedAtMs <= 9_007_199_254_740_991 && 1 <= |c.uuid| <= 128
  {
    hide Parse, IsCursorText, Decode, FromBase64Url;
    ParseIff(Decode(FromBase64Url(value)), c);
  }

  /** Reading base64url: both alphabets are understood. */
  lemma LetterValueIff(u: Unit, d: nat)
    requires d < 64
    ensures LetterValue(u) == Some(d) <==> u == Letter(d) || (d == 62 && u == '+' as int) || (d == 63 && u == '/' as int)
  {
  }

  lemma ReadFirst(s: Text)
    requires s != [] && s[0] != 0x3D
    ensures ReadLetters(s) == (match LetterValue(s[0]) case None => [] case Some(d) => [d]) + ReadLetters(s[1..])
  {
    hide LetterValue;
  }

  /** It stops at padding and skips whatever is no letter. */
  lemma {:induction false} LettersSkipped(a: Text, u: Unit, b: Text)
    requires 0x3D !in a && LetterValue(u) == None
    ensures ReadLetters(a + [u] + b) == ReadLetters(a) + (if u == '=' as int then [] else ReadLetters(b))
  {
    hide LetterValue;
    var text := a + [u] + b;
    if a == [] {
      assert text == [u] + b && text[1..] == b;
    } else {
      LettersSkipped(a[1..], u, b);
      assert text[0] == a[0] && text[1..] == a[1..] + [u] + b;
      ReadFirst(text);
      ReadFirst(a);
    }
  }

  /** The JSON text of the note `a` at time zero. */
  lemma KnownText()
    ensures Spells(Stringify(NoteCursor(0, [0x61])), "{\"v\":1,\"t\":0,\"u\":\"a\"}")
  {
    assert Escape([0x61]) == [0x61] && Number(0) == [0x30];
  }

  /** One millisecond before 1970: a cursor that is written but not accepted back. */
  lemma EarlyCursorRejected()
    ensures DecodeNoteCursor(EncodeNoteCursor(NoteCursor(-1, [0x61]))) == None
  {
    RoundTripIff(NoteCursor(-1, [0x61]));
  }
}
