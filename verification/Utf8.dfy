/**
 JavaScript strings and their UTF-8 bytes (section 3 of RFC 3629). Strings are sequences of UTF-16 units, so
 they may contain surrogates without a partner; encoding writes U+FFFD for those, and decoding writes one
 U+FFFD for each maximal malformed run, as `Buffer` does.
 */
module Utf8 {

  type Unit = u: int | 0 <= u < 0x1_0000
  type Text = seq<Unit>
  type Byte = b: int | 0 <= b < 0x100
  type Bytes = seq<Byte>
  type Scalar = c: int | (0 <= c < 0xD800) || (0xE000 <= c < 0x11_0000)

  const REPLACEMENT: Unit := 0xFFFD

  /** `text` in ASCII, unit by unit */
  predicate Spells(units: Text, text: string)
  {
    |units| == |text| && forall i :: 0 <= i < |text| ==> units[i] == text[i] as int
  }

  predicate IsHigh(u: Unit) { 0xD800 <= u < 0xDC00 }

  predicate IsLow(u: Unit) { 0xDC00 <= u < 0xE000 }

  predicate IsPair(s: Text)
  {
    |s| >= 2 && IsHigh(s[0]) && IsLow(s[1])
  }

  /** How many units the first character of a string takes. */
  function CharLen(s: Text): (n: nat)
    requires s != []
    ensures 1 <= n <= 2 && n <= |s|
  {
    if IsPair(s) then 2 else 1
  }

  function FirstScalar(s: Text): Scalar
    requires s != []
  {
    if IsPair(s) then 0x1_0000 + (s[0] - 0xD800) * 0x400 + (s[1] - 0xDC00)
    else if IsHigh(s[0]) || IsLow(s[0]) then REPLACEMENT
    else s[0]
  }

  function Units(c: Scalar): (s: Text)
    ensures 1 <= |s| <= 2
  {
    if c < 0x1_0000 then [c]
    else [0xD800 + (c - 0x1_0000) / 0x400, 0xDC00 + (c - 0x1_0000) % 0x400]
  }

  function Width(c: Scalar): (n: nat)
    ensures 1 <= n <= 4
  {
    if c < 0x80 then 1 else if c < 0x800 then 2 else if c < 0x1_0000 then 3 else 4
  }

  function EncodeScalar(c: Scalar): (b: Bytes)
    ensures |b| == Width(c)
  {
    if c < 0x80 then [c]
    else if c < 0x800 then [0xC0 + c / 64, 0x80 + c % 64]
    else if c < 0x1_0000 then [0xE0 + c / 4096, 0x80 + c / 64 % 64, 0x80 + c % 64]
    else [0xF0 + c / 262144, 0x80 + c / 4096 % 64, 0x80 + c / 64 % 64, 0x80 + c % 64]
  }

  /** `Buffer.from(s, "utf8")` */
  function Encode(s: Text): Bytes
  {
    if s == [] then [] else EncodeScalar(FirstScalar(s)) + Encode(s[CharLen(s)..])
  }

  /** `Buffer.byteLength(s, "utf8")` */
  function ByteLen(s: Text): nat
  {
    if s == [] then 0 else Width(FirstScalar(s)) + ByteLen(s[CharLen(s)..])
  }

  // ---- Decoding ----

  predicate IsTail(b: Byte) { 0x80 <= b < 0xC0 }

  /** The number of bytes a lead byte announces; 0 if it cannot start a character. */
  function Announced(lead: Byte): (n: nat)
    ensures n <= 4
  {
    if lead < 0x80 then 1
    else if 0xC2 <= lead < 0xE0 then 2
    else if 0xE0 <= lead < 0xF0 then 3
    else if 0xF0 <= lead < 0xF5 then 4
    else 0
  }

  /** The second byte is restricted so that overlong forms, surrogates and values past U+10FFFF are malformed. */
  predicate IsSecond(lead: Byte, b: Byte)
  {
    && IsTail(b)
    && (lead == 0xE0 ==> 0xA0 <= b)
    && (lead == 0xED ==> b < 0xA0)
    && (lead == 0xF0 ==> 0x90 <= b)
    && (lead == 0xF4 ==> b < 0x90)
  }

  /** The length of the longest well-formed beginning of a character at the front of `b`, at least 1. */
  function RunLength(b: Bytes): (n: nat)
    requires b != []
    ensures 1 <= n <= |b|
  {
    if Announced(b[0]) < 2 || |b| < 2 || !IsSecond(b[0], b[1]) then 1
    else if Announced(b[0]) == 2 || |b| < 3 || !IsTail(b[2]) then 2
    else if Announced(b[0]) == 3 || |b| < 4 || !IsTail(b[3]) then 3
    else 4
  }

  function DecodeFirst(b: Bytes): Scalar
    requires b != []
  {
    var n := RunLength(b);
    if n != Announced(b[0]) then REPLACEMENT
    else if n == 1 then b[0]
    else if n == 2 then Low(b[0], 0xC0) * 64 + Low(b[1], 0x80)
    else if n == 3 then Low(b[0], 0xE0) * 4096 + Low(b[1], 0x80) * 64 + Low(b[2], 0x80)
    else Low(b[0], 0xF0) * 262144 + Low(b[1], 0x80) * 4096 + Low(b[2], 0x80) * 64 + Low(b[3], 0x80)
  }

  function Low(b: Byte, mark: int): int
  {
    b - mark
  }

  /** `Buffer.from(b).toString("utf8")` */
  function Decode(b: Bytes): Text
  {
    if b == [] then [] else Units(DecodeFirst(b)) + Decode(b[RunLength(b)..])
  }

  // ---- Decoding what was encoded, possibly cut short ----

  lemma EncodedLength(s: Text)
    ensures |Encode(s)| == ByteLen(s)
  {
    if s != [] {
      EncodedLength(s[CharLen(s)..]);
    }
  }

  lemma Digits(c: int)
    requires 0 <= c
    ensures c == c / 4096 * 4096 + c / 64 % 64 * 64 + c % 64
    ensures c / 4096 == c / 262144 * 64 + c / 4096 % 64
  {
    assert c / 4096 == c / 64 / 64;
    assert c / 262144 == c / 4096 / 64;
  }

  lemma FirstRoundTrip(c: Scalar, rest: Bytes)
    ensures RunLength(EncodeScalar(c) + rest) == Width(c)
    ensures DecodeFirst(EncodeScalar(c) + rest) == c
  {
    var e := EncodeScalar(c);
    var b := e + rest;
    assert forall i :: 0 <= i < |e| ==> b[i] == e[i];
    LeadByte(c);
    assert RunLength(b) == Width(c);
    Digits(c);
  }

  lemma LeadByte(c: Scalar)
    ensures Announced(EncodeScalar(c)[0]) == Width(c)
    ensures Width(c) >= 2 ==> IsSecond(EncodeScalar(c)[0], EncodeScalar(c)[1])
    ensures Width(c) >= 3 ==> IsTail(EncodeScalar(c)[2])
    ensures Width(c) >= 4 ==> IsTail(EncodeScalar(c)[3])
  {
  }

  lemma FirstCut(c: Scalar, n: nat)
    requires 0 < n < Width(c)
    ensures RunLength(EncodeScalar(c)[..n]) == n
    ensures DecodeFirst(EncodeScalar(c)[..n]) == REPLACEMENT
  {
    var b := EncodeScalar(c)[..n];
    assert forall i :: 0 <= i < n ==> b[i] == EncodeScalar(c)[i];
  }

  // ---- Decoding any bytes ----

  /** What is decoded is either a replacement or exactly the bytes of a character: no overlong forms, no surrogates. */
  lemma FirstIsCharacter(b: Bytes)
    requires b != []
    ensures DecodeFirst(b) == REPLACEMENT || EncodeScalar(DecodeFirst(b)) == b[..RunLength(b)]
    ensures RunLength(b) == Announced(b[0]) ==> EncodeScalar(DecodeFirst(b)) == b[..RunLength(b)]
  {
    var n, c := RunLength(b), DecodeFirst(b);
    if n == Announced(b[0]) {
      if n == 2 {
        TwoBytes(b[0], b[1]);
      } else if n == 3 {
        ThreeBytes(b[0], b[1], b[2]);
      } else if n == 4 {
        FourBytes(b[0], b[1], b[2], b[3]);
      }
    }
  }

  lemma TwoBytes(x: Byte, y: Byte)
    requires 0xC2 <= x < 0xE0 && IsTail(y)
    ensures var c := (x - 0xC0) * 64 + (y - 0x80); 0x80 <= c < 0x800 && EncodeScalar(c) == [x, y]
  {
  }

  lemma ThreeBytes(x: Byte, y: Byte, z: Byte)
    requires 0xE0 <= x < 0xF0 && IsSecond(x, y) && IsTail(z)
    ensures var c := (x - 0xE0) * 4096 + (y - 0x80) * 64 + (z - 0x80);
            0x800 <= c < 0x1_0000 && !(0xD800 <= c < 0xE000) && EncodeScalar(c) == [x, y, z]
  {
    var c := (x - 0xE0) * 4096 + (y - 0x80) * 64 + (z - 0x80);
    assert c / 64 == (x - 0xE0) * 64 + (y - 0x80);
  }

  lemma FourBytes(x: Byte, y: Byte, z: Byte, w: Byte)
    requires 0xF0 <= x < 0xF5 && IsSecond(x, y) && IsTail(z) && IsTail(w)
    ensures var c := (x - 0xF0) * 262144 + (y - 0x80) * 4096 + (z - 0x80) * 64 + (w - 0x80);
            0x1_0000 <= c < 0x11_0000 && EncodeScalar(c) == [x, y, z, w]
  {
    var c := (x - 0xF0) * 262144 + (y - 0x80) * 4096 + (z - 0x80) * 64 + (w - 0x80);
    assert c / 64 == (x - 0xF0) * 4096 + (y - 0x80) * 64 + (z - 0x80);
    assert c / 4096 == (x - 0xF0) * 64 + (y - 0x80);
  }

  ghost predicate BeginsCharacter(b: Bytes)
  {
    exists c: Scalar :: b <= EncodeScalar(c)
  }

  /** One replacement stands for the longest beginning of a character, or for a single byte that begins none. */
  lemma RunIsLongest(b: Bytes, k: nat)
    requires b != [] && RunLength(b) < k <= |b|
    ensures !BeginsCharacter(b[..k])
  {
    if c: Scalar :| b[..k] <= EncodeScalar(c) {
      var e := EncodeScalar(c);
      LeadByte(c);
      assert forall i :: 0 <= i < k ==> b[..k][i] == e[i] && b[i] == e[i];
    }
  }

  lemma RunBegins(b: Bytes)
    requires b != [] && RunLength(b) > 1
    ensures BeginsCharacter(b[..RunLength(b)])
  {
    var n := RunLength(b);
    var z: Byte, w: Byte := if n > 2 then b[2] else 0x80, if n > 3 then b[3] else 0x80;
    var whole := [b[0], b[1], z, w][..Announced(b[0])];
    FirstIsCharacter(whole);
    assert b[..n] <= whole;
  }

  /** What survives when a string is cut to its first `n` UTF-8 bytes and read back. */
  function Clip(s: Text, n: nat): Text
  {
    if s == [] || n == 0 then []
    else if n < Width(FirstScalar(s)) then [REPLACEMENT]
    else Units(FirstScalar(s)) + Clip(s[CharLen(s)..], n - Width(FirstScalar(s)))
  }

  lemma {:induction false} DecodeClips(s: Text, n: nat)
    requires n <= |Encode(s)|
    ensures Decode(Encode(s)[..n]) == Clip(s, n)
  {
    if s != [] && n > 0 {
      var c, rest := FirstScalar(s), s[CharLen(s)..];
      var b := Encode(s)[..n];
      if n < Width(c) {
        assert b == EncodeScalar(c)[..n];
        FirstCut(c, n);
        assert b[n..] == [];
      } else {
        var tail := Encode(rest)[..n - Width(c)];
        assert b == EncodeScalar(c) + tail;
        FirstRoundTrip(c, tail);
        assert b[Width(c)..] == tail;
        DecodeClips(rest, n - Width(c));
      }
    }
  }

  /** The string with every surrogate that lacks its partner replaced. */
  function Repair(s: Text): Text
  {
    if s == [] then [] else Units(FirstScalar(s)) + Repair(s[CharLen(s)..])
  }

  lemma {:induction false} ClipAll(s: Text, n: nat)
    requires ByteLen(s) <= n
    ensures Clip(s, n) == Repair(s)
  {
    if s != [] {
      ClipAll(s[CharLen(s)..], n - Width(FirstScalar(s)));
    }
  }

  /** Encoding and decoding give back the string, up to the repair of lone surrogates. */
  lemma RoundTrip(s: Text)
    ensures Decode(Encode(s)) == Repair(s)
  {
    EncodedLength(s);
    assert Encode(s)[..|Encode(s)|] == Encode(s);
    DecodeClips(s, |Encode(s)|);
    ClipAll(s, |Encode(s)|);
  }

  /** Unit by unit: a high surrogate with no low one behind it and a low one with no high one before it are replaced. */
  lemma {:induction false} RepairAt(s: Text, i: nat)
    requires i < |s|
    ensures |Repair(s)| == |s|
    ensures Repair(s)[i] ==
            if IsHigh(s[i]) && !(i + 1 < |s| && IsLow(s[i + 1])) then REPLACEMENT
            else if IsLow(s[i]) && !(i > 0 && IsHigh(s[i - 1])) then REPLACEMENT
            else s[i]
  {
    var n := CharLen(s);
    if i >= n {
      RepairAt(s[n..], i - n);
    } else if s[n..] != [] {
      RepairAt(s[n..], 0);
    }
  }

  /** The examples of section 7 of RFC 3629: "A", not identical to, Alpha, "."; and the ideograph U+233B4. */
  lemma KnownBytes()
    ensures Encode([0x41, 0x2262, 0x391, 0x2E]) == [0x41, 0xE2, 0x89, 0xA2, 0xCE, 0x91, 0x2E]
    ensures Encode([0xD84C, 0xDFB4]) == [0xF0, 0xA3, 0x8E, 0xB4]
  {
    hide Encode;
    EncodeNothing();
    var s1: Text, s2: Text, s3: Text := [0x2E], [0x391, 0x2E], [0x2262, 0x391, 0x2E];
    EncodeOne(0x2E, []);
    EncodeOne(0x391, s1);
    EncodeOne(0x2262, s2);
    EncodeOne(0x41, s3);
    assert [0x2E] + [] == s1 && [0x391] + s1 == s2 && [0x2262] + s2 == s3 && [0x41] + s3 == [0x41, 0x2262, 0x391, 0x2E];
    hide EncodeScalar;
    EncodeExamples();
    EncodeAstral();
  }

  lemma EncodeExamples()
    ensures EncodeScalar(0x41) == [0x41] && EncodeScalar(0x2262) == [0xE2, 0x89, 0xA2]
    ensures EncodeScalar(0x391) == [0xCE, 0x91] && EncodeScalar(0x2E) == [0x2E]
    ensures EncodeScalar(0x233B4) == [0xF0, 0xA3, 0x8E, 0xB4]
  {
  }

  lemma EncodeNothing()
    ensures Encode([]) == []
  {
  }

  lemma EncodeOne(u: Unit, rest: Text)
    requires !IsHigh(u) && !IsLow(u)
    ensures Encode([u] + rest) == EncodeScalar(u) + Encode(rest)
  {
    assert ([u] + rest)[1..] == rest;
  }

  lemma EncodeAstral()
    ensures Encode([0xD84C, 0xDFB4]) == EncodeScalar(0x233B4)
  {
    assert [0xD84C, 0xDFB4][2..] == [];
  }

  // ---- Splitting strings ----

  /** Joining two strings splits no character, unless a high surrogate meets a low one at the seam. */
  predicate CleanSeam(a: Text, b: Text)
  {
    a == [] || b == [] || !IsHigh(a[|a| - 1]) || !IsLow(b[0])
  }

  lemma FirstOfJoin(a: Text, b: Text)
    requires a != [] && (|a| == 1 ==> CleanSeam(a, b))
    ensures CharLen(a + b) == CharLen(a) && FirstScalar(a + b) == FirstScalar(a)
    ensures (a + b)[CharLen(a)..] == a[CharLen(a)..] + b
  {
    if |a| >= 2 {
      assert (a + b)[1] == a[1];
    } else if b != [] {
      assert (a + b)[1] == b[0];
    }
  }

  lemma FirstOfPrefix(s: Text, k: nat)
    requires s != [] && CharLen(s) <= k <= |s|
    ensures CharLen(s[..k]) == CharLen(s) && FirstScalar(s[..k]) == FirstScalar(s)
    ensures s[..k][CharLen(s)..] == s[CharLen(s)..][..k - CharLen(s)]
    ensures s[k..] == s[CharLen(s)..][k - CharLen(s)..]
  {
  }

  lemma {:induction false} ByteLenJoin(a: Text, b: Text)
    requires CleanSeam(a, b)
    ensures ByteLen(a + b) == ByteLen(a) + ByteLen(b)
  {
    if a == [] {
      assert a + b == b;
    } else {
      FirstOfJoin(a, b);
      ByteLenJoin(a[CharLen(a)..], b);
    }
  }

  lemma {:induction false} RepairJoin(a: Text, b: Text)
    requires CleanSeam(a, b)
    ensures Repair(a + b) == Repair(a) + Repair(b)
  {
    if a == [] {
      assert a + b == b;
    } else {
      FirstOfJoin(a, b);
      RepairJoin(a[CharLen(a)..], b);
      assert Repair(a + b) == Repair(a) + Repair(b);
    }
  }

  /** Text never shrinks in bytes when more is appended, even across a split surrogate pair. */
  lemma {:induction false} ByteLenGrows(a: Text, b: Text)
    ensures ByteLen(a) <= ByteLen(a + b)
    ensures b != [] ==> ByteLen(a) < ByteLen(a + b)
  {
    if a == [] {
      assert a + b == b;
    } else if |a| == 1 && !CleanSeam(a, b) {
      assert IsPair(a + b) && (a + b)[2..] == b[1..];
    } else {
      FirstOfJoin(a, b);
      ByteLenGrows(a[CharLen(a)..], b);
    }
  }

  lemma RepairUnits(c: Scalar)
    ensures FirstScalar(Units(c)) == c && CharLen(Units(c)) == |Units(c)|
    ensures forall rest: Text :: (rest == [] || c >= 0x1_0000 || !IsHigh(c)) ==>
      CharLen(Units(c) + rest) == |Units(c)| && FirstScalar(Units(c) + rest) == c
  {
    forall rest: Text
      ensures CharLen(Units(c) + rest) == |Units(c)| && FirstScalar(Units(c) + rest) == c
    {
      var u := Units(c) + rest;
      assert u[0] == Units(c)[0];
      if c >= 0x1_0000 {
        assert u[1] == Units(c)[1];
      }
    }
  }

  lemma {:induction false} RepairKeepsBytes(s: Text)
    ensures ByteLen(Repair(s)) == ByteLen(s) && |Repair(s)| == |s|
    ensures s != [] ==> !IsHigh(Repair(s)[|s| - 1])
  {
    if s != [] {
      var c, rest := FirstScalar(s), s[CharLen(s)..];
      RepairKeepsBytes(rest);
      RepairUnits(c);
      assert (Units(c) + Repair(rest))[|Units(c)|..] == Repair(rest);
      if rest != [] {
        assert Repair(s)[|s| - 1] == Repair(rest)[|rest| - 1];
      }
    }
  }
}
