/** UTF-16 escapes in JSON strings and the UTF-8 they stand for. */
module Utf {
  import opened Bytes

  const BACKSLASH: byte := '\\' as int
  const LOWER_U: byte := 'u' as int

  /** parse_hex4: four hex digits, or 0 as soon as one is not. */
  function Hex4(d: seq<byte>): (v: nat)
    requires |d| == 4
    ensures v < 0x1_0000
  {
    if forall c <- d :: IsHexDigit(c) then
      assert d[0] in d && d[1] in d && d[2] in d && d[3] in d;
      ((HexDigit(d[0]) * 16 + HexDigit(d[1])) * 16 + HexDigit(d[2])) * 16 + HexDigit(d[3])
    else 0
  }

  method ParseHex4(s: seq<byte>, at: nat) returns (h: nat)
    requires at + 4 <= |s|
    ensures h == Hex4(s[at..at + 4])
  {
    h := 0;
    ghost var d := s[at..at + 4];
    for i := 0 to 4
      invariant forall j :: 0 <= j < i ==> IsHexDigit(d[j])
      invariant i == 0 ==> h == 0
      invariant i == 1 ==> h == HexDigit(d[0]) * 16
      invariant i == 2 ==> h == (HexDigit(d[0]) * 16 + HexDigit(d[1])) * 16
      invariant i == 3 ==> h == ((HexDigit(d[0]) * 16 + HexDigit(d[1])) * 16 + HexDigit(d[2])) * 16
      invariant i == 4 ==> h == ((HexDigit(d[0]) * 16 + HexDigit(d[1])) * 16 + HexDigit(d[2])) * 16 + HexDigit(d[3])
    {
      assert s[at + i] == d[i];
      if !IsHexDigit(s[at + i]) {
        assert d[i] in d;
        return 0;
      }
      h := h + HexDigit(s[at + i]);
      if i < 3 { h := h * 16; }
    }
    assert forall c <- d :: IsHexDigit(c);
  }

  // ---------------------------------------------------------------- UTF-8

  predicate IsScalar(v: nat) { v < 0xD800 || 0xE000 <= v <= 0x10FFFF }

  /** The table of section 3 of RFC 3629. */
  function Encode(v: nat): (out: seq<byte>)
    requires v <= 0x10FFFF
    ensures 1 <= |out| <= 4 && (v < 0x1_0000 ==> |out| <= 3)
  {
    if v < 0x80 then [v]
    else if v < 0x800 then [0xC0 + v / 0x40, 0x80 + v % 0x40]
    else if v < 0x1_0000 then [0xE0 + v / 0x1000, 0x80 + v / 0x40 % 0x40, 0x80 + v % 0x40]
    else [0xF0 + v / 0x4_0000, 0x80 + v / 0x1000 % 0x40, 0x80 + v / 0x40 % 0x40, 0x80 + v % 0x40]
  }

  predicate IsTail(c: byte) { 0x80 <= c < 0xC0 }

  datatype Decoded = Scalar(value: nat, length: nat) | IllFormed

  /** A decoder that accepts exactly the well-formed sequences of section 4 of RFC 3629. */
  function Decode(s: seq<byte>): Decoded {
    if s == [] then IllFormed
    else if s[0] < 0x80 then Scalar(s[0], 1)
    else if 0xC2 <= s[0] < 0xE0 && |s| >= 2 && IsTail(s[1]) then
      Scalar((s[0] as int - 0xC0) * 0x40 + (s[1] as int - 0x80), 2)
    else if 0xE0 <= s[0] < 0xF0 && |s| >= 3 && IsTail(s[1]) && IsTail(s[2]) then
      var v := (s[0] as int - 0xE0) * 0x1000 + (s[1] as int - 0x80) * 0x40 + (s[2] as int - 0x80);
      if v >= 0x800 && IsScalar(v) then Scalar(v, 3) else IllFormed
    else if 0xF0 <= s[0] < 0xF5 && |s| >= 4 && IsTail(s[1]) && IsTail(s[2]) && IsTail(s[3]) then
      var v := (s[0] as int - 0xF0) * 0x4_0000 + (s[1] as int - 0x80) * 0x1000
               + (s[2] as int - 0x80) * 0x40 + (s[3] as int - 0x80);
      if 0x1_0000 <= v <= 0x10FFFF then Scalar(v, 4) else IllFormed
    else IllFormed
  }

  /** The encoding of a scalar value decodes back to it, and nothing else does. */
  lemma DecodeEncode(v: nat, rest: seq<byte>)
    requires IsScalar(v)
    ensures Decode(Encode(v) + rest) == Scalar(v, |Encode(v)|)
  {
    if v >= 0x1_0000 { DecodeFour(v, rest); }
  }

  lemma DecodeFour(v: nat, rest: seq<byte>)
    requires 0x1_0000 <= v <= 0x10FFFF
    ensures Decode(Encode(v) + rest) == Scalar(v, 4) && |Encode(v)| == 4
  {
    FourByteDigits(v);
    var s, e := Encode(v) + rest, Encode(v);
    assert s[0] == e[0] && s[1] == e[1] && s[2] == e[2] && s[3] == e[3];
  }

  lemma FourByteDigits(v: nat)
    requires v < 0x20_0000
    ensures v == v / 0x4_0000 * 0x4_0000 + v / 0x1000 % 0x40 * 0x1000 + v / 0x40 % 0x40 * 0x40 + v % 0x40
  {
    var a, b := v / 0x40, v / 0x1000;
    assert a / 0x40 == b && b / 0x40 == v / 0x4_0000;
    assert v == a * 0x40 + v % 0x40 && a == b * 0x40 + a % 0x40 && b == v / 0x4_0000 * 0x40 + b % 0x40;
  }

  lemma Digits3(a: nat, b: nat, c: nat)
    requires b < 0x40 && c < 0x40
    ensures var v := a * 0x1000 + b * 0x40 + c;
            v / 0x1000 == a && v / 0x40 % 0x40 == b && v % 0x40 == c
  {
    assert (a * 0x1000 + b * 0x40 + c) / 0x40 == a * 0x40 + b;
  }

  lemma Digits4(a: nat, b: nat, c: nat, d: nat)
    requires b < 0x40 && c < 0x40 && d < 0x40
    ensures var v := a * 0x4_0000 + b * 0x1000 + c * 0x40 + d;
            v / 0x4_0000 == a && v / 0x1000 % 0x40 == b && v / 0x40 % 0x40 == c && v % 0x40 == d
  {
    var v := a * 0x4_0000 + b * 0x1000 + c * 0x40 + d;
    assert v / 0x40 == a * 0x1000 + b * 0x40 + c;
    assert v / 0x1000 == a * 0x40 + b;
  }

  lemma EncodeDecode(s: seq<byte>)
    requires Decode(s).Scalar?
    ensures var d := Decode(s);
            IsScalar(d.value) && d.length <= |s| && Encode(d.value) == s[..d.length]
  {
    if s[0] >= 0xF0 {
      Digits4(s[0] - 0xF0, s[1] - 0x80, s[2] - 0x80, s[3] - 0x80);
    } else if s[0] >= 0xE0 {
      Digits3(s[0] - 0xE0, s[1] - 0x80, s[2] - 0x80);
    }
  }

  // ---------------------------------------------------------------- \uXXXX and \uXXXX\uXXXX

  /** length is 0 when the literal is refused. */
  datatype Literal = Literal(length: nat, utf8: seq<byte>)

  function Combine(high: nat, low: nat): nat { 0x1_0000 + high % 0x400 * 0x400 + low % 0x400 }

  /** utf16_literal_to_utf8 at i, with the string's closing quote at end. */
  function Utf16Literal(s: seq<byte>, i: nat, end: nat): (r: Literal)
    requires i <= end <= |s|
    ensures r.length == 0 || r.length == 6 || r.length == 12
    ensures i + r.length <= end
    ensures r.length == 0 ==> r.utf8 == []
    ensures r.length == 6 ==> 1 <= |r.utf8| <= 3
    ensures r.length == 12 ==> |r.utf8| == 4
  {
    if end - i < 6 then Literal(0, [])
    else
      var first := Hex4(s[i + 2..i + 6]);
      if 0xDC00 <= first <= 0xDFFF then Literal(0, [])
      else if 0xD800 <= first <= 0xDBFF then
        if end - i < 12 || s[i + 6] != BACKSLASH || s[i + 7] != LOWER_U then Literal(0, [])
        else
          var second := Hex4(s[i + 8..i + 12]);
          if second < 0xDC00 || second > 0xDFFF then Literal(0, [])
          else Literal(12, Encode(Combine(first, second)))
      else Literal(6, Encode(first))
  }

  /** The bit operations of the C code are the arithmetic used here. */
  lemma BitOperations(c: bv32, high: bv32, low: bv32)
    ensures (c | 0x80) & 0xBF == 0x80 + c % 0x40
    ensures c >> 6 == c / 0x40
    ensures c < 0x80 ==> c & 0x7F == c
    ensures c < 0x20 ==> (c | 0xC0) & 0xFF == 0xC0 + c
    ensures c < 0x10 ==> (c | 0xE0) & 0xFF == 0xE0 + c
    ensures c < 0x08 ==> (c | 0xF0) & 0xFF == 0xF0 + c
    ensures ((high & 0x3FF) << 10) | (low & 0x3FF) == high % 0x400 * 0x400 + low % 0x400
  {
  }

  /** The escape text of a unit: backslash, u and four hex digits of either case. */
  ghost predicate UnitAt(s: seq<byte>, i: nat, unit: nat) {
    && i + 6 <= |s| && s[i] == BACKSLASH && s[i + 1] == LOWER_U
    && (forall c <- s[i + 2..i + 6] :: IsHexDigit(c)) && Hex4(s[i + 2..i + 6]) == unit
  }

  function HighSurrogate(v: nat): nat
    requires v >= 0x1_0000
  {
    0xD800 + (v - 0x1_0000) / 0x400
  }

  function LowSurrogate(v: nat): nat
    requires v >= 0x1_0000
  {
    0xDC00 + (v - 0x1_0000) % 0x400
  }

  lemma SurrogatesCombine(v: nat)
    requires 0x1_0000 <= v <= 0x10FFFF
    ensures 0xD800 <= HighSurrogate(v) <= 0xDBFF && 0xDC00 <= LowSurrogate(v) <= 0xDFFF
    ensures Combine(HighSurrogate(v), LowSurrogate(v)) == v
  {
    var w := v - 0x1_0000;
    assert w / 0x400 < 0x400;
    assert HighSurrogate(v) == 54 * 0x400 + w / 0x400 && LowSurrogate(v) == 55 * 0x400 + w % 0x400;
  }

  /** The escaped form of a scalar value, section 7 of RFC 8259. */
  ghost predicate EscapedAt(s: seq<byte>, i: nat, v: nat) {
    if v < 0x1_0000 then UnitAt(s, i, v) else UnitAt(s, i, HighSurrogate(v)) && UnitAt(s, i + 6, LowSurrogate(v))
  }

  /** Every scalar value's escape consumes its 6 or 12 bytes and yields its UTF-8 encoding. */
  lemma ScalarEscapeDecodes(s: seq<byte>, i: nat, end: nat, v: nat)
    requires IsScalar(v) && EscapedAt(s, i, v)
    requires i + (if v < 0x1_0000 then 6 else 12) <= end <= |s|
    ensures Utf16Literal(s, i, end) == Literal(if v < 0x1_0000 then 6 else 12, Encode(v))
  {
    if v >= 0x1_0000 { SurrogatesCombine(v); }
  }

  ghost predicate LowSurrogateAt(s: seq<byte>, i: nat) {
    exists low :: UnitAt(s, i, low) && 0xDC00 <= low <= 0xDFFF
  }

  ghost predicate IsSurrogate(unit: nat) { 0xD800 <= unit <= 0xDFFF }

  /** With hex digits in its first unit, a literal is accepted just when it is a unit that is no surrogate,
      or a high surrogate directly followed by the escape, hex digits and all, of a low one. */
  lemma AcceptedLiterals(s: seq<byte>, i: nat, end: nat, unit: nat)
    requires UnitAt(s, i, unit) && i + 6 <= end <= |s|
    ensures Utf16Literal(s, i, end).length == 6 <==> !IsSurrogate(unit)
    ensures Utf16Literal(s, i, end).length == 12 <==>
            0xD800 <= unit <= 0xDBFF && i + 12 <= end && LowSurrogateAt(s, i + 6)
  {
    if 0xD800 <= unit <= 0xDBFF && i + 12 <= end && Utf16Literal(s, i, end).length == 12 {
      assert UnitAt(s, i + 6, Hex4(s[i + 8..i + 12]));
    }
  }

  /** Digits that are not hex are not an error: the literal is taken for U+0000. */
  lemma NonHexDigitsBecomeNul(s: seq<byte>, i: nat, end: nat)
    requires i + 6 <= end <= |s| && exists c :: c in s[i + 2..i + 6] && !IsHexDigit(c)
    ensures Utf16Literal(s, i, end) == Literal(6, [NUL])
  {
  }

  /** The encoding loop writes from the last byte to the first, at pos. */
  method WriteUtf8(codepoint: nat, output: array<byte>, pos: nat) returns (next: nat)
    requires codepoint <= 0x10FFFF && pos + |Encode(codepoint)| <= output.Length
    modifies output
    ensures next == pos + |Encode(codepoint)|
    ensures output[pos..next] == Encode(codepoint)
    ensures output[..pos] == old(output[..pos]) && output[next..] == old(output[next..])
  {
    var utf8Length, mark := 1, 0;
    if codepoint < 0x80 {
    } else if codepoint < 0x800 {
      utf8Length, mark := 2, 0xC0;
    } else if codepoint < 0x1_0000 {
      utf8Length, mark := 3, 0xE0;
    } else {
      utf8Length, mark := 4, 0xF0;
    }
    var rest, at := codepoint, utf8Length - 1;
    while at > 0
      invariant 0 <= at < utf8Length
      invariant rest == codepoint / Shift(utf8Length - 1 - at)
      invariant output[..pos] == old(output[..pos])
      invariant output[pos + utf8Length..] == old(output[pos + utf8Length..])
      invariant forall k :: at < k < utf8Length ==> output[pos + k] == Encode(codepoint)[k]
    {
      output[pos + at] := 0x80 + rest % 0x40;
      rest := rest / 0x40;
      at := at - 1;
    }
    output[pos] := mark + rest;
    next := pos + utf8Length;
  }

  ghost function Shift(n: nat): (f: nat)
    ensures f > 0
  {
    if n == 0 then 1 else if n == 1 then 0x40 else if n == 2 then 0x1000 else 0x4_0000
  }
}
