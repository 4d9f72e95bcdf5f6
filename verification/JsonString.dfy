/** JSON string literals: reading them into a buffer whose size is estimated beforehand, and
    writing them with escapes. */
module JsonString {
  import opened Bytes
  import opened Utf

  const QUOTE: byte := '\"' as int

  // ---------------------------------------------------------------- reading

  /** The first pass: the first quote from p on that no backslash escapes. */
  function FindQuote(s: seq<byte>, p: nat): (r: Option<nat>)
    ensures r.Some? ==> p <= r.value < |s| && s[r.value] == QUOTE
    decreases |s| - p
  {
    if p >= |s| then None
    else if s[p] == QUOTE then Some(p)
    else if s[p] == BACKSLASH then
      if p + 1 >= |s| then None else FindQuote(s, p + 2)
    else FindQuote(s, p + 1)
  }

  datatype Unescaped = Text(bytes: seq<byte>) | BadEscape(at: nat)

  function Prepend(out: seq<byte>, u: Unescaped): Unescaped {
    match u
    case Text(bytes) => Text(out + bytes)
    case BadEscape(at) => u
  }

  /** The one-character escapes. */
  function SimpleEscape(c: byte): Option<byte> {
    if c == 'b' as int then Some(8)
    else if c == 'f' as int then Some(12)
    else if c == 'n' as int then Some(10)
    else if c == 'r' as int then Some(13)
    else if c == 't' as int then Some(9)
    else if c == QUOTE || c == BACKSLASH || c == '/' as int then Some(c)
    else None
  }

  /** The second pass over the content between p and the closing quote at end. It goes its own
      way over escapes: what it takes for one escape the first pass may have taken for several. */
  function Unescape(s: seq<byte>, p: nat, end: nat): Unescaped
    requires end < |s|
    decreases end - p
  {
    if p >= end then Text([])
    else if s[p] != BACKSLASH then Prepend([s[p]], Unescape(s, p + 1, end))
    else if SimpleEscape(s[p + 1]).Some? then Prepend([SimpleEscape(s[p + 1]).value], Unescape(s, p + 2, end))
    else if s[p + 1] == LOWER_U then
      var u := Utf16Literal(s, p, end);
      if u.length == 0 then BadEscape(p) else Prepend(u.utf8, Unescape(s, p + u.length, end))
    else BadEscape(p)
  }

  /** Ok says where the input goes on, Fail where the error is reported. */
  datatype StringResult = Ok(next: nat, text: seq<byte>) | Fail(at: nat)

  /** parse_string at offset. */
  function ReadString(s: seq<byte>, offset: nat): (r: StringResult)
    requires offset < |s|
    ensures r.Ok? ==> offset + 1 < r.next <= |s|
  {
    if s[offset] != QUOTE then Fail(offset + 1)
    else
      var end := FindQuote(s, offset + 1);
      if end.None? then Fail(offset + 1)
      else match Unescape(s, offset + 1, end.value)
        case Text(bytes) => Ok(end.value + 1, bytes)
        case BadEscape(at) => Fail(at)
  }

  // ---------------------------------------------------------------- the size estimate

  /** Where the first pass stands at p: before a byte it will look at, or (mid) between the two
      bytes of an escape. */
  ghost predicate Standing(s: seq<byte>, p: nat, end: nat, mid: bool) {
    if mid then p < end && FindQuote(s, p + 1) == Some(end) else FindQuote(s, p) == Some(end)
  }

  function IsEscape(s: seq<byte>, p: nat, mid: bool): bool
    requires p < |s|
  {
    !mid && s[p] == BACKSLASH
  }

  /** Content left from p on, less the escapes the first pass still counts. */
  function Budget(s: seq<byte>, p: nat, end: nat, mid: bool): nat
    requires end <= |s|
    decreases end - p
  {
    if p >= end then 0
    else (if IsEscape(s, p, mid) then 0 else 1) + Budget(s, p + 1, end, IsEscape(s, p, mid))
  }

  lemma OneByteOn(s: seq<byte>, p: nat, end: nat, mid: bool)
    requires end <= |s| && p < end && Standing(s, p, end, mid)
    ensures Standing(s, p + 1, end, IsEscape(s, p, mid))
  {
  }

  /** Of any two bytes the first pass counts at most one as the start of an escape. */
  lemma TwoBytesOn(s: seq<byte>, p: nat, end: nat, mid: bool) returns (mid2: bool)
    requires p + 2 <= end <= |s| && Standing(s, p, end, mid)
    ensures Standing(s, p + 2, end, mid2)
    ensures Budget(s, p, end, mid) >= 1 + Budget(s, p + 2, end, mid2)
  {
    OneByteOn(s, p, end, mid);
    OneByteOn(s, p + 1, end, IsEscape(s, p, mid));
    mid2 := IsEscape(s, p + 1, IsEscape(s, p, mid));
  }

  /** A literal of 6 or 12 bytes never writes more than its stretch of the estimate pays for. */
  lemma LiteralFits(s: seq<byte>, p: nat, end: nat, mid: bool) returns (mid2: bool)
    requires end <= |s| && Standing(s, p, end, mid) && p <= end
    requires Utf16Literal(s, p, end).length > 0
    ensures var u := Utf16Literal(s, p, end);
            && Standing(s, p + u.length, end, mid2)
            && Budget(s, p, end, mid) >= |u.utf8| + Budget(s, p + u.length, end, mid2)
  {
    mid2 := TwoBytesOn(s, p, end, mid);
    mid2 := TwoBytesOn(s, p + 2, end, mid2);
    mid2 := TwoBytesOn(s, p + 4, end, mid2);
    if Utf16Literal(s, p, end).length == 12 {
      mid2 := TwoBytesOn(s, p + 6, end, mid2);
      mid2 := TwoBytesOn(s, p + 8, end, mid2);
      mid2 := TwoBytesOn(s, p + 10, end, mid2);
    }
  }

  /** A two-byte escape writes one byte; the second pass may step onto the closing quote, and then
      one past it. */
  lemma SimpleFits(s: seq<byte>, p: nat, end: nat, mid: bool) returns (mid2: bool)
    requires end < |s| && p < end && Standing(s, p, end, mid) && s[p] == BACKSLASH
    ensures Budget(s, p, end, mid) >= 1 + Budget(s, p + 2, end, mid2)
    ensures p + 2 <= end ==> Standing(s, p + 2, end, mid2)
  {
    if p + 2 <= end {
      mid2 := TwoBytesOn(s, p, end, mid);
    } else {
      OneByteOn(s, p, end, mid);
      mid2 := false;
    }
  }

  /** The estimate always suffices: whatever the content, the bytes the second pass produces are at
      most the content's length less the escapes the first pass skipped. */
  lemma {:induction false} EstimateSuffices(s: seq<byte>, p: nat, end: nat, mid: bool)
    requires end < |s| && (p <= end ==> Standing(s, p, end, mid))
    ensures Unescape(s, p, end).Text? ==> |Unescape(s, p, end).bytes| <= Budget(s, p, end, mid)
    decreases end - p
  {
    if p < end {
      if s[p] != BACKSLASH {
        OneByteOn(s, p, end, mid);
        EstimateSuffices(s, p + 1, end, false);
      } else if SimpleEscape(s[p + 1]).Some? {
        var mid2 := SimpleFits(s, p, end, mid);
        EstimateSuffices(s, p + 2, end, mid2);
      } else if s[p + 1] == LOWER_U && Utf16Literal(s, p, end).length > 0 {
        var mid2 := LiteralFits(s, p, end, mid);
        EstimateSuffices(s, p + Utf16Literal(s, p, end).length, end, mid2);
      }
    }
  }

  // ---------------------------------------------------------------- parse_string

  /** First pass: end of the content and the number of escapes skipped over. */
  method MeasureString(s: seq<byte>, start: nat) returns (end: nat, skipped: nat, closed: bool)
    requires start <= |s|
    ensures closed <==> FindQuote(s, start).Some?
    ensures closed ==> start <= end < |s| && FindQuote(s, start) == Some(end)
    ensures closed ==> (end - start) - skipped == Budget(s, start, end, false)
  {
    end, skipped, closed := start, 0, false;
    while end < |s| && s[end] != QUOTE
      invariant start <= end <= |s|
      invariant FindQuote(s, start) == FindQuote(s, end)
      invariant forall e :: end <= e < |s| ==>
                  Budget(s, start, e, false) == (end - start) - skipped + Budget(s, end, e, false)
      decreases |s| - end
    {
      if s[end] == BACKSLASH {
        if end + 1 >= |s| { return; }
        skipped := skipped + 1;
        end := end + 1;
      }
      end := end + 1;
    }
    if end >= |s| || s[end] != QUOTE { return; }
    closed := true;
  }

  lemma PrependTwice(a: seq<byte>, b: seq<byte>, u: Unescaped)
    ensures Prepend(a, Prepend(b, u)) == Prepend(a + b, u)
  {
    if u.Text? { assert a + (b + u.bytes) == (a + b) + u.bytes; }
  }

  /** One turn of the second pass: a plain byte or one escape, within the room that is left. */
  method UnescapeOne(s: seq<byte>, p: nat, end: nat, output: array<byte>, length: nat, ghost mid: bool)
    returns (used: nat, next: nat, ok: bool, ghost mid2: bool)
    requires p < end < |s| && Standing(s, p, end, mid)
    requires length + Budget(s, p, end, mid) < output.Length
    modifies output
    ensures ok ==> length <= next <= output.Length && 0 < used <= end + 1 - p
    ensures ok ==> next + Budget(s, p + used, end, mid2) <= length + Budget(s, p, end, mid)
    ensures ok ==> (p + used <= end ==> Standing(s, p + used, end, mid2))
    ensures ok ==> output[..length] == old(output[..length])
    ensures ok ==> Unescape(s, p, end) == Prepend(output[length..next], Unescape(s, p + used, end))
    ensures !ok ==> Unescape(s, p, end) == BadEscape(p)
  {
    used, next, ok, mid2 := 0, length, true, false;
    if s[p] != BACKSLASH {
      OneByteOn(s, p, end, mid);
      output[length] := s[p];
      used, next := 1, length + 1;
    } else if SimpleEscape(s[p + 1]).Some? {
      mid2 := SimpleFits(s, p, end, mid);
      output[length] := SimpleEscape(s[p + 1]).value;
      used, next := 2, length + 1;
    } else if s[p + 1] == LOWER_U && Utf16Literal(s, p, end).length > 0 {
      mid2 := LiteralFits(s, p, end, mid);
      used, next := ConvertLiteral(s, p, end, output, length);
    } else {
      ok := false;
    }
  }

  /** Second pass: decodes the content into output, which has room for the estimate and a NUL. */
  method UnescapeInto(s: seq<byte>, start: nat, end: nat, output: array<byte>) returns (length: nat, p: nat, ok: bool)
    requires start <= end < |s| && FindQuote(s, start) == Some(end)
    requires output.Length > Budget(s, start, end, false)
    modifies output
    ensures length < output.Length
    ensures ok ==> Unescape(s, start, end) == Text(output[..length])
    ensures !ok ==> Unescape(s, start, end) == BadEscape(p)
  {
    length, p, ok := 0, start, true;
    ghost var mid := false;
    ghost var room := Budget(s, start, end, false);
    assert output[..0] == [];
    while p < end
      invariant ok && start <= p <= end + 1 && (p <= end ==> Standing(s, p, end, mid))
      invariant length + Budget(s, p, end, mid) <= room
      invariant Unescape(s, start, end) == Prepend(output[..length], Unescape(s, p, end))
      decreases end - p
    {
      ghost var done := output[..length];
      var used, next;
      used, next, ok, mid := UnescapeOne(s, p, end, output, length, mid);
      if !ok { return; }
      PrependTwice(done, output[length..next], Unescape(s, p + used, end));
      assert output[..next] == done + output[length..next];
      length, p := next, p + used;
    }
    assert output[..length] + [] == output[..length];
  }

  /** utf16_literal_to_utf8 on a literal it accepts. */
  method ConvertLiteral(s: seq<byte>, p: nat, end: nat, output: array<byte>, at: nat) returns (used: nat, next: nat)
    requires p <= end <= |s| && Utf16Literal(s, p, end).length > 0
    requires at + |Utf16Literal(s, p, end).utf8| <= output.Length
    modifies output
    ensures used == Utf16Literal(s, p, end).length
    ensures next == at + |Utf16Literal(s, p, end).utf8|
    ensures output[at..next] == Utf16Literal(s, p, end).utf8
    ensures output[..at] == old(output[..at])
  {
    var first := ParseHex4(s, p + 2);
    if 0xD800 <= first <= 0xDBFF {
      var second := ParseHex4(s, p + 8);
      used := 12;
      next := WriteUtf8(Combine(first, second), output, at);
    } else {
      used := 6;
      next := WriteUtf8(first, output, at);
    }
  }

  // ---------------------------------------------------------------- writing

  function HexChar(v: nat): byte
    requires v < 16
  {
    if v < 10 then '0' as int + v else 'a' as int + (v - 10)
  }

  /** The letter of a one-character escape. */
  function EscapeLetter(c: byte): Option<byte> {
    if c == QUOTE || c == BACKSLASH then Some(c)
    else if c == 8 then Some('b' as int)
    else if c == 12 then Some('f' as int)
    else if c == 10 then Some('n' as int)
    else if c == 13 then Some('r' as int)
    else if c == 9 then Some('t' as int)
    else None
  }

  function EscapedByte(c: byte): (e: seq<byte>)
    ensures e == [c] || (|e| == 2 && e[0] == BACKSLASH) || (|e| == 6 && e[0] == BACKSLASH && e[1] == LOWER_U)
  {
    if EscapeLetter(c).Some? then [BACKSLASH, EscapeLetter(c).value]
    else if c < 32 then [BACKSLASH, LOWER_U, '0' as int, '0' as int, HexChar(c / 16), HexChar(c % 16)]
    else [c]
  }

  function Escape(text: seq<byte>): seq<byte> {
    if text == [] then [] else EscapedByte(text[0]) + Escape(text[1..])
  }

  function Quoted(text: seq<byte>): seq<byte> { [QUOTE] + Escape(text) + [QUOTE] }

  /** What the counting pass adds for a byte. */
  function ExtraBytes(c: byte): nat {
    if EscapeLetter(c).Some? then 1 else if c < 32 then 5 else 0
  }

  function Extra(text: seq<byte>): nat {
    if text == [] then 0 else ExtraBytes(text[0]) + Extra(text[1..])
  }

  /** The counting pass predicts exactly the length of what the writing pass emits, and with
      nothing to escape the text is emitted as it is. */
  lemma {:induction false} CountIsExact(text: seq<byte>)
    ensures |Escape(text)| == |text| + Extra(text)
    ensures Extra(text) == 0 <==> Escape(text) == text
    decreases |text|
  {
    if text != [] {
      CountIsExact(text[1..]);
      if Extra(text) == 0 {
        assert EscapedByte(text[0]) == [text[0]];
      } else {
        assert |Escape(text)| > |text|;
      }
    }
  }

  /** A control character's escape is a unit of UTF-16 below 32. */
  lemma ControlEscapeReads(s: seq<byte>, p: nat, end: nat, c: byte)
    requires c < 32 && EscapeLetter(c).None? && At(s, p, EscapedByte(c)) && p + 6 <= end <= |s|
    ensures Utf16Literal(s, p, end) == Literal(6, [c])
  {
    var e := EscapedByte(c);
    var d := s[p + 2..p + 6];
    assert d[0] == s[p + 2] == e[2] && d[1] == s[p + 3] == e[3];
    assert d[2] == s[p + 4] == e[4] && d[3] == s[p + 5] == e[5];
    assert Hex4(d) == c;
  }

  /** The digits of a control character's escape are neither quotes nor backslashes. */
  lemma SkipFour(s: seq<byte>, p: nat, e: seq<byte>)
    requires p >= 2 && p + 4 <= |s| && |e| == 6 && At(s, p - 2, e)
    requires forall k :: 2 <= k < 6 ==> e[k] != QUOTE && e[k] != BACKSLASH
    ensures FindQuote(s, p) == FindQuote(s, p + 4)
  {
    assert s[p - 2 + 2] == e[2] && s[p - 2 + 3] == e[3] && s[p - 2 + 4] == e[4] && s[p - 2 + 5] == e[5];
    assert FindQuote(s, p) == FindQuote(s, p + 1);
    assert FindQuote(s, p + 1) == FindQuote(s, p + 2);
    assert FindQuote(s, p + 2) == FindQuote(s, p + 3);
  }

  lemma EscapedByteSkipped(s: seq<byte>, p: nat, c: byte)
    requires At(s, p, EscapedByte(c))
    ensures FindQuote(s, p) == FindQuote(s, p + |EscapedByte(c)|)
  {
    var e := EscapedByte(c);
    assert s[p + 0] == e[0];
    if |e| == 6 { SkipFour(s, p + 2, e); }
  }

  lemma {:induction false} EscapedQuoteFound(s: seq<byte>, p: nat, text: seq<byte>)
    requires At(s, p, Escape(text)) && p + |Escape(text)| < |s| && s[p + |Escape(text)|] == QUOTE
    ensures FindQuote(s, p) == Some(p + |Escape(text)|)
    decreases |text|
  {
    if text != [] {
      var e, rest := EscapedByte(text[0]), Escape(text[1..]);
      AtSplit(s, p, e, rest);
      EscapedByteSkipped(s, p, text[0]);
      EscapedQuoteFound(s, p + |e|, text[1..]);
    }
  }

  lemma EscapedByteReads(s: seq<byte>, p: nat, end: nat, c: byte)
    requires At(s, p, EscapedByte(c)) && p + |EscapedByte(c)| <= end < |s|
    ensures Unescape(s, p, end) == Prepend([c], Unescape(s, p + |EscapedByte(c)|, end))
  {
    var e := EscapedByte(c);
    assert s[p + 0] == e[0];
    assert |e| > 1 ==> s[p + 1] == e[1];
    if |e| == 6 { ControlEscapeReads(s, p, end, c); }
  }

  lemma EscapedTextStep(s: seq<byte>, p: nat, text: seq<byte>, end: nat)
    requires text != [] && At(s, p, EscapedByte(text[0])) && p + |EscapedByte(text[0])| <= end < |s|
    requires Unescape(s, p + |EscapedByte(text[0])|, end) == Text(text[1..])
    ensures Unescape(s, p, end) == Text(text)
  {
    EscapedByteReads(s, p, end, text[0]);
    assert [text[0]] + text[1..] == text;
  }

  lemma {:induction false} EscapedTextReads(s: seq<byte>, p: nat, text: seq<byte>, end: nat)
    requires At(s, p, Escape(text)) && end == p + |Escape(text)| < |s|
    ensures Unescape(s, p, end) == Text(text)
    decreases |text|
  {
    if text != [] {
      AtSplit(s, p, EscapedByte(text[0]), Escape(text[1..]));
      EscapedTextReads(s, p + |EscapedByte(text[0])|, text[1..], end);
      EscapedTextStep(s, p, text, end);
    }
  }

  /** String round trip: the quoted text, wherever it stands, reads back as the text, and reading
      goes on right behind it. */
  lemma StringRoundTrip(s: seq<byte>, offset: nat, text: seq<byte>)
    requires At(s, offset, Quoted(text))
    ensures offset < |s| && ReadString(s, offset) == Ok(offset + |Quoted(text)|, text)
  {
    var body := Escape(text);
    assert Quoted(text) == [QUOTE] + (body + [QUOTE]);
    AtSplit(s, offset, [QUOTE], body + [QUOTE]);
    AtSplit(s, offset + 1, body, [QUOTE]);
    assert s[offset + 0] == [QUOTE][0];
    assert s[offset + 1 + |body| + 0] == [QUOTE][0];
    EscapedQuoteFound(s, offset + 1, text);
    EscapedTextReads(s, offset + 1, text, offset + 1 + |body|);
  }
}
