/** Parsing JSON as a pure function of the text. */
module JsonGrammar {
  import opened Bytes
  import opened JsonString
  import opened JsonTree

  const NESTING_LIMIT: nat := 1000

  /** The number_c_string of parse_number has 64 places, one of them for the NUL. */
  const NUMBER_CHARS: nat := 63

  /** The text ends in a NUL that is part of its length. */
  predicate Terminated(s: seq<byte>) { s != [] && s[|s| - 1] == NUL }

  /** Results say where the input goes on, or (at) where the error is reported. */
  datatype ValueResult = Value(next: nat, value: Json) | NoValue(at: nat)

  datatype NumberResult = ANumber(next: nat, number: Number) | NoNumber(at: nat)

  datatype KeyResult = Key(next: nat, key: seq<byte>) | NoKey(at: nat)

  datatype ItemResult = Item(next: nat, item: Json, more: bool) | NoItem(at: nat)

  datatype ItemsResult = Items(next: nat, items: seq<Json>) | NoItems(at: nat)

  datatype MemberResult = AMember(next: nat, member: Member, more: bool) | NoMember(at: nat)

  datatype MembersResult = Members(next: nat, members: seq<Member>) | NoMembers(at: nat)

  /** buffer_skip_whitespace: everything up to 32 counts, the NUL too, but the last byte of the text
      is never passed. */
  function SkipWhitespace(s: seq<byte>, i: nat): (j: nat)
    requires i < |s|
    ensures i <= j < |s| && (s[j] > 32 || j == |s| - 1)
    decreases |s| - i
  {
    if s[i] <= 32 && i + 1 < |s| then SkipWhitespace(s, i + 1) else i
  }

  // ---------------------------------------------------------------- numbers

  predicate IsNumberChar(c: byte) {
    IsDigit(c) || c == '+' as int || c == MINUS || c == 'e' as int || c == 'E' as int || c == '.' as int
  }

  function CountNumberChars(s: seq<byte>, i: nat, limit: nat): (n: nat)
    requires i <= |s|
    ensures n <= limit && i + n <= |s|
    decreases |s| - i
  {
    if limit == 0 || i >= |s| || !IsNumberChar(s[i]) then 0 else 1 + CountNumberChars(s, i + 1, limit - 1)
  }

  function CountDigits(t: seq<byte>, i: nat): (n: nat)
    requires i <= |t|
    ensures i + n <= |t|
    decreases |t| - i
  {
    if i == |t| || !IsDigit(t[i]) then 0 else 1 + CountDigits(t, i + 1)
  }

  lemma {:induction false} CountedAreDigits(t: seq<byte>, i: nat)
    requires i <= |t|
    ensures forall c <- t[i..i + CountDigits(t, i)] :: IsDigit(c)
    ensures i + CountDigits(t, i) < |t| ==> !IsDigit(t[i + CountDigits(t, i)])
    decreases |t| - i
  {
    if i < |t| && IsDigit(t[i]) {
      CountedAreDigits(t, i + 1);
      assert t[i..i + CountDigits(t, i)] == [t[i]] + t[i + 1..i + 1 + CountDigits(t, i + 1)];
    }
  }

  function SignLength(t: seq<byte>, i: nat): (n: nat)
    requires i <= |t|
    ensures i + n <= |t|
  {
    if i < |t| && (t[i] == '+' as int || t[i] == MINUS) then 1 else 0
  }

  /** Behind a point at i and the digits that follow it, or i. */
  function FractionEnd(t: seq<byte>, i: nat): (m: nat)
    requires i <= |t|
    ensures i <= m <= |t|
  {
    if i < |t| && t[i] == '.' as int then i + 1 + CountDigits(t, i + 1) else i
  }

  /** Behind an exponent at i, if it has a digit, or i. */
  function ExponentEnd(t: seq<byte>, i: nat): (e: nat)
    requires i <= |t|
    ensures i <= e <= |t|
  {
    if i < |t| && (t[i] == 'e' as int || t[i] == 'E' as int) then
      var e := i + 1 + SignLength(t, i + 1);
      if CountDigits(t, e) == 0 then i else e + CountDigits(t, e)
    else i
  }

  /** How much of t strtod takes: digits around an optional point, then an exponent if it has a
      digit; nothing without a digit in front. */
  function StrtodLength(t: seq<byte>): (n: nat)
    ensures n <= |t|
  {
    var i := SignLength(t, 0);
    var j := i + CountDigits(t, i);
    var m := FractionEnd(t, j);
    if i == j && m <= j + 1 then 0 else ExponentEnd(t, m)
  }

  function DigitsValue(t: seq<byte>): nat
    requires forall c <- t :: IsDigit(c)
  {
    if t == [] then 0
    else
      assert IsDigit(t[|t| - 1]);
      DigitsValue(t[..|t| - 1]) * 10 + (t[|t| - 1] - '0' as int)
  }

  /** The value of a literal strtod took whole. Minus zero is not the integer zero. */
  function NumberOf(t: seq<byte>): Number {
    var i := SignLength(t, 0);
    if CountDigits(t, i) == |t| - i <= 15 then
      CountedAreDigits(t, i);
      var n: int := DigitsValue(t[i..]);
      if i == 1 && t[0] == MINUS then (if n == 0 then Other(t) else Integer(-n)) else Integer(n)
    else Other(t)
  }

  /** What strtod makes of the copied characters, in terms of the text they came from. */
  function TakeNumber(literal: seq<byte>, i: nat): (r: NumberResult)
    ensures r.ANumber? ==> i < r.next <= i + |literal|
  {
    var n := StrtodLength(literal);
    if n == 0 then NoNumber(i) else ANumber(i + n, NumberOf(literal[..n]))
  }

  /** parse_number. */
  function ReadNumber(s: seq<byte>, i: nat): (r: NumberResult)
    requires i <= |s|
    ensures r.ANumber? ==> i < r.next <= i + CountNumberChars(s, i, NUMBER_CHARS)
  {
    TakeNumber(s[i..i + CountNumberChars(s, i, NUMBER_CHARS)], i)
  }

  lemma ReadNumberIs(s: seq<byte>, i: nat, n: nat)
    requires i <= |s| && n == CountNumberChars(s, i, NUMBER_CHARS)
    ensures ReadNumber(s, i) == TakeNumber(s[i..i + n], i)
    ensures TakeNumber(s[i..i + n], i).NoNumber? ==> TakeNumber(s[i..i + n], i).at == i
  {
  }

  // ---------------------------------------------------------------- values

  /** What a char pointer shows of the decoded bytes. */
  function CString(text: seq<byte>): seq<byte> {
    if text == [] || text[0] == NUL then [] else [text[0]] + CString(text[1..])
  }

  lemma {:induction false} CStringEndsAtNul(text: seq<byte>)
    ensures NUL !in CString(text) && (NUL !in text ==> CString(text) == text)
    decreases |text|
  {
    if text != [] && text[0] != NUL {
      CStringEndsAtNul(text[1..]);
      assert text == [text[0]] + text[1..];
    }
  }

  predicate Reads(s: seq<byte>, i: nat, word: seq<byte>): (b: bool)
    ensures b ==> word == [] || i + |word| <= |s|
    decreases |word|
  {
    word == [] || (i < |s| && s[i] == word[0] && Reads(s, i + 1, word[1..]))
  }

  lemma {:induction false} WordInside(s: seq<byte>, i: nat, word: seq<byte>)
    requires Terminated(s) && Reads(s, i, word) && word != [] && word[|word| - 1] != NUL
    ensures i + |word| < |s|
    decreases |word|
  {
    if |word| > 1 { WordInside(s, i + 1, word[1..]); }
  }

  function ParseValue(s: seq<byte>, i: nat, depth: nat): (r: ValueResult)
    requires Terminated(s) && i < |s|
    ensures r.Value? ==> i < r.next < |s|
    decreases |s| - i, 1
  {
    if Reads(s, i, NULL_TEXT) then
      WordInside(s, i, NULL_TEXT);
      Value(i + 4, Null)
    else if Reads(s, i, FALSE_TEXT) then
      WordInside(s, i, FALSE_TEXT);
      Value(i + 5, Bool(false))
    else if Reads(s, i, TRUE_TEXT) then
      WordInside(s, i, TRUE_TEXT);
      Value(i + 4, Bool(true))
    else if s[i] == QUOTE then
      match ReadString(s, i)
      case Ok(next, text) => Value(next, Str(CString(text)))
      case Fail(at) => NoValue(at)
    else if s[i] == MINUS || IsDigit(s[i]) then
      NumberStopsBeforeNul(s, i, NUMBER_CHARS);
      match ReadNumber(s, i)
      case ANumber(next, n) => Value(next, Num(n))
      case NoNumber(at) => NoValue(at)
    else if s[i] == LBRACKET then ParseArray(s, i, depth)
    else if s[i] == LBRACE then ParseObject(s, i, depth)
    else NoValue(i)
  }

  lemma {:induction false} NumberStopsBeforeNul(s: seq<byte>, i: nat, limit: nat)
    requires Terminated(s) && i < |s|
    ensures i + CountNumberChars(s, i, limit) < |s|
    decreases limit
  {
    if limit > 0 && IsNumberChar(s[i]) { NumberStopsBeforeNul(s, i + 1, limit - 1); }
  }

  function ParseArray(s: seq<byte>, i: nat, depth: nat): (r: ValueResult)
    requires Terminated(s) && i < |s| && s[i] == LBRACKET
    ensures r.Value? ==> i < r.next < |s|
    decreases |s| - i, 0
  {
    if depth >= NESTING_LIMIT then NoValue(i)
    else
      var j := SkipWhitespace(s, i + 1);
      if s[j] == RBRACKET then Value(j + 1, Arr([]))
      else match ParseItems(s, j, depth + 1, [])
        case Items(next, items) => Value(next, Arr(items))
        case NoItems(at) => NoValue(at)
  }

  /** A value behind whitespace. */
  function ValueFrom(s: seq<byte>, i: nat, depth: nat): (r: ValueResult)
    requires Terminated(s) && i < |s|
    ensures r.Value? ==> i < r.next < |s|
    decreases |s| - i, 2
  {
    ParseValue(s, SkipWhitespace(s, i), depth)
  }

  /** An element and what follows it: a comma, and there is more, or the closing bracket. */
  function ParseItem(s: seq<byte>, i: nat, depth: nat): (r: ItemResult)
    requires Terminated(s) && i < |s|
    ensures r.Item? ==> i < r.next < |s|
    decreases |s| - i, 3
  {
    match ValueFrom(s, i, depth)
    case NoValue(at) => NoItem(at)
    case Value(next, value) =>
      var j := SkipWhitespace(s, next);
      if s[j] == COMMA || s[j] == RBRACKET then Item(j + 1, value, s[j] == COMMA) else NoItem(j)
  }

  /** Elements from i on, through the bracket that closes the array; acc holds those before. */
  function ParseItems(s: seq<byte>, i: nat, depth: nat, acc: seq<Json>): (r: ItemsResult)
    requires Terminated(s) && i < |s|
    ensures r.Items? ==> i < r.next < |s|
    decreases |s| - i, 4
  {
    match ParseItem(s, i, depth)
    case NoItem(at) => NoItems(at)
    case Item(next, item, more) =>
      if more then ParseItems(s, next, depth, acc + [item]) else Items(next, acc + [item])
  }

  function ParseObject(s: seq<byte>, i: nat, depth: nat): (r: ValueResult)
    requires Terminated(s) && i < |s| && s[i] == LBRACE
    ensures r.Value? ==> i < r.next < |s|
    decreases |s| - i, 0
  {
    if depth >= NESTING_LIMIT then NoValue(i)
    else
      var j := SkipWhitespace(s, i + 1);
      if s[j] == RBRACE then Value(j + 1, Obj([]))
      else match ParseMembers(s, j, depth + 1, [])
        case Members(next, members) => Value(next, Obj(members))
        case NoMembers(at) => NoValue(at)
  }

  /** A key and the colon behind it. */
  function ParseKey(s: seq<byte>, i: nat): (r: KeyResult)
    requires Terminated(s) && i < |s|
    ensures r.Key? ==> i < r.next < |s|
  {
    match ReadString(s, SkipWhitespace(s, i))
    case Fail(at) => NoKey(at)
    case Ok(next, text) =>
      var j := SkipWhitespace(s, next);
      if s[j] == COLON then Key(j + 1, CString(text)) else NoKey(j)
  }

  function ParseMember(s: seq<byte>, i: nat, depth: nat): (r: MemberResult)
    requires Terminated(s) && i < |s|
    ensures r.AMember? ==> i < r.next < |s|
    decreases |s| - i, 3
  {
    match ParseKey(s, i)
    case NoKey(at) => NoMember(at)
    case Key(colon, key) => ParseMemberValue(s, colon, key, depth)
  }

  function ParseMemberValue(s: seq<byte>, i: nat, key: seq<byte>, depth: nat): (r: MemberResult)
    requires Terminated(s) && i < |s|
    ensures r.AMember? ==> i < r.next < |s|
    decreases |s| - i, 3
  {
    match ValueFrom(s, i, depth)
    case NoValue(at) => NoMember(at)
    case Value(next, value) =>
      var j := SkipWhitespace(s, next);
      if s[j] == COMMA || s[j] == RBRACE then AMember(j + 1, Member(key, value), s[j] == COMMA) else NoMember(j)
  }

  /** Members from i on, through the brace that closes the object. */
  function ParseMembers(s: seq<byte>, i: nat, depth: nat, acc: seq<Member>): (r: MembersResult)
    requires Terminated(s) && i < |s|
    ensures r.Members? ==> i < r.next < |s|
    decreases |s| - i, 4
  {
    match ParseMember(s, i, depth)
    case NoMember(at) => NoMembers(at)
    case AMember(next, member, more) =>
      if more then ParseMembers(s, next, depth, acc + [member]) else Members(next, acc + [member])
  }

  const BOM: seq<byte> := [0xEF, 0xBB, 0xBF]

  function SkipBom(s: seq<byte>): (i: nat)
    ensures s != [] ==> i < |s|
  {
    if |s| > 4 && s[..3] == BOM then 3 else 0
  }

  /** Where cJSON_GetErrorPtr points. */
  function ErrorAt(s: seq<byte>, at: nat): nat
    requires s != []
  {
    if at < |s| then at else |s| - 1
  }

  /** cJSON_ParseWithLengthOpts on a text whose last byte is a NUL. */
  function Parse(s: seq<byte>, requireNullTerminated: bool): (r: ValueResult)
    requires Terminated(s)
  {
    match ValueFrom(s, SkipBom(s), 0)
    case NoValue(at) => NoValue(ErrorAt(s, at))
    case Value(next, value) =>
      if !requireNullTerminated then Value(next, value)
      else
        var end := SkipWhitespace(s, next);
        if s[end] == NUL then Value(end, value) else NoValue(end)
  }
}
