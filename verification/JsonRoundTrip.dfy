/** Printing and parsing undo each other, whatever whitespace stands between the tokens. */
module JsonRoundTrip {
  import opened Bytes
  import opened JsonString
  import opened JsonTree
  import opened JsonGrammar
  import opened JsonLayout

  // ---------------------------------------------------------------- numbers

  lemma {:induction false} CountRun(s: seq<byte>, i: nat, text: seq<byte>, limit: nat)
    requires At(s, i, text) && (forall c <- text :: IsNumberChar(c)) && |text| <= limit
    requires i + |text| == |s| || !IsNumberChar(s[i + |text|])
    ensures CountNumberChars(s, i, limit) == |text|
    decreases |text|
  {
    if text != [] {
      assert s[i + 0] == text[0] && text[0] in text;
      forall k | 0 <= k < |text[1..]| ensures s[i + 1 + k] == text[1..][k] { assert s[i + (k + 1)] == text[k + 1]; }
      assert forall c <- text[1..] :: c in text;
      CountRun(s, i + 1, text[1..], limit - 1);
    }
  }

  lemma {:induction false} AllDigits(t: seq<byte>, i: nat)
    requires i <= |t| && forall k :: i <= k < |t| ==> IsDigit(t[k])
    ensures CountDigits(t, i) == |t| - i
    decreases |t| - i
  {
    if i < |t| { AllDigits(t, i + 1); }
  }

  /** A sign or none, and digits to the end. */
  lemma DecimalParts(n: int) returns (k: nat, digits: seq<byte>)
    ensures k == (if n < 0 then 1 else 0) && digits == Digits(if n < 0 then -n else n)
    ensures SignLength(Decimal(n), 0) == k && Decimal(n)[k..] == digits && |Decimal(n)| == k + |digits|
    ensures CountDigits(Decimal(n), k) == |digits|
  {
    var t, m := Decimal(n), if n < 0 then -n else n;
    k, digits := if n < 0 then 1 else 0, Digits(m);
    assert t[k..] == digits && t[k] == digits[0];
    DigitsRead(m);
    forall j | k <= j < |t| ensures IsDigit(t[j]) { assert t[j] == digits[j - k] && digits[j - k] in digits; }
    AllDigits(t, k);
  }

  lemma WholeTaken(t: seq<byte>, k: nat)
    requires SignLength(t, 0) == k < |t| && CountDigits(t, k) == |t| - k
    ensures StrtodLength(t) == |t|
  {
  }

  lemma DecimalValue(n: int)
    requires -INTEGER_LIMIT < n < INTEGER_LIMIT
    ensures NumberOf(Decimal(n)) == Integer(n)
  {
    var k, digits := DecimalParts(n);
    FifteenDigits(if n < 0 then -n else n);
    DigitsRead(if n < 0 then -n else n);
  }

  /** strtod takes a decimal integer of at most 15 digits whole, for its value. */
  lemma DecimalTaken(n: int, i: nat)
    requires -INTEGER_LIMIT < n < INTEGER_LIMIT
    ensures TakeNumber(Decimal(n), i) == ANumber(i + |Decimal(n)|, Integer(n))
  {
    var k, digits := DecimalParts(n);
    WholeTaken(Decimal(n), k);
    DecimalValue(n);
    assert Decimal(n)[..|Decimal(n)|] == Decimal(n);
  }

  lemma DecimalCharacters(n: int)
    ensures forall c <- Decimal(n) :: IsNumberChar(c)
  {
    DigitsRead(if n < 0 then -n else n);
  }

  lemma LiteralReads(s: seq<byte>, i: nat, t: seq<byte>)
    requires At(s, i, t) && (forall c <- t :: IsNumberChar(c)) && |t| <= NUMBER_CHARS
    requires i + |t| < |s| && !IsNumberChar(s[i + |t|])
    ensures ReadNumber(s, i) == TakeNumber(t, i)
  {
    CountRun(s, i, t, NUMBER_CHARS);
    AtSlice(s, i, t);
  }

  lemma DecimalReads(s: seq<byte>, i: nat, n: int)
    requires -INTEGER_LIMIT < n < INTEGER_LIMIT
    requires At(s, i, Decimal(n)) && i + |Decimal(n)| < |s| && !IsNumberChar(s[i + |Decimal(n)|])
    ensures ReadNumber(s, i) == ANumber(i + |Decimal(n)|, Integer(n))
  {
    NumberFits(Integer(n));
    DecimalCharacters(n);
    LiteralReads(s, i, Decimal(n));
    DecimalTaken(n, i);
  }

  // ---------------------------------------------------------------- parsing a layout

  /** Nested no deeper than the parser goes when it stands at depth. */
  predicate Fits(t: Json, depth: nat)
    decreases t, 1
  {
    match t
    case Arr(items) => depth < NESTING_LIMIT && ItemsFit(items, depth + 1)
    case Obj(members) => depth < NESTING_LIMIT && MembersFit(members, depth + 1)
    case _ => true
  }

  predicate ItemsFit(items: seq<Json>, depth: nat)
    decreases items, 0
  {
    items == [] || (Fits(items[0], depth) && ItemsFit(items[1..], depth))
  }

  predicate MembersFit(members: seq<Member>, depth: nat)
    decreases members, 0
  {
    members == [] || (Fits(members[0].value, depth) && MembersFit(members[1..], depth))
  }

  /** What can stand behind a value. */
  ghost predicate Closes(rest: Tokens) {
    rest.Then? ==> rest.tok == [COMMA] || rest.tok == [RBRACKET] || rest.tok == [RBRACE]
  }

  /** Behind a value comes whitespace or punctuation, which ends a number. */
  lemma BehindValue(s: seq<byte>, p: nat, rest: Tokens)
    requires p < |s| && Terminated(s) && LaidAt(s, p, rest) && Closes(rest)
    ensures !IsNumberChar(s[p])
    ensures rest.Then? ==> s[SkipWhitespace(s, p)] == rest.tok[0]
  {
    if rest.Then? { assert Reads(s, SkipWhitespace(s, p), rest.tok); }
  }

  /** A scalar's only token, where the layout puts it. */
  ghost predicate ScalarStands(s: seq<byte>, j: nat, text: seq<byte>) {
    text != [] && j + |text| < |s| && At(s, j, text) && s[j..j + |text|] == text && s[j] == text[0]
    && !IsNumberChar(s[j + |text|])
  }

  lemma ScalarLaid(s: seq<byte>, i: nat, text: seq<byte>, rest: Tokens) returns (j: nat, p: nat)
    requires Terminated(s) && i < |s| && text != [] && Closes(rest) && LaidAt(s, i, Then(text, rest))
    ensures j == SkipWhitespace(s, i) && ScalarStands(s, j, text)
    ensures p == j + |text| < |s| && LaidAt(s, p, rest)
  {
    j := SkipWhitespace(s, i);
    p := j + |text|;
    BehindValue(s, p, rest);
    ReadsAt(s, j, text);
    AtSlice(s, j, text);
  }

  lemma ScalarReads(s: seq<byte>, i: nat, t: Json, rest: Tokens, depth: nat) returns (p: nat)
    requires Terminated(s) && i < |s| && Printable(t) && !t.Arr? && !t.Obj? && Closes(rest)
    requires LaidAt(s, i, TokensThen(t, rest))
    ensures p < |s| && LaidAt(s, p, rest) && ValueFrom(s, i, depth) == Value(p, t)
  {
    FirstByte(t, rest);
    var j;
    j, p := ScalarLaid(s, i, Render(t, false, 0), rest);
    ScalarAt(s, j, t, depth);
  }

  lemma ScalarAt(s: seq<byte>, j: nat, t: Json, depth: nat)
    requires Terminated(s) && Printable(t) && !t.Arr? && !t.Obj?
    requires ScalarStands(s, j, Render(t, false, 0))
    ensures ParseValue(s, j, depth) == Value(j + |Render(t, false, 0)|, t)
  {
    match t
    case Str(text) => StringRoundTrip(s, j, text); CStringEndsAtNul(text);
    case Num(number) => NumberAt(s, j, number.n, depth);
    case Null => WordReads(s, j, NULL_TEXT);
    case Bool(b) => WordReads(s, j, if b then TRUE_TEXT else FALSE_TEXT);
  }

  lemma NumberAt(s: seq<byte>, j: nat, n: int, depth: nat)
    requires Terminated(s) && -INTEGER_LIMIT < n < INTEGER_LIMIT
    requires ScalarStands(s, j, Decimal(n))
    ensures ParseValue(s, j, depth) == Value(j + |Decimal(n)|, Num(Integer(n)))
  {
    var m := if n < 0 then -n else n;
    assert Digits(m) != [];
    DecimalReads(s, j, n);
  }

  // ---------------------------------------------------------------- parsing arrays and objects

  lemma ArrayHere(s: seq<byte>, i: nat, j: nat, depth: nat)
    requires Terminated(s) && i < |s| && j == SkipWhitespace(s, i) && j + 1 < |s| && s[j] == LBRACKET
    ensures var k, r := SkipWhitespace(s, j + 1), ValueFrom(s, i, depth);
            if depth >= NESTING_LIMIT then r.NoValue?
            else if s[k] == RBRACKET then r == Value(k + 1, Arr([]))
            else r == ItemsAsArray(ParseItems(s, k, depth + 1, []))
  {
    assert ValueFrom(s, i, depth) == ParseValue(s, j, depth) == ParseArray(s, j, depth);
  }

  ghost function ItemsAsArray(r: ItemsResult): ValueResult {
    match r
    case Items(next, items) => Value(next, Arr(items))
    case NoItems(at) => NoValue(at)
  }

  lemma ObjectHere(s: seq<byte>, i: nat, j: nat, depth: nat)
    requires Terminated(s) && i < |s| && j == SkipWhitespace(s, i) && j + 1 < |s| && s[j] == LBRACE
    ensures var k, r := SkipWhitespace(s, j + 1), ValueFrom(s, i, depth);
            if depth >= NESTING_LIMIT then r.NoValue?
            else if s[k] == RBRACE then r == Value(k + 1, Obj([]))
            else r == MembersAsObject(ParseMembers(s, k, depth + 1, []))
  {
    assert ValueFrom(s, i, depth) == ParseValue(s, j, depth) == ParseObject(s, j, depth);
  }

  ghost function MembersAsObject(r: MembersResult): ValueResult {
    match r
    case Members(next, members) => Value(next, Obj(members))
    case NoMembers(at) => NoValue(at)
  }

  lemma ItemHere(s: seq<byte>, i: nat, depth: nat, p: nat, item: Json)
    requires Terminated(s) && i < |s| && p < |s| && ValueFrom(s, i, depth) == Value(p, item)
    requires var c := s[SkipWhitespace(s, p)]; c == COMMA || c == RBRACKET
    ensures ParseItem(s, i, depth) == Item(SkipWhitespace(s, p) + 1, item, s[SkipWhitespace(s, p)] == COMMA)
  {
  }

  lemma MemberHere(s: seq<byte>, i: nat, depth: nat, m: Member, p: nat)
    requires Terminated(s) && i < |s| && p < |s| && ValueFrom(s, i, depth) == Value(p, m.value)
    requires var c := s[SkipWhitespace(s, p)]; c == COMMA || c == RBRACE
    ensures ParseMemberValue(s, i, m.key, depth) ==
            AMember(SkipWhitespace(s, p) + 1, m, s[SkipWhitespace(s, p)] == COMMA)
  {
  }

  /** A one-byte token in front: where it stands, and the layout behind it up to the next token. */
  lemma MarkAt(s: seq<byte>, i: nat, c: byte, toks: Tokens) returns (j: nat, k: nat)
    requires Terminated(s) && i < |s| && LaidAt(s, i, Then([c], toks))
    ensures j == SkipWhitespace(s, i) && s[j] == c && j + 1 < |s| && k == SkipWhitespace(s, j + 1)
    ensures LaidAt(s, j + 1, toks) && LaidAt(s, k, toks)
    ensures toks.Then? && toks.tok != [] ==> s[k] == toks.tok[0]
  {
    j := SkipWhitespace(s, i);
    k := SkipWhitespace(s, j + 1);
  }

  /** A value laid out from i on is parsed for what it is and no further, unless it is nested too
      deep for the depth the parser stands at; then the parser refuses. */
  lemma {:induction false} ValueLaid(s: seq<byte>, i: nat, t: Json, rest: Tokens, depth: nat) returns (p: nat)
    requires Terminated(s) && i < |s| && Printable(t) && Closes(rest)
    requires LaidAt(s, i, TokensThen(t, rest))
    ensures p < |s| && (Fits(t, depth) ==> LaidAt(s, p, rest))
    ensures var r := ValueFrom(s, i, depth);
            if Fits(t, depth) then r == Value(p, t) else r.NoValue?
    decreases t, 1
  {
    if t.Arr? { p := ArrayLaid(s, i, t, rest, depth); }
    else if t.Obj? { p := ObjectLaid(s, i, t, rest, depth); }
    else {
      p := ScalarReads(s, i, t, rest, depth);
    }
  }

  lemma {:induction false} ArrayLaid(s: seq<byte>, i: nat, t: Json, rest: Tokens, depth: nat) returns (p: nat)
    requires Terminated(s) && i < |s| && t.Arr? && Printable(t)
    requires LaidAt(s, i, TokensThen(t, rest))
    ensures p < |s| && (Fits(t, depth) ==> LaidAt(s, p, rest))
    ensures var r := ValueFrom(s, i, depth);
            if Fits(t, depth) then r == Value(p, t) else r.NoValue?
    decreases t, 0
  {
    var j, k, close := ArrayOpens(s, i, t.items, rest);
    ArrayHere(s, i, j, depth);
    if depth >= NESTING_LIMIT { p := 0; }
    else if t.items == [] { p := close; }
    else { p := ItemsLaid(s, k, t.items, rest, depth + 1, []); assert [] + t.items == t.items; }
  }

  lemma ArrayOpens(s: seq<byte>, i: nat, items: seq<Json>, rest: Tokens) returns (j: nat, k: nat, close: nat)
    requires Terminated(s) && i < |s| && forall x <- items :: Printable(x)
    requires LaidAt(s, i, Then([LBRACKET], ItemsThen(items, Then([RBRACKET], rest))))
    ensures j == SkipWhitespace(s, i) && j + 1 < |s| && s[j] == LBRACKET && k == SkipWhitespace(s, j + 1)
    ensures if items == [] then s[k] == RBRACKET && close == k + 1 < |s| && LaidAt(s, close, rest)
            else s[k] != RBRACKET && LaidAt(s, k, ItemsThen(items, Then([RBRACKET], rest)))
  {
    j, k := MarkAt(s, i, LBRACKET, ItemsThen(items, Then([RBRACKET], rest)));
    close := k + 1;
    if items == [] { var _, _ := MarkAt(s, j + 1, RBRACKET, rest); }
    else { ItemsStart(items, Then([RBRACKET], rest)); }
  }

  lemma ItemsStart(items: seq<Json>, rest: Tokens)
    requires items != [] && forall x <- items :: Printable(x)
    ensures var toks := ItemsThen(items, rest);
            toks.Then? && toks.tok != [] && toks.tok[0] != RBRACKET
  {
    FirstByte(items[0], if |items| == 1 then rest else Then([COMMA], ItemsThen(items[1..], rest)));
  }

  /** A value and the mark behind it: where the value ends, and what the mark is followed by. */
  lemma {:induction false} ValueAndMarkLaid(s: seq<byte>, i: nat, t: Json, c: byte, rest: Tokens, depth: nat)
    returns (end: nat, p: nat)
    requires Terminated(s) && i < |s| && Printable(t) && Closes(Then([c], rest))
    requires LaidAt(s, i, TokensThen(t, Then([c], rest)))
    ensures p < |s| && end < |s|
    ensures Fits(t, depth) ==>
              ValueFrom(s, i, depth) == Value(end, t) && MarkStands(s, end, c, p) && LaidAt(s, p, rest)
    ensures !Fits(t, depth) ==> ValueFrom(s, i, depth).NoValue?
    decreases t, 2
  {
    end := ValueLaid(s, i, t, Then([c], rest), depth);
    p := 0;
    if Fits(t, depth) { p := MarkBehind(s, end, c, rest); }
  }

  /** Behind whitespace stands c, and p behind that. */
  ghost predicate MarkStands(s: seq<byte>, end: nat, c: byte, p: nat)
    requires end < |s|
  {
    s[SkipWhitespace(s, end)] == c && p == SkipWhitespace(s, end) + 1
  }

  lemma MarkBehind(s: seq<byte>, end: nat, c: byte, rest: Tokens) returns (p: nat)
    requires Terminated(s) && end < |s| && LaidAt(s, end, Then([c], rest))
    ensures p < |s| && MarkStands(s, end, c, p) && LaidAt(s, p, rest)
  {
    var j, _ := MarkAt(s, end, c, rest);
    p := j + 1;
  }

  lemma MarkCloses(c: byte, rest: Tokens)
    requires c == COMMA || c == RBRACKET || c == RBRACE
    ensures Closes(Then([c], rest))
  {
  }

  /** An element and the comma or bracket behind it. */
  lemma {:induction false} ItemLaid(s: seq<byte>, i: nat, item: Json, c: byte, rest: Tokens, depth: nat)
    returns (p: nat)
    requires Terminated(s) && i < |s| && Printable(item) && (c == COMMA || c == RBRACKET)
    requires LaidAt(s, i, TokensThen(item, Then([c], rest)))
    ensures p < |s| && (Fits(item, depth) ==> LaidAt(s, p, rest))
    ensures var r := ParseItem(s, i, depth);
            if Fits(item, depth) then r == Item(p, item, c == COMMA) else r.NoItem?
    decreases item, 3
  {
    var end;
    MarkCloses(c, rest);
    end, p := ValueAndMarkLaid(s, i, item, c, rest, depth);
    if Fits(item, depth) { ItemHere(s, i, depth, end, item); } else { ItemRefused(s, i, depth); }
  }

  lemma ItemRefused(s: seq<byte>, i: nat, depth: nat)
    requires Terminated(s) && i < |s| && ValueFrom(s, i, depth).NoValue?
    ensures ParseItem(s, i, depth).NoItem?
  {
  }

  lemma {:induction false} ItemsLaid(s: seq<byte>, i: nat, items: seq<Json>, rest: Tokens, depth: nat,
                                     acc: seq<Json>) returns (p: nat)
    requires Terminated(s) && i < |s| && items != [] && forall x <- items :: Printable(x)
    requires LaidAt(s, i, ItemsThen(items, Then([RBRACKET], rest)))
    ensures p < |s| && (ItemsFit(items, depth) ==> LaidAt(s, p, rest))
    ensures var r := ParseItems(s, i, depth, acc);
            if ItemsFit(items, depth) then r == Items(p, acc + items) else r.NoItems?
    decreases items, 0
  {
    if |items| == 1 {
      p := ItemLaid(s, i, items[0], RBRACKET, rest, depth);
      assert items == [items[0]] && items[1..] == [] && ItemsFit([], depth);
    } else {
      var tail := items[1..];
      assert items == [items[0]] + tail;
      assert acc + [items[0]] + tail == acc + items;
      p := ItemLaid(s, i, items[0], COMMA, ItemsThen(tail, Then([RBRACKET], rest)), depth);
      if Fits(items[0], depth) { p := ItemsLaid(s, p, tail, rest, depth, acc + [items[0]]); }
    }
  }

  lemma {:induction false} ObjectLaid(s: seq<byte>, i: nat, t: Json, rest: Tokens, depth: nat) returns (p: nat)
    requires Terminated(s) && i < |s| && t.Obj? && Printable(t)
    requires LaidAt(s, i, TokensThen(t, rest))
    ensures p < |s| && (Fits(t, depth) ==> LaidAt(s, p, rest))
    ensures var r := ValueFrom(s, i, depth);
            if Fits(t, depth) then r == Value(p, t) else r.NoValue?
    decreases t, 0
  {
    var j, k, close := ObjectOpens(s, i, t.members, rest);
    ObjectHere(s, i, j, depth);
    if depth >= NESTING_LIMIT { p := 0; }
    else if t.members == [] { p := close; }
    else { p := MembersLaid(s, k, t.members, rest, depth + 1, []); assert [] + t.members == t.members; }
  }

  lemma ObjectOpens(s: seq<byte>, i: nat, members: seq<Member>, rest: Tokens) returns (j: nat, k: nat, close: nat)
    requires Terminated(s) && i < |s|
    requires LaidAt(s, i, Then([LBRACE], MembersThen(members, Then([RBRACE], rest))))
    ensures j == SkipWhitespace(s, i) && j + 1 < |s| && s[j] == LBRACE && k == SkipWhitespace(s, j + 1)
    ensures if members == [] then s[k] == RBRACE && close == k + 1 < |s| && LaidAt(s, close, rest)
            else s[k] != RBRACE && LaidAt(s, k, MembersThen(members, Then([RBRACE], rest)))
  {
    j, k := MarkAt(s, i, LBRACE, MembersThen(members, Then([RBRACE], rest)));
    close := k + 1;
    if members == [] { var _, _ := MarkAt(s, j + 1, RBRACE, rest); }
  }

  lemma QuotedReads(s: seq<byte>, j: nat, text: seq<byte>)
    requires j < |s| && Reads(s, j, Quoted(text))
    ensures ReadString(s, j) == Ok(j + |Quoted(text)|, text)
  {
    ReadsAt(s, j, Quoted(text));
    StringRoundTrip(s, j, text);
  }

  lemma KeyHere(s: seq<byte>, i: nat, next: nat, key: seq<byte>)
    requires Terminated(s) && i < |s| && next < |s|
    requires ReadString(s, SkipWhitespace(s, i)) == Ok(next, key) && CString(key) == key
    requires s[SkipWhitespace(s, next)] == COLON
    ensures ParseKey(s, i) == Key(SkipWhitespace(s, next) + 1, key)
  {
  }

  /** A key and its colon. */
  lemma KeyLaid(s: seq<byte>, i: nat, key: seq<byte>, rest: Tokens) returns (p: nat)
    requires Terminated(s) && i < |s| && NUL !in key
    requires LaidAt(s, i, Then(Quoted(key), Then([COLON], rest)))
    ensures p < |s| && ParseKey(s, i) == Key(p, key) && LaidAt(s, p, rest)
  {
    var next := SkipWhitespace(s, i) + |Quoted(key)|;
    var colon, _ := MarkAt(s, next, COLON, rest);
    QuotedReads(s, SkipWhitespace(s, i), key);
    CStringEndsAtNul(key);
    KeyHere(s, i, next, key);
    p := colon + 1;
  }

  lemma {:induction false} MemberValueLaid(s: seq<byte>, i: nat, m: Member, c: byte, rest: Tokens, depth: nat)
    returns (p: nat)
    requires Terminated(s) && i < |s| && Printable(m.value) && (c == COMMA || c == RBRACE)
    requires LaidAt(s, i, TokensThen(m.value, Then([c], rest)))
    ensures p < |s| && (Fits(m.value, depth) ==> LaidAt(s, p, rest))
    ensures var r := ParseMemberValue(s, i, m.key, depth);
            if Fits(m.value, depth) then r == AMember(p, m, c == COMMA) else r.NoMember?
    decreases m, 2
  {
    var end;
    MarkCloses(c, rest);
    end, p := ValueAndMarkLaid(s, i, m.value, c, rest, depth);
    if Fits(m.value, depth) { MemberHere(s, i, depth, m, end); } else { MemberRefused(s, i, depth, m.key); }
  }

  lemma MemberRefused(s: seq<byte>, i: nat, depth: nat, key: seq<byte>)
    requires Terminated(s) && i < |s| && ValueFrom(s, i, depth).NoValue?
    ensures ParseMemberValue(s, i, key, depth).NoMember?
  {
  }

  lemma {:induction false} MemberLaid(s: seq<byte>, i: nat, m: Member, c: byte, rest: Tokens, depth: nat)
    returns (p: nat)
    requires Terminated(s) && i < |s| && PrintableMember(m) && (c == COMMA || c == RBRACE)
    requires LaidAt(s, i, MemberThen(m, Then([c], rest)))
    ensures p < |s| && (Fits(m.value, depth) ==> LaidAt(s, p, rest))
    ensures var r := ParseMember(s, i, depth);
            if Fits(m.value, depth) then r == AMember(p, m, c == COMMA) else r.NoMember?
    decreases m, 3
  {
    var colon := KeyLaid(s, i, m.key, TokensThen(m.value, Then([c], rest)));
    p := MemberValueLaid(s, colon, m, c, rest, depth);
  }

  lemma {:induction false} MembersLaid(s: seq<byte>, i: nat, members: seq<Member>, rest: Tokens, depth: nat,
                                       acc: seq<Member>) returns (p: nat)
    requires Terminated(s) && i < |s| && members != [] && forall m <- members :: PrintableMember(m)
    requires LaidAt(s, i, MembersThen(members, Then([RBRACE], rest)))
    ensures p < |s| && (MembersFit(members, depth) ==> LaidAt(s, p, rest))
    ensures var r := ParseMembers(s, i, depth, acc);
            if MembersFit(members, depth) then r == Members(p, acc + members) else r.NoMembers?
    decreases members, 0
  {
    var m := members[0];
    assert m in members;
    if |members| == 1 {
      p := MemberLaid(s, i, m, RBRACE, rest, depth);
      assert members == [m] && members[1..] == [] && MembersFit([], depth);
    } else {
      var tail := members[1..];
      assert members == [m] + tail;
      assert acc + [m] + tail == acc + members;
      p := MemberLaid(s, i, m, COMMA, MembersThen(tail, Then([RBRACE], rest)), depth);
      if Fits(m.value, depth) { p := MembersLaid(s, p, tail, rest, depth, acc + [m]); }
    }
  }

  // ---------------------------------------------------------------- round trips

  lemma NoBom(s: seq<byte>, tok: seq<byte>, rest: Tokens)
    requires s != [] && tok != [] && tok[0] < 128 && LaidAt(s, 0, Then(tok, rest))
    ensures SkipBom(s) == 0
  {
    assert Reads(s, SkipWhitespace(s, 0), tok);
    assert |s| > 4 ==> s[..3][0] == s[0];
  }

  lemma LaidTextParses(s: seq<byte>, t: Json)
    requires Terminated(s) && Printable(t) && LaidAt(s, 0, TokensThen(t, End))
    ensures if Fits(t, 0) then Parse(s, true) == Value(|s| - 1, t) else Parse(s, true).NoValue?
  {
    var toks := TokensThen(t, End);
    FirstByte(t, End);
    NoBom(s, toks.tok, toks.rest);
    var p := ValueLaid(s, 0, t, End, 0);
    ParseFromStart(s, t, p);
  }

  lemma ParseFromStart(s: seq<byte>, t: Json, p: nat)
    requires Terminated(s) && SkipBom(s) == 0
    ensures ValueFrom(s, 0, 0).NoValue? ==> Parse(s, true).NoValue?
    ensures p < |s| && ValueFrom(s, 0, 0) == Value(p, t) && LaidAt(s, p, End) ==> Parse(s, true) == Value(|s| - 1, t)
  {
  }

  /** Any value the printer can print, its tokens with any runs of the bytes 1 to 32 around and
      between them and a NUL behind, is parsed back whole when the parser is told to check for the
      end, with the same children in the same order: exactly if it is nested at most 1000 deep. */
  lemma AnyLayoutRoundTrip(t: Json, l: Layout)
    requires Printable(t) && TokensIn(l) == TokensThen(t, End) && BlankGaps(l)
    ensures var text := Written(l);
            if Fits(t, 0) then Parse(text + [NUL], true) == Value(|text|, t) else Parse(text + [NUL], true).NoValue?
  {
    var s := Written(l) + [NUL];
    TokensAreSolid(t, End);
    WordReads(s, 0, Written(l));
    LayoutLaid(s, 0, l);
    LaidTextParses(s, t);
  }

  /** What cJSON_Print and cJSON_PrintUnformatted print, cJSON_Parse reads back. */
  lemma PrintedRoundTrip(t: Json, format: bool)
    requires Printable(t)
    ensures var text := Render(t, format, 0);
            if Fits(t, 0) then Parse(text + [NUL], true) == Value(|text|, t) else Parse(text + [NUL], true).NoValue?
  {
    var text := Render(t, format, 0);
    var l := RenderJoins(t, format, 0, Last([]));
    assert text + [] == text;
    AnyLayoutRoundTrip(t, l);
  }
}
