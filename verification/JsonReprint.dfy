/** What a successful parse guarantees, and printing what was parsed. */
module JsonReprint {
  import opened Bytes
  import opened JsonString
  import opened JsonTree
  import opened JsonGrammar
  import opened JsonRoundTrip
  import G = JsonGrammar

  // ---------------------------------------------------------------- what comes out of the parser

  /** Strings and keys are C strings, short integers are within their limit, any other number stands for
      a literal that was read, and nothing is nested deeper than the parser goes when it stands at depth. */
  ghost predicate Parsed(t: Json, depth: nat)
    decreases t
  {
    match t
    case Num(Integer(n)) => -INTEGER_LIMIT < n < INTEGER_LIMIT
    case Num(Other(literal)) => 0 < |literal| <= NUMBER_CHARS && forall c <- literal :: IsNumberChar(c)
    case Str(text) => NUL !in text
    case Arr(items) => depth < NESTING_LIMIT && forall x <- items :: Parsed(x, depth + 1)
    case Obj(members) => depth < NESTING_LIMIT && forall m <- members :: ParsedMember(m, depth + 1)
    case _ => true
  }

  ghost predicate ParsedMember(m: Member, depth: nat)
    decreases m
  {
    NUL !in m.key && Parsed(m.value, depth)
  }

  lemma {:induction false} DigitsValueBound(t: seq<byte>)
    requires forall c <- t :: IsDigit(c)
    ensures DigitsValue(t) < Pow(10, |t|)
    decreases |t|
  {
    if t != [] {
      var front := t[..|t| - 1];
      assert forall c <- front :: c in t;
      assert t[|t| - 1] in t;
      DigitsValueBound(front);
    }
  }

  lemma {:induction false} PowGrows(a: nat, b: nat)
    requires a <= b
    ensures Pow(10, a) <= Pow(10, b)
    decreases b
  {
    if a < b { PowGrows(a, b - 1); }
  }

  lemma NumberIsParsed(t: seq<byte>, depth: nat)
    requires 0 < |t| <= NUMBER_CHARS && forall c <- t :: IsNumberChar(c)
    ensures Parsed(Num(NumberOf(t)), depth)
  {
    var i := SignLength(t, 0);
    if CountDigits(t, i) == |t| - i <= 15 {
      CountedAreDigits(t, i);
      DigitsValueBound(t[i..]);
      PowGrows(|t| - i, 15);
      TenToFifteen();
    }
  }

  lemma {:induction false} CountedAreNumberChars(s: seq<byte>, i: nat, limit: nat)
    requires i <= |s|
    ensures forall c <- s[i..i + CountNumberChars(s, i, limit)] :: IsNumberChar(c)
    decreases limit
  {
    var n := CountNumberChars(s, i, limit);
    if n > 0 {
      CountedAreNumberChars(s, i + 1, limit - 1);
      assert s[i..i + n] == [s[i]] + s[i + 1..i + n];
    }
  }

  lemma ReadNumberIsParsed(s: seq<byte>, i: nat, depth: nat)
    requires i <= |s| && ReadNumber(s, i).ANumber?
    ensures Parsed(Num(ReadNumber(s, i).number), depth)
  {
    CountedAreNumberChars(s, i, NUMBER_CHARS);
    TakenIsParsed(s[i..i + CountNumberChars(s, i, NUMBER_CHARS)], i, depth);
  }

  lemma TakenIsParsed(literal: seq<byte>, i: nat, depth: nat)
    requires |literal| <= NUMBER_CHARS && (forall c <- literal :: IsNumberChar(c)) && TakeNumber(literal, i).ANumber?
    ensures Parsed(Num(TakeNumber(literal, i).number), depth)
  {
    var n := StrtodLength(literal);
    assert forall c <- literal[..n] :: c in literal;
    NumberIsParsed(literal[..n], depth);
  }

  lemma {:induction false} ValueIsParsed(s: seq<byte>, i: nat, depth: nat)
    requires Terminated(s) && i < |s| && G.ParseValue(s, i, depth).Value?
    ensures Parsed(G.ParseValue(s, i, depth).value, depth)
    decreases |s| - i, 1
  {
    if Reads(s, i, NULL_TEXT) || Reads(s, i, FALSE_TEXT) || Reads(s, i, TRUE_TEXT) {
    } else if s[i] == QUOTE {
      CStringEndsAtNul(ReadString(s, i).text);
    } else if s[i] == MINUS || IsDigit(s[i]) {
      ReadNumberIsParsed(s, i, depth);
    } else if s[i] == LBRACKET {
      var j := SkipWhitespace(s, i + 1);
      if s[j] != RBRACKET { ItemsAreParsed(s, j, depth + 1, []); }
    } else {
      var j := SkipWhitespace(s, i + 1);
      if s[j] != RBRACE { MembersAreParsed(s, j, depth + 1, []); }
    }
  }

  lemma {:induction false} ItemIsParsed(s: seq<byte>, i: nat, depth: nat)
    requires Terminated(s) && i < |s| && ParseItem(s, i, depth).Item?
    ensures Parsed(ParseItem(s, i, depth).item, depth)
    decreases |s| - i, 2
  {
    ValueIsParsed(s, SkipWhitespace(s, i), depth);
  }

  lemma {:induction false} ItemsAreParsed(s: seq<byte>, i: nat, depth: nat, acc: seq<Json>)
    requires Terminated(s) && i < |s| && ParseItems(s, i, depth, acc).Items?
    requires forall x <- acc :: Parsed(x, depth)
    ensures forall x <- ParseItems(s, i, depth, acc).items :: Parsed(x, depth)
    decreases |s| - i, 3
  {
    var r := ParseItem(s, i, depth);
    ItemIsParsed(s, i, depth);
    if r.more { ItemsAreParsed(s, r.next, depth, acc + [r.item]); }
  }

  lemma KeyIsCString(s: seq<byte>, i: nat)
    requires Terminated(s) && i < |s|
    ensures ParseKey(s, i).Key? ==> NUL !in ParseKey(s, i).key
  {
    var r := ReadString(s, SkipWhitespace(s, i));
    if r.Ok? { CStringEndsAtNul(r.text); }
  }

  lemma {:induction false} MemberIsParsed(s: seq<byte>, i: nat, depth: nat)
    requires Terminated(s) && i < |s| && ParseMember(s, i, depth).AMember?
    ensures ParsedMember(ParseMember(s, i, depth).member, depth)
    decreases |s| - i, 3
  {
    var key := ParseKey(s, i);
    KeyIsCString(s, i);
    if key.Key? { MemberValueIsParsed(s, key.next, key.key, depth); }
  }

  lemma {:induction false} MemberValueIsParsed(s: seq<byte>, i: nat, key: seq<byte>, depth: nat)
    requires Terminated(s) && i < |s| && NUL !in key && ParseMemberValue(s, i, key, depth).AMember?
    ensures ParsedMember(ParseMemberValue(s, i, key, depth).member, depth)
    decreases |s| - i, 2
  {
    ValueIsParsed(s, SkipWhitespace(s, i), depth);
  }

  lemma {:induction false} MembersAreParsed(s: seq<byte>, i: nat, depth: nat, acc: seq<Member>)
    requires Terminated(s) && i < |s| && ParseMembers(s, i, depth, acc).Members?
    requires forall m <- acc :: ParsedMember(m, depth)
    ensures forall m <- ParseMembers(s, i, depth, acc).members :: ParsedMember(m, depth)
    decreases |s| - i, 4
  {
    var r := ParseMember(s, i, depth);
    MemberIsParsed(s, i, depth);
    if r.more { MembersAreParsed(s, r.next, depth, acc + [r.member]); }
  }

  // ---------------------------------------------------------------- printing it again

  /** All its numbers are short integers. */
  ghost predicate Integral(t: Json)
    decreases t
  {
    match t
    case Num(number) => number.Integer?
    case Arr(items) => forall x <- items :: Integral(x)
    case Obj(members) => forall m <- members :: IntegralMember(m)
    case _ => true
  }

  ghost predicate IntegralMember(m: Member)
    decreases m
  {
    Integral(m.value)
  }

  lemma {:induction false} ParsedIsPrintable(t: Json, depth: nat)
    requires Parsed(t, depth)
    ensures Fits(t, depth) && (Printable(t) <==> Integral(t))
    decreases t, 1
  {
    match t
    case Arr(items) => ItemsArePrintable(items, depth + 1);
    case Obj(members) => MembersArePrintable(members, depth + 1);
    case _ =>
  }

  lemma {:induction false} ItemsArePrintable(items: seq<Json>, depth: nat)
    requires forall x <- items :: Parsed(x, depth)
    ensures ItemsFit(items, depth) && forall x <- items :: Printable(x) <==> Integral(x)
    decreases items, 0
  {
    if items != [] {
      ParsedIsPrintable(items[0], depth);
      ItemsArePrintable(items[1..], depth);
      assert items == [items[0]] + items[1..];
    }
  }

  lemma {:induction false} MembersArePrintable(members: seq<Member>, depth: nat)
    requires forall m <- members :: ParsedMember(m, depth)
    ensures MembersFit(members, depth) && forall m <- members :: PrintableMember(m) <==> IntegralMember(m)
    decreases members, 0
  {
    if members != [] {
      assert ParsedMember(members[0], depth);
      ParsedIsPrintable(members[0].value, depth);
      MembersArePrintable(members[1..], depth);
      assert members == [members[0]] + members[1..];
    }
  }

  /** Whatever the parser accepts, it makes of it a value that is nested at most 1000 deep, with C strings
      for strings and keys. */
  lemma ParseIsSound(s: seq<byte>, requireNullTerminated: bool)
    requires Terminated(s) && Parse(s, requireNullTerminated).Value?
    ensures var t := Parse(s, requireNullTerminated).value;
            Parsed(t, 0) && Fits(t, 0) && (Printable(t) <==> Integral(t))
  {
    ValueIsParsed(s, SkipWhitespace(s, SkipBom(s)), 0);
    ParsedIsPrintable(Parse(s, requireNullTerminated).value, 0);
  }

  /** Every text that is parsed, with whatever whitespace, escapes and garbage behind it, prints in a form
      that is parsed to the same value, if its numbers are short integers. */
  lemma ParsePrintParse(s: seq<byte>, requireNullTerminated: bool, format: bool)
    requires Terminated(s) && Parse(s, requireNullTerminated).Value?
    requires Integral(Parse(s, requireNullTerminated).value)
    ensures var t := Parse(s, requireNullTerminated).value;
            var text := Render(t, format, 0);
            Parse(text + [NUL], true) == Value(|text|, t)
  {
    ParseIsSound(s, requireNullTerminated);
    PrintedRoundTrip(Parse(s, requireNullTerminated).value, format);
  }
}
