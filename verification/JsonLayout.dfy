/** JSON text as tokens with whitespace between them: every such layout, and the printed ones. */
module JsonLayout {
  import opened Bytes
  import opened JsonString
  import opened JsonTree
  import opened JsonGrammar

  // ---------------------------------------------------------------- tokens and layouts

  datatype Tokens = End | Then(tok: seq<byte>, rest: Tokens)

  /** The tokens of a value, and then rest. */
  function TokensThen(t: Json, rest: Tokens): (toks: Tokens)
    ensures toks.Then?
    decreases t, 1
  {
    match t
    case Arr(items) => Then([LBRACKET], ItemsThen(items, Then([RBRACKET], rest)))
    case Obj(members) => Then([LBRACE], MembersThen(members, Then([RBRACE], rest)))
    case _ => Then(Render(t, false, 0), rest)
  }

  function ItemsThen(items: seq<Json>, rest: Tokens): Tokens
    decreases items, 0
  {
    if items == [] then rest
    else if |items| == 1 then TokensThen(items[0], rest)
    else TokensThen(items[0], Then([COMMA], ItemsThen(items[1..], rest)))
  }

  function MembersThen(members: seq<Member>, rest: Tokens): (toks: Tokens)
    ensures members != [] ==> toks.Then? && toks.tok != [] && toks.tok[0] == QUOTE
    decreases members, 0
  {
    if members == [] then rest
    else if |members| == 1 then MemberThen(members[0], rest)
    else MemberThen(members[0], Then([COMMA], MembersThen(members[1..], rest)))
  }

  function MemberThen(m: Member, rest: Tokens): (toks: Tokens)
    ensures toks.Then? && toks.tok != [] && toks.tok[0] == QUOTE
    decreases m, 0
  {
    Then(Quoted(m.key), Then([COLON], TokensThen(m.value, rest)))
  }

  /** From i on, s is toks in order with whitespace between, and whitespace up to its last byte. */
  ghost predicate LaidAt(s: seq<byte>, i: nat, toks: Tokens)
    requires i < |s|
    decreases toks
  {
    var j := SkipWhitespace(s, i);
    match toks
    case End => j == |s| - 1
    case Then(tok, rest) => Reads(s, j, tok) && j + |tok| < |s| && LaidAt(s, j + |tok|, rest)
  }

  lemma {:induction false} WordReads(s: seq<byte>, i: nat, word: seq<byte>)
    requires At(s, i, word)
    ensures Reads(s, i, word)
    decreases |word|
  {
    if word != [] {
      assert s[i + 0] == word[0];
      forall k | 0 <= k < |word[1..]| ensures s[i + 1 + k] == word[1..][k] { assert s[i + (k + 1)] == word[k + 1]; }
      WordReads(s, i + 1, word[1..]);
    }
  }

  lemma {:induction false} ReadsAt(s: seq<byte>, i: nat, word: seq<byte>)
    requires i < |s| && Reads(s, i, word)
    ensures At(s, i, word)
    decreases |word|
  {
    if word != [] {
      if word[1..] != [] { ReadsAt(s, i + 1, word[1..]); }
      forall k | 0 <= k < |word| ensures s[i + k] == word[k] {
        if k > 0 { assert s[i + 1 + (k - 1)] == word[1..][k - 1]; }
      }
    }
  }

  lemma {:induction false} ReadsSplit(s: seq<byte>, i: nat, a: seq<byte>, b: seq<byte>)
    requires Reads(s, i, a + b)
    ensures Reads(s, i, a) && Reads(s, i + |a|, b)
    decreases |a|
  {
    if a == [] {
      assert a + b == b;
    } else {
      assert (a + b)[1..] == a[1..] + b;
      ReadsSplit(s, i + 1, a[1..], b);
    }
  }

  /** Made of the bytes 1 to 32. */
  predicate Blank(gap: seq<byte>)
    decreases |gap|
  {
    gap == [] || (1 <= gap[0] <= 32 && Blank(gap[1..]))
  }

  lemma {:induction false} LaidBeforeBlanks(s: seq<byte>, i: nat, gap: seq<byte>, toks: Tokens)
    requires Reads(s, i, gap) && Blank(gap)
    requires i + |gap| < |s| && LaidAt(s, i + |gap|, toks)
    ensures LaidAt(s, i, toks)
    decreases |gap|
  {
    if gap != [] { LaidBeforeBlanks(s, i + 1, gap[1..], toks); }
  }

  lemma {:induction false} DigitsRead(n: nat)
    ensures (forall c <- Digits(n) :: IsDigit(c)) && DigitsValue(Digits(n)) == n
  {
    if n >= 10 {
      DigitsRead(n / 10);
      assert Digits(n)[..|Digits(n)| - 1] == Digits(n / 10);
    }
  }

  /** The first byte of a value's first token tells it from any punctuation. */
  lemma {:induction false} FirstByte(t: Json, rest: Tokens)
    requires Printable(t)
    ensures TokensThen(t, rest).tok != []
    ensures var c := TokensThen(t, rest).tok[0];
            32 < c < 128 && c != RBRACKET && c != RBRACE && c != COMMA && c != COLON
  {
    match t
    case Num(number) =>
      var m := if number.n < 0 then -number.n else number.n;
      assert Digits(m) != [];
    case _ =>
  }

  // ---------------------------------------------------------------- every layout

  /** Tokens with a gap before each and one behind the last. */
  datatype Layout = Last(gap: seq<byte>) | Gap(gap: seq<byte>, tok: seq<byte>, rest: Layout)

  function Written(l: Layout): seq<byte> {
    match l
    case Last(gap) => gap
    case Gap(gap, tok, rest) => gap + (tok + Written(rest))
  }

  function TokensIn(l: Layout): Tokens {
    match l
    case Last(_) => End
    case Gap(_, tok, rest) => Then(tok, TokensIn(rest))
  }

  predicate BlankGaps(l: Layout) { Blank(l.gap) && (l.Gap? ==> BlankGaps(l.rest)) }

  ghost predicate Solid(toks: Tokens) {
    toks.Then? ==> toks.tok != [] && toks.tok[0] > 32 && Solid(toks.rest)
  }

  lemma {:induction false} TokensAreSolid(t: Json, rest: Tokens)
    requires Printable(t) && Solid(rest)
    ensures Solid(TokensThen(t, rest))
    decreases t, 1
  {
    match t
    case Arr(items) => ItemsAreSolid(items, Then([RBRACKET], rest));
    case Obj(members) => MembersAreSolid(members, Then([RBRACE], rest));
    case _ => FirstByte(t, rest);
  }

  lemma {:induction false} ItemsAreSolid(items: seq<Json>, rest: Tokens)
    requires (forall x <- items :: Printable(x)) && Solid(rest)
    ensures Solid(ItemsThen(items, rest))
    decreases items, 0
  {
    if |items| == 1 {
      TokensAreSolid(items[0], rest);
    } else if items != [] {
      ItemsAreSolid(items[1..], rest);
      TokensAreSolid(items[0], Then([COMMA], ItemsThen(items[1..], rest)));
    }
  }

  lemma {:induction false} MembersAreSolid(members: seq<Member>, rest: Tokens)
    requires (forall m <- members :: Printable(m.value)) && Solid(rest)
    ensures Solid(MembersThen(members, rest))
    decreases members, 0
  {
    if members != [] {
      var m := members[0];
      assert m in members;
      if |members| == 1 {
        TokensAreSolid(m.value, rest);
      } else {
        MembersAreSolid(members[1..], rest);
        TokensAreSolid(m.value, Then([COMMA], MembersThen(members[1..], rest)));
      }
    }
  }

  lemma {:induction false} LayoutLaid(s: seq<byte>, i: nat, l: Layout)
    requires Solid(TokensIn(l)) && BlankGaps(l)
    requires Reads(s, i, Written(l)) && i + |Written(l)| + 1 == |s|
    ensures LaidAt(s, i, TokensIn(l))
    decreases l
  {
    match l
    case Last(gap) => LaidBeforeBlanks(s, i, gap, End);
    case Gap(gap, tok, rest) =>
      ReadsSplit(s, i, gap, tok + Written(rest));
      var j := i + |gap|;
      ReadsSplit(s, j, tok, Written(rest));
      LayoutLaid(s, j + |tok|, rest);
      LaidBeforeBlanks(s, i, gap, TokensIn(l));
  }

  // ---------------------------------------------------------------- printed text is a layout

  /** l with text in front, which is a layout of toks and then the tokens of l. */
  ghost predicate Joined(result: Layout, text: seq<byte>, toks: Tokens, l: Layout) {
    BlankGaps(result) && TokensIn(result) == toks && Written(result) == text + Written(l)
  }

  lemma {:induction false} BlankJoin(a: seq<byte>, b: seq<byte>)
    requires Blank(a) && Blank(b)
    ensures Blank(a + b)
    decreases |a|
  {
    if a == [] {
      assert a + b == b;
    } else {
      BlankJoin(a[1..], b);
      assert (a + b)[1..] == a[1..] + b;
    }
  }

  lemma {:induction false} SmallIsBlank(gap: seq<byte>)
    requires forall c <- gap :: 1 <= c <= 32
    ensures Blank(gap)
    decreases |gap|
  {
    if gap != [] {
      assert gap[0] in gap && forall c <- gap[1..] :: c in gap;
      SmallIsBlank(gap[1..]);
    }
  }

  lemma PutBlanks(blanks: seq<byte>, l: Layout) returns (r: Layout)
    requires Blank(blanks) && BlankGaps(l)
    ensures Joined(r, blanks, TokensIn(l), l)
  {
    BlankJoin(blanks, l.gap);
    r := l.(gap := blanks + l.gap);
    if l.Gap? { assert (blanks + l.gap) + (l.tok + Written(l.rest)) == blanks + (l.gap + (l.tok + Written(l.rest))); }
  }

  lemma PutToken(tok: seq<byte>, l: Layout) returns (r: Layout)
    requires BlankGaps(l)
    ensures Joined(r, tok, Then(tok, TokensIn(l)), l)
  {
    r := Gap([], tok, l);
    assert [] + (tok + Written(l)) == tok + Written(l);
  }

  /** A punctuation mark, and the blanks printed behind it. */
  lemma PutMark(mark: seq<byte>, l: Layout) returns (r: Layout)
    requires mark != [] && Blank(mark[1..]) && BlankGaps(l)
    ensures Joined(r, mark, Then([mark[0]], TokensIn(l)), l)
  {
    var l' := PutBlanks(mark[1..], l);
    r := PutToken([mark[0]], l');
    assert [mark[0]] + (mark[1..] + Written(l)) == mark + Written(l);
  }

  lemma {:induction false} RenderJoins(t: Json, format: bool, depth: nat, l: Layout) returns (r: Layout)
    requires BlankGaps(l)
    ensures Joined(r, Render(t, format, depth), TokensThen(t, TokensIn(l)), l)
    decreases t, 1
  {
    match t
    case Arr(items) => r := ArrayJoins(items, format, depth, l);
    case Obj(members) => r := ObjectJoins(members, format, depth, l);
    case _ =>
      r := PutToken(Render(t, format, depth), l);
  }

  lemma {:induction false} ArrayJoins(items: seq<Json>, format: bool, depth: nat, l: Layout) returns (r: Layout)
    requires BlankGaps(l)
    ensures Joined(r, [LBRACKET] + (RenderItems(items, format, depth + 1) + [RBRACKET]),
                   Then([LBRACKET], ItemsThen(items, Then([RBRACKET], TokensIn(l)))), l)
    decreases items, 1
  {
    var body := RenderItems(items, format, depth + 1);
    var close := PutToken([RBRACKET], l);
    var inside := ItemsJoin(items, format, depth + 1, close);
    r := PutToken([LBRACKET], inside);
    Nested([LBRACKET], body, [RBRACKET], Written(l));
  }

  lemma {:induction false} ItemsJoin(items: seq<Json>, format: bool, depth: nat, l: Layout) returns (r: Layout)
    requires BlankGaps(l)
    ensures Joined(r, RenderItems(items, format, depth), ItemsThen(items, TokensIn(l)), l)
    decreases items, 0
  {
    if items == [] {
      r := l;
      assert [] + Written(l) == Written(l);
    } else {
      var own, behind := Render(items[0], format, depth), RenderItems(items[1..], format, depth);
      if |items| == 1 {
        assert items[1..] == [];
        r := RenderJoins(items[0], format, depth, l);
        assert RenderItems(items, format, depth) == own;
      } else {
        var separator := ItemSeparator(format);
        var tail := ItemsJoin(items[1..], format, depth, l);
        var comma := PutMark(separator, tail);
        r := RenderJoins(items[0], format, depth, comma);
        Chained(own, separator, behind, Written(l));
      }
    }
  }

  lemma {:induction false} ObjectJoins(members: seq<Member>, format: bool, depth: nat, l: Layout) returns (r: Layout)
    requires BlankGaps(l)
    ensures Joined(r, Render(Obj(members), format, depth),
                   Then([LBRACE], MembersThen(members, Then([RBRACE], TokensIn(l)))), l)
    decreases members, 1
  {
    var start, body, end := ObjectStart(format), RenderMembers(members, format, depth + 1), ObjectEnd(format, depth);
    var close := ObjectEndJoins(format, depth, l);
    var inside := MembersJoin(members, format, depth + 1, close);
    r := PutMark(start, inside);
    Nested(start, body, end, Written(l));
  }

  lemma ObjectEndJoins(format: bool, depth: nat, l: Layout) returns (r: Layout)
    requires BlankGaps(l)
    ensures Joined(r, ObjectEnd(format, depth), Then([RBRACE], TokensIn(l)), l)
  {
    var tabs := Indent(format, depth);
    var close := PutToken([RBRACE], l);
    TabsAreTabs(depth);
    SmallIsBlank(Tabs(depth));
    r := PutBlanks(tabs, close);
    assert tabs + ([RBRACE] + Written(l)) == (tabs + [RBRACE]) + Written(l);
    assert ObjectEnd(format, depth) == tabs + [RBRACE];
  }

  lemma KeyJoins(key: seq<byte>, format: bool, depth: nat, l: Layout) returns (r: Layout)
    requires BlankGaps(l)
    ensures Joined(r, RenderKey(key, format, depth), Then(Quoted(key), Then([COLON], TokensIn(l))), l)
  {
    var tabs, text, separator := Indent(format, depth), Quoted(key), KeySeparator(format);
    var colon := PutMark(separator, l);
    var token := PutToken(text, colon);
    TabsAreTabs(depth);
    SmallIsBlank(Tabs(depth));
    r := PutBlanks(tabs, token);
    Chained(tabs, text, separator, Written(l));
  }

  lemma {:induction false} MemberJoins(m: Member, format: bool, depth: nat, l: Layout) returns (r: Layout)
    requires BlankGaps(l)
    ensures Joined(r, RenderKey(m.key, format, depth) + Render(m.value, format, depth), MemberThen(m, TokensIn(l)), l)
    decreases m, 2
  {
    var value := RenderJoins(m.value, format, depth, l);
    r := KeyJoins(m.key, format, depth, value);
    var key, own := RenderKey(m.key, format, depth), Render(m.value, format, depth);
    assert key + (own + Written(l)) == (key + own) + Written(l);
  }

  lemma {:induction false} MembersJoin(members: seq<Member>, format: bool, depth: nat, l: Layout) returns (r: Layout)
    requires BlankGaps(l)
    ensures Joined(r, RenderMembers(members, format, depth), MembersThen(members, TokensIn(l)), l)
    decreases members, 0
  {
    if members == [] {
      r := l;
      assert [] + Written(l) == Written(l);
    } else {
      var m, last := members[0], |members| == 1;
      var own, end := RenderKey(m.key, format, depth) + Render(m.value, format, depth), MemberEnd(format, last);
      var behind := RenderMembers(members[1..], format, depth);
      var next: Layout;
      if last {
        assert members[1..] == [];
        next := PutBlanks(end, l);
        assert [] + Written(l) == Written(l);
      } else {
        next := MembersJoin(members[1..], format, depth, l);
        next := PutMark(end, next);
      }
      r := MemberJoins(m, format, depth, next);
      Chained(own, end, behind, Written(l));
    }
  }
}
