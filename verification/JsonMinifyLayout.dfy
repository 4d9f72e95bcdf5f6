/** Minifying any layout of a value: whatever whitespace and comments stand between its tokens, the
    compact text is left. */
module JsonMinifyLayout {
  import opened Bytes
  import opened JsonString
  import opened JsonTree
  import opened JsonGrammar
  import opened JsonLayout
  import opened JsonRoundTrip
  import opened JsonMinify
  import opened JsonMinifyLaws

  // ---------------------------------------------------------------- gaps

  predicate ClosesBlock(s: seq<byte>)
    decreases |s|
  {
    s != [] && ((s[0] == STAR && |s| > 1 && s[1] == SLASH) || ClosesBlock(s[1..]))
  }

  /** Made of the bytes 1 to 32 and of comments of both kinds, all of them closed. */
  predicate Insignificant(gap: seq<byte>)
    decreases |gap|
  {
    gap == []
    || (1 <= gap[0] <= 32 && Insignificant(gap[1..]))
    || (|gap| > 1 && gap[0] == SLASH && gap[1] == SLASH && LF in gap[2..] && Insignificant(AfterLine(gap[2..])))
    || (|gap| > 1 && gap[0] == SLASH && gap[1] == STAR && ClosesBlock(gap[2..]) && Insignificant(AfterBlock(gap[2..])))
  }

  predicate InsignificantGaps(l: Layout) { Insignificant(l.gap) && (l.Gap? ==> InsignificantGaps(l.rest)) }

  /** The same tokens, with what minifying leaves of the gaps. */
  function Minified(l: Layout): Layout {
    match l
    case Last(gap) => Last(Minify(gap))
    case Gap(gap, tok, rest) => Gap(Minify(gap), tok, Minified(rest))
  }

  /** Of bytes up to 32 only the four kinds of whitespace, and of comments everything. */
  predicate NothingLeft(l: Layout) { Minify(l.gap) == [] && (l.Gap? ==> NothingLeft(l.rest)) }

  lemma {:induction false} LineEndsInside(s: seq<byte>, x: seq<byte>)
    requires LF in s
    ensures AfterLine(s + x) == AfterLine(s) + x
    decreases |s|
  {
    if s[0] == LF {
      assert (s + x)[1..] == s[1..] + x;
    } else {
      assert (s + x)[1..] == s[1..] + x;
      LineEndsInside(s[1..], x);
    }
  }

  lemma {:induction false} BlockEndsInside(s: seq<byte>, x: seq<byte>)
    requires ClosesBlock(s)
    ensures AfterBlock(s + x) == AfterBlock(s) + x
    decreases |s|
  {
    if s[0] == STAR && |s| > 1 && s[1] == SLASH {
      assert (s + x)[2..] == s[2..] + x;
    } else {
      assert (s + x)[1..] == s[1..] + x;
      assert |s| > 1;
      BlockEndsInside(s[1..], x);
    }
  }

  lemma {:induction false} GapShrinks(gap: seq<byte>, x: seq<byte>)
    requires Insignificant(gap)
    ensures Minify(gap + x) == Minify(gap) + Minify(x) && Blank(Minify(gap))
    decreases |gap|
  {
    if gap == [] {
      assert gap + x == x && Minify(gap) + Minify(x) == Minify(x);
    } else if gap[0] <= 32 {
      assert (gap + x)[1..] == gap[1..] + x;
      GapShrinks(gap[1..], x);
      if !IsBlank(gap[0]) { Regroup([gap[0]], Minify(gap[1..]), Minify(x)); }
    } else {
      assert (gap + x)[2..] == gap[2..] + x;
      if gap[1] == SLASH {
        LineEndsInside(gap[2..], x);
        GapShrinks(AfterLine(gap[2..]), x);
      } else {
        BlockEndsInside(gap[2..], x);
        GapShrinks(AfterBlock(gap[2..]), x);
      }
    }
  }

  // ---------------------------------------------------------------- tokens

  ghost predicate Stays(tok: seq<byte>) { forall x :: Minify(tok + x) == tok + Minify(x) }

  ghost predicate AllStay(toks: Tokens) { toks.Then? ==> Stays(toks.tok) && AllStay(toks.rest) }

  function Compact(toks: Tokens): seq<byte> { if toks.End? then [] else toks.tok + Compact(toks.rest) }

  lemma {:induction false} LayoutShrinks(l: Layout)
    requires InsignificantGaps(l) && AllStay(TokensIn(l))
    ensures Minify(Written(l)) == Written(Minified(l))
    ensures TokensIn(Minified(l)) == TokensIn(l) && BlankGaps(Minified(l))
    decreases l
  {
    match l
    case Last(gap) =>
      GapShrinks(gap, []);
    case Gap(gap, tok, rest) =>
      GapShrinks(gap, tok + Written(rest));
      LayoutShrinks(rest);
  }

  /** Written text is longer than the compact one by what stands in the gaps. */
  lemma {:induction false} GapsCount(l: Layout)
    requires AllStay(TokensIn(l))
    ensures |Written(Minified(l))| >= |Compact(TokensIn(l))|
    ensures Written(Minified(l)) == Compact(TokensIn(l)) <==> NothingLeft(l)
    decreases l
  {
    if l.Gap? {
      GapsCount(l.rest);
      if NothingLeft(l) { assert [] + (l.tok + Written(Minified(l.rest))) == l.tok + Written(Minified(l.rest)); }
      if Minify(l.gap) == [] && Written(Minified(l)) == Compact(TokensIn(l)) {
        SameTail(l.tok, Written(Minified(l.rest)), Compact(TokensIn(l.rest)));
      }
    }
  }

  lemma SameTail(a: seq<byte>, b: seq<byte>, c: seq<byte>)
    requires [] + (a + b) == a + c
    ensures b == c
  {
    assert (a + b)[|a|..] == b && (a + c)[|a|..] == c;
    assert [] + (a + b) == a + b;
  }

  /** A string after which the minifier takes the literal to go on. */
  ghost predicate Leaks(tok: seq<byte>) { forall x :: Minify(tok + x) == tok + MinifyString(x) }

  lemma LeaksOrStays(tok: seq<byte>)
    ensures !(Leaks(tok) && Stays(tok))
  {
    assert |MinifyString([SP])| == 1 && |Minify([SP])| == 0;
    assert |Minify(tok + [SP])| >= 0;
  }

  /** Tokens start with no byte the minifier drops, and stay or leak. */
  ghost predicate AllKept(toks: Tokens) {
    toks.Then? ==>
      && toks.tok != [] && !Drops(toks.tok[0]) && toks.tok[0] > 32
      && (Stays(toks.tok) || Leaks(toks.tok)) && AllKept(toks.rest)
  }

  predicate Drops(c: byte) { IsBlank(c) || c == SLASH }

  lemma TextKept(text: seq<byte>, rest: Tokens)
    requires AllKept(rest)
    ensures AllKept(Then(Quoted(text), rest)) && (Stays(Quoted(text)) <==> !EndsInBackslash(text))
  {
    forall x ensures Minify(Quoted(text) + x) == Quoted(text) + Left(!EndsInBackslash(text), x) {
      QuotedStays(text, x);
    }
    if EndsInBackslash(text) { assert Leaks(Quoted(text)); } else { assert Stays(Quoted(text)); }
    LeaksOrStays(Quoted(text));
  }

  lemma WordKept(t: Json, rest: Tokens)
    requires Printable(t) && !t.Str? && !t.Arr? && !t.Obj? && AllKept(rest)
    ensures AllKept(Then(Render(t, false, 0), rest)) && Stays(Render(t, false, 0))
  {
    forall x ensures Minify(Render(t, false, 0) + x) == Render(t, false, 0) + Minify(x) { WordStays(t, false, 0, x); }
    CompactStart(t, 0);
    FirstByte(t, rest);
  }

  lemma MarkKept(c: byte, rest: Tokens)
    requires IsOrdinary(c) && c > 32 && AllKept(rest)
    ensures AllKept(Then([c], rest)) && Stays([c])
  {
    forall x ensures Minify([c] + x) == [c] + Minify(x) { OrdinaryStays([c], x); }
  }

  /** The tokens of a value stay exactly if no string or key in it ends in a backslash. */
  lemma {:induction false} TokensKept(t: Json, rest: Tokens)
    requires Printable(t) && AllKept(rest)
    ensures AllKept(TokensThen(t, rest)) && (AllStay(TokensThen(t, rest)) <==> Tame(t) && AllStay(rest))
    decreases t, 1
  {
    match t
    case Arr(items) =>
      MarkKept(RBRACKET, rest);
      ItemsKept(items, Then([RBRACKET], rest));
      MarkKept(LBRACKET, ItemsThen(items, Then([RBRACKET], rest)));
    case Obj(members) =>
      MarkKept(RBRACE, rest);
      MembersKept(members, Then([RBRACE], rest));
      MarkKept(LBRACE, MembersThen(members, Then([RBRACE], rest)));
    case Str(text) => TextKept(text, rest);
    case _ => WordKept(t, rest);
  }

  lemma {:induction false} ItemsKept(items: seq<Json>, rest: Tokens)
    requires (forall t <- items :: Printable(t)) && AllKept(rest)
    ensures AllKept(ItemsThen(items, rest)) && (AllStay(ItemsThen(items, rest)) <==> ItemsTame(items) && AllStay(rest))
    decreases items, 0
  {
    if |items| == 1 {
      TokensKept(items[0], rest);
      assert items[1..] == [];
    } else if items != [] {
      ItemsKept(items[1..], rest);
      MarkKept(COMMA, ItemsThen(items[1..], rest));
      TokensKept(items[0], Then([COMMA], ItemsThen(items[1..], rest)));
    }
  }

  lemma {:induction false} MemberKept(m: Member, rest: Tokens)
    requires PrintableMember(m) && AllKept(rest)
    ensures AllKept(MemberThen(m, rest))
    ensures AllStay(MemberThen(m, rest)) <==> !EndsInBackslash(m.key) && Tame(m.value) && AllStay(rest)
    decreases m, 2
  {
    TokensKept(m.value, rest);
    MarkKept(COLON, TokensThen(m.value, rest));
    TextKept(m.key, Then([COLON], TokensThen(m.value, rest)));
  }

  lemma {:induction false} MembersKept(members: seq<Member>, rest: Tokens)
    requires (forall m <- members :: PrintableMember(m)) && AllKept(rest)
    ensures AllKept(MembersThen(members, rest))
    ensures AllStay(MembersThen(members, rest)) <==> MembersTame(members) && AllStay(rest)
    decreases members, 0
  {
    if members != [] {
      assert members[0] in members;
      if |members| == 1 {
        MemberKept(members[0], rest);
        assert members[1..] == [];
      } else {
        MembersKept(members[1..], rest);
        MarkKept(COMMA, MembersThen(members[1..], rest));
        MemberKept(members[0], Then([COMMA], MembersThen(members[1..], rest)));
      }
    }
  }

  // ---------------------------------------------------------------- where a literal is taken to go on

  /** Behind every string that leaks stands something the minifier should drop. */
  ghost predicate DropsBehindLeaks(l: Layout) {
    l.Gap? ==> (Leaks(l.tok) ==> l.rest.gap != [] && Drops(l.rest.gap[0])) && DropsBehindLeaks(l.rest)
  }

  /** What is left of a gap starts with no byte the minifier drops. */
  lemma {:induction false} LeftOfGap(gap: seq<byte>)
    requires Insignificant(gap)
    ensures Minify(gap) != [] ==> !Drops(Minify(gap)[0])
    decreases |gap|
  {
    if gap == [] {
    } else if gap[0] <= 32 {
      LeftOfGap(gap[1..]);
    } else if gap[1] == SLASH {
      LeftOfGap(AfterLine(gap[2..]));
    } else {
      LeftOfGap(AfterBlock(gap[2..]));
    }
  }

  lemma LeakShows(l: Layout)
    requires InsignificantGaps(l) && AllKept(TokensIn(l)) && l.gap != [] && Drops(l.gap[0])
    ensures MinifyString(Written(l)) != Written(Minified(l))
  {
    LeftOfGap(l.gap);
    assert MinifyString(Written(l))[0] == l.gap[0];
    if l.Gap? && Minify(l.gap) == [] {
      assert [] + (l.tok + Written(Minified(l.rest))) == l.tok + Written(Minified(l.rest));
    }
  }

  lemma SamePrefix(a: seq<byte>, b: seq<byte>, c: seq<byte>, d: seq<byte>)
    requires a + (b + c) == a + (b + d)
    ensures c == d
  {
    assert (a + (b + c))[|a| + |b|..] == c && (a + (b + d))[|a| + |b|..] == d;
  }

  lemma {:induction false} LeakChanges(l: Layout)
    requires InsignificantGaps(l) && AllKept(TokensIn(l)) && DropsBehindLeaks(l)
    ensures Minify(Written(l)) == Written(Minified(l)) <==> AllStay(TokensIn(l))
    decreases l
  {
    if AllStay(TokensIn(l)) {
      LayoutShrinks(l);
    } else {
      GapShrinks(l.gap, l.tok + Written(l.rest));
      LeaksOrStays(l.tok);
      if Stays(l.tok) { LeakChanges(l.rest); } else { LeakShows(l.rest); }
      if Minify(Written(l)) == Written(Minified(l)) {
        SamePrefix(Minify(l.gap), l.tok, Left(Stays(l.tok), Written(l.rest)), Written(Minified(l.rest)));
      }
    }
  }

  // ---------------------------------------------------------------- the compact text

  lemma {:induction false} CompactIsRendered(t: Json, depth: nat, rest: Tokens)
    ensures Compact(TokensThen(t, rest)) == Render(t, false, depth) + Compact(rest)
    decreases t, 1
  {
    match t
    case Arr(items) =>
      ItemsAreRendered(items, depth + 1, Then([RBRACKET], rest));
      Nested([LBRACKET], RenderItems(items, false, depth + 1), [RBRACKET], Compact(rest));
    case Obj(members) =>
      MembersAreRendered(members, depth + 1, Then([RBRACE], rest));
      Nested([LBRACE], RenderMembers(members, false, depth + 1), [RBRACE], Compact(rest));
    case _ =>
  }

  lemma {:induction false} ItemsAreRendered(items: seq<Json>, depth: nat, rest: Tokens)
    ensures Compact(ItemsThen(items, rest)) == RenderItems(items, false, depth) + Compact(rest)
    decreases items, 0
  {
    if items == [] {
      NothingBefore(Compact(rest));
    } else if |items| == 1 {
      CompactIsRendered(items[0], depth, rest);
      OneItem(items, false, depth);
    } else {
      var behind := Then([COMMA], ItemsThen(items[1..], rest));
      CompactIsRendered(items[0], depth, behind);
      ItemsAreRendered(items[1..], depth, rest);
      Chained(Render(items[0], false, depth), [COMMA], RenderItems(items[1..], false, depth), Compact(rest));
      ItemsText(items, false, depth);
    }
  }

  lemma {:induction false} MembersAreRendered(members: seq<Member>, depth: nat, rest: Tokens)
    ensures Compact(MembersThen(members, rest)) == RenderMembers(members, false, depth) + Compact(rest)
    decreases members, 0
  {
    if members == [] {
      NothingBefore(Compact(rest));
    } else {
      var m, last := members[0], |members| == 1;
      var behind := if last then rest else Then([COMMA], MembersThen(members[1..], rest));
      if !last { MembersAreRendered(members[1..], depth, rest); }
      CompactIsRendered(m.value, depth, behind);
      MembersText(members, false, depth, Compact(rest));
      MemberParts(Quoted(m.key), Render(m.value, false, depth), Compact(behind));
      LastMember(members, depth, Compact(rest));
    }
  }

  lemma MemberParts(key: seq<byte>, value: seq<byte>, behind: seq<byte>)
    ensures key + ([COLON] + (value + behind)) == ([] + key) + ([COLON] + (value + behind))
  {
  }

  lemma LastMember(members: seq<Member>, depth: nat, rest: seq<byte>)
    requires members != []
    ensures MemberEnd(false, |members| == 1) + (RenderMembers(members[1..], false, depth) + rest) ==
            if |members| == 1 then rest else [COMMA] + (RenderMembers(members[1..], false, depth) + rest)
  {
    if |members| == 1 { assert members[1..] == []; }
  }

  // ---------------------------------------------------------------- the laws

  /** However a value is laid out, with whatever comments between its tokens, minifying changes the gaps
      only, if no string or key ends in a backslash. What is left is what cJSON_PrintUnformatted prints
      exactly if the gaps hold no other bytes than whitespace and comments. */
  lemma MinifyAnyLayout(t: Json, l: Layout)
    requires Printable(t) && Tame(t) && TokensIn(l) == TokensThen(t, End) && InsignificantGaps(l)
    ensures Minify(Written(l)) == Written(Minified(l))
    ensures TokensIn(Minified(l)) == TokensIn(l) && BlankGaps(Minified(l))
    ensures Minify(Written(l)) == Render(t, false, 0) <==> NothingLeft(l)
  {
    TokensKept(t, End);
    LayoutShrinks(l);
    GapsCount(l);
    CompactIsRendered(t, 0, End);
    assert Render(t, false, 0) + [] == Render(t, false, 0);
  }

  /** If whitespace or a comment stands behind every string or key that ends in a backslash, there has to be
      none of these: minifying then changes the gaps only exactly if no string or key ends so. */
  lemma MinifyExactly(t: Json, l: Layout)
    requires Printable(t) && TokensIn(l) == TokensThen(t, End) && InsignificantGaps(l) && DropsBehindLeaks(l)
    ensures Minify(Written(l)) == Written(Minified(l)) <==> Tame(t)
  {
    TokensKept(t, End);
    LeakChanges(l);
  }

  /** So the parser, which knows no comments, reads the value from the minified text, exactly if it is
      nested at most 1000 deep. */
  lemma MinifiedParses(t: Json, l: Layout)
    requires Printable(t) && Tame(t) && TokensIn(l) == TokensThen(t, End) && InsignificantGaps(l)
    ensures var r := Parse(Minify(Written(l)) + [NUL], true);
            if Fits(t, 0) then r.Value? && r.value == t else r.NoValue?
  {
    MinifyAnyLayout(t, l);
    AnyLayoutRoundTrip(t, Minified(l));
  }

  lemma {:induction false} BlankIsInsignificant(gap: seq<byte>)
    requires Blank(gap)
    ensures Insignificant(gap)
    decreases |gap|
  {
    if gap != [] { BlankIsInsignificant(gap[1..]); }
  }

  lemma {:induction false} BlankGapsAreInsignificant(l: Layout)
    requires BlankGaps(l)
    ensures InsignificantGaps(l)
    decreases l
  {
    BlankIsInsignificant(l.gap);
    if l.Gap? { BlankGapsAreInsignificant(l.rest); }
  }

  /** Minifying a text that the parser reads does not change what it reads. */
  lemma MinifyKeepsMeaning(t: Json, l: Layout)
    requires Printable(t) && Tame(t) && TokensIn(l) == TokensThen(t, End) && BlankGaps(l)
    ensures var before, after := Parse(Written(l) + [NUL], true), Parse(Minify(Written(l)) + [NUL], true);
            (before.Value? <==> after.Value?) && (before.Value? ==> before.value == after.value == t)
  {
    BlankGapsAreInsignificant(l);
    AnyLayoutRoundTrip(t, l);
    MinifiedParses(t, l);
  }
}
