/** Minifying twice is minifying once, and minifying formatted text gives the compact text - as long
    as no string ends in a backslash in front of whitespace. */
module JsonMinifyLaws {
  import opened Bytes
  import opened Utf
  import opened JsonString
  import opened JsonTree
  import opened JsonMinify

  // ---------------------------------------------------------------- minified text stays as it is

  lemma {:induction false} MinifyAgain(s: seq<byte>)
    ensures Minify(Minify(s)) == Minify(s)
    decreases |s|
  {
    if s == [] {
    } else if IsBlank(s[0]) {
      MinifyAgain(s[1..]);
    } else if s[0] == SLASH {
      if |s| > 1 && s[1] == SLASH { MinifyAgain(AfterLine(s[2..])); }
      else if |s| > 1 && s[1] == STAR { MinifyAgain(AfterBlock(s[2..])); }
      else { MinifyAgain(s[1..]); }
    } else if s[0] == QUOTE {
      MinifyStringAgain(s[1..]);
    } else {
      MinifyAgain(s[1..]);
    }
  }

  lemma Behind(c: byte, rest: seq<byte>)
    ensures ([c] + rest)[0] == c && ([c] + rest)[1..] == rest
    ensures rest != [] ==> ([c] + rest)[1] == rest[0] && ([c] + rest)[2..] == rest[1..]
  {
  }

  lemma {:induction false} MinifyStringAgain(s: seq<byte>)
    ensures MinifyString(MinifyString(s)) == MinifyString(s)
    ensures s != [] ==> MinifyString(s) != [] && MinifyString(s)[0] == s[0]
    decreases |s|
  {
    if s == [] {
    } else if s[0] == QUOTE {
      MinifyAgain(s[1..]);
      Behind(QUOTE, Minify(s[1..]));
    } else if s[0] == BACKSLASH && |s| > 1 && s[1] == QUOTE {
      var rest := MinifyString(s[2..]);
      MinifyStringAgain(s[2..]);
      Behind(BACKSLASH, [QUOTE] + rest);
      Behind(QUOTE, rest);
      assert [BACKSLASH, QUOTE] + rest == [BACKSLASH] + ([QUOTE] + rest);
    } else {
      MinifyStringAgain(s[1..]);
      Behind(s[0], MinifyString(s[1..]));
    }
  }

  // ---------------------------------------------------------------- minifying formatted text

  predicate EndsInBackslash(text: seq<byte>) { text != [] && text[|text| - 1] == BACKSLASH }

  /** No string or key in it ends in a backslash. */
  predicate Tame(t: Json)
    decreases t, 1
  {
    match t
    case Str(text) => !EndsInBackslash(text)
    case Arr(items) => ItemsTame(items)
    case Obj(members) => MembersTame(members)
    case _ => true
  }

  predicate ItemsTame(items: seq<Json>)
    decreases items, 0
  {
    items == [] || (Tame(items[0]) && ItemsTame(items[1..]))
  }

  predicate MembersTame(members: seq<Member>)
    decreases members, 0
  {
    members == [] ||
    (!EndsInBackslash(members[0].key) && Tame(members[0].value) && MembersTame(members[1..]))
  }

  /** No string that ends in a backslash is printed in front of whitespace: the formatted printer
      puts some behind every key and member and behind every element but the last. */
  predicate Survives(t: Json)
    decreases t, 1
  {
    match t
    case Arr(items) => ItemsSurvive(items)
    case Obj(members) => MembersTame(members)
    case _ => true
  }

  predicate ItemsSurvive(items: seq<Json>)
    decreases items, 0
  {
    items == [] || (if |items| == 1 then Survives(items[0]) else Tame(items[0]) && ItemsSurvive(items[1..]))
  }

  lemma {:induction false} TameSurvives(t: Json)
    requires Tame(t)
    ensures Survives(t)
    decreases t, 1
  {
    if t.Arr? { TameItemsSurvive(t.items); }
  }

  lemma {:induction false} TameItemsSurvive(items: seq<Json>)
    requires ItemsTame(items)
    ensures ItemsSurvive(items)
    decreases items, 0
  {
    if items != [] {
      TameSurvives(items[0]);
      TameItemsSurvive(items[1..]);
    }
  }

  /** What becomes of the text behind a value: after a string that ends in a backslash the literal
      is taken to go on. */
  ghost function Left(tame: bool, s: seq<byte>): seq<byte> { if tame then Minify(s) else MinifyString(s) }

  /** The two differ at a place they both have. */
  ghost predicate ApartAt(a: seq<byte>, b: seq<byte>, k: nat) {
    k < |a| && k < |b| && a[..k] == b[..k] && a[k] != b[k]
  }

  ghost predicate Apart(a: seq<byte>, b: seq<byte>) { exists k: nat :: ApartAt(a, b, k) }

  lemma ApartAfter(front: seq<byte>, a: seq<byte>, b: seq<byte>)
    requires Apart(a, b)
    ensures Apart(front + a, front + b)
  {
    var k: nat :| ApartAt(a, b, k);
    assert (front + a)[..|front| + k] == front + a[..k];
    assert (front + b)[..|front| + k] == front + b[..k];
    assert ApartAt(front + a, front + b, |front| + k);
  }

  lemma ApartBefore(a: seq<byte>, b: seq<byte>, more: seq<byte>)
    requires Apart(a, b)
    ensures Apart(a, b + more)
  {
    var k: nat :| ApartAt(a, b, k);
    assert (b + more)[..k] == b[..k];
    assert ApartAt(a, b + more, k);
  }

  lemma ApartNow(front: seq<byte>, a: seq<byte>, b: seq<byte>)
    requires a != [] && b != [] && a[0] != b[0]
    ensures Apart(front + a, front + b)
  {
    assert (front + a)[..|front|] == (front + b)[..|front|];
    assert ApartAt(front + a, front + b, |front|);
  }

  // ---------------------------------------------------------------- tokens

  predicate IsOrdinary(c: byte) { !IsBlank(c) && c != SLASH && c != QUOTE }

  lemma {:induction false} OrdinaryStays(a: seq<byte>, x: seq<byte>)
    requires forall c <- a :: IsOrdinary(c)
    ensures Minify(a + x) == a + Minify(x)
    decreases |a|
  {
    if a == [] {
      assert a + x == x && a + Minify(x) == Minify(x);
    } else {
      assert a[0] in a && (a + x)[1..] == a[1..] + x;
      assert forall c <- a[1..] :: c in a;
      OrdinaryStays(a[1..], x);
      assert [a[0]] + (a[1..] + Minify(x)) == a + Minify(x);
    }
  }

  lemma {:induction false} DigitsAreOrdinary(n: nat)
    ensures forall c <- Digits(n) :: IsOrdinary(c)
  {
    if n >= 10 { DigitsAreOrdinary(n / 10); }
  }

  lemma {:induction false} BlanksGo(a: seq<byte>, x: seq<byte>)
    requires forall c <- a :: IsBlank(c)
    ensures Minify(a + x) == Minify(x)
    decreases |a|
  {
    if a == [] {
      assert a + x == x;
    } else {
      assert a[0] in a && (a + x)[1..] == a[1..] + x;
      assert forall c <- a[1..] :: c in a;
      BlanksGo(a[1..], x);
    }
  }

  lemma {:induction false} LiteralBytesStay(a: seq<byte>, x: seq<byte>)
    requires forall k :: 0 <= k < |a| ==> a[k] != QUOTE && a[k] != BACKSLASH
    ensures MinifyString(a + x) == a + MinifyString(x)
    decreases |a|
  {
    if a == [] {
      assert a + x == x && a + MinifyString(x) == MinifyString(x);
    } else {
      assert (a + x)[1..] == a[1..] + x;
      LiteralBytesStay(a[1..], x);
      assert [a[0]] + (a[1..] + MinifyString(x)) == a + MinifyString(x);
    }
  }

  lemma EscapeStays(e: seq<byte>, x: seq<byte>)
    requires |e| > 1 && e[0] == BACKSLASH && forall k :: 1 <= k < |e| ==> e[k] != QUOTE && e[k] != BACKSLASH
    ensures MinifyString(e + x) == e + MinifyString(x)
  {
    LiteralBytesStay(e[1..], x);
    assert e + x == [BACKSLASH] + (e[1..] + x);
    assert e + MinifyString(x) == [BACKSLASH] + (e[1..] + MinifyString(x));
  }

  /** An escaped byte stays, in front of anything that is no quote. */
  lemma EscapedByteStays(c: byte, x: seq<byte>)
    requires c == BACKSLASH ==> x == [] || x[0] != QUOTE
    ensures MinifyString(EscapedByte(c) + x) == EscapedByte(c) + MinifyString(x)
  {
    if c == QUOTE { assert ([BACKSLASH, QUOTE] + x)[2..] == x; }
    else if c != BACKSLASH && |EscapedByte(c)| > 1 { EscapeStays(EscapedByte(c), x); }
  }

  /** A text that ends in a backslash: its last byte and the closing quote. */
  lemma ClosingQuoteEscaped(x: seq<byte>)
    ensures MinifyString(EscapedByte(BACKSLASH) + ([QUOTE] + x)) ==
            EscapedByte(BACKSLASH) + ([QUOTE] + MinifyString(x))
  {
    var y := [BACKSLASH, QUOTE] + x;
    assert EscapedByte(BACKSLASH) + ([QUOTE] + x) == [BACKSLASH] + y;
    assert [BACKSLASH] + ([BACKSLASH, QUOTE] + MinifyString(x)) ==
           EscapedByte(BACKSLASH) + ([QUOTE] + MinifyString(x));
  }

  lemma {:induction false} EscapedTextStays(text: seq<byte>, x: seq<byte>)
    ensures MinifyString(Escape(text) + ([QUOTE] + x)) ==
            Escape(text) + ([QUOTE] + Left(!EndsInBackslash(text), x))
    decreases |text|
  {
    var close, left := [QUOTE] + x, [QUOTE] + Left(!EndsInBackslash(text), x);
    if text == [] {
      assert [] + close == close && [] + left == left;
    } else if text == [BACKSLASH] {
      ClosingQuoteEscaped(x);
      assert Escape(text) == EscapedByte(BACKSLASH);
    } else {
      EscapedTextStays(text[1..], x);
      EscapedByteInFront(text, close, left);
    }
  }

  lemma EscapedByteInFront(text: seq<byte>, close: seq<byte>, left: seq<byte>)
    requires text != [] && text != [BACKSLASH] && close != []
    requires MinifyString(Escape(text[1..]) + close) == Escape(text[1..]) + left
    ensures MinifyString(Escape(text) + close) == Escape(text) + left
  {
    var e, rest := EscapedByte(text[0]), Escape(text[1..]);
    Regroup(e, rest, close);
    Regroup(e, rest, left);
    EscapedByteStays(text[0], rest + close);
  }

  lemma QuotedStays(text: seq<byte>, x: seq<byte>)
    ensures Minify(Quoted(text) + x) == Quoted(text) + Left(!EndsInBackslash(text), x)
  {
    var body, left := Escape(text), Left(!EndsInBackslash(text), x);
    EscapedTextStays(text, x);
    Chained([QUOTE], body, [QUOTE], x);
    Chained([QUOTE], body, [QUOTE], left);
  }

  /** Number, null, true and false. */
  lemma WordStays(t: Json, format: bool, depth: nat, x: seq<byte>)
    requires Printable(t) && !t.Str? && !t.Arr? && !t.Obj?
    ensures Minify(Render(t, format, depth) + x) == Render(t, format, depth) + Minify(x)
  {
    if t.Num? { DigitsAreOrdinary(if t.number.n < 0 then -t.number.n else t.number.n); }
    OrdinaryStays(Render(t, format, depth), x);
  }

  /** A punctuation mark or nothing, and a blank behind it. */
  lemma MarkStays(mark: seq<byte>, blank: byte, x: seq<byte>)
    requires IsBlank(blank) && |mark| <= 1
    requires forall k :: 0 <= k < |mark| ==> IsOrdinary(mark[k]) && mark[k] != BACKSLASH
    ensures Minify(mark + ([blank] + x)) == mark + Minify(x)
    ensures MinifyString(mark + ([blank] + x)) == mark + ([blank] + MinifyString(x))
  {
    OrdinaryStays(mark, [blank] + x);
    LiteralBytesStay([blank], x);
    LiteralBytesStay(mark, [blank] + x);
  }

  // ---------------------------------------------------------------- values

  /** Compact text starts with no blank. */
  lemma CompactStart(t: Json, depth: nat)
    requires Printable(t)
    ensures Render(t, false, depth) != [] && !IsBlank(Render(t, false, depth)[0])
  {
    if t.Num? { assert Digits(if t.number.n < 0 then -t.number.n else t.number.n) != []; }
  }

  /** What minifying makes of a text that starts with formatted, whose compact form is compact. */
  ghost predicate Shrinks(formatted: seq<byte>, compact: seq<byte>, survives: bool, tame: bool, x: seq<byte>) {
    if survives then Minify(formatted + x) == compact + Left(tame, x) else Apart(Minify(formatted + x), compact)
  }

  /** A formatted value at the front of a text minifies to the compact one exactly if it survives;
      otherwise the two differ within the compact one. */
  lemma {:induction false} FormattedShrinks(t: Json, depth: nat, x: seq<byte>)
    requires Printable(t)
    ensures Shrinks(Render(t, true, depth), Render(t, false, depth), Survives(t), Tame(t), x)
    decreases t, 1
  {
    match t
    case Arr(items) => ArrayShrinks(items, depth, x);
    case Obj(members) => ObjectShrinks(members, depth, x);
    case Str(text) => QuotedStays(text, x);
    case _ => WordStays(t, true, depth, x); assert Render(t, true, depth) == Render(t, false, depth);
  }

  lemma {:induction false} ArrayShrinks(items: seq<Json>, depth: nat, x: seq<byte>)
    requires forall t <- items :: Printable(t)
    ensures Shrinks([LBRACKET] + (RenderItems(items, true, depth + 1) + [RBRACKET]),
                    [LBRACKET] + (RenderItems(items, false, depth + 1) + [RBRACKET]),
                    ItemsSurvive(items), ItemsTame(items), x)
    decreases items, 2
  {
    var formatted, compact := RenderItems(items, true, depth + 1), RenderItems(items, false, depth + 1);
    ItemsShrink(items, depth + 1, [RBRACKET] + x);
    Nested([LBRACKET], formatted, [RBRACKET], x);
    if ItemsSurvive(items) {
      Nested([LBRACKET], compact, [RBRACKET], Left(ItemsTame(items), x));
    } else {
      ApartBefore(Minify(formatted + ([RBRACKET] + x)), compact, [RBRACKET]);
      ApartAfter([LBRACKET], Minify(formatted + ([RBRACKET] + x)), compact + [RBRACKET]);
    }
  }

  lemma {:induction false} ItemsShrink(items: seq<Json>, depth: nat, x: seq<byte>)
    requires forall t <- items :: Printable(t)
    ensures Shrinks(RenderItems(items, true, depth), RenderItems(items, false, depth),
                    ItemsSurvive(items), ItemsTame(items), x)
    decreases items, 1
  {
    if items == [] {
      assert [] + x == x && [] + Minify(x) == Minify(x);
    } else if |items| == 1 {
      assert items[1..] == [] && ItemsTame([]);
      FormattedShrinks(items[0], depth, x);
      OneItem(items, true, depth);
      OneItem(items, false, depth);
    } else {
      MoreItemsShrink(items, depth, x);
    }
  }

  lemma OneItem(items: seq<Json>, format: bool, depth: nat)
    requires |items| == 1
    ensures RenderItems(items, format, depth) == Render(items[0], format, depth)
  {
    assert items[1..] == [];
  }

  lemma ItemsText(items: seq<Json>, format: bool, depth: nat)
    requires |items| > 1
    ensures RenderItems(items, format, depth) ==
            (Render(items[0], format, depth) + ItemSeparator(format)) + RenderItems(items[1..], format, depth)
  {
  }

  lemma {:induction false} MoreItemsShrink(items: seq<Json>, depth: nat, x: seq<byte>)
    requires |items| > 1 && forall t <- items :: Printable(t)
    ensures Shrinks(RenderItems(items, true, depth), RenderItems(items, false, depth),
                    ItemsSurvive(items), ItemsTame(items), x)
    decreases items, 0
  {
    var first, firstC := Render(items[0], true, depth), Render(items[0], false, depth);
    var rest, restC := RenderItems(items[1..], true, depth), RenderItems(items[1..], false, depth);
    ItemsText(items, true, depth);
    ItemsText(items, false, depth);
    Regroup(first, [COMMA, SP], rest);
    assert [COMMA] + [SP] == [COMMA, SP];
    FormattedShrinks(items[0], depth, [COMMA] + ([SP] + (rest + x)));
    ItemsShrink(items[1..], depth, x);
    CompactItemsStart(items[1..], depth);
    if Tame(items[0]) { TameSurvives(items[0]); }
    Sequel(first, firstC, Survives(items[0]), Tame(items[0]), [COMMA], SP, rest, restC,
           ItemsSurvive(items[1..]), ItemsTame(items[1..]), x);
  }

  lemma CompactItemsStart(items: seq<Json>, depth: nat)
    requires items != [] && forall t <- items :: Printable(t)
    ensures RenderItems(items, false, depth) != [] && !IsBlank(RenderItems(items, false, depth)[0])
  {
    CompactStart(items[0], depth);
  }

  /** Something, a mark with a blank behind it, and a rest. */
  lemma Sequel(first: seq<byte>, firstC: seq<byte>, survives: bool, tame: bool, mark: seq<byte>, blank: byte,
               rest: seq<byte>, restC: seq<byte>, restSurvives: bool, restTame: bool, x: seq<byte>)
    requires tame ==> survives
    requires IsBlank(blank) && |mark| <= 1
    requires forall k :: 0 <= k < |mark| ==> IsOrdinary(mark[k]) && mark[k] != BACKSLASH
    requires Shrinks(first, firstC, survives, tame, mark + ([blank] + (rest + x)))
    requires Shrinks(rest, restC, restSurvives, restTame, x) && restC != [] && !IsBlank(restC[0])
    ensures Shrinks(first + ((mark + [blank]) + rest), (firstC + mark) + restC, tame && restSurvives, restTame, x)
  {
    MarkStays(mark, blank, rest + x);
    SequelCases(Minify(first + (mark + ([blank] + (rest + x)))), firstC, survives, tame, mark, blank, Minify(rest + x),
                MinifyString(rest + x), restC, restSurvives, Left(restTame, x));
    SequelText(first, mark, [blank], rest, x);
  }

  lemma SequelText(a: seq<byte>, b: seq<byte>, c: seq<byte>, d: seq<byte>, e: seq<byte>)
    ensures (a + ((b + c) + d)) + e == a + (b + (c + (d + e)))
  {
    Chained(b, c, d, e);
    Regroup(a, (b + c) + d, e);
  }

  lemma SequelCases(minified: seq<byte>, firstC: seq<byte>, survives: bool, tame: bool, mark: seq<byte>, blank: byte,
                    a: seq<byte>, b: seq<byte>, restC: seq<byte>, restSurvives: bool, left: seq<byte>)
    requires tame ==> survives
    requires IsBlank(blank) && restC != [] && !IsBlank(restC[0])
    requires if survives then minified == firstC + (if tame then mark + a else mark + ([blank] + b))
             else Apart(minified, firstC)
    requires if restSurvives then a == restC + left else Apart(a, restC)
    ensures var compact := (firstC + mark) + restC;
            if tame && restSurvives then minified == compact + left else Apart(minified, compact)
  {
    var front := firstC + mark;
    if !survives {
      ApartBefore(minified, firstC, mark + restC);
      Regroup(firstC, mark, restC);
    } else if !tame {
      ApartNow(front, [blank] + b, restC);
      Regroup(firstC, mark, [blank] + b);
    } else {
      Regroup(firstC, mark, a);
      if restSurvives { Regroup(front, restC, left); } else { ApartAfter(front, a, restC); }
    }
  }

  // ---------------------------------------------------------------- objects

  lemma KeyShrinks(key: seq<byte>, depth: nat, x: seq<byte>)
    ensures Shrinks(Tabs(depth) + Quoted(key), Quoted(key), true, !EndsInBackslash(key), x)
  {
    TabsAreTabs(depth);
    BlanksGo(Tabs(depth), Quoted(key) + x);
    QuotedStays(key, x);
    Regroup(Tabs(depth), Quoted(key), x);
  }

  lemma {:induction false} ObjectShrinks(members: seq<Member>, depth: nat, x: seq<byte>)
    requires forall m <- members :: PrintableMember(m)
    ensures Shrinks(Render(Obj(members), true, depth), Render(Obj(members), false, depth),
                    MembersTame(members), MembersTame(members), x)
    decreases members, 3
  {
    var rest := RenderMembers(members, true, depth + 1) + ObjectEnd(true, depth);
    var restC := RenderMembers(members, false, depth + 1) + [RBRACE];
    MembersShrink(members, depth, x);
    MarkStays([LBRACE], LF, rest + x);
    assert [LBRACE] + [LF] == ObjectStart(true);
    Chained([LBRACE], [LF], rest, x);
    if MembersTame(members) {
      Regroup([LBRACE], restC, Minify(x));
    } else {
      ApartAfter([LBRACE], Minify(rest + x), restC);
    }
  }

  /** The members and the brace that closes the object. */
  lemma {:induction false} MembersShrink(members: seq<Member>, depth: nat, x: seq<byte>)
    requires forall m <- members :: PrintableMember(m)
    ensures Shrinks(RenderMembers(members, true, depth + 1) + ObjectEnd(true, depth),
                    RenderMembers(members, false, depth + 1) + [RBRACE], MembersTame(members), true, x)
    decreases members, 2
  {
    if members == [] {
      TabsAreTabs(depth);
      BlanksGo(Tabs(depth), [RBRACE] + x);
      Regroup(Tabs(depth), [RBRACE], x);
      NothingBefore(ObjectEnd(true, depth));
      NothingBefore([RBRACE]);
    } else {
      MoreMembersShrink(members, depth, x);
    }
  }

  lemma NothingBefore(a: seq<byte>)
    ensures [] + a == a
  {
  }

  lemma MembersText(members: seq<Member>, format: bool, depth: nat, end: seq<byte>)
    requires members != []
    ensures var m := members[0];
            RenderMembers(members, format, depth) + end ==
            (Indent(format, depth) + Quoted(m.key)) + (KeySeparator(format) + (Render(m.value, format, depth)
            + (MemberEnd(format, |members| == 1) + (RenderMembers(members[1..], format, depth) + end))))
  {
    var m := members[0];
    SixParts(Indent(format, depth) + Quoted(m.key), KeySeparator(format), Render(m.value, format, depth),
             MemberEnd(format, |members| == 1), RenderMembers(members[1..], format, depth), end);
  }

  lemma SixParts(a: seq<byte>, b: seq<byte>, c: seq<byte>, d: seq<byte>, e: seq<byte>, f: seq<byte>)
    ensures ((((a + b) + c) + d) + e) + f == a + (b + (c + (d + (e + f))))
  {
    Chained(c, d, e, f);
    Chained(a + b, c, d, e + f);
    Regroup(((a + b) + c) + d, e, f);
    Regroup(a, b, c + (d + (e + f)));
  }

  lemma FormattedMembers(members: seq<Member>, depth: nat, mark: seq<byte>, value: seq<byte>, rest: seq<byte>,
                         end: seq<byte>)
    requires members != [] && mark == (if |members| == 1 then [] else [COMMA])
    requires rest == RenderMembers(members[1..], true, depth) + end
    requires value == Render(members[0].value, true, depth) + ((mark + [LF]) + rest)
    ensures RenderMembers(members, true, depth) + end ==
            (Tabs(depth) + Quoted(members[0].key)) + (([COLON] + [HT]) + value)
  {
    MembersText(members, true, depth, end);
    assert [COLON] + [HT] == KeySeparator(true);
  }

  lemma CompactMembers(members: seq<Member>, depth: nat, mark: seq<byte>, valueC: seq<byte>, restC: seq<byte>,
                       end: seq<byte>)
    requires members != [] && mark == (if |members| == 1 then [] else [COMMA])
    requires restC == RenderMembers(members[1..], false, depth) + end
    requires valueC == (Render(members[0].value, false, depth) + mark) + restC
    ensures RenderMembers(members, false, depth) + end == (Quoted(members[0].key) + [COLON]) + valueC
  {
    var key, own := Quoted(members[0].key), Render(members[0].value, false, depth);
    MembersText(members, false, depth, end);
    NothingBefore(key);
    Regroup(key, [COLON], valueC);
    Regroup(own, mark, restC);
    assert mark + [] == mark;
  }

  lemma CompactMembersStart(members: seq<Member>, depth: nat, end: seq<byte>)
    requires end != [] && !IsBlank(end[0])
    ensures var text := RenderMembers(members, false, depth) + end;
            text != [] && !IsBlank(text[0])
  {
    if members == [] {
      NothingBefore(end);
    } else {
      MembersText(members, false, depth, end);
    }
  }

  lemma {:induction false} MoreMembersShrink(members: seq<Member>, depth: nat, x: seq<byte>)
    requires members != [] && forall m <- members :: PrintableMember(m)
    ensures Shrinks(RenderMembers(members, true, depth + 1) + ObjectEnd(true, depth),
                    RenderMembers(members, false, depth + 1) + [RBRACE], MembersTame(members), true, x)
    decreases members, 1
  {
    var value, valueC := BehindKeyShrinks(members, depth, x);
    MemberShrinks(members[0].key, depth + 1, value, valueC, Tame(members[0].value) && MembersTame(members[1..]), x);
  }

  /** All that follows the colon of the first member. */
  lemma {:induction false} BehindKeyShrinks(members: seq<Member>, depth: nat, x: seq<byte>)
    returns (value: seq<byte>, valueC: seq<byte>)
    requires members != [] && forall m <- members :: PrintableMember(m)
    ensures RenderMembers(members, true, depth + 1) + ObjectEnd(true, depth) ==
            (Tabs(depth + 1) + Quoted(members[0].key)) + (([COLON] + [HT]) + value)
    ensures RenderMembers(members, false, depth + 1) + [RBRACE] == (Quoted(members[0].key) + [COLON]) + valueC
    ensures valueC != [] && !IsBlank(valueC[0])
    ensures Shrinks(value, valueC, Tame(members[0].value) && MembersTame(members[1..]), true, x)
    decreases members, 0
  {
    var m, mark, more := members[0], if |members| == 1 then [] else [COMMA], members[1..];
    assert m in members && forall n <- more :: n in members;
    var rest, restC := TailShrinks(more, depth, x);
    value, valueC := ValueShrinks(m.value, depth + 1, mark, rest, restC, MembersTame(more), x);
    FormattedMembers(members, depth + 1, mark, value, rest, ObjectEnd(true, depth));
    CompactMembers(members, depth + 1, mark, valueC, restC, [RBRACE]);
  }

  lemma {:induction false} TailShrinks(members: seq<Member>, depth: nat, x: seq<byte>)
    returns (rest: seq<byte>, restC: seq<byte>)
    requires forall m <- members :: PrintableMember(m)
    ensures rest == RenderMembers(members, true, depth + 1) + ObjectEnd(true, depth)
    ensures restC == RenderMembers(members, false, depth + 1) + [RBRACE] && restC != [] && !IsBlank(restC[0])
    ensures Shrinks(rest, restC, MembersTame(members), true, x)
    decreases members, 3
  {
    rest := RenderMembers(members, true, depth + 1) + ObjectEnd(true, depth);
    restC := RenderMembers(members, false, depth + 1) + [RBRACE];
    MembersShrink(members, depth, x);
    CompactMembersStart(members, depth + 1, [RBRACE]);
  }

  lemma MemberShrinks(key: seq<byte>, depth: nat, value: seq<byte>, valueC: seq<byte>, tame: bool, x: seq<byte>)
    requires Shrinks(value, valueC, tame, true, x) && valueC != [] && !IsBlank(valueC[0])
    ensures Shrinks((Tabs(depth) + Quoted(key)) + (([COLON] + [HT]) + value), (Quoted(key) + [COLON]) + valueC,
                    !EndsInBackslash(key) && tame, true, x)
  {
    KeyShrinks(key, depth, [COLON] + ([HT] + (value + x)));
    Sequel(Tabs(depth) + Quoted(key), Quoted(key), true, !EndsInBackslash(key), [COLON], HT,
           value, valueC, tame, true, x);
  }

  /** A member's value, the comma and line end behind it, and the rest of the object. */
  lemma {:induction false} ValueShrinks(t: Json, depth: nat, mark: seq<byte>, rest: seq<byte>, restC: seq<byte>,
                                        restTame: bool, x: seq<byte>) returns (value: seq<byte>, valueC: seq<byte>)
    requires Printable(t) && (mark == [] || mark == [COMMA])
    requires Shrinks(rest, restC, restTame, true, x) && restC != [] && !IsBlank(restC[0])
    ensures value == Render(t, true, depth) + ((mark + [LF]) + rest)
    ensures valueC == (Render(t, false, depth) + mark) + restC && valueC != [] && !IsBlank(valueC[0])
    ensures Shrinks(value, valueC, Tame(t) && restTame, true, x)
    decreases t, 4
  {
    var own, ownC := Render(t, true, depth), Render(t, false, depth);
    value, valueC := own + ((mark + [LF]) + rest), (ownC + mark) + restC;
    FormattedShrinks(t, depth, mark + ([LF] + (rest + x)));
    CompactStart(t, depth);
    if Tame(t) { TameSurvives(t); }
    Sequel(own, ownC, Survives(t), Tame(t), mark, LF, rest, restC, restTame, true, x);
  }

  /** Minifying what cJSON_Print prints gives what cJSON_PrintUnformatted prints exactly if no string
      or key that ends in a backslash has whitespace printed behind it. */
  lemma MinifyPrinted(t: Json)
    requires Printable(t)
    ensures Minify(Render(t, true, 0)) == Render(t, false, 0) <==> Survives(t)
  {
    var formatted, compact := Render(t, true, 0), Render(t, false, 0);
    FormattedShrinks(t, 0, []);
    assert formatted + [] == formatted && compact + [] == compact;
    if !Survives(t) {
      var k: nat :| ApartAt(Minify(formatted), compact, k);
    }
  }

  /** In particular for every value without a string or key that ends in a backslash. */
  lemma MinifyTame(t: Json)
    requires Printable(t) && Tame(t)
    ensures Minify(Render(t, true, 0)) == Render(t, false, 0)
  {
    TameSurvives(t);
    MinifyPrinted(t);
  }

  /** The array of a string that is one backslash and of null keeps its space. */
  lemma BackslashCounterexample()
    ensures var t := Arr([Str([BACKSLASH]), Null]);
            Printable(t) && Minify(Render(t, true, 0)) != Render(t, false, 0)
  {
    var t := Arr([Str([BACKSLASH]), Null]);
    MinifyPrinted(t);
    assert !Tame(t.items[0]);
  }
}
