/** JSON values, and their text as the printer lays it out: compact, or formatted with tabs. */
module JsonTree {
  import opened Bytes
  import opened JsonString

  /** A number that is an integer of at most 15 digits, or any other literal, whose value is left to
      strtod and not modelled. */
  datatype Number = Integer(n: int) | Other(literal: seq<byte>)

  datatype Member = Member(key: seq<byte>, value: Json)

  datatype Json =
    | Null
    | Bool(b: bool)
    | Num(number: Number)
    | Str(text: seq<byte>)
    | Arr(items: seq<Json>)
    | Obj(members: seq<Member>)

  const INTEGER_LIMIT: int := 1_000_000_000_000_000

  /** What C code can hold and sprintf prints digit by digit. */
  ghost predicate Printable(t: Json)
    decreases t
  {
    match t
    case Num(number) => number.Integer? && -INTEGER_LIMIT < number.n < INTEGER_LIMIT
    case Str(text) => NUL !in text
    case Arr(items) => forall x <- items :: Printable(x)
    case Obj(members) => forall m <- members :: PrintableMember(m)
    case _ => true
  }

  ghost predicate PrintableMember(m: Member)
    decreases m
  {
    NUL !in m.key && Printable(m.value)
  }

  /** number_buffer has 26 places, one of them for the NUL. */
  const NUMBER_TEXT_LIMIT: nat := 25

  /** All that the printer is given: strings and keys are C strings, and a number that is no short
      integer stands for the text that sprintf makes of it. */
  ghost predicate Showable(t: Json)
    decreases t
  {
    match t
    case Num(Integer(n)) => -INTEGER_LIMIT < n < INTEGER_LIMIT
    case Num(Other(literal)) => |literal| <= NUMBER_TEXT_LIMIT && NUL !in literal
    case Str(text) => NUL !in text
    case Arr(items) => forall x <- items :: Showable(x)
    case Obj(members) => forall m <- members :: ShowableMember(m)
    case _ => true
  }

  ghost predicate ShowableMember(m: Member)
    decreases m
  {
    NUL !in m.key && Showable(m.value)
  }

  lemma {:induction false} PrintableIsShowable(t: Json)
    requires Printable(t)
    ensures Showable(t)
    decreases t
  {
    match t
    case Arr(items) => forall x | x in items ensures Showable(x) { PrintableIsShowable(x); }
    case Obj(members) => forall m | m in members ensures ShowableMember(m) { PrintableIsShowable(m.value); }
    case _ =>
  }

  // ---------------------------------------------------------------- text

  const NULL_TEXT: seq<byte> := ['n' as int, 'u' as int, 'l' as int, 'l' as int]
  const TRUE_TEXT: seq<byte> := ['t' as int, 'r' as int, 'u' as int, 'e' as int]
  const FALSE_TEXT: seq<byte> := ['f' as int, 'a' as int, 'l' as int, 's' as int, 'e' as int]
  const LBRACKET: byte := '[' as int
  const RBRACKET: byte := ']' as int
  const LBRACE: byte := '{' as int
  const RBRACE: byte := '}' as int
  const COMMA: byte := ',' as int
  const COLON: byte := ':' as int
  const MINUS: byte := '-' as int

  function Digits(n: nat): (d: seq<byte>)
    ensures d != [] && '0' as int <= d[0] <= '9' as int
  {
    if n < 10 then ['0' as int + n] else Digits(n / 10) + ['0' as int + n % 10]
  }

  function Decimal(n: int): seq<byte> { if n < 0 then [MINUS] + Digits(-n) else Digits(n) }

  function NumberText(number: Number): seq<byte> {
    match number
    case Integer(n) => Decimal(n)
    case Other(literal) => literal
  }

  function Tabs(n: nat): (s: seq<byte>)
    ensures |s| == n
  {
    if n == 0 then [] else [HT] + Tabs(n - 1)
  }

  function Render(t: Json, format: bool, depth: nat): seq<byte>
    decreases t, 1
  {
    match t
    case Null => NULL_TEXT
    case Bool(b) => if b then TRUE_TEXT else FALSE_TEXT
    case Num(number) => NumberText(number)
    case Str(text) => Quoted(text)
    case Arr(items) => [LBRACKET] + (RenderItems(items, format, depth + 1) + [RBRACKET])
    case Obj(members) => ObjectStart(format) + (RenderMembers(members, format, depth + 1) + ObjectEnd(format, depth))
  }

  function ItemSeparator(format: bool): seq<byte> { if format then [COMMA, SP] else [COMMA] }

  function ObjectStart(format: bool): seq<byte> { if format then [LBRACE, LF] else [LBRACE] }

  function ObjectEnd(format: bool, depth: nat): seq<byte> {
    if format then Tabs(depth) + [RBRACE] else [RBRACE]
  }

  function KeySeparator(format: bool): seq<byte> { if format then [COLON, HT] else [COLON] }

  function MemberEnd(format: bool, last: bool): seq<byte> {
    (if last then [] else [COMMA]) + (if format then [LF] else [])
  }

  function RenderItem(t: Json, last: bool, format: bool, depth: nat): seq<byte>
    decreases t, 2
  {
    Render(t, format, depth) + (if last then [] else ItemSeparator(format))
  }

  function RenderItems(items: seq<Json>, format: bool, depth: nat): seq<byte>
    decreases items, 0
  {
    if items == [] then []
    else RenderItem(items[0], |items| == 1, format, depth) + RenderItems(items[1..], format, depth)
  }

  function Indent(format: bool, depth: nat): seq<byte> { if format then Tabs(depth) else [] }

  function RenderKey(key: seq<byte>, format: bool, depth: nat): seq<byte> {
    Indent(format, depth) + Quoted(key) + KeySeparator(format)
  }

  function RenderMember(m: Member, last: bool, format: bool, depth: nat): seq<byte>
    decreases m, 2
  {
    RenderKey(m.key, format, depth) + Render(m.value, format, depth) + MemberEnd(format, last)
  }

  function RenderMembers(members: seq<Member>, format: bool, depth: nat): seq<byte>
    decreases members, 0
  {
    if members == [] then []
    else RenderMember(members[0], |members| == 1, format, depth) + RenderMembers(members[1..], format, depth)
  }

  // ---------------------------------------------------------------- no NUL in the text

  lemma {:induction false} EscapeHasNoNul(text: seq<byte>)
    requires NUL !in text
    ensures NUL !in Escape(text)
    decreases |text|
  {
    if text != [] {
      assert text[0] in text;
      EscapeHasNoNul(text[1..]);
    }
  }

  lemma {:induction false} TabsAreTabs(n: nat)
    ensures forall c <- Tabs(n) :: c == HT
  {
    if n > 0 { TabsAreTabs(n - 1); }
  }

  lemma {:induction false} DigitsHaveNoNul(n: nat)
    ensures NUL !in Digits(n)
  {
    if n >= 10 { DigitsHaveNoNul(n / 10); }
  }

  /** The printed text is a C string, which is what lets strlen find its end. */
  lemma {:induction false} RenderHasNoNul(t: Json, format: bool, depth: nat)
    requires Showable(t)
    ensures NUL !in Render(t, format, depth)
    decreases t, 1
  {
    match t
    case Num(Integer(n)) => DigitsHaveNoNul(if n < 0 then -n else n);
    case Str(text) => EscapeHasNoNul(text);
    case Arr(items) => ItemsHaveNoNul(items, format, depth + 1);
    case Obj(members) => MembersHaveNoNul(members, format, depth + 1); TabsAreTabs(depth);
    case _ =>
  }

  lemma {:induction false} ItemsHaveNoNul(items: seq<Json>, format: bool, depth: nat)
    requires forall x <- items :: Showable(x)
    ensures NUL !in RenderItems(items, format, depth)
    decreases items, 0
  {
    if items != [] {
      RenderHasNoNul(items[0], format, depth);
      ItemsHaveNoNul(items[1..], format, depth);
    }
  }

  lemma QuotedHasNoNul(text: seq<byte>)
    requires NUL !in text
    ensures NUL !in Quoted(text)
  {
    EscapeHasNoNul(text);
  }

  lemma {:induction false} MembersHaveNoNul(members: seq<Member>, format: bool, depth: nat)
    requires forall m <- members :: ShowableMember(m)
    ensures NUL !in RenderMembers(members, format, depth)
    decreases members, 0
  {
    if members != [] {
      var m := members[0];
      assert m in members;
      QuotedHasNoNul(m.key);
      TabsAreTabs(depth);
      RenderHasNoNul(m.value, format, depth);
      MembersHaveNoNul(members[1..], format, depth);
    }
  }

  lemma {:induction false} DigitCount(n: nat, k: nat)
    requires 0 < k && n < Pow(10, k)
    ensures |Digits(n)| <= k
    decreases k
  {
    if n >= 10 {
      assert k > 1 by { assert Pow(10, 1) == 10; }
      DigitCount(n / 10, k - 1);
    }
  }

  lemma TenToFifteen()
    ensures Pow(10, 15) == INTEGER_LIMIT
  {
    assert Pow(10, 5) == 100_000;
    assert Pow(10, 10) == 10_000_000_000 by { assert Pow(10, 7) == 10_000_000; }
    assert Pow(10, 12) == 1_000_000_000_000;
  }

  lemma FifteenDigits(m: nat)
    requires m < INTEGER_LIMIT
    ensures |Digits(m)| <= 15
  {
    TenToFifteen();
    DigitCount(m, 15);
  }

  lemma NumberFits(number: Number)
    requires Showable(Num(number))
    ensures |NumberText(number)| <= NUMBER_TEXT_LIMIT
  {
    if number.Integer? { FifteenDigits(if number.n < 0 then -number.n else number.n); }
  }
}
