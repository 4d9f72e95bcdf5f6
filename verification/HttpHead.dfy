/** The heads of HTTP messages as pure functions of the whole buffer: what the in-place parser
    computes, and the subject of the theorems about prefixes, resumption and round trips. */
module HttpHead {
  import opened Bytes
  import opened HttpScan

  /** A header line; no name on the continuation of the previous line's value. */
  datatype Header = Header(name: Option<Slice>, value: Slice)

  datatype Head =
    | RequestHead(method_: Slice, path: Slice, minorVersion: nat, headers: seq<Header>)
    | ResponseHead(minorVersion: nat, status: nat, msg: Slice, headers: seq<Header>)
    | HeaderBlock(headers: seq<Header>)

  /** Which of the three entry points is called. */
  datatype Kind = Request | Response | Headers

  const HTTP_1: seq<byte> := ['H' as int, 'T' as int, 'T' as int, 'P' as int, '/' as int, '1' as int, '.' as int]

  function SkipWhile(sc: Scanner, s: seq<byte>, i: nat): (r: Parse<()>)
    requires i < |s|
    ensures r.Done? ==> i < r.next < |s|
  {
    Scan(sc, s, i + 1)
  }

  /** Wants nine bytes before it looks at any. */
  function HttpVersion(s: seq<byte>, i: nat): (r: Parse<nat>)
    requires i <= |s|
    ensures r.Done? ==> i < r.next < |s|
  {
    if |s| - i < 9 then Partial
    else if s[i..i + 7] != HTTP_1 then Invalid
    else if !IsDigit(s[i + 7]) then Invalid
    else Done(i + 8, s[i + 7] - '0' as int)
  }

  /** The value without the blanks at its end. */
  function TrimBlanks(s: seq<byte>, value: Slice): (r: Slice)
    requires value.start + value.len <= |s|
    ensures r.start == value.start && r.len <= value.len
    decreases value.len
  {
    if value.len > 0 && IsBlank(s[value.start + value.len - 1])
    then TrimBlanks(s, Slice(value.start, value.len - 1))
    else value
  }

  /** Name, colon and leading blanks; nothing of these on a continuation line. */
  function HeaderName(s: seq<byte>, i: nat, first: bool): (r: Parse<Option<Slice>>)
    requires i < |s|
    ensures r.Done? ==> i <= r.next <= |s|
  {
    if !first && IsBlank(s[i]) then Done(i, None)
    else
      var (k, name) :- Token(s, i, ':' as int);
      if name.len == 0 then Invalid
      else
        var (j, _) :- SkipWhile(UntilNonBlank, s, k);
        Done(j, Some(name))
  }

  function HeaderLine(s: seq<byte>, i: nat, first: bool): (r: Parse<Header>)
    requires i < |s|
    ensures r.Done? ==> i < r.next <= |s|
  {
    var (j, name) :- HeaderName(s, i, first);
    var (next, value) :- TokenToEol(s, j);
    Done(next, Header(name, TrimBlanks(s, value)))
  }

  /** Header lines up to and including the blank one; acc holds those already read. */
  function HeaderLines(s: seq<byte>, i: nat, max: nat, acc: seq<Header>): (r: Parse<seq<Header>>)
    requires i <= |s|
    ensures r.Done? ==> i < r.next <= |s|
    decreases |s| - i
  {
    var (next, blank) :- LineEnd(s, i);
    if blank then Done(next, acc)
    else if |acc| == max then Invalid
    else
      var (j, h) :- HeaderLine(s, i, acc == []);
      HeaderLines(s, j, max, acc + [h])
  }

  lemma HeaderLinesUnfold(s: seq<byte>, i: nat, max: nat, acc: seq<Header>)
    requires i <= |s| && LineEnd(s, i) == Done(i, false) && |acc| != max
    ensures i < |s|
    ensures var line := HeaderLine(s, i, acc == []);
            HeaderLines(s, i, max, acc) ==
            match line
            case Done(j, h) => HeaderLines(s, j, max, acc + [h])
            case Partial => Partial
            case Invalid => Invalid
  {
  }

  /** An optional empty line, the method, and the spaces after it. */
  function MethodPart(s: seq<byte>): (r: Parse<Slice>)
    ensures r.Done? ==> r.next < |s|
  {
    var (i, _) :- LineEnd(s, 0);
    var (j, method_) :- Token(s, i, SP);
    var (k, _) :- SkipWhile(UntilNonSpace, s, j);
    Done(k, method_)
  }

  function PathPart(s: seq<byte>, i: nat): (r: Parse<Slice>)
    requires i <= |s|
    ensures r.Done? ==> i < r.next < |s|
  {
    var (j, path) :- Target(s, i);
    var (k, _) :- SkipWhile(UntilNonSpace, s, j);
    Done(k, path)
  }

  function VersionPart(s: seq<byte>, i: nat): (r: Parse<nat>)
    requires i <= |s|
    ensures r.Done? ==> i < r.next <= |s|
  {
    var (j, minor) :- HttpVersion(s, i);
    var (next, eol) :- LineEnd(s, j);
    if eol then Done(next, minor) else Invalid
  }

  function RequestLine(s: seq<byte>): (r: Parse<(Slice, Slice, nat)>)
    ensures r.Done? ==> 0 < r.next <= |s|
  {
    var (i, method_) :- MethodPart(s);
    var (j, path) :- PathPart(s, i);
    if method_.len == 0 || path.len == 0 then Invalid
    else
      var (next, minor) :- VersionPart(s, j);
      Done(next, (method_, path, minor))
  }

  function StatusCode(s: seq<byte>, i: nat): (r: Parse<nat>)
    requires i <= |s|
    ensures r.Done? ==> i < r.next < |s|
  {
    if |s| - i < 4 then Partial
    else if !IsDigit(s[i]) || !IsDigit(s[i + 1]) || !IsDigit(s[i + 2]) then Invalid
    else Done(i + 3, 100 * (s[i] - '0' as int) + 10 * (s[i + 1] - '0' as int) + (s[i + 2] - '0' as int))
  }

  /** The reason phrase without the spaces before it. */
  function StripSpaces(s: seq<byte>, msg: Slice): (r: Slice)
    requires msg.start + msg.len <= |s|
    ensures msg.start <= r.start && r.start + r.len == msg.start + msg.len
    decreases msg.len
  {
    if msg.len > 0 && s[msg.start] == SP then StripSpaces(s, Slice(msg.start + 1, msg.len - 1)) else msg
  }

  function StatusLine(s: seq<byte>): (r: Parse<(nat, nat, Slice)>)
    ensures r.Done? ==> 0 < r.next <= |s|
  {
    var (v, minor) :- HttpVersion(s, 0);
    if s[v] != SP then Invalid
    else
      var (i, _) :- SkipWhile(UntilNonSpace, s, v);
      var (j, status) :- StatusCode(s, i);
      var (next, msg) :- TokenToEol(s, j);
      if msg.len > 0 && s[msg.start] != SP then Invalid
      else Done(next, (minor, status, StripSpaces(s, msg)))
  }

  /** The start line of a message, which a bare header block does not have. */
  function StartLine(kind: Kind, s: seq<byte>): (r: Parse<Head>)
    ensures r.Done? ==> r.next <= |s| && (kind != Headers ==> 0 < r.next) && r.value.headers == []
  {
    match kind
    case Request =>
      var (i, line) :- RequestLine(s);
      Done(i, RequestHead(line.0, line.1, line.2, []))
    case Response =>
      var (i, line) :- StatusLine(s);
      Done(i, ResponseHead(line.0, line.1, line.2, []))
    case Headers => Done(0, HeaderBlock([]))
  }

  /** Parsing from the first byte: the entry points with last_len == 0. */
  function ParseHead(kind: Kind, s: seq<byte>, max: nat): (r: Parse<Head>)
    ensures r.Done? ==> 0 < r.next <= |s|
  {
    var (i, head) :- StartLine(kind, s);
    var (next, headers) :- HeaderLines(s, i, max, []);
    Done(next, head.(headers := headers))
  }

  /** is_complete from i on, with count line ends in a row so far. */
  function BlankLine(s: seq<byte>, i: nat, count: nat): (r: Parse<()>)
    requires i <= |s| && count < 2
    ensures r.Done? ==> i < r.next <= |s|
    decreases |s| - i
  {
    var (next, eol) :- LineEnd(s, i);
    if eol then
      if count == 1 then Done(next, ()) else BlankLine(s, next, count + 1)
    else BlankLine(s, i + 1, 0)
  }

  function BackUp(lastLen: nat): nat { if lastLen < 3 then 0 else lastLen - 3 }

  /** The entry points with any last_len. */
  function ParseHeadFrom(kind: Kind, s: seq<byte>, max: nat, lastLen: nat): (r: Parse<Head>)
    requires lastLen <= |s|
  {
    if lastLen != 0 && BlankLine(s, BackUp(lastLen), 0).Partial? then Partial
    else if lastLen != 0 && BlankLine(s, BackUp(lastLen), 0).Invalid? then Invalid
    else ParseHead(kind, s, max)
  }
}
