/** Heads are parsed exactly if they are written the way HttpRoundTrip and HttpResponseRoundTrip say. */
module HttpAccepted {
  import opened Bytes
  import opened HttpScan
  import opened HttpHead
  import opened HttpRoundTrip
  import opened HttpResponseRoundTrip

  // ---------------------------------------------------------------- pieces of the buffer

  lemma Adjacent(s: seq<byte>, a: nat, b: nat, c: nat)
    requires a <= b <= c <= |s|
    ensures s[a..b] + s[b..c] == s[a..c]
  {
  }

  lemma EolText(s: seq<byte>, i: nat)
    requires i <= |s| && LineEnd(s, i).Done? && LineEnd(s, i).value
    ensures IsEol(s[i..LineEnd(s, i).next])
  {
  }

  lemma ScanText(sc: Scanner, s: seq<byte>, i: nat)
    requires i <= |s| && Scan(sc, s, i).Done?
    ensures Passes(sc, s[i..Scan(sc, s, i).next])
  {
    var text := s[i..Scan(sc, s, i).next];
    ScanPasses(sc, s, i);
    forall c | c in text ensures !Stops(sc, c) && !Rejects(sc, c) {
      var k :| 0 <= k < |text| && text[k] == c;
      assert c == s[i + k];
    }
  }

  lemma GapText(s: seq<byte>, i: nat)
    requires i < |s| && s[i] == SP && SkipWhile(UntilNonSpace, s, i).Done?
    ensures Spaces(s[i..SkipWhile(UntilNonSpace, s, i).next])
  {
    var k := SkipWhile(UntilNonSpace, s, i).next;
    ScanText(UntilNonSpace, s, i + 1);
    assert s[i..k] == [s[i]] + s[i + 1..k];
  }

  // ---------------------------------------------------------------- header lines

  /** Value, blanks and line end, wherever the value stands. */
  lemma {:induction false} TrimmedText(s: seq<byte>, value: Slice)
    requires value.start + value.len <= |s|
    ensures var r := TrimBlanks(s, value);
            AllBlank(s[r.start + r.len..value.start + value.len]) && (r.len > 0 ==> !IsBlank(s[r.start + r.len - 1]))
    decreases value.len
  {
    if value.len > 0 && IsBlank(s[value.start + value.len - 1]) {
      var shorter := Slice(value.start, value.len - 1);
      TrimmedText(s, shorter);
      var r, end := TrimBlanks(s, shorter), value.start + value.len;
      assert s[r.start + r.len..end] == s[r.start + r.len..end - 1] + [s[end - 1]];
    }
  }

  /** The parts of a value that stands at j: its own bytes, the blanks behind it, and the line end. */
  ghost predicate ValueParts(s: seq<byte>, j: nat, n: nat, end: nat, next: nat) {
    && j + n <= end <= next <= |s|
    && IsFieldText(s[j..j + n]) && AllBlank(s[j + n..end]) && IsEol(s[end..next])
    && (n > 0 ==> !IsBlank(s[j + n - 1]))
  }

  /** Any piece of what get_token_to_eol passes. */
  lemma FieldText(s: seq<byte>, i: nat, a: nat, b: nat)
    requires i <= |s| && Scan(UntilControl, s, i).Done? && i <= a <= b <= Scan(UntilControl, s, i).next
    ensures IsFieldText(s[a..b])
  {
    ScanPasses(UntilControl, s, i);
    forall c | c in s[a..b] ensures !IsControl(c) || c == HT {
      var k :| 0 <= k < b - a && s[a..b][k] == c;
      assert c == s[a + k];
    }
  }

  lemma ValueText(s: seq<byte>, j: nat) returns (n: nat, end: nat, next: nat)
    requires j <= |s| && TokenToEol(s, j).Done?
    ensures next == TokenToEol(s, j).next && end == j + TokenToEol(s, j).value.len
    ensures TrimBlanks(s, TokenToEol(s, j).value) == Slice(j, n) && ValueParts(s, j, n, end, next)
  {
    var value := TokenToEol(s, j).value;
    end, next := j + value.len, TokenToEol(s, j).next;
    n := TrimBlanks(s, value).len;
    FieldText(s, j, j, j + n);
    EolText(s, end);
    TrimmedText(s, value);
  }

  /** A name up to its colon at k, and blanks up to j. */
  ghost predicate NameParts(s: seq<byte>, i: nat, k: nat, j: nat) {
    && i < k < j < |s| && s[k] == ':' as int && (forall c <- s[i..k] :: IsTokenChar(c))
    && AllBlank(s[k + 1..j]) && !IsBlank(s[j])
  }

  lemma NameText(s: seq<byte>, i: nat, first: bool) returns (k: nat, j: nat)
    requires i < |s| && HeaderName(s, i, first).Done? && (first || !IsBlank(s[i]))
    ensures j == HeaderName(s, i, first).next && NameParts(s, i, k, j)
  {
    k := Token(s, i, ':' as int).next;
    j := SkipWhile(UntilNonBlank, s, k).next;
    ScanText(UntilByte(':' as int), s, i);
    ScanText(UntilNonBlank, s, k + 1);
  }

  lemma LineParts(s: seq<byte>, i: nat, first: bool) returns (j: nat)
    requires i < |s| && HeaderLine(s, i, first).Done?
    ensures HeaderName(s, i, first).Done? && j == HeaderName(s, i, first).next <= |s|
    ensures TokenToEol(s, j).Done? && TokenToEol(s, j).next == HeaderLine(s, i, first).next
  {
    j := HeaderName(s, i, first).next;
  }

  lemma NamedJoins(s: seq<byte>, i: nat, k: nat, j: nat, n: nat, end: nat, next: nat) returns (h: HeaderText)
    requires NameParts(s, i, k, j) && ValueParts(s, j, n, end, next)
    ensures h.Named? && ValidHeader(h) && RenderHeader(h) == s[i..next]
  {
    h := Named(s[i..k], s[k + 1..j], s[j..j + n], s[j + n..end], s[end..next]);
    NamedSlices(s, i, k, j, j + n, end, next);
  }

  /** A header line with a name, as text. */
  lemma NamedText(s: seq<byte>, i: nat, first: bool) returns (h: HeaderText)
    requires i < |s| && HeaderLine(s, i, first).Done? && (first || !IsBlank(s[i]))
    ensures h.Named? && ValidHeader(h) && RenderHeader(h) == s[i..HeaderLine(s, i, first).next]
  {
    var j := LineParts(s, i, first);
    var k, _ := NameText(s, i, first);
    var n, end, next := ValueText(s, j);
    h := NamedJoins(s, i, k, j, n, end, next);
  }

  lemma NamedSlices(s: seq<byte>, i: nat, k: nat, j: nat, m: nat, end: nat, next: nat)
    requires i <= k < j <= m <= end <= next <= |s| && s[k] == ':' as int
    ensures RenderHeader(Named(s[i..k], s[k + 1..j], s[j..m], s[m..end], s[end..next])) == s[i..next]
  {
    Adjacent(s, m, end, next);
    Adjacent(s, j, m, next);
    Adjacent(s, k + 1, j, next);
    assert [':' as int] + s[k + 1..next] == s[k..next];
    Adjacent(s, i, k, next);
  }

  lemma FoldedJoins(s: seq<byte>, i: nat, n: nat, end: nat, next: nat) returns (h: HeaderText)
    requires ValueParts(s, i, n, end, next) && i < end && IsBlank(s[i])
    ensures h.Folded? && ValidHeader(h) && RenderHeader(h) == s[i..next]
  {
    FoldedSlices(s, i, i + n, end, next);
    var value, post := s[i..i + n], s[i + n..end];
    assert n > 0 ==> value[0] == s[i] && value[n - 1] == s[i + n - 1];
    assert |value| == n && |post| == end - i - n;
    h := FoldedFrom(value, post, s[end..next]);
  }

  lemma FoldedFrom(value: seq<byte>, post: seq<byte>, eol: seq<byte>) returns (h: HeaderText)
    requires IsFieldText(value) && AllBlank(post) && IsEol(eol)
    requires if value == [] then post != [] else IsBlank(value[0]) && !IsBlank(value[|value| - 1])
    ensures h == Folded(value, post, eol) && ValidHeader(h)
  {
    h := Folded(value, post, eol);
  }

  lemma FoldedSlices(s: seq<byte>, i: nat, m: nat, end: nat, next: nat)
    requires i <= m <= end <= next <= |s|
    ensures RenderHeader(Folded(s[i..m], s[m..end], s[end..next])) == s[i..next]
  {
    Adjacent(s, m, end, next);
    Adjacent(s, i, m, next);
  }

  lemma FoldedText(s: seq<byte>, i: nat) returns (h: HeaderText)
    requires i < |s| && HeaderLine(s, i, false).Done? && IsBlank(s[i])
    ensures h.Folded? && ValidHeader(h) && RenderHeader(h) == s[i..HeaderLine(s, i, false).next]
  {
    var n, end, next := ValueText(s, i);
    h := FoldedJoins(s, i, n, end, next);
  }

  lemma {:induction false} HeadersText(s: seq<byte>, i: nat, max: nat, acc: seq<Header>)
    returns (hs: seq<HeaderText>, end: seq<byte>)
    requires i <= |s| && HeaderLines(s, i, max, acc).Done? && |acc| <= max
    ensures (forall h <- hs :: ValidHeader(h)) && (acc == [] ==> ValidHeaders(hs)) && IsEol(end)
    ensures |acc| + |hs| <= max && RenderHeaders(hs, end) == s[i..HeaderLines(s, i, max, acc).next]
    decreases |s| - i
  {
    var blank := LineEnd(s, i);
    if blank.value {
      EolText(s, i);
      hs, end := [], s[i..blank.next];
    } else {
      HeaderLinesUnfold(s, i, max, acc);
      var line := HeaderLine(s, i, acc == []);
      var h := HeaderLineText(s, i, acc == []);
      var tail;
      tail, end := HeadersText(s, line.next, max, acc + [line.value]);
      hs := [h] + tail;
      OneMoreHeader(h, tail, end, s, i, line.next, HeaderLines(s, i, max, acc).next);
    }
  }

  lemma HeaderLineText(s: seq<byte>, i: nat, first: bool) returns (h: HeaderText)
    requires i < |s| && HeaderLine(s, i, first).Done?
    ensures ValidHeader(h) && (first ==> h.Named?) && RenderHeader(h) == s[i..HeaderLine(s, i, first).next]
  {
    if first || !IsBlank(s[i]) { h := NamedText(s, i, first); } else { h := FoldedText(s, i); }
  }

  lemma OneMoreHeader(h: HeaderText, tail: seq<HeaderText>, end: seq<byte>, s: seq<byte>, i: nat, j: nat, next: nat)
    requires i <= j <= next <= |s| && RenderHeader(h) == s[i..j] && RenderHeaders(tail, end) == s[j..next]
    ensures RenderHeaders([h] + tail, end) == s[i..next]
  {
    assert ([h] + tail)[1..] == tail;
    Adjacent(s, i, j, next);
  }

  // ---------------------------------------------------------------- requests

  ghost predicate IsRequest(r: RequestText, text: seq<byte>, max: nat) {
    ValidRequest(r) && |r.headers| <= max && RenderRequest(r) == text
  }

  /** Method and spaces, behind an empty line or nothing. */
  lemma MethodText(s: seq<byte>) returns (i: nat, j: nat)
    requires MethodPart(s).Done? && MethodPart(s).value.len > 0
    ensures i <= j < MethodPart(s).next < |s| && (s[..i] == [] || IsEol(s[..i]))
    ensures i < j && (forall c <- s[i..j] :: IsTokenChar(c)) && Spaces(s[j..MethodPart(s).next])
  {
    i := LineEnd(s, 0).next;
    j := Token(s, i, SP).next;
    if LineEnd(s, 0).value { EolText(s, 0); }
    ScanText(UntilByte(SP), s, i);
    GapText(s, j);
  }

  lemma PathText(s: seq<byte>, i: nat) returns (j: nat)
    requires i <= |s| && PathPart(s, i).Done? && PathPart(s, i).value.len > 0
    ensures i < j < PathPart(s, i).next < |s|
    ensures (forall c <- s[i..j] :: !IsControl(c) && c != SP) && Spaces(s[j..PathPart(s, i).next])
  {
    j := Target(s, i).next;
    ScanText(UntilSpace, s, i);
    GapText(s, j);
  }

  lemma VersionText(s: seq<byte>, i: nat)
    requires i <= |s| && VersionPart(s, i).Done?
    ensures i + 8 < VersionPart(s, i).next && VersionPart(s, i).value < 10
    ensures s[i..i + 7] == HTTP_1 && s[i + 7..i + 8] == ['0' as int + VersionPart(s, i).value]
    ensures IsEol(s[i + 8..VersionPart(s, i).next])
  {
    EolText(s, i + 8);
  }

  /** The parts of a request, cut at i, j, k, l, m and p. */
  ghost function RequestOf(s: seq<byte>, i: nat, j: nat, k: nat, l: nat, m: nat, p: nat, minor: nat,
                           hs: seq<HeaderText>, end: seq<byte>): RequestText
    requires i <= j <= k <= l <= m <= m + 8 <= p <= |s|
  {
    RequestText(s[..i], s[i..j], s[j..k], s[k..l], s[l..m], minor, s[m + 8..p], hs, end)
  }

  lemma FrontSlices(s: seq<byte>, i: nat, j: nat, k: nat, l: nat, m: nat, next: nat)
    requires i <= j <= k <= l <= m <= next <= |s|
    ensures s[..i] + (s[i..j] + (s[j..k] + (s[k..l] + (s[l..m] + s[m..next])))) == s[..next]
  {
    Adjacent(s, l, m, next);
    Adjacent(s, k, l, next);
    Adjacent(s, j, k, next);
    Adjacent(s, i, j, next);
  }

  lemma TailSlices(s: seq<byte>, m: nat, p: nat, next: nat)
    requires m + 8 <= p <= next <= |s|
    ensures s[m..m + 7] + (s[m + 7..m + 8] + (s[m + 8..p] + s[p..next])) == s[m..next]
  {
    Adjacent(s, m + 8, p, next);
    Adjacent(s, m + 7, m + 8, next);
    Adjacent(s, m, m + 7, next);
  }

  lemma RequestSlices(s: seq<byte>, i: nat, j: nat, k: nat, l: nat, m: nat, p: nat, next: nat, minor: nat,
                      hs: seq<HeaderText>, end: seq<byte>)
    requires i <= j <= k <= l <= m <= m + 8 <= p <= next <= |s| && minor < 10
    requires s[m..m + 7] == HTTP_1 && s[m + 7..m + 8] == ['0' as int + minor]
    requires RenderHeaders(hs, end) == s[p..next]
    ensures RenderRequest(RequestOf(s, i, j, k, l, m, p, minor, hs, end)) == s[..next]
  {
    TailSlices(s, m, p, next);
    FrontSlices(s, i, j, k, l, m, next);
  }

  lemma RequestJoins(s: seq<byte>, i: nat, j: nat, k: nat, l: nat, m: nat, p: nat, next: nat, minor: nat,
                     hs: seq<HeaderText>, end: seq<byte>, max: nat) returns (r: RequestText)
    requires i <= j <= k <= l <= m <= m + 8 <= p <= next <= |s| && minor < 10
    requires s[m..m + 7] == HTTP_1 && s[m + 7..m + 8] == ['0' as int + minor]
    requires RenderHeaders(hs, end) == s[p..next] && ValidHeaders(hs) && IsEol(end) && |hs| <= max
    requires ValidRequestLine(RequestOf(s, i, j, k, l, m, p, minor, hs, end))
    ensures IsRequest(r, s[..next], max)
  {
    r := RequestOf(s, i, j, k, l, m, p, minor, hs, end);
    RequestSlices(s, i, j, k, l, m, p, next, minor, hs, end);
  }

  /** Where the parts of the first line of a request are cut. */
  lemma RequestLineText(s: seq<byte>, hs: seq<HeaderText>, end: seq<byte>)
    returns (i: nat, j: nat, k: nat, l: nat, m: nat)
    requires RequestLine(s).Done?
    ensures i <= j <= k <= l <= m <= m + 8 <= RequestLine(s).next <= |s| && RequestLine(s).value.2 < 10
    ensures s[m..m + 7] == HTTP_1 && s[m + 7..m + 8] == ['0' as int + RequestLine(s).value.2]
    ensures ValidRequestLine(RequestOf(s, i, j, k, l, m, RequestLine(s).next, RequestLine(s).value.2, hs, end))
  {
    i, j := MethodText(s);
    k := MethodPart(s).next;
    l := PathText(s, k);
    m := PathPart(s, k).next;
    VersionText(s, m);
  }

  lemma HeadParts(kind: Kind, s: seq<byte>, max: nat) returns (p: nat)
    requires ParseHead(kind, s, max).Done?
    ensures StartLine(kind, s).Done? && p == StartLine(kind, s).next <= |s|
    ensures kind == Request ==> RequestLine(s).Done? && RequestLine(s).next == p
    ensures kind == Response ==> StatusLine(s).Done? && StatusLine(s).next == p
    ensures HeaderLines(s, p, max, []).Done? && HeaderLines(s, p, max, []).next == ParseHead(kind, s, max).next
  {
    p := StartLine(kind, s).next;
  }

  lemma LineAndHeaders(s: seq<byte>, next: nat, hs: seq<HeaderText>, end: seq<byte>, max: nat)
    returns (r: RequestText)
    requires RequestLine(s).Done? && RequestLine(s).next <= next <= |s|
    requires RenderHeaders(hs, end) == s[RequestLine(s).next..next]
    requires ValidHeaders(hs) && IsEol(end) && |hs| <= max
    ensures IsRequest(r, s[..next], max)
  {
    var i, j, k, l, m := RequestLineText(s, hs, end);
    r := RequestJoins(s, i, j, k, l, m, RequestLine(s).next, next, RequestLine(s).value.2, hs, end, max);
  }

  lemma ParsedIsRequest(s: seq<byte>, max: nat) returns (r: RequestText)
    requires ParseHead(Request, s, max).Done?
    ensures IsRequest(r, s[..ParseHead(Request, s, max).next], max)
  {
    var p := HeadParts(Request, s, max);
    var hs, end := HeadersText(s, p, max, []);
    r := LineAndHeaders(s, ParseHead(Request, s, max).next, hs, end, max);
  }

  /** A request head of n bytes is parsed exactly if the first n bytes are one. */
  lemma AcceptsExactlyRequests(s: seq<byte>, max: nat, n: nat)
    requires n <= |s|
    ensures (ParseHead(Request, s, max).Done? && ParseHead(Request, s, max).next == n) <==>
            exists r :: IsRequest(r, s[..n], max)
  {
    if ParseHead(Request, s, max).Done? && ParseHead(Request, s, max).next == n {
      var r := ParsedIsRequest(s, max);
    }
    if r :| IsRequest(r, s[..n], max) {
      assert s[..n] + s[n..] == s;
      RequestRoundTrip(r, s[n..], max);
    }
  }

  // ---------------------------------------------------------------- responses

  ghost predicate IsResponse(r: ResponseText, text: seq<byte>, max: nat) {
    ValidResponse(r) && |r.headers| <= max && RenderResponse(r) == text
  }

  lemma StatusText(s: seq<byte>, i: nat)
    requires i <= |s| && StatusCode(s, i).Done?
    ensures StatusCode(s, i).value < 1000 && StatusCode(s, i).next == i + 3 < |s|
    ensures s[i..i + 3] == ThreeDigits(StatusCode(s, i).value)
  {
    DigitsJoin(s[i] - '0' as int, s[i + 1] - '0' as int, s[i + 2] - '0' as int);
  }

  lemma DigitsJoin(a: nat, b: nat, c: nat)
    requires a < 10 && b < 10 && c < 10
    ensures var n := 100 * a + 10 * b + c;
            n < 1000 && n / 100 == a && n / 10 % 10 == b && n % 10 == c
  {
    assert (100 * a + 10 * b + c) / 10 == 10 * a + b;
  }

  /** Spaces and a reason phrase, or neither. */
  lemma {:induction false} StrippedText(s: seq<byte>, msg: Slice)
    requires msg.start + msg.len <= |s|
    ensures var r := StripSpaces(s, msg);
            (forall c <- s[msg.start..r.start] :: c == SP) && (r.len > 0 ==> s[r.start] != SP)
    decreases msg.len
  {
    if msg.len > 0 && s[msg.start] == SP {
      var shorter := Slice(msg.start + 1, msg.len - 1);
      StrippedText(s, shorter);
      var r := StripSpaces(s, shorter);
      assert s[msg.start..r.start] == [s[msg.start]] + s[msg.start + 1..r.start];
    }
  }

  lemma ReasonText(s: seq<byte>, j: nat) returns (k: nat, end: nat)
    requires j <= |s| && TokenToEol(s, j).Done?
    requires var msg := TokenToEol(s, j).value; msg.len > 0 ==> s[msg.start] == SP
    ensures j <= k <= end < TokenToEol(s, j).next <= |s|
    ensures ValidReason(s[j..k], s[k..end]) && IsEol(s[end..TokenToEol(s, j).next])
  {
    var msg := TokenToEol(s, j).value;
    EolText(s, j + msg.len);
    StrippedText(s, msg);
    k, end := StripSpaces(s, msg).start, j + msg.len;
    FieldText(s, j, k, end);
  }

  ghost function ResponseOf(s: seq<byte>, i: nat, k: nat, e: nat, p: nat, minor: nat, status: nat,
                            hs: seq<HeaderText>, end: seq<byte>): ResponseText
    requires 8 <= i <= i + 3 <= k <= e <= p <= |s|
  {
    ResponseText(minor, s[8..i], status, s[i + 3..k], s[k..e], s[e..p], hs, end)
  }

  lemma StatusSlices(s: seq<byte>, i: nat, k: nat, e: nat, p: nat, next: nat)
    requires 8 <= i <= i + 3 <= k <= e <= p <= next <= |s|
    ensures s[0..7] + (s[7..8] + (s[8..i] + (s[i..i + 3] + (s[i + 3..k] + (s[k..e] + (s[e..p] + s[p..next]))))))
            == s[..next]
  {
    FrontSlices(s, 7, 8, i, i + 3, k, next);
    Adjacent(s, e, p, next);
    Adjacent(s, k, e, next);
  }

  lemma ResponseSlices(s: seq<byte>, i: nat, k: nat, e: nat, p: nat, next: nat, minor: nat, status: nat,
                       hs: seq<HeaderText>, end: seq<byte>)
    requires 8 <= i <= i + 3 <= k <= e <= p <= next <= |s| && minor < 10 && status < 1000
    requires s[0..7] == HTTP_1 && s[7..8] == ['0' as int + minor] && s[i..i + 3] == ThreeDigits(status)
    requires RenderHeaders(hs, end) == s[p..next]
    ensures RenderResponse(ResponseOf(s, i, k, e, p, minor, status, hs, end)) == s[..next]
  {
    StatusSlices(s, i, k, e, p, next);
  }

  lemma ResponseJoins(s: seq<byte>, i: nat, k: nat, e: nat, p: nat, next: nat, minor: nat, status: nat,
                      hs: seq<HeaderText>, end: seq<byte>, max: nat) returns (r: ResponseText)
    requires 8 <= i <= i + 3 <= k <= e <= p <= next <= |s| && minor < 10 && status < 1000
    requires s[0..7] == HTTP_1 && s[7..8] == ['0' as int + minor] && s[i..i + 3] == ThreeDigits(status)
    requires RenderHeaders(hs, end) == s[p..next] && ValidHeaders(hs) && IsEol(end) && |hs| <= max
    requires ValidStatusLine(ResponseOf(s, i, k, e, p, minor, status, hs, end))
    ensures IsResponse(r, s[..next], max)
  {
    r := ResponseOf(s, i, k, e, p, minor, status, hs, end);
    ResponseSlices(s, i, k, e, p, next, minor, status, hs, end);
  }

  /** Where the parts of a status line are cut. */
  lemma StatusLineText(s: seq<byte>, hs: seq<HeaderText>, end: seq<byte>) returns (i: nat, k: nat, e: nat)
    requires StatusLine(s).Done?
    ensures 8 <= i <= i + 3 <= k <= e <= StatusLine(s).next <= |s|
    ensures StatusLine(s).value.0 < 10 && StatusLine(s).value.1 < 1000
    ensures s[0..7] == HTTP_1 && s[7..8] == ['0' as int + StatusLine(s).value.0]
    ensures s[i..i + 3] == ThreeDigits(StatusLine(s).value.1)
    ensures ValidStatusLine(ResponseOf(s, i, k, e, StatusLine(s).next, StatusLine(s).value.0, StatusLine(s).value.1,
                                       hs, end))
  {
    i := SkipWhile(UntilNonSpace, s, 8).next;
    GapText(s, 8);
    StatusText(s, i);
    k, e := ReasonText(s, i + 3);
  }

  lemma StatusLineAndHeaders(s: seq<byte>, next: nat, hs: seq<HeaderText>, end: seq<byte>, max: nat)
    returns (r: ResponseText)
    requires StatusLine(s).Done? && StatusLine(s).next <= next <= |s|
    requires RenderHeaders(hs, end) == s[StatusLine(s).next..next]
    requires ValidHeaders(hs) && IsEol(end) && |hs| <= max
    ensures IsResponse(r, s[..next], max)
  {
    var i, k, e := StatusLineText(s, hs, end);
    var p, line := StatusLine(s).next, StatusLine(s).value;
    r := ResponseJoins(s, i, k, e, p, next, line.0, line.1, hs, end, max);
  }

  lemma ParsedIsResponse(s: seq<byte>, max: nat) returns (r: ResponseText)
    requires ParseHead(Response, s, max).Done?
    ensures IsResponse(r, s[..ParseHead(Response, s, max).next], max)
  {
    var p := HeadParts(Response, s, max);
    var hs, end := HeadersText(s, p, max, []);
    r := StatusLineAndHeaders(s, ParseHead(Response, s, max).next, hs, end, max);
  }

  lemma AcceptsExactlyResponses(s: seq<byte>, max: nat, n: nat)
    requires n <= |s|
    ensures (ParseHead(Response, s, max).Done? && ParseHead(Response, s, max).next == n) <==>
            exists r :: IsResponse(r, s[..n], max)
  {
    if ParseHead(Response, s, max).Done? && ParseHead(Response, s, max).next == n {
      var r := ParsedIsResponse(s, max);
    }
    if r :| IsResponse(r, s[..n], max) {
      assert s[..n] + s[n..] == s;
      ResponseRoundTrip(r, s[n..], max);
    }
  }
}
