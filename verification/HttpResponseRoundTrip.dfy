/** Writing the head of a response down and reading it back. */
module HttpResponseRoundTrip {
  import opened Bytes
  import opened HttpScan
  import opened HttpHead
  import opened HttpRoundTrip

  datatype ResponseText = ResponseText(
    minorVersion: nat, gap: seq<byte>, status: nat, gap2: seq<byte>, reason: seq<byte>,
    eol: seq<byte>, headers: seq<HeaderText>, end: seq<byte>)

  /** Spaces in front of a reason phrase that starts with none. */
  ghost predicate ValidReason(gap: seq<byte>, reason: seq<byte>) {
    && (gap == [] || Spaces(gap)) && IsFieldText(reason)
    && (reason != [] ==> gap != [] && reason[0] != SP)
  }

  ghost predicate ValidStatusLine(r: ResponseText) {
    && r.minorVersion < 10 && Spaces(r.gap) && r.status < 1000
    && ValidReason(r.gap2, r.reason)
    && IsEol(r.eol)
  }

  ghost predicate ValidResponse(r: ResponseText) { ValidStatusLine(r) && ValidHeaders(r.headers) && IsEol(r.end) }

  function ThreeDigits(n: nat): seq<byte>
    requires n < 1000
  {
    ['0' as int + n / 100, '0' as int + n / 10 % 10, '0' as int + n % 10]
  }

  function RenderResponse(r: ResponseText): seq<byte>
    requires r.minorVersion < 10 && r.status < 1000
  {
    HTTP_1 + (['0' as int + r.minorVersion] + (r.gap + (ThreeDigits(r.status) + RenderReason(r))))
  }

  function RenderReason(r: ResponseText): seq<byte> {
    r.gap2 + (r.reason + (r.eol + RenderHeaders(r.headers, r.end)))
  }

  lemma DigitsOf(n: nat)
    requires n < 1000
    ensures n / 100 < 10 && 100 * (n / 100) + 10 * (n / 10 % 10) + n % 10 == n
  {
    assert n / 10 / 10 == n / 100;
  }

  lemma StatusReads(s: seq<byte>, i: nat, status: nat)
    requires status < 1000 && At(s, i, ThreeDigits(status)) && i + 3 < |s|
    ensures StatusCode(s, i) == Done(i + 3, status)
  {
    var d := ThreeDigits(status);
    DigitsOf(status);
    assert s[i + 0] == d[0] && s[i + 1] == d[1] && s[i + 2] == d[2];
  }

  lemma {:induction false} StripsTo(s: seq<byte>, start: nat, gap: seq<byte>, n: nat)
    requires At(s, start, gap) && (forall c <- gap :: c == SP) && start + |gap| + n <= |s|
    requires n > 0 ==> s[start + |gap|] != SP
    ensures StripSpaces(s, Slice(start, |gap| + n)) == Slice(start + |gap|, n)
    decreases |gap|
  {
    if gap != [] {
      assert s[start + 0] == gap[0] && gap[0] in gap;
      assert forall c <- gap[1..] :: c in gap;
      forall k | 0 <= k < |gap[1..]| ensures s[start + 1 + k] == gap[1..][k] {
        assert s[start + (k + 1)] == gap[k + 1];
      }
      StripsTo(s, start + 1, gap[1..], n);
    }
  }

  /** What follows the status code, up to its line end. */
  lemma ReasonReads(s: seq<byte>, j: nat, gap: seq<byte>, reason: seq<byte>, eol: seq<byte>)
    requires At(s, j, gap) && At(s, j + |gap|, reason) && At(s, j + |gap| + |reason|, eol)
    requires (gap == [] || Spaces(gap)) && IsFieldText(reason) && IsEol(eol)
    ensures TokenToEol(s, j) == Done(j + |gap| + |reason| + |eol|, Slice(j, |gap| + |reason|))
    ensures gap != [] ==> s[j] == SP
  {
    if gap != [] { assert s[j + 0] == gap[0] && gap[0] in gap; }
    EolStops(s, j + |gap| + |reason|, eol);
    ScanOver(UntilControl, s, j, gap + reason);
  }

  lemma ReasonStripped(s: seq<byte>, j: nat, gap: seq<byte>, reason: seq<byte>)
    requires At(s, j, gap) && At(s, j + |gap|, reason) && (gap == [] || Spaces(gap))
    requires reason != [] ==> reason[0] != SP
    ensures Contents(s, StripSpaces(s, Slice(j, |gap| + |reason|))) == reason
  {
    if reason != [] { assert s[j + |gap| + 0] == reason[0]; }
    StripsTo(s, j, gap, |reason|);
    AtSlice(s, j + |gap|, reason);
  }

  lemma ReasonHere(s: seq<byte>, j: nat, gap: seq<byte>, reason: seq<byte>, eol: seq<byte>)
    requires At(s, j, gap) && At(s, j + |gap|, reason) && At(s, j + |gap| + |reason|, eol)
    requires ValidReason(gap, reason) && IsEol(eol)
    ensures var msg := Slice(j, |gap| + |reason|);
            && TokenToEol(s, j) == Done(j + |gap| + |reason| + |eol|, msg) && (msg.len > 0 ==> s[j] == SP)
            && Contents(s, StripSpaces(s, msg)) == reason
  {
    ReasonReads(s, j, gap, reason, eol);
    ReasonStripped(s, j, gap, reason);
  }

  /** Where the parts of a status line stand: i is the status code's place. */
  ghost predicate StatusAt(s: seq<byte>, r: ResponseText, i: nat)
    requires r.minorVersion < 10 && r.status < 1000
  {
    && i == 8 + |r.gap| && At(s, 0, HTTP_1) && At(s, 7, ['0' as int + r.minorVersion]) && At(s, 8, r.gap)
    && At(s, i, ThreeDigits(r.status))
  }

  ghost predicate ReasonAt(s: seq<byte>, r: ResponseText, j: nat) {
    && At(s, j, r.gap2) && At(s, j + |r.gap2|, r.reason) && At(s, j + |r.gap2| + |r.reason|, r.eol)
    && At(s, j + |r.gap2| + |r.reason| + |r.eol|, RenderHeaders(r.headers, r.end))
  }

  lemma StatusLaidOut(s: seq<byte>, r: ResponseText) returns (i: nat)
    requires r.minorVersion < 10 && r.status < 1000 && At(s, 0, RenderResponse(r))
    ensures StatusAt(s, r, i) && At(s, i + 3, RenderReason(r)) && |RenderResponse(r)| == i + 3 + |RenderReason(r)|
  {
    var t3 := ThreeDigits(r.status) + RenderReason(r);
    var t2 := r.gap + t3;
    var t1 := ['0' as int + r.minorVersion] + t2;
    AtSplit(s, 0, HTTP_1, t1);
    AtSplit(s, 7, ['0' as int + r.minorVersion], t2);
    AtSplit(s, 8, r.gap, t3);
    i := 8 + |r.gap|;
    AtSplit(s, i, ThreeDigits(r.status), RenderReason(r));
  }

  lemma ReasonLaidOut(s: seq<byte>, r: ResponseText, j: nat)
    requires At(s, j, RenderReason(r))
    ensures ReasonAt(s, r, j)
    ensures |RenderReason(r)| == |r.gap2| + |r.reason| + |r.eol| + |RenderHeaders(r.headers, r.end)|
  {
    var t2 := r.eol + RenderHeaders(r.headers, r.end);
    var t1 := r.reason + t2;
    AtSplit(s, j, r.gap2, t1);
    AtSplit(s, j + |r.gap2|, r.reason, t2);
    AtSplit(s, j + |r.gap2| + |r.reason|, r.eol, RenderHeaders(r.headers, r.end));
  }

  lemma VersionAndGapRead(s: seq<byte>, r: ResponseText, i: nat)
    requires r.minorVersion < 10 && r.status < 1000 && Spaces(r.gap) && StatusAt(s, r, i) && i + 3 < |s|
    ensures HttpVersion(s, 0) == Done(8, r.minorVersion)
    ensures s[8] == SP && SkipWhile(UntilNonSpace, s, 8) == Done(i, ())
  {
    assert s[7 + 0] == ['0' as int + r.minorVersion][0];
    assert s[0..7] == HTTP_1;
    assert s[i + 0] == ThreeDigits(r.status)[0];
    GapSkipped(s, 8, r.gap);
  }

  lemma StatusLineParts(s: seq<byte>, minor: nat, i: nat, status: nat, next: nat, msg: Slice)
    requires HttpVersion(s, 0) == Done(8, minor) && s[8] == SP && SkipWhile(UntilNonSpace, s, 8) == Done(i, ())
    requires StatusCode(s, i) == Done(i + 3, status) && TokenToEol(s, i + 3) == Done(next, msg)
    requires msg.len > 0 ==> s[msg.start] == SP
    ensures StatusLine(s) == Done(next, (minor, status, StripSpaces(s, msg)))
  {
  }

  /** The version, the spaces and the status code read. */
  lemma StatusPartReads(s: seq<byte>, r: ResponseText) returns (i: nat)
    requires ValidStatusLine(r) && At(s, 0, RenderResponse(r))
    ensures HttpVersion(s, 0) == Done(8, r.minorVersion) && s[8] == SP
    ensures SkipWhile(UntilNonSpace, s, 8) == Done(i, ()) && StatusCode(s, i) == Done(i + 3, r.status)
    ensures At(s, i + 3, RenderReason(r)) && |RenderResponse(r)| == i + 3 + |RenderReason(r)|
  {
    i := StatusLaidOut(s, r);
    assert |RenderReason(r)| > 0;
    VersionAndGapRead(s, r, i);
    StatusReads(s, i, r.status);
  }

  /** The reason phrase and its line end read. */
  lemma ReasonPartReads(s: seq<byte>, r: ResponseText, j: nat) returns (next: nat)
    requires ValidStatusLine(r) && At(s, j, RenderReason(r))
    ensures var msg := Slice(j, |r.gap2| + |r.reason|);
            && TokenToEol(s, j) == Done(next, msg) && (msg.len > 0 ==> s[j] == SP)
            && Contents(s, StripSpaces(s, msg)) == r.reason
    ensures At(s, next, RenderHeaders(r.headers, r.end))
    ensures next + |RenderHeaders(r.headers, r.end)| == j + |RenderReason(r)|
  {
    ReasonLaidOut(s, r, j);
    ReasonHere(s, j, r.gap2, r.reason, r.eol);
    next := j + |r.gap2| + |r.reason| + |r.eol|;
  }

  lemma StatusLineReads(s: seq<byte>, r: ResponseText) returns (msg: Slice, next: nat)
    requires ValidStatusLine(r) && At(s, 0, RenderResponse(r))
    ensures StatusLine(s) == Done(next, (r.minorVersion, r.status, msg)) && Contents(s, msg) == r.reason
    ensures At(s, next, RenderHeaders(r.headers, r.end))
    ensures next + |RenderHeaders(r.headers, r.end)| == |RenderResponse(r)|
  {
    var i := StatusPartReads(s, r);
    next := ReasonPartReads(s, r, i + 3);
    var whole := Slice(i + 3, |r.gap2| + |r.reason|);
    StatusLineParts(s, r.minorVersion, i, r.status, next, whole);
    msg := StripSpaces(s, whole);
  }

  /** Parsing a written-down response, whatever bytes come behind it, consumes exactly its text and
      returns exactly its parts, in order. */
  lemma ResponseRoundTrip(r: ResponseText, rest: seq<byte>, max: nat)
    requires ValidResponse(r) && |r.headers| <= max
    ensures var s := RenderResponse(r) + rest;
            var p := ParseHead(Response, s, max);
            && p.Done? && p.next == |RenderResponse(r)|
            && p.value.minorVersion == r.minorVersion
            && p.value.status == r.status
            && Contents(s, p.value.msg) == r.reason
            && AllRead(s, p.value.headers, r.headers)
  {
    var text := RenderResponse(r);
    var s := text + rest;
    assert At(s, 0, text);
    var msg, next := StatusLineReads(s, r);
    HeadersRead(s, next, max, [], [], r.headers, r.end);
    assert [] + r.headers == r.headers;
  }
}
