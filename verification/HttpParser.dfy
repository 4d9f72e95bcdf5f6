/** The parser as it runs: one cursor moving over the buffer, headers stored into the caller's
    array. Every procedure is proved to compute the pure function of its name. */
module HttpParser {
  import opened Bytes
  import opened HttpScan
  import opened HttpHead

  method ParseHttpVersion(s: seq<byte>, start: nat) returns (r: Parse<nat>)
    requires start <= |s|
    ensures r == HttpVersion(s, start)
  {
    if |s| - start < 9 { return Partial; }
    var buf := start;
    while buf < start + 7
      invariant start <= buf <= start + 7
      invariant s[start..buf] == HTTP_1[..buf - start]
    {
      if s[buf] != HTTP_1[buf - start] {
        assert s[start..start + 7][buf - start] == s[buf];
        return Invalid;
      }
      assert s[start..buf + 1] == s[start..buf] + [s[buf]];
      buf := buf + 1;
    }
    if s[buf] < '0' as int || '9' as int < s[buf] { return Invalid; }
    return Done(buf + 1, s[buf] - '0' as int);
  }

  /** The CR LF or LF that may stand at buf. */
  method ParseLineEnd(s: seq<byte>, start: nat) returns (r: Parse<bool>)
    requires start <= |s|
    ensures r == LineEnd(s, start)
  {
    var buf := start;
    if buf == |s| { return Partial; }
    if s[buf] == CR {
      buf := buf + 1;
      if buf == |s| { return Partial; }
      if s[buf] != LF { return Invalid; }
      return Done(buf + 1, true);
    } else if s[buf] == LF {
      return Done(buf + 1, true);
    }
    return Done(buf, false);
  }

  /** Steps over the blank at start and those behind it: spaces, or spaces and tabs. */
  method SkipBlanks(s: seq<byte>, start: nat, tabsToo: bool) returns (r: Parse<()>)
    requires start < |s|
    ensures r == SkipWhile(if tabsToo then UntilNonBlank else UntilNonSpace, s, start)
  {
    ghost var sc := if tabsToo then UntilNonBlank else UntilNonSpace;
    var buf := start + 1;
    while true
      invariant start < buf <= |s|
      invariant forall j :: start < j < buf ==> !Stops(sc, s[j])
      decreases |s| - buf
    {
      ScanSkips(sc, s, start + 1, buf);
      if buf == |s| { return Partial; }
      if !(s[buf] == SP || (tabsToo && s[buf] == HT)) { return Done(buf, ()); }
      buf := buf + 1;
    }
  }

  method RemoveTrailingBlanks(s: seq<byte>, value: Slice) returns (r: Slice)
    requires value.start + value.len <= |s|
    ensures r == TrimBlanks(s, value)
  {
    var valueEnd := value.start + value.len;
    while valueEnd != value.start
      invariant value.start <= valueEnd <= value.start + value.len
      invariant TrimBlanks(s, value) == TrimBlanks(s, Slice(value.start, valueEnd - value.start))
      decreases valueEnd
    {
      var c := s[valueEnd - 1];
      if !(c == SP || c == HT) { break; }
      valueEnd := valueEnd - 1;
    }
    r := Slice(value.start, valueEnd - value.start);
  }

  /** The name and the blanks before the value, or a continuation. The name is stored as soon as it is
      known, whatever follows it. */
  method ParseHeaderName(s: seq<byte>, start: nat, headers: array<Header>, numHeaders: nat, sse: bool)
    returns (r: Parse<()>)
    requires start < |s| && numHeaders < headers.Length
    modifies headers
    ensures forall k | 0 <= k < headers.Length && k != numHeaders :: headers[k] == old(headers[k])
    ensures headers[numHeaders].value == old(headers[numHeaders].value)
    ensures match HeaderName(s, start, numHeaders == 0)
            case Done(next, name) => r == Done(next, ()) && headers[numHeaders].name == name
            case Partial => r == Parse.Partial
            case Invalid => r == Parse.Invalid
  {
    if numHeaders != 0 && (s[start] == SP || s[start] == HT) {
      headers[numHeaders] := headers[numHeaders].(name := None);
      return Done(start, ());
    }
    var token := ParseToken(s, start, ':' as int, sse);
    if token.Partial? { return Partial; }
    if token.Invalid? { return Invalid; }
    headers[numHeaders] := headers[numHeaders].(name := Some(token.value));
    if token.value.len == 0 { return Invalid; }
    var skipped := SkipBlanks(s, token.next, true);
    if !skipped.Done? { return if skipped.Partial? then Partial else Invalid; }
    return Done(skipped.next, ());
  }

  /** A header line goes into the array at numHeaders; of one that does not parse at most the name. */
  method ParseHeaderLine(s: seq<byte>, start: nat, headers: array<Header>, numHeaders: nat, sse: bool)
    returns (r: Parse<()>)
    requires start < |s| && numHeaders < headers.Length
    modifies headers
    ensures forall k | 0 <= k < headers.Length && k != numHeaders :: headers[k] == old(headers[k])
    ensures !r.Done? ==> headers[numHeaders].value == old(headers[numHeaders].value)
    ensures match HeaderLine(s, start, numHeaders == 0)
            case Done(next, h) => r == Done(next, ()) && headers[numHeaders] == h
            case Partial => r == Parse.Partial
            case Invalid => r == Parse.Invalid
  {
    var named := ParseHeaderName(s, start, headers, numHeaders, sse);
    if !named.Done? { return named; }
    var value := GetTokenToEol(s, named.next, sse);
    if value.Partial? { return Partial; }
    if value.Invalid? { return Invalid; }
    var trimmed := RemoveTrailingBlanks(s, value.value);
    headers[numHeaders] := headers[numHeaders].(value := trimmed);
    return Done(value.next, ());
  }

  /** The array outside the first count places is as it was, but that a failed line may have left its
      name at count. */
  twostate predicate RestKept(headers: array<Header>, count: nat, done: bool)
    reads headers
  {
    forall k | count <= k < headers.Length ::
      headers[k].value == old(headers[k].value) && (k > count || done ==> headers[k] == old(headers[k]))
  }

  /** Fills the caller's array from the front; num_headers comes back as count. */
  method ParseHeaders(s: seq<byte>, start: nat, headers: array<Header>, maxHeaders: nat, sse: bool)
    returns (r: Parse<()>, count: nat)
    requires start <= |s| && maxHeaders <= headers.Length
    modifies headers
    ensures count <= maxHeaders && RestKept(headers, count, r.Done?)
    ensures var spec := HeaderLines(s, start, maxHeaders, []);
            match r
            case Done(next, _) => spec == Done(next, headers[..count])
            case Partial => spec == Parse.Partial
            case Invalid => spec == Parse.Invalid
  {
    var buf := start;
    count := 0;
    while true
      invariant start <= buf <= |s| && count <= maxHeaders
      invariant HeaderLines(s, start, maxHeaders, []) == HeaderLines(s, buf, maxHeaders, headers[..count])
      invariant forall k | count <= k < headers.Length :: headers[k] == old(headers[k])
      decreases |s| - buf
    {
      var blank := ParseLineEnd(s, buf);
      if blank.Partial? { return Partial, count; }
      if blank.Invalid? { return Invalid, count; }
      if blank.value { return Done(blank.next, ()), count; }
      if count == maxHeaders { return Invalid, count; }
      ghost var before := headers[..count];
      HeaderLinesUnfold(s, buf, maxHeaders, before);
      var line := ParseHeaderLine(s, buf, headers, count, sse);
      if line.Partial? { return Partial, count; }
      if line.Invalid? { return Invalid, count; }
      assert headers[..count + 1] == before + [headers[count]];
      count := count + 1;
      buf := line.next;
    }
  }

  method ParseRequestLine(s: seq<byte>, sse: bool) returns (r: Parse<(Slice, Slice, nat)>)
    ensures r == RequestLine(s)
  {
    var empty := ParseLineEnd(s, 0);
    if !empty.Done? { return if empty.Partial? then Partial else Invalid; }
    var method_ := ParseToken(s, empty.next, SP, sse);
    if !method_.Done? { return if method_.Partial? then Partial else Invalid; }
    var gap := SkipBlanks(s, method_.next, false);
    if !gap.Done? { return if gap.Partial? then Partial else Invalid; }
    var path := AdvanceToken(s, gap.next, sse);
    if !path.Done? { return if path.Partial? then Partial else Invalid; }
    gap := SkipBlanks(s, path.next, false);
    if !gap.Done? { return if gap.Partial? then Partial else Invalid; }
    if method_.value.len == 0 || path.value.len == 0 { return Invalid; }
    var version := ParseHttpVersion(s, gap.next);
    if !version.Done? { return if version.Partial? then Partial else Invalid; }
    var eol := ParseLineEnd(s, version.next);
    if !eol.Done? { return if eol.Partial? then Partial else Invalid; }
    if !eol.value { return Invalid; }
    return Done(eol.next, (method_.value, path.value, version.value));
  }

  method ParseStatus(s: seq<byte>, start: nat) returns (r: Parse<nat>)
    requires start <= |s|
    ensures r == StatusCode(s, start)
  {
    if |s| - start < 4 { return Partial; }
    var buf, status, weight := start, 0, 100;
    while buf < start + 3
      invariant start <= buf <= start + 3
      invariant weight ==
                if buf == start then 100 else if buf == start + 1 then 10 else if buf == start + 2 then 1 else 0
      invariant forall j :: start <= j < buf ==> IsDigit(s[j])
      invariant status == (if buf > start then 100 * (s[start] - '0' as int) else 0)
                        + (if buf > start + 1 then 10 * (s[start + 1] - '0' as int) else 0)
                        + (if buf > start + 2 then s[start + 2] - '0' as int else 0)
    {
      if s[buf] < '0' as int || '9' as int < s[buf] { return Invalid; }
      status := status + weight * (s[buf] - '0' as int);
      weight := weight / 10;
      buf := buf + 1;
    }
    return Done(buf, status);
  }

  method ParseStatusLine(s: seq<byte>, sse: bool) returns (r: Parse<(nat, nat, Slice)>)
    ensures r == StatusLine(s)
  {
    var version := ParseHttpVersion(s, 0);
    if !version.Done? { return if version.Partial? then Partial else Invalid; }
    if s[version.next] != SP { return Invalid; }
    var gap := SkipBlanks(s, version.next, false);
    if !gap.Done? { return if gap.Partial? then Partial else Invalid; }
    var status := ParseStatus(s, gap.next);
    if !status.Done? { return if status.Partial? then Partial else Invalid; }
    var msg := GetTokenToEol(s, status.next, sse);
    if !msg.Done? { return if msg.Partial? then Partial else Invalid; }
    if msg.value.len > 0 && s[msg.value.start] != SP { return Invalid; }
    var stripped := RemovePrecedingSpaces(s, msg.value);
    return Done(msg.next, (version.value, status.value, stripped));
  }

  method RemovePrecedingSpaces(s: seq<byte>, msg: Slice) returns (r: Slice)
    requires msg.start + msg.len < |s| && s[msg.start + msg.len] != SP
    ensures r == StripSpaces(s, msg)
  {
    var start, len := msg.start, msg.len;
    while s[start] == SP
      invariant len >= 0 && start + len == msg.start + msg.len
      invariant StripSpaces(s, msg) == StripSpaces(s, Slice(start, len))
      decreases len
    {
      start, len := start + 1, len - 1;
    }
    r := Slice(start, len);
  }

  /** is_complete. */
  method IsComplete(s: seq<byte>, lastLen: nat) returns (r: Parse<()>)
    requires lastLen <= |s|
    ensures r == BlankLine(s, BackUp(lastLen), 0)
  {
    var retCnt := 0;
    var buf := if lastLen < 3 then 0 else lastLen - 3;
    while true
      invariant buf <= |s| && 0 <= retCnt < 2
      invariant BlankLine(s, BackUp(lastLen), 0) == BlankLine(s, buf, retCnt)
      decreases |s| - buf
    {
      if buf == |s| { return Partial; }
      if s[buf] == CR {
        buf := buf + 1;
        if buf == |s| { return Partial; }
        if s[buf] != LF { return Invalid; }
        buf := buf + 1;
        retCnt := retCnt + 1;
      } else if s[buf] == LF {
        buf := buf + 1;
        retCnt := retCnt + 1;
      } else {
        buf := buf + 1;
        retCnt := 0;
      }
      if retCnt == 2 { return Done(buf, ()); }
    }
  }

  /** The start line of a message; nothing for a bare header block. */
  method ParseStartLine(kind: Kind, s: seq<byte>, sse: bool) returns (r: Parse<Head>)
    ensures r == StartLine(kind, s)
  {
    match kind {
      case Request =>
        var line := ParseRequestLine(s, sse);
        if !line.Done? { return if line.Partial? then Partial else Invalid; }
        return Done(line.next, RequestHead(line.value.0, line.value.1, line.value.2, []));
      case Response =>
        var line := ParseStatusLine(s, sse);
        if !line.Done? { return if line.Partial? then Partial else Invalid; }
        return Done(line.next, ResponseHead(line.value.0, line.value.1, line.value.2, []));
      case Headers =>
        return Done(0, HeaderBlock([]));
    }
  }

  /** phr_parse_request, phr_parse_response and phr_parse_headers: the number of bytes consumed,
      -1 or -2, with the start line in head and the headers in the array. */
  method PhrParse(kind: Kind, s: seq<byte>, headers: array<Header>, maxHeaders: nat, lastLen: nat, sse: bool)
    returns (ret: int, head: Head, count: nat)
    requires lastLen <= |s| && maxHeaders <= headers.Length
    modifies headers
    ensures count <= maxHeaders && RestKept(headers, count, ret >= 0)
    ensures match ParseHeadFrom(kind, s, maxHeaders, lastLen)
            case Done(next, value) => ret == next && value == head.(headers := headers[..count])
            case Partial => ret == -2
            case Invalid => ret == -1
  {
    count, head := 0, HeaderBlock([]);
    if lastLen != 0 {
      var complete := IsComplete(s, lastLen);
      if complete.Partial? { return -2, head, count; }
      if complete.Invalid? { return -1, head, count; }
    }
    var line := ParseStartLine(kind, s, sse);
    if line.Partial? { return -2, head, count; }
    if line.Invalid? { return -1, head, count; }
    head := line.value;
    var block;
    block, count := ParseHeaders(s, line.next, headers, maxHeaders, sse);
    ret := match block { case Done(next, _) => next case Partial => -2 case Invalid => -1 };
  }
}
