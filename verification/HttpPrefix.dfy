/** Parsing while the buffer grows: verdicts are final, and an answer depends on nothing beyond the
    bytes it consumes. */
module HttpPrefix {
  import opened Bytes
  import opened HttpScan
  import opened HttpHead

  /** s is what has arrived of t. */
  ghost predicate Arrived(s: seq<byte>, t: seq<byte>) { |s| <= |t| && t[..|s|] == s }

  /** What a parser that gave p on s may give on an extension of s: the same, unless p is
      Partial, and then a success ends no earlier than s does. */
  ghost predicate Extends<T>(p: Parse<T>, q: Parse<T>, len: nat) {
    if p.Partial? then q.Done? ==> q.next >= len else q == p
  }

  lemma {:induction false} ScanExtends(sc: Scanner, s: seq<byte>, t: seq<byte>, i: nat)
    requires Arrived(s, t) && i <= |s|
    ensures Extends(Scan(sc, s, i), Scan(sc, t, i), |s|)
    decreases |s| - i
  {
    if i < |s| && !Stops(sc, s[i]) && !Rejects(sc, s[i]) { ScanExtends(sc, s, t, i + 1); }
    assert i < |s| ==> s[i] == t[i];
  }

  lemma LineEndExtends(s: seq<byte>, t: seq<byte>, i: nat)
    requires Arrived(s, t) && i <= |s|
    ensures Extends(LineEnd(s, i), LineEnd(t, i), |s|)
    ensures LineEnd(s, i).Partial? && LineEnd(t, i).Done? && LineEnd(t, i).value ==> LineEnd(t, i).next > |s|
  {
    assert i < |s| ==> s[i] == t[i];
    assert i + 1 < |s| ==> s[i + 1] == t[i + 1];
  }

  lemma TokenExtends(s: seq<byte>, t: seq<byte>, i: nat, stop: byte)
    requires Arrived(s, t) && i <= |s|
    ensures Extends(Token(s, i, stop), Token(t, i, stop), |s|)
    ensures Extends(Target(s, i), Target(t, i), |s|)
  {
    ScanExtends(UntilByte(stop), s, t, i);
    ScanExtends(UntilSpace, s, t, i);
  }

  lemma TokenToEolExtends(s: seq<byte>, t: seq<byte>, i: nat)
    requires Arrived(s, t) && i <= |s|
    ensures Extends(TokenToEol(s, i), TokenToEol(t, i), |s|)
  {
    ScanExtends(UntilControl, s, t, i);
    var k := Scan(UntilControl, s, i);
    if k.Done? { LineEndExtends(s, t, k.next); }
  }

  lemma HttpVersionExtends(s: seq<byte>, t: seq<byte>, i: nat)
    requires Arrived(s, t) && i <= |s|
    ensures Extends(HttpVersion(s, i), HttpVersion(t, i), |s|)
  {
    if |s| - i >= 9 {
      assert s[i..i + 7] == t[i..i + 7] && s[i + 7] == t[i + 7];
    }
  }

  lemma {:induction false} TrimBlanksExtends(s: seq<byte>, t: seq<byte>, value: Slice)
    requires Arrived(s, t) && value.start + value.len <= |s|
    ensures TrimBlanks(s, value) == TrimBlanks(t, value)
    decreases value.len
  {
    if value.len > 0 {
      assert s[value.start + value.len - 1] == t[value.start + value.len - 1];
      if IsBlank(s[value.start + value.len - 1]) { TrimBlanksExtends(s, t, Slice(value.start, value.len - 1)); }
    }
  }

  lemma {:induction false} StripSpacesExtends(s: seq<byte>, t: seq<byte>, msg: Slice)
    requires Arrived(s, t) && msg.start + msg.len <= |s|
    ensures StripSpaces(s, msg) == StripSpaces(t, msg)
    decreases msg.len
  {
    if msg.len > 0 {
      assert s[msg.start] == t[msg.start];
      if s[msg.start] == SP { StripSpacesExtends(s, t, Slice(msg.start + 1, msg.len - 1)); }
    }
  }

  lemma HeaderNameExtends(s: seq<byte>, t: seq<byte>, i: nat, first: bool)
    requires Arrived(s, t) && i < |s|
    ensures Extends(HeaderName(s, i, first), HeaderName(t, i, first), |s|)
  {
    assert s[i] == t[i];
    TokenExtends(s, t, i, ':' as int);
    var name := Token(s, i, ':' as int);
    if name.Done? { ScanExtends(UntilNonBlank, s, t, name.next + 1); }
  }

  lemma HeaderLineExtends(s: seq<byte>, t: seq<byte>, i: nat, first: bool)
    requires Arrived(s, t) && i < |s|
    ensures Extends(HeaderLine(s, i, first), HeaderLine(t, i, first), |s|)
  {
    HeaderNameExtends(s, t, i, first);
    var j := HeaderName(s, i, first);
    if j.Done? {
      TokenToEolExtends(s, t, j.next);
      var value := TokenToEol(s, j.next);
      if value.Done? { TrimBlanksExtends(s, t, value.value); }
    }
  }

  /** For header lines, and so for whole heads, the bound is strict: a success that s did not
      show needs a byte that s does not have. */
  lemma {:induction false} HeaderLinesExtend(s: seq<byte>, t: seq<byte>, i: nat, max: nat, acc: seq<Header>)
    requires Arrived(s, t) && i <= |s|
    ensures Extends(HeaderLines(s, i, max, acc), HeaderLines(t, i, max, acc), |s| + 1)
    decreases |s| - i
  {
    LineEndExtends(s, t, i);
    var blank := LineEnd(s, i);
    if blank.Done? && !blank.value && |acc| != max {
      HeaderLineExtends(s, t, i, acc == []);
      var line := HeaderLine(s, i, acc == []);
      if line.Done? { HeaderLinesExtend(s, t, line.next, max, acc + [line.value]); }
    }
  }

  lemma MethodPartExtends(s: seq<byte>, t: seq<byte>)
    requires Arrived(s, t)
    ensures Extends(MethodPart(s), MethodPart(t), |s|)
  {
    LineEndExtends(s, t, 0);
    var empty := LineEnd(s, 0);
    if empty.Done? {
      TokenExtends(s, t, empty.next, SP);
      var method_ := Token(s, empty.next, SP);
      if method_.Done? { ScanExtends(UntilNonSpace, s, t, method_.next + 1); }
    }
  }

  lemma PathPartExtends(s: seq<byte>, t: seq<byte>, i: nat)
    requires Arrived(s, t) && i <= |s|
    ensures Extends(PathPart(s, i), PathPart(t, i), |s|)
  {
    TokenExtends(s, t, i, SP);
    var path := Target(s, i);
    if path.Done? { ScanExtends(UntilNonSpace, s, t, path.next + 1); }
  }

  lemma VersionPartExtends(s: seq<byte>, t: seq<byte>, i: nat)
    requires Arrived(s, t) && i <= |s|
    ensures Extends(VersionPart(s, i), VersionPart(t, i), |s|)
  {
    HttpVersionExtends(s, t, i);
    var v := HttpVersion(s, i);
    if v.Done? { LineEndExtends(s, t, v.next); }
  }

  lemma RequestLineExtends(s: seq<byte>, t: seq<byte>)
    requires Arrived(s, t)
    ensures Extends(RequestLine(s), RequestLine(t), |s|)
  {
    MethodPartExtends(s, t);
    var method_ := MethodPart(s);
    if method_.Done? {
      PathPartExtends(s, t, method_.next);
      var path := PathPart(s, method_.next);
      if path.Done? { VersionPartExtends(s, t, path.next); }
    }
  }

  lemma StatusLineExtends(s: seq<byte>, t: seq<byte>)
    requires Arrived(s, t)
    ensures Extends(StatusLine(s), StatusLine(t), |s|)
  {
    HttpVersionExtends(s, t, 0);
    var v := HttpVersion(s, 0);
    if v.Done? {
      assert s[v.next] == t[v.next];
      ScanExtends(UntilNonSpace, s, t, v.next + 1);
      var gap := SkipWhile(UntilNonSpace, s, v.next);
      if gap.Done? {
        StatusCodeExtends(s, t, gap.next);
        var status := StatusCode(s, gap.next);
        if status.Done? {
          TokenToEolExtends(s, t, status.next);
          var msg := TokenToEol(s, status.next);
          if msg.Done? { StripSpacesExtends(s, t, msg.value); assert s[msg.value.start] == t[msg.value.start]; }
        }
      }
    }
  }

  lemma StatusCodeExtends(s: seq<byte>, t: seq<byte>, i: nat)
    requires Arrived(s, t) && i <= |s|
    ensures Extends(StatusCode(s, i), StatusCode(t, i), |s|)
  {
    if |s| - i >= 4 { assert s[i] == t[i] && s[i + 1] == t[i + 1] && s[i + 2] == t[i + 2]; }
  }

  /** Prefix monotonicity: once there is a verdict other than -2 on what has arrived, every
      extension gets the same verdict with the same slices; and a head that was incomplete in s
      ends beyond s, so the answer depends on nothing behind the bytes it consumes. */
  lemma HeadExtends(kind: Kind, s: seq<byte>, t: seq<byte>, max: nat)
    requires Arrived(s, t)
    ensures Extends(ParseHead(kind, s, max), ParseHead(kind, t, max), |s| + 1)
  {
    if kind == Request { RequestLineExtends(s, t); }
    if kind == Response { StatusLineExtends(s, t); }
    var line := StartLine(kind, s);
    if line.Done? { HeaderLinesExtend(s, t, line.next, max, []); }
  }

  ghost predicate Inside(p: Slice, end: nat) { p.start + p.len <= end }

  ghost predicate HeadersInside(headers: seq<Header>, end: nat) {
    forall h <- headers :: Inside(h.value, end) && (h.name.Some? ==> Inside(h.name.value, end))
  }

  ghost predicate HeadInside(head: Head, end: nat) {
    && HeadersInside(head.headers, end)
    && (head.RequestHead? ==> Inside(head.method_, end) && Inside(head.path, end))
    && (head.ResponseHead? ==> Inside(head.msg, end))
  }

  lemma {:induction false} HeaderLinesInside(s: seq<byte>, i: nat, max: nat, acc: seq<Header>)
    requires i <= |s| && HeadersInside(acc, i) && HeaderLines(s, i, max, acc).Done?
    ensures HeadersInside(HeaderLines(s, i, max, acc).value, HeaderLines(s, i, max, acc).next)
    decreases |s| - i
  {
    if !LineEnd(s, i).value {
      var line := HeaderLine(s, i, acc == []);
      HeaderLinesInside(s, line.next, max, acc + [line.value]);
    }
  }

  lemma StartLineInside(kind: Kind, s: seq<byte>)
    requires StartLine(kind, s).Done?
    ensures HeadInside(StartLine(kind, s).value, StartLine(kind, s).next)
  {
    if kind == Request {
      var path := PathPart(s, MethodPart(s).next);
      assert Inside(MethodPart(s).value, MethodPart(s).next) && Inside(path.value, path.next);
    }
  }

  /** On success every slice handed out lies in the bytes consumed. */
  lemma HeadSlicesInside(kind: Kind, s: seq<byte>, max: nat)
    requires ParseHead(kind, s, max).Done?
    ensures HeadInside(ParseHead(kind, s, max).value, ParseHead(kind, s, max).next)
  {
    StartLineInside(kind, s);
    HeaderLinesInside(s, StartLine(kind, s).next, max, []);
  }
}
