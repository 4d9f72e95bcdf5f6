/** The last_len shortcut: before it re-parses a grown buffer, the parser looks for a blank line
    starting three bytes before the end of what it saw last time. */
module HttpResume {
  import opened Bytes
  import opened HttpScan
  import opened HttpHead
  import opened HttpPrefix

  /** Every CR in s[a..b] is the first half of a line end. */
  ghost predicate NoLoneCr(s: seq<byte>, a: nat, b: nat)
    requires b <= |s|
  {
    forall j :: a <= j < b && s[j] == CR ==> j + 1 < |s| && s[j + 1] == LF
  }

  // ---------------------------------------------------------------- what a parsed head looks like

  lemma ScanNoLoneCr(sc: Scanner, s: seq<byte>, i: nat)
    requires i <= |s| && Scan(sc, s, i).Done?
    requires sc.UntilByte? ==> sc.stop == SP || sc.stop == ':' as int
    ensures forall j :: i <= j < Scan(sc, s, i).next ==> s[j] != CR
  {
    ScanPasses(sc, s, i);
  }

  lemma TokenToEolNoLoneCr(s: seq<byte>, i: nat)
    requires i <= |s| && TokenToEol(s, i).Done?
    ensures NoLoneCr(s, i, TokenToEol(s, i).next) && s[TokenToEol(s, i).next - 1] == LF
  {
    ScanNoLoneCr(UntilControl, s, i);
  }

  lemma HeaderLineNoLoneCr(s: seq<byte>, i: nat, first: bool)
    requires i < |s| && HeaderLine(s, i, first).Done?
    ensures NoLoneCr(s, i, HeaderLine(s, i, first).next) && s[HeaderLine(s, i, first).next - 1] == LF
  {
    var j := HeaderName(s, i, first);
    if first || !IsBlank(s[i]) {
      ScanNoLoneCr(UntilByte(':' as int), s, i);
      var k := Token(s, i, ':' as int).next;
      ScanNoLoneCr(UntilNonBlank, s, k + 1);
    }
    TokenToEolNoLoneCr(s, j.next);
  }

  lemma HeaderLineEndsInLf(s: seq<byte>, i: nat, first: bool)
    requires i < |s| && HeaderLine(s, i, first).Done?
    ensures s[HeaderLine(s, i, first).next - 1] == LF
  {
    HeaderLineNoLoneCr(s, i, first);
  }

  lemma LineEndNoLoneCr(s: seq<byte>, i: nat)
    requires i <= |s| && LineEnd(s, i).Done?
    ensures NoLoneCr(s, i, LineEnd(s, i).next)
    ensures !LineEnd(s, i).value ==> LineEnd(s, i) == Done(i, false)
  {
  }

  lemma {:induction false} HeaderLinesNoLoneCr(s: seq<byte>, i: nat, max: nat, acc: seq<Header>)
    requires i <= |s| && HeaderLines(s, i, max, acc).Done?
    ensures NoLoneCr(s, i, HeaderLines(s, i, max, acc).next)
    decreases |s| - i
  {
    LineEndNoLoneCr(s, i);
    if !LineEnd(s, i).value {
      HeaderLinesUnfold(s, i, max, acc);
      var line := HeaderLine(s, i, acc == []);
      HeaderLineNoLoneCr(s, i, acc == []);
      HeaderLinesNoLoneCr(s, line.next, max, acc + [line.value]);
    }
  }

  /** The blank line that ends header lines comes right after a line end: the last header's, or
      whatever stood before the first one. */
  lemma {:induction false} HeaderLinesShape(s: seq<byte>, i: nat, max: nat, acc: seq<Header>) returns (last: nat)
    requires i <= |s| && HeaderLines(s, i, max, acc).Done?
    ensures i <= last <= |s| && LineEnd(s, last) == Done(HeaderLines(s, i, max, acc).next, true)
    ensures last == i || s[last - 1] == LF
    decreases |s| - i
  {
    if LineEnd(s, i).value {
      last := i;
    } else {
      HeaderLinesUnfold(s, i, max, acc);
      var line := HeaderLine(s, i, acc == []);
      HeaderLineEndsInLf(s, i, acc == []);
      last := HeaderLinesShape(s, line.next, max, acc + [line.value]);
    }
  }

  lemma MethodPartNoLoneCr(s: seq<byte>)
    requires MethodPart(s).Done?
    ensures NoLoneCr(s, 0, MethodPart(s).next)
  {
    var i := LineEnd(s, 0).next;
    ScanNoLoneCr(UntilByte(SP), s, i);
    var j := Token(s, i, SP).next;
    ScanNoLoneCr(UntilNonSpace, s, j + 1);
  }

  lemma PathPartNoLoneCr(s: seq<byte>, i: nat)
    requires i <= |s| && PathPart(s, i).Done?
    ensures NoLoneCr(s, i, PathPart(s, i).next)
  {
    ScanNoLoneCr(UntilSpace, s, i);
    var j := Target(s, i).next;
    ScanNoLoneCr(UntilNonSpace, s, j + 1);
  }

  lemma HttpVersionNoCr(s: seq<byte>, i: nat)
    requires i <= |s| && HttpVersion(s, i).Done?
    ensures forall j :: i <= j < HttpVersion(s, i).next ==> s[j] != CR
  {
    forall j | i <= j < i + 7 ensures s[j] != CR { assert s[j] == s[i..i + 7][j - i] == HTTP_1[j - i]; }
  }

  lemma VersionPartShape(s: seq<byte>, i: nat)
    requires i <= |s| && VersionPart(s, i).Done?
    ensures NoLoneCr(s, i, VersionPart(s, i).next) && s[VersionPart(s, i).next - 1] == LF
  {
    HttpVersionNoCr(s, i);
  }

  lemma RequestLineShape(s: seq<byte>)
    requires RequestLine(s).Done?
    ensures NoLoneCr(s, 0, RequestLine(s).next) && s[RequestLine(s).next - 1] == LF
  {
    MethodPartNoLoneCr(s);
    var i := MethodPart(s).next;
    PathPartNoLoneCr(s, i);
    VersionPartShape(s, PathPart(s, i).next);
  }

  lemma StatusLineShape(s: seq<byte>)
    requires StatusLine(s).Done?
    ensures NoLoneCr(s, 0, StatusLine(s).next) && s[StatusLine(s).next - 1] == LF
  {
    HttpVersionNoCr(s, 0);
    var v := HttpVersion(s, 0).next;
    ScanNoLoneCr(UntilNonSpace, s, v + 1);
    var i := SkipWhile(UntilNonSpace, s, v).next;
    TokenToEolNoLoneCr(s, StatusCode(s, i).next);
  }

  lemma StartLineShape(kind: Kind, s: seq<byte>)
    requires StartLine(kind, s).Done? && kind != Headers
    ensures NoLoneCr(s, 0, StartLine(kind, s).next) && s[StartLine(kind, s).next - 1] == LF
  {
    if kind == Request { RequestLineShape(s); } else { StatusLineShape(s); }
  }

  /** A parsed head ends in a blank line right after a line end (unless it is an empty header
      block), and holds no lone CR. */
  lemma HeadShape(kind: Kind, s: seq<byte>, max: nat) returns (last: nat)
    requires ParseHead(kind, s, max).Done?
    ensures NoLoneCr(s, 0, ParseHead(kind, s, max).next)
    ensures last <= |s| && LineEnd(s, last) == Done(ParseHead(kind, s, max).next, true)
    ensures last == 0 || s[last - 1] == LF
    ensures kind != Headers ==> last > 0
  {
    if kind != Headers { StartLineShape(kind, s); }
    HeaderLinesNoLoneCr(s, StartLine(kind, s).next, max, []);
    last := HeaderLinesShape(s, StartLine(kind, s).next, max, []);
  }

  // ---------------------------------------------------------------- what is_complete finds

  /** Started anywhere up to the LF before a blank line, is_complete finds a blank line. */
  lemma {:induction false} BlankLineFound(s: seq<byte>, i: nat, count: nat, last: nat, end: nat)
    requires i < last <= end <= |s| && count < 2
    requires s[last - 1] == LF && LineEnd(s, last) == Done(end, true)
    requires NoLoneCr(s, i, end)
    ensures BlankLine(s, i, count).Done?
    decreases last - i
  {
    var e := LineEnd(s, i);
    if e.value {
      if count == 0 {
        if e.next < last {
          BlankLineFound(s, e.next, 1, last, end);
        } else {
          assert e.next == last;
        }
      }
    } else {
      BlankLineFound(s, i + 1, 0, last, end);
    }
  }

  /** is_complete answers -1 only on a lone CR. */
  lemma {:induction false} BlankLineInvalid(s: seq<byte>, i: nat, count: nat)
    requires i <= |s| && count < 2 && BlankLine(s, i, count).Invalid?
    ensures exists j :: i <= j < |s| - 1 && s[j] == CR && s[j + 1] != LF
    decreases |s| - i
  {
    var e := LineEnd(s, i);
    if e.Done? {
      if e.value { BlankLineInvalid(s, e.next, count + 1); } else { BlankLineInvalid(s, i + 1, 0); }
    }
  }

  /** The three-byte back-up is enough: if the first k bytes did not parse and the whole buffer
      does, the shortcut finds a blank line. An empty header block is the exception. */
  lemma ShortcutFindsBlankLine(kind: Kind, s: seq<byte>, max: nat, k: nat)
    requires 0 < k <= |s| && !ParseHead(kind, s[..k], max).Done? && ParseHead(kind, s, max).Done?
    requires kind == Headers ==> s[..k] != [CR]
    ensures BlankLine(s, BackUp(k), 0).Done?
  {
    var p := s[..k];
    HeadExtends(kind, p, s, max);
    var end := ParseHead(kind, s, max).next;
    assert k < end;
    var last := HeadShape(kind, s, max);
    assert end <= last + 2;
    assert k == 1 ==> s[..k] == [s[0]];
    if last > 0 { BlankLineFound(s, BackUp(k), 0, last, end); }
  }

  /** The shortcut is sound: with k bytes seen and not yet a head, resuming on any extension
      succeeds exactly when parsing from scratch does, with the same length and slices. */
  lemma ResumeAgrees(kind: Kind, s: seq<byte>, max: nat, k: nat)
    requires k <= |s| && !ParseHead(kind, s[..k], max).Done?
    requires kind == Headers ==> s[..k] != [CR]
    ensures ParseHeadFrom(kind, s, max, k).Done? <==> ParseHead(kind, s, max).Done?
    ensures ParseHead(kind, s, max).Done? ==> ParseHeadFrom(kind, s, max, k) == ParseHead(kind, s, max)
  {
    if k > 0 && ParseHead(kind, s, max).Done? { ShortcutFindsBlankLine(kind, s, max, k); }
  }

  lemma LoneCrEndsHead(kind: Kind, t: seq<byte>, max: nat, j: nat)
    requires j + 1 < |t| && t[j] == CR && t[j + 1] != LF
    ensures ParseHead(kind, t, max).Done? ==> ParseHead(kind, t, max).next <= j
  {
    if ParseHead(kind, t, max).Done? { var last := HeadShape(kind, t, max); }
  }

  /** Behind the lone CR that the shortcut found no head goes on. */
  lemma ShortcutRefuses(kind: Kind, s: seq<byte>, t: seq<byte>, max: nat, from: nat)
    requires from <= |s| && BlankLine(s, from, 0).Invalid? && Arrived(s, t)
    ensures ParseHead(kind, t, max).Done? ==> ParseHead(kind, t, max).next < |s|
  {
    BlankLineInvalid(s, from, 0);
    var j :| from <= j < |s| - 1 && s[j] == CR && s[j + 1] != LF;
    assert t[j] == s[j] && t[j + 1] == s[j + 1];
    LoneCrEndsHead(kind, t, max, j);
  }

  /** A -1 from the shortcut is final: no extension of the buffer is a head. */
  lemma ResumeRefusalIsFinal(kind: Kind, s: seq<byte>, t: seq<byte>, max: nat, k: nat)
    requires k <= |s| && !ParseHead(kind, s[..k], max).Done? && Arrived(s, t)
    requires kind == Headers ==> s[..k] != [CR]
    requires ParseHeadFrom(kind, s, max, k).Invalid?
    ensures !ParseHead(kind, t, max).Done?
  {
    HeadExtends(kind, s, t, max);
    ResumeAgrees(kind, s, max, k);
    if k > 0 && BlankLine(s, BackUp(k), 0).Invalid? { ShortcutRefuses(kind, s, t, max, BackUp(k)); }
  }

  // ---------------------------------------------------------------- the exception

  /** phr_parse_headers on an empty block that arrives as CR and then LF: parsed from scratch it
      is complete, resumed it is not. */
  lemma EmptyBlockCounterexample(max: nat)
    ensures ParseHead(Headers, [CR], max).Partial?
    ensures ParseHead(Headers, [CR, LF], max) == Done(2, HeaderBlock([]))
    ensures ParseHeadFrom(Headers, [CR, LF], max, 1).Partial?
  {
    assert BlankLine([CR, LF], 2, 1).Partial?;
    assert BlankLine([CR, LF], 0, 0) == BlankLine([CR, LF], 2, 1);
  }

  /** Exactly when resuming a header block is safe: for a prefix p that is not complete, it
      agrees with parsing from scratch on every extension just when p is not a single CR. */
  lemma ResumeHeadersExactly(p: seq<byte>, max: nat)
    requires !ParseHead(Headers, p, max).Done?
    ensures (forall s :: Arrived(p, s) ==>
               (ParseHeadFrom(Headers, s, max, |p|).Done? <==> ParseHead(Headers, s, max).Done?))
       <==> p != [CR]
  {
    if p == [CR] {
      EmptyBlockCounterexample(max);
      assert Arrived(p, [CR, LF]);
    } else {
      forall s | Arrived(p, s)
        ensures ParseHeadFrom(Headers, s, max, |p|).Done? <==> ParseHead(Headers, s, max).Done?
      {
        ResumeAgrees(Headers, s, max, |p|);
      }
    }
  }

  // ---------------------------------------------------------------- growing buffers

  /** A connection's read loop: the parser is called on growing prefixes of what will arrive,
      each time (resume) with the previous length as last_len, until it says other than -2. */
  function Drive(kind: Kind, t: seq<byte>, lens: seq<nat>, last: nat, max: nat, resume: bool): Parse<Head>
    requires last <= |t| && Growing(lens, last, |t|)
    decreases |lens|
  {
    if lens == [] then Partial
    else
      var s := t[..lens[0]];
      var r := ParseHeadFrom(kind, s, max, if resume then last else 0);
      if r.Partial? then Drive(kind, t, lens[1..], lens[0], max, resume) else r
  }

  predicate Growing(lens: seq<nat>, last: nat, limit: nat)
    decreases |lens|
  {
    lens == [] || (last <= lens[0] <= limit && Growing(lens[1..], lens[0], limit))
  }

  /** However the reads cut the stream, the resuming loop succeeds when the plain one does, with
      the same length and slices. */
  lemma {:induction false} DriveAgrees(kind: Kind, t: seq<byte>, lens: seq<nat>, last: nat, max: nat)
    requires kind != Headers
    requires last <= |t| && Growing(lens, last, |t|) && !ParseHead(kind, t[..last], max).Done?
    ensures Drive(kind, t, lens, last, max, true).Done? <==> Drive(kind, t, lens, last, max, false).Done?
    ensures Drive(kind, t, lens, last, max, true).Done? ==>
              Drive(kind, t, lens, last, max, true) == Drive(kind, t, lens, last, max, false)
    decreases |lens|
  {
    if lens != [] {
      var s := t[..lens[0]];
      assert s[..last] == t[..last];
      ResumeAgrees(kind, s, max, last);
      var plain, resumed := ParseHead(kind, s, max), ParseHeadFrom(kind, s, max, last);
      if plain.Partial? && resumed.Partial? {
        DriveAgrees(kind, t, lens[1..], lens[0], max);
      } else if plain.Partial? {
        NeverAfterRefusal(kind, t, lens, last, max);
        HopelessDrive(kind, t, lens[1..], lens[0], max, false);
      } else if resumed.Partial? {
        HeadExtendsEverywhere(kind, s, t, max);
        HopelessDrive(kind, t, lens[1..], lens[0], max, true);
      }
    }
  }

  lemma NeverAfterRefusal(kind: Kind, t: seq<byte>, lens: seq<nat>, last: nat, max: nat)
    requires kind != Headers && lens != []
    requires last <= |t| && Growing(lens, last, |t|) && !ParseHead(kind, t[..last], max).Done?
    requires ParseHeadFrom(kind, t[..lens[0]], max, last).Invalid?
    ensures forall n :: lens[0] <= n <= |t| ==> !ParseHead(kind, t[..n], max).Done?
  {
    var s := t[..lens[0]];
    assert s[..last] == t[..last];
    forall n | lens[0] <= n <= |t| ensures !ParseHead(kind, t[..n], max).Done? {
      assert t[..n][..|s|] == s;
      ResumeRefusalIsFinal(kind, s, t[..n], max, last);
    }
  }

  lemma HeadExtendsEverywhere(kind: Kind, s: seq<byte>, t: seq<byte>, max: nat)
    requires Arrived(s, t) && ParseHead(kind, s, max).Invalid?
    ensures forall n :: |s| <= n <= |t| ==> !ParseHead(kind, t[..n], max).Done?
  {
    forall n | |s| <= n <= |t| ensures !ParseHead(kind, t[..n], max).Done? {
      assert t[..n][..|s|] == s;
      HeadExtends(kind, s, t[..n], max);
    }
  }

  lemma {:induction false} HopelessDrive(kind: Kind, t: seq<byte>, lens: seq<nat>, last: nat, max: nat, resume: bool)
    requires last <= |t| && Growing(lens, last, |t|)
    requires forall n :: last <= n <= |t| ==> !ParseHead(kind, t[..n], max).Done?
    ensures !Drive(kind, t, lens, last, max, resume).Done?
    decreases |lens|
  {
    if lens != [] {
      assert !ParseHead(kind, t[..lens[0]], max).Done?;
      HopelessDrive(kind, t, lens[1..], lens[0], max, resume);
    }
  }

  /** The empty block again, over a whole run: once its CR has been seen alone, the resuming loop waits
      for ever, however often it is called, and the plain one is done as soon as the LF is there. */
  lemma {:induction false} EmptyBlockWaits(lens: seq<nat>, last: nat, max: nat)
    requires 1 <= last <= 2 && Growing(lens, last, 2)
    ensures Drive(Headers, [CR, LF], lens, last, max, true).Partial?
    ensures 2 in lens ==> Drive(Headers, [CR, LF], lens, last, max, false) == Done(2, HeaderBlock([]))
    decreases |lens|
  {
    if lens != [] {
      EmptyBlockCounterexample(max);
      var t := [CR, LF];
      assert t[..lens[0]] == if lens[0] == 1 then [CR] else [CR, LF];
      assert BlankLine([CR], 0, 0).Partial?;
      EmptyBlockWaits(lens[1..], lens[0], max);
    }
  }
}
