/** Writing a head down and reading it back. */
module HttpRoundTrip {
  import opened Bytes
  import opened HttpScan
  import opened HttpHead

  /** A header line as text. A folded one continues the line before it; its value keeps the
      blanks it starts with. */
  datatype HeaderText =
    | Named(name: seq<byte>, pre: seq<byte>, value: seq<byte>, post: seq<byte>, eol: seq<byte>)
    | Folded(value: seq<byte>, post: seq<byte>, eol: seq<byte>)

  datatype RequestText = RequestText(
    emptyLine: seq<byte>, method_: seq<byte>, gap: seq<byte>, path: seq<byte>, gap2: seq<byte>,
    minorVersion: nat, eol: seq<byte>, headers: seq<HeaderText>, end: seq<byte>)

  predicate IsEol(e: seq<byte>) { e == [CR, LF] || e == [LF] }

  ghost predicate AllBlank(s: seq<byte>) { forall c <- s :: IsBlank(c) }

  ghost predicate Spaces(s: seq<byte>) { s != [] && forall c <- s :: c == SP }

  ghost predicate IsFieldText(s: seq<byte>) { forall c <- s :: !IsControl(c) || c == HT }

  ghost predicate ValidHeader(h: HeaderText) {
    && IsFieldText(h.value) && AllBlank(h.post) && IsEol(h.eol)
    && (h.value != [] ==> !IsBlank(h.value[|h.value| - 1]))
    && match h
       case Named(name, pre, value, _, _) =>
         && name != [] && (forall c <- name :: IsTokenChar(c))
         && AllBlank(pre) && (value != [] ==> !IsBlank(value[0]))
       case Folded(value, post, _) =>
         if value == [] then post != [] else IsBlank(value[0])
  }

  /** The first one continues nothing. */
  ghost predicate ValidHeaders(hs: seq<HeaderText>) {
    (forall h <- hs :: ValidHeader(h)) && (hs != [] ==> hs[0].Named?)
  }

  ghost predicate ValidRequestLine(r: RequestText) {
    && (r.emptyLine == [] || IsEol(r.emptyLine))
    && r.method_ != [] && (forall c <- r.method_ :: IsTokenChar(c))
    && Spaces(r.gap) && Spaces(r.gap2)
    && r.path != [] && (forall c <- r.path :: !IsControl(c) && c != SP)
    && r.minorVersion < 10 && IsEol(r.eol)
  }

  ghost predicate ValidRequest(r: RequestText) { ValidRequestLine(r) && ValidHeaders(r.headers) && IsEol(r.end) }

  function RenderHeader(h: HeaderText): seq<byte> {
    match h
    case Named(name, pre, value, post, eol) => name + ([':' as int] + (pre + (value + (post + eol))))
    case Folded(value, post, eol) => value + (post + eol)
  }

  function RenderHeaders(hs: seq<HeaderText>, end: seq<byte>): seq<byte> {
    if hs == [] then end else RenderHeader(hs[0]) + RenderHeaders(hs[1..], end)
  }

  function RenderRequest(r: RequestText): seq<byte>
    requires r.minorVersion < 10
  {
    r.emptyLine + (r.method_ + (r.gap + (r.path + (r.gap2 + RenderTail(r)))))
  }

  function Contents(s: seq<byte>, p: Slice): seq<byte> {
    if p.start + p.len <= |s| then s[p.start..p.start + p.len] else []
  }

  ghost predicate Reads(s: seq<byte>, h: Header, text: HeaderText) {
    && Contents(s, h.value) == text.value
    && match text
       case Named(name, _, _, _, _) => h.name.Some? && Contents(s, h.name.value) == name
       case Folded(_, _, _) => h.name.None?
  }

  ghost predicate Passes(sc: Scanner, text: seq<byte>) {
    forall c <- text :: !Stops(sc, c) && !Rejects(sc, c)
  }

  lemma ScanOver(sc: Scanner, s: seq<byte>, i: nat, text: seq<byte>)
    requires At(s, i, text) && Passes(sc, text)
    requires i + |text| < |s| && Stops(sc, s[i + |text|])
    ensures Scan(sc, s, i) == Done(i + |text|, ())
  {
    forall j | i <= j < i + |text| ensures !Stops(sc, s[j]) && !Rejects(sc, s[j]) {
      assert s[i + (j - i)] == text[j - i] && text[j - i] in text;
    }
    ScanSkips(sc, s, i, i + |text|);
  }

  lemma EolStops(s: seq<byte>, i: nat, eol: seq<byte>)
    requires IsEol(eol) && At(s, i, eol)
    ensures i < |s| && (s[i] == CR || s[i] == LF) && LineEnd(s, i) == Done(i + |eol|, true)
  {
    assert s[i + 0] == eol[0];
    assert |eol| == 2 ==> s[i + 1] == eol[1];
  }

  lemma {:induction false} TrimsTo(s: seq<byte>, start: nat, n: nat, post: seq<byte>)
    requires At(s, start + n, post) && AllBlank(post)
    requires n > 0 ==> !IsBlank(s[start + n - 1])
    ensures TrimBlanks(s, Slice(start, n + |post|)) == Slice(start, n)
    decreases |post|
  {
    if post != [] {
      var k := |post| - 1;
      assert s[start + n + k] == post[k] && post[k] in post;
      assert forall c <- post[..k] :: c in post;
      TrimsTo(s, start, n, post[..k]);
    }
  }

  /** A value, the blanks after it and its line end, read as get_token_to_eol and trimmed. */
  lemma ValueReads(s: seq<byte>, j: nat, value: seq<byte>, post: seq<byte>, eol: seq<byte>)
    requires At(s, j, value) && At(s, j + |value|, post) && At(s, j + |value| + |post|, eol)
    requires IsFieldText(value) && AllBlank(post) && IsEol(eol)
    requires value != [] ==> !IsBlank(value[|value| - 1])
    ensures var r := TokenToEol(s, j);
            && r.Done? && r.next == j + |value| + |post| + |eol|
            && TrimBlanks(s, r.value) == Slice(j, |value|)
    ensures Contents(s, Slice(j, |value|)) == value
  {
    var end := j + |value| + |post|;
    EolStops(s, end, eol);
    ScanOver(UntilControl, s, j, value + post);
    assert value != [] ==> s[j + (|value| - 1)] == value[|value| - 1];
    TrimsTo(s, j, |value|, post);
    AtSlice(s, j, value);
  }

  /** Between the colon and the value: skipping stops at the value, or at the line end if there
      is none. */
  lemma BlanksSkipped(s: seq<byte>, i: nat, pre: seq<byte>)
    requires 0 < i && At(s, i, pre) && AllBlank(pre) && i + |pre| < |s| && !IsBlank(s[i + |pre|])
    ensures SkipWhile(UntilNonBlank, s, i - 1) == Done(i + |pre|, ())
  {
    ScanOver(UntilNonBlank, s, i, pre);
  }

  /** Where the parts of a header line stand. */
  ghost predicate NamedAt(s: seq<byte>, i: nat, h: HeaderText)
    requires h.Named?
  {
    var k := i + |h.name| + 1;
    && At(s, i, h.name) && At(s, k - 1, [':' as int]) && At(s, k, h.pre) && At(s, k + |h.pre|, h.value)
    && At(s, k + |h.pre| + |h.value|, h.post) && At(s, k + |h.pre| + |h.value| + |h.post|, h.eol)
  }

  ghost predicate FoldedAt(s: seq<byte>, i: nat, h: HeaderText)
    requires h.Folded?
  {
    At(s, i, h.value) && At(s, i + |h.value|, h.post) && At(s, i + |h.value| + |h.post|, h.eol)
  }

  lemma HeaderAt(s: seq<byte>, i: nat, h: HeaderText)
    requires At(s, i, RenderHeader(h))
    ensures h.Named? ==> NamedAt(s, i, h)
    ensures h.Folded? ==> FoldedAt(s, i, h)
    ensures |RenderHeader(h)| == (if h.Named? then |h.name| + 1 + |h.pre| else 0) + |h.value| + |h.post| + |h.eol|
  {
    match h
    case Named(name, pre, value, post, eol) =>
      AtSplit(s, i, name, [':' as int] + (pre + (value + (post + eol))));
      AtSplit(s, i + |name|, [':' as int], pre + (value + (post + eol)));
      var k := i + |name| + 1;
      AtSplit(s, k, pre, value + (post + eol));
      AtSplit(s, k + |pre|, value, post + eol);
      AtSplit(s, k + |pre| + |value|, post, eol);
    case Folded(value, post, eol) =>
      AtSplit(s, i, value, post + eol);
      AtSplit(s, i + |value|, post, eol);
  }

  lemma HeaderNameReads(s: seq<byte>, i: nat, first: bool, name: seq<byte>)
    requires name != [] && (forall c <- name :: IsTokenChar(c))
    requires At(s, i, name) && At(s, i + |name|, [':' as int])
    ensures !IsBlank(s[i]) && Token(s, i, ':' as int) == Done(i + |name|, Slice(i, |name|))
    ensures Contents(s, Slice(i, |name|)) == name
  {
    assert s[i + 0] == name[0] && name[0] in name;
    assert s[i + |name| + 0] == [':' as int][0];
    ScanOver(UntilByte(':' as int), s, i, name);
    AtSlice(s, i, name);
  }

  lemma NamedValueReads(s: seq<byte>, k: nat, pre: seq<byte>, value: seq<byte>, post: seq<byte>, eol: seq<byte>)
    requires 0 < k && At(s, k, pre) && At(s, k + |pre|, value) && At(s, k + |pre| + |value|, post)
    requires At(s, k + |pre| + |value| + |post|, eol)
    requires AllBlank(pre) && IsFieldText(value) && AllBlank(post) && IsEol(eol)
    requires value != [] ==> !IsBlank(value[0]) && !IsBlank(value[|value| - 1])
    ensures var skipped := SkipWhile(UntilNonBlank, s, k - 1);
            && skipped.Done?
            && var r := TokenToEol(s, skipped.next);
               && r.Done? && r.next == k + |pre| + |value| + |post| + |eol|
               && Contents(s, TrimBlanks(s, r.value)) == value
  {
    EolStops(s, k + |pre| + |value| + |post|, eol);
    if value == [] {
      BlanksSkipped(s, k, pre + post);
      ValueReads(s, k + |pre| + |post|, [], [], eol);
    } else {
      assert s[k + |pre| + 0] == value[0];
      BlanksSkipped(s, k, pre);
      ValueReads(s, k + |pre|, value, post, eol);
    }
  }

  lemma NamedHeaderLine(s: seq<byte>, i: nat, first: bool)
    requires i < |s| && !IsBlank(s[i])
    requires var name := Token(s, i, ':' as int);
             && name.Done? && name.value.len > 0
             && SkipWhile(UntilNonBlank, s, name.next).Done?
             && TokenToEol(s, SkipWhile(UntilNonBlank, s, name.next).next).Done?
    ensures var name := Token(s, i, ':' as int);
            var value := TokenToEol(s, SkipWhile(UntilNonBlank, s, name.next).next);
            HeaderLine(s, i, first) == Done(value.next, Header(Some(name.value), TrimBlanks(s, value.value)))
  {
  }

  lemma NamedHeaderReads(s: seq<byte>, i: nat, first: bool, h: HeaderText)
    requires h.Named? && ValidHeader(h) && NamedAt(s, i, h)
    ensures i < |s|
    ensures var r := HeaderLine(s, i, first);
            && r.Done? && r.next == i + |h.name| + 1 + |h.pre| + |h.value| + |h.post| + |h.eol|
            && Reads(s, r.value, h)
  {
    NamedPartsRead(s, i, first, h.name, h.pre, h.value, h.post, h.eol);
  }

  lemma NamedPartsRead(s: seq<byte>, i: nat, first: bool,
                       name: seq<byte>, pre: seq<byte>, value: seq<byte>, post: seq<byte>, eol: seq<byte>)
    requires name != [] && (forall c <- name :: IsTokenChar(c))
    requires At(s, i, name) && At(s, i + |name|, [':' as int])
    requires var k := i + |name| + 1;
             && At(s, k, pre) && At(s, k + |pre|, value) && At(s, k + |pre| + |value|, post)
             && At(s, k + |pre| + |value| + |post|, eol)
    requires AllBlank(pre) && IsFieldText(value) && AllBlank(post) && IsEol(eol)
    requires value != [] ==> !IsBlank(value[0]) && !IsBlank(value[|value| - 1])
    ensures i < |s|
    ensures var r := HeaderLine(s, i, first);
            && r.Done? && r.next == i + |name| + 1 + |pre| + |value| + |post| + |eol|
            && r.value.name == Some(Slice(i, |name|)) && Contents(s, Slice(i, |name|)) == name
            && Contents(s, r.value.value) == value
  {
    HeaderNameReads(s, i, first, name);
    NamedValueReads(s, i + |name| + 1, pre, value, post, eol);
    NamedHeaderLine(s, i, first);
  }

  lemma FoldStartsBlank(s: seq<byte>, i: nat, h: HeaderText)
    requires h.Folded? && ValidHeader(h) && FoldedAt(s, i, h)
    ensures i < |s| && IsBlank(s[i])
  {
    if h.value != [] { assert s[i + 0] == h.value[0]; } else { assert s[i + 0] == h.post[0] && h.post[0] in h.post; }
  }

  lemma FoldedHeaderReads(s: seq<byte>, i: nat, h: HeaderText)
    requires h.Folded? && ValidHeader(h) && FoldedAt(s, i, h) && i < |s|
    ensures var r := HeaderLine(s, i, false);
            r.Done? && r.next == i + |h.value| + |h.post| + |h.eol| && Reads(s, r.value, h)
  {
    FoldStartsBlank(s, i, h);
    ValueReads(s, i, h.value, h.post, h.eol);
  }

  lemma HeaderIsNotBlankLine(s: seq<byte>, i: nat, h: HeaderText)
    requires ValidHeader(h) && (h.Named? ==> NamedAt(s, i, h)) && (h.Folded? ==> FoldedAt(s, i, h))
    ensures i < |s| && LineEnd(s, i) == Done(i, false)
  {
    if h.Named? {
      assert s[i + 0] == h.name[0] && h.name[0] in h.name;
    } else {
      FoldStartsBlank(s, i, h);
    }
  }

  lemma HeaderReads(s: seq<byte>, i: nat, first: bool, h: HeaderText)
    requires ValidHeader(h) && At(s, i, RenderHeader(h)) && (h.Folded? ==> !first)
    ensures i < |s| && LineEnd(s, i) == Done(i, false)
    ensures var r := HeaderLine(s, i, first);
            r.Done? && r.next == i + |RenderHeader(h)| && Reads(s, r.value, h)
  {
    HeaderAt(s, i, h);
    HeaderIsNotBlankLine(s, i, h);
    if h.Named? { NamedHeaderReads(s, i, first, h); } else { FoldedHeaderReads(s, i, h); }
  }

  ghost predicate AllRead(s: seq<byte>, got: seq<Header>, texts: seq<HeaderText>) {
    |got| == |texts| && forall k :: 0 <= k < |got| ==> Reads(s, got[k], texts[k])
  }

  lemma OneMoreRead(s: seq<byte>, got: seq<Header>, texts: seq<HeaderText>, g: Header, h: HeaderText)
    requires AllRead(s, got, texts) && Reads(s, g, h)
    ensures AllRead(s, got + [g], texts + [h])
  {
  }

  /** One header read, wherever it stands. */
  lemma HeaderTaken(s: seq<byte>, i: nat, max: nat, acc: seq<Header>, h: HeaderText) returns (g: Header)
    requires ValidHeader(h) && At(s, i, RenderHeader(h)) && (h.Folded? ==> acc != []) && |acc| < max
    ensures i + |RenderHeader(h)| <= |s| && Reads(s, g, h)
    ensures HeaderLines(s, i, max, acc) == HeaderLines(s, i + |RenderHeader(h)|, max, acc + [g])
  {
    HeaderReads(s, i, acc == [], h);
    HeaderLinesUnfold(s, i, max, acc);
    g := HeaderLine(s, i, acc == []).value;
  }

  lemma NoMoreHeaders(s: seq<byte>, i: nat, max: nat, acc: seq<Header>, end: seq<byte>)
    requires At(s, i, end) && IsEol(end)
    ensures HeaderLines(s, i, max, acc) == Done(i + |end|, acc)
  {
    EolStops(s, i, end);
  }

  /** The parser, standing at i with some headers read, reads those of hs and stops behind the last. */
  ghost predicate ReadOn(s: seq<byte>, i: nat, max: nat, acc: seq<Header>, before: seq<HeaderText>,
                         hs: seq<HeaderText>, next: nat)
    requires i <= |s|
  {
    var r := HeaderLines(s, i, max, acc);
    r.Done? && r.next == next && AllRead(s, r.value, before + hs)
  }

  lemma HeadAndTail(hs: seq<HeaderText>, end: seq<byte>)
    requires hs != []
    ensures hs == [hs[0]] + hs[1..] && (forall h <- hs[1..] :: h in hs)
    ensures RenderHeaders(hs, end) == RenderHeader(hs[0]) + RenderHeaders(hs[1..], end)
    ensures |RenderHeaders(hs, end)| == |RenderHeader(hs[0])| + |RenderHeaders(hs[1..], end)|
  {
  }

  lemma {:induction false} HeadersRead(s: seq<byte>, i: nat, max: nat, acc: seq<Header>, before: seq<HeaderText>,
                                       hs: seq<HeaderText>, end: seq<byte>)
    requires At(s, i, RenderHeaders(hs, end)) && IsEol(end)
    requires forall h <- hs :: ValidHeader(h)
    requires hs != [] && acc == [] ==> hs[0].Named?
    requires AllRead(s, acc, before) && |acc| + |hs| <= max
    ensures ReadOn(s, i, max, acc, before, hs, i + |RenderHeaders(hs, end)|)
    decreases |hs|, 1
  {
    if hs == [] {
      NoMoreHeaders(s, i, max, acc, end);
      assert before + hs == before;
    } else {
      HeadAndTail(hs, end);
      MoreHeadersRead(s, i, max, acc, before, hs[0], hs[1..], end);
    }
  }

  lemma {:induction false} MoreHeadersRead(s: seq<byte>, i: nat, max: nat, acc: seq<Header>, before: seq<HeaderText>,
                                           h: HeaderText, tail: seq<HeaderText>, end: seq<byte>)
    requires At(s, i, RenderHeader(h) + RenderHeaders(tail, end)) && IsEol(end)
    requires ValidHeader(h) && (forall t <- tail :: ValidHeader(t)) && (acc == [] ==> h.Named?)
    requires AllRead(s, acc, before) && |acc| + 1 + |tail| <= max
    ensures ReadOn(s, i, max, acc, before, [h] + tail, i + |RenderHeader(h)| + |RenderHeaders(tail, end)|)
    decreases |tail|, 2
  {
    AtSplit(s, i, RenderHeader(h), RenderHeaders(tail, end));
    var g := HeaderTaken(s, i, max, acc, h);
    OneMoreRead(s, acc, before, g, h);
    HeadersRead(s, i + |RenderHeader(h)|, max, acc + [g], before + [h], tail, end);
    Regroup(before, [h], tail);
  }

  lemma GapSkipped(s: seq<byte>, i: nat, gap: seq<byte>)
    requires Spaces(gap) && At(s, i, gap) && i + |gap| < |s| && s[i + |gap|] != SP
    ensures s[i] == SP && SkipWhile(UntilNonSpace, s, i) == Done(i + |gap|, ())
  {
    assert s[i + 0] == gap[0] && gap[0] in gap;
    forall k | 0 <= k < |gap[1..]| ensures s[i + 1 + k] == gap[1..][k] { assert s[i + (k + 1)] == gap[k + 1]; }
    assert forall c <- gap[1..] :: c in gap;
    ScanOver(UntilNonSpace, s, i + 1, gap[1..]);
  }

  lemma MethodReads(s: seq<byte>, empty: seq<byte>, method_: seq<byte>, gap: seq<byte>)
    requires empty == [] || IsEol(empty)
    requires method_ != [] && (forall c <- method_ :: IsTokenChar(c)) && Spaces(gap)
    requires At(s, 0, empty) && At(s, |empty|, method_) && At(s, |empty| + |method_|, gap)
    requires var i := |empty| + |method_| + |gap|; i < |s| && s[i] != SP
    ensures MethodPart(s) == Done(|empty| + |method_| + |gap|, Slice(|empty|, |method_|))
    ensures Contents(s, Slice(|empty|, |method_|)) == method_
  {
    AtSlice(s, |empty|, method_);
    var e := |empty|;
    assert s[e + 0] == method_[0] && method_[0] in method_;
    if empty != [] { EolStops(s, 0, empty); }
    GapSkipped(s, e + |method_|, gap);
    ScanOver(UntilByte(SP), s, e, method_);
  }

  lemma PathReads(s: seq<byte>, i: nat, path: seq<byte>, gap: seq<byte>)
    requires (forall c <- path :: !IsControl(c) && c != SP) && Spaces(gap)
    requires At(s, i, path) && At(s, i + |path|, gap)
    requires i + |path| + |gap| < |s| && s[i + |path| + |gap|] != SP
    ensures PathPart(s, i) == Done(i + |path| + |gap|, Slice(i, |path|)) && Contents(s, Slice(i, |path|)) == path
  {
    AtSlice(s, i, path);
    GapSkipped(s, i + |path|, gap);
    ScanOver(UntilSpace, s, i, path);
  }

  lemma VersionReads(s: seq<byte>, i: nat, minor: nat, eol: seq<byte>)
    requires minor < 10 && IsEol(eol)
    requires At(s, i, HTTP_1) && At(s, i + 7, ['0' as int + minor]) && At(s, i + 8, eol)
    requires i + 8 < |s|
    ensures VersionPart(s, i) == Done(i + 8 + |eol|, minor)
  {
    assert s[i + 7 + 0] == ['0' as int + minor][0];
    assert s[i..i + 7] == HTTP_1;
    EolStops(s, i + 8, eol);
  }

  /** The version and everything after it. */
  function RenderTail(r: RequestText): seq<byte>
    requires r.minorVersion < 10
  {
    HTTP_1 + (['0' as int + r.minorVersion] + (r.eol + RenderHeaders(r.headers, r.end)))
  }

  /** Where the parts of a request stand: i is the path's place, j the version's. */
  ghost predicate FrontAt(s: seq<byte>, r: RequestText, i: nat, j: nat) {
    && i == |r.emptyLine| + |r.method_| + |r.gap| && j == i + |r.path| + |r.gap2|
    && At(s, 0, r.emptyLine) && At(s, |r.emptyLine|, r.method_) && At(s, |r.emptyLine| + |r.method_|, r.gap)
    && At(s, i, r.path) && At(s, i + |r.path|, r.gap2)
  }

  ghost predicate TailAt(s: seq<byte>, r: RequestText, j: nat)
    requires r.minorVersion < 10
  {
    && At(s, j, HTTP_1) && At(s, j + 7, ['0' as int + r.minorVersion]) && At(s, j + 8, r.eol)
    && At(s, j + 8 + |r.eol|, RenderHeaders(r.headers, r.end))
    && |RenderTail(r)| == 8 + |r.eol| + |RenderHeaders(r.headers, r.end)|
  }

  lemma FrontPieces(s: seq<byte>, a: seq<byte>, b: seq<byte>, c: seq<byte>, d: seq<byte>, e: seq<byte>, t: seq<byte>)
    requires At(s, 0, a + (b + (c + (d + (e + t)))))
    ensures At(s, 0, a) && At(s, |a|, b) && At(s, |a| + |b|, c)
    ensures var i := |a| + |b| + |c|; At(s, i, d) && At(s, i + |d|, e) && At(s, i + |d| + |e|, t)
  {
    var i := |a| + |b| + |c|;
    AtSplitTwice(s, 0, a, b, c + (d + (e + t)));
    AtSplit(s, |a| + |b|, c, d + (e + t));
    AtSplitTwice(s, i, d, e, t);
  }

  lemma FrontLaidOut(s: seq<byte>, r: RequestText) returns (i: nat, j: nat)
    requires r.minorVersion < 10 && At(s, 0, RenderRequest(r))
    ensures FrontAt(s, r, i, j) && At(s, j, RenderTail(r)) && |RenderRequest(r)| == j + |RenderTail(r)|
  {
    FrontPieces(s, r.emptyLine, r.method_, r.gap, r.path, r.gap2, RenderTail(r));
    i := |r.emptyLine| + |r.method_| + |r.gap|;
    j := i + |r.path| + |r.gap2|;
  }

  lemma TailLaidOut(s: seq<byte>, r: RequestText, j: nat)
    requires r.minorVersion < 10 && At(s, j, RenderTail(r))
    ensures TailAt(s, r, j)
  {
    var t7 := r.eol + RenderHeaders(r.headers, r.end);
    var t6 := ['0' as int + r.minorVersion] + t7;
    AtSplit(s, j, HTTP_1, t6);
    AtSplit(s, j + 7, ['0' as int + r.minorVersion], t7);
    AtSplit(s, j + 8, r.eol, RenderHeaders(r.headers, r.end));
  }

  lemma TailReads(s: seq<byte>, r: RequestText, j: nat)
    requires r.minorVersion < 10 && IsEol(r.eol) && At(s, j, RenderTail(r))
    ensures j < |s| && s[j] == 'H' as int && VersionPart(s, j) == Done(j + 8 + |r.eol|, r.minorVersion)
    ensures At(s, j + 8 + |r.eol|, RenderHeaders(r.headers, r.end))
    ensures |RenderTail(r)| == 8 + |r.eol| + |RenderHeaders(r.headers, r.end)|
  {
    TailLaidOut(s, r, j);
    assert s[j + 0] == HTTP_1[0];
    assert s[j + 8 + 0] == r.eol[0];
    VersionReads(s, j, r.minorVersion, r.eol);
  }

  lemma FrontReads(s: seq<byte>, r: RequestText, i: nat, j: nat)
    requires ValidRequestLine(r) && FrontAt(s, r, i, j) && j < |s| && s[j] == 'H' as int
    ensures MethodPart(s) == Done(i, Slice(|r.emptyLine|, |r.method_|))
    ensures PathPart(s, i) == Done(j, Slice(i, |r.path|))
    ensures Contents(s, Slice(|r.emptyLine|, |r.method_|)) == r.method_ && Contents(s, Slice(i, |r.path|)) == r.path
  {
    PathStarts(s, i, r.path);
    MethodReads(s, r.emptyLine, r.method_, r.gap);
    PathReads(s, i, r.path, r.gap2);
  }

  lemma PathStarts(s: seq<byte>, i: nat, path: seq<byte>)
    requires path != [] && At(s, i, path) && forall c <- path :: c != SP
    ensures i < |s| && s[i] != SP
  {
    assert s[i + 0] == path[0] && path[0] in path;
  }

  lemma RequestLineReads(s: seq<byte>, r: RequestText) returns (i: nat, next: nat)
    requires ValidRequestLine(r) && At(s, 0, RenderRequest(r))
    ensures RequestLine(s) == Done(next, (Slice(|r.emptyLine|, |r.method_|), Slice(i, |r.path|), r.minorVersion))
    ensures Contents(s, Slice(|r.emptyLine|, |r.method_|)) == r.method_ && Contents(s, Slice(i, |r.path|)) == r.path
    ensures At(s, next, RenderHeaders(r.headers, r.end))
    ensures next + |RenderHeaders(r.headers, r.end)| == |RenderRequest(r)|
  {
    var j;
    i, j := FrontLaidOut(s, r);
    TailReads(s, r, j);
    FrontReads(s, r, i, j);
    next := j + 8 + |r.eol|;
  }

  /** Parsing a written-down request, whatever bytes come behind it, consumes exactly its text and
      returns exactly its parts, in order. */
  lemma RequestRoundTrip(r: RequestText, rest: seq<byte>, max: nat)
    requires ValidRequest(r) && |r.headers| <= max
    ensures var s := RenderRequest(r) + rest;
            var p := ParseHead(Request, s, max);
            && p.Done? && p.next == |RenderRequest(r)|
            && Contents(s, p.value.method_) == r.method_
            && Contents(s, p.value.path) == r.path
            && p.value.minorVersion == r.minorVersion
            && AllRead(s, p.value.headers, r.headers)
  {
    var text := RenderRequest(r);
    var s := text + rest;
    assert At(s, 0, text);
    var i, next := RequestLineReads(s, r);
    HeadersRead(s, next, max, [], [], r.headers, r.end);
    assert [] + r.headers == r.headers;
  }
}
