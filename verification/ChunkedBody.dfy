/** The language of complete chunked bodies, written as a grammar, and the proof that the
    automaton accepts exactly that language. Bodies as section 4.1 of RFC 7230 prescribes them are
    those whose ext ends in CR, whose trailer lines end in CR, and whose crs and endCrs are 1. */
module ChunkedBody {
  import opened Bytes
  import opened ChunkedAutomaton

  /** digits ext LF data CR*crs LF, where ext is all that follows the size on its line. */
  datatype Chunk = Chunk(digits: seq<byte>, ext: seq<byte>, data: seq<byte>, crs: nat)

  /** lastDigits and lastExt make the zero-sized line; trailers are the lines up to the blank one. */
  datatype Body = Body(chunks: seq<Chunk>, lastDigits: seq<byte>, lastExt: seq<byte>,
                       trailers: seq<seq<byte>>, endCrs: nat)

  function Number(acc: nat, digits: seq<byte>): nat
    requires forall c <- digits :: IsHexDigit(c)
    decreases |digits|
  {
    if digits == [] then acc
    else
      assert IsHexDigit(digits[0]);
      Number(acc * 16 + HexDigit(digits[0]), digits[1..])
  }

  ghost predicate SizeLine(digits: seq<byte>, ext: seq<byte>) {
    && 1 <= |digits| <= HEX_LIMIT
    && (forall c <- digits :: IsHexDigit(c))
    && LF !in ext
    && (ext != [] ==> !IsHexDigit(ext[0]))
  }

  ghost predicate WellFormedChunk(c: Chunk) {
    SizeLine(c.digits, c.ext) && |c.data| == Number(0, c.digits) > 0
  }

  ghost predicate TrailerLine(line: seq<byte>) {
    LF !in line && exists c :: c in line && c != CR
  }

  ghost predicate WellFormed(b: Body) {
    && (forall c <- b.chunks :: WellFormedChunk(c))
    && SizeLine(b.lastDigits, b.lastExt) && Number(0, b.lastDigits) == 0
    && (forall line <- b.trailers :: TrailerLine(line))
  }

  function Repeat(c: byte, n: nat): (s: seq<byte>)
    ensures |s| == n
  {
    seq(n, i => c)
  }

  lemma RepeatIsAll(c: byte, n: nat)
    ensures forall x <- Repeat(c, n) :: x == c
  {
  }

  function LineEnd(crs: nat): seq<byte> { Repeat(CR, crs) + [LF] }

  function RenderChunk(c: Chunk): seq<byte> {
    c.digits + c.ext + [LF] + c.data + LineEnd(c.crs)
  }

  function RenderTrailers(lines: seq<seq<byte>>, endCrs: nat): seq<byte> {
    if lines == [] then LineEnd(endCrs) else lines[0] + [LF] + RenderTrailers(lines[1..], endCrs)
  }

  function RenderEnd(b: Body, consumeTrailer: bool): seq<byte> {
    b.lastDigits + b.lastExt + [LF] + (if consumeTrailer then RenderTrailers(b.trailers, b.endCrs) else [])
  }

  /** The body up to the byte at which the decoder reports completion. */
  function Render(b: Body, consumeTrailer: bool): seq<byte>
    decreases |b.chunks|
  {
    if b.chunks == [] then RenderEnd(b, consumeTrailer)
    else RenderChunk(b.chunks[0]) + Render(b.(chunks := b.chunks[1..]), consumeTrailer)
  }

  function Data(b: Body): seq<byte>
    decreases |b.chunks|
  {
    if b.chunks == [] then [] else b.chunks[0].data + Data(b.(chunks := b.chunks[1..]))
  }

  // ---------------------------------------------------------------- stretches of input

  lemma SilentRun(d: Decoder, c: byte, s: seq<byte>)
    requires StepByte(d, c).Continue? && StepByte(d, c).emitted == []
    ensures Run(d, [c] + s) == Run(StepByte(d, c).next, s)
  {
    assert ([c] + s)[1..] == s;
    SilentStep(d, [c] + s);
  }

  lemma {:induction false} NumberBound(acc: nat, count: nat, digits: seq<byte>)
    requires (forall c <- digits :: IsHexDigit(c)) && count + |digits| <= HEX_LIMIT && acc < Pow(16, count)
    ensures Number(acc, digits) < Pow(16, count + |digits|) <= SIZE_MAX + 1
    decreases |digits|
  {
    HexPowerBound(count);
    if digits != [] {
      assert IsHexDigit(digits[0]);
      SizeDigitFits(acc, count, HexDigit(digits[0]));
      NumberBound(acc * 16 + HexDigit(digits[0]), count + 1, digits[1..]);
    }
  }

  lemma DigitStep(d: Decoder, s: seq<byte>)
    requires d.phase == ChunkSize && d.hexCount < HEX_LIMIT && s != [] && IsHexDigit(s[0])
    ensures var v := SizeMul16Add(d.bytesLeft, HexDigit(s[0]));
            Run(d, s) == Run(d.(bytesLeft := v, hexCount := d.hexCount + 1), s[1..])
  {
    SilentStep(d, s);
  }

  lemma DigitRuns(d: Decoder, s: seq<byte>)
    requires d.phase == ChunkSize && Consistent(d) && d.hexCount < HEX_LIMIT && s != [] && IsHexDigit(s[0])
    ensures var d1 := d.(bytesLeft := d.bytesLeft * 16 + HexDigit(s[0]), hexCount := d.hexCount + 1);
            Consistent(d1) && Run(d, s) == Run(d1, s[1..])
  {
    SizeDigitFits(d.bytesLeft, d.hexCount, HexDigit(s[0]));
    DigitStep(d, s);
  }

  lemma HexTail(digits: seq<byte>)
    requires digits != [] && forall c <- digits :: IsHexDigit(c)
    ensures IsHexDigit(digits[0]) && forall c <- digits[1..] :: IsHexDigit(c)
  {
  }

  lemma {:induction false} RunDigits(d: Decoder, digits: seq<byte>, s: seq<byte>)
    requires d.phase == ChunkSize && Consistent(d) && d.hexCount + |digits| <= HEX_LIMIT
    requires forall c <- digits :: IsHexDigit(c)
    ensures var d2 := d.(bytesLeft := Number(d.bytesLeft, digits), hexCount := d.hexCount + |digits|);
            Consistent(d2) && Run(d, digits + s) == Run(d2, s)
    decreases |digits|
  {
    if digits == [] {
      assert digits + s == s;
    } else {
      HexTail(digits);
      FrontMoves(digits, s);
      DigitRuns(d, digits + s);
      RunDigits(d.(bytesLeft := d.bytesLeft * 16 + HexDigit(digits[0]), hexCount := d.hexCount + 1), digits[1..], s);
    }
  }

  lemma FrontMoves(a: seq<byte>, b: seq<byte>)
    requires a != []
    ensures (a + b)[0] == a[0] && (a + b)[1..] == a[1..] + b
  {
  }

  /** Bytes that leave the phase alone, in the three phases that skip. */
  lemma {:induction false} RunSkipping(d: Decoder, skipped: seq<byte>, s: seq<byte>)
    requires forall c <- skipped :: StepByte(d, c) == Continue(d, [])
    ensures Run(d, skipped + s) == Run(d, s)
    decreases |skipped|
  {
    if skipped == [] {
      assert skipped + s == s;
    } else {
      assert skipped + s == [skipped[0]] + (skipped[1..] + s);
      SilentRun(d, skipped[0], skipped[1..] + s);
      RunSkipping(d, skipped[1..], s);
    }
  }

  /** The byte behind the digits is the extension's or its LF. */
  lemma DigitsEnd(consume: bool, n: nat, count: nat, line: seq<byte>)
    requires line != [] && !IsHexDigit(line[0]) && 0 < count <= HEX_LIMIT
    ensures Run(Decoder(ChunkSize, n, count, consume), line) == Run(Decoder(ChunkExt, n, 0, consume), line)
  {
  }

  lemma ExtensionRuns(consume: bool, n: nat, ext: seq<byte>, s: seq<byte>)
    requires LF !in ext
    ensures Run(Decoder(ChunkExt, n, 0, consume), ext + ([LF] + s)) ==
            if n > 0 then Run(Decoder(ChunkData, n, 0, consume), s)
            else if consume then Run(Decoder(TrailerLineHead, 0, 0, consume), s)
            else Outcome(Finished, Decoder(ChunkExt, 0, 0, consume), [], s)
  {
    var ended := Decoder(ChunkExt, n, 0, consume);
    RunSkipping(ended, ext, [LF] + s);
    if n > 0 || consume {
      SilentRun(ended, LF, s);
    } else {
      assert ([LF] + s)[1..] == s;
    }
  }

  /** A whole size line leads to data, to the trailers, or to the end. */
  lemma RunSizeLine(consume: bool, digits: seq<byte>, ext: seq<byte>, s: seq<byte>)
    requires SizeLine(digits, ext)
    ensures Number(0, digits) <= SIZE_MAX
    ensures var n := Number(0, digits);
            Run(Init(consume), digits + ext + [LF] + s) ==
            if n > 0 then Run(Decoder(ChunkData, n, 0, consume), s)
            else if consume then Run(Decoder(TrailerLineHead, 0, 0, consume), s)
            else Outcome(Finished, Decoder(ChunkExt, 0, 0, consume), [], s)
  {
    var n := Number(0, digits);
    NumberBound(0, 0, digits);
    Chained(digits, ext, [LF], s);
    RunDigits(Init(consume), digits, ext + ([LF] + s));
    assert !IsHexDigit((ext + ([LF] + s))[0]);
    DigitsEnd(consume, n, |digits|, ext + ([LF] + s));
    ExtensionRuns(consume, n, ext, s);
  }

  lemma {:induction false} RunChunkData(consume: bool, data: seq<byte>, s: seq<byte>)
    requires 0 < |data| <= SIZE_MAX
    ensures Run(Decoder(ChunkData, |data|, 0, consume), data + s) ==
            Emit(data, Run(Decoder(ChunkCrlf, 0, 0, consume), s))
    decreases |data|
  {
    assert (data + s)[0] == data[0] && (data + s)[1..] == data[1..] + s;
    if |data| > 1 {
      RunChunkData(consume, data[1..], s);
      var o := Run(Decoder(ChunkCrlf, 0, 0, consume), s);
      assert [data[0]] + (data[1..] + o.decoded) == data + o.decoded;
    } else {
      assert data == [data[0]];
    }
  }

  lemma RunChunkEnd(consume: bool, crs: nat, s: seq<byte>)
    ensures Run(Decoder(ChunkCrlf, 0, 0, consume), LineEnd(crs) + s) == Run(Init(consume), s)
  {
    var d := Decoder(ChunkCrlf, 0, 0, consume);
    RepeatIsAll(CR, crs);
    RunSkipping(d, Repeat(CR, crs), [LF] + s);
    assert LineEnd(crs) + s == Repeat(CR, crs) + ([LF] + s);
    SilentRun(d, LF, s);
  }

  lemma RunChunk(consume: bool, c: Chunk, s: seq<byte>)
    requires WellFormedChunk(c)
    ensures Run(Init(consume), RenderChunk(c) + s) == Emit(c.data, Run(Init(consume), s))
  {
    ChunkParts(c, s);
    RunSizeLine(consume, c.digits, c.ext, c.data + (LineEnd(c.crs) + s));
    RunChunkData(consume, c.data, LineEnd(c.crs) + s);
    RunChunkEnd(consume, c.crs, s);
  }

  lemma ChunkParts(c: Chunk, s: seq<byte>)
    ensures RenderChunk(c) + s == c.digits + c.ext + [LF] + (c.data + (LineEnd(c.crs) + s))
  {
    Chained(c.digits + c.ext + [LF], c.data, LineEnd(c.crs), s);
  }

  lemma FirstOff(a: seq<byte>, b: seq<byte>, c: seq<byte>)
    requires a != []
    ensures a + b + c == [a[0]] + (a[1..] + b + c)
  {
  }

  /** The first byte of a trailer line that is not CR sends the decoder to the middle of the line. */
  lemma {:induction false} RunTrailerLine(consume: bool, line: seq<byte>, s: seq<byte>)
    requires TrailerLine(line)
    ensures Run(Decoder(TrailerLineHead, 0, 0, consume), line + [LF] + s)
         == Run(Decoder(TrailerLineHead, 0, 0, consume), s)
    decreases |line|
  {
    var head, middle := Decoder(TrailerLineHead, 0, 0, consume), Decoder(TrailerLineMiddle, 0, 0, consume);
    var tail := line[1..];
    FirstOff(line, [LF], s);
    assert line[0] != LF;
    SilentRun(head, line[0], tail + [LF] + s);
    if line[0] == CR {
      var c :| c in line && c != CR;
      assert c in tail;
      RunTrailerLine(consume, tail, s);
    } else {
      RunSkipping(middle, tail, [LF] + s);
      Regroup(tail, [LF], s);
      SilentRun(middle, LF, s);
    }
  }

  lemma {:induction false} RunTrailers(consume: bool, lines: seq<seq<byte>>, crs: nat, s: seq<byte>)
    requires forall line <- lines :: TrailerLine(line)
    ensures Run(Decoder(TrailerLineHead, 0, 0, consume), RenderTrailers(lines, crs) + s)
         == Outcome(Finished, Decoder(TrailerLineHead, 0, 0, consume), [], s)
    decreases |lines|
  {
    var head := Decoder(TrailerLineHead, 0, 0, consume);
    if lines == [] {
      RepeatIsAll(CR, crs);
      RunSkipping(head, Repeat(CR, crs), [LF] + s);
      assert LineEnd(crs) + s == Repeat(CR, crs) + ([LF] + s);
      assert ([LF] + s)[1..] == s;
    } else {
      var rest := RenderTrailers(lines[1..], crs) + s;
      assert RenderTrailers(lines, crs) + s == lines[0] + [LF] + rest;
      RunTrailerLine(consume, lines[0], rest);
      RunTrailers(consume, lines[1..], crs, s);
    }
  }

  /** Completeness: a well-formed body is decoded to its data, and what follows is left alone. */
  lemma {:induction false} BodyIsAccepted(b: Body, consume: bool, tail: seq<byte>)
    requires WellFormed(b)
    ensures var o := Run(Init(consume), Render(b, consume) + tail);
            o.verdict == Finished && o.decoded == Data(b) && o.rest == tail
    decreases |b.chunks|
  {
    if b.chunks == [] {
      var after := if consume then RenderTrailers(b.trailers, b.endCrs) else [];
      RunSizeLine(consume, b.lastDigits, b.lastExt, after + tail);
      LastLineText(b, consume, tail);
      if consume {
        RunTrailers(consume, b.trailers, b.endCrs, tail);
      } else {
        assert after + tail == tail;
      }
    } else {
      var b2 := b.(chunks := b.chunks[1..]);
      RunChunk(consume, b.chunks[0], Render(b2, consume) + tail);
      FirstChunkText(b, consume, tail);
      BodyIsAccepted(b2, consume, tail);
    }
  }

  lemma LastLineText(b: Body, consume: bool, tail: seq<byte>)
    requires b.chunks == []
    ensures Render(b, consume) + tail ==
            b.lastDigits + b.lastExt + [LF] + ((if consume then RenderTrailers(b.trailers, b.endCrs) else []) + tail)
  {
  }

  lemma FirstChunkText(b: Body, consume: bool, tail: seq<byte>)
    requires b.chunks != []
    ensures Render(b, consume) + tail ==
            RenderChunk(b.chunks[0]) + (Render(b.(chunks := b.chunks[1..]), consume) + tail)
  {
  }

  // ---------------------------------------------------------------- soundness

  /** How many bytes at the front of s meet p. */
  lemma {:induction false} CountWhile(s: seq<byte>, p: byte -> bool) returns (k: nat)
    ensures k <= |s| && (forall c <- s[..k] :: p(c)) && (k < |s| ==> !p(s[k]))
    decreases |s|
  {
    if s == [] || !p(s[0]) {
      k := 0;
    } else {
      k := CountWhile(s[1..], p);
      assert s[..k + 1] == [s[0]] + s[1..][..k];
      k := k + 1;
    }
  }

  lemma FirstIndex(s: seq<byte>, c: byte) returns (k: nat)
    ensures k <= |s| && c !in s[..k] && (k < |s| ==> s[k] == c)
  {
    k := CountWhile(s, (x: byte) => x != c);
  }

  lemma AllSame(s: seq<byte>, c: byte)
    requires forall x <- s :: x == c
    ensures s == Repeat(c, |s|)
  {
    forall i | 0 <= i < |s| ensures s[i] == c { assert s[i] in s; }
  }

  /** What the run of hex digits at the front of a body decides. */
  lemma SizeVerdict(consume: bool, s: seq<byte>, n: nat)
    requires n <= |s| && (forall c <- s[..n] :: IsHexDigit(c)) && (n < |s| ==> !IsHexDigit(s[n]))
    ensures n > HEX_LIMIT || (n == 0 && s != []) ==> Run(Init(consume), s).verdict == Malformed
    ensures n <= HEX_LIMIT && n == |s| ==> Run(Init(consume), s).verdict == Incomplete
    ensures 0 < n <= HEX_LIMIT && n < |s| ==>
              Run(Init(consume), s) == Run(Decoder(ChunkExt, Number(0, s[..n]), 0, consume), s[n..])
  {
    var m := if n <= HEX_LIMIT then n else HEX_LIMIT;
    assert forall c <- s[..m] :: IsHexDigit(c) by { assert forall c <- s[..m] :: c in s[..n]; }
    RunDigits(Init(consume), s[..m], s[m..]);
    assert s == s[..m] + s[m..];
    var sized := Decoder(ChunkSize, Number(0, s[..m]), m, consume);
    if n > HEX_LIMIT {
      assert s[m] in s[..n];
    } else if n < |s| {
    }
  }

  lemma AcceptedExt(d: Decoder, line: seq<byte>) returns (k: nat)
    requires d.phase == ChunkExt && Run(d, line).verdict == Finished
    ensures k < |line| && line[k] == LF && LF !in line[..k]
  {
    k := FirstIndex(line, LF);
    RunSkipping(d, line[..k], line[k..]);
    assert line == line[..k] + line[k..];
  }

  lemma SizeLineText(s: seq<byte>, n: nat, k: nat)
    requires n <= |s| && k < |s| - n && s[n..][k] == LF
    ensures s == s[..n] + s[n..][..k] + [LF] + s[n..][k + 1..]
  {
  }

  /** A finished size line: 1 to 16 hex digits, then anything up to LF. */
  lemma AcceptedSizeLine(consume: bool, s: seq<byte>) returns (digits: seq<byte>, ext: seq<byte>, rest: seq<byte>)
    requires Run(Init(consume), s).verdict == Finished
    ensures SizeLine(digits, ext) && s == digits + ext + [LF] + rest
  {
    var n, k := AcceptedCuts(consume, s);
    SizeLineText(s, n, k);
    digits, ext, rest := s[..n], s[n..][..k], s[n..][k + 1..];
    assert ext != [] ==> ext[0] == s[n];
  }

  /** Where the digits and the extension end. */
  lemma AcceptedCuts(consume: bool, s: seq<byte>) returns (n: nat, k: nat)
    requires Run(Init(consume), s).verdict == Finished
    ensures 0 < n <= HEX_LIMIT && n <= |s| && (forall c <- s[..n] :: IsHexDigit(c)) && (n < |s| ==> !IsHexDigit(s[n]))
    ensures k < |s| - n && s[n..][k] == LF && LF !in s[n..][..k]
  {
    n := CountWhile(s, (c: byte) => IsHexDigit(c));
    SizeVerdict(consume, s, n);
    k := AcceptedExt(Decoder(ChunkExt, Number(0, s[..n]), 0, consume), s[n..]);
  }

  lemma {:induction false} ShortDataIsIncomplete(consume: bool, n: nat, s: seq<byte>)
    requires |s| < n <= SIZE_MAX
    ensures Run(Decoder(ChunkData, n, 0, consume), s).verdict == Incomplete
    decreases |s|
  {
    if s != [] { ShortDataIsIncomplete(consume, n - 1, s[1..]); }
  }

  lemma AcceptedChunkEnd(consume: bool, s: seq<byte>) returns (crs: nat, rest: seq<byte>)
    requires Run(Decoder(ChunkCrlf, 0, 0, consume), s).verdict == Finished
    ensures s == LineEnd(crs) + rest
  {
    crs := CountWhile(s, (c: byte) => c == CR);
    RunSkipping(Decoder(ChunkCrlf, 0, 0, consume), s[..crs], s[crs..]);
    assert s == s[..crs] + s[crs..];
    AllSame(s[..crs], CR);
    rest := s[crs + 1..];
  }

  lemma {:induction false} NoEndOfLine(d: Decoder, s: seq<byte>)
    requires (d.phase == TrailerLineHead || d.phase == TrailerLineMiddle) && LF !in s
    ensures Run(d, s).verdict == Incomplete
    decreases |s|
  {
    if s != [] {
      assert s[0] in s;
      NoEndOfLine(StepByte(d, s[0]).next, s[1..]);
    }
  }

  lemma TrailersText(line: seq<byte>, more: seq<seq<byte>>, crs: nat, rest: seq<byte>)
    ensures RenderTrailers([line] + more, crs) + rest == line + [LF] + (RenderTrailers(more, crs) + rest)
  {
    assert ([line] + more)[1..] == more;
  }

  lemma {:induction false} AcceptedTrailers(consume: bool, s: seq<byte>)
    returns (lines: seq<seq<byte>>, crs: nat, rest: seq<byte>)
    requires Run(Decoder(TrailerLineHead, 0, 0, consume), s).verdict == Finished
    ensures forall line <- lines :: TrailerLine(line)
    ensures s == RenderTrailers(lines, crs) + rest
    decreases |s|
  {
    var head := Decoder(TrailerLineHead, 0, 0, consume);
    var k := FirstIndex(s, LF);
    if k == |s| {
      assert s[..k] == s;
      NoEndOfLine(head, s);
    } else {
      var line, after := s[..k], s[k + 1..];
      assert s == line + [LF] + after;
      if exists c :: c in line && c != CR {
        RunTrailerLine(consume, line, after);
        var more;
        more, crs, rest := AcceptedTrailers(consume, after);
        lines := [line] + more;
        TrailersText(line, more, crs, rest);
      } else {
        lines, crs, rest := [], k, after;
        AllSame(line, CR);
      }
    }
  }

  lemma AcceptedData(consume: bool, n: nat, s: seq<byte>) returns (crs: nat, next: seq<byte>)
    requires 0 < n <= SIZE_MAX && Run(Decoder(ChunkData, n, 0, consume), s).verdict == Finished
    ensures n <= |s| && s[n..] == LineEnd(crs) + next
    ensures Run(Decoder(ChunkData, n, 0, consume), s) == Emit(s[..n], Run(Init(consume), next))
  {
    if |s| < n { ShortDataIsIncomplete(consume, n, s); }
    assert s == s[..n] + s[n..];
    RunChunkData(consume, s[..n], s[n..]);
    crs, next := AcceptedChunkEnd(consume, s[n..]);
    RunChunkEnd(consume, crs, next);
  }

  lemma AcceptedEnd(consume: bool, digits: seq<byte>, ext: seq<byte>, rest: seq<byte>) returns (b: Body)
    requires SizeLine(digits, ext) && Number(0, digits) == 0
    requires Run(Init(consume), digits + ext + [LF] + rest).verdict == Finished
    ensures WellFormed(b) && Data(b) == []
    ensures var o := Run(Init(consume), digits + ext + [LF] + rest);
            o.decoded == [] && digits + ext + [LF] + rest == Render(b, consume) + o.rest
  {
    RunSizeLine(consume, digits, ext, rest);
    if consume {
      var lines, crs, tail := AcceptedTrailers(consume, rest);
      RunTrailers(consume, lines, crs, tail);
      b := Body([], digits, ext, lines, crs);
      assert digits + ext + [LF] + rest == Render(b, consume) + tail;
    } else {
      b := Body([], digits, ext, [], 0);
      assert Render(b, consume) == digits + ext + [LF];
    }
  }

  lemma ChunkText(c: Chunk, line: seq<byte>, next: seq<byte>)
    requires |c.data| <= |line| && line[..|c.data|] == c.data && line[|c.data|..] == LineEnd(c.crs) + next
    ensures c.digits + c.ext + [LF] + line == RenderChunk(c) + next
  {
    assert line == c.data + (LineEnd(c.crs) + next);
  }

  /** A chunk put in front of a body, in a text whose size line is already taken apart. */
  lemma AddChunk(c: Chunk, b2: Body, consume: bool, s: seq<byte>, line: seq<byte>, next: seq<byte>, tail: seq<byte>)
    returns (b: Body)
    requires WellFormedChunk(c) && WellFormed(b2)
    requires s == c.digits + c.ext + [LF] + line && |c.data| <= |line|
    requires line[..|c.data|] == c.data && line[|c.data|..] == LineEnd(c.crs) + next
    requires next == Render(b2, consume) + tail
    ensures WellFormed(b) && s == Render(b, consume) + tail && Data(b) == c.data + Data(b2)
  {
    b := b2.(chunks := [c] + b2.chunks);
    assert b.chunks[1..] == b2.chunks && b.(chunks := b.chunks[1..]) == b2;
    ChunkText(c, line, next);
    FirstChunkText(b, consume, tail);
  }

  /** Soundness: whatever the decoder accepts is a well-formed body. */
  lemma {:induction false} AcceptedIsBody(consume: bool, s: seq<byte>) returns (b: Body)
    requires Run(Init(consume), s).verdict == Finished
    ensures WellFormed(b)
    ensures s == Render(b, consume) + Run(Init(consume), s).rest
    ensures Run(Init(consume), s).decoded == Data(b)
    decreases |s|
  {
    var digits, ext, rest := AcceptedSizeLine(consume, s);
    RunSizeLine(consume, digits, ext, rest);
    var n := Number(0, digits);
    if n > 0 {
      var crs, next := AcceptedData(consume, n, rest);
      assert |next| < |s|;
      var b2 := AcceptedIsBody(consume, next);
      var c := Chunk(digits, ext, rest[..n], crs);
      b := AddChunk(c, b2, consume, s, rest, next, Run(Init(consume), next).rest);
    } else {
      b := AcceptedEnd(consume, digits, ext, rest);
    }
  }

  /** The decoder finishes on exactly the texts that begin with a well-formed body, hands out
      exactly that body's data, and leaves exactly what follows it. */
  lemma AcceptsExactlyBodies(consume: bool, s: seq<byte>, data: seq<byte>, rest: seq<byte>)
    ensures (var o := Run(Init(consume), s); o.verdict == Finished && o.decoded == data && o.rest == rest)
       <==> exists b :: WellFormed(b) && s == Render(b, consume) + rest && data == Data(b)
  {
    var o := Run(Init(consume), s);
    if o.verdict == Finished && o.decoded == data && o.rest == rest {
      var b := AcceptedIsBody(consume, s);
    }
    forall b | WellFormed(b) && s == Render(b, consume) + rest && data == Data(b)
      ensures o.verdict == Finished && o.decoded == data && o.rest == rest
    {
      BodyIsAccepted(b, consume, rest);
    }
  }
}
