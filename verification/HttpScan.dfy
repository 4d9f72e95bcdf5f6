/** The character classes of the head parser, its plain byte-at-a-time scans, and the two fast
    scans (16-byte blocks and 8-way unrolling), proved to stop where the plain ones do. */
module HttpScan {
  import opened Bytes

  // ---------------------------------------------------------------- character classes

  /** IS_PRINTABLE_ASCII: the subtraction is on unsigned int, so smaller bytes wrap around. */
  predicate IsPrintableAscii(c: byte) { (c - 0x20) % 0x1_0000_0000 < 0x5f }

  /** The entries of token_char_map that are 1. */
  predicate IsTokenChar(c: byte) {
    || c == 0x21
    || 0x23 <= c <= 0x27
    || 0x2a <= c <= 0x2b
    || 0x2d <= c <= 0x2e
    || 0x30 <= c <= 0x39
    || 0x41 <= c <= 0x5a
    || 0x5e <= c <= 0x7a
    || c == 0x7c
    || c == 0x7e
  }

  /** tchar of section 3.2.6 of RFC 7230. */
  predicate IsTchar(c: byte) {
    || (exists p <- "!#$%&'*+-.^_`|~" :: c == p as int)
    || '0' as int <= c <= '9' as int
    || 'A' as int <= c <= 'Z' as int
    || 'a' as int <= c <= 'z' as int
  }

  predicate IsControl(c: byte) { c < 0x20 || c == DEL }

  predicate IsBlank(c: byte) { c == SP || c == HT }

  // ---------------------------------------------------------------- plain scans

  /** The loops of the parser, by what ends them. */
  datatype Scanner =
    | UntilByte(stop: byte)  // parse_token: only token characters before stop
    | UntilSpace             // ADVANCE_TOKEN: no control characters before SP
    | UntilControl           // get_token_to_eol: HT is let through
    | UntilNonSpace          // between the parts of a start line
    | UntilNonBlank          // before a header value

  predicate Stops(sc: Scanner, c: byte) {
    match sc
    case UntilByte(stop) => c == stop
    case UntilSpace => c == SP
    case UntilControl => IsControl(c) && c != HT
    case UntilNonSpace => c != SP
    case UntilNonBlank => !IsBlank(c)
  }

  predicate Rejects(sc: Scanner, c: byte) {
    match sc
    case UntilByte(stop) => c != stop && !IsTokenChar(c)
    case UntilSpace => c != SP && IsControl(c)
    case _ => false
  }

  /** Partial and Invalid are the NULL results with *ret -2 and -1. */
  datatype Parse<+T> = Done(next: nat, value: T) | Partial | Invalid {
    predicate IsFailure() { !Done? }

    function PropagateFailure<U>(): (r: Parse<U>)
      requires IsFailure()
      ensures r.IsFailure() && (r.Partial? <==> Partial?)
    {
      if Partial? then Parse.Partial else Parse.Invalid
    }

    function Extract(): (r: (nat, T))
      requires !IsFailure()
      ensures r == (next, value)
    {
      (next, value)
    }
  }

  /** One byte at a time from i: where the scanner stops, if nothing it rejects comes first. */
  function Scan(sc: Scanner, s: seq<byte>, i: nat): (r: Parse<()>)
    requires i <= |s|
    ensures r.Done? ==> i <= r.next < |s| && Stops(sc, s[r.next])
    decreases |s| - i
  {
    if i == |s| then Partial
    else if Stops(sc, s[i]) then Done(i, ())
    else if Rejects(sc, s[i]) then Invalid
    else Scan(sc, s, i + 1)
  }

  /** What a scan passes, it neither stops at nor rejects. */
  lemma {:induction false} ScanPasses(sc: Scanner, s: seq<byte>, i: nat)
    requires i <= |s| && Scan(sc, s, i).Done?
    ensures forall j :: i <= j < Scan(sc, s, i).next ==> !Stops(sc, s[j]) && !Rejects(sc, s[j])
    decreases |s| - i
  {
    if !Stops(sc, s[i]) { ScanPasses(sc, s, i + 1); }
  }

  /** Jumping over bytes the scanner passes does not change what it finds. */
  lemma {:induction false} ScanSkips(sc: Scanner, s: seq<byte>, i: nat, k: nat)
    requires i <= k <= |s|
    requires forall j :: i <= j < k ==> !Stops(sc, s[j]) && !Rejects(sc, s[j])
    ensures Scan(sc, s, i) == Scan(sc, s, k)
    decreases k - i
  {
    if i < k { ScanSkips(sc, s, i + 1, k); }
  }

  // ---------------------------------------------------------------- the block scan

  predicate InRanges(ranges: seq<(byte, byte)>, c: byte) {
    exists p :: p in ranges && p.0 <= c <= p.1
  }

  /** What the 16-byte range compare returns: the first index in any range, else 16. */
  function CompareRanges(ranges: seq<(byte, byte)>, block: seq<byte>): (k: nat)
    ensures k <= |block|
    ensures forall j :: 0 <= j < k ==> !InRanges(ranges, block[j])
    ensures k < |block| ==> InRanges(ranges, block[k])
    decreases |block|
  {
    if block == [] || InRanges(ranges, block[0]) then 0
    else 1 + CompareRanges(ranges, block[1..])
  }

  /** findchar_fast, with (sse) and without the vector instructions. */
  method FindCharFast(s: seq<byte>, from: nat, ranges: seq<(byte, byte)>, sse: bool) returns (buf: nat, found: bool)
    requires from <= |s|
    ensures from <= buf <= |s|
    ensures forall j :: from <= j < buf ==> !InRanges(ranges, s[j])
    ensures found ==> buf < |s| && InRanges(ranges, s[buf])
    ensures !sse ==> buf == from && !found
    ensures sse && !found ==> |s| - buf < 16
  {
    buf, found := from, false;
    if sse && |s| - buf >= 16 {
      var left := (|s| - buf) / 16 * 16;
      while true
        invariant from <= buf && 0 < left && left % 16 == 0 && buf + left <= |s| < buf + left + 16
        invariant forall j :: from <= j < buf ==> !InRanges(ranges, s[j])
        decreases left
      {
        var r := CompareRanges(ranges, s[buf..buf + 16]);
        assert forall j :: buf <= j < buf + r ==> s[j] == s[buf..buf + 16][j - buf];
        if r != 16 {
          buf := buf + r;
          found := true;
          break;
        }
        buf := buf + 16;
        left := left - 16;
        if left == 0 { break; }
      }
    }
  }

  const TOKEN_RANGES: seq<(byte, byte)> :=
    [(0x00, 0x20), (0x22, 0x22), (0x28, 0x29), (0x2c, 0x2c), (0x2f, 0x2f), (0x3a, 0x40), (0x5b, 0x5d), (0x7b, 0xff)]

  const TARGET_RANGES: seq<(byte, byte)> := [(0x00, 0x20), (0x7f, 0x7f)]

  const EOL_RANGES: seq<(byte, byte)> := [(0x00, 0x08), (0x0a, 0x1f), (0x7f, 0x7f)]

  /** The table is tchar of the RFC, and every byte the token ranges let through is a token
      character, hence neither the space nor the colon that can end a token. */
  lemma TokenRangesAreSafe(c: byte)
    ensures IsTokenChar(c) <==> IsTchar(c)
    ensures !InRanges(TOKEN_RANGES, c) ==> IsTokenChar(c) && c != SP && c != ':' as int
    ensures IsTokenChar(c) && InRanges(TOKEN_RANGES, c) ==> c == 0x7c || c == 0x7e
  {
    OutsideRanges8(TOKEN_RANGES, c);
    assert IsTchar(c) ==> IsTokenChar(c);
    if IsTokenChar(c) && !(0x30 <= c <= 0x39 || 0x41 <= c <= 0x5a || 0x61 <= c <= 0x7a) {
      TcharPunctuation(c);
    }
  }

  lemma OutsideRanges8(ranges: seq<(byte, byte)>, c: byte)
    requires |ranges| == 8
    ensures InRanges(ranges, c) <==>
            || ranges[0].0 <= c <= ranges[0].1 || ranges[1].0 <= c <= ranges[1].1
            || ranges[2].0 <= c <= ranges[2].1 || ranges[3].0 <= c <= ranges[3].1
            || ranges[4].0 <= c <= ranges[4].1 || ranges[5].0 <= c <= ranges[5].1
            || ranges[6].0 <= c <= ranges[6].1 || ranges[7].0 <= c <= ranges[7].1
  {
    assert forall k :: 0 <= k < 8 ==> ranges[k] in ranges;
  }

  lemma TcharPunctuation(c: byte)
    requires c in {0x21, 0x23, 0x24, 0x25, 0x26, 0x27, 0x2a, 0x2b, 0x2d, 0x2e, 0x5e, 0x5f, 0x60, 0x7c, 0x7e}
    ensures IsTchar(c)
  {
    var p := "!#$%&'*+-.^_`|~";
    assert p[0] in p && p[1] in p && p[2] in p && p[3] in p && p[4] in p && p[5] in p && p[6] in p && p[7] in p;
    assert p[8] in p && p[9] in p && p[10] in p && p[11] in p && p[12] in p && p[13] in p && p[14] in p;
  }

  // ---------------------------------------------------------------- the three fast call sites

  /** A piece of the buffer: token and token_len. */
  datatype Slice = Slice(start: nat, len: nat)

  function Token(s: seq<byte>, i: nat, stop: byte): (r: Parse<Slice>)
    requires i <= |s|
    ensures r.Done? ==> i <= r.next < |s| && r.value == Slice(i, r.next - i)
  {
    match Scan(UntilByte(stop), s, i)
    case Done(k, _) => Done(k, Slice(i, k - i))
    case Partial => Partial
    case Invalid => Invalid
  }

  function Target(s: seq<byte>, i: nat): (r: Parse<Slice>)
    requires i <= |s|
    ensures r.Done? ==> i <= r.next < |s| && r.value == Slice(i, r.next - i)
  {
    match Scan(UntilSpace, s, i)
    case Done(k, _) => Done(k, Slice(i, k - i))
    case Partial => Partial
    case Invalid => Invalid
  }

  /** CR LF or LF alone: whether there is one at i, and where it ends. */
  function LineEnd(s: seq<byte>, i: nat): (r: Parse<bool>)
    requires i <= |s|
    ensures r.Done? ==> i <= r.next <= |s| && i < |s|
  {
    if i == |s| then Partial
    else if s[i] == CR then
      if i + 1 == |s| then Partial
      else if s[i + 1] == LF then Done(i + 2, true)
      else Invalid
    else if s[i] == LF then Done(i + 1, true)
    else Done(i, false)
  }

  function TokenToEol(s: seq<byte>, i: nat): (r: Parse<Slice>)
    requires i <= |s|
    ensures r.Done? ==> i < r.next <= |s| && r.value.start == i && i + r.value.len < r.next
  {
    var (k, _) :- Scan(UntilControl, s, i);
    var (next, eol) :- LineEnd(s, k);
    if eol then Done(next, Slice(i, k - i)) else Invalid
  }

  method SkipTokenChars(s: seq<byte>, start: nat, nextChar: byte, sse: bool) returns (buf: nat, found: bool)
    requires start <= |s|
    requires nextChar == SP || nextChar == ':' as int
    ensures start <= buf <= |s| && (found ==> buf < |s|)
    ensures Scan(UntilByte(nextChar), s, start) == Scan(UntilByte(nextChar), s, buf)
  {
    buf, found := FindCharFast(s, start, TOKEN_RANGES, sse);
    forall j | start <= j < buf
      ensures !Stops(UntilByte(nextChar), s[j]) && !Rejects(UntilByte(nextChar), s[j])
    {
      TokenRangesAreSafe(s[j]);
    }
    ScanSkips(UntilByte(nextChar), s, start, buf);
  }

  method ParseToken(s: seq<byte>, start: nat, nextChar: byte, sse: bool) returns (r: Parse<Slice>)
    requires start <= |s|
    requires nextChar == SP || nextChar == ':' as int
    ensures r == Token(s, start, nextChar)
  {
    ghost var sc := UntilByte(nextChar);
    var buf, found := SkipTokenChars(s, start, nextChar, sse);
    if !found {
      if buf == |s| { return Partial; }
    }
    while true
      invariant start <= buf < |s|
      invariant Scan(sc, s, start) == Scan(sc, s, buf)
      decreases |s| - buf
    {
      if s[buf] == nextChar {
        break;
      } else if !IsTokenChar(s[buf]) {
        return Invalid;
      }
      buf := buf + 1;
      if buf == |s| { return Partial; }
    }
    return Done(buf, Slice(start, buf - start));
  }

  lemma TargetRangesAreSafe(c: byte)
    ensures InRanges(TARGET_RANGES, c) <==> IsControl(c) || c == SP
  {
    assert (0x00, 0x20) in TARGET_RANGES && (0x7f, 0x7f) in TARGET_RANGES;
    if InRanges(TARGET_RANGES, c) {
      assert forall p :: p in TARGET_RANGES ==> p == TARGET_RANGES[0] || p == TARGET_RANGES[1];
    }
  }

  lemma EolRangesAreControls(c: byte)
    ensures InRanges(EOL_RANGES, c) <==> IsControl(c) && c != HT
  {
    assert EOL_RANGES[0] in EOL_RANGES && EOL_RANGES[1] in EOL_RANGES && EOL_RANGES[2] in EOL_RANGES;
    if InRanges(EOL_RANGES, c) {
      assert forall p :: p in EOL_RANGES ==> p == EOL_RANGES[0] || p == EOL_RANGES[1] || p == EOL_RANGES[2];
    }
  }

  method AdvanceToken(s: seq<byte>, start: nat, sse: bool) returns (r: Parse<Slice>)
    requires start <= |s|
    ensures r == Target(s, start)
  {
    var sc := UntilSpace;
    var buf, found := FindCharFast(s, start, TARGET_RANGES, sse);
    forall j | start <= j < buf ensures !Stops(sc, s[j]) && !Rejects(sc, s[j]) { TargetRangesAreSafe(s[j]); }
    if !found {
      if buf == |s| { ScanSkips(sc, s, start, buf); return Partial; }
    }
    while true
      invariant start <= buf < |s|
      invariant forall j :: start <= j < buf ==> !Stops(sc, s[j]) && !Rejects(sc, s[j])
      decreases |s| - buf
    {
      if s[buf] == SP {
        break;
      } else if !IsPrintableAscii(s[buf]) {
        if s[buf] < 0x20 || s[buf] == DEL {
          ScanSkips(sc, s, start, buf);
          return Invalid;
        }
      }
      buf := buf + 1;
      if buf == |s| { ScanSkips(sc, s, start, buf); return Partial; }
    }
    ScanSkips(sc, s, start, buf);
    return Done(buf, Slice(start, buf - start));
  }

  /** The non-vector branch of get_token_to_eol: eight bytes a turn while eight are left. */
  method SkipPrintableUnrolled(s: seq<byte>, start: nat) returns (buf: nat, ctl: bool)
    requires start <= |s|
    ensures start <= buf <= |s|
    ensures forall j :: start <= j < buf ==> !Stops(UntilControl, s[j])
    ensures ctl ==> buf < |s| && Stops(UntilControl, s[buf])
    ensures !ctl ==> |s| - buf < 8
  {
    buf, ctl := start, false;
    while |s| - buf >= 8
      invariant start <= buf <= |s|
      invariant forall j :: start <= j < buf ==> !Stops(UntilControl, s[j])
      decreases |s| - buf
    {
      ghost var turn := buf;
      var printable := true;
      for n := 0 to 8
        invariant buf == turn + n
        invariant forall j :: start <= j < buf ==> !Stops(UntilControl, s[j])
      {
        if !IsPrintableAscii(s[buf]) { printable := false; break; }
        buf := buf + 1;
      }
      if printable { continue; }
      if (s[buf] < 0x20 && s[buf] != HT) || s[buf] == DEL {
        ctl := true;
        return;
      }
      buf := buf + 1;
    }
  }

  method GetTokenToEol(s: seq<byte>, start: nat, sse: bool) returns (r: Parse<Slice>)
    requires start <= |s|
    ensures r == TokenToEol(s, start)
  {
    var sc := UntilControl;
    var buf, ctl;
    if sse {
      buf, ctl := FindCharFast(s, start, EOL_RANGES, true);
      forall j | start <= j < buf ensures !Stops(sc, s[j]) { EolRangesAreControls(s[j]); }
      if ctl { EolRangesAreControls(s[buf]); }
    } else {
      buf, ctl := SkipPrintableUnrolled(s, start);
    }
    while !ctl
      invariant start <= buf <= |s|
      invariant forall j :: start <= j < buf ==> !Stops(sc, s[j])
      invariant ctl ==> buf < |s| && Stops(sc, s[buf])
      decreases !ctl, |s| - buf
    {
      if buf == |s| { ScanSkips(sc, s, start, buf); return Partial; }
      if !IsPrintableAscii(s[buf]) && ((s[buf] < 0x20 && s[buf] != HT) || s[buf] == DEL) {
        ctl := true;
      } else {
        buf := buf + 1;
      }
    }
    ScanSkips(sc, s, start, buf);
    var len;
    if s[buf] == CR {
      buf := buf + 1;
      if buf == |s| { return Partial; }
      if s[buf] != LF { return Invalid; }
      buf := buf + 1;
      len := buf - 2 - start;
    } else if s[buf] == LF {
      len := buf - start;
      buf := buf + 1;
    } else {
      return Invalid;
    }
    return Done(buf, Slice(start, len));
  }
}
