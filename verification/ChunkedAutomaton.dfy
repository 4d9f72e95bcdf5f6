/** The chunked transfer coding as a byte-at-a-time automaton, independent of how
    the text is cut into buffers. */
module ChunkedAutomaton {
  import opened Bytes

  datatype Phase =
    | ChunkSize
    | ChunkExt
    | ChunkData
    | ChunkCrlf
    | TrailerLineHead
    | TrailerLineMiddle

  datatype Decoder = Decoder(phase: Phase, bytesLeft: nat, hexCount: nat, consumeTrailer: bool)

  /** Complete consumes the byte that triggered it, Reject leaves it unread. */
  datatype Step =
    | Continue(next: Decoder, emitted: seq<byte>)
    | Complete(next: Decoder)
    | Reject

  datatype Verdict = Incomplete | Finished | Malformed

  datatype Outcome = Outcome(verdict: Verdict, state: Decoder, decoded: seq<byte>, rest: seq<byte>)

  const HEX_LIMIT: nat := 16

  /** decode_hex. */
  function HexValue(c: byte): (v: int)
    ensures -1 <= v < 16
  {
    if IsHexDigit(c) then HexDigit(c) else -1
  }

  /** bytes_left_in_chunk * 16 + v in size_t arithmetic, which wraps. */
  function SizeMul16Add(bytesLeft: nat, v: nat): nat {
    (bytesLeft * 16 + v) % (SIZE_MAX + 1)
  }

  function Init(consumeTrailer: bool): Decoder {
    Decoder(ChunkSize, 0, 0, consumeTrailer)
  }

  /** What every decoder that started from Init satisfies. The bound while a size is being
      read is what keeps the C size_t from overflowing. */
  ghost predicate Consistent(d: Decoder) {
    && d.hexCount <= HEX_LIMIT
    && d.bytesLeft <= SIZE_MAX
    && match d.phase
       case ChunkSize => d.bytesLeft < Pow(16, d.hexCount)
       case ChunkExt => d.hexCount == 0
       case ChunkData => d.hexCount == 0 && d.bytesLeft > 0
       case _ => d.hexCount == 0 && d.bytesLeft == 0
  }

  function StepExt(d: Decoder, c: byte): Step {
    if c != LF then Continue(d, [])
    else if d.bytesLeft != 0 then Continue(d.(phase := ChunkData), [])
    else if d.consumeTrailer then Continue(d.(phase := TrailerLineHead), [])
    else Complete(d)
  }

  function StepCrlf(d: Decoder, c: byte): Step {
    if c == CR then Continue(d, [])
    else if c == LF then Continue(d.(phase := ChunkSize), [])
    else Reject
  }

  function StepByte(d: Decoder, c: byte): Step {
    match d.phase
    case ChunkSize =>
      var v := HexValue(c);
      if v == -1 then
        if d.hexCount == 0 then Reject
        else StepExt(d.(phase := ChunkExt, hexCount := 0), c)
      else if d.hexCount == HEX_LIMIT then Reject
      else Continue(d.(bytesLeft := SizeMul16Add(d.bytesLeft, v), hexCount := d.hexCount + 1), [])
    case ChunkExt => StepExt(d, c)
    case ChunkData =>
      if d.bytesLeft == 0 then StepCrlf(d.(phase := ChunkCrlf), c)
      else if d.bytesLeft == 1 then Continue(d.(bytesLeft := 0, phase := ChunkCrlf), [c])
      else Continue(d.(bytesLeft := d.bytesLeft - 1), [c])
    case ChunkCrlf => StepCrlf(d, c)
    case TrailerLineHead =>
      if c == CR then Continue(d, [])
      else if c == LF then Complete(d)
      else Continue(d.(phase := TrailerLineMiddle), [])
    case TrailerLineMiddle =>
      if c == LF then Continue(d.(phase := TrailerLineHead), []) else Continue(d, [])
  }

  function Emit(out: seq<byte>, o: Outcome): Outcome {
    o.(decoded := out + o.decoded)
  }

  function Run(d: Decoder, s: seq<byte>): Outcome
    decreases |s|
  {
    if s == [] then Outcome(Incomplete, d, [], [])
    else match StepByte(d, s[0])
      case Continue(next, out) => Emit(out, Run(next, s[1..]))
      // A size ended by this byte leaves the ChunkSize phase before the verdict is reached.
      case Complete(next) => Outcome(Finished, next, [], s[1..])
      case Reject => Outcome(Malformed, d, [], s)
  }

  lemma {:induction false} PowPositive(b: nat, e: nat)
    requires b > 0
    ensures Pow(b, e) > 0
  {
    if e > 0 { PowPositive(b, e - 1); }
  }

  lemma {:induction false} HexPowerBound(e: nat)
    requires e <= HEX_LIMIT
    ensures 0 < Pow(16, e) <= SIZE_MAX + 1
    decreases HEX_LIMIT - e
  {
    PowPositive(16, e);
    if e < HEX_LIMIT {
      HexPowerBound(e + 1);
    } else {
      HexPowerValue();
    }
  }

  lemma HexPowerValue()
    ensures Pow(16, 16) == SIZE_MAX + 1
  {
    assert Pow(16, 4) == 0x1_0000;
    assert Pow(16, 8) == 0x1_0000_0000 by { assert Pow(16, 6) == 0x100_0000; }
    assert Pow(16, 12) == 0x1_0000_0000_0000 by { assert Pow(16, 10) == 0x100_0000_0000; }
    assert Pow(16, 14) == 0x100_0000_0000_0000;
  }

  /** Reading one more size digit keeps the running value below 16^count, hence within size_t. */
  lemma SizeDigitFits(bytesLeft: nat, count: nat, v: nat)
    requires count < HEX_LIMIT && v < 16 && bytesLeft < Pow(16, count)
    ensures bytesLeft * 16 + v < Pow(16, count + 1) <= SIZE_MAX + 1
    ensures SizeMul16Add(bytesLeft, v) == bytesLeft * 16 + v
  {
    HexPowerBound(count + 1);
  }

  lemma StepConsistent(d: Decoder, c: byte)
    requires Consistent(d)
    ensures StepByte(d, c).Continue? ==> Consistent(StepByte(d, c).next)
    ensures StepByte(d, c).Complete? ==> Consistent(StepByte(d, c).next)
  {
    HexPowerBound(d.hexCount);
    if d.phase == ChunkSize && d.hexCount < HEX_LIMIT && HexValue(c) != -1 {
      SizeDigitFits(d.bytesLeft, d.hexCount, HexValue(c));
    }
  }

  /** Every state met in any run from a consistent one is consistent, whatever the bytes. */
  lemma {:induction false} RunConsistent(d: Decoder, s: seq<byte>)
    requires Consistent(d)
    ensures Consistent(Run(d, s).state)
    decreases |s|
  {
    if s != [] {
      StepConsistent(d, s[0]);
      var step := StepByte(d, s[0]);
      if step.Continue? { RunConsistent(step.next, s[1..]); }
    }
  }

  /** Split invariance: feeding a and then b is feeding a ++ b, and once a verdict is
      reached on a, b is only appended to the undecoded tail. */
  lemma {:induction false} RunSplit(d: Decoder, a: seq<byte>, b: seq<byte>)
    ensures Run(d, a + b) ==
            if Run(d, a).verdict == Incomplete
            then Emit(Run(d, a).decoded, Run(Run(d, a).state, b))
            else Run(d, a).(rest := Run(d, a).rest + b)
    ensures Run(d, a).verdict == Incomplete ==> Run(d, a).rest == []
    decreases |a|
  {
    if a == [] {
      assert a + b == b;
    } else {
      assert (a + b)[0] == a[0] && (a + b)[1..] == a[1..] + b;
      var step := StepByte(d, a[0]);
      if step.Continue? {
        RunSplit(step.next, a[1..], b);
      }
    }
  }

  /** One call after another, on each part in turn. */
  function RunAll(d: Decoder, parts: seq<seq<byte>>): Outcome
    decreases |parts|
  {
    if parts == [] then Outcome(Incomplete, d, [], [])
    else
      var o := Run(d, parts[0]);
      if o.verdict == Incomplete then Emit(o.decoded, RunAll(o.state, parts[1..]))
      else o.(rest := o.rest + Flatten(parts[1..]))
  }

  function Flatten(parts: seq<seq<byte>>): seq<byte> {
    if parts == [] then [] else parts[0] + Flatten(parts[1..])
  }

  /** Any number of cuts: the concatenated output, the final state, the verdict and the tail
      depend only on the concatenated input. */
  lemma {:induction false} CutsDoNotMatter(d: Decoder, parts: seq<seq<byte>>)
    ensures RunAll(d, parts) == Run(d, Flatten(parts))
    decreases |parts|
  {
    if parts != [] {
      RunSplit(d, parts[0], Flatten(parts[1..]));
      var o := Run(d, parts[0]);
      if o.verdict == Incomplete { CutsDoNotMatter(o.state, parts[1..]); }
    }
  }

  /** A byte that decodes to nothing only moves the automaton. */
  lemma SilentStep(d: Decoder, s: seq<byte>)
    requires s != [] && StepByte(d, s[0]).Continue? && StepByte(d, s[0]).emitted == []
    ensures Run(d, s) == Run(StepByte(d, s[0]).next, s[1..])
  {
    var o := Run(StepByte(d, s[0]).next, s[1..]);
    assert [] + o.decoded == o.decoded;
  }

  lemma OneSizeDigit(d: Decoder, s: seq<byte>, i: nat)
    requires i < |s| && HexValue(s[i]) != -1
    requires Consistent(d) && d.phase == ChunkSize && d.hexCount < HEX_LIMIT
    ensures var d2 := d.(bytesLeft := SizeMul16Add(d.bytesLeft, HexValue(s[i])), hexCount := d.hexCount + 1);
            Consistent(d2) && Run(d, s[i..]) == Run(d2, s[i + 1..])
  {
    SilentStep(d, s[i..]);
    StepConsistent(d, s[i]);
    assert s[i..][1..] == s[i + 1..];
  }
}
