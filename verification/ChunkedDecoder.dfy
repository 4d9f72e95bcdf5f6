/** The resumable decoder that works inside the caller's buffer, proved equal to the automaton. */
module ChunkedDecoder {
  import opened Bytes
  import opened ChunkedAutomaton

  /** Move n bytes down from src to dst. */
  method MoveDown(buf: array<byte>, dst: nat, src: nat, n: nat)
    requires dst <= src && src + n <= buf.Length
    modifies buf
    ensures buf[dst..dst + n] == old(buf[src..src + n])
    ensures forall i :: 0 <= i < buf.Length && !(dst <= i < dst + n) ==> buf[i] == old(buf[i])
  {
    forall i | dst <= i < dst + n {
      buf[i] := buf[i + (src - dst)];
    }
  }

  /** A run from d over s, with e decoded on the way, is at d2 with t left to read. */
  ghost predicate Reaches(d: Decoder, s: seq<byte>, e: seq<byte>, d2: Decoder, t: seq<byte>) {
    Run(d, s) == Emit(e, Run(d2, t))
  }

  lemma ReachesTrans(d: Decoder, s: seq<byte>, e: seq<byte>, d2: Decoder, t: seq<byte>,
                     e2: seq<byte>, d3: Decoder, u: seq<byte>)
    requires Reaches(d, s, e, d2, t) && Reaches(d2, t, e2, d3, u)
    ensures Reaches(d, s, e + e2, d3, u)
  {
    assert (e + e2) + Run(d3, u).decoded == e + (e2 + Run(d3, u).decoded);
  }

  /** Copying a whole stretch of chunk data at once is stepping through it byte by byte. */
  lemma {:induction false} BulkData(d: Decoder, s: seq<byte>, n: nat)
    requires d.phase == ChunkData && 0 < n <= |s| && n <= d.bytesLeft
    ensures Reaches(d, s, s[..n],
                    d.(bytesLeft := d.bytesLeft - n, phase := if n == d.bytesLeft then ChunkCrlf else ChunkData),
                    s[n..])
    decreases n
  {
    if n == 1 {
      assert s[..1] == [s[0]];
    } else {
      BulkData(d.(bytesLeft := d.bytesLeft - 1), s[1..], n - 1);
      assert s[..n] == [s[0]] + s[1..][..n - 1];
      assert s[n..] == s[1..][n - 1..];
      ReachesTrans(d, s, [s[0]], d.(bytesLeft := d.bytesLeft - 1), s[1..], s[1..][..n - 1],
                   d.(bytesLeft := d.bytesLeft - n, phase := if n == d.bytesLeft then ChunkCrlf else ChunkData),
                   s[n..]);
    }
  }

  /** How one case of the switch leaves: on to the next case, or out with a verdict. */
  datatype Progress = Proceed | Exit(verdict: Verdict)

  /** Reading s from d silently got to d2 with t unread, and either goes on or is over. */
  ghost predicate Advances(d: Decoder, s: seq<byte>, d2: Decoder, t: seq<byte>, p: Progress) {
    && Consistent(d2)
    && match p
       case Proceed => Run(d, s) == Run(d2, t)
       case Exit(v) => Run(d, s) == Outcome(v, d2, [], t)
  }

  /** From decoder d with front already decoded and s unread to d2 with front2 and t. */
  ghost predicate Moved(d: Decoder, s: seq<byte>, front: seq<byte>,
                        d2: Decoder, t: seq<byte>, front2: seq<byte>, p: Progress)
  {
    && Consistent(d2)
    && match p
       case Proceed => Emit(front, Run(d, s)) == Emit(front2, Run(d2, t))
       case Exit(v) => Emit(front, Run(d, s)) == Outcome(v, d2, front2, t)
  }

  /** The bulk copy: n bytes of the chunk, all of it or all the buffer has. */
  lemma MovedByCopy(d: Decoder, s: seq<byte>, n: nat, d2: Decoder, front: seq<byte>, p: Progress)
    requires Consistent(d) && d.phase == ChunkData && n <= |s| && n <= d.bytesLeft
    requires d2 == d.(bytesLeft := d.bytesLeft - n, phase := if n == d.bytesLeft then ChunkCrlf else ChunkData)
    requires p.Exit? ==> p.verdict == Incomplete && n == |s|
    ensures Moved(d, s, front, d2, s[n..], front + s[..n], p)
  {
    if n > 0 {
      BulkData(d, s, n);
    } else {
      assert s[0..] == s && s[..0] == [];
    }
    var o := Run(d2, s[n..]);
    assert (front + s[..n]) + o.decoded == front + (s[..n] + o.decoded);
  }

  /** A byte that leaves the automaton where it is. */
  lemma StepStays(d: Decoder, text: seq<byte>, i: nat)
    requires i < |text| && StepByte(d, text[i]) == Continue(d, [])
    ensures Run(d, text[i..]) == Run(d, text[i + 1..])
  {
    SilentStep(d, text[i..]);
    assert text[i..][1..] == text[i + 1..];
  }

  /** The byte behind the digits is left for the extension to read. */
  lemma SizeEnds(d: Decoder, s: seq<byte>)
    requires Consistent(d) && d.phase == ChunkSize && d.hexCount > 0 && s != [] && HexValue(s[0]) == -1
    ensures var d2 := d.(phase := ChunkExt, hexCount := 0);
            Consistent(d2) && Run(d, s) == Run(d2, s)
  {
    HexPowerBound(d.hexCount);
  }

  class PhrChunkedDecoder {
    var bytesLeftInChunk: nat
    var consumeTrailer: bool
    var hexCount: nat
    var state: Phase

    ghost function View(): Decoder
      reads this
    {
      Decoder(state, bytesLeftInChunk, hexCount, consumeTrailer)
    }

    constructor (consumeTrailer: bool)
      ensures View() == Init(consumeTrailer)
    {
      bytesLeftInChunk, hexCount, state := 0, 0, ChunkSize;
      this.consumeTrailer := consumeTrailer;
    }

    /** Reads digits, at most 16 of them. */
    method ReadDigits(buf: array<byte>, bufsz: nat, from: nat) returns (src: nat)
      requires from <= bufsz <= buf.Length
      requires Consistent(View()) && state == ChunkSize
      modifies this`bytesLeftInChunk, this`hexCount
      ensures from <= src <= bufsz && Consistent(View())
      ensures Run(old(View()), buf[from..bufsz]) == Run(View(), buf[src..bufsz])
      ensures src < bufsz && hexCount < HEX_LIMIT ==> HexValue(buf[src]) == -1
    {
      ghost var text := buf[..bufsz];
      ghost var start, d := View(), View();
      src := from;
      while src < bufsz && HexValue(buf[src]) != -1 && hexCount < HEX_LIMIT
        invariant from <= src <= bufsz
        invariant View() == d && Consistent(d) && d.phase == ChunkSize
        invariant Run(start, text[from..]) == Run(d, text[src..])
        decreases bufsz - src
      {
        var v := HexValue(buf[src]);
        OneSizeDigit(d, text, src);
        d := d.(bytesLeft := SizeMul16Add(d.bytesLeft, v), hexCount := d.hexCount + 1);
        bytesLeftInChunk := SizeMul16Add(bytesLeftInChunk, v);
        hexCount := hexCount + 1;
        src := src + 1;
      }
      assert text[from..] == buf[from..bufsz] && text[src..] == buf[src..bufsz];
    }

    method ReadChunkSize(buf: array<byte>, bufsz: nat, from: nat) returns (src: nat, p: Progress)
      requires from <= bufsz <= buf.Length
      requires Consistent(View()) && state == ChunkSize
      modifies this
      ensures from <= src <= bufsz
      ensures Advances(old(View()), buf[from..bufsz], View(), buf[src..bufsz], p)
      ensures p.Proceed? ==> state == ChunkExt && src < bufsz
    {
      src := ReadDigits(buf, bufsz, from);
      if src == bufsz { p := Exit(Incomplete); return; }
      if hexCount == 0 || HexValue(buf[src]) != -1 { p := Exit(Malformed); return; }
      SizeEnds(View(), buf[src..bufsz]);
      hexCount := 0;
      state := ChunkExt;
      p := Proceed;
    }

    method SkipExtension(buf: array<byte>, bufsz: nat, from: nat) returns (src: nat, p: Progress)
      requires from <= bufsz <= buf.Length
      requires Consistent(View()) && state == ChunkExt
      modifies this
      ensures from <= src <= bufsz
      ensures Advances(old(View()), buf[from..bufsz], View(), buf[src..bufsz], p)
      ensures p.Proceed? ==> from < src && (state == ChunkData || state == TrailerLineHead)
    {
      ghost var text := buf[..bufsz];
      src := from;
      while src < bufsz && buf[src] != LF
        invariant from <= src <= bufsz && View() == old(View())
        invariant Run(old(View()), text[from..]) == Run(old(View()), text[src..])
        decreases bufsz - src
      {
        StepStays(old(View()), text, src);
        src := src + 1;
      }
      assert text[from..] == buf[from..bufsz] && text[src..] == buf[src..bufsz];
      if src == bufsz { p := Exit(Incomplete); return; }
      assert text[src..][1..] == buf[src + 1..bufsz];
      if bytesLeftInChunk == 0 && !consumeTrailer {
        p := Exit(Finished);
      } else {
        SilentStep(View(), text[src..]);
        state := if bytesLeftInChunk == 0 then TrailerLineHead else ChunkData;
        p := Proceed;
      }
      src := src + 1;
    }

    /** Steps over CR; src is left at another byte or the end. */
    method SkipCr(buf: array<byte>, bufsz: nat, from: nat) returns (src: nat)
      requires from <= bufsz <= buf.Length
      requires state == ChunkCrlf || state == TrailerLineHead
      ensures from <= src <= bufsz && (src < bufsz ==> buf[src] != CR)
      ensures Run(View(), buf[from..bufsz]) == Run(View(), buf[src..bufsz])
    {
      ghost var text := buf[..bufsz];
      src := from;
      while src < bufsz && buf[src] == CR
        invariant from <= src <= bufsz
        invariant Run(View(), text[from..]) == Run(View(), text[src..])
        decreases bufsz - src
      {
        StepStays(View(), text, src);
        src := src + 1;
      }
      assert text[from..] == buf[from..bufsz] && text[src..] == buf[src..bufsz];
    }

    method ReadChunkEnd(buf: array<byte>, bufsz: nat, from: nat) returns (src: nat, p: Progress)
      requires from <= bufsz <= buf.Length
      requires Consistent(View()) && state == ChunkCrlf
      modifies this
      ensures from <= src <= bufsz
      ensures Advances(old(View()), buf[from..bufsz], View(), buf[src..bufsz], p)
      ensures p.Proceed? ==> from < src
    {
      src := SkipCr(buf, bufsz, from);
      if src == bufsz { p := Exit(Incomplete); return; }
      if buf[src] != LF { p := Exit(Malformed); return; }
      ghost var rest := buf[src..bufsz];
      assert rest[1..] == buf[src + 1..bufsz];
      SilentStep(View(), rest);
      src := src + 1;
      state := ChunkSize;
      p := Proceed;
    }

    method ReadTrailerLineHead(buf: array<byte>, bufsz: nat, from: nat) returns (src: nat, p: Progress)
      requires from <= bufsz <= buf.Length
      requires Consistent(View()) && state == TrailerLineHead
      modifies this
      ensures from <= src <= bufsz
      ensures Advances(old(View()), buf[from..bufsz], View(), buf[src..bufsz], p)
      ensures p.Proceed? ==> from < src && state == TrailerLineMiddle
    {
      src := SkipCr(buf, bufsz, from);
      if src == bufsz { p := Exit(Incomplete); return; }
      ghost var rest := buf[src..bufsz];
      assert rest[1..] == buf[src + 1..bufsz];
      src := src + 1;
      if buf[src - 1] == LF { p := Exit(Finished); return; }
      SilentStep(View(), rest);
      state := TrailerLineMiddle;
      p := Proceed;
    }

    method ReadTrailerLineMiddle(buf: array<byte>, bufsz: nat, from: nat) returns (src: nat, p: Progress)
      requires from <= bufsz <= buf.Length
      requires Consistent(View()) && state == TrailerLineMiddle
      modifies this
      ensures from <= src <= bufsz
      ensures Advances(old(View()), buf[from..bufsz], View(), buf[src..bufsz], p)
      ensures p.Proceed? ==> from < src
    {
      ghost var text := buf[..bufsz];
      src := from;
      while src < bufsz && buf[src] != LF
        invariant from <= src <= bufsz && View() == old(View())
        invariant Run(old(View()), text[from..]) == Run(old(View()), text[src..])
        decreases bufsz - src
      {
        StepStays(old(View()), text, src);
        src := src + 1;
      }
      assert text[from..] == buf[from..bufsz] && text[src..] == buf[src..bufsz];
      if src == bufsz { p := Exit(Incomplete); return; }
      assert text[src..][1..] == buf[src + 1..bufsz];
      SilentStep(View(), text[src..]);
      src := src + 1;
      state := TrailerLineHead;
      p := Proceed;
    }

    /** Moves n bytes of data down to dst, in one memmove, and leaves the unread part alone. */
    static method Slide(buf: array<byte>, bufsz: nat, dst: nat, src: nat, n: nat)
      requires dst <= src && src + n <= bufsz <= buf.Length
      modifies buf
      ensures buf[..dst + n] == old(buf[..dst]) + old(buf[src..bufsz])[..n]
      ensures buf[src + n..bufsz] == old(buf[src..bufsz])[n..]
      ensures buf[bufsz..] == old(buf[bufsz..])
    {
      ghost var front, data := buf[..dst], buf[src..src + n];
      assert buf[src..bufsz][..n] == data;
      if dst != src {
        MoveDown(buf, dst, src, n);
      }
      assert buf[..dst + n] == buf[..dst] + buf[dst..dst + n];
    }

    /** Brings the undecoded tail right behind the decoded bytes. */
    static method CloseGap(buf: array<byte>, bufsz: nat, dst: nat, src: nat)
      requires dst <= src <= bufsz <= buf.Length
      modifies buf
      ensures buf[..dst] == old(buf[..dst])
      ensures buf[dst..dst + (bufsz - src)] == old(buf[src..bufsz])
      ensures buf[bufsz..] == old(buf[bufsz..])
    {
      if dst != src {
        MoveDown(buf, dst, src, bufsz - src);
      }
    }

    /** Moves as much of the chunk as the buffer holds down to dst in one go. */
    method CopyData(buf: array<byte>, bufsz: nat, dst0: nat, src0: nat) returns (dst: nat, src: nat, p: Progress)
      requires dst0 <= src0 <= bufsz <= buf.Length
      requires Consistent(View()) && state == ChunkData
      modifies this, buf
      ensures dst0 <= dst && src0 <= src <= bufsz && src - dst == src0 - dst0
      ensures Moved(old(View()), old(buf[src0..bufsz]), old(buf[..dst0]), View(), buf[src..bufsz], buf[..dst], p)
      ensures buf[bufsz..] == old(buf[bufsz..])
      ensures p.Proceed? ==> src0 < src && state == ChunkCrlf
    {
      ghost var front, tail, was := buf[..dst0], buf[src0..bufsz], View();
      var n := if bytesLeftInChunk <= bufsz - src0 then bytesLeftInChunk else bufsz - src0;
      p := if bytesLeftInChunk <= bufsz - src0 then Proceed else Exit(Incomplete);
      Slide(buf, bufsz, dst0, src0, n);
      src, dst := src0 + n, dst0 + n;
      assert buf[src..bufsz] == tail[n..] && buf[..dst] == front + tail[..n];
      bytesLeftInChunk := bytesLeftInChunk - n;
      if p.Proceed? { state := ChunkCrlf; }
      MovedByCopy(was, tail, n, View(), front, p);
    }

    method CaseChunkData(buf: array<byte>, bufsz: nat, dst0: nat, src0: nat) returns (dst: nat, src: nat, p: Progress)
      requires dst0 <= src0 <= bufsz <= buf.Length
      requires Consistent(View()) && state == ChunkData
      modifies this, buf
      ensures dst <= src <= bufsz && src0 <= src
      ensures Moved(old(View()), old(buf[src0..bufsz]), old(buf[..dst0]), View(), buf[src..bufsz], buf[..dst], p)
      ensures buf[bufsz..] == old(buf[bufsz..])
      ensures p.Proceed? ==> src0 < src
    {
      dst, src, p := CopyData(buf, bufsz, dst0, src0);
      if p.Exit? { return; }
      ghost var d, t := View(), buf[src..bufsz];
      src, p := ReadChunkEnd(buf, bufsz, src);
    }

    method CaseChunkExt(buf: array<byte>, bufsz: nat, dst0: nat, src0: nat) returns (dst: nat, src: nat, p: Progress)
      requires dst0 <= src0 <= bufsz <= buf.Length
      requires Consistent(View()) && state == ChunkExt
      modifies this, buf
      ensures dst <= src <= bufsz && src0 <= src
      ensures Moved(old(View()), old(buf[src0..bufsz]), old(buf[..dst0]), View(), buf[src..bufsz], buf[..dst], p)
      ensures buf[bufsz..] == old(buf[bufsz..])
      ensures p.Proceed? ==> src0 < src
    {
      ghost var d, t := View(), buf[src0..bufsz];
      dst := dst0;
      src, p := SkipExtension(buf, bufsz, src0);
      if p.Exit? || state == TrailerLineHead {
        return;
      }
      ghost var d2, t2 := View(), buf[src..bufsz];
      dst, src, p := CaseChunkData(buf, bufsz, dst, src);
    }

    method CaseChunkSize(buf: array<byte>, bufsz: nat, dst0: nat, src0: nat) returns (dst: nat, src: nat, p: Progress)
      requires dst0 <= src0 <= bufsz <= buf.Length
      requires Consistent(View()) && state == ChunkSize
      modifies this, buf
      ensures dst <= src <= bufsz && src0 <= src
      ensures Moved(old(View()), old(buf[src0..bufsz]), old(buf[..dst0]), View(), buf[src..bufsz], buf[..dst], p)
      ensures buf[bufsz..] == old(buf[bufsz..])
      ensures p.Proceed? ==> src0 < src
    {
      ghost var d, t := View(), buf[src0..bufsz];
      dst := dst0;
      src, p := ReadChunkSize(buf, bufsz, src0);
      if p.Exit? {
        return;
      }
      ghost var d2, t2 := View(), buf[src..bufsz];
      dst, src, p := CaseChunkExt(buf, bufsz, dst, src);
    }

    method CaseTrailer(buf: array<byte>, bufsz: nat, src0: nat) returns (src: nat, p: Progress)
      requires src0 <= bufsz <= buf.Length
      requires Consistent(View()) && (state == TrailerLineHead || state == TrailerLineMiddle)
      modifies this
      ensures src0 <= src <= bufsz
      ensures Advances(old(View()), buf[src0..bufsz], View(), buf[src..bufsz], p)
      ensures p.Proceed? ==> src0 < src
    {
      src := src0;
      if state == TrailerLineHead {
        src, p := ReadTrailerLineHead(buf, bufsz, src);
        if p.Exit? { return; }
      }
      src, p := ReadTrailerLineMiddle(buf, bufsz, src);
    }

    /** The outer loop: every turn that goes round again leaves fewer bytes unread. */
    method DecodeUntilExit(buf: array<byte>, bufsz: nat) returns (dst: nat, src: nat, p: Progress)
      requires bufsz <= buf.Length
      requires Consistent(View())
      modifies this, buf
      ensures dst <= src <= bufsz && p.Exit?
      ensures Moved(old(View()), old(buf[..bufsz]), [], View(), buf[src..bufsz], buf[..dst], p)
      ensures buf[bufsz..] == old(buf[bufsz..])
    {
      dst, src, p := 0, 0, Proceed;
      ghost var start, text := View(), buf[..bufsz];
      assert buf[..0] == [] && buf[0..bufsz] == text;
      while p.Proceed?
        invariant dst <= src <= bufsz
        invariant Moved(start, text, [], View(), buf[src..bufsz], buf[..dst], p)
        invariant buf[bufsz..] == old(buf[bufsz..])
        decreases p.Proceed?, bufsz - src
      {
        ghost var d, t, front := View(), buf[src..bufsz], buf[..dst];
        if state == ChunkSize {
          dst, src, p := CaseChunkSize(buf, bufsz, dst, src);
        } else if state == ChunkExt {
          dst, src, p := CaseChunkExt(buf, bufsz, dst, src);
        } else if state == ChunkData {
          dst, src, p := CaseChunkData(buf, bufsz, dst, src);
        } else {
          if state == ChunkCrlf {
            src, p := ReadChunkEnd(buf, bufsz, src);
          } else {
            src, p := CaseTrailer(buf, bufsz, src);
          }
        }
      }
    }

    /** One pass over the buffer: decoded bytes end up at its front, the undecoded tail right
        behind them, and the state carries over to the next buffer. */
    method Decode(buf: array<byte>, bufsz: nat) returns (ret: int, decoded: nat)
      requires bufsz <= buf.Length <= SIZE_MAX
      requires Consistent(View())
      modifies this, buf
      ensures Consistent(View())
      ensures var o := Run(old(View()), old(buf[..bufsz]));
              && View() == o.state
              && decoded == |o.decoded|
              && decoded + |o.rest| <= bufsz
              && buf[..decoded] == o.decoded
              && buf[decoded..decoded + |o.rest|] == o.rest
              && ret == match o.verdict { case Incomplete => -2 case Malformed => -1 case Finished => |o.rest| }
      ensures buf[bufsz..] == old(buf[bufsz..])
    {
      ghost var d, text := View(), buf[..bufsz];
      var dst, src, p := DecodeUntilExit(buf, bufsz);
      CloseGap(buf, bufsz, dst, src);
      decoded := dst;
      ret := match p.verdict { case Incomplete => -2 case Malformed => -1 case Finished => bufsz - src };
    }
  }
}
