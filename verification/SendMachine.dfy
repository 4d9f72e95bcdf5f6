/** The backlog in front of an unreliable send, as a machine of steps. What a try to send gives is
    decided by an oracle, one answer for every try. */
module SendMachine {
  import opened Bytes

  datatype Message = Message(data: seq<byte>, sid: nat, ppid: nat)

  datatype SendResult = Sent | WouldBlock | HardError

  type Oracle = nat -> SendResult

  /** ready is bHandShakeDone; wire is what usrsctp has taken; tries counts the tries to send. */
  datatype Sctp = Sctp(cache: seq<Message>, ready: bool, wire: seq<Message>, tries: nat)

  datatype Outcome = Outcome(s: Sctp, ok: bool)

  /** SendSctpCacheData. */
  function SendCache(s: Sctp, oracle: Oracle): Outcome
    decreases |s.cache|
  {
    if !s.ready then Outcome(s, false)
    else if s.cache == [] then Outcome(s, true)
    else
      var s1 := s.(tries := s.tries + 1);
      match oracle(s.tries)
      case Sent => SendCache(s1.(cache := s.cache[1..], wire := s.wire + [s.cache[0]]), oracle)
      case WouldBlock => Outcome(s1, false)
      case HardError => Outcome(s1.(ready := false), false)
  }

  /** SendUsrSctpData. */
  function SendData(s: Sctp, m: Message, oracle: Oracle): Outcome {
    var flushed := SendCache(s, oracle);
    if !flushed.ok then Outcome(flushed.s.(cache := flushed.s.cache + [m]), false)
    else
      var s1 := flushed.s.(tries := flushed.s.tries + 1);
      match oracle(flushed.s.tries)
      case Sent => Outcome(s1.(wire := s1.wire + [m]), true)
      case WouldBlock => Outcome(s1.(cache := s1.cache + [m]), false)
      case HardError => Outcome(s1.(ready := false), false)
  }

  /** RecvUsrSctpData, given whether usrsctp_accept has a connection. */
  function Packet(s: Sctp, connection: bool): Sctp { s.(ready := s.ready || connection) }

  // ---------------------------------------------------------------- runs

  datatype Step = Send(m: Message) | Flush | Recv(connection: bool)

  /** submitted lists the messages in order, each with whether its own direct send failed for good. */
  datatype Run = Run(s: Sctp, submitted: seq<(Message, bool)>)

  /** The direct send of m is reached and fails with an error other than would-block. */
  predicate Lost(s: Sctp, oracle: Oracle) {
    var flushed := SendCache(s, oracle);
    flushed.ok && oracle(flushed.s.tries).HardError?
  }

  function Do(r: Run, step: Step, oracle: Oracle): Run {
    match step
    case Send(m) => Run(SendData(r.s, m, oracle).s, r.submitted + [(m, Lost(r.s, oracle))])
    case Flush => r.(s := SendCache(r.s, oracle).s)
    case Recv(connection) => r.(s := Packet(r.s, connection))
  }

  function DoAll(r: Run, steps: seq<Step>, oracle: Oracle): Run
    decreases |steps|
  {
    if steps == [] then r else DoAll(Do(r, steps[0], oracle), steps[1..], oracle)
  }

  /** The submitted messages without the lost ones. */
  function Kept(submitted: seq<(Message, bool)>): seq<Message> {
    if submitted == [] then []
    else (if submitted[0].1 then [] else [submitted[0].0]) + Kept(submitted[1..])
  }

  // ---------------------------------------------------------------- what one call does

  /** Sending from the cache moves messages from its front to the wire; if it succeeds the cache is
      empty, if it fails what is left is still there, and only a hard error ends the session. */
  lemma {:induction false} CacheMovesToWire(s: Sctp, oracle: Oracle)
    ensures var r := SendCache(s, oracle);
            && r.s.wire + r.s.cache == s.wire + s.cache && s.wire <= r.s.wire
            && (r.ok ==> r.s.cache == [] && r.s.ready)
            && (!r.ok && s.ready ==> r.s.cache != [] && r.s.tries > 0 && !oracle(r.s.tries - 1).Sent?)
            && (!r.ok && s.ready ==> (r.s.ready <==> oracle(r.s.tries - 1).WouldBlock?))
            && (!s.ready ==> r == Outcome(s, false))
    decreases |s.cache|
  {
    if s.ready && s.cache != [] && oracle(s.tries).Sent? {
      var s1 := Sctp(s.cache[1..], s.ready, s.wire + [s.cache[0]], s.tries + 1);
      CacheMovesToWire(s1, oracle);
      assert s1.wire + s1.cache == s.wire + s.cache;
    }
  }

  /** A message goes out directly only behind everything that was waiting; if it does not go out it
      waits behind the rest, unless its own send failed for good. */
  lemma SendKeepsOrder(s: Sctp, m: Message, oracle: Oracle)
    ensures var r := SendData(s, m, oracle);
            && (r.ok ==> r.s.cache == [] && r.s.wire == s.wire + s.cache + [m])
            && (!r.ok && !Lost(s, oracle) ==> r.s.cache != [] && r.s.cache[|r.s.cache| - 1] == m)
            && (!r.ok && !Lost(s, oracle) ==> r.s.wire + r.s.cache == s.wire + s.cache + [m])
            && (!r.ok && Lost(s, oracle) ==> r.s.cache == [] && !r.s.ready && r.s.wire == s.wire + s.cache)
            && (r.ok ==> !Lost(s, oracle))
  {
    CacheMovesToWire(s, oracle);
    var flushed := SendCache(s, oracle).s;
    Regroup(flushed.wire, flushed.cache, [m]);
    assert flushed.cache == [] ==> flushed.wire + flushed.cache == flushed.wire;
  }

  // ---------------------------------------------------------------- over all runs

  ghost predicate Conserved(r: Run) { r.s.wire + r.s.cache == Kept(r.submitted) }

  lemma {:induction false} KeptOneMore(submitted: seq<(Message, bool)>, m: Message, lost: bool)
    ensures Kept(submitted + [(m, lost)]) == Kept(submitted) + if lost then [] else [m]
    decreases |submitted|
  {
    if submitted != [] {
      assert (submitted + [(m, lost)])[1..] == submitted[1..] + [(m, lost)];
      KeptOneMore(submitted[1..], m, lost);
    }
  }

  lemma StepConserves(r: Run, step: Step, oracle: Oracle)
    requires Conserved(r)
    ensures Conserved(Do(r, step, oracle)) && r.s.wire <= Do(r, step, oracle).s.wire
  {
    CacheMovesToWire(r.s, oracle);
    if step.Send? {
      KeptOneMore(r.submitted, step.m, Lost(r.s, oracle));
      SendKeepsOrder(r.s, step.m, oracle);
    }
  }

  /** Over any run, whatever the tries give: what was sent and then what is cached is what was
      submitted, in order, but for the messages whose own direct send failed for good. */
  lemma {:induction false} NothingElseIsLost(r: Run, steps: seq<Step>, oracle: Oracle)
    requires Conserved(r)
    ensures var r' := DoAll(r, steps, oracle);
            r'.s.wire + r'.s.cache == Kept(r'.submitted) && r.s.wire <= r'.s.wire
    decreases |steps|
  {
    if steps != [] {
      StepConserves(r, steps[0], oracle);
      NothingElseIsLost(Do(r, steps[0], oracle), steps[1..], oracle);
    }
  }

  /** The messages a run submits. */
  function Submitted(steps: seq<Step>): seq<Message> {
    if steps == [] then []
    else (if steps[0].Send? then [steps[0].m] else []) + Submitted(steps[1..])
  }

  function Messages(submitted: seq<(Message, bool)>): seq<Message> {
    if submitted == [] then [] else [submitted[0].0] + Messages(submitted[1..])
  }

  lemma {:induction false} MessagesOneMore(submitted: seq<(Message, bool)>, m: Message, lost: bool)
    ensures Messages(submitted + [(m, lost)]) == Messages(submitted) + [m]
    decreases |submitted|
  {
    if submitted != [] {
      assert (submitted + [(m, lost)])[1..] == submitted[1..] + [(m, lost)];
      MessagesOneMore(submitted[1..], m, lost);
    }
  }

  /** Every message given to a send is on record, once and in order. */
  lemma {:induction false} AllOnRecord(r: Run, steps: seq<Step>, oracle: Oracle)
    ensures Messages(DoAll(r, steps, oracle).submitted) == Messages(r.submitted) + Submitted(steps)
    decreases |steps|
  {
    if steps != [] {
      AllOnRecord(Do(r, steps[0], oracle), steps[1..], oracle);
      if steps[0].Send? {
        MessagesOneMore(r.submitted, steps[0].m, Lost(r.s, oracle));
        Regroup(Messages(r.submitted), [steps[0].m], Submitted(steps[1..]));
      }
    }
  }

  predicate NoConnection(steps: seq<Step>) {
    steps == [] || (!(steps[0].Recv? && steps[0].connection) && NoConnection(steps[1..]))
  }

  lemma SilentStep(r: Run, step: Step, oracle: Oracle)
    requires !r.s.ready && !(step.Recv? && step.connection)
    ensures Do(r, step, oracle).s == r.s.(cache := r.s.cache + if step.Send? then [step.m] else [])
  {
    assert r.s.cache + [] == r.s.cache;
  }

  /** After a hard error, and before the first handshake, nothing is sent and everything is cached. */
  lemma {:induction false} SilentUntilHandshake(r: Run, steps: seq<Step>, oracle: Oracle)
    requires !r.s.ready && NoConnection(steps)
    ensures var s := DoAll(r, steps, oracle).s;
            !s.ready && s.wire == r.s.wire && s.tries == r.s.tries && s.cache == r.s.cache + Submitted(steps)
    decreases |steps|
  {
    if steps == [] {
      assert r.s.cache + [] == r.s.cache;
    } else {
      var now := if steps[0].Send? then [steps[0].m] else [];
      SilentStep(r, steps[0], oracle);
      SilentUntilHandshake(Do(r, steps[0], oracle), steps[1..], oracle);
      Regroup(r.s.cache, now, Submitted(steps[1..]));
    }
  }
}
