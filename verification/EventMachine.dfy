/** The event queue of the loop and the arena its events point into, as a machine of steps. */
module EventMachine {
  import opened Bytes

  /** 1 << 20. */
  const CAPACITY: nat := 0x10_0000

  /** Between two scans of the clients lie this many calls. */
  const ROLL: nat := 100

  datatype Kind = RecvClientData | HeartBeat | SendCacheData

  /** data is the place in the arena, for received data; length has 16 bits. */
  datatype Event = Event(kind: Kind, client: nat, data: nat, length: nat, sid: int, ssn: int, tsn: int)

  datatype Message = Message(client: nat, data: seq<byte>, sid: int, ssn: int, tsn: int)

  datatype LoopState = LoopState(memory: seq<byte>, pos: nat, queue: seq<Event>, count: nat)

  predicate Sized(l: LoopState) { |l.memory| == CAPACITY && l.pos <= CAPACITY }

  function Start(memory: seq<byte>): (l: LoopState)
    requires |memory| == CAPACITY
    ensures Sized(l)
  {
    LoopState(memory, 0, [], 0)
  }

  /** ArenaAlloc. */
  function Alloc(l: LoopState, size: int): (r: Option<nat>)
    requires Sized(l)
    ensures r.Some? <==> 0 < size <= CAPACITY - l.pos
  {
    if size <= 0 || CAPACITY - l.pos < size then None else Some(l.pos)
  }

  function RecvEvent(m: Message, at: nat): Event {
    Event(RecvClientData, m.client, at, |m.data| % 0x1_0000, m.sid, m.ssn, m.tsn)
  }

  /** PushClientRecvData: what finds no room is dropped. */
  function Receive(l: LoopState, m: Message): (r: LoopState)
    requires Sized(l)
    ensures Sized(r)
  {
    match Alloc(l, |m.data|)
    case None => l
    case Some(at) =>
      var end := at + |m.data|;
      LoopState(l.memory[..at] + m.data + l.memory[end..], end, l.queue + [RecvEvent(m, at)], l.count)
  }

  function PlainEvent(kind: Kind, client: nat): Event { Event(kind, client, 0, 0, 0, 0, 0) }

  function Push(l: LoopState, e: Event): LoopState { l.(queue := l.queue + [e]) }

  /** One event for every client from i on that has a backlog. */
  function CacheEvents(backlog: seq<bool>, i: nat): seq<Event>
    requires i <= |backlog|
    decreases |backlog| - i
  {
    if i == |backlog| then []
    else (if backlog[i] then [PlainEvent(SendCacheData, i)] else []) + CacheEvents(backlog, i + 1)
  }

  /** ScanClientCacheData, given which clients have a backlog. */
  function Scan(l: LoopState, backlog: seq<bool>): LoopState {
    var due := l.count % ROLL == 0;
    l.(count := l.count + 1, queue := l.queue + if due then CacheEvents(backlog, 0) else [])
  }

  /** Loop, but for the packets epoll reports: they are steps of their own. */
  function CallLoop(l: LoopState, backlog: seq<bool>): (r: LoopState)
    requires Sized(l)
    ensures Sized(r)
  {
    if l.queue != [] then l.(queue := l.queue[1..]) else Scan(l.(pos := 0), backlog)
  }

  // ---------------------------------------------------------------- runs

  /** An accepted message and where it was put. */
  datatype Slot = Slot(at: nat, m: Message)

  /** slots are the messages accepted since the arena was last reset; the events of the first taken of
      them have been handed out. */
  datatype Run = Run(l: LoopState, slots: seq<Slot>, taken: nat, accepted: seq<Message>, delivered: seq<Message>)

  datatype Step = Arrive(m: Message) | Beat(client: nat) | Call(backlog: seq<bool>)

  predicate HasRoom(l: LoopState, m: Message) { 0 < |m.data| <= CAPACITY - l.pos }

  /** What the caller finds behind an event at the moment it is handed out. */
  function Look(l: LoopState, e: Event): Message {
    Message(e.client, if e.data + e.length <= |l.memory| then l.memory[e.data..e.data + e.length] else [],
            e.sid, e.ssn, e.tsn)
  }

  function Do(r: Run, s: Step): (r': Run)
    requires Sized(r.l)
    ensures Sized(r'.l)
  {
    match s
    case Arrive(m) =>
      var l := Receive(r.l, m);
      if HasRoom(r.l, m) then r.(l := l, slots := r.slots + [Slot(r.l.pos, m)], accepted := r.accepted + [m])
      else r.(l := l)
    case Beat(client) => r.(l := Push(r.l, PlainEvent(HeartBeat, client)))
    case Call(backlog) =>
      var l := CallLoop(r.l, backlog);
      if r.l.queue == [] then r.(l := l, slots := [], taken := 0)
      else if r.l.queue[0].kind.RecvClientData? then
        r.(l := l, taken := r.taken + 1, delivered := r.delivered + [Look(r.l, r.l.queue[0])])
      else r.(l := l)
  }

  function DoAll(r: Run, steps: seq<Step>): (r': Run)
    requires Sized(r.l)
    ensures Sized(r'.l)
    decreases |steps|
  {
    if steps == [] then r else DoAll(Do(r, steps[0]), steps[1..])
  }

  // ---------------------------------------------------------------- the invariant

  /** The slots fill the arena from its start to pos without a gap, each with its message's bytes. */
  ghost predicate Laid(slots: seq<Slot>, memory: seq<byte>, pos: nat)
    decreases |slots|
  {
    if slots == [] then pos == 0
    else
      var last := slots[|slots| - 1];
      && last.at + |last.m.data| == pos <= |memory| && last.m.data != []
      && memory[last.at..pos] == last.m.data
      && Laid(slots[..|slots| - 1], memory, last.at)
  }

  /** The receive events of a queue. */
  function Receives(queue: seq<Event>): seq<Event> {
    if queue == [] then []
    else (if queue[0].kind.RecvClientData? then [queue[0]] else []) + Receives(queue[1..])
  }

  function Events(slots: seq<Slot>): (events: seq<Event>)
    ensures |events| == |slots|
  {
    if slots == [] then [] else [RecvEvent(slots[0].m, slots[0].at)] + Events(slots[1..])
  }

  /** What the 16-bit length leaves of a message. */
  function Seen(m: Message): Message { m.(data := m.data[..|m.data| % 0x1_0000]) }

  function AllSeen(ms: seq<Message>): (seen: seq<Message>)
    ensures |seen| == |ms|
  {
    if ms == [] then [] else [Seen(ms[0])] + AllSeen(ms[1..])
  }

  function Messages(slots: seq<Slot>): (ms: seq<Message>)
    ensures |ms| == |slots|
  {
    if slots == [] then [] else [slots[0].m] + Messages(slots[1..])
  }

  ghost predicate Good(r: Run) {
    && Sized(r.l) && Laid(r.slots, r.l.memory, r.l.pos)
    && r.taken <= |r.slots| && Receives(r.l.queue) == Events(r.slots[r.taken..])
    && |r.delivered| <= |r.accepted| && r.delivered == AllSeen(r.accepted[..|r.delivered|])
    && Messages(r.slots[r.taken..]) == r.accepted[|r.delivered|..]
  }

  // ---------------------------------------------------------------- what every step keeps

  lemma {:induction false} LaidElsewhere(slots: seq<Slot>, a: seq<byte>, b: seq<byte>, pos: nat)
    requires Laid(slots, a, pos) && pos <= |a| && pos <= |b| && forall k :: 0 <= k < pos ==> a[k] == b[k]
    ensures Laid(slots, b, pos)
    decreases |slots|
  {
    if slots != [] {
      var last := slots[|slots| - 1];
      assert a[last.at..pos] == b[last.at..pos];
      LaidElsewhere(slots[..|slots| - 1], a, b, last.at);
    }
  }

  /** A slot's bytes are in the arena, below pos. */
  lemma {:induction false} SlotIntact(slots: seq<Slot>, memory: seq<byte>, pos: nat, i: nat)
    requires Laid(slots, memory, pos) && i < |slots|
    ensures var s := slots[i];
            s.m.data != [] && s.at + |s.m.data| <= pos <= |memory| && memory[s.at..s.at + |s.m.data|] == s.m.data
    decreases |slots|
  {
    if i < |slots| - 1 { SlotIntact(slots[..|slots| - 1], memory, slots[|slots| - 1].at, i); }
  }

  lemma {:induction false} SlotsApart(slots: seq<Slot>, memory: seq<byte>, pos: nat, i: nat, j: nat)
    requires Laid(slots, memory, pos) && i < j < |slots|
    ensures slots[i].at + |slots[i].m.data| <= slots[j].at
    decreases |slots|
  {
    var front, last := slots[..|slots| - 1], slots[|slots| - 1];
    if j < |front| { SlotsApart(front, memory, last.at, i, j); } else { SlotIntact(front, memory, last.at, i); }
  }

  lemma {:induction false} ReceivesJoin(q: seq<Event>, p: seq<Event>)
    ensures Receives(q + p) == Receives(q) + Receives(p)
    decreases |q|
  {
    if q == [] {
      assert q + p == p;
    } else {
      assert (q + p)[1..] == q[1..] + p;
      ReceivesJoin(q[1..], p);
      Regroup(if q[0].kind.RecvClientData? then [q[0]] else [], Receives(q[1..]), Receives(p));
    }
  }

  lemma {:induction false} OneMoreSlot(slots: seq<Slot>, s: Slot)
    ensures Events(slots + [s]) == Events(slots) + [RecvEvent(s.m, s.at)]
    ensures Messages(slots + [s]) == Messages(slots) + [s.m]
    decreases |slots|
  {
    if slots != [] {
      assert (slots + [s])[1..] == slots[1..] + [s];
      OneMoreSlot(slots[1..], s);
    }
  }

  lemma {:induction false} OneMoreSeen(ms: seq<Message>, m: Message)
    ensures AllSeen(ms + [m]) == AllSeen(ms) + [Seen(m)]
    decreases |ms|
  {
    if ms != [] {
      assert (ms + [m])[1..] == ms[1..] + [m];
      OneMoreSeen(ms[1..], m);
    }
  }

  lemma ArriveKeepsLaid(slots: seq<Slot>, memory: seq<byte>, pos: nat, m: Message)
    requires Laid(slots, memory, pos) && m.data != [] && pos + |m.data| <= |memory|
    ensures var end := pos + |m.data|;
            Laid(slots + [Slot(pos, m)], memory[..pos] + m.data + memory[end..], end)
  {
    var end := pos + |m.data|;
    var memory' := memory[..pos] + m.data + memory[end..];
    LaidElsewhere(slots, memory, memory', pos);
    assert (slots + [Slot(pos, m)])[..|slots|] == slots;
    assert memory'[pos..end] == m.data;
  }

  lemma MoreAccepted(ms: seq<Message>, n: nat, m: Message)
    requires n <= |ms|
    ensures (ms + [m])[..n] == ms[..n] && (ms + [m])[n..] == ms[n..] + [m]
  {
  }

  lemma MoreDelivered(ms: seq<Message>, n: nat)
    requires n < |ms|
    ensures AllSeen(ms[..n + 1]) == AllSeen(ms[..n]) + [Seen(ms[n])] && ms[n..][1..] == ms[n + 1..]
  {
    assert ms[..n + 1] == ms[..n] + [ms[n]];
    OneMoreSeen(ms[..n], ms[n]);
  }

  lemma ArriveKeepsGood(r: Run, m: Message)
    requires Good(r)
    ensures Good(Do(r, Arrive(m)))
  {
    if HasRoom(r.l, m) {
      var s, e := Slot(r.l.pos, m), RecvEvent(m, r.l.pos);
      ArriveKeepsLaid(r.slots, r.l.memory, r.l.pos, m);
      ReceivesJoin(r.l.queue, [e]);
      assert Receives([e]) == [e];
      assert (r.slots + [s])[r.taken..] == r.slots[r.taken..] + [s];
      OneMoreSlot(r.slots[r.taken..], s);
      MoreAccepted(r.accepted, |r.delivered|, m);
    }
  }

  lemma BeatKeepsGood(r: Run, client: nat)
    requires Good(r)
    ensures Good(Do(r, Beat(client)))
  {
    ReceivesJoin(r.l.queue, [PlainEvent(HeartBeat, client)]);
  }

  lemma {:induction false} CacheEventsAreNotReceives(backlog: seq<bool>, i: nat)
    requires i <= |backlog|
    ensures Receives(CacheEvents(backlog, i)) == []
    decreases |backlog| - i
  {
    if i < |backlog| {
      CacheEventsAreNotReceives(backlog, i + 1);
      ReceivesJoin(if backlog[i] then [PlainEvent(SendCacheData, i)] else [], CacheEvents(backlog, i + 1));
    }
  }

  /** The caller finds what arrived, as far as the length goes. */
  lemma HandedOut(r: Run)
    requires Good(r) && r.l.queue != [] && r.l.queue[0].kind.RecvClientData?
    ensures r.taken < |r.slots| && Look(r.l, r.l.queue[0]) == Seen(r.slots[r.taken].m)
  {
    assert Receives(r.l.queue)[0] == r.l.queue[0];
    var s := r.slots[r.taken..][0];
    SlotIntact(r.slots, r.l.memory, r.l.pos, r.taken);
    var n := |s.m.data| % 0x1_0000;
    assert r.l.memory[s.at..s.at + |s.m.data|][..n] == r.l.memory[s.at..s.at + n];
  }

  lemma CallKeepsGood(r: Run, backlog: seq<bool>)
    requires Good(r)
    ensures Good(Do(r, Call(backlog)))
  {
    var rest := r.slots[r.taken..];
    if r.l.queue == [] {
      assert rest == [];
      CacheEventsAreNotReceives(backlog, 0);
      ReceivesJoin([], CacheEvents(backlog, 0));
    } else if r.l.queue[0].kind.RecvClientData? {
      HandedOut(r);
      assert rest[1..] == r.slots[r.taken + 1..];
      assert Receives(r.l.queue)[1..] == Receives(r.l.queue[1..]) && Events(rest)[1..] == Events(rest[1..]);
      assert Messages(rest)[0] == rest[0].m && Messages(rest)[1..] == Messages(rest[1..]);
      MoreDelivered(r.accepted, |r.delivered|);
    }
  }

  lemma StepKeepsGood(r: Run, s: Step)
    requires Good(r)
    ensures Good(Do(r, s))
  {
    match s
    case Arrive(m) => ArriveKeepsGood(r, m);
    case Beat(client) => BeatKeepsGood(r, client);
    case Call(backlog) => CallKeepsGood(r, backlog);
  }

  function Begin(memory: seq<byte>): Run
    requires |memory| == CAPACITY
  {
    Run(Start(memory), [], 0, [], [])
  }

  lemma {:induction false} RunStaysGood(r: Run, steps: seq<Step>)
    requires Good(r)
    ensures Good(DoAll(r, steps))
    decreases |steps|
  {
    if steps != [] {
      StepKeepsGood(r, steps[0]);
      RunStaysGood(Do(r, steps[0]), steps[1..]);
    }
  }

  // ---------------------------------------------------------------- over all runs

  /** A message that the queue or the caller still holds lies in the arena below pos, whole and apart from all
      others; the events still queued are those of the messages not handed out yet. */
  lemma QueuedDataIsIntact(memory: seq<byte>, steps: seq<Step>, i: nat, j: nat)
    requires |memory| == CAPACITY
    ensures var r := DoAll(Begin(memory), steps);
            && r.taken <= |r.slots| && Receives(r.l.queue) == Events(r.slots[r.taken..])
            && (i < |r.slots| ==> var s := r.slots[i];
                  s.at + |s.m.data| <= r.l.pos <= CAPACITY && r.l.memory[s.at..s.at + |s.m.data|] == s.m.data)
            && (i < j < |r.slots| ==> r.slots[i].at + |r.slots[i].m.data| <= r.slots[j].at)
  {
    var r := DoAll(Begin(memory), steps);
    RunStaysGood(Begin(memory), steps);
    if i < |r.slots| { SlotIntact(r.slots, r.l.memory, r.l.pos, i); }
    if i < j < |r.slots| { SlotsApart(r.slots, r.l.memory, r.l.pos, i, j); }
  }

  /** Every accepted message is delivered once and in order of arrival, or is still queued; and it is
      delivered as its 16-bit length shows it. */
  lemma DeliveredInOrder(memory: seq<byte>, steps: seq<Step>)
    requires |memory| == CAPACITY
    ensures var r := DoAll(Begin(memory), steps);
            var n := |r.delivered|;
            && r.taken <= |r.slots| && n <= |r.accepted|
            && r.delivered == AllSeen(r.accepted[..n]) && Messages(r.slots[r.taken..]) == r.accepted[n..]
  {
    RunStaysGood(Begin(memory), steps);
  }

  /** A message is accepted exactly if it is not empty and fits behind pos. */
  lemma DroppedForLackOfRoom(r: Run, m: Message)
    requires Sized(r.l)
    ensures var r' := Do(r, Arrive(m));
            if 0 < |m.data| <= CAPACITY - r.l.pos
            then r'.accepted == r.accepted + [m] && |r'.l.queue| == |r.l.queue| + 1
            else r' == r
  {
  }

  lemma SeenCut(m: Message)
    ensures Seen(m) == m <==> |m.data| < 0x1_0000
  {
    if Seen(m) == m { assert |m.data| == |m.data| % 0x1_0000; }
  }

  /** The length of an event has 16 bits: messages are seen whole exactly if all are shorter than that. */
  lemma {:induction false} SeenWhole(ms: seq<Message>)
    ensures AllSeen(ms) == ms <==> forall m <- ms :: |m.data| < 0x1_0000
    decreases |ms|
  {
    if ms != [] {
      SeenWhole(ms[1..]);
      assert ms == [ms[0]] + ms[1..];
      assert AllSeen(ms)[0] == Seen(ms[0]) && AllSeen(ms)[1..] == AllSeen(ms[1..]);
      SeenCut(ms[0]);
    }
  }

  /** Over every run, delivered and then queued messages are the accepted ones, unchanged and in order,
      exactly if those delivered were shorter than 65536 bytes. */
  lemma DeliveredWhole(memory: seq<byte>, steps: seq<Step>)
    requires |memory| == CAPACITY
    ensures var r := DoAll(Begin(memory), steps);
            && r.taken <= |r.slots| && |r.delivered| <= |r.accepted|
            && (r.delivered + Messages(r.slots[r.taken..]) == r.accepted <==>
                forall m <- r.accepted[..|r.delivered|] :: |m.data| < 0x1_0000)
  {
    var r := DoAll(Begin(memory), steps);
    DeliveredInOrder(memory, steps);
    var front, back := r.accepted[..|r.delivered|], r.accepted[|r.delivered|..];
    SeenWhole(front);
    assert front + back == r.accepted;
    assert (r.delivered + back)[..|r.delivered|] == r.delivered;
  }

  /** A message of 65536 bytes is accepted and then delivered without any. */
  lemma LongMessageCounterexample(memory: seq<byte>, m: Message)
    requires |memory| == CAPACITY && |m.data| == 0x1_0000
    ensures var r := DoAll(Begin(memory), [Arrive(m), Call([])]);
            r.accepted == [m] && r.delivered == [m.(data := [])]
  {
    var r := Begin(memory);
    var r1 := Do(r, Arrive(m));
    var steps := [Arrive(m), Call([])];
    assert steps[1..] == [Call([])] && steps[1..][1..] == [];
    assert r1.l.queue == [RecvEvent(m, 0)];
    assert DoAll(r, steps) == DoAll(r1, [Call([])]) == Do(r1, Call([]));
  }

  /** No call finds the queue empty. */
  predicate NeverDry(r: Run, steps: seq<Step>)
    requires Sized(r.l)
    decreases |steps|
  {
    steps == [] || (!(steps[0].Call? && r.l.queue == []) && NeverDry(Do(r, steps[0]), steps[1..]))
  }

  /** What has been handed out stays where it is until a call finds the queue empty. */
  lemma {:induction false} HandedOutSurvives(r: Run, steps: seq<Step>, i: nat)
    requires Good(r) && i < r.taken && NeverDry(r, steps)
    ensures var r' := DoAll(r, steps);
            var s := r.slots[i];
            i < |r'.slots| && r'.slots[i] == s && s.at + |s.m.data| <= |r'.l.memory|
            && r'.l.memory[s.at..s.at + |s.m.data|] == s.m.data
    decreases |steps|
  {
    if steps == [] {
      SlotIntact(r.slots, r.l.memory, r.l.pos, i);
    } else {
      StepKeepsGood(r, steps[0]);
      HandedOutSurvives(Do(r, steps[0]), steps[1..], i);
    }
  }

  /** n calls in a row. */
  function Calls(n: nat, backlog: seq<bool>): seq<Step> {
    if n == 0 then [] else [Call(backlog)] + Calls(n - 1, backlog)
  }

  /** When nothing is queued, everything accepted has been delivered. */
  lemma DryIsDelivered(r: Run)
    requires Good(r) && r.l.queue == []
    ensures r.delivered == AllSeen(r.accepted)
  {
    assert r.slots[r.taken..] == [] && r.accepted[..|r.delivered|] == r.accepted;
  }

  lemma CallTakesOne(r: Run, backlog: seq<bool>)
    requires Good(r) && r.l.queue != []
    ensures var r1 := Do(r, Call(backlog));
            Good(r1) && |r1.l.queue| == |r.l.queue| - 1 && r1.accepted == r.accepted
  {
    StepKeepsGood(r, Call(backlog));
  }

  lemma FirstCall(r: Run, n: nat, backlog: seq<bool>)
    requires Sized(r.l) && n > 0
    ensures DoAll(r, Calls(n, backlog)) == DoAll(Do(r, Call(backlog)), Calls(n - 1, backlog))
  {
    assert Calls(n, backlog)[1..] == Calls(n - 1, backlog);
  }

  /** As many calls as events are queued deliver everything that was accepted. */
  lemma {:induction false} CallsDrain(r: Run, backlog: seq<bool>)
    requires Good(r)
    ensures var r' := DoAll(r, Calls(|r.l.queue|, backlog));
            r'.l.queue == [] && r'.accepted == r.accepted && r'.delivered == AllSeen(r.accepted)
    decreases |r.l.queue|
  {
    if r.l.queue == [] {
      DryIsDelivered(r);
    } else {
      CallTakesOne(r, backlog);
      FirstCall(r, |r.l.queue|, backlog);
      CallsDrain(Do(r, Call(backlog)), backlog);
    }
  }
}
