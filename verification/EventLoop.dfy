/** The loop as it is programmed: an arena, a queue, and the count of calls. */
module EventLoop {
  import opened Bytes
  import opened EventMachine

  class RuruLoop {
    const memory: array<byte>
    var pos: nat
    var queue: seq<Event>
    var count: nat

    ghost predicate Valid()
      reads this`pos
    {
      memory.Length == CAPACITY && pos <= CAPACITY
    }

    ghost function View(): (l: LoopState)
      reads this, memory
    {
      LoopState(memory[..], pos, queue, count)
    }

    constructor (memory: array<byte>)
      requires memory.Length == CAPACITY
      ensures Valid() && this.memory == memory && View() == Start(memory[..])
    {
      this.memory := memory;
      pos, queue, count := 0, [], 0;
    }

    method ArenaAlloc(blockSize: int) returns (at: Option<nat>)
      requires Valid()
      modifies this`pos
      ensures Valid() && at == Alloc(old(View()), blockSize)
      ensures pos == if at.Some? then old(pos) + blockSize else old(pos)
    {
      if blockSize <= 0 { return None; }
      var remain := CAPACITY - pos;
      if remain < blockSize { return None; }
      at := Some(pos);
      pos := pos + blockSize;
    }

    /** memcpy into the arena. */
    method CopyIn(at: nat, data: seq<byte>)
      requires at + |data| <= memory.Length
      modifies memory
      ensures memory[..] == old(memory[..at]) + data + old(memory[at + |data|..])
    {
      var i := 0;
      while i < |data|
        invariant i <= |data|
        invariant forall k :: at + i <= k < memory.Length ==> memory[k] == old(memory[k])
        invariant memory[..at + i] == old(memory[..at]) + data[..i]
      {
        memory[at + i] := data[i];
        assert data[..i + 1] == data[..i] + [data[i]];
        i := i + 1;
      }
      assert data[..i] == data;
      assert memory[at + i..] == old(memory[at + i..]);
      assert memory[..] == memory[..at + i] + memory[at + i..];
    }

    /** The length fits ArenaAlloc's 32-bit parameter. */
    method PushClientRecvData(m: Message)
      requires Valid() && |m.data| <= INT_MAX
      modifies this`pos, this`queue, memory
      ensures Valid() && View() == Receive(old(View()), m)
    {
      var at := ArenaAlloc(|m.data|);
      if at.None? { return; }
      CopyIn(at.value, m.data);
      queue := queue + [Event(RecvClientData, m.client, at.value, |m.data| % 0x1_0000, m.sid, m.ssn, m.tsn)];
    }

    method PushHeartBeat(client: nat)
      requires Valid()
      modifies this`queue
      ensures Valid() && View() == Push(old(View()), PlainEvent(HeartBeat, client))
    {
      queue := queue + [PlainEvent(HeartBeat, client)];
    }

    method UpdateEvent() returns (evt: Option<Event>)
      requires Valid()
      modifies this`pos, this`queue
      ensures Valid()
      ensures if old(queue) == [] then evt == None && View() == old(View()).(pos := 0)
              else evt == Some(old(queue)[0]) && View() == old(View()).(queue := old(queue)[1..])
    {
      if queue != [] {
        evt := Some(queue[0]);
        queue := queue[1..];
        return;
      }
      pos := 0;
      evt := None;
    }

    /** backlog tells which clients' caches are not empty. */
    method ScanClientCacheData(backlog: seq<bool>) returns (haveData: bool)
      requires Valid()
      modifies this`queue, this`count
      ensures Valid() && View() == Scan(old(View()), backlog)
      ensures haveData <==> |queue| > old(|queue|)
    {
      haveData := false;
      count := count + 1;
      assert memory[..] == old(memory[..]);
      if (count - 1) % ROLL != 0 {
        assert queue + [] == queue;
        return;
      }
      var i := 0;
      ghost var goal := queue + CacheEvents(backlog, 0);
      while i < |backlog|
        invariant i <= |backlog| && |queue| >= old(|queue|) && count == old(count) + 1
        invariant queue + CacheEvents(backlog, i) == goal
        invariant haveData <==> |queue| > old(|queue|)
      {
        if backlog[i] {
          queue := queue + [PlainEvent(SendCacheData, i)];
          haveData := true;
        }
        i := i + 1;
      }
      assert queue + [] == queue;
      assert memory[..] == old(memory[..]);
    }

    /** Without the packets epoll reports. */
    method Loop(backlog: seq<bool>) returns (haveData: bool, evt: Option<Event>)
      requires Valid()
      modifies this`pos, this`queue, this`count
      ensures Valid() && View() == CallLoop(old(View()), backlog)
      ensures evt == if old(queue) == [] then None else Some(old(queue)[0])
      ensures haveData <==> evt.Some? || queue != []
    {
      evt := UpdateEvent();
      if evt.Some? { return true, evt; }
      haveData := ScanClientCacheData(backlog);
    }
  }
}
