/** The backlog as it is programmed. */
module SendBacklog {
  import opened SendMachine

  class RuruSctp {
    var cache: seq<Message>
    var bHandShakeDone: bool
    /** What usrsctp has taken, and how often it was tried. */
    ghost var wire: seq<Message>
    var tries: nat
    const oracle: Oracle

    ghost function View(): Sctp
      reads this
    {
      Sctp(cache, bHandShakeDone, wire, tries)
    }

    constructor (oracle: Oracle)
      ensures View() == Sctp([], false, [], 0) && this.oracle == oracle
    {
      this.oracle := oracle;
      cache, bHandShakeDone, wire, tries := [], false, [], 0;
    }

    /** usrsctp_sendv and the error it leaves. */
    method UsrsctpSendv(m: Message) returns (r: SendResult)
      modifies this`wire, this`tries
      ensures r == oracle(old(tries)) && tries == old(tries) + 1
      ensures wire == if r.Sent? then old(wire) + [m] else old(wire)
    {
      r := oracle(tries);
      tries := tries + 1;
      if r.Sent? { wire := wire + [m]; }
    }

    method PushMsg2ClientCache(m: Message)
      modifies this`cache
      ensures cache == old(cache) + [m]
    {
      cache := cache + [m];
    }

    method SendSctpCacheData() returns (sendStatus: bool)
      modifies this
      ensures Outcome(View(), sendStatus) == SendCache(old(View()), oracle)
    {
      sendStatus := true;
      if !bHandShakeDone { return false; }
      while cache != []
        invariant bHandShakeDone && sendStatus
        invariant SendCache(View(), oracle) == SendCache(old(View()), oracle)
        decreases |cache|
      {
        var sendData := cache[0];
        var r := UsrsctpSendv(sendData);
        if r != Sent {
          if r != WouldBlock { bHandShakeDone := false; }
          sendStatus := false;
          break;
        }
        cache := cache[1..];
      }
    }

    method SendUsrSctpData(m: Message) returns (ok: bool)
      modifies this
      ensures Outcome(View(), ok) == SendData(old(View()), m, oracle)
    {
      CacheMovesToWire(View(), oracle);
      var flushed := SendSctpCacheData();
      if !flushed {
        PushMsg2ClientCache(m);
        return false;
      }
      if bHandShakeDone {
        var r := UsrsctpSendv(m);
        if r != Sent {
          if r == WouldBlock { PushMsg2ClientCache(m); } else { bHandShakeDone := false; }
          return false;
        }
      }
      ok := true;
    }

    /** accepted says whether usrsctp_accept returns a socket. */
    method RecvUsrSctpData(accepted: bool)
      modifies this`bHandShakeDone
      ensures View() == Packet(old(View()), accepted)
    {
      if !bHandShakeDone {
        if accepted { bHandShakeDone := true; }
      }
    }
  }
}
