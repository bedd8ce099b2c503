/** The raw REP socket and the REP socket as objects that change step by step. */
module RoutingSockets {
  import opened Bytes
  import opened Wire
  import opened Wrappers
  import opened P = Req
  import opened Routing

  /** What the fair queue of the pipes has: nothing, or a message with its pipe. */
  datatype Incoming = Nothing | From(pipe: Pipe, raw: Raw)

  predicate Known(r: Router, i: Incoming) { i.From? ==> i.pipe in r.keys }

  /** Nothing to receive, and a message that is dropped, look the same to the caller. */
  function NextMessage(r: Router, ttl: int, i: Incoming): Option<Msg>
    requires Known(r, i)
  {
    match i
    case Nothing => None
    case From(pipe, raw) => XrepRecv(r, ttl, pipe, raw)
  }

  class XRep {
    var peers: map<uint32, Peer>
    var keys: map<Pipe, uint32>
    var nextKey: uint32
    var maxTtl: int

    constructor (first: uint32, ttl: int)
      ensures Table() == Router(map[], map[], first) && RouterValid(Table()) && maxTtl == ttl
    {
      peers, keys, nextKey, maxTtl := map[], map[], first, ttl;
    }

    function Table(): Router
      reads this
    {
      Router(peers, keys, nextKey)
    }

    method Add(p: Pipe)
      requires RouterValid(Table()) && CanChange(Table(), Joins(p))
      modifies `peers, `keys, `nextKey
      ensures Table() == Changed(old(Table()), Joins(p)) && RouterValid(Table())
      ensures var key := old(nextKey) % TOP_BIT;
              keys == old(keys)[p := key] && peers == old(peers)[key := Peer(p, false)]
      ensures nextKey == (old(nextKey) + 1) % U32
    {
      ChangedValid(Table(), Joins(p));
      var key := ClearTopBit(nextKey);
      assert key !in peers;
      peers := peers[key := Peer(p, false)];
      keys := keys[p := key];
      nextKey := (nextKey + 1) % U32;
    }

    method Remove(p: Pipe)
      requires RouterValid(Table()) && CanChange(Table(), Leaves(p))
      modifies `peers, `keys
      ensures Table() == Changed(old(Table()), Leaves(p)) && RouterValid(Table())
      ensures keys == old(keys) - {p} && peers == old(peers) - {old(keys)[p]}
    {
      ChangedValid(Table(), Leaves(p));
      peers := peers - {keys[p]};
      keys := keys - {p};
    }

    method Out(p: Pipe)
      requires RouterValid(Table()) && CanChange(Table(), Ready(p))
      modifies `peers
      ensures Table() == Changed(old(Table()), Ready(p)) && RouterValid(Table())
      ensures CanTake(Table(), p)
      ensures forall k | k in peers && k != keys[p] :: k in old(peers) && peers[k] == old(peers)[k]
    {
      ChangedValid(Table(), Ready(p));
      peers := peers[keys[p] := peers[keys[p]].(out := true)];
    }

    /** `release` is the pipe's answer to the message: it is busy from now on. */
    method Send(msg: Msg, release: bool) returns (sent: Option<(Pipe, Msg)>)
      requires RouterValid(Table())
      modifies `peers
      ensures sent == XrepSend(old(Table()), msg) && RouterValid(Table())
      ensures Table() == if sent.Some? && release then Changed(old(Table()), Busy(sent.value.0)) else old(Table())
      ensures sent.Some? ==> old(CanTake(Table(), sent.value.0)) && (CanTake(Table(), sent.value.0) <==> !release)
      ensures forall k | k in peers && (sent.None? || k != Getl(msg.header)) ::
                k in old(peers) && peers[k] == old(peers)[k]
    {
      if |msg.header| < 4 { return None; }
      var key := Getl(msg.header);
      var header := msg.header[4..];
      if key !in peers || !peers[key].out { return None; }
      sent := Some((peers[key].pipe, Msg(header, msg.body)));
      if release {
        ChangedValid(Table(), Busy(peers[key].pipe));
        peers := peers[key := peers[key].(out := false)];
      }
    }

    method Recv(i: Incoming) returns (msg: Option<Msg>)
      requires Known(Table(), i)
      ensures msg == NextMessage(Table(), maxTtl, i)
    {
      if i == Nothing { return None; }
      var From(pipe, raw) := i;
      var sphdr, body;
      match raw {
        case Parsed(h, b) => sphdr, body := h, b;
        case Unparsed(bytes) =>
          var n := 0;
          while true
            invariant 0 <= n && Bottom(bytes, n) == Bottom(bytes, 0)
            decreases |bytes| - 4 * n
          {
            if (n + 1) * 4 > |bytes| { return None; }
            if HasTopBit(Getl(bytes[4 * n..])) { break; }
            n := n + 1;
          }
          n := n + 1;
          if n > maxTtl { return None; }
          sphdr, body := bytes[..4 * n], bytes[4 * n..];
      }
      msg := Some(Msg(Putl(keys[pipe]) + sphdr, body));
    }
  }

  datatype SendResult = NotNow | Handed(sent: Option<(Pipe, Msg)>)

  /** The REP socket: the backtrace of the request being processed, if there is one. */
  class Rep {
    const xrep: XRep
    var backtrace: Option<Buf>

    constructor (x: XRep)
      ensures xrep == x && backtrace == None
    {
      xrep, backtrace := x, None;
    }

    /** A request being processed already is cancelled first, whatever arrives, and even
        if nothing does. */
    method Recv(i: Incoming) returns (body: Option<Buf>)
      requires Known(xrep.Table(), i)
      modifies this
      ensures var msg := NextMessage(xrep.Table(), xrep.maxTtl, i);
              && body == (if msg.Some? then Some(msg.value.body) else None)
              && backtrace == (if msg.Some? then Some(msg.value.header) else None)
    {
      backtrace := None;
      var msg := xrep.Recv(i);
      if msg.None? { return None; }
      backtrace := Some(msg.value.header);
      body := Some(msg.value.body);
    }

    /** A reply goes where the request came from, once. */
    method Send(body: Buf, release: bool) returns (r: SendResult)
      requires RouterValid(xrep.Table())
      modifies this, xrep`peers
      ensures backtrace == None && RouterValid(xrep.Table())
      ensures r == if old(backtrace).None? then NotNow
                   else Handed(XrepSend(old(xrep.Table()), Msg(old(backtrace).value, body)))
      ensures xrep.Table() == if r.Handed? && r.sent.Some? && release
                              then Changed(old(xrep.Table()), Busy(r.sent.value.0)) else old(xrep.Table())
    {
      if backtrace == None { return NotNow; }
      var msg := Msg(backtrace.value, body);
      backtrace := None;
      var sent := xrep.Send(msg, release);
      r := Handed(sent);
    }
  }
}
