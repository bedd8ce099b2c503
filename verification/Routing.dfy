/** How a request finds its way through a chain of forwarding hops to a REP socket,
    and how the reply finds its way back. Each hop is a raw REP socket, which pushes
    the key of the incoming pipe on the header and later pops it, and a raw REQ
    socket, which passes messages on. Between sockets header and body travel as one. */
module Routing {
  import opened Bytes
  import opened Wire
  import opened Wrappers
  import opened Req

  datatype Peer = Peer(pipe: Pipe, out: bool)

  /** The raw REP socket's table of pipes, from key to pipe and from pipe to key. */
  datatype Router = Router(peers: map<uint32, Peer>, keys: map<Pipe, uint32>, nextKey: uint32)

  predicate RouterValid(r: Router) {
    && (forall k | k in r.peers :: !HasTopBit(k) && r.peers[k].pipe in r.keys && r.keys[r.peers[k].pipe] == k)
    && (forall p | p in r.keys :: r.keys[p] in r.peers && r.peers[r.keys[p]].pipe == p)
  }

  // ----- one socket -----

  /** The number of words up to and including the bottom of the stack, counting on
      from word `i`; none if the data ends first. */
  function Bottom(data: Buf, i: nat): (n: Option<nat>)
    ensures n.Some? ==> i < n.value && 4 * n.value <= |data|
    decreases |data| - 4 * i
  {
    if 4 * (i + 1) > |data| then None
    else if HasTopBit(Getl(data[4 * i..])) then Some(i + 1)
    else Bottom(data, i + 1)
  }

  /** `nn_xrep_recv` on a message from `pipe`; none stands for a dropped message. */
  function XrepRecv(r: Router, ttl: int, pipe: Pipe, raw: Raw): Option<Msg>
    requires pipe in r.keys
  {
    var parsed := match raw
      case Parsed(sphdr, rest) => Some(Msg(sphdr, rest))
      case Unparsed(bytes) =>
        match Bottom(bytes, 0)
        case None => None
        case Some(n) => if n > ttl then None else Some(Msg(bytes[..4 * n], bytes[4 * n..]));
    if parsed.None? then None
    else Some(Msg(Putl(r.keys[pipe]) + parsed.value.header, parsed.value.body))
  }

  /** `nn_xrep_send`: the pipe the message goes to, and what goes; none if dropped. */
  function XrepSend(r: Router, msg: Msg): Option<(Pipe, Msg)> {
    if |msg.header| < 4 then None
    else
      var key := Getl(msg.header);
      if key !in r.peers || !r.peers[key].out then None
      else Some((r.peers[key].pipe, Msg(msg.header[4..], msg.body)))
  }

  /** `nn_xreq_recv`. */
  function XreqRecv(raw: Raw): Option<Msg> {
    if Short(raw) then None else Some(Msg(HeaderOf(raw), BodyOf(raw)))
  }

  /** What arrives at the other end of a pipe. */
  function Carry(msg: Msg): Raw { Unparsed(msg.header + msg.body) }

  // ----- a chain of hops -----

  /** A hop on the way of a request: the pipe it comes in on, the table then, and
      the table when the reply comes back. */
  datatype Hop = Hop(router: Router, pipe: Pipe, ttl: int, later: Router)

  predicate HopValid(h: Hop) {
    h.pipe in h.router.keys && RouterValid(h.router)
  }

  predicate ChainValid(hops: seq<Hop>) {
    forall h | h in hops :: HopValid(h)
  }

  function KeyOf(h: Hop): uint32
    requires HopValid(h)
  {
    h.router.keys[h.pipe]
  }

  /** The request through all the hops, the last of which is the REP socket. */
  function Forward(hops: seq<Hop>, msg: Msg): Option<Msg>
    requires ChainValid(hops)
    decreases |hops|
  {
    if hops == [] then Some(msg)
    else
      assert HopValid(hops[0]);
      match XrepRecv(hops[0].router, hops[0].ttl, hops[0].pipe, Carry(msg))
      case None => None
      case Some(m) => Forward(hops[1..], m)
  }

  /** The reply back through the hops, last hop first: the pipes it takes, and what
      the requester receives. */
  function Back(hops: seq<Hop>, msg: Msg): Option<(seq<Pipe>, Msg)>
    decreases |hops|
  {
    if hops == [] then Some(([], msg))
    else
      match XrepSend(hops[|hops| - 1].later, msg)
      case None => None
      case Some(out) =>
        match XreqRecv(Carry(out.1))
        case None => None
        case Some(m) =>
          match Back(hops[..|hops| - 1], m)
          case None => None
          case Some(end) => Some(([out.0] + end.0, end.1))
  }

  /** The header after the hops have pushed their keys. */
  function Stack(hops: seq<Hop>, header: Buf): Buf
    requires ChainValid(hops)
    decreases |hops|
  {
    if hops == [] then header
    else
      var last := hops[|hops| - 1];
      Putl(KeyOf(last)) + Stack(hops[..|hops| - 1], header)
  }

  /** The incoming pipes, last hop first. */
  function PipesBack(hops: seq<Hop>): seq<Pipe>
    decreases |hops|
  {
    if hops == [] then [] else [hops[|hops| - 1].pipe] + PipesBack(hops[..|hops| - 1])
  }

  // ----- headers -----

  /** A header of `n` words of which exactly the last has the top bit set. */
  predicate Header(h: Buf, n: nat) {
    && n >= 1 && |h| == 4 * n
    && HasTopBit(Getl(h[4 * (n - 1)..]))
    && forall i | 0 <= i < n - 1 :: !HasTopBit(Getl(h[4 * i..]))
  }

  lemma GetlPrefix(a: Buf, b: Buf)
    requires |a| >= 4
    ensures Getl(a + b) == Getl(a)
  {
  }

  lemma WordAt(h: Buf, body: Buf, i: nat)
    requires 4 * i + 4 <= |h|
    ensures Getl((h + body)[4 * i..]) == Getl(h[4 * i..])
  {
    assert (h + body)[4 * i..] == h[4 * i..] + body;
    GetlPrefix(h[4 * i..], body);
  }

  /** Splitting finds the header again, whatever the body. */
  lemma {:induction false} SplitHeader(h: Buf, n: nat, body: Buf, i: nat)
    requires Header(h, n) && i < n
    ensures Bottom(h + body, i) == Some(n)
    decreases n - i
  {
    WordAt(h, body, i);
    if i < n - 1 { SplitHeader(h, n, body, i + 1); }
  }

  lemma PushHeader(key: uint32, h: Buf, n: nat)
    requires Header(h, n) && !HasTopBit(key)
    ensures Header(Putl(key) + h, n + 1)
  {
    var g := Putl(key) + h;
    GetlPutl(key, h);
    assert g[0..] == g;
    forall i | 1 <= i <= n ensures Getl(g[4 * i..]) == Getl(h[4 * (i - 1)..]) {
      assert g[4 * i..] == h[4 * (i - 1)..];
    }
    forall i | 0 <= i < n ensures !HasTopBit(Getl(g[4 * i..])) {
      if i > 0 { assert Getl(g[4 * i..]) == Getl(h[4 * (i - 1)..]); }
    }
    assert Getl(g[4 * n..]) == Getl(h[4 * (n - 1)..]);
  }

  /** The bottom of the stack is the first word with the top bit set; there is none if all
      whole words are without. */
  lemma {:induction false} BottomExact(data: Buf, i: nat)
    ensures match Bottom(data, i)
            case None => forall j: nat :: i <= j && 4 * j + 4 <= |data| ==> !HasTopBit(Getl(data[4 * j..]))
            case Some(n) =>
              && HasTopBit(Getl(data[4 * (n - 1)..]))
              && forall j: nat :: i <= j < n - 1 ==> !HasTopBit(Getl(data[4 * j..]))
    decreases |data| - 4 * i
  {
    if 4 * (i + 1) <= |data| && !HasTopBit(Getl(data[4 * i..])) { BottomExact(data, i + 1); }
  }

  lemma HeaderIs(data: Buf, n: nat)
    requires 1 <= n && 4 * n <= |data|
    ensures Header(data[..4 * n], n)
       <==> HasTopBit(Getl(data[4 * (n - 1)..])) && forall j: nat :: j < n - 1 ==> !HasTopBit(Getl(data[4 * j..]))
  {
    var h := data[..4 * n];
    forall j: nat | j < n ensures Getl(h[4 * j..]) == Getl(data[4 * j..]) {
      assert data == h + data[4 * n..];
      WordAt(h, data[4 * n..], j);
    }
  }

  ghost predicate Begins(data: Buf, n: nat) { 1 <= n && 4 * n <= |data| && Header(data[..4 * n], n) }

  /** Whatever arrives: it is taken if and only if it begins with a header of no more words
      than allowed, which is then split off behind the key of the pipe. A message whose
      header has been split off before is taken as it is. */
  lemma RecvExact(r: Router, ttl: int, pipe: Pipe, raw: Raw)
    requires pipe in r.keys
    ensures raw.Unparsed? ==> (XrepRecv(r, ttl, pipe, raw).Some? <==> exists n: nat :: n <= ttl && Begins(raw.bytes, n))
    ensures forall n: nat :: raw.Unparsed? && n <= ttl && Begins(raw.bytes, n) ==>
              XrepRecv(r, ttl, pipe, raw) == Some(Msg(Putl(r.keys[pipe]) + raw.bytes[..4 * n], raw.bytes[4 * n..]))
    ensures raw.Parsed? ==> XrepRecv(r, ttl, pipe, raw) == Some(Msg(Putl(r.keys[pipe]) + raw.sphdr, raw.rest))
  {
    if raw.Unparsed? {
      BottomExact(raw.bytes, 0);
      forall n: nat | Begins(raw.bytes, n) ensures Bottom(raw.bytes, 0) == Some(n) {
        SplitHeader(raw.bytes[..4 * n], n, raw.bytes[4 * n..], 0);
        assert raw.bytes[..4 * n] + raw.bytes[4 * n..] == raw.bytes;
      }
      match Bottom(raw.bytes, 0)
      case None =>
      case Some(n) => HeaderIs(raw.bytes, n); assert Begins(raw.bytes, n);
    }
  }

  // ----- forward -----

  predicate WithinTtl(hops: seq<Hop>, n: nat) {
    forall j | 0 <= j < |hops| :: n + j <= hops[j].ttl
  }

  lemma OneHop(h: Hop, header: Buf, n: nat, body: Buf)
    requires HopValid(h) && Header(header, n)
    ensures XrepRecv(h.router, h.ttl, h.pipe, Carry(Msg(header, body)))
         == if n <= h.ttl then Some(Msg(Putl(KeyOf(h)) + header, body)) else None
    ensures Header(Putl(KeyOf(h)) + header, n + 1)
  {
    SplitHeader(header, n, body, 0);
    assert (header + body)[..4 * n] == header && (header + body)[4 * n..] == body;
    PushHeader(KeyOf(h), header, n);
  }

  lemma {:induction false} StackFront(hops: seq<Hop>, header: Buf)
    requires ChainValid(hops) && hops != []
    ensures ChainValid(hops[1..])
    ensures Stack(hops, header) == Stack(hops[1..], Putl(KeyOf(hops[0])) + header)
    decreases |hops|
  {
    if |hops| > 1 {
      assert hops[1..][..|hops| - 2] == hops[..|hops| - 1][1..];
      StackFront(hops[..|hops| - 1], header);
    } else {
      assert hops[..0] == [] && hops[1..] == [];
    }
  }

  /** Exactly when a request arrives, and with which header. */
  lemma {:induction false} ForwardExact(hops: seq<Hop>, header: Buf, n: nat, body: Buf)
    requires ChainValid(hops) && Header(header, n)
    ensures Forward(hops, Msg(header, body))
         == if WithinTtl(hops, n) then Some(Msg(Stack(hops, header), body)) else None
    decreases |hops|
  {
    if hops != [] {
      OneHop(hops[0], header, n, body);
      StackFront(hops, header);
      ForwardExact(hops[1..], Putl(KeyOf(hops[0])) + header, n + 1, body);
      assert WithinTtl(hops, n) <==> n <= hops[0].ttl && WithinTtl(hops[1..], n + 1) by {
        if n <= hops[0].ttl && WithinTtl(hops[1..], n + 1) {
          forall j | 0 <= j < |hops| ensures n + j <= hops[j].ttl {
            if j > 0 { assert hops[j] == hops[1..][j - 1]; }
          }
        }
        if WithinTtl(hops, n) {
          forall j | 0 <= j < |hops| - 1 ensures n + 1 + j <= hops[1..][j].ttl { assert hops[1..][j] == hops[j + 1]; }
        }
      }
    }
  }

  // ----- back -----

  /** The pipe is still known by the same key, and can take a message. */
  predicate Open(h: Hop)
    requires HopValid(h)
  {
    KeyOf(h) in h.later.peers && h.later.peers[KeyOf(h)] == Peer(h.pipe, true)
  }

  /** Exactly when the reply retraces the way of the request, pipe by pipe. */
  lemma {:induction false} BackExact(hops: seq<Hop>, word: uint32, msg: Msg, body: Buf)
    requires ChainValid(hops)
    requires |msg.header| >= 4 && msg.header + msg.body == Stack(hops, Putl(word)) + body
    requires hops == [] ==> |msg.header| == 4
    ensures Back(hops, msg) == Some((PipesBack(hops), Msg(Putl(word), body)))
       <==> forall h | h in hops :: Open(h)
    decreases |hops|
  {
    if hops == [] {
      assert msg.header == (msg.header + msg.body)[..4] == Putl(word);
      assert msg.body == (msg.header + msg.body)[4..] == body;
    } else {
      BackStep(hops, word, msg, body);
    }
  }

  lemma {:induction false} BackStep(hops: seq<Hop>, word: uint32, msg: Msg, body: Buf)
    requires ChainValid(hops) && hops != []
    requires |msg.header| >= 4 && msg.header + msg.body == Stack(hops, Putl(word)) + body
    ensures Back(hops, msg) == Some((PipesBack(hops), Msg(Putl(word), body)))
       <==> forall h | h in hops :: Open(h)
    decreases |hops|, 0
  {
    var last, init := hops[|hops| - 1], hops[..|hops| - 1];
    var below := Stack(init, Putl(word)) + body;
    PopKey(KeyOf(last), msg, below, Stack(hops, Putl(word)) + body);
    StackLong(init, Putl(word));
    assert hops == init + [last] && last in hops;
    if Open(last) {
      var m := Msg(below[..4], below[4..]);
      BackExact(init, word, m, body);
      BackOpen(hops, msg, m, Msg(Putl(word), body));
    } else {
      BackClosed(hops, msg, Msg(Putl(word), body));
    }
  }

  lemma BackOpen(hops: seq<Hop>, msg: Msg, m: Msg, end: Msg)
    requires ChainValid(hops) && hops != [] && Open(hops[|hops| - 1])
    requires |msg.header| >= 4 && Getl(msg.header) == KeyOf(hops[|hops| - 1]) && |m.header| == 4
    requires msg.header[4..] + msg.body == m.header + m.body
    ensures var init := hops[..|hops| - 1];
            Back(hops, msg) == Some((PipesBack(hops), end)) <==> Back(init, m) == Some((PipesBack(init), end))
  {
    var last, init := hops[|hops| - 1], hops[..|hops| - 1];
    assert XrepSend(last.later, msg) == Some((last.pipe, Msg(msg.header[4..], msg.body)));
    assert (m.header + m.body)[..4] == m.header && (m.header + m.body)[4..] == m.body;
    assert XreqRecv(Carry(Msg(msg.header[4..], msg.body))) == Some(m);
    var back := Back(init, m);
    if back.Some? { SamePipes(last.pipe, back.value.0, PipesBack(init)); }
  }

  lemma BackClosed(hops: seq<Hop>, msg: Msg, end: Msg)
    requires ChainValid(hops) && hops != [] && !Open(hops[|hops| - 1])
    requires |msg.header| >= 4 && Getl(msg.header) == KeyOf(hops[|hops| - 1])
    ensures Back(hops, msg) != Some((PipesBack(hops), end))
  {
    assert PipesBack(hops)[0] == hops[|hops| - 1].pipe;
    var back := Back(hops, msg);
    if back.Some? { assert back.value.0[0] == XrepSend(hops[|hops| - 1].later, msg).value.0; }
  }

  lemma SamePipes(p: Pipe, a: seq<Pipe>, b: seq<Pipe>)
    ensures [p] + a == [p] + b <==> a == b
  {
    assert ([p] + a)[1..] == a && ([p] + b)[1..] == b;
  }

  lemma StackLong(hops: seq<Hop>, header: Buf)
    requires ChainValid(hops)
    ensures |Stack(hops, header)| == 4 * |hops| + |header|
    decreases |hops|
  {
    if hops != [] { StackLong(hops[..|hops| - 1], header); }
  }

  lemma PopKey(key: uint32, msg: Msg, below: Buf, whole: Buf)
    requires |msg.header| >= 4 && msg.header + msg.body == whole && whole == Putl(key) + below
    ensures Getl(msg.header) == key && msg.header[4..] + msg.body == below
  {
    GetlPrefix(msg.header, msg.body);
    GetlPutl(key, below);
    assert msg.header[4..] + msg.body == whole[4..];
  }

  // ----- there and back again -----

  /** For every chain of hops: the request arrives exactly when no hop finds more words
      than it allows; the reply sent with the stored backtrace comes back over the
      pipes the request came in on exactly when all of them are still open; and what
      the requester then receives passes for the answer to its request, intact. */
  lemma RoundTrip(hops: seq<Hop>, id: uint32, question: Buf, answer: Buf)
    requires ChainValid(hops) && hops != []
    ensures var there := Forward(hops, RequestFor(id, question));
            && (there.Some? <==> WithinTtl(hops, 1))
            && (there.Some? ==>
                 && there.value.body == question
                 && var back := Back(hops, Msg(there.value.header, answer));
                    back == Some((PipesBack(hops), RequestFor(id, answer))) <==> forall h | h in hops :: Open(h))
    ensures var raw := Carry(RequestFor(id, answer)); Answers(raw, id) && BodyOf(raw) == answer
  {
    var word := SetTopBit(id);
    GetlPutl(word, []);
    assert Putl(word) + [] == Putl(word);
    assert Header(Putl(word), 1);
    ForwardExact(hops, Putl(word), 1, question);
    StackLong(hops, Putl(word));
    BackExact(hops, word, Msg(Stack(hops, Putl(word)), answer), answer);
    var raw := Carry(RequestFor(id, answer));
    GetlPutl(word, answer);
    assert raw.bytes[..4] == Putl(word) && raw.bytes[4..] == answer;
  }

  // ----- the table of pipes over time -----

  datatype Change = Joins(pipe: Pipe) | Leaves(pipe: Pipe) | Ready(pipe: Pipe) | Busy(pipe: Pipe)

  /** A key in use must not be given out again. */
  predicate CanChange(r: Router, c: Change) {
    match c
    case Joins(p) => p !in r.keys && ClearTopBit(r.nextKey) !in r.peers
    case _ => c.pipe in r.keys
  }

  function Changed(r: Router, c: Change): Router
    requires RouterValid(r) && CanChange(r, c)
  {
    match c
    case Joins(p) =>
      var key := ClearTopBit(r.nextKey);
      Router(r.peers[key := Peer(p, false)], r.keys[p := key], (r.nextKey + 1) % U32)
    case Leaves(p) => r.(peers := r.peers - {r.keys[p]}, keys := r.keys - {p})
    case Ready(p) => r.(peers := r.peers[r.keys[p] := Peer(p, true)])
    case Busy(p) => r.(peers := r.peers[r.keys[p] := Peer(p, false)])
  }

  lemma ChangedValid(r: Router, c: Change)
    requires RouterValid(r) && CanChange(r, c)
    ensures RouterValid(Changed(r, c))
    ensures forall p | p in r.keys && c != Leaves(p) :: p in Changed(r, c).keys && Changed(r, c).keys[p] == r.keys[p]
  {
  }

  predicate CanRun(r: Router, cs: seq<Change>)
    requires RouterValid(r)
    decreases |cs|
  {
    cs == [] || (CanChange(r, cs[0]) && (ChangedValid(r, cs[0]); CanRun(Changed(r, cs[0]), cs[1..])))
  }

  function RunChanges(r: Router, cs: seq<Change>): Router
    requires RouterValid(r) && CanRun(r, cs)
    decreases |cs|
  {
    if cs == [] then r else ChangedValid(r, cs[0]); RunChanges(Changed(r, cs[0]), cs[1..])
  }

  /** Whatever pipes come and go in the meantime: a pipe that stays keeps its key, its
      key leads to it alone, and the way back is open as soon as it is writable. */
  lemma {:induction false} KeyLasts(r: Router, cs: seq<Change>, p: Pipe)
    requires RouterValid(r) && CanRun(r, cs) && p in r.keys && Leaves(p) !in cs
    ensures var later := RunChanges(r, cs);
            && RouterValid(later) && p in later.keys && later.keys[p] == r.keys[p]
            && later.peers[r.keys[p]].pipe == p
            && forall ttl: int :: Open(Hop(r, p, ttl, later)) <==> later.peers[r.keys[p]].out
    decreases |cs|
  {
    if cs != [] {
      ChangedValid(r, cs[0]);
      KeyLasts(Changed(r, cs[0]), cs[1..], p);
    }
  }

  /** What the history says of pipe `p`: whether it is there, given that it was or was not. */
  function There(cs: seq<Change>, p: Pipe, before: bool): bool {
    if cs == [] then before
    else
      match cs[|cs| - 1]
      case Joins(q) => if q == p then true else There(cs[..|cs| - 1], p, before)
      case Leaves(q) => if q == p then false else There(cs[..|cs| - 1], p, before)
      case _ => There(cs[..|cs| - 1], p, before)
  }

  /** Whether it can take a message: the last of its arrivals, and of the times it became
      ready and busy, was the becoming ready. */
  function Writable(cs: seq<Change>, p: Pipe, before: bool): bool {
    if cs == [] then before
    else
      match cs[|cs| - 1]
      case Joins(q) => if q == p then false else Writable(cs[..|cs| - 1], p, before)
      case Ready(q) => if q == p then true else Writable(cs[..|cs| - 1], p, before)
      case Busy(q) => if q == p then false else Writable(cs[..|cs| - 1], p, before)
      case Leaves(_) => Writable(cs[..|cs| - 1], p, before)
  }

  function Arrivals(cs: seq<Change>): nat {
    if cs == [] then 0 else Arrivals(cs[..|cs| - 1]) + if cs[|cs| - 1].Joins? then 1 else 0
  }

  predicate CanTake(r: Router, p: Pipe) { p in r.keys && r.keys[p] in r.peers && r.peers[r.keys[p]] == Peer(p, true) }

  /** The table says of pipe `p` what the history `cs` since table `r` says. */
  predicate Tells(r: Router, cs: seq<Change>, later: Router, p: Pipe) {
    && (p in later.keys <==> There(cs, p, p in r.keys))
    && (p in later.keys ==> (CanTake(later, p) <==> Writable(cs, p, CanTake(r, p))))
  }

  /** One change, seen from any pipe. */
  lemma ChangeSeen(r: Router, c: Change, p: Pipe)
    requires RouterValid(r) && CanChange(r, c)
    ensures Tells(r, [c], Changed(r, c), p)
  {
    ChangedValid(r, c);
    assert [c][..0] == [];
  }

  lemma {:induction false} ChangeFirst(cs: seq<Change>, p: Pipe, before: bool)
    requires cs != []
    ensures There(cs, p, before) == There(cs[1..], p, There([cs[0]], p, before))
    ensures Writable(cs, p, before) == Writable(cs[1..], p, Writable([cs[0]], p, before))
    ensures Arrivals(cs) == Arrivals([cs[0]]) + Arrivals(cs[1..])
    decreases |cs|
  {
    if |cs| == 1 {
      assert cs == [cs[0]] && cs[1..] == [];
    } else {
      assert cs[1..][..|cs| - 2] == cs[..|cs| - 1][1..];
      ChangeFirst(cs[..|cs| - 1], p, before);
    }
  }

  lemma {:induction false} WritableAway(cs: seq<Change>, p: Pipe, a: bool, b: bool)
    requires There(cs, p, false)
    ensures Writable(cs, p, a) == Writable(cs, p, b)
  {
    if cs != [] && cs[|cs| - 1] != Joins(p) { WritableAway(cs[..|cs| - 1], p, a, b); }
  }

  lemma TellsOn(r: Router, cs: seq<Change>, r1: Router, later: Router, p: Pipe)
    requires cs != [] && Tells(r, [cs[0]], r1, p) && Tells(r1, cs[1..], later, p)
    ensures Tells(r, cs, later, p)
  {
    ChangeFirst(cs, p, p in r.keys);
    ChangeFirst(cs, p, CanTake(r, p));
    if p !in r1.keys && There(cs[1..], p, false) {
      WritableAway(cs[1..], p, CanTake(r1, p), Writable([cs[0]], p, CanTake(r, p)));
    }
  }

  /** The table says, after any changes and for every pipe, what the history says: the pipe
      is there if it has joined since it left last, and it can take a message if it has
      become ready since it joined and was busy last. */
  lemma {:induction false} TableExact(r: Router, cs: seq<Change>, p: Pipe)
    requires RouterValid(r) && CanRun(r, cs)
    ensures RouterValid(RunChanges(r, cs)) && Tells(r, cs, RunChanges(r, cs), p)
    decreases |cs|
  {
    if cs != [] {
      ChangedValid(r, cs[0]);
      ChangeSeen(r, cs[0], p);
      TableExact(Changed(r, cs[0]), cs[1..], p);
      TellsOn(r, cs, Changed(r, cs[0]), RunChanges(r, cs), p);
    }
  }

  // ----- keys do not run out -----

  /** The key that is given out after `n` others. */
  function NthKey(first: uint32, n: nat): uint32 { (first + n) % TOP_BIT }

  /** All keys in use have been given out since the table was empty. */
  ghost predicate KeysFrom(r: Router, first: uint32, n: nat) {
    r.nextKey == (first + n) % U32 && forall k | k in r.peers :: exists j: nat :: j < n && NthKey(first, j) == k
  }

  lemma NextKeyIs(first: uint32, n: nat)
    ensures ClearTopBit((first + n) % U32) == NthKey(first, n)
    ensures ((first + n) % U32 + 1) % U32 == (first + n + 1) % U32
  {
  }

  lemma KeysDiffer(first: uint32, i: nat, j: nat)
    requires i < j < i + TOP_BIT
    ensures NthKey(first, i) != NthKey(first, j)
  {
  }

  lemma FreeKey(r: Router, first: uint32, n: nat)
    requires KeysFrom(r, first, n) && n < TOP_BIT
    ensures ClearTopBit(r.nextKey) == NthKey(first, n) && NthKey(first, n) !in r.peers
  {
    NextKeyIs(first, n);
    if NthKey(first, n) in r.peers {
      var j: nat :| j < n && NthKey(first, j) == NthKey(first, n);
      KeysDiffer(first, j, n);
    }
  }

  lemma KeyGiven(r: Router, p: Pipe, first: uint32, n: nat)
    requires RouterValid(r) && CanChange(r, Joins(p)) && KeysFrom(r, first, n)
    ensures KeysFrom(Changed(r, Joins(p)), first, n + 1)
    ensures Changed(r, Joins(p)).keys[p] == NthKey(first, n)
  {
    NextKeyIs(first, n);
    var r' := Changed(r, Joins(p));
    forall k | k in r'.peers ensures exists j: nat :: j < n + 1 && NthKey(first, j) == k {
      if k in r.peers {
        var j: nat :| j < n && NthKey(first, j) == k;
        assert j < n + 1;
      } else {
        assert NthKey(first, n) == k;
      }
    }
  }

  lemma KeysKept(r: Router, c: Change, first: uint32, n: nat)
    requires RouterValid(r) && CanChange(r, c) && !c.Joins? && KeysFrom(r, first, n)
    ensures KeysFrom(Changed(r, c), first, n)
  {
    assert forall k | k in Changed(r, c).peers :: k in r.peers;
  }

  lemma ArrivalsFirst(cs: seq<Change>)
    requires cs != []
    ensures Arrivals(cs) == (if cs[0].Joins? then 1 else 0) + Arrivals(cs[1..])
  {
    ChangeFirst(cs, 0, false);
    assert [cs[0]][..0] == [];
  }

  lemma KeysFromOne(r: Router, c: Change, first: uint32, n: nat, m: nat)
    requires RouterValid(r) && CanChange(r, c) && KeysFrom(r, first, n) && m == n + if c.Joins? then 1 else 0
    ensures RouterValid(Changed(r, c)) && KeysFrom(Changed(r, c), first, m)
  {
    ChangedValid(r, c);
    if c.Joins? { KeyGiven(r, c.pipe, first, n); } else { KeysKept(r, c, first, n); }
  }

  lemma {:induction false} KeysFromRun(r: Router, cs: seq<Change>, first: uint32, n: nat)
    requires RouterValid(r) && CanRun(r, cs) && KeysFrom(r, first, n)
    ensures RouterValid(RunChanges(r, cs)) && KeysFrom(RunChanges(r, cs), first, n + Arrivals(cs))
    decreases |cs|
  {
    if cs != [] {
      var m := n + if cs[0].Joins? then 1 else 0;
      KeysFromOne(r, cs[0], first, n, m);
      ArrivalsFirst(cs);
      KeysFromRun(Changed(r, cs[0]), cs[1..], first, m);
    }
  }

  /** From an empty table: keys are given out in order, and the assertion that the next one
      is free holds for the first 2^31 pipes, whichever of them have left. */
  lemma JoinSucceeds(first: uint32, cs: seq<Change>, p: Pipe)
    requires CanRun(Router(map[], map[], first), cs)
    ensures RouterValid(RunChanges(Router(map[], map[], first), cs))
    ensures var r := RunChanges(Router(map[], map[], first), cs);
            && (p !in r.keys && Arrivals(cs) < TOP_BIT ==> CanChange(r, Joins(p)))
            && (CanChange(r, Joins(p)) ==> Changed(r, Joins(p)).keys[p] == NthKey(first, Arrivals(cs)))
  {
    var r0 := Router(map[], map[], first);
    KeysFromRun(r0, cs, first, 0);
    var r, n := RunChanges(r0, cs), Arrivals(cs);
    if n < TOP_BIT { FreeKey(r, first, n); }
    if CanChange(r, Joins(p)) { KeyGiven(r, p, first, n); }
  }
}
