/** The specification functions of one endpoint: what each handler of src/tcp/ makes of a connection
    record, and what one received segment or one console command makes of the whole endpoint.
    Module TcpEndpoint proves the code over mutable records equal to these. */
module TcpSpec {
  import opened SeqArith
  import opened TcpTypes

  const WND: u16 := 64240
  const TABLE_CAPACITY: nat := 128
  const U64: int := 0x1_0000_0000_0000_0000

  // ----- transmission (src/tcp/tcp.c:166-202) -----

  function Stamped(c: Conn, size: nat): Conn {
    c.(tcp := c.tcp.(sentSeq := c.snd.nxt, recvAck := c.rcv.nxt, dataOff := 0x50),
       ip := c.ip.(versionIhl := 0x45, totalLength := (40 + size) % 0x1_0000, packetId := (c.ip.packetId + 1) % 0x1_0000,
                   fragmentOffset := 0x4000, ttl := 64, proto := 6))
  }

  function TxPacket(c: Conn, data: Bytes): Packet {
    var d := Stamped(c, |data|);
    Packet(d.ip, d.tcp, data, c.payload[..if |data| <= PAYLOAD_SIZE then |data| else PAYLOAD_SIZE])
  }

  function CountSyn(c: Conn): Conn {
    if c.tcp.flags.syn then
      c.(snd := c.snd.(nxt := Add32(c.snd.nxt, 1)), tcp := c.tcp.(flags := c.tcp.flags.(syn := false)))
    else c
  }

  function CountFin(c: Conn): Conn {
    if c.tcp.flags.fin then
      c.(snd := c.snd.(nxt := Add32(c.snd.nxt, 1)), tcp := c.tcp.(flags := c.tcp.flags.(fin := false)))
    else c
  }

  function Tx(c: Conn, size: nat): Conn {
    CountFin(CountSyn(Stamped(c, size)))
  }

  // ----- handlers -----

  /** What becomes of the table entry. */
  datatype Fate = Stays | Removed | RemovedAndFreed

  /** A handler's effect on its connection, the packets it sends and the bytes it prints.
      `established` says that `stats.connection_count` was incremented. */
  datatype Reply = Reply(conn: Conn, sent: seq<Packet>, printed: seq<Bytes>, fate: Fate, established: bool)

  function Quiet(c: Conn): Reply { Reply(c, [], [], Stays, false) }

  function Sending(c: Conn, data: Bytes): Reply { Reply(Tx(c, |data|), [TxPacket(c, data)], [], Stays, false) }

  function WithFlags(c: Conn, f: Flags): Conn { c.(tcp := c.tcp.(flags := f)) }

  function WithRcvNxt(c: Conn, n: u32): Conn { c.(rcv := c.rcv.(nxt := n)) }

  function WithSndNxt(c: Conn, n: u32): Conn { c.(snd := c.snd.(nxt := n)) }

  predicate AckOk(c: Conn, ackn: u32) { AckAcceptable(c.snd.una, c.snd.nxt, ackn) }

  predicate SegmentOk(c: Conn, s: Segment) { SegmentCheck(c.rcv.nxt, c.rcv.wnd, |s.data|, s.seqn) }

  /** The header fields both openings fill in (src/tcp/tcp_listen.c:33-39, src/tcp/tcp.c:266-272). */
  function Headers(c: Conn, q: Quad, f: Flags): Conn {
    c.(ip := c.ip.(src := q.dip, dst := q.sip),
       tcp := c.tcp.(srcPort := q.dport, dstPort := q.sport, sentSeq := 0, rxWin := WND, flags := f))
  }

  /** The record `handle_tcp_listen` fills in, before transmission; `mem` is the block's old content. */
  function ListenConn(q: Quad, s: Segment, mem: Conn): Conn {
    Headers(mem.(q := q, state := SYN_RECV,
                 snd := SendSpace(0, 0, WND, false, 0, 0, mem.snd.iss),
                 rcv := RecvSpace(Add32(s.seqn, 1), s.win, false, s.seqn)), q, SYN_ACK)
  }

  function HandleSynRecv(c: Conn, s: Segment): Reply {
    if !SegmentOk(c, s) then
      if s.flags.syn then
        Sending(WithFlags(WithSndNxt(c, Sub32(c.snd.nxt, 1)), c.tcp.flags.(syn := true)), s.data)
      else Quiet(c)
    else if AckOk(c, s.ackn) then Quiet(c.(state := ESTABLISHED)).(established := true)
    else Quiet(c)
  }

  function HandleSynSent(c: Conn, s: Segment): Reply {
    var d := WithRcvNxt(c, s.seqn);
    if SegmentCheck(d.rcv.nxt, d.rcv.wnd, 0, s.seqn) then
      var est := if AckOk(d, s.ackn) then d.(state := ESTABLISHED, snd := d.snd.(una := Add32(s.ackn, 1))) else d;
      Sending(WithRcvNxt(WithFlags(est, ACK), Add32(s.seqn, 1)), s.data)
    else Quiet(d)
  }

  function HandleEstablish(c: Conn, s: Segment): Reply {
    if !SegmentOk(c, s) then Quiet(c)
    else if s.flags.fin then
      var r := Sending(WithFlags(WithRcvNxt(c.(state := CLOSE_WAIT), Add32(s.seqn, 1)), FIN_ACK), s.data);
      r.(conn := r.conn.(state := LAST_ACK))
    else if |s.data| == 0 then Quiet(WithSndNxt(c, s.ackn))
    else
      Sending(WithSndNxt(WithRcvNxt(WithFlags(c, ACK), Add32(s.seqn, |s.data|)), s.ackn), []).(printed := [s.data])
  }

  function HandleLastAck(c: Conn, s: Segment): Reply {
    Quiet(c.(state := CLOSE)).(fate := RemovedAndFreed)
  }

  function HandleFinWait1(c: Conn, s: Segment): Reply {
    if SegmentOk(c, s) && AckOk(c, s.ackn) then
      Sending(WithRcvNxt(WithFlags(c.(state := FIN_WAIT2), ACK), Add32(s.seqn, 1)), []).(fate := Removed)
    else Quiet(c)
  }

  function HandleFinWait2(c: Conn, s: Segment): Reply {
    if SegmentOk(c, s) then Sending(WithRcvNxt(WithFlags(c, ACK), Add32(s.seqn, 1)), s.data).(fate := Removed)
    else Quiet(c)
  }

  /** The dispatch of src/tcp/tcp.c:90-114. */
  function Handle(c: Conn, s: Segment): Reply {
    match c.state
    case SYN_RECV => HandleSynRecv(c, s)
    case ESTABLISHED => HandleEstablish(c, s)
    case LAST_ACK => HandleLastAck(c, s)
    case SYN_SENT => HandleSynSent(c, s)
    case FIN_WAIT1 => HandleFinWait1(c, s)
    case FIN_WAIT2 => HandleFinWait2(c, s)
    case _ => Quiet(c)
  }

  /** The record `active_connect` fills in, before transmission. */
  function ConnectConn(q: Quad, mem: Conn): Conn {
    Headers(mem.(q := q, state := SYN_SENT,
                 snd := SendSpace(0, 0, WND, false, 0, 0, 0),
                 rcv := RecvSpace(0, WND, false, 0)), q, SYN)
  }

  function ActiveClose(c: Conn): Reply {
    var r := Sending(WithFlags(c, FIN_ACK), []);
    r.(conn := r.conn.(state := FIN_WAIT1))
  }

  function ActiveSend(c: Conn, data: Bytes): Reply
    requires |data| <= PAYLOAD_SIZE
  {
    Sending(WithFlags(c, PSH_ACK).(payload := data + c.payload[|data|..]), data)
  }

  // ----- the endpoint -----

  /** One call of `print_data`. */
  datatype Print = Print(q: Quad, data: Bytes)

  /** Where every block handed out by `rte_malloc` has gone. */
  datatype Ledger = Ledger(mallocs: nat, freed: nat, removed: nat, refused: nat)

  datatype Endpoint = Endpoint(nicIp: u32, table: map<Quad, Conn>, connectionCount: nat,
                               sent: seq<Packet>, printed: seq<Print>, ledger: Ledger)

  function EmptyEndpoint(nicIp: u32): Endpoint { Endpoint(nicIp, map[], 0, [], [], Ledger(0, 0, 0, 0)) }

  datatype Event =
    | Receive(s: Segment, mem: Conn)
    | Connect(dip: u32, dport: u16, sport: u16, mem: Conn)
    | Close(q: Quad)
    | Send(q: Quad, data: Bytes)

  function Prints(q: Quad, ds: seq<Bytes>): seq<Print> {
    if ds == [] then [] else [Print(q, ds[0])] + Prints(q, ds[1..])
  }

  /** A handler ran on the entry of `q`. */
  function Apply(e: Endpoint, q: Quad, r: Reply): Endpoint {
    e.(table := if r.fate == Stays then e.table[q := r.conn] else e.table - {q},
       connectionCount := if r.established then (e.connectionCount + 1) % U64 else e.connectionCount,
       sent := e.sent + r.sent,
       printed := e.printed + Prints(q, r.printed),
       ledger := e.ledger.(removed := if r.fate == Removed then e.ledger.removed + 1 else e.ledger.removed,
                           freed := if r.fate == RemovedAndFreed then e.ledger.freed + 1 else e.ledger.freed))
  }

  /** A fresh block is offered to the table, which refuses it when it is full; neither caller looks
      at the result of `rte_hash_add_key_data`. */
  function Enter(e: Endpoint, q: Quad, c: Conn, p: Packet): Endpoint {
    e.(sent := e.sent + [p],
       table := if |e.table| < TABLE_CAPACITY then e.table[q := c] else e.table,
       ledger := e.ledger.(mallocs := e.ledger.mallocs + 1,
                           refused := if |e.table| < TABLE_CAPACITY then e.ledger.refused else e.ledger.refused + 1))
  }

  /** The record `c` was filled in and transmitted once. */
  function Open(e: Endpoint, q: Quad, c: Conn, data: Bytes): Endpoint {
    Enter(e, q, Tx(c, |data|), TxPacket(c, data))
  }

  function Rx(e: Endpoint, s: Segment, mem: Conn): Endpoint {
    if s.q.dip != e.nicIp then e
    else if s.q in e.table then Apply(e, s.q, Handle(e.table[s.q], s))
    else if s.flags == SYN then Open(e, s.q, ListenConn(s.q, s, mem), s.data)
    else e
  }

  function ActiveConnect(e: Endpoint, dip: u32, dport: u16, sport: u16, mem: Conn): Endpoint {
    var q := Quad(dip, dport, e.nicIp, sport);
    if q in e.table then e else Open(e, q, ConnectConn(q, mem), [])
  }

  /** `char payload[100]` bounds what `active_send_data` may be given. */
  predicate Allowed(ev: Event) { ev.Send? ==> |ev.data| <= PAYLOAD_SIZE }

  function Step(e: Endpoint, ev: Event): Endpoint
    requires Allowed(ev)
  {
    match ev
    case Receive(s, mem) => Rx(e, s, mem)
    case Connect(dip, dport, sport, mem) => ActiveConnect(e, dip, dport, sport, mem)
    case Close(q) => if q in e.table then Apply(e, q, ActiveClose(e.table[q])) else e
    case Send(q, data) => if q in e.table then Apply(e, q, ActiveSend(e.table[q], data)) else e
  }

  predicate AllAllowed(evs: seq<Event>) { forall i :: 0 <= i < |evs| ==> Allowed(evs[i]) }

  /** A run: the events in order, whatever the burst boundaries. */
  function Run(e: Endpoint, evs: seq<Event>): Endpoint
    requires AllAllowed(evs)
  {
    if evs == [] then e else Step(Run(e, evs[..|evs| - 1]), evs[|evs| - 1])
  }

  lemma RunSnoc(e: Endpoint, evs: seq<Event>, ev: Event)
    requires AllAllowed(evs) && Allowed(ev)
    ensures AllAllowed(evs + [ev]) && Run(e, evs + [ev]) == Step(Run(e, evs), ev)
  {
    assert (evs + [ev])[..|evs|] == evs;
  }

  /** A run may be cut anywhere: bursts and the order of bookkeeping between them leave no trace. */
  lemma {:induction false} RunConcat(e: Endpoint, a: seq<Event>, b: seq<Event>)
    requires AllAllowed(a) && AllAllowed(b)
    ensures AllAllowed(a + b) && Run(e, a + b) == Run(Run(e, a), b)
  {
    if b == [] {
      assert a + b == a;
    } else {
      var n := |b| - 1;
      RunConcat(e, a, b[..n]);
      RunSnoc(e, a + b[..n], b[n]);
      assert a + b == a + b[..n] + [b[n]];
    }
  }
}
