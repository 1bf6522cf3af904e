/** Two endpoints of this stack joined by lossless FIFO channels: one calls `active_connect`, the
    other listens; either may send while every earlier byte, in both directions, is acknowledged.
    Both endpoints may carry any other traffic in between. */
module Duplex {
  import opened SeqArith
  import opened TcpTypes
  import opened TcpSpec
  import opened TcpRuns
  import Frame

  // ----- one endpoint, seen through one flow -----

  /** The flow `q` is in the table in state `st` with the given sequence spaces. */
  predicate At(e: Endpoint, q: Quad, st: TcpState, una: u32, nxt: u32, rcv: u32) {
    && q in e.table && q.dip == e.nicIp
    && var c := e.table[q];
    && c.state == st && c.snd.una == una && c.snd.nxt == nxt && c.rcv.nxt == rcv && c.rcv.wnd == WND
    && HeadersReverse(q, c) && c.tcp.rxWin == WND
  }

  /** `p` travels the flow that its sender calls `q`. */
  predicate Carries(p: Packet, q: Quad, seqn: u32, ackn: u32, flags: Flags, data: Bytes) {
    && FlowOf(p) == q && p.tcp.sentSeq == seqn && p.tcp.recvAck == ackn && p.tcp.flags == flags
    && p.data == data && p.tcp.rxWin == WND && Frame.IsStamped(p)
  }

  /** The bytes of all calls of `print_data` for one flow. */
  function Heard(ps: seq<Print>, q: Quad): Bytes {
    if ps == [] then []
    else
      var n := |ps| - 1;
      Heard(ps[..n], q) + if ps[n].q == q then ps[n].data else []
  }

  lemma HeardSnoc(ps: seq<Print>, p: Print, q: Quad)
    ensures Heard(ps + [p], q) == Heard(ps, q) + if p.q == q then p.data else []
  {
    assert (ps + [p])[..|ps|] == ps;
  }

  /** From `e` to `f`, on the flow `q`: the packets sent and the bytes printed. */
  predicate Effect(e: Endpoint, f: Endpoint, q: Quad, sent: seq<Packet>, heard: Bytes) {
    f.nicIp == e.nicIp && f.sent == e.sent + sent && Heard(f.printed, q) == Heard(e.printed, q) + heard
  }

  lemma ApplyEffect(e: Endpoint, q: Quad, r: Reply)
    requires q in e.table && |r.printed| <= 1
    ensures Effect(e, Apply(e, q, r), q, r.sent, if r.printed == [] then [] else r.printed[0])
  {
    if r.printed == [] {
      assert e.printed + [] == e.printed;
    } else {
      assert Prints(q, r.printed) == [Print(q, r.printed[0])];
      HeardSnoc(e.printed, Print(q, r.printed[0]), q);
    }
  }

  // ----- what one event does to the flow -----

  /** The SYN goes out whether or not the table takes the entry. */
  lemma Connects(e: Endpoint, q: Quad, mem: Conn)
    requires q !in e.table && q.dip == e.nicIp
    ensures var f := ActiveConnect(e, q.sip, q.sport, q.dport, mem);
            (if |e.table| < TABLE_CAPACITY then At(f, q, SYN_SENT, 0, 1, 0) else f.table == e.table)
            && exists p :: Carries(p, q, 0, 0, SYN, []) && Effect(e, f, q, [p], [])
  {
    var c := ConnectConn(q, mem);
    assert Quad(q.sip, q.sport, e.nicIp, q.dport) == q;
    assert Add32(0, 1) == 1;
    assert Carries(TxPacket(c, []), q, 0, 0, SYN, []);
    assert Effect(e, ActiveConnect(e, q.sip, q.sport, q.dport, mem), q, [TxPacket(c, [])], []);
  }

  /** So does the SYN-ACK. */
  lemma Listens(e: Endpoint, s: Segment, mem: Conn)
    requires s.q !in e.table && s.q.dip == e.nicIp
    requires s.flags == SYN && s.seqn == 0 && s.win == WND && s.data == []
    ensures var f := Rx(e, s, mem);
            (if |e.table| < TABLE_CAPACITY then At(f, s.q, SYN_RECV, 0, 1, 1) else f.table == e.table)
            && exists p :: Carries(p, s.q, 0, 1, SYN_ACK, []) && Effect(e, f, s.q, [p], [])
  {
    var c := ListenConn(s.q, s, mem);
    assert Add32(0, 1) == 1;
    assert Carries(TxPacket(c, []), s.q, 0, 1, SYN_ACK, []);
    assert Effect(e, Rx(e, s, mem), s.q, [TxPacket(c, [])], []);
  }

  /** Anything but a bare SYN is dropped when its flow is unknown. */
  lemma Drops(e: Endpoint, s: Segment, mem: Conn)
    requires s.q !in e.table && s.flags != SYN
    ensures Rx(e, s, mem) == e
  {
  }

  lemma ActivelyEstablishes(e: Endpoint, s: Segment, mem: Conn)
    requires At(e, s.q, SYN_SENT, 0, 1, 0) && s.seqn == 0 && s.ackn == 1 && s.data == []
    ensures var f := Rx(e, s, mem);
            At(f, s.q, ESTABLISHED, 2, 1, 1)
            && exists p :: Carries(p, s.q, 1, 1, ACK, []) && Effect(e, f, s.q, [p], [])
  {
    var c := e.table[s.q];
    OpeningAcks(c, 1);
    SynSentCheckPasses(0, WND);
    assert Add32(1, 1) == 2 && Add32(0, 1) == 1;
    var d := WithRcvNxt(WithFlags(c.(state := ESTABLISHED, snd := c.snd.(una := 2)), ACK), 1);
    assert HandleSynSent(c, s) == Sending(d, []);
    assert Carries(TxPacket(d, []), s.q, 1, 1, ACK, []);
    ApplyEffect(e, s.q, Sending(d, []));
  }

  /** Any segment with data, and an empty one in sequence, establishes; its data is dropped. */
  lemma PassivelyEstablishes(e: Endpoint, s: Segment, mem: Conn)
    requires At(e, s.q, SYN_RECV, 0, 1, 1) && (s.data == [] ==> s.seqn == 1) && (s.ackn == 0 || s.ackn == 1)
    ensures var f := Rx(e, s, mem);
            At(f, s.q, ESTABLISHED, 0, 1, 1) && Effect(e, f, s.q, [], [])
  {
    var c := e.table[s.q];
    OpeningAcks(c, s.ackn);
    SynSentCheckPasses(1, WND);
    ApplyEffect(e, s.q, HandleSynRecv(c, s));
  }

  /** Any non-empty segment is delivered and acknowledged, whatever its sequence number. */
  lemma Delivers(e: Endpoint, s: Segment, mem: Conn, una: u32, nxt: u32, rcv: u32)
    requires At(e, s.q, ESTABLISHED, una, nxt, rcv) && s.data != [] && !s.flags.fin
    ensures var f, to := Rx(e, s, mem), Add32(s.seqn, |s.data|);
            At(f, s.q, ESTABLISHED, una, s.ackn, to)
            && exists p :: Carries(p, s.q, s.ackn, to, ACK, []) && Effect(e, f, s.q, [p], s.data)
  {
    var c := e.table[s.q];
    var d := WithSndNxt(WithRcvNxt(WithFlags(c, ACK), Add32(s.seqn, |s.data|)), s.ackn);
    assert HandleEstablish(c, s) == Sending(d, []).(printed := [s.data]);
    assert Carries(TxPacket(d, []), s.q, s.ackn, Add32(s.seqn, |s.data|), ACK, []);
    ApplyEffect(e, s.q, Sending(d, []).(printed := [s.data]));
  }

  lemma TakesAck(e: Endpoint, s: Segment, mem: Conn, una: u32, nxt: u32, rcv: u32)
    requires At(e, s.q, ESTABLISHED, una, nxt, rcv) && s.data == [] && !s.flags.fin && s.seqn == rcv
    ensures var f := Rx(e, s, mem);
            At(f, s.q, ESTABLISHED, una, s.ackn, rcv) && Effect(e, f, s.q, [], [])
  {
    var c := e.table[s.q];
    SynSentCheckPasses(rcv, WND);
    assert HandleEstablish(c, s) == Quiet(WithSndNxt(c, s.ackn));
    ApplyEffect(e, s.q, HandleEstablish(c, s));
  }

  lemma Sends(e: Endpoint, q: Quad, data: Bytes, st: TcpState, una: u32, nxt: u32, rcv: u32)
    requires At(e, q, st, una, nxt, rcv) && |data| <= PAYLOAD_SIZE
    ensures var f := Step(e, Send(q, data));
            At(f, q, st, una, nxt, rcv)
            && exists p :: Carries(p, q, nxt, rcv, PSH_ACK, data) && Effect(e, f, q, [p], [])
  {
    var c := WithFlags(e.table[q], PSH_ACK).(payload := data + e.table[q].payload[|data|..]);
    assert Carries(TxPacket(c, data), q, nxt, rcv, PSH_ACK, data);
    ApplyEffect(e, q, Sending(c, data));
  }

  /** An event about another flow. */
  lemma OtherTraffic(e: Endpoint, ev: Event, q: Quad)
    requires Allowed(ev) && Target(e, ev) != q
    ensures var f := Step(e, ev);
            f.nicIp == e.nicIp && (q in f.table <==> q in e.table) && (q in e.table ==> f.table[q] == e.table[q])
            && Heard(f.printed, q) == Heard(e.printed, q)
  {
    var t := Target(e, ev);
    if ev.Receive? && ev.s.q.dip == e.nicIp && t in e.table {
      var r := Handle(e.table[t], ev.s);
      assert |r.printed| <= 1;
      OtherPrints(e.printed, t, r.printed, q);
    } else if t in e.table {
      assert e.printed + Prints(t, []) == e.printed;
    }
  }

  lemma OtherPrints(ps: seq<Print>, t: Quad, ds: seq<Bytes>, q: Quad)
    requires t != q && |ds| <= 1
    ensures Heard(ps + Prints(t, ds), q) == Heard(ps, q)
  {
    if ds == [] {
      assert ps + [] == ps;
    } else {
      assert Prints(t, ds) == [Print(t, ds[0])];
      HeardSnoc(ps, Print(t, ds[0]), q);
    }
  }

  // ----- the two endpoints and their channels -----

  /** `gaveA` and `gaveB` are the bytes handed to `active_send_data` on either side so far, `oldA` and
      `oldB` what the flow had printed before. The flow is `q` at A and `q.Reversed()` at B. */
  datatype System = System(a: Endpoint, b: Endpoint, ab: seq<Packet>, ba: seq<Packet>,
                           gaveA: Bytes, gaveB: Bytes, oldA: Bytes, oldB: Bytes)

  datatype Move = ToB(mem: Conn) | ToA(mem: Conn) | SendA(data: Bytes) | SendB(data: Bytes) | OtherA(ev: Event) | OtherB(ev: Event)

  function NewPackets(e: Endpoint, f: Endpoint): seq<Packet> {
    if |e.sent| <= |f.sent| then f.sent[|e.sent|..] else []
  }

  /** A, which was `a`, has just called `active_connect`; B knows nothing of the flow. */
  predicate Started(a: Endpoint, mem: Conn, s: System, q: Quad) {
    && q !in a.table && q.dip == a.nicIp
    && s.a == ActiveConnect(a, q.sip, q.sport, q.dport, mem) && s.ab == NewPackets(a, s.a)
    && s.ba == [] && s.gaveA == [] && s.gaveB == []
    && q.Reversed() !in s.b.table && s.b.nicIp == q.sip
    && s.oldA == Heard(a.printed, q) && s.oldB == Heard(s.b.printed, q.Reversed())
  }

  predicate NoPush(ps: seq<Packet>) { forall i :: 0 <= i < |ps| ==> !ps[i].tcp.flags.psh }

  /** Every byte given to `active_send_data` is acknowledged to its sender and no send is in flight. */
  predicate Acknowledged(s: System, q: Quad) {
    && NoPush(s.ab) && NoPush(s.ba)
    && (q in s.a.table ==> s.a.table[q].snd.nxt == Mod32(1 + |s.gaveA|))
    && (q.Reversed() in s.b.table ==> s.b.table[q.Reversed()].snd.nxt == Mod32(1 + |s.gaveB|))
  }

  /** There is a first segment, and it fits a frame. */
  predicate Deliverable(channel: seq<Packet>) { channel != [] && |channel[0].data| <= 65495 }

  /** A send by A while its SYN is not answered yet. */
  predicate Early(s: System, q: Quad, m: Move) { m.SendA? && q in s.a.table && s.a.table[q].state == SYN_SENT }

  /** The opening SYN meets a full table at B. */
  predicate Refuses(s: System, q: Quad, m: Move) {
    m.ToB? && s.ab != [] && s.ab[0].tcp.flags == SYN && q.Reversed() !in s.b.table && |s.b.table| >= TABLE_CAPACITY
  }

  predicate Enabled(s: System, q: Quad, m: Move) {
    match m
    case ToB(_) => Deliverable(s.ab)
    case ToA(_) => Deliverable(s.ba)
    case SendA(data) => |data| <= PAYLOAD_SIZE && Acknowledged(s, q) && q in s.a.table && (Early(s, q, m) ==> data != [])
    case SendB(data) => |data| <= PAYLOAD_SIZE && Acknowledged(s, q) && q.Reversed() in s.b.table
    case OtherA(ev) => Allowed(ev) && Target(s.a, ev) != q
    case OtherB(ev) => Allowed(ev) && Target(s.b, ev) != q.Reversed()
  }

  function Next(s: System, q: Quad, m: Move): System
    requires Enabled(s, q, m)
  {
    match m
    case ToB(mem) =>
      var f := Rx(s.b, Frame.SegmentOf(s.ab[0]), mem);
      s.(b := f, ab := s.ab[1..], ba := s.ba + NewPackets(s.b, f))
    case ToA(mem) =>
      var f := Rx(s.a, Frame.SegmentOf(s.ba[0]), mem);
      s.(a := f, ba := s.ba[1..], ab := s.ab + NewPackets(s.a, f))
    case SendA(data) =>
      var f := Step(s.a, Send(q, data));
      s.(a := f, ab := s.ab + NewPackets(s.a, f), gaveA := s.gaveA + data)
    case SendB(data) =>
      var f := Step(s.b, Send(q.Reversed(), data));
      s.(b := f, ba := s.ba + NewPackets(s.b, f), gaveB := s.gaveB + data)
    case OtherA(ev) => s.(a := Step(s.a, ev))
    case OtherB(ev) => s.(b := Step(s.b, ev))
  }

  /** The moves lead from each state to the next. */
  predicate IsTrace(states: seq<System>, moves: seq<Move>, q: Quad) {
    && |states| == |moves| + 1
    && forall i :: 0 <= i < |moves| ==> Enabled(states[i], q, moves[i]) && states[i + 1] == Next(states[i], q, moves[i])
  }

  /** A run from the moment when the opener `a` has called `active_connect`. */
  predicate IsRun(a: Endpoint, mem: Conn, states: seq<System>, moves: seq<Move>, q: Quad) {
    IsTrace(states, moves, q) && Started(a, mem, states[0], q)
  }

  // ----- where a run can be -----

  /** How far the handshake has come, by its segment in flight. */
  datatype Hand = SynFlies | SynAckFlies | AckFlies | Open

  /** What is outstanding: a send on its way, or its acknowledgement on the way back. */
  datatype Turn = Idle | DataToB(d: Bytes) | AckToA(d: Bytes) | DataToA(d: Bytes) | AckToB(d: Bytes)

  /** `doneA` and `doneB` are the bytes delivered and acknowledged. */
  datatype Phase = Phase(hand: Hand, turn: Turn, doneA: Bytes, doneB: Bytes) {
    function NxtA(): u32 { Mod32(1 + |doneA|) }
    function NxtB(): u32 { Mod32(1 + |doneB|) }
    function HeardB(): Bytes { if turn.AckToA? then doneA + turn.d else doneA }
    function HeardA(): Bytes { if turn.AckToB? then doneB + turn.d else doneB }
    /** Once the first segment on its way to B has arrived. */
    function ArrivesB(): Phase {
      match hand
      case SynFlies => this.(hand := SynAckFlies)
      case AckFlies => this.(hand := Open)
      case _ =>
        match turn
        case AckToB(d) => this.(turn := Idle, doneB := doneB + d)
        case DataToB(d) => this.(turn := if d == [] then Idle else AckToA(d))
        case _ => this
    }

    /** Once the first segment on its way to A has arrived. */
    function ArrivesA(): Phase {
      if hand == SynAckFlies then this.(hand := AckFlies)
      else
        match turn
        case AckToA(d) => this.(turn := Idle, doneA := doneA + d)
        case DataToA(d) => this.(turn := if d == [] then Idle else AckToB(d))
        case _ => this
    }

    function After(m: Move): Phase {
      match m
      case ToB(_) => ArrivesB()
      case ToA(_) => ArrivesA()
      case SendA(d) => this.(turn := DataToB(d))
      case SendB(d) => this.(turn := DataToA(d))
      case _ => this
    }

    /** The number of deliveries after which nothing is in flight. */
    function Work(): nat {
      HandWork(hand)
      + match turn
        case Idle => 0
        case DataToB(d) => if d == [] then 1 else 2
        case DataToA(d) => if d == [] then 1 else 2
        case _ => 1
    }

    function RcvA(): u32 { Mod32(1 + |HeardA()|) }
    function RcvB(): u32 { Mod32(1 + |HeardB()|) }
    function GaveA(): Bytes { if turn.DataToB? || turn.AckToA? then doneA + turn.d else doneA }
    function GaveB(): Bytes { if turn.DataToA? || turn.AckToB? then doneB + turn.d else doneB }

    predicate Possible() {
      && (turn != Idle ==> |turn.d| <= PAYLOAD_SIZE)
      && (turn.AckToA? || turn.AckToB? ==> turn.d != [])
      && (hand != Open ==> doneA == [] && doneB == [])
      && match hand
         case SynFlies => turn == Idle
         case SynAckFlies => turn == Idle || turn.DataToA?
         case AckFlies => !turn.AckToA?
         case Open => true
    }
  }

  function HandWork(h: Hand): nat {
    match h
    case SynFlies => 3
    case SynAckFlies => 2
    case AckFlies => 1
    case Open => 0
  }

  datatype Spec = Spec(seqn: u32, ackn: u32, flags: Flags, data: Bytes)

  predicate Shaped(ps: seq<Packet>, q: Quad, specs: seq<Spec>) {
    |ps| == |specs|
    && forall i :: 0 <= i < |ps| ==> Carries(ps[i], q, specs[i].seqn, specs[i].ackn, specs[i].flags, specs[i].data)
  }

  function InAB(ph: Phase): seq<Spec> {
    (match ph.hand
     case SynFlies => [Spec(0, 0, SYN, [])]
     case AckFlies => [Spec(1, 1, ACK, [])]
     case _ => [])
    + (match ph.turn
       case DataToB(d) => [Spec(ph.NxtA(), ph.RcvA(), PSH_ACK, d)]
       case AckToB(_) => [Spec(ph.NxtA(), ph.RcvA(), ACK, [])]
       case _ => [])
  }

  function InBA(ph: Phase): seq<Spec> {
    (if ph.hand == SynAckFlies then [Spec(0, 1, SYN_ACK, [])] else [])
    + (match ph.turn
       case DataToA(d) => [Spec(ph.NxtB(), ph.RcvB(), PSH_ACK, d)]
       case AckToA(_) => [Spec(ph.NxtB(), ph.RcvB(), ACK, [])]
       case _ => [])
  }

  predicate EndA(e: Endpoint, q: Quad, ph: Phase) {
    if ph.hand == SynFlies || ph.hand == SynAckFlies then At(e, q, SYN_SENT, 0, 1, 0)
    else At(e, q, ESTABLISHED, 2, ph.NxtA(), ph.RcvA())
  }

  predicate EndB(e: Endpoint, q: Quad, ph: Phase) {
    match ph.hand
    case SynFlies => q !in e.table && q.dip == e.nicIp
    case Open => At(e, q, ESTABLISHED, 0, ph.NxtB(), ph.RcvB())
    case _ => At(e, q, SYN_RECV, 0, 1, 1)
  }

  predicate Good(s: System, q: Quad, ph: Phase) {
    && ph.Possible()
    && EndA(s.a, q, ph) && EndB(s.b, q.Reversed(), ph)
    && Shaped(s.ab, q, InAB(ph)) && Shaped(s.ba, q.Reversed(), InBA(ph))
    && s.gaveA == ph.GaveA() && s.gaveB == ph.GaveB()
    && Heard(s.a.printed, q) == s.oldA + ph.HeardA() && Heard(s.b.printed, q.Reversed()) == s.oldB + ph.HeardB()
  }

  // ----- every move keeps the run in one of these phases -----

  lemma ShortMovesResidue(x: nat, n: nat)
    requires 0 < n <= PAYLOAD_SIZE
    ensures Mod32(x) != Mod32(x + n)
  {
  }

  lemma PushInFlight(ps: seq<Packet>, q: Quad, specs: seq<Spec>)
    requires Shaped(ps, q, specs) && specs != [] && specs[|specs| - 1].flags == PSH_ACK
    ensures !NoPush(ps)
  {
    assert ps[|ps| - 1].tcp.flags.psh;
  }

  /** Under the invariant, "everything acknowledged" means that no send is outstanding. */
  lemma AcknowledgedIsIdle(s: System, q: Quad, ph: Phase)
    requires Good(s, q, ph) && Acknowledged(s, q)
    ensures ph.turn == Idle
  {
    match ph.turn
    case Idle =>
    case DataToB(d) => PushInFlight(s.ab, q, InAB(ph));
    case DataToA(d) => PushInFlight(s.ba, q.Reversed(), InBA(ph));
    case AckToA(d) => ShortMovesResidue(1 + |ph.doneA|, |d|);
    case AckToB(d) => ShortMovesResidue(1 + |ph.doneB|, |d|);
  }

  /** A move of endpoint B that sends `sent` and takes `taken` packets off its incoming channel. */
  ghost predicate MoveOfB(s: System, t: System, q: Quad, f: Endpoint, taken: nat, sent: seq<Packet>, heard: Bytes, data: Bytes) {
    && taken <= |s.ab| && Effect(s.b, f, q.Reversed(), sent, heard)
    && t == s.(b := f, ab := s.ab[taken..], ba := s.ba + sent, gaveB := s.gaveB + data)
  }

  ghost predicate MoveOfA(s: System, t: System, q: Quad, f: Endpoint, taken: nat, sent: seq<Packet>, heard: Bytes, data: Bytes) {
    && taken <= |s.ba| && Effect(s.a, f, q, sent, heard)
    && t == s.(a := f, ba := s.ba[taken..], ab := s.ab + sent, gaveA := s.gaveA + data)
  }

  /** How the phase must change along with a move of B. */
  ghost predicate PhaseOfB(ph: Phase, n: Phase, taken: nat, sent: seq<Spec>, heard: Bytes, data: Bytes) {
    && n.Possible()
    && taken <= |InAB(ph)| && InAB(n) == InAB(ph)[taken..] && InBA(n) == InBA(ph) + sent
    && n.HeardB() == ph.HeardB() + heard && n.HeardA() == ph.HeardA()
    && n.GaveB() == ph.GaveB() + data && n.GaveA() == ph.GaveA()
    && (n.hand == SynFlies || n.hand == SynAckFlies <==> ph.hand == SynFlies || ph.hand == SynAckFlies) && n.NxtA() == ph.NxtA()
  }

  ghost predicate PhaseOfA(ph: Phase, n: Phase, taken: nat, sent: seq<Spec>, heard: Bytes, data: Bytes) {
    && n.Possible()
    && taken <= |InBA(ph)| && InBA(n) == InBA(ph)[taken..] && InAB(n) == InAB(ph) + sent
    && n.HeardA() == ph.HeardA() + heard && n.HeardB() == ph.HeardB()
    && n.GaveA() == ph.GaveA() + data && n.GaveB() == ph.GaveB()
    && (if ph.hand == Open then n.hand == Open && n.NxtB() == ph.NxtB() else n.hand != Open && (n.hand == SynFlies <==> ph.hand == SynFlies))
  }

  lemma ShapedMove(ps: seq<Packet>, q: Quad, specs: seq<Spec>, taken: nat)
    requires Shaped(ps, q, specs) && taken <= |ps|
    ensures taken <= |specs| && Shaped(ps[taken..], q, specs[taken..])
  {
  }

  lemma ShapedAppend(ps: seq<Packet>, more: seq<Packet>, q: Quad, specs: seq<Spec>, extra: seq<Spec>)
    requires Shaped(ps, q, specs) && Shaped(more, q, extra)
    ensures Shaped(ps + more, q, specs + extra)
  {
  }

  /** A move of one end leaves the other where it was. */
  lemma EndAStays(e: Endpoint, q: Quad, ph: Phase, n: Phase, taken: nat, sent: seq<Spec>, heard: Bytes, data: Bytes)
    requires EndA(e, q, ph) && PhaseOfB(ph, n, taken, sent, heard, data)
    ensures EndA(e, q, n)
  {
    hide At, InAB, InBA, Mod32;
  }

  lemma EndBStays(e: Endpoint, r: Quad, ph: Phase, n: Phase, taken: nat, sent: seq<Spec>, heard: Bytes, data: Bytes)
    requires EndB(e, r, ph) && PhaseOfA(ph, n, taken, sent, heard, data)
    ensures EndB(e, r, n)
  {
    hide At, InAB, InBA, Mod32;
  }

  lemma GoodAfterB(s: System, t: System, q: Quad, ph: Phase, n: Phase, f: Endpoint, taken: nat,
                   sent: seq<Packet>, specs: seq<Spec>, heard: Bytes, data: Bytes)
    requires Good(s, q, ph) && MoveOfB(s, t, q, f, taken, sent, heard, data)
    requires PhaseOfB(ph, n, taken, specs, heard, data)
    requires EndB(f, q.Reversed(), n) && Shaped(sent, q.Reversed(), specs)
    ensures Good(t, q, n)
  {
    hide Shaped, EndA, EndB, InAB, InBA, Heard, Mod32, ph.Possible, ph.HeardA, ph.HeardB, ph.GaveA, ph.GaveB, ph.NxtA, ph.NxtB;
    EndAStays(s.a, q, ph, n, taken, specs, heard, data);
    ShapedMove(s.ab, q, InAB(ph), taken);
    ShapedAppend(s.ba, sent, q.Reversed(), InBA(ph), specs);
    assert s.oldB + ph.HeardB() + heard == s.oldB + (ph.HeardB() + heard);
  }

  lemma GoodAfterA(s: System, t: System, q: Quad, ph: Phase, n: Phase, f: Endpoint, taken: nat,
                   sent: seq<Packet>, specs: seq<Spec>, heard: Bytes, data: Bytes)
    requires Good(s, q, ph) && MoveOfA(s, t, q, f, taken, sent, heard, data)
    requires PhaseOfA(ph, n, taken, specs, heard, data)
    requires EndA(f, q, n) && Shaped(sent, q, specs)
    ensures Good(t, q, n)
  {
    hide Shaped, EndA, EndB, InAB, InBA, Heard, Mod32, ph.Possible, ph.HeardA, ph.HeardB, ph.GaveA, ph.GaveB, ph.NxtA, ph.NxtB;
    EndBStays(s.b, q.Reversed(), ph, n, taken, specs, heard, data);
    ShapedMove(s.ba, q.Reversed(), InBA(ph), taken);
    ShapedAppend(s.ab, sent, q, InAB(ph), specs);
    assert s.oldA + ph.HeardA() + heard == s.oldA + (ph.HeardA() + heard);
  }

  lemma ToBIsMove(s: System, q: Quad, mem: Conn, sent: seq<Packet>, heard: Bytes)
    requires Enabled(s, q, ToB(mem))
    requires Effect(s.b, Rx(s.b, Frame.SegmentOf(s.ab[0]), mem), q.Reversed(), sent, heard)
    ensures MoveOfB(s, Next(s, q, ToB(mem)), q, Rx(s.b, Frame.SegmentOf(s.ab[0]), mem), 1, sent, heard, [])
  {
    hide Rx, Heard, Frame.SegmentOf, Acknowledged;
    assert s.gaveB + [] == s.gaveB;
  }

  lemma ToAIsMove(s: System, q: Quad, mem: Conn, sent: seq<Packet>, heard: Bytes)
    requires Enabled(s, q, ToA(mem))
    requires Effect(s.a, Rx(s.a, Frame.SegmentOf(s.ba[0]), mem), q, sent, heard)
    ensures MoveOfA(s, Next(s, q, ToA(mem)), q, Rx(s.a, Frame.SegmentOf(s.ba[0]), mem), 1, sent, heard, [])
  {
    hide Rx, Heard, Frame.SegmentOf, Acknowledged;
    assert s.gaveA + [] == s.gaveA;
  }

  /** The first packet of a channel, as the receiver decodes it. */
  lemma FirstArrives(ps: seq<Packet>, q: Quad, specs: seq<Spec>)
    requires Shaped(ps, q, specs) && specs != [] && |specs[0].data| <= 65495
    ensures ps != [] && |ps[0].data| <= 65495
    ensures var seg, sp := Frame.SegmentOf(ps[0]), specs[0];
            seg.q == q.Reversed() && seg.seqn == sp.seqn && seg.ackn == sp.ackn && seg.flags == sp.flags
            && seg.data == sp.data && seg.win == WND
  {
    var sp := specs[0];
    assert Carries(ps[0], q, sp.seqn, sp.ackn, sp.flags, sp.data);
  }

  lemma One(p: Packet, q: Quad, sp: Spec)
    requires Carries(p, q, sp.seqn, sp.ackn, sp.flags, sp.data)
    ensures Shaped([p], q, [sp])
  {
  }

  lemma Nothing(q: Quad)
    ensures Shaped([], q, [])
  {
  }

  // ----- sending -----

  lemma SendAKeeps(s: System, q: Quad, ph: Phase, data: Bytes)
    requires Good(s, q, ph) && Enabled(s, q, SendA(data)) && !Early(s, q, SendA(data))
    ensures Good(Next(s, q, SendA(data)), q, ph.(turn := DataToB(data)))
  {
    hide Step, Carries, Shaped, InAB, InBA, Heard, Mod32, Acknowledged;
    AcknowledgedIsIdle(s, q, ph);
    var n := ph.(turn := DataToB(data));
    var f, sp := Step(s.a, Send(q, data)), Spec(ph.NxtA(), ph.RcvA(), PSH_ACK, data);
    var p := EndASends(s.a, q, ph, data);
    One(p, q, sp);
    SendAPhase(ph, data);
    assert s.ba[0..] == s.ba && MoveOfA(s, Next(s, q, SendA(data)), q, f, 0, [p], [], data);
    GoodAfterA(s, Next(s, q, SendA(data)), q, ph, n, f, 0, [p], [sp], [], data);
  }

  lemma EndASends(e: Endpoint, q: Quad, ph: Phase, data: Bytes) returns (p: Packet)
    requires EndA(e, q, ph) && e.table[q].state == ESTABLISHED && ph.turn == Idle && |data| <= PAYLOAD_SIZE
    ensures var f := Step(e, Send(q, data));
            EndA(f, q, ph.(turn := DataToB(data)))
            && Carries(p, q, ph.NxtA(), ph.RcvA(), PSH_ACK, data) && Effect(e, f, q, [p], [])
  {
    hide Step;
    Sends(e, q, data, ESTABLISHED, 2, ph.NxtA(), ph.RcvA());
    p :| Carries(p, q, ph.NxtA(), ph.RcvA(), PSH_ACK, data) && Effect(e, Step(e, Send(q, data)), q, [p], []);
  }

  lemma SendAPhase(ph: Phase, data: Bytes)
    requires ph.Possible() && ph.turn == Idle && |data| <= PAYLOAD_SIZE && (ph.hand == AckFlies || ph.hand == Open)
    ensures PhaseOfA(ph, ph.(turn := DataToB(data)), 0, [Spec(ph.NxtA(), ph.RcvA(), PSH_ACK, data)], [], data)
  {
  }

  lemma SendBKeeps(s: System, q: Quad, ph: Phase, data: Bytes)
    requires Good(s, q, ph) && Enabled(s, q, SendB(data))
    ensures Good(Next(s, q, SendB(data)), q, ph.(turn := DataToA(data)))
  {
    hide Step, Carries, Shaped, InAB, InBA, At, Heard, Mod32, Acknowledged;
    AcknowledgedIsIdle(s, q, ph);
    var n := ph.(turn := DataToA(data));
    var r := q.Reversed();
    var f, sp := Step(s.b, Send(r, data)), Spec(ph.NxtB(), ph.RcvB(), PSH_ACK, data);
    var p := EndBSends(s.b, r, ph, data);
    One(p, r, sp);
    SendBPhase(ph, data);
    assert s.ab[0..] == s.ab && MoveOfB(s, Next(s, q, SendB(data)), q, f, 0, [p], [], data);
    GoodAfterB(s, Next(s, q, SendB(data)), q, ph, n, f, 0, [p], [sp], [], data);
  }

  lemma EndBSends(e: Endpoint, r: Quad, ph: Phase, data: Bytes) returns (p: Packet)
    requires EndB(e, r, ph) && ph.hand != SynFlies && ph.Possible() && ph.turn == Idle && |data| <= PAYLOAD_SIZE
    ensures var f := Step(e, Send(r, data));
            EndB(f, r, ph.(turn := DataToA(data)))
            && Carries(p, r, ph.NxtB(), ph.RcvB(), PSH_ACK, data) && Effect(e, f, r, [p], [])
  {
    hide Step;
    if ph.hand == Open {
      Sends(e, r, data, ESTABLISHED, 0, ph.NxtB(), ph.RcvB());
    } else {
      Sends(e, r, data, SYN_RECV, 0, 1, 1);
    }
    p :| Carries(p, r, ph.NxtB(), ph.RcvB(), PSH_ACK, data) && Effect(e, Step(e, Send(r, data)), r, [p], []);
  }

  lemma SendBPhase(ph: Phase, data: Bytes)
    requires ph.Possible() && ph.turn == Idle && |data| <= PAYLOAD_SIZE && ph.hand != SynFlies
    ensures PhaseOfB(ph, ph.(turn := DataToA(data)), 0, [Spec(ph.NxtB(), ph.RcvB(), PSH_ACK, data)], [], data)
  {
  }

  // ----- deliveries to B -----

  lemma SynReachesB(s: System, q: Quad, ph: Phase, mem: Conn)
    requires Good(s, q, ph) && Enabled(s, q, ToB(mem)) && ph.hand == SynFlies && |s.b.table| < TABLE_CAPACITY
    ensures Good(Next(s, q, ToB(mem)), q, ph.ArrivesB())
  {
    hide Rx, Frame.SegmentOf, Carries, Shaped, At, Heard, Mod32, Acknowledged;
    FirstArrives(s.ab, q, InAB(ph));
    var seg, r := Frame.SegmentOf(s.ab[0]), q.Reversed();
    Listens(s.b, seg, mem);
    var f := Rx(s.b, seg, mem);
    var p :| Carries(p, r, 0, 1, SYN_ACK, []) && Effect(s.b, f, r, [p], []);
    ToBIsMove(s, q, mem, [p], []);
    var n := ph.(hand := SynAckFlies);
    One(p, r, Spec(0, 1, SYN_ACK, []));
    GoodAfterB(s, Next(s, q, ToB(mem)), q, ph, n, f, 1, [p], [Spec(0, 1, SYN_ACK, [])], [], []);
  }

  lemma AckReachesListener(s: System, q: Quad, ph: Phase, mem: Conn)
    requires Good(s, q, ph) && Enabled(s, q, ToB(mem)) && ph.hand == AckFlies
    ensures Good(Next(s, q, ToB(mem)), q, ph.ArrivesB())
  {
    hide Rx, Frame.SegmentOf, Carries, Shaped, At, Heard, Acknowledged, PhaseOfB, Mod32;
    FirstArrives(s.ab, q, InAB(ph));
    var seg, r := Frame.SegmentOf(s.ab[0]), q.Reversed();
    PassivelyEstablishes(s.b, seg, mem);
    ToBIsMove(s, q, mem, [], []);
    OpenPhase(ph);
    Nothing(r);
    GoodAfterB(s, Next(s, q, ToB(mem)), q, ph, ph.(hand := Open), Rx(s.b, seg, mem), 1, [], [], [], []);
  }

  lemma OpenPhase(ph: Phase)
    requires ph.Possible() && ph.hand == AckFlies
    ensures var n := ph.(hand := Open); PhaseOfB(ph, n, 1, [], [], []) && n.NxtB() == 1 && n.RcvB() == 1
  {
    hide InAB, InBA;
    OpenChannels(ph);
  }

  lemma OpenChannels(ph: Phase)
    requires ph.Possible() && ph.hand == AckFlies
    ensures var n := ph.(hand := Open); InAB(ph) != [] && InAB(n) == InAB(ph)[1..] && InBA(n) == InBA(ph) + []
  {
    hide Mod32;
  }

  lemma EmptyReachesB(s: System, q: Quad, ph: Phase, mem: Conn)
    requires Good(s, q, ph) && Enabled(s, q, ToB(mem)) && ph.hand == Open && ph.turn == DataToB([])
    ensures Good(Next(s, q, ToB(mem)), q, ph.ArrivesB())
  {
    hide Rx, Frame.SegmentOf, Carries, Shaped, At, Heard, Acknowledged, Mod32;
    FirstArrives(s.ab, q, InAB(ph));
    var seg, r := Frame.SegmentOf(s.ab[0]), q.Reversed();
    TakesAck(s.b, seg, mem, 0, ph.NxtB(), ph.RcvB());
    ToBIsMove(s, q, mem, [], []);
    var n := ph.(turn := Idle);
    Nothing(r);
    assert ph.doneA + [] == ph.doneA;
    GoodAfterB(s, Next(s, q, ToB(mem)), q, ph, n, Rx(s.b, seg, mem), 1, [], [], [], []);
  }

  lemma DataReachesB(s: System, q: Quad, ph: Phase, mem: Conn)
    requires Good(s, q, ph) && Enabled(s, q, ToB(mem)) && ph.hand == Open && ph.turn.DataToB? && ph.turn.d != []
    ensures Good(Next(s, q, ToB(mem)), q, ph.ArrivesB())
  {
    hide Rx, Frame.SegmentOf, Carries, Shaped, At, Heard, Acknowledged, Mod32, Add32, PhaseOfB;
    FirstArrives(s.ab, q, InAB(ph));
    var seg, r := Frame.SegmentOf(s.ab[0]), q.Reversed();
    var n := ph.(turn := AckToA(ph.turn.d));
    var p := EndBHears(s.b, seg, mem, ph);
    DataPhaseB(ph);
    ToBIsMove(s, q, mem, [p], ph.turn.d);
    One(p, r, Spec(n.NxtB(), n.RcvB(), ACK, []));
    GoodAfterB(s, Next(s, q, ToB(mem)), q, ph, n, Rx(s.b, seg, mem), 1, [p], [Spec(n.NxtB(), n.RcvB(), ACK, [])], ph.turn.d, []);
  }

  lemma EndBHears(e: Endpoint, seg: Segment, mem: Conn, ph: Phase) returns (p: Packet)
    requires EndB(e, seg.q, ph) && ph.hand == Open && ph.turn.DataToB? && ph.turn.d != []
    requires seg.seqn == ph.NxtA() && seg.ackn == ph.RcvA() && seg.flags == PSH_ACK && seg.data == ph.turn.d
    ensures var n, f := ph.(turn := AckToA(ph.turn.d)), Rx(e, seg, mem);
            EndB(f, seg.q, n) && Carries(p, seg.q, n.NxtB(), n.RcvB(), ACK, []) && Effect(e, f, seg.q, [p], ph.turn.d)
  {
    hide Rx, Carries, Heard, Mod32, Add32, At;
    Delivers(e, seg, mem, 0, ph.NxtB(), ph.RcvB());
    Advances(|ph.doneA|, |ph.turn.d|);
    p :| Carries(p, seg.q, seg.ackn, Add32(seg.seqn, |seg.data|), ACK, []) && Effect(e, Rx(e, seg, mem), seg.q, [p], seg.data);
  }

  lemma DataPhaseB(ph: Phase)
    requires ph.Possible() && ph.hand == Open && ph.turn.DataToB? && ph.turn.d != []
    ensures var n := ph.(turn := AckToA(ph.turn.d));
            PhaseOfB(ph, n, 1, [Spec(n.NxtB(), n.RcvB(), ACK, [])], ph.turn.d, [])
  {
    hide Mod32, InAB, InBA;
    DataChannelsB(ph);
  }

  lemma DataChannelsB(ph: Phase)
    requires ph.Possible() && ph.hand == Open && ph.turn.DataToB? && ph.turn.d != []
    ensures var n := ph.(turn := AckToA(ph.turn.d));
            |InAB(ph)| == 1 && InAB(n) == InAB(ph)[1..] && InBA(n) == InBA(ph) + [Spec(n.NxtB(), n.RcvB(), ACK, [])]
  {
    hide ph.NxtA, ph.NxtB, ph.RcvA, ph.RcvB;
  }

  lemma Advances(done: nat, n: nat)
    ensures Add32(Mod32(1 + done), n) == Mod32(1 + (done + n))
  {
    ModOfSum(1 + done, n);
  }

  lemma AckReachesB(s: System, q: Quad, ph: Phase, mem: Conn)
    requires Good(s, q, ph) && Enabled(s, q, ToB(mem)) && ph.hand == Open && ph.turn.AckToB?
    ensures Good(Next(s, q, ToB(mem)), q, ph.ArrivesB())
  {
    hide Rx, Frame.SegmentOf, Carries, Shaped, At, Heard, Acknowledged, Mod32;
    FirstArrives(s.ab, q, InAB(ph));
    var seg, r, d := Frame.SegmentOf(s.ab[0]), q.Reversed(), ph.turn.d;
    TakesAck(s.b, seg, mem, 0, ph.NxtB(), ph.RcvB());
    ToBIsMove(s, q, mem, [], []);
    var n := ph.(turn := Idle, doneB := ph.doneB + d);
    Nothing(r);
    GoodAfterB(s, Next(s, q, ToB(mem)), q, ph, n, Rx(s.b, seg, mem), 1, [], [], [], []);
  }

  // ----- deliveries to A -----

  lemma SynAckReachesA(s: System, q: Quad, ph: Phase, mem: Conn)
    requires Good(s, q, ph) && Enabled(s, q, ToA(mem)) && ph.hand == SynAckFlies
    ensures Good(Next(s, q, ToA(mem)), q, ph.ArrivesA())
  {
    hide Rx, Frame.SegmentOf, Carries, Shaped, At, Heard, Acknowledged;
    FirstArrives(s.ba, q.Reversed(), InBA(ph));
    var seg := Frame.SegmentOf(s.ba[0]);
    ActivelyEstablishes(s.a, seg, mem);
    var f := Rx(s.a, seg, mem);
    var p :| Carries(p, q, 1, 1, ACK, []) && Effect(s.a, f, q, [p], []);
    ToAIsMove(s, q, mem, [p], []);
    var n := ph.(hand := AckFlies);
    One(p, q, Spec(1, 1, ACK, []));
    GoodAfterA(s, Next(s, q, ToA(mem)), q, ph, n, f, 1, [p], [Spec(1, 1, ACK, [])], [], []);
  }

  lemma EmptyReachesA(s: System, q: Quad, ph: Phase, mem: Conn)
    requires Good(s, q, ph) && Enabled(s, q, ToA(mem)) && ph.hand != SynAckFlies && ph.turn == DataToA([])
    ensures Good(Next(s, q, ToA(mem)), q, ph.ArrivesA())
  {
    hide Rx, Frame.SegmentOf, Carries, Shaped, At, Heard, Acknowledged, Mod32;
    FirstArrives(s.ba, q.Reversed(), InBA(ph));
    var seg := Frame.SegmentOf(s.ba[0]);
    TakesAck(s.a, seg, mem, 2, ph.NxtA(), ph.RcvA());
    ToAIsMove(s, q, mem, [], []);
    var n := ph.(turn := Idle);
    Nothing(q);
    assert ph.doneB + [] == ph.doneB;
    GoodAfterA(s, Next(s, q, ToA(mem)), q, ph, n, Rx(s.a, seg, mem), 1, [], [], [], []);
  }

  lemma DataReachesA(s: System, q: Quad, ph: Phase, mem: Conn)
    requires Good(s, q, ph) && Enabled(s, q, ToA(mem)) && ph.hand != SynAckFlies && ph.turn.DataToA? && ph.turn.d != []
    ensures Good(Next(s, q, ToA(mem)), q, ph.ArrivesA())
  {
    hide Rx, Frame.SegmentOf, Carries, Shaped, At, Heard, Acknowledged, Mod32, Add32, PhaseOfA;
    FirstArrives(s.ba, q.Reversed(), InBA(ph));
    var seg := Frame.SegmentOf(s.ba[0]);
    var n := ph.(turn := AckToB(ph.turn.d));
    var p := EndAHears(s.a, seg, mem, ph);
    DataPhaseA(ph);
    ToAIsMove(s, q, mem, [p], ph.turn.d);
    One(p, q, Spec(n.NxtA(), n.RcvA(), ACK, []));
    GoodAfterA(s, Next(s, q, ToA(mem)), q, ph, n, Rx(s.a, seg, mem), 1, [p], [Spec(n.NxtA(), n.RcvA(), ACK, [])], ph.turn.d, []);
  }

  lemma EndAHears(e: Endpoint, seg: Segment, mem: Conn, ph: Phase) returns (p: Packet)
    requires EndA(e, seg.q, ph) && (ph.hand == AckFlies || ph.hand == Open) && ph.turn.DataToA? && ph.turn.d != []
    requires seg.seqn == ph.NxtB() && seg.ackn == ph.RcvB() && seg.flags == PSH_ACK && seg.data == ph.turn.d
    ensures var n, f := ph.(turn := AckToB(ph.turn.d)), Rx(e, seg, mem);
            EndA(f, seg.q, n) && Carries(p, seg.q, n.NxtA(), n.RcvA(), ACK, []) && Effect(e, f, seg.q, [p], ph.turn.d)
  {
    hide Rx, Carries, Heard, Mod32, Add32, At;
    Delivers(e, seg, mem, 2, ph.NxtA(), ph.RcvA());
    Advances(|ph.doneB|, |ph.turn.d|);
    p :| Carries(p, seg.q, seg.ackn, Add32(seg.seqn, |seg.data|), ACK, []) && Effect(e, Rx(e, seg, mem), seg.q, [p], seg.data);
  }

  lemma DataPhaseA(ph: Phase)
    requires ph.Possible() && (ph.hand == AckFlies || ph.hand == Open) && ph.turn.DataToA? && ph.turn.d != []
    ensures var n := ph.(turn := AckToB(ph.turn.d));
            PhaseOfA(ph, n, 1, [Spec(n.NxtA(), n.RcvA(), ACK, [])], ph.turn.d, [])
  {
    hide Mod32, InAB, InBA;
    DataChannelsA(ph);
  }

  lemma DataChannelsA(ph: Phase)
    requires ph.Possible() && (ph.hand == AckFlies || ph.hand == Open) && ph.turn.DataToA? && ph.turn.d != []
    ensures var n := ph.(turn := AckToB(ph.turn.d));
            |InBA(ph)| == 1 && InBA(n) == InBA(ph)[1..] && InAB(n) == InAB(ph) + [Spec(n.NxtA(), n.RcvA(), ACK, [])]
  {
    hide ph.NxtA, ph.NxtB, ph.RcvA, ph.RcvB;
  }

  lemma AckReachesA(s: System, q: Quad, ph: Phase, mem: Conn)
    requires Good(s, q, ph) && Enabled(s, q, ToA(mem)) && ph.turn.AckToA?
    ensures Good(Next(s, q, ToA(mem)), q, ph.ArrivesA())
  {
    hide Rx, Frame.SegmentOf, Carries, Shaped, At, Heard, Acknowledged, Mod32;
    FirstArrives(s.ba, q.Reversed(), InBA(ph));
    var seg, d := Frame.SegmentOf(s.ba[0]), ph.turn.d;
    TakesAck(s.a, seg, mem, 2, ph.NxtA(), ph.RcvA());
    ToAIsMove(s, q, mem, [], []);
    var n := ph.(turn := Idle, doneA := ph.doneA + d);
    Nothing(q);
    GoodAfterA(s, Next(s, q, ToA(mem)), q, ph, n, Rx(s.a, seg, mem), 1, [], [], [], []);
  }

  // ----- every move -----

  lemma ToBKeeps(s: System, q: Quad, ph: Phase, mem: Conn)
    requires Good(s, q, ph) && Enabled(s, q, ToB(mem)) && !Refuses(s, q, ToB(mem))
    ensures Good(Next(s, q, ToB(mem)), q, ph.ArrivesB())
  {
    assert InAB(ph) != [];
    hide At, Carries, Next, Enabled;
    match ph.hand
    case SynFlies =>
      SynMeetsRoom(s, q, ph, mem);
      SynReachesB(s, q, ph, mem);
    case AckFlies => AckReachesListener(s, q, ph, mem);
    case Open =>
      if ph.turn.AckToB? {
        AckReachesB(s, q, ph, mem);
      } else if ph.turn.d == [] {
        EmptyReachesB(s, q, ph, mem);
      } else {
        DataReachesB(s, q, ph, mem);
      }
  }

  lemma SynMeetsRoom(s: System, q: Quad, ph: Phase, mem: Conn)
    requires Good(s, q, ph) && ph.hand == SynFlies && Enabled(s, q, ToB(mem))
    ensures Refuses(s, q, ToB(mem)) <==> |s.b.table| >= TABLE_CAPACITY
  {
    assert InAB(ph)[0] == Spec(0, 0, SYN, []);
  }

  lemma ToAKeeps(s: System, q: Quad, ph: Phase, mem: Conn)
    requires Good(s, q, ph) && Enabled(s, q, ToA(mem))
    ensures Good(Next(s, q, ToA(mem)), q, ph.ArrivesA())
  {
    assert InBA(ph) != [];
    hide At, Carries, Next, Enabled;
    if ph.hand == SynAckFlies {
      SynAckReachesA(s, q, ph, mem);
    } else if ph.turn.AckToA? {
      AckReachesA(s, q, ph, mem);
    } else if ph.turn.d == [] {
      EmptyReachesA(s, q, ph, mem);
    } else {
      DataReachesA(s, q, ph, mem);
    }
  }

  lemma MoveKeeps(s: System, q: Quad, ph: Phase, m: Move)
    requires Good(s, q, ph) && Enabled(s, q, m) && !Early(s, q, m) && !Refuses(s, q, m)
    ensures Good(Next(s, q, m), q, ph.After(m))
  {
    hide Step, Rx, Heard, Shaped, Carries, Refuses;
    match m
    case ToB(mem) => ToBKeeps(s, q, ph, mem);
    case ToA(mem) => ToAKeeps(s, q, ph, mem);
    case SendA(data) => SendAKeeps(s, q, ph, data);
    case SendB(data) => SendBKeeps(s, q, ph, data);
    case OtherA(ev) => OtherTraffic(s.a, ev, q);
    case OtherB(ev) => OtherTraffic(s.b, ev, q.Reversed());
  }

  lemma StartSends(a: Endpoint, mem: Conn, s: System, q: Quad) returns (p: Packet)
    requires Started(a, mem, s, q)
    ensures Carries(p, q, 0, 0, SYN, []) && Effect(a, s.a, q, [p], []) && s.ab == [p]
    ensures Heard(s.a.printed, q) == s.oldA && Heard(s.b.printed, q.Reversed()) == s.oldB
  {
    hide ActiveConnect, Heard, At, Carries;
    Connects(a, q, mem);
    p :| Carries(p, q, 0, 0, SYN, []) && Effect(a, s.a, q, [p], []);
  }

  lemma StartIsGood(a: Endpoint, mem: Conn, s: System, q: Quad)
    requires Started(a, mem, s, q) && |a.table| < TABLE_CAPACITY
    ensures Good(s, q, Phase(SynFlies, Idle, [], []))
  {
    hide ActiveConnect, Heard, At, Carries, Shaped;
    Connects(a, q, mem);
    var p := StartSends(a, mem, s, q);
    assert s.oldA + [] == s.oldA && s.oldB + [] == s.oldB;
    One(p, q, Spec(0, 0, SYN, []));
    Nothing(q.Reversed());
    var ph := Phase(SynFlies, Idle, [], []);
    assert InAB(ph) == [Spec(0, 0, SYN, [])] && InBA(ph) == [];
  }

  lemma NextKeepsHistory(s: System, q: Quad, m: Move)
    requires Enabled(s, q, m)
    ensures Next(s, q, m).oldA == s.oldA && Next(s, q, m).oldB == s.oldB
  {
    hide Rx, Step, Frame.SegmentOf, NewPackets;
  }
}
