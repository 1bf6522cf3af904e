/** Every course a run of module Duplex can take: the sound one, the one after a send in SYN_SENT, and
    the one after a full table has refused the record of either end. */
module Courses {
  import opened SeqArith
  import opened TcpTypes
  import opened TcpSpec
  import opened TcpRuns
  import opened Duplex
  import Frame

  // ----- after a send in SYN_SENT -----

  /** Such a send is lost. What remains is the handshake, with the segment of `d` still on its way to B
      or not; it carries the acknowledgement 0, and B takes it for the end of the handshake. */
  datatype Loss = Loss(hand: Hand, flies: bool, d: Bytes) {
    predicate Possible() {
      0 < |d| <= PAYLOAD_SIZE && (hand == SynFlies ==> flies) && (hand == Open ==> !flies)
    }

    function InAB(): seq<Spec> {
      (if hand == SynFlies then [Spec(0, 0, SYN, [])] else [])
      + (if flies then [Spec(1, 0, PSH_ACK, d)] else [])
      + (if hand == AckFlies then [Spec(1, 1, ACK, [])] else [])
    }

    function InBA(): seq<Spec> { if hand == SynAckFlies then [Spec(0, 1, SYN_ACK, [])] else [] }

    predicate Answered() { hand == AckFlies || hand == Open }

    function ArrivesB(): Loss {
      if hand == SynFlies then this.(hand := SynAckFlies)
      else if flies then this.(flies := false)
      else this.(hand := Open)
    }

    function After(m: Move): Loss {
      match m
      case ToB(_) => ArrivesB()
      case ToA(_) => this.(hand := AckFlies)
      case _ => this
    }

    predicate EndA(e: Endpoint, q: Quad) {
      if Answered() then At(e, q, ESTABLISHED, 2, 1, 1) else At(e, q, SYN_SENT, 0, 1, 0)
    }

    predicate EndB(e: Endpoint, q: Quad) {
      if hand == SynFlies then q !in e.table && q.dip == e.nicIp
      else At(e, q, if flies then SYN_RECV else ESTABLISHED, 0, 1, 1)
    }
  }

  predicate Lost(s: System, q: Quad, l: Loss) {
    && l.Possible() && l.EndA(s.a, q) && l.EndB(s.b, q.Reversed())
    && Shaped(s.ab, q, l.InAB()) && Shaped(s.ba, q.Reversed(), l.InBA())
    && s.gaveA == l.d && s.gaveB == [] && Silent(s, q)
  }

  /** Neither side has printed anything for the flow. */
  predicate Silent(s: System, q: Quad) {
    Heard(s.a.printed, q) == s.oldA && Heard(s.b.printed, q.Reversed()) == s.oldB
  }

  /** The acknowledgement of the lost bytes never comes, so nothing more is sent. */
  lemma LostIsNeverAcknowledged(s: System, q: Quad, l: Loss)
    requires Lost(s, q, l)
    ensures !Acknowledged(s, q)
  {
    hide Heard, Shaped, Carries, NoPush;
    ShortMovesResidue(1, |l.d|);
  }

  lemma EarlySendIsLost(s: System, q: Quad, ph: Phase, d: Bytes)
    requires Good(s, q, ph) && Enabled(s, q, SendA(d)) && Early(s, q, SendA(d))
    ensures Lost(Next(s, q, SendA(d)), q, Loss(ph.hand, true, d)) && ph.turn == Idle
  {
    hide Step, Carries, Shaped, Heard, Mod32, Acknowledged;
    AcknowledgedIsIdle(s, q, ph);
    EarlyHand(s.a, q, ph);
    Sends(s.a, q, d, SYN_SENT, 0, 1, 0);
    var f := Step(s.a, Send(q, d));
    var p :| Carries(p, q, 1, 0, PSH_ACK, d) && Effect(s.a, f, q, [p], []);
    var l := Loss(ph.hand, true, d);
    One(p, q, Spec(1, 0, PSH_ACK, d));
    ShapedAppend(s.ab, [p], q, InAB(ph), [Spec(1, 0, PSH_ACK, d)]);
    assert l.InAB() == InAB(ph) + [Spec(1, 0, PSH_ACK, d)] && l.InBA() == InBA(ph);
    assert s.oldA + [] == s.oldA && s.oldB + [] == s.oldB;
  }

  lemma EarlyHand(e: Endpoint, q: Quad, ph: Phase)
    requires EndA(e, q, ph) && ph.Possible() && e.table[q].state == SYN_SENT
    ensures (ph.hand == SynFlies || ph.hand == SynAckFlies) && At(e, q, SYN_SENT, 0, 1, 0)
    ensures ph.doneA == [] && ph.doneB == []
  {
  }

  lemma LostAfterB(s: System, t: System, q: Quad, l: Loss, n: Loss, f: Endpoint, sent: seq<Packet>, specs: seq<Spec>)
    requires Lost(s, q, l) && MoveOfB(s, t, q, f, 1, sent, [], [])
    requires n.Possible() && n.d == l.d && n.Answered() == l.Answered() && n.EndB(f, q.Reversed())
    requires l.InAB() != [] && n.InAB() == l.InAB()[1..] && n.InBA() == l.InBA() + specs && Shaped(sent, q.Reversed(), specs)
    ensures Lost(t, q, n)
  {
    hide Shaped, At, Heard, l.InAB, l.InBA, l.EndB;
    ShapedMove(s.ab, q, l.InAB(), 1);
    ShapedAppend(s.ba, sent, q.Reversed(), l.InBA(), specs);
    assert s.oldB + [] == s.oldB && s.gaveB + [] == s.gaveB;
  }

  lemma LostToB(s: System, q: Quad, l: Loss, mem: Conn)
    requires Lost(s, q, l) && Enabled(s, q, ToB(mem)) && !Refuses(s, q, ToB(mem))
    ensures Lost(Next(s, q, ToB(mem)), q, l.ArrivesB())
  {
    hide Rx, Frame.SegmentOf, Carries, Shaped, At, Heard, Acknowledged, Refuses;
    LostSynMeets(s, q, l, mem);
    ChannelIsNotEmpty(s.ab, q, l.InAB());
    FirstArrives(s.ab, q, l.InAB());
    var seg, r, n := Frame.SegmentOf(s.ab[0]), q.Reversed(), l.ArrivesB();
    var f := Rx(s.b, seg, mem);
    if l.hand == SynFlies {
      Listens(s.b, seg, mem);
      var p :| Carries(p, r, 0, 1, SYN_ACK, []) && Effect(s.b, f, r, [p], []);
      ToBIsMove(s, q, mem, [p], []);
      One(p, r, Spec(0, 1, SYN_ACK, []));
      LostAfterB(s, Next(s, q, ToB(mem)), q, l, n, f, [p], [Spec(0, 1, SYN_ACK, [])]);
    } else {
      if l.flies {
        PassivelyEstablishes(s.b, seg, mem);
      } else {
        TakesAck(s.b, seg, mem, 0, 1, 1);
      }
      ToBIsMove(s, q, mem, [], []);
      Nothing(r);
      LostAfterB(s, Next(s, q, ToB(mem)), q, l, n, f, [], []);
    }
  }

  lemma LostSynMeets(s: System, q: Quad, l: Loss, mem: Conn)
    requires Lost(s, q, l) && Enabled(s, q, ToB(mem))
    ensures Refuses(s, q, ToB(mem)) <==> l.hand == SynFlies && |s.b.table| >= TABLE_CAPACITY
  {
    hide Rx, Frame.SegmentOf, Heard, Acknowledged;
    ChannelIsNotEmpty(s.ab, q, l.InAB());
    var sp := l.InAB()[0];
    assert Carries(s.ab[0], q, sp.seqn, sp.ackn, sp.flags, sp.data);
  }

  lemma ChannelIsNotEmpty(ps: seq<Packet>, q: Quad, specs: seq<Spec>)
    requires Shaped(ps, q, specs) && ps != []
    ensures specs != []
  {
  }

  lemma LostToA(s: System, q: Quad, l: Loss, mem: Conn)
    requires Lost(s, q, l) && Enabled(s, q, ToA(mem))
    ensures l.hand == SynAckFlies && Lost(Next(s, q, ToA(mem)), q, l.(hand := AckFlies))
  {
    hide Rx, Frame.SegmentOf, Carries, Shaped, At, Heard, Acknowledged;
    ChannelIsNotEmpty(s.ba, q.Reversed(), l.InBA());
    FirstArrives(s.ba, q.Reversed(), l.InBA());
    var seg := Frame.SegmentOf(s.ba[0]);
    ActivelyEstablishes(s.a, seg, mem);
    var p :| Carries(p, q, 1, 1, ACK, []) && Effect(s.a, Rx(s.a, seg, mem), q, [p], []);
    ToAIsMove(s, q, mem, [p], []);
    var n := l.(hand := AckFlies);
    One(p, q, Spec(1, 1, ACK, []));
    ShapedMove(s.ba, q.Reversed(), l.InBA(), 1);
    ShapedAppend(s.ab, [p], q, l.InAB(), [Spec(1, 1, ACK, [])]);
    assert n.InAB() == l.InAB() + [Spec(1, 1, ACK, [])] && n.InBA() == l.InBA()[1..];
    assert s.oldA + [] == s.oldA && s.gaveA + [] == s.gaveA;
  }

  lemma LostKeeps(s: System, q: Quad, l: Loss, m: Move)
    requires Lost(s, q, l) && Enabled(s, q, m) && !Refuses(s, q, m)
    ensures Lost(Next(s, q, m), q, l.After(m))
    ensures !m.SendA? && !m.SendB?
  {
    hide Step, Rx, Heard, Shaped, Carries, Acknowledged, Refuses;
    LostIsNeverAcknowledged(s, q, l);
    match m
    case ToB(mem) => LostToB(s, q, l, mem);
    case ToA(mem) => LostToA(s, q, l, mem);
    case OtherA(ev) => OtherTraffic(s.a, ev, q);
    case OtherB(ev) => OtherTraffic(s.b, ev, q.Reversed());
    case _ =>
  }

  // ----- after a table has refused a record -----

  /** Segments that an end without an entry drops. */
  predicate Dead(ps: seq<Packet>, q: Quad) {
    forall i :: 0 <= i < |ps| ==> FlowOf(ps[i]) == q && ps[i].tcp.flags != SYN && |ps[i].data| <= PAYLOAD_SIZE && Frame.IsStamped(ps[i])
  }

  /** A's table was full when it called `active_connect`. Its SYN is on its way or has been answered,
      and whatever B sends is dropped. */
  predicate OpenerStranded(s: System, q: Quad) {
    var r := q.Reversed();
    && q !in s.a.table && q.dip == s.a.nicIp && r.dip == s.b.nicIp
    && s.gaveA == [] && |s.gaveB| <= PAYLOAD_SIZE && (r !in s.b.table ==> s.gaveB == [])
    && Dead(s.ba, r)
    && if s.ab == [] then r in s.b.table ==> At(s.b, r, SYN_RECV, 0, 1, 1)
       else Shaped(s.ab, q, [Spec(0, 0, SYN, [])]) && r !in s.b.table
  }

  /** B's table was full when the SYN arrived. Its SYN-ACK is on its way or has established A, and
      whatever A sends is dropped. */
  predicate ListenerStranded(s: System, q: Quad) {
    var r := q.Reversed();
    && r !in s.b.table && r.dip == s.b.nicIp
    && s.gaveB == [] && |s.gaveA| <= PAYLOAD_SIZE
    && Dead(s.ab, q)
    && if s.ba == [] then At(s.a, q, ESTABLISHED, 2, 1, 1)
       else Shaped(s.ba, r, [Spec(0, 1, SYN_ACK, [])]) && At(s.a, q, SYN_SENT, 0, 1, 0)
  }

  predicate Stranded(s: System, q: Quad) {
    Silent(s, q) && (OpenerStranded(s, q) || ListenerStranded(s, q))
  }

  lemma DeadOne(p: Packet, q: Quad, sp: Spec)
    requires Carries(p, q, sp.seqn, sp.ackn, sp.flags, sp.data) && sp.flags != SYN && |sp.data| <= PAYLOAD_SIZE
    ensures Dead([p], q)
  {
  }

  lemma DeadAppend(ps: seq<Packet>, more: seq<Packet>, q: Quad)
    requires Dead(ps, q) && Dead(more, q)
    ensures Dead(ps + more, q)
  {
  }

  lemma DeadTail(ps: seq<Packet>, q: Quad)
    requires Dead(ps, q) && ps != []
    ensures Dead(ps[1..], q)
  {
  }

  lemma DeadShaped(ps: seq<Packet>, q: Quad, specs: seq<Spec>)
    requires Shaped(ps, q, specs)
    requires forall i :: 0 <= i < |specs| ==> specs[i].flags != SYN && |specs[i].data| <= PAYLOAD_SIZE
    ensures Dead(ps, q)
  {
    forall i | 0 <= i < |ps| ensures FlowOf(ps[i]) == q && ps[i].tcp.flags != SYN && |ps[i].data| <= PAYLOAD_SIZE && Frame.IsStamped(ps[i]) {
      var sp := specs[i];
      assert Carries(ps[i], q, sp.seqn, sp.ackn, sp.flags, sp.data);
    }
  }

  /** The first of them arrives and changes nothing. */
  lemma DeadArrives(ps: seq<Packet>, q: Quad, e: Endpoint, mem: Conn)
    requires Dead(ps, q) && ps != [] && q.Reversed() !in e.table
    ensures Rx(e, Frame.SegmentOf(ps[0]), mem) == e && NewPackets(e, e) == []
  {
    var seg := Frame.SegmentOf(ps[0]);
    assert seg.q == q.Reversed();
    Drops(e, seg, mem);
  }

  lemma StartIsStranded(a: Endpoint, mem: Conn, s: System, q: Quad)
    requires Started(a, mem, s, q) && |a.table| >= TABLE_CAPACITY
    ensures Stranded(s, q) && q !in s.a.table && |s.ab| == 1 && s.ba == []
  {
    hide ActiveConnect, Heard, At, Carries, Shaped;
    Connects(a, q, mem);
    var p := StartSends(a, mem, s, q);
    One(p, q, Spec(0, 0, SYN, []));
  }

  /** The SYN meets a full table: the listener answers all the same, without an entry. `before` stands
      for what else was in the channel to B. */
  lemma RefusalStrands(s: System, q: Quad, mem: Conn, specs: seq<Spec>)
    requires Enabled(s, q, ToB(mem)) && Refuses(s, q, ToB(mem)) && Silent(s, q)
    requires Shaped(s.ab, q, [Spec(0, 0, SYN, [])] + specs) && s.ba == [] && At(s.a, q, SYN_SENT, 0, 1, 0)
    requires forall i :: 0 <= i < |specs| ==> specs[i].flags != SYN && |specs[i].data| <= PAYLOAD_SIZE
    requires q.Reversed().dip == s.b.nicIp && s.gaveB == [] && |s.gaveA| <= PAYLOAD_SIZE
    ensures Stranded(Next(s, q, ToB(mem)), q)
    ensures var t := Next(s, q, ToB(mem)); q in t.a.table && |t.ab| == |specs| && |t.ba| == 1
  {
    hide Rx, Frame.SegmentOf, Carries, Shaped, Heard, Acknowledged;
    FirstArrives(s.ab, q, [Spec(0, 0, SYN, [])] + specs);
    var seg, r, t := Frame.SegmentOf(s.ab[0]), q.Reversed(), Next(s, q, ToB(mem));
    Listens(s.b, seg, mem);
    var p :| Carries(p, r, 0, 1, SYN_ACK, []) && Effect(s.b, Rx(s.b, seg, mem), r, [p], []);
    ToBIsMove(s, q, mem, [p], []);
    One(p, r, Spec(0, 1, SYN_ACK, []));
    ShapedMove(s.ab, q, [Spec(0, 0, SYN, [])] + specs, 1);
    assert ([Spec(0, 0, SYN, [])] + specs)[1..] == specs;
    DeadShaped(t.ab, q, specs);
    ShapedSize(t.ab, q, specs);
    assert s.oldB + [] == s.oldB && t.ba == [p];
  }

  lemma ShapedSize(ps: seq<Packet>, q: Quad, specs: seq<Spec>)
    requires Shaped(ps, q, specs)
    ensures |ps| == |specs|
  {
  }

  lemma GoodIsRefused(s: System, q: Quad, ph: Phase, mem: Conn)
    requires Good(s, q, ph) && Enabled(s, q, ToB(mem)) && Refuses(s, q, ToB(mem))
    ensures Stranded(Next(s, q, ToB(mem)), q) && ph == Phase(SynFlies, Idle, [], [])
    ensures var t := Next(s, q, ToB(mem)); q in t.a.table && t.ab == [] && |t.ba| == 1
  {
    hide Rx, Frame.SegmentOf, Heard, Acknowledged, Next;
    var sp := InAB(ph)[0];
    assert Carries(s.ab[0], q, sp.seqn, sp.ackn, sp.flags, sp.data);
    assert ph.hand == SynFlies;
    assert InAB(ph) == [Spec(0, 0, SYN, [])] + [];
    assert s.oldA + [] == s.oldA && s.oldB + [] == s.oldB;
    RefusalStrands(s, q, mem, []);
  }

  lemma LostIsRefused(s: System, q: Quad, l: Loss, mem: Conn)
    requires Lost(s, q, l) && Enabled(s, q, ToB(mem)) && Refuses(s, q, ToB(mem))
    ensures Stranded(Next(s, q, ToB(mem)), q) && l.hand == SynFlies && l.flies
    ensures var t := Next(s, q, ToB(mem)); q in t.a.table && |t.ab| == 1 && |t.ba| == 1
  {
    hide Rx, Frame.SegmentOf, Heard, Acknowledged, Next, Refuses, At, Carries;
    LostSynMeets(s, q, l, mem);
    assert l.InAB() == [Spec(0, 0, SYN, [])] + [Spec(1, 0, PSH_ACK, l.d)];
    RefusalStrands(s, q, mem, [Spec(1, 0, PSH_ACK, l.d)]);
  }

  lemma OpenerStrandedToB(s: System, q: Quad, mem: Conn)
    requires Silent(s, q) && OpenerStranded(s, q) && Enabled(s, q, ToB(mem))
    ensures var t := Next(s, q, ToB(mem));
            Silent(t, q) && OpenerStranded(t, q) && |s.ab| == 1 && t.ab == [] && |t.ba| == |s.ba| + 1
  {
    hide Rx, Frame.SegmentOf, Carries, Heard, Acknowledged, Dead;
    FirstArrives(s.ab, q, [Spec(0, 0, SYN, [])]);
    var seg, r, t := Frame.SegmentOf(s.ab[0]), q.Reversed(), Next(s, q, ToB(mem));
    Listens(s.b, seg, mem);
    var p :| Carries(p, r, 0, 1, SYN_ACK, []) && Effect(s.b, Rx(s.b, seg, mem), r, [p], []);
    ToBIsMove(s, q, mem, [p], []);
    DeadOne(p, r, Spec(0, 1, SYN_ACK, []));
    DeadAppend(s.ba, [p], r);
    assert s.oldB + [] == s.oldB && t.ba == s.ba + [p];
  }

  lemma OpenerStrandedToA(s: System, q: Quad, mem: Conn)
    requires Silent(s, q) && OpenerStranded(s, q) && Enabled(s, q, ToA(mem))
    ensures var t := Next(s, q, ToA(mem)); Silent(t, q) && OpenerStranded(t, q) && t == s.(ba := s.ba[1..])
  {
    hide Rx, Frame.SegmentOf, Heard, Acknowledged, Dead, At, Shaped, NewPackets;
    DeadArrives(s.ba, q.Reversed(), s.a, mem);
    DeadTail(s.ba, q.Reversed());
    assert s.ab + [] == s.ab;
  }

  lemma ListenerStrandedToB(s: System, q: Quad, mem: Conn)
    requires Silent(s, q) && ListenerStranded(s, q) && Enabled(s, q, ToB(mem))
    ensures var t := Next(s, q, ToB(mem)); Silent(t, q) && ListenerStranded(t, q) && t == s.(ab := s.ab[1..])
  {
    hide Rx, Frame.SegmentOf, Heard, Acknowledged, Dead, At, Shaped, NewPackets;
    DeadArrives(s.ab, q, s.b, mem);
    DeadTail(s.ab, q);
    assert s.ba + [] == s.ba;
  }

  lemma ListenerStrandedToA(s: System, q: Quad, mem: Conn)
    requires Silent(s, q) && ListenerStranded(s, q) && Enabled(s, q, ToA(mem))
    ensures var t := Next(s, q, ToA(mem));
            Silent(t, q) && ListenerStranded(t, q) && |s.ba| == 1 && t.ba == [] && |t.ab| == |s.ab| + 1
  {
    hide Rx, Frame.SegmentOf, Carries, Heard, Acknowledged, Dead;
    var r := q.Reversed();
    FirstArrives(s.ba, r, [Spec(0, 1, SYN_ACK, [])]);
    var seg, t := Frame.SegmentOf(s.ba[0]), Next(s, q, ToA(mem));
    ActivelyEstablishes(s.a, seg, mem);
    var p :| Carries(p, q, 1, 1, ACK, []) && Effect(s.a, Rx(s.a, seg, mem), q, [p], []);
    ToAIsMove(s, q, mem, [p], []);
    DeadOne(p, q, Spec(1, 1, ACK, []));
    DeadAppend(s.ab, [p], q);
    assert s.oldA + [] == s.oldA && t.ab == s.ab + [p];
  }

  /** Sending is possible only while nothing was sent, and sends into the void. */
  lemma OpenerStrandedSend(s: System, q: Quad, d: Bytes)
    requires Silent(s, q) && OpenerStranded(s, q) && Enabled(s, q, SendB(d))
    ensures var t := Next(s, q, SendB(d));
            Silent(t, q) && OpenerStranded(t, q) && t.ab == s.ab && |t.ba| == |s.ba| + 1
  {
    hide Step, Carries, Shaped, Heard, Dead, NoPush;
    var r, t := q.Reversed(), Next(s, q, SendB(d));
    if s.gaveB != [] {
      ShortMovesResidue(1, |s.gaveB|);
    }
    Sends(s.b, r, d, SYN_RECV, 0, 1, 1);
    var p :| Carries(p, r, 1, 1, PSH_ACK, d) && Effect(s.b, Step(s.b, Send(r, d)), r, [p], []);
    DeadOne(p, r, Spec(1, 1, PSH_ACK, d));
    DeadAppend(s.ba, [p], r);
    assert s.oldB + [] == s.oldB && t.ba == s.ba + [p] && [] + d == d;
  }

  lemma ListenerStrandedSend(s: System, q: Quad, d: Bytes)
    requires Silent(s, q) && ListenerStranded(s, q) && Enabled(s, q, SendA(d))
    ensures var t := Next(s, q, SendA(d));
            Silent(t, q) && ListenerStranded(t, q) && |t.ab| == |s.ab| + 1 && t.ba == s.ba
  {
    hide Step, Carries, Shaped, Heard, Dead, NoPush;
    var t := Next(s, q, SendA(d));
    if s.gaveA != [] {
      ShortMovesResidue(1, |s.gaveA|);
    }
    var ackn: u32 := if s.ba == [] then 1 else 0;
    if s.ba == [] {
      Sends(s.a, q, d, ESTABLISHED, 2, 1, 1);
    } else {
      Sends(s.a, q, d, SYN_SENT, 0, 1, 0);
    }
    var p :| Carries(p, q, 1, ackn, PSH_ACK, d) && Effect(s.a, Step(s.a, Send(q, d)), q, [p], []);
    DeadOne(p, q, Spec(1, ackn, PSH_ACK, d));
    DeadAppend(s.ab, [p], q);
    assert s.oldA + [] == s.oldA && t.ab == s.ab + [p] && [] + d == d;
  }

  /** Deliveries that remain: the segment that opens the flow is answered once, all others vanish. */
  function StrandedWork(s: System, q: Quad): nat {
    if q in s.a.table then |s.ab| + 2 * |s.ba| else 2 * |s.ab| + |s.ba|
  }

  lemma StrandedKeeps(s: System, q: Quad, m: Move)
    requires Stranded(s, q) && Enabled(s, q, m)
    ensures var t := Next(s, q, m);
            && Stranded(t, q)
            && (m.ToA? || m.ToB? ==> StrandedWork(s, q) == StrandedWork(t, q) + 1)
            && (m.SendA? || m.SendB? ==> StrandedWork(t, q) == StrandedWork(s, q) + 1)
            && (m.OtherA? || m.OtherB? ==> StrandedWork(t, q) == StrandedWork(s, q))
  {
    hide Step, Rx, Heard, Shaped, Carries, Acknowledged, Dead, Frame.SegmentOf, NewPackets;
    var opener := OpenerStranded(s, q);
    match m
    case ToB(mem) =>
      if opener { OpenerStrandedToB(s, q, mem); } else { ListenerStrandedToB(s, q, mem); }
    case ToA(mem) =>
      if opener { OpenerStrandedToA(s, q, mem); } else { ListenerStrandedToA(s, q, mem); }
    case SendA(d) => ListenerStrandedSend(s, q, d);
    case SendB(d) => OpenerStrandedSend(s, q, d);
    case OtherA(ev) => OtherTraffic(s.a, ev, q);
    case OtherB(ev) => OtherTraffic(s.b, ev, q.Reversed());
  }

  // ----- every run -----

  datatype Course = Sound(ph: Phase) | Lossy(l: Loss) | Refused

  predicate Follows(s: System, q: Quad, c: Course) {
    match c
    case Sound(ph) => Good(s, q, ph)
    case Lossy(l) => Lost(s, q, l)
    case Refused => Stranded(s, q)
  }

  /** The number of deliveries after which nothing is in flight. */
  function Work(s: System, q: Quad, c: Course): nat {
    match c
    case Sound(ph) => ph.Work()
    case Lossy(l) => HandWork(l.hand) + if l.flies then 1 else 0
    case Refused => StrandedWork(s, q)
  }

  function After(s: System, q: Quad, c: Course, m: Move): Course {
    if Refuses(s, q, m) then Refused
    else
      match c
      case Sound(ph) => if Early(s, q, m) then Lossy(Loss(ph.hand, true, m.data)) else Sound(ph.After(m))
      case Lossy(l) => Lossy(l.After(m))
      case Refused => Refused
  }

  /** How much one move adds to the deliveries that remain, or takes from them. */
  predicate WorkMoves(before: nat, after: nat, m: Move) {
    match m
    case ToA(_) => before == after + 1
    case ToB(_) => before == after + 1
    case SendA(_) => before < after <= before + 2
    case SendB(_) => before < after <= before + 2
    case _ => before == after
  }

  /** Every move keeps the run on a course, every delivery brings it one delivery nearer to silence. */
  lemma CourseKeeps(s: System, q: Quad, c: Course, m: Move)
    requires Follows(s, q, c) && Enabled(s, q, m)
    ensures Follows(Next(s, q, m), q, After(s, q, c, m))
    ensures WorkMoves(Work(s, q, c), Work(Next(s, q, m), q, After(s, q, c, m)), m)
  {
    hide Good, Lost, Stranded, Enabled, Next, Early, Refuses;
    RefusedIsDelivery(s, q, m);
    EarlyIsSend(s, q, m);
    match c
    case Refused => StrandedKeeps(s, q, m);
    case Sound(ph) =>
      if Refuses(s, q, m) {
        GoodIsRefused(s, q, ph, m.mem);
      } else if Early(s, q, m) {
        EarlySendIsLost(s, q, ph, m.data);
      } else {
        MoveKeeps(s, q, ph, m);
        GoodWork(s, q, ph, m);
      }
    case Lossy(l) =>
      if Refuses(s, q, m) {
        LostIsRefused(s, q, l, m.mem);
      } else {
        LostKeeps(s, q, l, m);
        LostWork(s, q, l, m);
      }
  }

  lemma RefusedIsDelivery(s: System, q: Quad, m: Move)
    ensures Refuses(s, q, m) ==> m.ToB? && m == ToB(m.mem)
  {
  }

  lemma EarlyIsSend(s: System, q: Quad, m: Move)
    ensures Early(s, q, m) ==> m.SendA? && m == SendA(m.data)
  {
  }

  lemma GoodWork(s: System, q: Quad, ph: Phase, m: Move)
    requires Good(s, q, ph) && Enabled(s, q, m)
    ensures WorkMoves(ph.Work(), ph.After(m).Work(), m)
  {
    hide At, Carries, Heard, Acknowledged, EndA, EndB;
    if m.SendA? || m.SendB? {
      AcknowledgedIsIdle(s, q, ph);
    }
  }

  lemma LostWork(s: System, q: Quad, l: Loss, m: Move)
    requires Lost(s, q, l) && Enabled(s, q, m) && !m.SendA? && !m.SendB?
    ensures WorkMoves(Work(s, q, Lossy(l)), Work(s, q, Lossy(l.After(m))), m)
  {
    hide At, Carries, Heard, Acknowledged, l.EndA, l.EndB;
  }

  /** Segments of the flow `q` that fit a frame. */
  predicate Fit(ps: seq<Packet>, q: Quad) {
    forall k :: 0 <= k < |ps| ==> |ps[k].data| <= PAYLOAD_SIZE && FlowOf(ps[k]) == q && Frame.IsStamped(ps[k])
  }

  /** Nothing is in flight exactly when no work remains, and whatever is in flight can be delivered. */
  lemma WorkIsInFlight(s: System, q: Quad, c: Course)
    requires Follows(s, q, c)
    ensures Work(s, q, c) == 0 <==> s.ab == [] && s.ba == []
    ensures Fit(s.ab, q) && Fit(s.ba, q.Reversed())
  {
    hide At, Heard, Good, Lost, Stranded, Fit;
    match c
    case Sound(ph) => SoundInFlight(s, q, ph);
    case Lossy(l) => LossyInFlight(s, q, l);
    case Refused => StrandedInFlight(s, q);
  }

  lemma SoundInFlight(s: System, q: Quad, ph: Phase)
    requires Good(s, q, ph)
    ensures Fit(s.ab, q) && Fit(s.ba, q.Reversed()) && (ph.Work() == 0 <==> s.ab == [] && s.ba == [])
  {
    hide EndA, EndB, Heard, Shaped, Fit;
    SmallSpecs(ph);
    InFlight(s.ab, q, InAB(ph));
    InFlight(s.ba, q.Reversed(), InBA(ph));
  }

  lemma LossyInFlight(s: System, q: Quad, l: Loss)
    requires Lost(s, q, l)
    ensures Fit(s.ab, q) && Fit(s.ba, q.Reversed()) && (HandWork(l.hand) == 0 && !l.flies <==> s.ab == [] && s.ba == [])
  {
    hide l.EndA, l.EndB, Heard, Shaped, Fit;
    InFlight(s.ab, q, l.InAB());
    InFlight(s.ba, q.Reversed(), l.InBA());
  }

  lemma StrandedInFlight(s: System, q: Quad)
    requires Stranded(s, q)
    ensures Fit(s.ab, q) && Fit(s.ba, q.Reversed())
  {
    hide At, Heard, Shaped;
    if OpenerStranded(s, q) {
      if s.ab != [] {
        InFlight(s.ab, q, [Spec(0, 0, SYN, [])]);
      }
    } else if s.ba != [] {
      InFlight(s.ba, q.Reversed(), [Spec(0, 1, SYN_ACK, [])]);
    }
  }

  lemma InFlight(ps: seq<Packet>, q: Quad, specs: seq<Spec>)
    requires Shaped(ps, q, specs) && forall k :: 0 <= k < |specs| ==> |specs[k].data| <= PAYLOAD_SIZE
    ensures |ps| == |specs| && Fit(ps, q)
  {
    forall k | 0 <= k < |ps| ensures |ps[k].data| <= PAYLOAD_SIZE && FlowOf(ps[k]) == q && Frame.IsStamped(ps[k]) {
      var sp := specs[k];
      assert Carries(ps[k], q, sp.seqn, sp.ackn, sp.flags, sp.data);
    }
  }

  lemma SmallSpecs(ph: Phase)
    requires ph.Possible()
    ensures forall k :: 0 <= k < |InAB(ph)| ==> |InAB(ph)[k].data| <= PAYLOAD_SIZE
    ensures forall k :: 0 <= k < |InBA(ph)| ==> |InBA(ph)[k].data| <= PAYLOAD_SIZE
  {
  }

  /** Among the first `i` moves is a send in SYN_SENT. */
  predicate SentEarly(states: seq<System>, moves: seq<Move>, q: Quad, i: nat)
    requires i <= |moves| < |states|
  {
    exists k :: 0 <= k < i && Early(states[k], q, moves[k])
  }

  /** Neither end's table was full when it had to enter the flow. */
  predicate Roomy(a: Endpoint, states: seq<System>, moves: seq<Move>, q: Quad, i: nat)
    requires i <= |moves| < |states|
  {
    |a.table| < TABLE_CAPACITY && forall k :: 0 <= k < i ==> !Refuses(states[k], q, moves[k])
  }

  function Deliveries(moves: seq<Move>): nat {
    if moves == [] then 0
    else
      var n := |moves| - 1;
      Deliveries(moves[..n]) + if moves[n].ToA? || moves[n].ToB? then 1 else 0
  }

  function SendCount(moves: seq<Move>): nat {
    if moves == [] then 0
    else
      var n := |moves| - 1;
      SendCount(moves[..n]) + if moves[n].SendA? || moves[n].SendB? then 1 else 0
  }

  lemma CountsSnoc(moves: seq<Move>, i: nat)
    requires i < |moves|
    ensures Deliveries(moves[..i + 1]) == Deliveries(moves[..i]) + if moves[i].ToA? || moves[i].ToB? then 1 else 0
    ensures SendCount(moves[..i + 1]) == SendCount(moves[..i]) + if moves[i].SendA? || moves[i].SendB? then 1 else 0
  {
    assert moves[..i + 1][..i] == moves[..i];
  }

  lemma StartFollows(a: Endpoint, mem: Conn, s: System, q: Quad) returns (c: Course)
    requires Started(a, mem, s, q)
    ensures Follows(s, q, c) && Work(s, q, c) <= 3 && !c.Lossy? && (c.Refused? <==> |a.table| >= TABLE_CAPACITY)
  {
    hide Good, Lost, Stranded, Started;
    if |a.table| < TABLE_CAPACITY {
      StartIsGood(a, mem, s, q);
      c := Sound(Phase(SynFlies, Idle, [], []));
    } else {
      StartIsStranded(a, mem, s, q);
      c := Refused;
    }
  }

  /** Every state of every run is on the course that its history decides: refused when either table was
      full, lossy when both had room but something was sent in SYN_SENT, and sound otherwise. The
      deliveries made and the deliveries that remain are bounded by the sends. */
  lemma {:induction false} RunCourse(a: Endpoint, mem: Conn, states: seq<System>, moves: seq<Move>, q: Quad, i: nat) returns (c: Course)
    requires IsRun(a, mem, states, moves, q) && i <= |moves|
    ensures Follows(states[i], q, c)
    ensures c.Refused? <==> !Roomy(a, states, moves, q, i)
    ensures c.Lossy? <==> Roomy(a, states, moves, q, i) && SentEarly(states, moves, q, i)
    ensures Deliveries(moves[..i]) + Work(states[i], q, c) <= 3 + 2 * SendCount(moves[..i])
    ensures states[i].oldA == states[0].oldA && states[i].oldB == states[0].oldB
  {
    hide Follows, Work, Enabled, Next, Started, Early, Refuses;
    if i == 0 {
      c := StartFollows(a, mem, states[0], q);
    } else {
      var before := RunCourse(a, mem, states, moves, q, i - 1);
      var s, m := states[i - 1], moves[i - 1];
      c := After(s, q, before, m);
      CourseKeeps(s, q, before, m);
      NextKeepsHistory(s, q, m);
      CountsSnoc(moves, i - 1);
      assert Roomy(a, states, moves, q, i) <==> Roomy(a, states, moves, q, i - 1) && !Refuses(s, q, m);
      assert SentEarly(states, moves, q, i) <==> SentEarly(states, moves, q, i - 1) || Early(s, q, m);
    }
  }
}
