/** What the runs of module Duplex deliver, that each of them can be finished, and that any bytes can be
    transferred by one. */
module Delivery {
  import opened SeqArith
  import opened TcpTypes
  import opened TcpSpec
  import opened TcpRuns
  import opened Duplex
  import opened Courses
  import TcpEndpoint
  import Frame

  // ----- when everything is delivered -----

  /** Nothing in flight: both ends are established, everything sent has been printed by the peer, and
      the two ends agree on both sequence numbers modulo 2^32. */
  predicate Settled(s: System, q: Quad) {
    && At(s.a, q, ESTABLISHED, 2, Mod32(1 + |s.gaveA|), Mod32(1 + |s.gaveB|))
    && At(s.b, q.Reversed(), ESTABLISHED, 0, Mod32(1 + |s.gaveB|), Mod32(1 + |s.gaveA|))
    && AllHeard(s, q)
  }

  predicate AllHeard(s: System, q: Quad) {
    Heard(s.b.printed, q.Reversed()) == s.oldB + s.gaveA && Heard(s.a.printed, q) == s.oldA + s.gaveB
  }

  /** Both ends are established and each one's snd.nxt is the other's rcv.nxt. */
  predicate Agree(s: System, q: Quad) {
    var r := q.Reversed();
    && q in s.a.table && r in s.b.table
    && s.a.table[q].state == ESTABLISHED && s.b.table[r].state == ESTABLISHED
    && s.a.table[q].snd.nxt == s.b.table[r].rcv.nxt && s.b.table[r].snd.nxt == s.a.table[q].rcv.nxt
  }

  ghost predicate Prefixes(s: System, q: Quad) {
    && (exists x :: x <= s.gaveA && Heard(s.b.printed, q.Reversed()) == s.oldB + x)
    && (exists x :: x <= s.gaveB && Heard(s.a.printed, q) == s.oldA + x)
  }

  predicate Still(s: System) { s.ab == [] && s.ba == [] }

  /** Delivery. At every point of every run, what either side has printed for the flow is a prefix of
      what the other was given to send. Whenever both channels are empty: the two ends agree if and
      only if both tables had room for the flow; all is settled if and only if they had and nothing was
      sent in SYN_SENT; and the printing is complete, as the acknowledgements are, if and only if that
      is so or there was nothing to print. */
  lemma DeliveryDecided(a: Endpoint, mem: Conn, states: seq<System>, moves: seq<Move>, q: Quad, i: nat)
    requires IsRun(a, mem, states, moves, q) && i <= |moves|
    ensures var s := states[i];
            var roomy, early := Roomy(a, states, moves, q, i), SentEarly(states, moves, q, i);
            && Prefixes(s, q) && s.oldA == states[0].oldA && s.oldB == states[0].oldB
            && (Still(s) ==>
                  (Agree(s, q) <==> roomy)
                  && (Settled(s, q) <==> roomy && !early)
                  && (AllHeard(s, q) <==> (roomy && !early) || (s.gaveA == [] && s.gaveB == []))
                  && (Acknowledged(s, q) <==> AllHeard(s, q)))
  {
    hide Enabled, Next, Started, Good, Lost, Stranded, Heard, Agree, AllHeard, Acknowledged, Settled, SentEarly, Roomy, Prefixes;
    var c := RunCourse(a, mem, states, moves, q, i);
    match c
    case Sound(ph) => SoundDelivery(states[i], q, ph);
    case Lossy(l) => LossyDelivery(states[i], q, l);
    case Refused => StrandedDelivery(states[i], q);
  }

  lemma SoundDelivery(s: System, q: Quad, ph: Phase)
    requires Good(s, q, ph)
    ensures Prefixes(s, q)
    ensures Still(s) ==> Agree(s, q) && AllHeard(s, q) && Acknowledged(s, q) && Settled(s, q)
  {
    hide At, Heard, Acknowledged, Agree, Settled;
    assert ph.HeardB() <= s.gaveA && ph.HeardA() <= s.gaveB;
    if Still(s) {
      assert InAB(ph) == [] && InBA(ph) == [];
      SettledPhase(s, q, ph);
    }
  }

  lemma SettledPhase(s: System, q: Quad, ph: Phase)
    requires Good(s, q, ph) && Still(s)
    ensures Settled(s, q) && Acknowledged(s, q) && Agree(s, q)
  {
    assert InAB(ph) == [] && InBA(ph) == [];
    assert ph.hand == Open && ph.turn == Idle;
    hide Heard;
  }

  lemma SilentPrefixes(s: System, q: Quad)
    requires Silent(s, q)
    ensures Prefixes(s, q)
    ensures AllHeard(s, q) <==> s.gaveA == [] && s.gaveB == []
  {
    hide Heard;
    assert s.oldA + [] == s.oldA && s.oldB + [] == s.oldB;
    assert [] <= s.gaveA && [] <= s.gaveB;
    assert |s.oldB + s.gaveA| == |s.oldB| + |s.gaveA| && |s.oldA + s.gaveB| == |s.oldA| + |s.gaveB|;
  }

  lemma LossyDelivery(s: System, q: Quad, l: Loss)
    requires Lost(s, q, l)
    ensures Prefixes(s, q) && s.gaveA != []
    ensures Still(s) ==> Agree(s, q)
    ensures !AllHeard(s, q) && !Acknowledged(s, q) && !Settled(s, q)
  {
    hide Heard, Acknowledged, Prefixes, AllHeard;
    LostIsNeverAcknowledged(s, q, l);
    SilentPrefixes(s, q);
  }

  lemma StrandedDelivery(s: System, q: Quad)
    requires Stranded(s, q)
    ensures Prefixes(s, q) && !Agree(s, q) && !Settled(s, q)
    ensures AllHeard(s, q) <==> s.gaveA == [] && s.gaveB == []
    ensures Still(s) ==> (Acknowledged(s, q) <==> AllHeard(s, q))
  {
    hide Heard, Prefixes, AllHeard, Shaped, Dead;
    SilentPrefixes(s, q);
    if s.gaveA != [] {
      ShortMovesResidue(1, |s.gaveA|);
    }
    if s.gaveB != [] {
      ShortMovesResidue(1, |s.gaveB|);
    }
  }

  /** Nothing prevents a send in SYN_SENT: it is possible as soon as the SYN is out. */
  lemma EarlySendPossible(a: Endpoint, mem: Conn, s: System, q: Quad, d: Bytes)
    requires Started(a, mem, s, q) && |a.table| < TABLE_CAPACITY && 0 < |d| <= PAYLOAD_SIZE
    ensures Enabled(s, q, SendA(d)) && Early(s, q, SendA(d))
  {
    hide Heard;
    StartIsGood(a, mem, s, q);
  }

  // ----- progress -----

  /** Whatever is in flight can be delivered, and a run makes at most three deliveries and two more for
      every send, however its moves are ordered. */
  lemma Progress(a: Endpoint, mem: Conn, states: seq<System>, moves: seq<Move>, q: Quad, i: nat)
    requires IsRun(a, mem, states, moves, q) && i <= |moves|
    ensures Deliveries(moves[..i]) <= 3 + 2 * SendCount(moves[..i])
    ensures forall m :: Enabled(states[i], q, ToB(m)) <==> states[i].ab != []
    ensures forall m :: Enabled(states[i], q, ToA(m)) <==> states[i].ba != []
  {
    hide Next, Started, Follows, Work, Acknowledged;
    var c := RunCourse(a, mem, states, moves, q, i);
    WorkIsInFlight(states[i], q, c);
  }

  lemma TraceConcat(states: seq<System>, moves: seq<Move>, more: seq<System>, further: seq<Move>, q: Quad)
    requires IsTrace(states, moves, q) && IsTrace(more, further, q) && states[|moves|] == more[0]
    ensures IsTrace(states + more[1..], moves + further, q)
    ensures (states + more[1..])[|moves + further|] == more[|further|] && (states + more[1..])[0] == states[0]
  {
    hide Enabled, Next;
    var all, steps := states + more[1..], moves + further;
    forall i | 0 <= i < |steps| ensures Enabled(all[i], q, steps[i]) && all[i + 1] == Next(all[i], q, steps[i]) {
      if i < |moves| {
        assert all[i] == states[i] && all[i + 1] == states[i + 1] && steps[i] == moves[i];
      } else {
        var k := i - |moves|;
        assert all[i] == more[k] && all[i + 1] == more[k + 1] && steps[i] == further[k];
      }
    }
  }

  lemma TraceOne(s: System, m: Move, q: Quad)
    requires Enabled(s, q, m)
    ensures IsTrace([s, Next(s, q, m)], [m], q)
  {
  }

  predicate OnlyDeliveries(moves: seq<Move>) { forall i :: 0 <= i < |moves| ==> moves[i].ToA? || moves[i].ToB? }

  /** On any course, exactly the remaining deliveries empty both channels. */
  lemma {:induction false} Drain(s: System, q: Quad, c: Course, mem: Conn) returns (states: seq<System>, moves: seq<Move>)
    requires Follows(s, q, c)
    ensures IsTrace(states, moves, q) && states[0] == s
    ensures OnlyDeliveries(moves) && |moves| == Work(s, q, c)
    ensures Still(states[|moves|]) && states[|moves|].gaveA == s.gaveA && states[|moves|].gaveB == s.gaveB
    decreases Work(s, q, c)
  {
    hide Follows, Work, Next, Acknowledged;
    WorkIsInFlight(s, q, c);
    if Work(s, q, c) == 0 {
      states, moves := [s], [];
    } else {
      var m := if s.ab != [] then ToB(mem) else ToA(mem);
      CourseKeeps(s, q, c, m);
      var t := Next(s, q, m);
      DeliveryGivesNothing(s, q, m);
      var more, further := Drain(t, q, After(s, q, c, m), mem);
      TraceOne(s, m, q);
      TraceConcat([s, t], [m], more, further, q);
      states, moves := [s, t] + more[1..], [m] + further;
    }
  }

  lemma DeliveryGivesNothing(s: System, q: Quad, m: Move)
    requires Enabled(s, q, m) && (m.ToA? || m.ToB?)
    ensures Next(s, q, m).gaveA == s.gaveA && Next(s, q, m).gaveB == s.gaveB
  {
    hide Rx, Frame.SegmentOf, NewPackets;
  }

  /** Every run can be finished by deliveries alone. */
  lemma EveryRunFinishes(a: Endpoint, mem: Conn, states: seq<System>, moves: seq<Move>, q: Quad)
    returns (more: seq<System>, further: seq<Move>)
    requires IsRun(a, mem, states, moves, q)
    ensures IsRun(a, mem, states + more, moves + further, q) && OnlyDeliveries(further)
    ensures var last := (states + more)[|moves + further|];
            Still(last) && last.gaveA == states[|moves|].gaveA && last.gaveB == states[|moves|].gaveB
  {
    hide Enabled, Next, Started, Follows, Work;
    var c := RunCourse(a, mem, states, moves, q, |moves|);
    var tail;
    tail, further := Drain(states[|moves|], q, c, mem);
    TraceConcat(states, moves, tail, further, q);
    more := tail[1..];
  }

  // ----- on the wire -----

  lemma Addresses(s: System, q: Quad, c: Course)
    requires Follows(s, q, c)
    ensures q.dip == s.a.nicIp && q.sip == s.b.nicIp
  {
    hide Heard, Shaped, Dead;
    match c
    case Sound(ph) => EndAddresses(s.a, s.b, q, ph);
    case Lossy(l) =>
    case Refused =>
  }

  lemma EndAddresses(a: Endpoint, b: Endpoint, q: Quad, ph: Phase)
    requires EndA(a, q, ph) && EndB(b, q.Reversed(), ph)
    ensures q.dip == a.nicIp && q.sip == b.nicIp
  {
  }

  /** The channels may as well carry bytes: at every point of every run, receiving the frame of the first
      segment in flight is what the run calls its delivery. */
  lemma BytesArrive(a: Endpoint, mem: Conn, states: seq<System>, moves: seq<Move>, q: Quad, i: nat,
                    nicA: Frame.Nic, nicB: Frame.Nic, block: Conn)
    requires IsRun(a, mem, states, moves, q) && i <= |moves|
    requires nicA.ip == states[i].a.nicIp && nicB.ip == states[i].b.nicIp
    requires nicA.dstMac == nicB.mac && nicB.dstMac == nicA.mac
    ensures var s := states[i];
            && (s.ab != [] ==> |s.ab[0].data| <= 65495 && TcpEndpoint.FrameArrives(s.b, nicA, nicB, s.ab[0], block))
            && (s.ba != [] ==> |s.ba[0].data| <= 65495 && TcpEndpoint.FrameArrives(s.a, nicB, nicA, s.ba[0], block))
  {
    hide Enabled, Next, Started, Follows, Work, Rx, TcpEndpoint.RxOne, Frame.Decode, Frame.Readable;
    var s := states[i];
    var c := RunCourse(a, mem, states, moves, q, i);
    WorkIsInFlight(s, q, c);
    Addresses(s, q, c);
    if s.ab != [] {
      TcpEndpoint.FrameIsSegment(s.b, nicA, nicB, s.ab[0], block);
    }
    if s.ba != [] {
      TcpEndpoint.FrameIsSegment(s.a, nicB, nicA, s.ba[0], block);
    }
  }

  // ----- any transfer -----

  /** From an idle connection, whatever either side sends goes through and leaves it idle. */
  lemma SoundStep(s: System, q: Quad, ph: Phase, m: Move)
    requires Good(s, q, ph) && ph.hand == Open
    requires match m
             case ToB(_) => InAB(ph) != []
             case ToA(_) => InBA(ph) != []
             case SendA(d) => ph.turn == Idle && |d| <= PAYLOAD_SIZE
             case SendB(d) => ph.turn == Idle && |d| <= PAYLOAD_SIZE
             case _ => false
    ensures Enabled(s, q, m) && Good(Next(s, q, m), q, ph.After(m))
  {
    hide Next, Heard, Refuses, Early;
    WorkIsInFlight(s, q, Sound(ph));
    OpenIsEntered(s, q, ph, m);
    ShapedSize(s.ab, q, InAB(ph));
    ShapedSize(s.ba, q.Reversed(), InBA(ph));
    if m.SendA? || m.SendB? {
      SettledPhase(s, q, ph);
    }
    MoveKeeps(s, q, ph, m);
  }

  lemma OpenIsEntered(s: System, q: Quad, ph: Phase, m: Move)
    requires Good(s, q, ph) && ph.hand == Open
    ensures q in s.a.table && q.Reversed() in s.b.table && !Early(s, q, m) && !Refuses(s, q, m)
  {
  }

  /** One send by A, or by B, its delivery and its acknowledgement. */
  lemma Round(s: System, q: Quad, x: Bytes, y: Bytes, d: Bytes, byA: bool, mem: Conn)
    returns (states: seq<System>, moves: seq<Move>)
    requires Good(s, q, Phase(Open, Idle, x, y)) && 0 < |d| <= PAYLOAD_SIZE
    ensures IsTrace(states, moves, q) && states[0] == s
    ensures Good(states[|moves|], q, if byA then Phase(Open, Idle, x + d, y) else Phase(Open, Idle, x, y + d))
  {
    hide Good, Enabled, Next;
    var ph := Phase(Open, Idle, x, y);
    moves := if byA then [SendA(d), ToB(mem), ToA(mem)] else [SendB(d), ToA(mem), ToB(mem)];
    var ph1 := ph.After(moves[0]);
    var ph2 := ph1.After(moves[1]);
    SoundStep(s, q, ph, moves[0]);
    var s1 := Next(s, q, moves[0]);
    SoundStep(s1, q, ph1, moves[1]);
    var s2 := Next(s1, q, moves[1]);
    SoundStep(s2, q, ph2, moves[2]);
    states := [s, s1, s2, Next(s2, q, moves[2])];
  }

  lemma {:induction false} Transfers(s: System, q: Quad, x: Bytes, y: Bytes, dA: Bytes, dB: Bytes, mem: Conn)
    returns (states: seq<System>, moves: seq<Move>)
    requires Good(s, q, Phase(Open, Idle, x, y))
    ensures IsTrace(states, moves, q) && states[0] == s
    ensures Good(states[|moves|], q, Phase(Open, Idle, x + dA, y + dB))
    decreases |dA| + |dB|
  {
    hide Good, Enabled, Next;
    if dA == [] && dB == [] {
      states, moves := [s], [];
      assert x + dA == x && y + dB == y;
    } else {
      var byA := dA != [];
      var data := if byA then dA else dB;
      var n := if |data| < PAYLOAD_SIZE then |data| else PAYLOAD_SIZE;
      var d, later := data[..n], data[n..];
      var first, sends := Round(s, q, x, y, d, byA, mem);
      var t := first[|sends|];
      var more, further;
      if byA {
        more, further := Transfers(t, q, x + d, y, later, dB, mem);
        assert x + d + later == x + dA;
      } else {
        more, further := Transfers(t, q, x, y + d, dA, later, mem);
        assert y + d + later == y + dB;
      }
      TraceConcat(first, sends, more, further, q);
      states, moves := first + more[1..], sends + further;
    }
  }

  /** With room at both ends, three deliveries complete the handshake. */
  lemma Handshake(a: Endpoint, mem: Conn, s: System, q: Quad) returns (states: seq<System>, moves: seq<Move>)
    requires Started(a, mem, s, q) && |a.table| < TABLE_CAPACITY && |s.b.table| < TABLE_CAPACITY
    ensures IsTrace(states, moves, q) && states[0] == s && Good(states[|moves|], q, Phase(Open, Idle, [], []))
  {
    hide Good, Enabled, Next, Started, Early;
    StartIsGood(a, mem, s, q);
    var ph := Phase(SynFlies, Idle, [], []);
    moves := [ToB(mem), ToA(mem), ToB(mem)];
    HandshakeStep(s, q, ph, moves[0]);
    var s1 := Next(s, q, moves[0]);
    HandshakeStep(s1, q, ph.(hand := SynAckFlies), moves[1]);
    var s2 := Next(s1, q, moves[1]);
    HandshakeStep(s2, q, ph.(hand := AckFlies), moves[2]);
    states := [s, s1, s2, Next(s2, q, moves[2])];
  }

  lemma HandshakeStep(s: System, q: Quad, ph: Phase, m: Move)
    requires Good(s, q, ph) && ph.hand != Open && ph.turn == Idle && (m.ToA? || m.ToB?)
    requires ph.hand == SynFlies ==> |s.b.table| < TABLE_CAPACITY
    requires m.ToA? <==> ph.hand == SynAckFlies
    ensures Enabled(s, q, m) && Good(Next(s, q, m), q, ph.After(m))
  {
    hide Next, Heard, Carries;
    WorkIsInFlight(s, q, Sound(ph));
    ShapedSize(s.ab, q, InAB(ph));
    ShapedSize(s.ba, q.Reversed(), InBA(ph));
    assert !Refuses(s, q, m);
    MoveKeeps(s, q, ph, m);
  }

  /** For any two endpoints with room for the flow and any bytes, some run delivers exactly these bytes
      in both directions and ends with nothing in flight. */
  lemma EveryTransfer(a: Endpoint, b: Endpoint, q: Quad, dA: Bytes, dB: Bytes, mem: Conn)
    returns (states: seq<System>, moves: seq<Move>)
    requires q !in a.table && |a.table| < TABLE_CAPACITY && q.dip == a.nicIp
    requires q.Reversed() !in b.table && |b.table| < TABLE_CAPACITY && q.sip == b.nicIp
    ensures IsRun(a, mem, states, moves, q) && states[0].b == b
    ensures var last := states[|moves|]; Still(last) && Settled(last, q) && last.gaveA == dA && last.gaveB == dB
  {
    hide Good, Enabled, Next, Heard, Settled, ActiveConnect;
    var f := ActiveConnect(a, q.sip, q.sport, q.dport, mem);
    var s := System(f, b, NewPackets(a, f), [], [], [], Heard(a.printed, q), Heard(b.printed, q.Reversed()));
    var first, opening := Handshake(a, mem, s, q);
    var more, further := Transfers(first[|opening|], q, [], [], dA, dB, mem);
    TraceConcat(first, opening, more, further, q);
    states, moves := first + more[1..], opening + further;
    assert [] + dA == dA && [] + dB == dB;
    IdleIsSettled(states[|moves|], q, dA, dB);
  }

  lemma IdleIsSettled(s: System, q: Quad, dA: Bytes, dB: Bytes)
    requires Good(s, q, Phase(Open, Idle, dA, dB))
    ensures Still(s) && Settled(s, q) && s.gaveA == dA && s.gaveB == dB
  {
    hide Heard, At;
    var ph := Phase(Open, Idle, dA, dB);
    ShapedSize(s.ab, q, InAB(ph));
    ShapedSize(s.ba, q.Reversed(), InBA(ph));
    SettledPhase(s, q, ph);
  }
}
