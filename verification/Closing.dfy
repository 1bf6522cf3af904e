/** One `active_close` between two endpoints of this stack: three segments take the connection out of
    both tables exactly while the closer's send space, with the FIN counted, is shorter than 2^31. */
module Closing {
  import opened SeqArith
  import opened TcpTypes
  import opened TcpSpec
  import opened TcpRuns
  import opened Duplex
  import opened Courses
  import opened Delivery
  import Frame

  // ----- one endpoint -----

  /** (snd.nxt - una + 1) mod 2^32 with the FIN counted in snd.nxt, where `nxt` is snd.nxt before it. */
  function Span(una: u32, nxt: u32): u32 { Sub32(Add32(Add32(nxt, 1), 1), una) }

  predicate CloseWorks(una: u32, nxt: u32) { 0 < Span(una, nxt) < TWO31 }

  lemma SpanDecides(una: u32, nxt: u32)
    ensures AckAcceptable(una, Add32(nxt, 1), Add32(nxt, 1)) <==> CloseWorks(una, nxt)
  {
    hide Add32, Sub32, AckAcceptable;
    AckAcceptableMeaning(una, Add32(nxt, 1), Add32(nxt, 1));
    DistancesToRight(una, Add32(nxt, 1));
  }

  lemma Closes(e: Endpoint, q: Quad, una: u32, nxt: u32, rcv: u32) returns (p: Packet)
    requires At(e, q, ESTABLISHED, una, nxt, rcv)
    ensures var f := Step(e, Close(q));
            At(f, q, FIN_WAIT1, una, Add32(nxt, 1), rcv) && Carries(p, q, nxt, rcv, FIN_ACK, []) && Effect(e, f, q, [p], [])
  {
    var c := WithFlags(e.table[q], FIN_ACK);
    p := TxPacket(c, []);
    ApplyEffect(e, q, ActiveClose(e.table[q]));
  }

  lemma AnswersFin(e: Endpoint, s: Segment, mem: Conn, una: u32, nxt: u32, rcv: u32) returns (p: Packet)
    requires At(e, s.q, ESTABLISHED, una, nxt, rcv) && s.seqn == rcv && s.flags == FIN_ACK && s.data == []
    ensures var f := Rx(e, s, mem);
            At(f, s.q, LAST_ACK, una, Add32(nxt, 1), Add32(rcv, 1))
            && Carries(p, s.q, nxt, Add32(rcv, 1), FIN_ACK, []) && Effect(e, f, s.q, [p], [])
  {
    var c := e.table[s.q];
    SynSentCheckPasses(rcv, WND);
    var d := WithFlags(WithRcvNxt(c.(state := CLOSE_WAIT), Add32(rcv, 1)), FIN_ACK);
    p := TxPacket(d, []);
    assert HandleEstablish(c, s) == Sending(d, []).(conn := Tx(d, 0).(state := LAST_ACK));
    ApplyEffect(e, s.q, HandleEstablish(c, s));
  }

  /** FIN_WAIT1 takes the peer's FIN that acknowledges everything, or ignores it altogether. */
  lemma FinWait1Decides(e: Endpoint, s: Segment, mem: Conn, una: u32, nxt: u32, rcv: u32) returns (p: Packet)
    requires At(e, s.q, FIN_WAIT1, una, Add32(nxt, 1), rcv)
    requires s.seqn == rcv && s.ackn == Add32(nxt, 1) && s.data == []
    ensures var f := Rx(e, s, mem);
            if CloseWorks(una, nxt) then
              s.q !in f.table && f.ledger == e.ledger.(removed := e.ledger.removed + 1)
              && Carries(p, s.q, Add32(nxt, 1), Add32(rcv, 1), ACK, []) && Effect(e, f, s.q, [p], [])
            else f == e
  {
    var c := e.table[s.q];
    SynSentCheckPasses(rcv, WND);
    SpanDecides(una, nxt);
    var d := WithRcvNxt(WithFlags(c.(state := FIN_WAIT2), ACK), Add32(rcv, 1));
    p := TxPacket(d, []);
    if CloseWorks(una, nxt) {
      assert HandleFinWait1(c, s) == Sending(d, []).(fate := Removed);
      ApplyEffect(e, s.q, HandleFinWait1(c, s));
    } else {
      assert HandleFinWait1(c, s) == Quiet(c);
      assert e.table[s.q := c] == e.table && e.sent + [] == e.sent && e.printed + [] == e.printed;
    }
  }

  /** LAST_ACK takes any segment at all for the last acknowledgement, and frees the record. */
  lemma LastAckFrees(e: Endpoint, s: Segment, mem: Conn)
    requires s.q in e.table && s.q.dip == e.nicIp && e.table[s.q].state == LAST_ACK
    ensures var f := Rx(e, s, mem);
            s.q !in f.table && f.ledger == e.ledger.(freed := e.ledger.freed + 1) && Effect(e, f, s.q, [], [])
  {
    ApplyEffect(e, s.q, HandleLastAck(e.table[s.q], s));
  }

  // ----- the exchange -----

  /** `x` closes the flow that it calls `q`; `segments` counts what the exchange has sent. */
  datatype Pair = Pair(x: Endpoint, y: Endpoint, xy: seq<Packet>, yx: seq<Packet>, segments: nat)

  datatype CloseMove = ToY(mem: Conn) | ToX(mem: Conn) | OtherX(ev: Event) | OtherY(ev: Event)

  /** Both ends established, nothing in flight, the spaces agree; then `active_close` at `x`. */
  ghost predicate JustClosed(s: Pair, q: Quad, unaX: u32, unaY: u32, nx: u32, ny: u32) {
    exists x: Endpoint ::
      && At(x, q, ESTABLISHED, unaX, nx, ny) && At(s.y, q.Reversed(), ESTABLISHED, unaY, ny, nx)
      && s.x == Step(x, Close(q)) && s.xy == NewPackets(x, s.x) && s.yx == [] && s.segments == |s.xy|
  }

  predicate CloseEnabled(s: Pair, q: Quad, m: CloseMove) {
    match m
    case ToY(_) => Deliverable(s.xy)
    case ToX(_) => Deliverable(s.yx)
    case OtherX(ev) => Allowed(ev) && Target(s.x, ev) != q
    case OtherY(ev) => Allowed(ev) && Target(s.y, ev) != q.Reversed()
  }

  function CloseNext(s: Pair, q: Quad, m: CloseMove): Pair
    requires CloseEnabled(s, q, m)
  {
    match m
    case ToY(mem) =>
      var f := Rx(s.y, Frame.SegmentOf(s.xy[0]), mem);
      var out := NewPackets(s.y, f);
      s.(y := f, xy := s.xy[1..], yx := s.yx + out, segments := s.segments + |out|)
    case ToX(mem) =>
      var f := Rx(s.x, Frame.SegmentOf(s.yx[0]), mem);
      var out := NewPackets(s.x, f);
      s.(x := f, yx := s.yx[1..], xy := s.xy + out, segments := s.segments + |out|)
    case OtherX(ev) => s.(x := Step(s.x, ev))
    case OtherY(ev) => s.(y := Step(s.y, ev))
  }

  ghost predicate IsCloseRun(states: seq<Pair>, moves: seq<CloseMove>, q: Quad, unaX: u32, unaY: u32, nx: u32, ny: u32) {
    && |states| == |moves| + 1 && JustClosed(states[0], q, unaX, unaY, nx, ny)
    && forall i :: 0 <= i < |moves| ==> CloseEnabled(states[i], q, moves[i]) && states[i + 1] == CloseNext(states[i], q, moves[i])
  }

  datatype Stage = FinFlies | FinAckFlies | LastAckFlies | Closed | Stuck

  predicate AtStage(s: Pair, q: Quad, st: Stage, unaX: u32, unaY: u32, nx: u32, ny: u32) {
    var r, fx, fy := q.Reversed(), Add32(nx, 1), Add32(ny, 1);
    match st
    case FinFlies =>
      At(s.x, q, FIN_WAIT1, unaX, fx, ny) && At(s.y, r, ESTABLISHED, unaY, ny, nx)
      && Shaped(s.xy, q, [Spec(nx, ny, FIN_ACK, [])]) && s.yx == [] && s.segments == 1
    case FinAckFlies =>
      At(s.x, q, FIN_WAIT1, unaX, fx, ny) && At(s.y, r, LAST_ACK, unaY, fy, fx)
      && s.xy == [] && Shaped(s.yx, r, [Spec(ny, fx, FIN_ACK, [])]) && s.segments == 2
    case LastAckFlies =>
      CloseWorks(unaX, nx) && q !in s.x.table && At(s.y, r, LAST_ACK, unaY, fy, fx)
      && Shaped(s.xy, q, [Spec(fx, fy, ACK, [])]) && s.yx == [] && s.segments == 3
    case Closed =>
      CloseWorks(unaX, nx) && q !in s.x.table && r !in s.y.table && s.xy == [] && s.yx == [] && s.segments == 3
    case Stuck =>
      !CloseWorks(unaX, nx) && At(s.x, q, FIN_WAIT1, unaX, fx, ny) && At(s.y, r, LAST_ACK, unaY, fy, fx)
      && s.xy == [] && s.yx == [] && s.segments == 2
  }

  function ArrivesY(st: Stage): Stage {
    match st
    case FinFlies => FinAckFlies
    case LastAckFlies => Closed
    case _ => st
  }

  function ArrivesX(st: Stage, works: bool): Stage {
    if st != FinAckFlies then st else if works then LastAckFlies else Stuck
  }

  function StageAfter(st: Stage, m: CloseMove, works: bool): Stage {
    match m
    case ToY(_) => ArrivesY(st)
    case ToX(_) => ArrivesX(st, works)
    case _ => st
  }

  /** The number of deliveries after which the exchange is over. */
  function StageWork(st: Stage, works: bool): nat {
    match st
    case FinFlies => if works then 3 else 2
    case FinAckFlies => if works then 2 else 1
    case LastAckFlies => 1
    case _ => 0
  }

  lemma DeliveryToY(s: Pair, q: Quad, st: Stage, unaX: u32, unaY: u32, nx: u32, ny: u32, mem: Conn)
    requires AtStage(s, q, st, unaX, unaY, nx, ny) && CloseEnabled(s, q, ToY(mem))
    ensures (st == FinFlies || st == LastAckFlies) && AtStage(CloseNext(s, q, ToY(mem)), q, ArrivesY(st), unaX, unaY, nx, ny)
  {
    hide Rx, Frame.SegmentOf, At, Carries, Shaped, CloseWorks, Add32, Heard;
    var r, fx, fy := q.Reversed(), Add32(nx, 1), Add32(ny, 1);
    if st == FinFlies {
      FirstArrives(s.xy, q, [Spec(nx, ny, FIN_ACK, [])]);
      TailOfOne(s.xy, q, [Spec(nx, ny, FIN_ACK, [])]);
      var p := AnswersFin(s.y, Frame.SegmentOf(s.xy[0]), mem, unaY, ny, nx);
      One(p, r, Spec(ny, fx, FIN_ACK, []));
      assert NewPackets(s.y, Rx(s.y, Frame.SegmentOf(s.xy[0]), mem)) == [p] && s.yx + [p] == [p];
    } else {
      FirstArrives(s.xy, q, [Spec(fx, fy, ACK, [])]);
      TailOfOne(s.xy, q, [Spec(fx, fy, ACK, [])]);
      InLastAck(s.y, r, unaY, fy, fx);
      LastAckFrees(s.y, Frame.SegmentOf(s.xy[0]), mem);
      assert NewPackets(s.y, Rx(s.y, Frame.SegmentOf(s.xy[0]), mem)) == [];
    }
  }

  lemma InLastAck(e: Endpoint, q: Quad, una: u32, nxt: u32, rcv: u32)
    requires At(e, q, LAST_ACK, una, nxt, rcv)
    ensures q in e.table && q.dip == e.nicIp && e.table[q].state == LAST_ACK
  {
  }

  lemma TailOfOne(ps: seq<Packet>, q: Quad, specs: seq<Spec>)
    requires Shaped(ps, q, specs) && |specs| == 1
    ensures |ps| == 1 && ps[1..] == []
  {
  }

  lemma DeliveryToX(s: Pair, q: Quad, st: Stage, unaX: u32, unaY: u32, nx: u32, ny: u32, mem: Conn)
    requires AtStage(s, q, st, unaX, unaY, nx, ny) && CloseEnabled(s, q, ToX(mem))
    ensures st == FinAckFlies && AtStage(CloseNext(s, q, ToX(mem)), q, ArrivesX(st, CloseWorks(unaX, nx)), unaX, unaY, nx, ny)
  {
    hide Rx, Frame.SegmentOf, At, Carries, Shaped, CloseWorks, Add32, Heard;
    var r, fx, fy := q.Reversed(), Add32(nx, 1), Add32(ny, 1);
    FirstArrives(s.yx, r, [Spec(ny, fx, FIN_ACK, [])]);
    TailOfOne(s.yx, r, [Spec(ny, fx, FIN_ACK, [])]);
    var p := FinWait1Decides(s.x, Frame.SegmentOf(s.yx[0]), mem, unaX, nx, ny);
    if CloseWorks(unaX, nx) {
      One(p, q, Spec(fx, fy, ACK, []));
      assert NewPackets(s.x, Rx(s.x, Frame.SegmentOf(s.yx[0]), mem)) == [p] && s.xy + [p] == [p];
    }
  }

  lemma OtherMoves(s: Pair, q: Quad, st: Stage, unaX: u32, unaY: u32, nx: u32, ny: u32, m: CloseMove)
    requires AtStage(s, q, st, unaX, unaY, nx, ny) && CloseEnabled(s, q, m) && (m.OtherX? || m.OtherY?)
    ensures AtStage(CloseNext(s, q, m), q, st, unaX, unaY, nx, ny)
  {
    hide Step, Shaped, CloseWorks, Add32, Heard, Target;
    if m.OtherX? {
      OtherTraffic(s.x, m.ev, q);
    } else {
      OtherTraffic(s.y, m.ev, q.Reversed());
    }
  }

  lemma StartsClosing(s: Pair, q: Quad, unaX: u32, unaY: u32, nx: u32, ny: u32)
    requires JustClosed(s, q, unaX, unaY, nx, ny)
    ensures AtStage(s, q, FinFlies, unaX, unaY, nx, ny)
  {
    hide Step, At, Carries, Shaped, Add32, Heard;
    var x: Endpoint :| At(x, q, ESTABLISHED, unaX, nx, ny) && s.x == Step(x, Close(q)) && s.xy == NewPackets(x, s.x);
    var p := Closes(x, q, unaX, nx, ny);
    assert s.xy == [p];
    One(p, q, Spec(nx, ny, FIN_ACK, []));
  }

  lemma CloseMoveKeeps(s: Pair, q: Quad, st: Stage, unaX: u32, unaY: u32, nx: u32, ny: u32, m: CloseMove)
    requires AtStage(s, q, st, unaX, unaY, nx, ny) && CloseEnabled(s, q, m)
    ensures var works := CloseWorks(unaX, nx); var n := StageAfter(st, m, works);
            && AtStage(CloseNext(s, q, m), q, n, unaX, unaY, nx, ny)
            && StageWork(st, works) == StageWork(n, works) + if m.ToX? || m.ToY? then 1 else 0
  {
    hide AtStage, CloseEnabled, CloseNext;
    match m
    case ToY(mem) => DeliveryToY(s, q, st, unaX, unaY, nx, ny, mem); WorksAtLastAck(s, q, st, unaX, unaY, nx, ny);
    case ToX(mem) => DeliveryToX(s, q, st, unaX, unaY, nx, ny, mem);
    case OtherX(_) => OtherMoves(s, q, st, unaX, unaY, nx, ny, m);
    case OtherY(_) => OtherMoves(s, q, st, unaX, unaY, nx, ny, m);
  }

  lemma WorksAtLastAck(s: Pair, q: Quad, st: Stage, unaX: u32, unaY: u32, nx: u32, ny: u32)
    requires AtStage(s, q, st, unaX, unaY, nx, ny)
    ensures st == LastAckFlies || st == Closed ==> CloseWorks(unaX, nx)
  {
  }

  function CloseDeliveries(moves: seq<CloseMove>): nat {
    if moves == [] then 0
    else
      var n := |moves| - 1;
      CloseDeliveries(moves[..n]) + if moves[n].ToX? || moves[n].ToY? then 1 else 0
  }

  lemma CloseDeliveriesSnoc(moves: seq<CloseMove>, i: nat)
    requires i < |moves|
    ensures CloseDeliveries(moves[..i + 1]) == CloseDeliveries(moves[..i]) + if moves[i].ToX? || moves[i].ToY? then 1 else 0
  {
    assert moves[..i + 1][..i] == moves[..i];
  }

  /** Every state of every closing exchange is at one of five stages, and the deliveries made and the
      deliveries that remain are three together, or two when the exchange gets stuck. */
  lemma {:induction false} CloseStage(states: seq<Pair>, moves: seq<CloseMove>, q: Quad,
                                      unaX: u32, unaY: u32, nx: u32, ny: u32, i: nat) returns (st: Stage)
    requires IsCloseRun(states, moves, q, unaX, unaY, nx, ny) && i <= |moves|
    ensures AtStage(states[i], q, st, unaX, unaY, nx, ny)
    ensures CloseDeliveries(moves[..i]) + StageWork(st, CloseWorks(unaX, nx)) == if CloseWorks(unaX, nx) then 3 else 2
  {
    hide AtStage, CloseEnabled, CloseNext, JustClosed, CloseWorks;
    if i == 0 {
      StartsClosing(states[0], q, unaX, unaY, nx, ny);
      st := FinFlies;
    } else {
      var before := CloseStage(states, moves, q, unaX, unaY, nx, ny, i - 1);
      st := StageAfter(before, moves[i - 1], CloseWorks(unaX, nx));
      CloseMoveKeeps(states[i - 1], q, before, unaX, unaY, nx, ny, moves[i - 1]);
      CloseDeliveriesSnoc(moves, i - 1);
    }
  }

  /** Both ends have dropped the flow. */
  predicate BothGone(s: Pair, q: Quad) { q !in s.x.table && q.Reversed() !in s.y.table }

  /** The closer waits in FIN_WAIT1 and the peer in LAST_ACK, with nothing in flight that could move
      either. */
  predicate BothWait(s: Pair, q: Quad) {
    && q in s.x.table && s.x.table[q].state == FIN_WAIT1
    && q.Reversed() in s.y.table && s.y.table[q.Reversed()].state == LAST_ACK
  }

  /** One `active_close` on two quiet established ends: whenever everything in flight has arrived,
      three segments have taken the connection out of both tables if (snd.nxt - una + 1) mod 2^32 of
      the closer, its FIN counted, lies strictly between 0 and 2^31; and if not, the exchange is
      over after two segments with both ends waiting. */
  lemma CloseOutcome(states: seq<Pair>, moves: seq<CloseMove>, q: Quad,
                     unaX: u32, unaY: u32, nx: u32, ny: u32, i: nat)
    requires IsCloseRun(states, moves, q, unaX, unaY, nx, ny) && i <= |moves|
    requires states[i].xy == [] && states[i].yx == []
    ensures if CloseWorks(unaX, nx) then BothGone(states[i], q) && states[i].segments == 3
            else BothWait(states[i], q) && states[i].segments == 2
  {
    hide IsCloseRun;
    var st := CloseStage(states, moves, q, unaX, unaY, nx, ny, i);
  }

  /** While something is in flight it can be delivered; and at most three deliveries are made, or two
      when the exchange gets stuck. */
  lemma CloseProgress(states: seq<Pair>, moves: seq<CloseMove>, q: Quad,
                      unaX: u32, unaY: u32, nx: u32, ny: u32, i: nat)
    requires IsCloseRun(states, moves, q, unaX, unaY, nx, ny) && i <= |moves|
    ensures states[i].xy != [] ==> Deliverable(states[i].xy)
    ensures states[i].yx != [] ==> Deliverable(states[i].yx)
    ensures CloseDeliveries(moves[..i]) <= if CloseWorks(unaX, nx) then 3 else 2
  {
    hide IsCloseRun, CloseWorks, Heard;
    var st := CloseStage(states, moves, q, unaX, unaY, nx, ny, i);
  }

  /** From every stage on, the remaining deliveries finish the exchange. */
  lemma {:induction false} CloseDrain(s: Pair, q: Quad, st: Stage, unaX: u32, unaY: u32, nx: u32, ny: u32, mem: Conn)
    returns (states: seq<Pair>, moves: seq<CloseMove>)
    requires AtStage(s, q, st, unaX, unaY, nx, ny)
    ensures |states| == |moves| + 1 && states[0] == s && |moves| == StageWork(st, CloseWorks(unaX, nx))
    ensures forall i :: 0 <= i < |moves| ==> CloseEnabled(states[i], q, moves[i]) && states[i + 1] == CloseNext(states[i], q, moves[i])
    ensures states[|moves|].xy == [] && states[|moves|].yx == []
    decreases StageWork(st, CloseWorks(unaX, nx))
  {
    hide AtStage, CloseNext, CloseWorks;
    CloseInFlight(s, q, st, unaX, unaY, nx, ny);
    if StageWork(st, CloseWorks(unaX, nx)) == 0 {
      states, moves := [s], [];
    } else {
      var m := if s.xy != [] then ToY(mem) else ToX(mem);
      CloseMoveKeeps(s, q, st, unaX, unaY, nx, ny, m);
      var t, n := CloseNext(s, q, m), StageAfter(st, m, CloseWorks(unaX, nx));
      var more, further := CloseDrain(t, q, n, unaX, unaY, nx, ny, mem);
      states, moves := [s] + more, [m] + further;
    }
  }

  lemma CloseInFlight(s: Pair, q: Quad, st: Stage, unaX: u32, unaY: u32, nx: u32, ny: u32)
    requires AtStage(s, q, st, unaX, unaY, nx, ny)
    ensures StageWork(st, CloseWorks(unaX, nx)) == 0 <==> s.xy == [] && s.yx == []
    ensures s.xy != [] ==> Deliverable(s.xy)
    ensures s.yx != [] ==> Deliverable(s.yx)
  {
    hide At, CloseWorks;
  }

  // ----- after a half-duplex run -----

  /** `active_close` at A, or at B, of a settled connection. */
  function CloseByA(s: System, q: Quad): Pair {
    var f := Step(s.a, Close(q));
    Pair(f, s.b, NewPackets(s.a, f), [], |NewPackets(s.a, f)|)
  }

  function CloseByB(s: System, q: Quad): Pair {
    var f := Step(s.b, Close(q.Reversed()));
    Pair(f, s.a, NewPackets(s.b, f), [], |NewPackets(s.b, f)|)
  }

  lemma SpanAfter(sent: nat, una: u32)
    ensures Span(una, Mod32(1 + sent)) == Mod32(sent + 3 - una)
  {
    hide Mod32;
    ModOfSum(1 + sent, 1);
    ModOfSum(2 + sent, 1);
    ResidueMinus(3 + sent, una);
  }

  lemma ResidueMinus(a: int, b: int)
    ensures Mod32(Mod32(a) - b) == Mod32(a - b)
  {
  }

  /** With T bytes sent by the closer the deciding quantity is (T + 1) mod 2^32 for the end that
      opened the connection and (T + 3) mod 2^32 for the other. */
  lemma CloseAfterDelivery(s: System, q: Quad)
    requires Settled(s, q)
    ensures var nA, nB := Mod32(1 + |s.gaveA|), Mod32(1 + |s.gaveB|);
            && JustClosed(CloseByA(s, q), q, 2, 0, nA, nB)
            && JustClosed(CloseByB(s, q), q.Reversed(), 0, 2, nB, nA)
            && (CloseWorks(2, nA) <==> 0 < Mod32(|s.gaveA| + 1) < TWO31)
            && (CloseWorks(0, nB) <==> 0 < Mod32(|s.gaveB| + 3) < TWO31)
  {
    hide Step, Heard, Span, Mod32;
    SpanAfter(|s.gaveA|, 2);
    SpanAfter(|s.gaveB|, 0);
    var r := q.Reversed();
    assert r.Reversed() == q;
    var x, y := s.a, s.b;
    assert At(x, q, ESTABLISHED, 2, Mod32(1 + |s.gaveA|), Mod32(1 + |s.gaveB|));
    assert At(y, r, ESTABLISHED, 0, Mod32(1 + |s.gaveB|), Mod32(1 + |s.gaveA|));
  }

  /** For any bytes sent in either direction and either closer: a run transfers them, a close follows and
      comes to its end, and it is the number of bytes sent by the closer that decides. */
  lemma CloseAfterAnyTransfer(a: Endpoint, b: Endpoint, q: Quad, dA: Bytes, dB: Bytes, byA: bool, mem: Conn)
    returns (states: seq<System>, moves: seq<Move>, pairs: seq<Pair>, closing: seq<CloseMove>)
    requires q !in a.table && |a.table| < TABLE_CAPACITY && q.dip == a.nicIp
    requires q.Reversed() !in b.table && |b.table| < TABLE_CAPACITY && q.sip == b.nicIp
    ensures IsRun(a, mem, states, moves, q) && states[0].b == b
    ensures var last := states[|moves|]; Settled(last, q) && last.gaveA == dA && last.gaveB == dB
    ensures var nA, nB := Mod32(1 + |dA|), Mod32(1 + |dB|);
            if byA then IsCloseRun(pairs, closing, q, 2, 0, nA, nB) && pairs[0] == CloseByA(states[|moves|], q)
            else IsCloseRun(pairs, closing, q.Reversed(), 0, 2, nB, nA) && pairs[0] == CloseByB(states[|moves|], q)
    ensures var end, decides := pairs[|closing|], Mod32(if byA then |dA| + 1 else |dB| + 3);
            && end.xy == [] && end.yx == []
            && var closer := if byA then q else q.Reversed();
            && if 0 < decides < TWO31 then BothGone(end, closer) && end.segments == 3
               else BothWait(end, closer) && end.segments == 2
  {
    hide Enabled, Next, Started, Settled, JustClosed, AtStage, CloseEnabled, CloseNext, CloseWorks, Mod32, BothGone, BothWait;
    states, moves := EveryTransfer(a, b, q, dA, dB, mem);
    var last := states[|moves|];
    CloseAfterDelivery(last, q);
    var nA, nB := Mod32(1 + |dA|), Mod32(1 + |dB|);
    if byA {
      pairs, closing := CloseEnds(CloseByA(last, q), q, 2, 0, nA, nB, mem);
    } else {
      pairs, closing := CloseEnds(CloseByB(last, q), q.Reversed(), 0, 2, nB, nA, mem);
    }
  }

  lemma CloseEnds(s: Pair, q: Quad, unaX: u32, unaY: u32, nx: u32, ny: u32, mem: Conn)
    returns (states: seq<Pair>, moves: seq<CloseMove>)
    requires JustClosed(s, q, unaX, unaY, nx, ny)
    ensures IsCloseRun(states, moves, q, unaX, unaY, nx, ny) && states[0] == s
    ensures var end := states[|moves|];
            && end.xy == [] && end.yx == []
            && if CloseWorks(unaX, nx) then BothGone(end, q) && end.segments == 3 else BothWait(end, q) && end.segments == 2
  {
    hide JustClosed, AtStage, CloseEnabled, CloseNext, CloseWorks, BothGone, BothWait;
    StartsClosing(s, q, unaX, unaY, nx, ny);
    states, moves := CloseDrain(s, q, FinFlies, unaX, unaY, nx, ny, mem);
    CloseOutcome(states, moves, q, unaX, unaY, nx, ny, |moves|);
  }

  /** The failing inputs are within reach: after 2^31 - 1 bytes from the opener its close ends with both
      ends waiting for ever, and so does the listener's after 2^31 - 3. */
  lemma StuckCloses(a: Endpoint, b: Endpoint, q: Quad, byA: bool, mem: Conn)
    returns (states: seq<System>, moves: seq<Move>, pairs: seq<Pair>, closing: seq<CloseMove>)
    requires q !in a.table && |a.table| < TABLE_CAPACITY && q.dip == a.nicIp
    requires q.Reversed() !in b.table && |b.table| < TABLE_CAPACITY && q.sip == b.nicIp
    ensures IsRun(a, mem, states, moves, q) && states[0].b == b && Settled(states[|moves|], q)
    ensures |pairs| == |closing| + 1 && pairs[0] == if byA then CloseByA(states[|moves|], q) else CloseByB(states[|moves|], q)
    ensures forall i :: 0 <= i < |closing| ==>
              var closer := if byA then q else q.Reversed();
              CloseEnabled(pairs[i], closer, closing[i]) && pairs[i + 1] == CloseNext(pairs[i], closer, closing[i])
    ensures var end := pairs[|closing|];
            end.xy == [] && end.yx == [] && BothWait(end, if byA then q else q.Reversed())
  {
    hide Enabled, Next, Started, Settled, JustClosed, CloseEnabled, CloseNext, BothGone, BothWait;
    var dA: Bytes := seq(TWO31 - 1, _ => 0);
    var dB: Bytes := seq(TWO31 - 3, _ => 0);
    states, moves, pairs, closing := CloseAfterAnyTransfer(a, b, q, dA, dB, byA, mem);
  }
}
