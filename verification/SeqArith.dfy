/** 32-bit sequence arithmetic (src/tcp/tcp.c:204-235).
    C's `uint32_t` wraps; every addition and subtraction is written modulo 2^32. */
module SeqArith {

  const TWO32: int := 0x1_0000_0000
  const TWO31: int := 0x8000_0000

  type u8 = x: int | 0 <= x < 0x100
  type u16 = x: int | 0 <= x < 0x1_0000
  type u32 = x: int | 0 <= x < 0x1_0000_0000

  /** The residue of an unbounded stream position. */
  function Mod32(x: int): u32 { x % TWO32 }

  function Add32(a: u32, b: int): u32 { Mod32(a + b) }

  function Sub32(a: u32, b: int): u32 { Mod32(a - b) }

  predicate WrappingLt(lhs: u32, rhs: u32) {
    Sub32(lhs, rhs) > TWO31
  }

  predicate IsBetweenWrapped(start: u32, x: u32, end: u32) {
    WrappingLt(start, x) && WrappingLt(x, end)
  }

  /** `segment_check`: `nxt` and `wnd` are the receive space of the connection. */
  predicate SegmentCheck(nxt: u32, wnd: u16, slen: u32, seqn: u32) {
    var right := Add32(nxt, wnd);
    if slen == 0 then
      if wnd == 0 then seqn == nxt else IsBetweenWrapped(Sub32(nxt, 1), seqn, right)
    else
      wnd != 0
  }

  /** Membership in the open circular interval from `start` up to `end`:
      some position x0 congruent to `x` lies strictly inside the arc that begins at `start`. */
  ghost predicate InOpenArc(start: u32, x: u32, end: u32) {
    exists a: nat, b: nat :: Steps(start, a, x) && Steps(start, b, end) && b < TWO32 && 0 < a < b
  }

  /** Walking `k` steps forward from `from` ends at `to`. */
  ghost predicate Steps(from: u32, k: nat, to: u32) { Add32(from, k) == to }

  /** The acceptability test of RFC 793 section 3.3, on circular distances from RCV.NXT. */
  ghost predicate Rfc793Acceptable(nxt: u32, wnd: u16, slen: u32, seqn: u32) {
    if slen == 0 then
      if wnd == 0 then seqn == nxt else InWindow(nxt, wnd, seqn)
    else
      wnd != 0 && (InWindow(nxt, wnd, seqn) || InWindow(nxt, wnd, Add32(seqn, slen - 1)))
  }

  /** RCV.NXT =< s < RCV.NXT + RCV.WND: `s` is the residue of a position in the window. */
  ghost predicate InWindow(nxt: u32, wnd: u16, s: u32) {
    exists k: nat :: k < wnd && Steps(nxt, k, s)
  }

  lemma ModOfSum(x: int, y: int)
    ensures Mod32(Mod32(x) + y) == Mod32(x + y) == Mod32(x + Mod32(y))
  {
  }

  lemma ModOfDiff(a: int, b: int)
    ensures Sub32(Mod32(a), Mod32(b)) == Mod32(a - b)
  {
  }

  /** For stream positions less than 2^31 apart, `wrapping_lt` of the residues decides the order;
      at a distance of exactly 2^31 it answers false both ways. */
  lemma WrappingLtDecidesOrder(a: int, b: int)
    requires -TWO31 <= a - b <= TWO31
    ensures WrappingLt(Mod32(a), Mod32(b)) <==> a < b && b - a < TWO31
  {
    ModOfDiff(a, b);
  }

  /** `is_between_wrapped`, for all inputs, in circular distances. */
  lemma BetweenDistances(start: u32, x: u32, end: u32)
    ensures IsBetweenWrapped(start, x, end) <==>
            0 < Sub32(x, start) < Sub32(end, start)
            && Sub32(x, start) < TWO31 && Sub32(end, start) - Sub32(x, start) < TWO31
  {
  }

  lemma StepsDistance(from: u32, to: u32)
    ensures Steps(from, Sub32(to, from), to)
    ensures forall k: nat :: k < TWO32 && Steps(from, k, to) ==> k == Sub32(to, from)
  {
  }

  lemma ArcDistances(start: u32, x: u32, end: u32)
    ensures InOpenArc(start, x, end) <==> 0 < Sub32(x, start) < Sub32(end, start)
  {
    StepsDistance(start, x);
    StepsDistance(start, end);
  }

  /** `is_between_wrapped` never accepts a point outside the open arc, and it is exactly
      membership for every point if and only if the arc is at most 2^31 long. */
  lemma BetweenIsArcMembership(start: u32, end: u32)
    ensures forall x: u32 :: IsBetweenWrapped(start, x, end) ==> InOpenArc(start, x, end)
    ensures Sub32(end, start) <= TWO31 <==>
            (forall x: u32 :: IsBetweenWrapped(start, x, end) <==> InOpenArc(start, x, end))
  {
    forall x: u32
      ensures IsBetweenWrapped(start, x, end) ==> InOpenArc(start, x, end)
      ensures Sub32(end, start) <= TWO31 ==> (IsBetweenWrapped(start, x, end) <==> InOpenArc(start, x, end))
    {
      BetweenDistances(start, x, end);
      ArcDistances(start, x, end);
    }
    if Sub32(end, start) > TWO31 {
      var x := LongArcRejects(start, end);
    }
  }

  /** The first point of a long arc is rejected, or, when the arc has 2^31 + 1 steps, its last. */
  lemma LongArcRejects(start: u32, end: u32) returns (x: u32)
    requires Sub32(end, start) > TWO31
    ensures InOpenArc(start, x, end) && !IsBetweenWrapped(start, x, end)
  {
    var d := if Sub32(end, start) > TWO31 + 1 then 1 else TWO31;
    x := Add32(start, d);
    StepsDistance(start, x);
    assert Steps(start, d, x);
    BetweenDistances(start, x, end);
    ArcDistances(start, x, end);
  }

  /** A common offset of the three sequence numbers changes nothing. */
  lemma BetweenTranslates(start: u32, x: u32, end: u32, k: int)
    ensures IsBetweenWrapped(Add32(start, k), Add32(x, k), Add32(end, k)) <==> IsBetweenWrapped(start, x, end)
  {
    ModOfDiff(start + k, x + k);
    ModOfDiff(x + k, end + k);
  }

  lemma WindowDistances(nxt: u32, wnd: u16, s: u32)
    ensures InWindow(nxt, wnd, s) <==> Sub32(s, nxt) < wnd
  {
    StepsDistance(nxt, s);
  }

  lemma EmptySegmentInWindow(nxt: u32, wnd: u16, seqn: u32)
    requires wnd != 0
    ensures IsBetweenWrapped(Sub32(nxt, 1), seqn, Add32(nxt, wnd)) <==> InWindow(nxt, wnd, seqn)
  {
    BetweenDistances(Sub32(nxt, 1), seqn, Add32(nxt, wnd));
    WindowDistances(nxt, wnd, seqn);
    DistancesFromLeft(nxt, seqn);
    DistancesFromLeft(nxt, Add32(nxt, wnd));
    StepsDistance(nxt, Add32(nxt, wnd));
    assert Steps(nxt, wnd, Add32(nxt, wnd));
  }

  /** Moving the left edge back by one adds one to every distance but the longest. */
  lemma DistancesFromLeft(left: u32, x: u32)
    ensures Sub32(x, Sub32(left, 1)) == if Sub32(x, left) == TWO32 - 1 then 0 else Sub32(x, left) + 1
  {
  }

  lemma DistancesToRight(left: u32, right: u32)
    ensures Sub32(Add32(right, 1), left) == if Sub32(right, left) == TWO32 - 1 then 0 else Sub32(right, left) + 1
  {
  }

  /** `segment_check` against the table of RFC 793 section 3.3, over all inputs: everything the
      table accepts is accepted, and the two differ exactly on a non-empty segment that meets
      an open window with neither its first nor its last octet. */
  lemma SegmentCheckVsRfc793(nxt: u32, wnd: u16, slen: u32, seqn: u32)
    ensures Rfc793Acceptable(nxt, wnd, slen, seqn) ==> SegmentCheck(nxt, wnd, slen, seqn)
    ensures SegmentCheck(nxt, wnd, slen, seqn) != Rfc793Acceptable(nxt, wnd, slen, seqn) <==>
            slen > 0 && wnd > 0 && !InWindow(nxt, wnd, seqn) && !InWindow(nxt, wnd, Add32(seqn, slen - 1))
  {
    if slen == 0 && wnd != 0 {
      EmptySegmentInWindow(nxt, wnd, seqn);
    }
  }

  /** The shape in which every handler uses `is_between_wrapped`: an acknowledgement `ackn`
      against una - 1 and nxt + 1. It accepts una =< ackn =< nxt while the two are within half
      the sequence space. */
  predicate AckAcceptable(una: u32, nxt: u32, ackn: u32) {
    IsBetweenWrapped(Sub32(una, 1), ackn, Add32(nxt, 1))
  }

  lemma AckAcceptableMeaning(una: u32, nxt: u32, ackn: u32)
    ensures AckAcceptable(una, nxt, ackn) <==>
            Sub32(ackn, una) <= Sub32(nxt, una) && Sub32(nxt, una) <= TWO32 - 3
            && Sub32(ackn, una) < TWO31 - 1 && Sub32(nxt, una) - Sub32(ackn, una) < TWO31 - 1
  {
    BetweenDistances(Sub32(una, 1), ackn, Add32(nxt, 1));
    DistancesFromLeft(una, ackn);
    DistancesFromLeft(una, Add32(nxt, 1));
    DistancesToRight(una, nxt);
  }
}
