/** `inet_pton4` and `parse_ipv4_addr` (src/cli/parser.c:351-402, 559-569). */
module Inet4 {
  import opened SeqArith
  import opened TcpTypes
  import opened Text

  const INADDRSZ: nat := 4
  const INET_ADDRSTRLEN: nat := 16

  // ----- the grammar -----

  /** A non-empty run of decimal digits of value at most 255; leading zeros are allowed. */
  predicate ValidOctet(p: string) { p != [] && AllDigits(p) && Dec(p) <= 255 }

  predicate ValidQuad(ps: seq<string>) {
    |ps| == 4 && ValidOctet(ps[0]) && ValidOctet(ps[1]) && ValidOctet(ps[2]) && ValidOctet(ps[3])
  }

  function QuadValue(ps: seq<string>): (b: Bytes)
    requires ValidQuad(ps)
    ensures |b| == 4
  {
    [Dec(ps[0]), Dec(ps[1]), Dec(ps[2]), Dec(ps[3])]
  }

  /** Exactly four dot-separated octets, and nothing else. */
  function Parse4(s: string): (r: Option<Bytes>)
    ensures r.Some? ==> |r.value| == 4
  {
    var ps := Split(s, '.');
    if ValidQuad(ps) then Some(QuadValue(ps)) else None
  }

  function Print4(b: Bytes): string
    requires |b| == 4
  {
    Join([PrintDec(b[0]), PrintDec(b[1]), PrintDec(b[2]), PrintDec(b[3])], '.')
  }

  lemma NoDots(ps: seq<string>)
    requires ValidQuad(ps)
    ensures forall p <- ps :: '.' !in p
  {
    forall p | p in ps ensures '.' !in p {
      assert AllDigits(p);
    }
  }

  /** The parser accepts exactly the texts of the grammar, with the grammar's value. */
  lemma Parse4Grammar(s: string)
    ensures Parse4(s).Some? <==> exists ps :: ValidQuad(ps) && s == Join(ps, '.')
    ensures forall ps :: ValidQuad(ps) && s == Join(ps, '.') ==> Parse4(s) == Some(QuadValue(ps))
  {
    JoinSplit(s, '.');
    forall ps | ValidQuad(ps) && s == Join(ps, '.') ensures Split(s, '.') == ps {
      NoDots(ps);
      SplitJoin(ps, '.');
    }
  }

  lemma Print4Parses(b: Bytes)
    requires |b| == 4
    ensures Parse4(Print4(b)) == Some(b)
  {
    var ps := [PrintDec(b[0]), PrintDec(b[1]), PrintDec(b[2]), PrintDec(b[3])];
    assert ValidQuad(ps);
    Parse4Grammar(Print4(b));
    assert QuadValue(ps) == b;
  }

  // ----- why each early return is right -----

  /** The text read so far, and where the loop stands in it. */
  predicate Reading(s: string, i: nat, ps: seq<string>) {
    i <= |s| && ps == Split(s[..i], '.')
  }

  lemma RestOf(s: string, i: nat, ps: seq<string>)
    requires Reading(s, i, ps)
    ensures var qs := Split(s, '.');
            && Extends(ps, qs)
            && (i < |s| && s[i] == '.' ==> |ps| < |qs| && qs[|ps| - 1] == Last(ps))
  {
    hide Split, Extends;
    SplitExtends(s[..i], s[i..], '.');
    assert s[..i] + s[i..] == s;
  }

  lemma ReadOne(s: string, i: nat, ps: seq<string>)
    requires Reading(s, i, ps) && i < |s|
    ensures Reading(s, i + 1, if s[i] == '.' then ps + [""] else ps[..|ps| - 1] + [Last(ps) + [s[i]]])
  {
    SplitSnoc(s[..i], s[i], '.');
    assert s[..i + 1] == s[..i] + [s[i]];
  }

  lemma ValidFields(ps: seq<string>, k: nat)
    requires ValidQuad(ps) && k < 4
    ensures ValidOctet(ps[k])
  {
  }

  /** A group that has grown beyond 255, or holds a character that is neither digit nor dot, spoils
      the whole text. */
  lemma BadGroup(s: string, i: nat, ps: seq<string>)
    requires Reading(s, i, ps) && Last(ps) != []
    requires !AllDigits(Last(ps)) || Dec(Last(ps)) > 255
    ensures Parse4(s) == None
  {
    RestOf(s, i, ps);
    var qs := Split(s, '.');
    if ValidQuad(qs) {
      ValidFields(qs, |ps| - 1);
      DecGrows(Last(ps), qs[|ps| - 1]);
    }
  }

  /** A dot after an empty group, or after the fourth, spoils the whole text. */
  lemma BadDot(s: string, i: nat, ps: seq<string>)
    requires Reading(s, i, ps) && i < |s| && s[i] == '.'
    requires Last(ps) == [] || |ps| == 4
    ensures Parse4(s) == None
  {
    RestOf(s, i, ps);
    var qs := Split(s, '.');
    if ValidQuad(qs) {
      ValidFields(qs, |ps| - 1);
    }
  }

  lemma ReadAll(s: string, ps: seq<string>)
    requires Reading(s, |s|, ps)
    ensures Parse4(s) == if ValidQuad(ps) then Some(QuadValue(ps)) else None
  {
    assert s[..|s|] == s;
  }

  lemma ReadNone(s: string)
    ensures Reading(s, 0, [""])
  {
  }

  // ----- the code -----

  /** `inet_pton4`: writes four bytes at `off` on success and nothing otherwise. */
  method InetPton4(src: string, dst: array<u8>, off: nat) returns (ok: bool)
    requires off + INADDRSZ <= dst.Length
    modifies dst
    ensures ok <==> Parse4(src).Some?
    ensures ok ==> dst[..] == old(dst[..off]) + Parse4(src).value + old(dst[off + 4..])
    ensures !ok ==> dst[..] == old(dst[..])
  {
    hide Split, Dec, Parse4, Reading;
    DecEmpty();
    ReadNone(src);
    var sawDigit, octets := false, 0;
    var tmp := new u8[INADDRSZ];
    var tp := 0;
    tmp[0] := 0;
    ghost var ps := [""];
    for i := 0 to |src|
      invariant dst[..] == old(dst[..])
      invariant Reading(src, i, ps) && |ps| == tp + 1 && tp < 4
      invariant forall j :: 0 <= j < tp ==> ValidOctet(ps[j]) && tmp[j] == Dec(ps[j])
      invariant AllDigits(ps[tp]) && tmp[tp] == Dec(ps[tp]) <= 255
      invariant sawDigit <==> ps[tp] != []
      invariant octets == tp + if sawDigit then 1 else 0
    {
      var ch := src[i];
      ghost var before := ps;
      ReadOne(src, i, ps);
      ps := if ch == '.' then ps + [""] else ps[..tp] + [ps[tp] + [ch]];
      if IsDigit(ch) {
        var digit: int := tmp[tp];
        var new' := digit * 10 + DigitValue(ch);
        DecSnoc(before[tp], ch);
        if new' > 255 {
          BadGroup(src, i + 1, ps);
          return false;
        }
        if !sawDigit {
          octets := octets + 1;
          if octets > 4 {
            return false;
          }
          sawDigit := true;
        }
        tmp[tp] := new';
      } else if ch == '.' && sawDigit {
        if octets == 4 {
          BadDot(src, i, before);
          return false;
        }
        tp := tp + 1;
        tmp[tp] := 0;
        sawDigit := false;
      } else {
        if ch == '.' {
          BadDot(src, i, before);
        } else {
          assert !IsDigit(ps[tp][|ps[tp]| - 1]);
          BadGroup(src, i + 1, ps);
        }
        return false;
      }
    }
    ReadAll(src, ps);
    if octets < 4 {
      return false;
    }
    assert tmp[..] == QuadValue(ps);
    forall k | 0 <= k < 4 {
      dst[off + k] := tmp[k];
    }
    return true;
  }

  /** `parse_ipv4_addr`: texts that cannot be a dotted quad's buffer are refused first. */
  method ParseIpv4Addr(token: string, ipv4: array<u8>) returns (status: int)
    requires ipv4.Length == INADDRSZ
    modifies ipv4
    ensures status == 0 <==> |token| < 16 && Parse4(token).Some?
    ensures status == 0 ==> ipv4[..] == Parse4(token).value
    ensures status != 0 ==> status == -22 && ipv4[..] == old(ipv4[..])
  {
    if |token| >= INET_ADDRSTRLEN {
      return -22;
    }
    var ok := InetPton4(token, ipv4, 0);
    if !ok {
      return -22;
    }
    return 0;
  }

  /** Every address printed as a dotted quad is short enough for `parse_ipv4_addr`. */
  lemma Print4Fits(b: Bytes)
    requires |b| == 4
    ensures |Print4(b)| < INET_ADDRSTRLEN
  {
    var p0, p1, p2, p3 := PrintDec(b[0]), PrintDec(b[1]), PrintDec(b[2]), PrintDec(b[3]);
    PrintDecShort(b[0]); PrintDecShort(b[1]); PrintDecShort(b[2]); PrintDecShort(b[3]);
    hide PrintDec, Join;
    JoinSnoc([p0, p1, p2], p3, '.');
    JoinSnoc([p0, p1], p2, '.');
    JoinSnoc([p0], p1, '.');
    assert [p0, p1, p2] + [p3] == [p0, p1, p2, p3] && [p0, p1] + [p2] == [p0, p1, p2] && [p0] + [p1] == [p0, p1];
    JoinOne(p0, '.');
  }
}
