/** Separated text and numerals, as the address parsers of src/cli/parser.c read them. A C string is
    its characters before the terminating NUL. */
module Text {

  // ----- fields between separators -----

  function Split(s: string, sep: char): (ps: seq<string>)
    ensures |ps| >= 1
  {
    if s == [] then [""]
    else
      var n := |s| - 1;
      var ps := Split(s[..n], sep);
      if s[n] == sep then ps + [""] else ps[..|ps| - 1] + [ps[|ps| - 1] + [s[n]]]
  }

  function Join(ps: seq<string>, sep: char): string
    requires |ps| >= 1
  {
    if |ps| == 1 then ps[0] else Join(ps[..|ps| - 1], sep) + [sep] + ps[|ps| - 1]
  }

  function Last(ps: seq<string>): string
    requires |ps| >= 1
  {
    ps[|ps| - 1]
  }

  lemma SplitSnoc(s: string, c: char, sep: char)
    ensures var ps := Split(s, sep);
            Split(s + [c], sep) == if c == sep then ps + [""] else ps[..|ps| - 1] + [Last(ps) + [c]]
  {
    assert (s + [c])[..|s|] == s;
  }

  /** `qs` are the fields `ps`, the finished ones unchanged and the open one perhaps extended. */
  predicate Extends(ps: seq<string>, qs: seq<string>)
    requires |ps| >= 1
  {
    |ps| <= |qs| && qs[..|ps| - 1] == ps[..|ps| - 1] && Last(ps) <= qs[|ps| - 1]
  }

  lemma SnocExtends(ps: seq<string>, qs: seq<string>, c: char, sep: char)
    requires |ps| >= 1 && Extends(ps, qs)
    ensures Extends(ps, if c == sep then qs + [""] else qs[..|qs| - 1] + [Last(qs) + [c]])
    ensures |ps| < |qs| && qs[|ps| - 1] == Last(ps) ==>
              (if c == sep then qs + [""] else qs[..|qs| - 1] + [Last(qs) + [c]])[|ps| - 1] == Last(ps)
  {
    var next := if c == sep then qs + [""] else qs[..|qs| - 1] + [Last(qs) + [c]];
    assert next[..|ps| - 1] == qs[..|ps| - 1];
  }

  /** More text keeps the finished fields and extends the open one; a separator finishes it. */
  lemma {:induction false} SplitExtends(s: string, t: string, sep: char)
    ensures Extends(Split(s, sep), Split(s + t, sep))
    ensures t != [] && t[0] == sep ==>
              |Split(s, sep)| < |Split(s + t, sep)| && Split(s + t, sep)[|Split(s, sep)| - 1] == Last(Split(s, sep))
    decreases |t|
  {
    hide Split, Extends;
    var ps := Split(s, sep);
    if t == [] {
      assert s + t == s;
      ExtendsItself(ps);
    } else {
      var n := |t| - 1;
      SplitExtends(s, t[..n], sep);
      var qs := Split(s + t[..n], sep);
      SplitSnoc(s + t[..n], t[n], sep);
      assert s + t == s + t[..n] + [t[n]];
      SnocExtends(ps, qs, t[n], sep);
      if n == 0 {
        assert s + t[..n] == s;
      }
    }
  }

  lemma ExtendsItself(ps: seq<string>)
    requires |ps| >= 1
    ensures Extends(ps, ps)
  {
  }

  lemma {:induction false} SplitPlain(s: string, sep: char)
    requires sep !in s
    ensures Split(s, sep) == [s]
  {
    if s != [] {
      var n := |s| - 1;
      SplitPlain(s[..n], sep);
      assert s[..n] + [s[n]] == s;
    }
  }

  /** A field without the separator, appended after one. */
  lemma {:induction false} SplitAppend(s: string, f: string, sep: char)
    requires sep !in f
    ensures Split(s + [sep] + f, sep) == Split(s, sep) + [f]
    decreases |f|
  {
    hide Split;
    if f == [] {
      assert s + [sep] + f == s + [sep];
      SplitSnoc(s, sep, sep);
    } else {
      var n := |f| - 1;
      SplitAppend(s, f[..n], sep);
      SplitSnoc(s + [sep] + f[..n], f[n], sep);
      assert s + [sep] + f == s + [sep] + f[..n] + [f[n]];
      assert f[..n] + [f[n]] == f;
    }
  }

  lemma {:induction false} SplitJoin(ps: seq<string>, sep: char)
    requires |ps| >= 1 && forall p <- ps :: sep !in p
    ensures Split(Join(ps, sep), sep) == ps
  {
    if |ps| == 1 {
      SplitPlain(ps[0], sep);
    } else {
      var n := |ps| - 1;
      SplitJoin(ps[..n], sep);
      SplitAppend(Join(ps[..n], sep), ps[n], sep);
      assert ps[..n] + [ps[n]] == ps;
    }
  }

  lemma JoinSnoc(ps: seq<string>, f: string, sep: char)
    requires |ps| >= 1
    ensures Join(ps + [f], sep) == Join(ps, sep) + [sep] + f
  {
    assert (ps + [f])[..|ps|] == ps;
  }

  lemma JoinOne(f: string, sep: char)
    ensures Join([f], sep) == f
  {
  }

  /** Extending the last field extends the text. */
  lemma JoinLast(ps: seq<string>, c: char, sep: char)
    requires |ps| >= 1
    ensures Join(ps[..|ps| - 1] + [Last(ps) + [c]], sep) == Join(ps, sep) + [c]
  {
    var qs := ps[..|ps| - 1] + [Last(ps) + [c]];
    if |ps| > 1 {
      JoinSnoc(ps[..|ps| - 1], Last(ps) + [c], sep);
      assert Join(ps[..|ps| - 1], sep) + [sep] + (Last(ps) + [c]) == Join(ps[..|ps| - 1], sep) + [sep] + Last(ps) + [c];
    }
  }

  lemma {:induction false} JoinSplit(s: string, sep: char)
    ensures Join(Split(s, sep), sep) == s
  {
    if s != [] {
      hide Join;
      var n := |s| - 1;
      var ps := Split(s[..n], sep);
      JoinSplit(s[..n], sep);
      JoinSnoc(ps, "", sep);
      JoinLast(ps, s[n], sep);
      assert s[..n] + [s[n]] == s;
    }
  }

  // ----- numerals -----

  predicate IsDigit(c: char) { '0' <= c <= '9' }

  predicate IsHex(c: char) { IsDigit(c) || 'a' <= c <= 'f' || 'A' <= c <= 'F' }

  /** The index of `c` in "0123456789abcdef" or "0123456789ABCDEF". */
  function DigitValue(c: char): (v: nat)
    requires IsHex(c)
    ensures v < 16 && (IsDigit(c) ==> v < 10)
  {
    if IsDigit(c) then c as int - '0' as int
    else if 'a' <= c <= 'f' then c as int - 'a' as int + 10
    else c as int - 'A' as int + 10
  }

  predicate AllDigits(s: string) { forall i :: 0 <= i < |s| ==> IsDigit(s[i]) }

  predicate AllHex(s: string) { forall i :: 0 <= i < |s| ==> IsHex(s[i]) }

  function Dec(s: string): nat
    requires AllDigits(s)
  {
    if s == [] then 0 else Dec(s[..|s| - 1]) * 10 + DigitValue(s[|s| - 1])
  }

  function Hex(s: string): nat
    requires AllHex(s)
  {
    if s == [] then 0 else Hex(s[..|s| - 1]) * 16 + DigitValue(s[|s| - 1])
  }

  lemma DecEmpty()
    ensures Dec([]) == 0
  {
  }

  lemma DecSnoc(s: string, c: char)
    requires AllDigits(s) && IsDigit(c)
    ensures AllDigits(s + [c]) && Dec(s + [c]) == Dec(s) * 10 + DigitValue(c)
  {
    assert (s + [c])[..|s|] == s;
  }

  lemma HexSnoc(s: string, c: char)
    requires AllHex(s) && IsHex(c)
    ensures AllHex(s + [c]) && Hex(s + [c]) == Hex(s) * 16 + DigitValue(c)
  {
    assert (s + [c])[..|s|] == s;
  }

  /** More digits never make a numeral smaller. */
  lemma {:induction false} DecGrows(s: string, t: string)
    requires AllDigits(t) && s <= t
    ensures AllDigits(s) && Dec(s) <= Dec(t)
    decreases |t|
  {
    assert forall i :: 0 <= i < |s| ==> s[i] == t[i];
    if |s| < |t| {
      DecGrows(s, t[..|t| - 1]);
    } else {
      assert s == t;
    }
  }

  function Pow16(n: nat): nat { if n == 0 then 1 else 16 * Pow16(n - 1) }

  lemma {:induction false} HexBound(s: string)
    requires AllHex(s)
    ensures Hex(s) < Pow16(|s|)
  {
    if s != [] {
      HexBound(s[..|s| - 1]);
    }
  }

  /** Four hex digits never exceed 0xffff. */
  lemma FourDigitsFit(s: string)
    requires AllHex(s) && |s| <= 4
    ensures Hex(s) <= 0xffff
  {
    HexBound(s);
    assert Pow16(4) == 0x10000 && Pow16(3) == 0x1000 && Pow16(2) == 0x100 && Pow16(1) == 16 && Pow16(0) == 1;
  }

  // ----- printing -----

  const DIGITS := "0123456789abcdef"

  lemma DigitOf(d: nat)
    requires d < 16
    ensures IsHex(DIGITS[d]) && DigitValue(DIGITS[d]) == d && (d < 10 ==> IsDigit(DIGITS[d]))
  {
  }

  lemma OneDigit(d: nat)
    requires d < 16
    ensures AllHex([DIGITS[d]]) && Hex([DIGITS[d]]) == d
    ensures d < 10 ==> AllDigits([DIGITS[d]]) && Dec([DIGITS[d]]) == d
  {
    DigitOf(d);
    assert [DIGITS[d]][..0] == [];
  }

  lemma MoreDigits(s: string, n: nat)
    requires AllDigits(s) && Dec(s) == n / 10
    ensures AllDigits(s + [DIGITS[n % 10]]) && Dec(s + [DIGITS[n % 10]]) == n
  {
    hide Dec;
    DigitOf(n % 10);
    DecSnoc(s, DIGITS[n % 10]);
  }

  lemma MoreHexDigits(s: string, n: nat)
    requires AllHex(s) && Hex(s) == n / 16
    ensures AllHex(s + [DIGITS[n % 16]]) && Hex(s + [DIGITS[n % 16]]) == n
  {
    hide Hex;
    DigitOf(n % 16);
    HexSnoc(s, DIGITS[n % 16]);
  }

  function PrintDec(n: nat): (s: string)
    ensures s != [] && AllDigits(s) && Dec(s) == n
  {
    if n < 10 then
      OneDigit(n);
      [DIGITS[n]]
    else
      MoreDigits(PrintDec(n / 10), n);
      PrintDec(n / 10) + [DIGITS[n % 10]]
  }

  /** Lower-case hexadecimal without leading zeros. */
  function PrintHex(n: nat): (s: string)
    ensures s != [] && AllHex(s) && Hex(s) == n
  {
    if n < 16 then
      OneDigit(n);
      [DIGITS[n]]
    else
      MoreHexDigits(PrintHex(n / 16), n);
      PrintHex(n / 16) + [DIGITS[n % 16]]
  }

  lemma PrintDecShort(n: nat)
    requires n <= 255
    ensures |PrintDec(n)| <= 3
  {
    if n >= 10 {
      assert |PrintDec(n)| == |PrintDec(n / 10)| + 1;
      if n >= 100 {
        assert n / 10 / 10 < 10 && |PrintDec(n / 10 / 10)| == 1;
      }
    }
  }

  lemma PrintHexShort(n: nat)
    requires n <= 0xffff
    ensures |PrintHex(n)| <= 4
  {
    var a := n / 16;
    var b := a / 16;
    var c := b / 16;
    assert c < 16 && |PrintHex(c)| == 1;
    assert |PrintHex(b)| <= |PrintHex(c)| + 1;
    assert |PrintHex(a)| <= |PrintHex(b)| + 1;
    assert |PrintHex(n)| <= |PrintHex(a)| + 1;
  }
}
