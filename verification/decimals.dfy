/** Numbers as text: str.format with zero padding, str() and int(). */
module Decimals {
  import opened Bytes

  const ZERO: Byte := 48
  const MINUS: Byte := 45
  const PLUS: Byte := 43
  const UNDERSCORE: Byte := 95

  predicate IsDigit(c: Byte) { ZERO <= c <= ZERO + 9 }

  predicate IsSpace(c: Byte) { c == 32 || 9 <= c <= 13 }

  ghost predicate AllDigits(s: seq<Byte>) { forall i :: 0 <= i < |s| ==> IsDigit(s[i]) }

  function Pow10(w: nat): nat { if w == 0 then 1 else 10 * Pow10(w - 1) }

  function Digits(n: nat): seq<Byte> {
    if n < 10 then [ZERO + n] else Digits(n / 10) + [ZERO + n % 10]
  }

  /** '{:0w}'.format(n): at least w digits. */
  function Padded(n: nat, w: nat): seq<Byte> {
    var d := Digits(n);
    if |d| < w then seq(w - |d|, _ => ZERO) + d else d
  }

  /** str(i) */
  function Str(i: int): seq<Byte> {
    if i < 0 then [MINUS] + Digits(-i) else Digits(i)
  }

  /** int(s): surrounding white space, a sign, and single underscores between digits are allowed. */
  function ParseInt(s: seq<Byte>): Option<int> {
    var t := StripRight(StripLeft(s));
    if t != [] && t[0] == MINUS then Negated(ParseDigits(t[1..]))
    else if t != [] && t[0] == PLUS then ParseDigits(t[1..])
    else ParseDigits(t)
  }

  function Negated(r: Option<int>): Option<int> {
    if r.Some? then Some(-r.value) else None
  }

  function StripLeft(s: seq<Byte>): seq<Byte> {
    if s != [] && IsSpace(s[0]) then StripLeft(s[1..]) else s
  }

  function StripRight(s: seq<Byte>): seq<Byte> {
    if s != [] && IsSpace(s[|s| - 1]) then StripRight(s[..|s| - 1]) else s
  }

  function ParseDigits(s: seq<Byte>): Option<int> {
    if s == [] || !IsDigit(s[|s| - 1]) then None
    else
      var d := s[|s| - 1] - ZERO;
      if |s| == 1 then Some(d)
      else
        var front := if s[|s| - 2] == UNDERSCORE then s[..|s| - 2] else s[..|s| - 1];
        match ParseDigits(front)
        case None => None
        case Some(v) => Some(10 * v + d)
  }

  lemma {:induction false} DigitsParse(n: nat)
    ensures AllDigits(Digits(n)) && |Digits(n)| > 0
    ensures ParseDigits(Digits(n)) == Some(n)
  {
    if n >= 10 {
      DigitsParse(n / 10);
      var d, f := Digits(n), Digits(n / 10);
      assert d[..|d| - 1] == f && d[|d| - 1] == ZERO + n % 10 && d[|d| - 2] == f[|f| - 1];
    }
  }

  lemma {:induction false} ZerosBefore(k: nat, d: Byte)
    requires IsDigit(d)
    ensures AllDigits(seq(k, _ => ZERO) + [d]) && ParseDigits(seq(k, _ => ZERO) + [d]) == ParseDigits([d])
  {
    var t := seq(k, _ => ZERO) + [d];
    if k > 0 {
      ZerosBefore(k - 1, ZERO);
      assert t[..k] == seq(k - 1, _ => ZERO) + [ZERO];
    } else {
      assert t == [d];
    }
  }

  lemma {:induction false} ZerosParse(k: nat, s: seq<Byte>)
    requires AllDigits(s) && |s| > 0
    ensures AllDigits(seq(k, _ => ZERO) + s)
    ensures ParseDigits(seq(k, _ => ZERO) + s) == ParseDigits(s)
  {
    var z := seq(k, _ => ZERO);
    var t := z + s;
    if |s| == 1 {
      ZerosBefore(k, s[0]);
      assert s == [s[0]];
    } else {
      ZerosParse(k, s[..|s| - 1]);
      assert t[..|t| - 1] == z + s[..|s| - 1];
      assert t[|t| - 1] == s[|s| - 1] && t[|t| - 2] == s[|s| - 2];
    }
  }

  lemma NothingToStrip(s: seq<Byte>)
    requires |s| > 0 && !IsSpace(s[0]) && !IsSpace(s[|s| - 1])
    ensures StripRight(StripLeft(s)) == s
  {
  }

  lemma DigitsAsInt(s: seq<Byte>)
    requires AllDigits(s) && |s| > 0
    ensures ParseInt(s) == ParseDigits(s)
    ensures ParseInt([MINUS] + s) == Negated(ParseDigits(s))
  {
    hide ParseDigits;
    var m := [MINUS] + s;
    assert m[1..] == s && m[|m| - 1] == s[|s| - 1];
    assert IsDigit(s[0]) && IsDigit(s[|s| - 1]);
    NothingToStrip(s);
    NothingToStrip(m);
  }

  /** int() undoes str(). */
  lemma StrParses(i: int)
    ensures ParseInt(Str(i)) == Some(i)
  {
    var n := if i < 0 then -i else i;
    DigitsParse(n);
    DigitsAsInt(Digits(n));
  }

  /** int() undoes the zero-padded format. */
  lemma PaddedParses(n: nat, w: nat)
    ensures ParseInt(Padded(n, w)) == Some(n)
    ensures AllDigits(Padded(n, w))
  {
    DigitsParse(n);
    var d := Digits(n);
    if |d| < w {
      ZerosParse(w - |d|, d);
    }
    DigitsAsInt(Padded(n, w));
  }

  lemma {:induction false} DigitsLength(n: nat, w: nat)
    requires w > 0
    ensures |Digits(n)| <= w <==> n < Pow10(w)
  {
    if n < 10 {
      PowPositive(w - 1);
    } else if w == 1 {
      DigitsParse(n / 10);
    } else {
      DigitsLength(n / 10, w - 1);
    }
  }

  lemma {:induction false} PowPositive(w: nat)
    ensures Pow10(w) >= 1
  {
    if w > 0 {
      PowPositive(w - 1);
    }
  }

  /** A field of w digits holds exactly the numbers below 10^w. */
  lemma PaddedLength(n: nat, w: nat)
    requires w > 0
    ensures |Padded(n, w)| == w <==> n < Pow10(w)
  {
    DigitsLength(n, w);
  }
}
