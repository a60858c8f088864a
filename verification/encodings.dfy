/** The two encodings that message arguments go through: UTF-8 and base64. */
module Encodings {
  import opened Bytes

  // ---------- UTF-8 (RFC 3629, section 3) ----------

  /** The characters that can be encoded: everything but surrogates. */
  type Scalar = c: int | 0 <= c < 0xD800 || 0xE000 <= c < 0x11_0000

  type Text = seq<Scalar>

  function EncodeScalar(c: Scalar): (e: seq<Byte>)
    ensures 1 <= |e| <= 4
  {
    if c < 0x80 then [c]
    else if c < 0x800 then [0xC0 + c / 64, 0x80 + c % 64]
    else if c < 0x1_0000 then [0xE0 + c / 4096, 0x80 + c / 64 % 64, 0x80 + c % 64]
    else [0xF0 + c / 0x4_0000, 0x80 + c / 4096 % 64, 0x80 + c / 64 % 64, 0x80 + c % 64]
  }

  function EncodeText(t: Text): seq<Byte> {
    if t == [] then [] else EncodeScalar(t[0]) + EncodeText(t[1..])
  }

  predicate Trails(s: seq<Byte>, n: nat) {
    n < |s| && forall i :: 1 <= i <= n ==> 0x80 <= s[i] < 0xC0
  }

  /** The payload of a trailing byte. */
  function Low(b: Byte): int { b - 0x80 }

  /** The first character and its length, if s starts with a shortest-form sequence. */
  function DecodeScalar(s: seq<Byte>): (r: Option<(Scalar, nat)>)
    ensures r.Some? ==> 0 < r.value.1 <= |s|
  {
    if s == [] then None
    else
      var b: int := s[0];
      if b < 0x80 then Some((b, 1))
      else if 0xC2 <= b < 0xE0 && Trails(s, 1) then Some(((b - 0xC0) * 64 + Low(s[1]), 2))
      else if 0xE0 <= b < 0xF0 && Trails(s, 2) then
        var c := (b - 0xE0) * 4096 + Low(s[1]) * 64 + Low(s[2]);
        if c < 0x800 || 0xD800 <= c < 0xE000 then None else Some((c, 3))
      else if 0xF0 <= b < 0xF5 && Trails(s, 3) then
        var c := (b - 0xF0) * 0x4_0000 + Low(s[1]) * 4096 + Low(s[2]) * 64 + Low(s[3]);
        if c < 0x1_0000 || c >= 0x11_0000 then None else Some((c, 4))
      else None
  }

  function DecodeText(s: seq<Byte>): Option<Text> {
    if s == [] then Some([])
    else
      match DecodeScalar(s)
      case None => None
      case Some((c, n)) =>
        match DecodeText(s[n..])
        case None => None
        case Some(t) => Some([c] + t)
  }

  lemma SplitBits(c: nat)
    ensures c == c / 64 * 64 + c % 64 && 0 <= c % 64 < 64
    ensures c / 64 == c / 4096 * 64 + c / 64 % 64
    ensures c / 4096 == c / 0x4_0000 * 64 + c / 4096 % 64
  {
  }

  lemma ShortScalar(c: Scalar, s: seq<Byte>)
    requires c < 0x800 && EncodeScalar(c) <= s
    ensures DecodeScalar(s) == Some((c, |EncodeScalar(c)|))
  {
    SplitBits(c);
    assert s[0] == EncodeScalar(c)[0];
    assert c >= 0x80 ==> s[1] == EncodeScalar(c)[1];
  }

  lemma ThreeByteScalar(c: Scalar, s: seq<Byte>)
    requires 0x800 <= c < 0x1_0000 && EncodeScalar(c) <= s
    ensures DecodeScalar(s) == Some((c, 3))
  {
    SplitBits(c);
    var e := EncodeScalar(c);
    assert s[0] == e[0] && s[1] == e[1] && s[2] == e[2];
  }

  lemma FourByteScalar(c: Scalar, s: seq<Byte>)
    requires 0x1_0000 <= c && EncodeScalar(c) <= s
    ensures DecodeScalar(s) == Some((c, 4))
  {
    SplitBits(c);
    var e := EncodeScalar(c);
    assert s[0] == e[0] && s[1] == e[1] && s[2] == e[2] && s[3] == e[3];
  }

  lemma ScalarRoundTrip(c: Scalar, s: seq<Byte>)
    requires EncodeScalar(c) <= s
    ensures DecodeScalar(s) == Some((c, |EncodeScalar(c)|))
  {
    hide DecodeScalar;
    if c < 0x800 {
      ShortScalar(c, s);
    } else if c < 0x1_0000 {
      ThreeByteScalar(c, s);
    } else {
      FourByteScalar(c, s);
    }
  }

  lemma {:induction false} TextRoundTrip(t: Text)
    ensures DecodeText(EncodeText(t)) == Some(t)
  {
    hide DecodeScalar, EncodeScalar;
    if t != [] {
      var e, rest := EncodeScalar(t[0]), EncodeText(t[1..]);
      ScalarRoundTrip(t[0], e + rest);
      TextRoundTrip(t[1..]);
      assert (e + rest)[|e|..] == rest && [t[0]] + t[1..] == t;
    }
  }

  // ---------- base64 (RFC 4648, section 4) ----------

  const PAD: Byte := 61

  function Sextet(v: int): (c: Byte)
    requires 0 <= v < 64
  {
    if v < 26 then 65 + v
    else if v < 52 then 97 + v - 26
    else if v < 62 then 48 + v - 52
    else if v == 62 then 43
    else 47
  }

  function SextetValue(c: Byte): (v: Option<int>)
    ensures v.Some? ==> 0 <= v.value < 64 && Sextet(v.value) == c
    ensures v.None? ==> forall x :: 0 <= x < 64 ==> Sextet(x) != c
  {
    if 65 <= c < 91 then Some(c - 65)
    else if 97 <= c < 123 then Some(c - 97 + 26)
    else if 48 <= c < 58 then Some(c - 48 + 52)
    else if c == 43 then Some(62) else if c == 47 then Some(63) else None
  }

  function Encode64(s: seq<Byte>): seq<Byte> {
    if s == [] then []
    else if |s| == 1 then [Sextet(s[0] / 4), Sextet(s[0] % 4 * 16), PAD, PAD]
    else if |s| == 2 then [Sextet(s[0] / 4), Sextet(s[0] % 4 * 16 + s[1] / 16), Sextet(s[1] % 16 * 4), PAD]
    else
      [Sextet(s[0] / 4), Sextet(s[0] % 4 * 16 + s[1] / 16), Sextet(s[1] % 16 * 4 + s[2] / 64), Sextet(s[2] % 64)]
      + Encode64(s[3..])
  }

  /** The bytes of one group of four; the padding says how many there are. */
  function Group(a: Byte, b: Byte, c: Byte, d: Byte): Option<seq<Byte>> {
    match (SextetValue(a), SextetValue(b), SextetValue(c), SextetValue(d))
    case (Some(w), Some(x), Some(y), Some(z)) => Some([w * 4 + x / 16, x % 16 * 16 + y / 4, y % 4 * 64 + z])
    case (Some(w), Some(x), Some(y), None) => if d == PAD then Some([w * 4 + x / 16, x % 16 * 16 + y / 4]) else None
    case (Some(w), Some(x), None, None) => if c == d == PAD then Some([w * 4 + x / 16]) else None
    case _ => None
  }

  function Decode64(s: seq<Byte>): Option<seq<Byte>> {
    if s == [] then Some([])
    else if |s| < 4 then None
    else
      match Group(s[0], s[1], s[2], s[3])
      case None => None
      case Some(g) =>
        if |g| < 3 then (if |s| == 4 then Some(g) else None)
        else
          match Decode64(s[4..])
          case None => None
          case Some(t) => Some(g + t)
  }

  lemma SextetRoundTrip(v: int)
    requires 0 <= v < 64
    ensures SextetValue(Sextet(v)) == Some(v) && Sextet(v) != PAD
  {
  }

  lemma OneByteGroup(a: Byte)
    ensures Group(Sextet(a / 4), Sextet(a % 4 * 16), PAD, PAD) == Some([a])
  {
    hide Sextet, SextetValue;
    SextetRoundTrip(a / 4);
    SextetRoundTrip(a % 4 * 16);
    PadIsNoSextet();
  }

  lemma TwoByteGroup(a: Byte, b: Byte)
    ensures Group(Sextet(a / 4), Sextet(a % 4 * 16 + b / 16), Sextet(b % 16 * 4), PAD) == Some([a, b])
  {
    hide Sextet, SextetValue;
    SextetRoundTrip(a / 4);
    SextetRoundTrip(a % 4 * 16 + b / 16);
    SextetRoundTrip(b % 16 * 4);
    PadIsNoSextet();
  }

  lemma ThreeByteGroup(a: Byte, b: Byte, c: Byte)
    ensures Group(Sextet(a / 4), Sextet(a % 4 * 16 + b / 16), Sextet(b % 16 * 4 + c / 64), Sextet(c % 64))
            == Some([a, b, c])
  {
    hide Sextet, SextetValue;
    SextetRoundTrip(a / 4);
    SextetRoundTrip(a % 4 * 16 + b / 16);
    SextetRoundTrip(b % 16 * 4 + c / 64);
    SextetRoundTrip(c % 64);
  }

  lemma GroupRoundTrip(s: seq<Byte>)
    requires 1 <= |s| <= 3
    ensures |Encode64(s)| == 4
    ensures var e := Encode64(s); Group(e[0], e[1], e[2], e[3]) == Some(s)
  {
    hide Sextet, Group;
    if |s| == 1 {
      OneByteGroup(s[0]);
      assert s == [s[0]];
    } else if |s| == 2 {
      TwoByteGroup(s[0], s[1]);
      assert s == [s[0], s[1]];
    } else {
      ThreeByteGroup(s[0], s[1], s[2]);
      assert s[3..] == [] && Encode64(s[3..]) == [] && s == [s[0], s[1], s[2]];
    }
  }

  lemma PadIsNoSextet()
    ensures SextetValue(PAD) == None
  {
  }

  lemma {:induction false} Base64RoundTrip(s: seq<Byte>)
    ensures Decode64(Encode64(s)) == Some(s)
    ensures Encode64(s) == [] <==> s == []
  {
    hide Group, Sextet;
    if 1 <= |s| <= 3 {
      GroupRoundTrip(s);
      assert Encode64(s)[4..] == [];
      assert |s| == 3 ==> s + [] == s;
    } else if |s| > 3 {
      var head, tail := s[..3], s[3..];
      GroupRoundTrip(head);
      Base64RoundTrip(tail);
      Encode64Splits(s);
      assert (Encode64(head) + Encode64(tail))[4..] == Encode64(tail);
      assert head + tail == s;
    }
  }

  lemma Encode64Splits(s: seq<Byte>)
    requires |s| > 3
    ensures Encode64(s) == Encode64(s[..3]) + Encode64(s[3..]) && |Encode64(s[..3])| == 4
  {
    assert s[..3][3..] == [] && Encode64(s[..3][3..]) == [];
  }
}
