/** Hexadecimal numbers: the printer of chunk sizes, and `strtoul` in base 16. */
module Hex {
  import opened Bytes

  const ULONG_MAX := 0xFFFF_FFFF_FFFF_FFFF

  function LowerDigit(d: nat): (c: Byte)
    requires d < 16
  {
    if d < 10 then 48 + d else 87 + d
  }

  function UpperDigit(d: nat): (c: Byte)
    requires d < 16
  {
    if d < 10 then 48 + d else 55 + d
  }

  predicate IsHex(c: Byte) {
    48 <= c <= 57 || 65 <= c <= 70 || 97 <= c <= 102
  }

  function Value(c: Byte): (v: nat)
    requires IsHex(c)
    ensures v < 16
  {
    if c <= 57 then c - 48 else if c <= 70 then c - 55 else c - 87
  }

  /** The digits, in either case. */
  lemma DigitsAre(d: nat)
    requires d < 16
    ensures UpperDigit(d) == "0123456789ABCDEF"[d] as int && LowerDigit(d) == "0123456789abcdef"[d] as int
  {
  }

  /** The digits of a number, without leading zeros. */
  function Digits(n: nat): (s: seq<Byte>)
    ensures s != [] && forall i :: 0 <= i < |s| ==> IsHex(s[i])
  {
    if n < 16 then [LowerDigit(n)] else Digits(n / 16) + [LowerDigit(n % 16)]
  }

  method FromIToHex(n: nat) returns (ret: seq<Byte>)
    ensures ret == Digits(n)
  {
    ret := [LowerDigit(n % 16)];
    var m := n / 16;
    while m > 0
      invariant (if m > 0 then Digits(m) else []) + ret == Digits(n)
    {
      assert Digits(m) == (if m / 16 > 0 then Digits(m / 16) else []) + [LowerDigit(m % 16)];
      ret := [LowerDigit(m % 16)] + ret;
      m := m / 16;
    }
  }

  // ------------------------------------------------------------------ strtoul

  predicate IsSpace(c: Byte) {
    c == 32 || 9 <= c <= 13
  }

  /** The blanks: space, tab, line feed, vertical tab, form feed and carriage return. */
  lemma BlanksAre(c: Byte)
    ensures IsSpace(c) <==> c in Ascii(" \t\n\U{0B}\U{0C}\r")
  {
    assert Ascii(" \t\n\U{0B}\U{0C}\r") == [32, 9, 10, 11, 12, 13];
  }

  function SkipSpaces(s: seq<Byte>): (n: nat)
    ensures n <= |s|
  {
    if s == [] || !IsSpace(s[0]) then 0 else 1 + SkipSpaces(s[1..])
  }

  /** The length of the run of hexadecimal digits that starts a text. */
  function DigitRun(s: seq<Byte>): (n: nat)
    ensures n <= |s| && forall i :: 0 <= i < n ==> IsHex(s[i])
    ensures n < |s| ==> !IsHex(s[n])
  {
    if s == [] || !IsHex(s[0]) then 0 else 1 + DigitRun(s[1..])
  }

  function Number(s: seq<Byte>): (v: nat)
    requires forall i :: 0 <= i < |s| ==> IsHex(s[i])
  {
    if s == [] then 0 else 16 * Number(s[..|s| - 1]) + Value(s[|s| - 1])
  }

  predicate HasPrefix(s: seq<Byte>) {
    |s| > 2 && s[0] == 48 && (s[1] == 120 || s[1] == 88) && IsHex(s[2])
  }

  /** The value of a run of digits, and its length. */
  function Run(s: seq<Byte>): (r: (nat, nat))
    ensures r.1 <= |s|
  {
    (Number(s[..DigitRun(s)]), DigitRun(s))
  }

  /** Digits, with or without 0x before them: their value and the octets used. */
  function Magnitude(s: seq<Byte>): (r: (nat, nat))
    ensures r.1 <= |s|
  {
    if HasPrefix(s) then (Run(s[2..]).0, 2 + Run(s[2..]).1) else Run(s)
  }

  /** Values that do not fit saturate, and a minus sign negates modulo 2^64. */
  function Signed(s: seq<Byte>): (r: (nat, nat))
    ensures r.0 <= ULONG_MAX && r.1 <= |s|
  {
    var sign := if s != [] && (s[0] == 43 || s[0] == 45) then 1 else 0;
    var (v, n) := Magnitude(s[sign..]);
    if n == 0 then (0, 0)
    else if v > ULONG_MAX then (ULONG_MAX, sign + n)
    else (if sign == 1 && s[0] == 45 && v > 0 then ULONG_MAX + 1 - v else v, sign + n)
  }

  /** The value read and the number of octets used: leading blanks, a sign, an optional
      0x, then digits; 0 octets are used when there is no digit. */
  function StrToUL(s: seq<Byte>): (r: (nat, nat))
    ensures r.0 <= ULONG_MAX && r.1 <= |s|
  {
    var blanks := SkipSpaces(s);
    var (v, n) := Signed(s[blanks..]);
    (v, if n == 0 then 0 else blanks + n)
  }

  lemma {:induction false} NumberOfDigits(n: nat)
    ensures Number(Digits(n)) == n
  {
    if n >= 16 {
      NumberOfDigits(n / 16);
      assert Digits(n)[..|Digits(n)| - 1] == Digits(n / 16);
    }
  }

  lemma {:induction false} DigitRunEnds(s: seq<Byte>, t: seq<Byte>)
    requires forall i :: 0 <= i < |s| ==> IsHex(s[i])
    requires t != [] ==> !IsHex(t[0])
    ensures DigitRun(s + t) == |s|
  {
    if s == [] {
      assert s + t == t;
    } else {
      assert (s + t)[1..] == s[1..] + t;
      DigitRunEnds(s[1..], t);
    }
  }

  /** The printer and `strtoul` agree on every number that fits, before any text that does
      not go on with a digit or an x. */
  lemma {:induction false} StrToULReadsDigits(n: nat, t: seq<Byte>)
    requires n <= ULONG_MAX && (t != [] ==> !IsHex(t[0]) && t[0] != 120 && t[0] != 88)
    ensures StrToUL(Digits(n) + t) == (n, |Digits(n)|)
  {
    var d := Digits(n);
    var s := d + t;
    assert s[0] == d[0] && IsHex(s[0]);
    assert |s| > 1 ==> s[1] == if |d| > 1 then d[1] else t[0];
    DigitRunEnds(d, t);
    assert s[..|d|] == d;
    NumberOfDigits(n);
    assert Run(s) == (n, |d|);
    PlainDigits(s);
  }

  lemma PlainDigits(s: seq<Byte>)
    requires s != [] && IsHex(s[0]) && (|s| > 1 ==> s[1] != 120 && s[1] != 88)
    requires Run(s).0 <= ULONG_MAX
    ensures StrToUL(s) == Run(s)
  {
    assert s[0..] == s;
    assert Magnitude(s) == Run(s);
    assert Signed(s) == Run(s);
  }

  lemma MagnitudeEnds(s: seq<Byte>)
    ensures var n := Magnitude(s).1; n > 0 ==> IsHex(s[n - 1])
  {
    if HasPrefix(s) {
      var t, n := s[2..], DigitRun(s[2..]);
      assert n > 0 ==> s[2 + n - 1] == t[n - 1];
    }
  }

  lemma SignedEnds(s: seq<Byte>)
    ensures var n := Signed(s).1; n > 0 ==> IsHex(s[n - 1])
  {
    var sign := if s != [] && (s[0] == 43 || s[0] == 45) then 1 else 0;
    var t, n := s[sign..], Magnitude(s[sign..]).1;
    MagnitudeEnds(t);
    assert n > 0 ==> s[sign + n - 1] == t[n - 1];
  }

  /** What is read ends in a digit. */
  lemma {:induction false} LastIsDigit(s: seq<Byte>)
    ensures var n := StrToUL(s).1; n > 0 ==> IsHex(s[n - 1])
  {
    var blanks := SkipSpaces(s);
    var t, n := s[blanks..], Signed(s[blanks..]).1;
    SignedEnds(t);
    assert n > 0 ==> s[blanks + n - 1] == t[n - 1];
  }

  /** Leading blanks are used along with what follows them. */
  lemma {:induction false} BlanksSkipped(b: seq<Byte>, s: seq<Byte>)
    requires (forall c :: c in b ==> IsSpace(c)) && s != [] && !IsSpace(s[0])
    ensures StrToUL(b + s) == (StrToUL(s).0, if StrToUL(s).1 == 0 then 0 else |b| + StrToUL(s).1)
  {
    BlanksCounted(b, s);
    assert (b + s)[|b|..] == s;
    assert SkipSpaces(s) == 0 && s[0..] == s;
  }

  lemma {:induction false} BlanksCounted(b: seq<Byte>, s: seq<Byte>)
    requires (forall c :: c in b ==> IsSpace(c)) && s != [] && !IsSpace(s[0])
    ensures SkipSpaces(b + s) == |b|
  {
    if b == [] {
      assert b + s == s;
    } else {
      assert (b + s)[1..] == b[1..] + s && (b + s)[0] == b[0];
      BlanksCounted(b[1..], s);
    }
  }

  /** A sign before the digits is used; a minus sign negates modulo 2^64. */
  lemma {:induction false} SignRead(minus: bool, n: nat, t: seq<Byte>)
    requires n <= ULONG_MAX && (t != [] ==> !IsHex(t[0]) && t[0] != 120 && t[0] != 88)
    ensures StrToUL([if minus then 45 else 43] + (Digits(n) + t)) ==
            (if minus && n > 0 then ULONG_MAX + 1 - n else n, 1 + |Digits(n)|)
  {
    var d := Digits(n) + t;
    var s := [if minus then 45 else 43] + d;
    MagnitudeOfDigits(n, t);
    assert s[1..] == d && s[0..] == s;
  }

  lemma {:induction false} RunOfDigits(n: nat, t: seq<Byte>)
    requires t != [] ==> !IsHex(t[0])
    ensures Run(Digits(n) + t) == (n, |Digits(n)|)
  {
    DigitRunEnds(Digits(n), t);
    assert (Digits(n) + t)[..|Digits(n)|] == Digits(n);
    NumberOfDigits(n);
  }

  lemma {:induction false} MagnitudeOfDigits(n: nat, t: seq<Byte>)
    requires t != [] ==> !IsHex(t[0]) && t[0] != 120 && t[0] != 88
    ensures Magnitude(Digits(n) + t) == (n, |Digits(n)|)
  {
    var d := Digits(n);
    var s := d + t;
    assert |s| > 1 ==> s[1] == if |d| > 1 then d[1] else t[0];
    RunOfDigits(n, t);
  }

  lemma MagnitudeAfterPrefix(x: Byte, s: seq<Byte>)
    requires (x == 120 || x == 88) && s != [] && IsHex(s[0])
    ensures Magnitude([48, x] + s) == (Run(s).0, 2 + Run(s).1)
  {
    assert ([48, x] + s)[2..] == s;
  }

  lemma Unsigned(s: seq<Byte>, v: nat, n: nat)
    requires s != [] && IsHex(s[0]) && Magnitude(s) == (v, n) && v <= ULONG_MAX && n > 0
    ensures StrToUL(s) == (v, n)
  {
    assert s[0..] == s;
  }

  lemma {:induction false} PrefixedRun(x: Byte, s: seq<Byte>, v: nat, n: nat)
    requires (x == 120 || x == 88) && s != [] && IsHex(s[0]) && Run(s) == (v, n) && v <= ULONG_MAX
    ensures StrToUL([48, x] + s) == (v, 2 + n)
  {
    MagnitudeAfterPrefix(x, s);
    Unsigned([48, x] + s, v, 2 + n);
  }

  /** So is 0x before them. */
  lemma {:induction false} PrefixRead(x: Byte, n: nat, t: seq<Byte>)
    requires (x == 120 || x == 88) && n <= ULONG_MAX && (t != [] ==> !IsHex(t[0]))
    ensures StrToUL([48, x] + (Digits(n) + t)) == (n, 2 + |Digits(n)|)
  {
    RunOfDigits(n, t);
    PrefixedRun(x, Digits(n) + t, n, |Digits(n)|);
  }

  /** A number that does not fit saturates. */
  lemma {:induction false} SaturatesAbove(n: nat, t: seq<Byte>)
    requires n > ULONG_MAX && (t != [] ==> !IsHex(t[0]) && t[0] != 120 && t[0] != 88)
    ensures StrToUL(Digits(n) + t) == (ULONG_MAX, |Digits(n)|)
  {
    var s := Digits(n) + t;
    MagnitudeOfDigits(n, t);
    assert IsHex(s[0]) && s[0..] == s;
  }
}
