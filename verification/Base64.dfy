/** Base64: the accumulator that shifts in octets and emits sextets, against the encoding by
    groups of three octets of section 4 of RFC 4648. */
module Base64 {
  import opened Basics
  import opened Bytes

  const PAD: Byte := 61

  function Letter(d: nat): (c: Byte)
    requires d < 64
  {
    if d < 26 then 65 + d else if d < 52 then 71 + d else if d < 62 then d - 4 else if d == 62 then 43 else 47
  }

  predicate IsLetter(c: Byte) {
    65 <= c <= 90 || 97 <= c <= 122 || 48 <= c <= 57 || c == 43 || c == 47
  }

  function Sextet(c: Byte): (d: nat)
    requires IsLetter(c)
    ensures d < 64
  {
    if c == 43 then 62 else if c == 47 then 63 else if c <= 57 then c + 4 else if c <= 90 then c - 65 else c - 71
  }

  // ------------------------------------------------------------------- groups

  function Group3(a: Byte, b: Byte, c: Byte): (r: seq<Byte>) {
    [Letter(a / 4), Letter(a % 4 * 16 + b / 16), Letter(b % 16 * 4 + c / 64), Letter(c % 64)]
  }

  /** Whole groups of three octets become four letters; what is left over is padded. */
  function Encode(s: seq<Byte>): (r: seq<Byte>) {
    if |s| >= 3 then Group3(s[0], s[1], s[2]) + Encode(s[3..])
    else if |s| == 2 then Group3(s[0], s[1], 0)[..3] + [PAD]
    else if |s| == 1 then Group3(s[0], 0, 0)[..2] + [PAD, PAD]
    else []
  }

  function Ungroup(a: nat, b: nat, c: nat, d: nat): (r: seq<Byte>)
    requires a < 64 && b < 64 && c < 64 && d < 64
    ensures |r| == 3
  {
    [a * 4 + b / 16, b % 16 * 16 + c / 4, c % 4 * 64 + d]
  }

  /** Four letters become three octets again, fewer where there is padding. */
  function Decode(t: seq<Byte>): (r: seq<Byte>) {
    if |t| < 4 || !IsLetter(t[0]) || !IsLetter(t[1]) then []
    else if !IsLetter(t[2]) then Ungroup(Sextet(t[0]), Sextet(t[1]), 0, 0)[..1]
    else if !IsLetter(t[3]) then Ungroup(Sextet(t[0]), Sextet(t[1]), Sextet(t[2]), 0)[..2]
    else Ungroup(Sextet(t[0]), Sextet(t[1]), Sextet(t[2]), Sextet(t[3])) + Decode(t[4..])
  }

  lemma LetterInverts(d: nat)
    requires d < 64
    ensures IsLetter(Letter(d)) && Sextet(Letter(d)) == d
  {
  }

  lemma OctetsInvert(a: Byte, b: Byte, c: Byte)
    ensures Ungroup(a / 4, a % 4 * 16 + b / 16, b % 16 * 4 + c / 64, c % 64) == [a, b, c]
  {
  }

  lemma GroupInverts(a: Byte, b: Byte, c: Byte)
    ensures var g := Group3(a, b, c);
            && (forall i :: 0 <= i < 4 ==> IsLetter(g[i]))
            && Sextet(g[0]) == a / 4 && Sextet(g[1]) == a % 4 * 16 + b / 16
            && Sextet(g[2]) == b % 16 * 4 + c / 64 && Sextet(g[3]) == c % 64
  {
    LetterInverts(a / 4);
    LetterInverts(a % 4 * 16 + b / 16);
    LetterInverts(b % 16 * 4 + c / 64);
    LetterInverts(c % 64);
  }

  lemma {:induction false} DecodeWhole(a: Byte, b: Byte, c: Byte, t: seq<Byte>)
    ensures Decode(Group3(a, b, c) + t) == [a, b, c] + Decode(t)
  {
    GroupInverts(a, b, c);
    OctetsInvert(a, b, c);
    assert (Group3(a, b, c) + t)[4..] == t;
  }

  lemma DecodePart(a: Byte, b: Byte)
    ensures Decode(Group3(a, b, 0)[..3] + [PAD]) == [a, b]
    ensures Decode(Group3(a, 0, 0)[..2] + [PAD, PAD]) == [a]
  {
    GroupInverts(a, b, 0);
    GroupInverts(a, 0, 0);
    OctetsInvert(a, b, 0);
    OctetsInvert(a, 0, 0);
  }

  lemma {:induction false} DecodeShort(s: seq<Byte>)
    requires |s| < 3
    ensures Decode(Encode(s)) == s
  {
    if |s| > 0 {
      DecodePart(s[0], s[|s| - 1]);
      assert s == if |s| == 2 then [s[0], s[1]] else [s[0]];
    }
  }

  lemma {:induction false} DecodeLong(s: seq<Byte>, e: seq<Byte>, rest: seq<Byte>)
    requires |s| >= 3 && e == Group3(s[0], s[1], s[2]) + rest && Decode(rest) == s[3..]
    ensures Decode(e) == s
  {
    DecodeWhole(s[0], s[1], s[2], rest);
    assert s == [s[0], s[1], s[2]] + s[3..];
  }

  /** The group decoder recovers every octet string. */
  lemma {:induction false} DecodeEncode(s: seq<Byte>)
    ensures Decode(Encode(s)) == s
  {
    if |s| >= 3 {
      DecodeEncode(s[3..]);
      FirstGroup(s);
      DecodeLong(s, Encode(s), Encode(s[3..]));
    } else {
      DecodeShort(s);
    }
  }

  lemma {:induction false} EncodeLength(s: seq<Byte>)
    ensures |Encode(s)| == 4 * ((|s| + 2) / 3)
  {
    if |s| >= 3 {
      EncodeLength(s[3..]);
    }
  }

  // -------------------------------------------------------------- accumulator

  /** Wrap-around of a signed 32-bit number. */
  function Wrap32(x: int): (r: int) {
    (x + 0x8000_0000) % 0x1_0000_0000 - 0x8000_0000
  }

  /** (v >> k) & 0x3F, where >> keeps the sign. */
  function Bits(v: int, k: nat): (d: nat)
    ensures d < 64
  {
    v / Pow2(k) % 64
  }

  function Emitted(v: int, valb: int): (r: seq<Byte>)
    decreases valb + 6
  {
    if valb < 0 then [] else [Letter(Bits(v, valb))] + Emitted(v, valb - 6)
  }

  /** The letters that are settled once all of `s` has been shifted in. */
  function Settled(s: seq<Byte>): (r: seq<Byte>) {
    if |s| >= 3 then Group3(s[0], s[1], s[2]) + Settled(s[3..])
    else if |s| == 2 then Group3(s[0], s[1], 0)[..2]
    else if |s| == 1 then Group3(s[0], 0, 0)[..1]
    else []
  }

  /** The accumulator agrees with the last two octets shifted in. */
  predicate Tracks(v: int, s: seq<Byte>) {
    && (|s| > 0 ==> v % 256 == s[|s| - 1])
    && (|s| > 1 ==> v % 65536 == 256 * (s[|s| - 2] as int) + s[|s| - 1])
  }

  lemma Congruent(x: int, y: int, m: int, k: int)
    requires m == 256 || m == 65536
    requires x == y + m * k
    ensures x % m == y % m
  {
  }

  lemma WrapKeepsLow(x: int)
    ensures Wrap32(x) % 65536 == x % 65536 && Wrap32(x) % 256 == x % 256
  {
    var q := (x + 0x8000_0000) / 0x1_0000_0000;
    assert x == Wrap32(x) + 0x1_0000_0000 * q;
    Congruent(x, Wrap32(x), 65536, 65536 * q);
    Congruent(x, Wrap32(x), 256, 0x100_0000 * q);
  }

  lemma ShiftLow(v: int, c: Byte)
    ensures (v * 256 + c) % 256 == c && (v * 256 + c) % 65536 == v % 256 * 256 + c
  {
    Congruent(v * 256 + c, c, 256, v);
    var m := v / 256;
    assert v * 256 + c == (v % 256 * 256 + c) + 65536 * m;
    Congruent(v * 256 + c, v % 256 * 256 + c, 65536, m);
  }

  lemma ShiftIn(v: int, s: seq<Byte>, c: Byte)
    requires Tracks(v, s)
    ensures Tracks(Wrap32(v * 256 + c), s + [c])
  {
    WrapKeepsLow(v * 256 + c);
    ShiftLow(v, c);
  }

  lemma Divides(x: int, d: int, q: int, r: int)
    requires (d == 1 || d == 4 || d == 16 || d == 64) && x == d * q + r && 0 <= r < d
    ensures x / d == q && x % d == r
  {
  }

  lemma SmallPowers()
    ensures Pow2(0) == 1 && Pow2(2) == 4 && Pow2(4) == 16 && Pow2(6) == 64
  {
    assert Pow2(3) == 8;
  }

  /** The sextets that fall within the last octet. */
  lemma LastOctet(v: int, c: Byte)
    requires v % 256 == c
    ensures Bits(v, 2) == c / 4 && Bits(v, 0) == c % 64
  {
    SmallPowers();
    var q := v / 256;
    Divides(v, 4, 64 * q + c / 4, c % 4);
    Divides(64 * q + c / 4, 64, q, c / 4);
    Divides(v, 64, 4 * q + c / 64, c % 64);
  }

  /** The sextets that straddle the last two octets. */
  lemma LastTwoOctets(v: int, b: Byte, c: Byte)
    requires v % 65536 == 256 * (b as int) + c
    ensures Bits(v, 4) == b % 4 * 16 + c / 16 && Bits(v, 6) == b % 16 * 4 + c / 64
  {
    SmallPowers();
    var q := v / 65536;
    var n: int := b;
    Divides(v, 16, 4096 * q + 16 * n + c / 16, c % 16);
    Divides(4096 * q + 16 * n + c / 16, 64, 64 * q + n / 4, n % 4 * 16 + c / 16);
    Divides(v, 64, 1024 * q + 4 * n + c / 64, c % 64);
    Divides(1024 * q + 4 * n + c / 64, 64, 16 * q + n / 16, n % 16 * 4 + c / 64);
  }

  // ------------------------------------------------------------------ encoder

  /** How far the shift is behind, by the number of octets shifted in. */
  function Behind(n: nat): (valb: int) {
    if n % 3 == 0 then -6 else if n % 3 == 1 then -4 else -2
  }

  lemma {:induction false} FirstGroup(s: seq<Byte>)
    requires |s| >= 3
    ensures Settled(s) == Group3(s[0], s[1], s[2]) + Settled(s[3..])
    ensures Encode(s) == Group3(s[0], s[1], s[2]) + Encode(s[3..])
  {
  }

  lemma AfterGroup(s: seq<Byte>, t: seq<Byte>)
    requires |s| >= 3
    ensures (s + t)[3..] == s[3..] + t
    ensures (s + t)[0] == s[0] && (s + t)[1] == s[1] && (s + t)[2] == s[2]
  {
  }

  lemma {:induction false} SettledGroups(s: seq<Byte>, t: seq<Byte>, n: nat)
    requires |s| == 3 * n
    ensures Settled(s + t) == Settled(s) + Settled(t)
    decreases n
  {
    if n == 0 {
      assert s + t == t;
    } else {
      SettledGroups(s[3..], t, n - 1);
      AfterGroup(s, t);
      FirstGroup(s);
      FirstGroup(s + t);
      Regroup(Group3(s[0], s[1], s[2]), Settled(s[3..]), Settled(t));
    }
  }

  lemma {:induction false} EncodeGroups(s: seq<Byte>, t: seq<Byte>, n: nat)
    requires |s| == 3 * n
    ensures Encode(s + t) == Settled(s) + Encode(t)
    decreases n
  {
    if n == 0 {
      assert s + t == t;
    } else {
      EncodeGroups(s[3..], t, n - 1);
      AfterGroup(s, t);
      FirstGroup(s);
      FirstGroup(s + t);
      Regroup(Group3(s[0], s[1], s[2]), Settled(s[3..]), Encode(t));
    }
  }

  lemma {:induction false} EmittedOnce(v: int, valb: int)
    requires 0 <= valb < 6
    ensures Emitted(v, valb) == [Letter(Bits(v, valb))]
  {
    assert Emitted(v, valb - 6) == [];
  }

  lemma {:induction false} SettleFirst(a: Byte, v: int)
    requires v % 256 == a
    ensures Settled([a]) == Emitted(v, 2)
  {
    LastOctet(v, a);
    EmittedOnce(v, 2);
  }

  lemma {:induction false} SettleSecond(a: Byte, b: Byte, v: int)
    requires v % 65536 == 256 * (a as int) + b
    ensures Settled([a, b]) == Settled([a]) + Emitted(v, 4)
  {
    LastTwoOctets(v, a, b);
    EmittedOnce(v, 4);
  }

  lemma {:induction false} SettleThird(a: Byte, b: Byte, c: Byte, v: int)
    requires v % 65536 == 256 * (b as int) + c && v % 256 == c
    ensures Settled([a, b, c]) == Settled([a, b]) + Emitted(v, 6)
  {
    LastOctet(v, c);
    LastTwoOctets(v, b, c);
    EmittedOnce(v, 0);
    assert Emitted(v, 6) == [Letter(Bits(v, 6)), Letter(Bits(v, 0))];
    assert [a, b, c][3..] == [];
  }

  /** Shifting in one more octet emits exactly the letters that it settles. */
  lemma {:induction false} SettleOne(s: seq<Byte>, c: Byte, v: int)
    requires Tracks(v, s + [c])
    ensures Settled(s + [c]) == Settled(s) + Emitted(v, Behind(|s|) + 8)
  {
    var n := |s| / 3;
    var whole, part := s[..3 * n], s[3 * n..];
    assert s == whole + part && s + [c] == whole + (part + [c]);
    SettledGroups(whole, part, n);
    SettledGroups(whole, part + [c], n);
    if |part| == 0 {
      SettleFirst(c, v);
      assert part + [c] == [c] && Settled(part) == [];
    } else if |part| == 1 {
      SettleSecond(part[0], c, v);
      assert part + [c] == [part[0], c] && part == [part[0]];
    } else {
      SettleThird(part[0], part[1], c, v);
      assert part + [c] == [part[0], part[1], c] && part == [part[0], part[1]];
    }
  }

  lemma OwedAfterOne(a: Byte, w: int)
    requires w % 65536 == 256 * (a as int)
    ensures Encode([a]) == Settled([a]) + ([Letter(Bits(w, 4))] + [PAD, PAD])
  {
    LastTwoOctets(w, a, 0);
    assert Group3(a, 0, 0)[..2] == [Letter(a / 4), Letter(Bits(w, 4))];
  }

  lemma OwedAfterTwo(a: Byte, b: Byte, w: int)
    requires w % 65536 == 256 * (b as int)
    ensures Encode([a, b]) == Settled([a, b]) + ([Letter(Bits(w, 6))] + [PAD])
  {
    LastTwoOctets(w, b, 0);
    var g := Group3(a, b, 0);
    assert g[..3] == g[..2] + [Letter(Bits(w, 6))];
  }

  lemma ShiftedOut(v: int, c: Byte)
    requires v % 256 == c
    ensures Wrap32(v * 256) % 65536 == 256 * (c as int)
  {
    WrapKeepsLow(v * 256);
    ShiftLow(v, 0);
  }

  lemma {:induction false} OwedAfterGroups(whole: seq<Byte>, part: seq<Byte>, n: nat, owed: seq<Byte>)
    requires |whole| == 3 * n && Encode(part) == Settled(part) + owed
    ensures Encode(whole + part) == Settled(whole + part) + owed
  {
    SettledGroups(whole, part, n);
    EncodeGroups(whole, part, n);
    Regroup(Settled(whole), Settled(part), owed);
  }

  /** The one letter still owed when octets are left over, and the padding. */
  lemma {:induction false} LastLetter(s: seq<Byte>, v: int, w: int)
    requires |s| % 3 != 0 && Tracks(v, s) && w == Wrap32(v * 256)
    ensures Encode(s) == Settled(s) + ([Letter(Bits(w, if |s| % 3 == 1 then 4 else 6))] +
                                       if |s| % 3 == 1 then [PAD, PAD] else [PAD])
  {
    var n := |s| / 3;
    var whole, part := s[..3 * n], s[3 * n..];
    assert s == whole + part;
    ShiftedOut(v, s[|s| - 1]);
    if |part| == 1 {
      assert part == [s[|s| - 1]];
      OwedAfterOne(part[0], w);
      OwedAfterGroups(whole, part, n, [Letter(Bits(w, 4))] + [PAD, PAD]);
    } else {
      assert part == [part[0], s[|s| - 1]];
      OwedAfterTwo(part[0], part[1], w);
      OwedAfterGroups(whole, part, n, [Letter(Bits(w, 6))] + [PAD]);
    }
  }

  /** Whole groups of letters only: nothing is owed. */
  lemma {:induction false} NothingOwed(s: seq<Byte>)
    requires |s| % 3 == 0
    ensures Encode(s) == Settled(s)
  {
    EncodeGroups(s, [], |s| / 3);
    assert s + [] == s;
  }

  /** With the letters still to be emitted, `out` comes to `goal`. */
  ghost predicate Emitting(v: int, valb: int, out: seq<Byte>, goal: seq<Byte>) {
    out + Emitted(v, valb) == goal
  }

  lemma {:induction false} EmittedNext(v: int, valb: int, c: Byte, out: seq<Byte>, goal: seq<Byte>)
    requires 0 <= valb && c == Letter(Bits(v, valb)) && Emitting(v, valb, out, goal)
    ensures Emitting(v, valb - 6, out + [c], goal)
  {
    Regroup(out, [c], Emitted(v, valb - 6));
  }

  lemma {:induction false} EmittedAll(v: int, valb: int, out: seq<Byte>, goal: seq<Byte>)
    requires valb < 0 && Emitting(v, valb, out, goal)
    ensures out == goal
  {
  }

  /** The letters that the accumulator has ready. */
  method Emit(val: int, behind: int, out0: seq<Byte>) returns (out: seq<Byte>, valb: int)
    requires -6 <= behind
    ensures out == out0 + Emitted(val, behind)
    ensures -6 <= valb < 0 && (behind - valb) % 6 == 0
  {
    out, valb := out0, behind;
    ghost var goal := out0 + Emitted(val, behind);
    while valb >= 0
      invariant -6 <= valb && (behind - valb) % 6 == 0 && Emitting(val, valb, out, goal)
    {
      var c := Letter(Bits(val, valb));
      EmittedNext(val, valb, c, out, goal);
      out := out + [c];
      valb := valb - 6;
    }
    EmittedAll(val, valb, out, goal);
  }

  method Pad(out0: seq<Byte>) returns (out: seq<Byte>)
    ensures out0 <= out && |out| % 4 == 0 && |out| < |out0| + 4
    ensures forall i :: |out0| <= i < |out| ==> out[i] == PAD
  {
    out := out0;
    while |out| % 4 != 0
      invariant out0 <= out && forall i :: |out0| <= i < |out| ==> out[i] == PAD
      invariant |out| < |out0| + 4 && (|out| > |out0| ==> |out0| % 4 != 0 && (|out0| + 3) / 4 * 4 >= |out|)
      decreases (|out0| + 3) / 4 * 4 - |out|
    {
      out := out + [PAD];
    }
  }

  lemma BehindNext(n: nat, valb: int)
    requires -6 <= valb < 0 && (Behind(n) + 8 - valb) % 6 == 0
    ensures valb == Behind(n + 1)
  {
  }

  lemma PaddedIs(e: seq<Byte>, t: seq<Byte>, out: seq<Byte>)
    requires t <= out && |out| % 4 == 0 && |out| < |t| + 4 && |e| % 4 == 0
    requires forall i :: |t| <= i < |out| ==> out[i] == PAD
    requires e == t || e == t + [PAD] || e == t + [PAD, PAD]
    ensures out == e
  {
  }

  /** The letters of all octets, as they are shifted into a 32-bit accumulator that wraps around. */
  method Settle(input: seq<Byte>) returns (out: seq<Byte>, val: int, valb: int)
    ensures out == Settled(input) && valb == Behind(|input|) && Tracks(val, input)
  {
    out := [];
    val := 0;
    valb := -6;
    for i := 0 to |input|
      invariant out == Settled(input[..i]) && valb == Behind(i) && Tracks(val, input[..i])
    {
      ghost var s := input[..i];
      assert input[..i + 1] == s + [input[i]];
      ShiftIn(val, s, input[i]);
      val := Wrap32(val * 256 + input[i]);
      SettleOne(s, input[i], val);
      out, valb := Emit(val, valb + 8, out);
      BehindNext(i, valb);
    }
    assert input[..|input|] == input;
  }

  /** The letter still owed after them. */
  method PayOwed(input: seq<Byte>, val: int, valb: int, settled: seq<Byte>) returns (out: seq<Byte>)
    requires settled == Settled(input) && valb == Behind(|input|) && Tracks(val, input)
    ensures Encode(input) == out || Encode(input) == out + [PAD] || Encode(input) == out + [PAD, PAD]
  {
    out := settled;
    if valb > -6 {
      var w := Wrap32(val * 256);
      var c := Letter(Bits(w, valb + 8));
      LastLetter(input, val, w);
      Regroup(settled, [c], if |input| % 3 == 1 then [PAD, PAD] else [PAD]);
      out := out + [c];
    } else {
      NothingOwed(input);
    }
  }

  /** The encoder as it runs computes the encoding by groups. */
  method Base64Encode(input: seq<Byte>) returns (out: seq<Byte>)
    ensures out == Encode(input)
  {
    var val, valb;
    out, val, valb := Settle(input);
    out := PayOwed(input, val, valb, out);
    EncodeLength(input);
    out := PadOut(Encode(input), out);
  }

  /** Fills the last group of letters. */
  method PadOut(ghost e: seq<Byte>, letters: seq<Byte>) returns (out: seq<Byte>)
    requires |e| % 4 == 0 && (e == letters || e == letters + [PAD] || e == letters + [PAD, PAD])
    ensures out == e
  {
    out := Pad(letters);
    PaddedIs(e, letters, out);
  }

  /** The alphabet, in its four parts. */
  lemma LetterIs(d: nat)
    requires d < 64
    ensures d < 26 ==> Letter(d) == "ABCDEFGHIJKLMNOPQRSTUVWXYZ"[d] as int
    ensures 26 <= d < 52 ==> Letter(d) == "abcdefghijklmnopqrstuvwxyz"[d - 26] as int
    ensures 52 <= d < 62 ==> Letter(d) == "0123456789"[d - 52] as int
    ensures d >= 62 ==> Letter(d) == "+/"[d - 62] as int
    ensures PAD == '=' as int
  {
  }
}
