/** The parts of a query string: percent-encoding of components, trimming and splitting. */
module Query {
  import opened Basics
  import opened Bytes
  import opened Hex

  type Text = seq<Byte>

  const PERCENT: Byte := 37
  const PLUS: Byte := 43
  const SPACE: Byte := 32
  const TAB: Byte := 9
  const AMP: Byte := 38
  const EQUALS: Byte := 61

  // ------------------------------------------------------------- components

  /** The octets that stand for themselves: unreserved ones, and the sub-delimiters and
      marks that a query may hold. */
  predicate Plain(c: Byte) {
    || 48 <= c <= 57 || 65 <= c <= 90 || 97 <= c <= 122
    || c == 45 || c == 46 || c == 95 || c == 126 || c == 33 || c == 36 || 39 <= c <= 42
    || c == 44 || c == 59 || c == 58 || c == 64 || c == 47 || c == 63
  }

  /** A space becomes a plus sign, or is escaped and then a plus sign stands for itself. */
  function EncodeByte(c: Byte, spaceAsPlus: bool := true): (r: Text)
    ensures 1 <= |r| <= 3
  {
    if Plain(c) || (c == PLUS && !spaceAsPlus) then [c]
    else if c == SPACE && spaceAsPlus then [PLUS]
    else [PERCENT, UpperDigit(c / 16), UpperDigit(c % 16)]
  }

  function Encode(s: Text, spaceAsPlus: bool := true): (r: Text) {
    if s == [] then [] else EncodeByte(s[0], spaceAsPlus) + Encode(s[1..], spaceAsPlus)
  }

  lemma {:induction false} EncodeNext(s: Text, i: nat, spaceAsPlus: bool)
    requires i < |s|
    ensures Encode(s[i..], spaceAsPlus) == EncodeByte(s[i], spaceAsPlus) + Encode(s[i + 1..], spaceAsPlus)
  {
    assert s[i..][1..] == s[i + 1..];
  }

  method EncodeComponent(component: Text, spaceAsPlus: bool := true) returns (result: Text)
    ensures result == Encode(component, spaceAsPlus)
  {
    result := [];
    ghost var goal := Encode(component, spaceAsPlus);
    assert component[0..] == component;
    for i := 0 to |component|
      invariant result + Encode(component[i..], spaceAsPlus) == goal
    {
      EncodeNext(component, i, spaceAsPlus);
      Regroup(result, EncodeByte(component[i], spaceAsPlus), Encode(component[i + 1..], spaceAsPlus));
      result := result + EncodeByte(component[i], spaceAsPlus);
    }
  }

  /** Whether a text starts with an escape that decodes: a percent sign and two octets that
      `strtoul` uses up entirely. */
  predicate Escape(s: Text) {
    |s| > 2 && s[0] == PERCENT && StrToUL(s[1..3]).1 == 2
  }

  function DecodeStep(s: Text, plusAsSpace: bool := true): (r: (Byte, nat))
    requires s != []
    ensures 1 <= r.1 <= |s|
  {
    if Escape(s) then (StrToUL(s[1..3]).0 % 256, 3)
    else if s[0] == PLUS && plusAsSpace then (SPACE, 1)
    else (s[0], 1)
  }

  function Decode(s: Text, plusAsSpace: bool := true): (r: Text)
    ensures s != [] ==> r != []
    decreases |s|
  {
    if s == [] then [] else
    var (c, used) := DecodeStep(s, plusAsSpace);
    [c] + Decode(s[used..], plusAsSpace)
  }

  lemma {:induction false} DecodeNext(s: Text, i: nat, plusAsSpace: bool, c: Byte, used: nat)
    requires i < |s| && DecodeStep(s[i..], plusAsSpace) == (c, used)
    ensures i + used <= |s| && Decode(s[i..], plusAsSpace) == [c] + Decode(s[i + used..], plusAsSpace)
  {
    assert s[i..][used..] == s[i + used..];
  }

  method DecodeComponent(component: Text, plusAsSpace: bool := true) returns (result: Text)
    ensures result == Decode(component, plusAsSpace)
  {
    result := [];
    var i := 0;
    assert component[0..] == component;
    while i < |component|
      invariant Decoding(component, i, result, plusAsSpace)
      decreases |component| - i
    {
      var (c, used) := DecodeStep(component[i..], plusAsSpace);
      DecodingGoesOn(component, i, result, plusAsSpace, c, used);
      result := result + [c];
      i := i + used;
    }
    assert component[i..] == [];
  }

  /** The result so far, and what the rest decodes to, make up the whole. */
  ghost predicate Decoding(s: Text, i: nat, result: Text, plusAsSpace: bool) {
    i <= |s| && result + Decode(s[i..], plusAsSpace) == Decode(s, plusAsSpace)
  }

  lemma {:induction false} DecodingGoesOn(s: Text, i: nat, result: Text, plusAsSpace: bool, c: Byte, used: nat)
    requires Decoding(s, i, result, plusAsSpace) && i < |s| && DecodeStep(s[i..], plusAsSpace) == (c, used)
    ensures used > 0 && Decoding(s, i + used, result + [c], plusAsSpace)
  {
    DecodeNext(s, i, plusAsSpace, c, used);
    Regroup(result, [c], Decode(s[i + used..], plusAsSpace));
  }

  lemma EscapeDecodes(c: Byte)
    ensures var e := [UpperDigit(c / 16), UpperDigit(c % 16)]; StrToUL(e) == (c, 2)
  {
    var e := [UpperDigit(c / 16), UpperDigit(c % 16)];
    assert IsHex(e[0]) && IsHex(e[1]) && Value(e[0]) == c / 16 && Value(e[1]) == c % 16;
    assert e[1..] == [e[1]] && e[1..][1..] == [];
    assert DigitRun(e) == 2 && e[..2] == e;
    assert e[..1] == [e[0]] && [e[0]][..0] == [];
    assert Number([e[0]]) == c / 16;
    assert Number(e) == c;
    PlainDigits(e);
  }

  lemma EscapeRead(c: Byte, s: Text, rest: Text, plus: bool)
    requires s == [PERCENT, UpperDigit(c / 16), UpperDigit(c % 16)] + rest
    ensures DecodeStep(s, plus) == (c, 3)
  {
    EscapeDecodes(c);
    EscapeTaken(c, [UpperDigit(c / 16), UpperDigit(c % 16)], s, rest, plus);
  }

  lemma EscapeTaken(c: Byte, e: Text, s: Text, rest: Text, plus: bool)
    requires |e| == 2 && s == [PERCENT, e[0], e[1]] + rest && StrToUL(e) == (c, 2)
    ensures DecodeStep(s, plus) == (c, 3)
  {
    assert s[1..3] == e;
  }

  lemma PlainRead(s: Text, plus: bool)
    requires s != [] && s[0] != PERCENT
    ensures DecodeStep(s, plus) == (if s[0] == PLUS && plus then SPACE else s[0], 1)
  {
  }

  lemma DecodeOne(c: Byte, e: Text, s: Text, rest: Text, plus: bool)
    requires e == EncodeByte(c, plus) && s == e + rest
    ensures DecodeStep(s, plus) == (c, |e|)
  {
    if |e| == 1 {
      PlainRead(s, plus);
    } else {
      EscapeRead(c, s, rest, plus);
    }
  }

  /** Decoding undoes encoding, for every octet string and either treatment of spaces. */
  lemma {:induction false} DecodeEncode(s: Text, plus: bool := true)
    ensures Decode(Encode(s, plus), plus) == s
  {
    if s != [] {
      DecodeEncode(s[1..], plus);
      DecodeOne(s[0], EncodeByte(s[0], plus), Encode(s, plus), Encode(s[1..], plus), plus);
      assert Encode(s, plus)[|EncodeByte(s[0], plus)|..] == Encode(s[1..], plus);
      assert s == [s[0]] + s[1..];
    }
  }

  /** The marks that stand for themselves, besides letters and digits. */
  const MARKS: string := "-._~!$'()*,;:@/?"

  lemma MarksAre(c: Byte)
    ensures Plain(c) <==> || ('0' as int <= c <= '9' as int) || ('A' as int <= c <= 'Z' as int)
                          || ('a' as int <= c <= 'z' as int) || c in Ascii(MARKS)
  {
    var m := Ascii(MARKS);
    assert |m| == 16 && m == [45, 46, 95, 126, 33, 36, 39, 40, 41, 42, 44, 59, 58, 64, 47, 63];
  }

  /** What each octet is written as, in either mode: itself, a plus sign for a space, or an escape
      with two upper-case digits. */
  lemma EncodedForms(c: Byte, spaceAsPlus: bool)
    ensures Plain(c) ==> EncodeByte(c, spaceAsPlus) == [c]
    ensures EncodeByte(' ' as int, true) == Ascii("+") && EncodeByte(' ' as int, false) == Ascii("%20")
    ensures EncodeByte('+' as int, true) == Ascii("%2B") && EncodeByte('+' as int, false) == Ascii("+")
    ensures !Plain(c) && c != ' ' as int && c != '+' as int ==>
              var digits := "0123456789ABCDEF";
              EncodeByte(c, spaceAsPlus) == Ascii("%") + [digits[c / 16] as int, digits[c % 16] as int]
  {
    DigitsAre(c / 16);
    DigitsAre(c % 16);
    DigitsAre(2);
    DigitsAre(0);
    DigitsAre(11);
  }

  /** A text without percent signs, and without plus signs where these mean spaces, is its own
      decoding. */
  lemma {:induction false} DecodeLiteral(s: Text, plusAsSpace: bool)
    requires PERCENT !in s && (plusAsSpace ==> PLUS !in s)
    ensures Decode(s, plusAsSpace) == s
  {
    if s != [] {
      assert s[0] in s;
      DecodeLiteral(s[1..], plusAsSpace);
      assert s == [s[0]] + s[1..];
    }
  }

  /** A percent sign that two octets do not follow, of which the second is a digit, stays. */
  lemma {:induction false} MalformedStays(s: Text, plusAsSpace: bool)
    requires s != [] && s[0] == PERCENT && (|s| < 3 || !IsHex(s[2]))
    ensures Decode(s, plusAsSpace) == [PERCENT] + Decode(s[1..], plusAsSpace)
  {
    if |s| >= 3 {
      LastIsDigit(s[1..3]);
    }
  }

  // ------------------------------------------------------ splitting and trimming

  predicate Blank(c: Byte) {
    c == SPACE || c == TAB
  }

  /** The first position from `a` on that is not blank, or the end. */
  function LeftEdge(s: Text, a: nat): (l: nat)
    requires a <= |s|
    ensures a <= l <= |s| && (l < |s| ==> !Blank(s[l]))
    decreases |s| - a
  {
    if a < |s| && Blank(s[a]) then LeftEdge(s, a + 1) else a
  }

  /** The end of what remains of s[..b] when blanks at its end are dropped. */
  function RightEdge(s: Text, b: nat): (r: nat)
    requires b <= |s|
    ensures r <= b && (r > 0 ==> !Blank(s[r - 1]))
  {
    if b > 0 && Blank(s[b - 1]) then RightEdge(s, b - 1) else b
  }

  /** A text without the blanks at either end. */
  function Strip(s: Text): (r: Text) {
    var left, right := LeftEdge(s, 0), RightEdge(s, |s|);
    if left < right then s[left..right] else []
  }

  function IndexOf(s: Text, d: Byte): (k: nat)
    ensures k <= |s| && (k < |s| ==> s[k] == d)
  {
    if s == [] || s[0] == d then 0 else 1 + IndexOf(s[1..], d)
  }

  /** The texts between separators. */
  function Fields(s: Text, d: Byte := AMP): (r: seq<Text>)
    decreases |s|
  {
    var k := IndexOf(s, d);
    if k == |s| then [s] else [s[..k]] + Fields(s[k + 1..], d)
  }

  function Kept(field: Text): (r: seq<Text>) {
    if Strip(field) == [] then [] else [Strip(field)]
  }

  function KeptAll(fields: seq<Text>): (r: seq<Text>) {
    if fields == [] then [] else Kept(fields[0]) + KeptAll(fields[1..])
  }

  /** The fields of a text, stripped, without the empty ones. */
  function Pieces(s: Text, d: Byte := AMP): (r: seq<Text>) {
    KeptAll(Fields(s, d))
  }

  lemma KeptOne(field: Text)
    ensures KeptAll([field]) == Kept(field)
  {
    assert [field][1..] == [];
  }

  lemma {:induction false} KeptAllSplit(a: seq<Text>, b: seq<Text>)
    ensures KeptAll(a + b) == KeptAll(a) + KeptAll(b)
  {
    if a == [] {
      assert a + b == b;
    } else {
      assert (a + b)[1..] == a[1..] + b;
      KeptAllSplit(a[1..], b);
    }
  }

  method Trim(s: Text, left: nat, right: nat) returns (l: nat, r: nat)
    requires left <= |s| && right <= |s|
    ensures l == LeftEdge(s, left) && r == RightEdge(s, right)
  {
    l, r := left, right;
    while l < |s| && Blank(s[l])
      invariant left <= l <= |s| && LeftEdge(s, l) == LeftEdge(s, left)
    {
      l := l + 1;
    }
    while r > 0 && Blank(s[r - 1])
      invariant r <= right && RightEdge(s, r) == RightEdge(s, right)
    {
      r := r - 1;
    }
  }

  lemma {:induction false} LeftEdgeOfField(s: Text, f: Text, beg: nat, end: nat, a: nat)
    requires beg <= a <= end <= |s| && (end < |s| ==> !Blank(s[end])) && f == s[beg..end]
    ensures LeftEdge(s, a) == beg + LeftEdge(f, a - beg)
    decreases end - a
  {
    if a < end {
      assert f[a - beg] == s[a];
      LeftEdgeOfField(s, f, beg, end, a + 1);
    }
  }

  lemma {:induction false} RightEdgeOfField(s: Text, f: Text, beg: nat, end: nat, b: nat)
    requires beg <= b <= end <= |s| && f == s[beg..end]
    ensures var r := RightEdge(f, b - beg);
            if r > 0 then RightEdge(s, b) == beg + r else RightEdge(s, b) <= beg
  {
    if b > beg {
      assert f[b - 1 - beg] == s[b - 1];
      RightEdgeOfField(s, f, beg, end, b - 1);
    }
  }

  lemma SliceOfField(s: Text, f: Text, beg: nat, end: nat, l: nat, r: nat)
    requires beg <= end <= |s| && l <= r <= end - beg && f == s[beg..end]
    ensures f[l..r] == s[beg + l..beg + r]
  {
    assert forall k :: 0 <= k < r - l ==> f[l..r][k] == f[l + k] == s[beg + l + k] == s[beg + l..beg + r][k];
  }

  /** The edges of a field, found in the whole text and in the field alone. */
  lemma {:induction false} FieldEdges(s: Text, f: Text, beg: nat, end: nat, l: nat, r: nat) returns (fl: nat, fr: nat)
    requires beg <= end <= |s| && (end < |s| ==> !Blank(s[end])) && f == s[beg..end]
    requires l == LeftEdge(s, beg) && r == RightEdge(s, end)
    ensures fl == LeftEdge(f, 0) && fr == RightEdge(f, |f|)
    ensures l == beg + fl && if fr > 0 then r == beg + fr else r <= beg
  {
    fl, fr := LeftEdge(f, 0), RightEdge(f, |f|);
    LeftEdgeOfField(s, f, beg, end, beg);
    RightEdgeOfField(s, f, beg, end, end);
  }

  lemma {:induction false} StripIs(f: Text, fl: nat, fr: nat)
    requires fl == LeftEdge(f, 0) && fr == RightEdge(f, |f|)
    ensures Kept(f) == if fl < fr then [f[fl..fr]] else []
  {
  }

  /** Trimming a field in place, with bounds that are those of the whole text. */
  lemma {:induction false} TrimInPlace(s: Text, f: Text, beg: nat, end: nat, l: nat, r: nat)
    requires beg <= end <= |s| && (end < |s| ==> !Blank(s[end])) && f == s[beg..end]
    requires l == LeftEdge(s, beg) && r == RightEdge(s, end)
    ensures Kept(f) == if l < r then [s[l..r]] else []
  {
    var fl, fr := FieldEdges(s, f, beg, end, l, r);
    StripIs(f, fl, fr);
    SameCut(s, f, beg, end, fl, fr, r);
  }

  lemma SameCut(s: Text, f: Text, beg: nat, end: nat, fl: nat, fr: nat, r: nat)
    requires beg <= end <= |s| && f == s[beg..end] && fr <= |f| && r <= |s|
    requires if fr > 0 then r == beg + fr else r <= beg
    ensures (if fl < fr then [f[fl..fr]] else []) == if beg + fl < r then [s[beg + fl..r]] else []
  {
    if fl < fr {
      SliceOfField(s, f, beg, end, fl, fr);
    }
  }

  lemma {:induction false} IndexOfAtMost(s: Text, d: Byte, i: nat)
    requires i < |s| && s[i] == d
    ensures IndexOf(s, d) <= i
  {
    if s[0] != d {
      IndexOfAtMost(s[1..], d, i - 1);
    }
  }

  /** The next separator is at `i`, or there is none. */
  lemma {:induction false} PiecesNext(s: Text, t: Text, beg: nat, i: nat, d: Byte)
    requires beg <= i <= |s| && t == s[beg..] && IndexOf(t, d) == i - beg
    ensures Pieces(t, d) == Kept(s[beg..i]) + if i < |s| then Pieces(s[i + 1..], d) else []
  {
    assert t[..i - beg] == s[beg..i];
    if i < |s| {
      assert t[i - beg + 1..] == s[i + 1..];
      FieldsNext(t, i - beg, d);
    } else {
      OneField(t, d);
      assert t == s[beg..i];
    }
  }

  lemma {:induction false} OneField(t: Text, d: Byte)
    requires IndexOf(t, d) == |t|
    ensures Pieces(t, d) == Kept(t)
  {
    KeptOne(t);
  }

  lemma {:induction false} FieldsNext(t: Text, k: nat, d: Byte)
    requires k == IndexOf(t, d) < |t|
    ensures Pieces(t, d) == Kept(t[..k]) + Pieces(t[k + 1..], d)
  {
    assert Fields(t, d)[1..] == Fields(t[k + 1..], d);
  }

  method Field(s: Text, beg: nat, end: nat) returns (kept: seq<Text>)
    requires beg <= end <= |s| && (end < |s| ==> !Blank(s[end]))
    ensures kept == Kept(s[beg..end])
  {
    var l, r := Trim(s, beg, end);
    TrimInPlace(s, s[beg..end], beg, end, l, r);
    kept := if l < r then [s[l..r]] else [];
  }

  /** The fields before `beg` have been collected, and there is no separator from there to `i`. */
  ghost predicate Scanned(s: Text, d: Byte, beg: nat, i: nat, pieces: seq<Text>) {
    && beg <= i <= |s| && IndexOf(s[beg..], d) >= i - beg
    && pieces + Pieces(s[beg..], d) == Pieces(s, d)
  }

  lemma {:induction false} ScanStarts(s: Text, d: Byte)
    ensures Scanned(s, d, 0, 0, [])
  {
    assert s[0..] == s;
  }

  lemma {:induction false} ScanPasses(s: Text, d: Byte, beg: nat, i: nat, pieces: seq<Text>)
    requires Scanned(s, d, beg, i, pieces) && i < |s| && s[i] != d
    ensures Scanned(s, d, beg, i + 1, pieces)
  {
    assert s[beg..][i - beg] == s[i];
  }

  lemma {:induction false} ScanTakes(s: Text, d: Byte, beg: nat, i: nat, pieces: seq<Text>)
    requires Scanned(s, d, beg, i, pieces) && i < |s| && s[i] == d
    ensures Scanned(s, d, i + 1, i + 1, pieces + Kept(s[beg..i]))
  {
    IndexOfAtMost(s[beg..], d, i - beg);
    PiecesNext(s, s[beg..], beg, i, d);
    Regroup(pieces, Kept(s[beg..i]), Pieces(s[i + 1..], d));
  }

  lemma {:induction false} ScanEnds(s: Text, d: Byte, beg: nat, pieces: seq<Text>)
    requires Scanned(s, d, beg, |s|, pieces)
    ensures pieces + Kept(s[beg..|s|]) == Pieces(s, d)
  {
    PiecesNext(s, s[beg..], beg, |s|, d);
  }

  method Split(s: Text, d: Byte := AMP) returns (pieces: seq<Text>)
    requires !Blank(d)
    ensures pieces == Pieces(s, d)
  {
    pieces := [];
    var i, beg := 0, 0;
    ScanStarts(s, d);
    while i < |s|
      invariant Scanned(s, d, beg, i, pieces)
    {
      if s[i] == d {
        var field := Field(s, beg, i);
        ScanTakes(s, d, beg, i, pieces);
        pieces := pieces + field;
        beg := i + 1;
      } else {
        ScanPasses(s, d, beg, i, pieces);
      }
      i := i + 1;
    }
    ScanEnds(s, d, beg, pieces);
    if i > 0 {
      var field := Field(s, beg, i);
      pieces := pieces + field;
    }
  }
}
