/** Reading the parameters off a query, printing them, and normalising a query. */
module QueryParams {
  import opened Bytes
  import opened Query

  /** A decoded parameter; `given` tells `k=` from `k`. */
  datatype Pair = Pair(key: Text, value: Text, given: bool)

  function PairOf(piece: Text): (p: Pair) {
    var k := IndexOf(piece, EQUALS);
    if k < |piece| then Pair(Decode(piece[..k]), Decode(piece[k + 1..]), true)
    else Pair(Decode(piece), [], false)
  }

  function PairsOf(pieces: seq<Text>): (r: seq<Pair>) {
    if pieces == [] then [] else
    var n := |pieces| - 1;
    PairsOf(pieces[..n]) + if PairOf(pieces[n]).key == [] then [] else [PairOf(pieces[n])]
  }

  /** The parameters of a query, in order; one without a key is not a parameter. */
  function Pairs(query: Text): (r: seq<Pair>) {
    PairsOf(Pieces(query))
  }

  function PrintPair(p: Pair): (r: Text) {
    Encode(p.key) + if p.given then [EQUALS] + Encode(p.value) else []
  }

  function Print(ps: seq<Pair>): (r: Text) {
    if ps == [] then [] else
    var n := |ps| - 1;
    (if n == 0 then [] else Print(ps[..n]) + [AMP]) + PrintPair(ps[n])
  }

  // --------------------------------------------------------- printed pieces

  predicate Clean(s: Text) {
    forall i :: 0 <= i < |s| ==> s[i] != AMP && s[i] != EQUALS && !Blank(s[i])
  }

  lemma {:induction false} EncodeIsClean(s: Text)
    ensures Clean(Encode(s)) && (Encode(s) == [] <==> s == [])
  {
    if s != [] {
      EncodeIsClean(s[1..]);
      assert Clean(EncodeByte(s[0]));
    }
  }

  lemma {:induction false} IndexOfNone(s: Text, d: Byte)
    requires forall i :: 0 <= i < |s| ==> s[i] != d
    ensures IndexOf(s, d) == |s|
  {
    if s != [] {
      IndexOfNone(s[1..], d);
    }
  }

  lemma {:induction false} IndexOfAfter(s: Text, d: Byte, t: Text)
    requires forall i :: 0 <= i < |s| ==> s[i] != d
    ensures IndexOf(s + [d] + t, d) == |s|
  {
    if s == [] {
      assert s + [d] + t == [d] + t;
    } else {
      assert (s + [d] + t)[1..] == s[1..] + [d] + t;
      IndexOfAfter(s[1..], d, t);
    }
  }

  lemma StripNothing(s: Text)
    requires s != [] && !Blank(s[0]) && !Blank(s[|s| - 1])
    ensures Kept(s) == [s]
  {
    assert LeftEdge(s, 0) == 0 && RightEdge(s, |s|) == |s|;
    assert s[0..|s|] == s;
  }

  lemma JoinAt(a: Text, d: Byte, b: Text, k: nat)
    requires k <= |a|
    ensures var s := a + [d] + b;
            s[..k] == a[..k] && s[k + 1..] == if k == |a| then b else a[k + 1..] + [d] + b
  {
  }

  lemma {:induction false} FieldsJoin(a: Text, d: Byte, b: Text)
    ensures Fields(a + [d] + b, d) == Fields(a, d) + Fields(b, d)
    decreases |a|
  {
    var k := IndexOf(a, d);
    JoinAt(a, d, b, k);
    if k == |a| {
      NotBefore(a, d);
      IndexOfAfter(a, d, b);
      assert a[..k] == a;
    } else {
      IndexOfPrefix(a, d, [d] + b);
      assert a + ([d] + b) == a + [d] + b;
      FieldsJoin(a[k + 1..], d, b);
    }
  }

  /** The fields of two texts joined by a separator are those of the one, then the other. */
  lemma {:induction false} PiecesJoin(a: Text, b: Text, d: Byte := AMP)
    ensures Pieces(a + [d] + b, d) == Pieces(a, d) + Pieces(b, d)
  {
    FieldsJoin(a, d, b);
    KeptAllSplit(Fields(a, d), Fields(b, d));
  }

  lemma {:induction false} NotBefore(s: Text, d: Byte)
    ensures forall i :: 0 <= i < IndexOf(s, d) ==> s[i] != d
  {
    if s != [] && s[0] != d {
      NotBefore(s[1..], d);
    }
  }

  lemma {:induction false} IndexOfPrefix(s: Text, d: Byte, t: Text)
    requires IndexOf(s, d) < |s|
    ensures IndexOf(s + t, d) == IndexOf(s, d)
  {
    if s[0] != d {
      assert (s + t)[1..] == s[1..] + t;
      IndexOfPrefix(s[1..], d, t);
    }
  }

  /** What can be printed and told from other parameters. */
  predicate Printable(p: Pair) {
    p.given || (p.key != [] && p.value == [])
  }

  lemma PrintedPair(p: Pair)
    requires Printable(p)
    ensures PairOf(PrintPair(p)) == p
  {
    var s := PrintPair(p);
    var key, value := Encode(p.key), Encode(p.value);
    EncodeIsClean(p.key);
    DecodeEncode(p.key);
    DecodeEncode(p.value);
    if p.given {
      assert s == key + [EQUALS] + value;
      IndexOfAfter(key, EQUALS, value);
      assert s[..|key|] == key && s[|key| + 1..] == value;
    } else {
      assert s == key;
      IndexOfNone(s, EQUALS);
    }
  }

  /** A text without separators and with no blank at either end is one piece. */
  lemma {:induction false} OnePiece(s: Text, d: Byte := AMP)
    requires s != [] && !Blank(s[0]) && !Blank(s[|s| - 1])
    requires forall i :: 0 <= i < |s| ==> s[i] != d
    ensures Pieces(s, d) == [s]
  {
    IndexOfNone(s, d);
    StripNothing(s);
    KeptOne(s);
  }

  lemma PrintedPiece(p: Pair)
    requires Printable(p)
    ensures Pieces(PrintPair(p)) == [PrintPair(p)]
  {
    EncodeIsClean(p.key);
    EncodeIsClean(p.value);
    OnePiece(PrintPair(p));
  }

  function Printed(ps: seq<Pair>): (r: seq<Text>)
    ensures |r| == |ps|
    ensures forall i :: 0 <= i < |ps| ==> r[i] == PrintPair(ps[i])
  {
    if ps == [] then [] else Printed(ps[..|ps| - 1]) + [PrintPair(ps[|ps| - 1])]
  }

  lemma {:induction false} PiecesOfPrint(ps: seq<Pair>)
    requires forall p :: p in ps ==> Printable(p)
    ensures Pieces(Print(ps)) == Printed(ps)
  {
    if ps == [] {
      KeptOne([]);
    } else {
      var n := |ps| - 1;
      PiecesOfPrint(ps[..n]);
      PrintedPiece(ps[n]);
      if n > 0 {
        PiecesJoin(Print(ps[..n]), PrintPair(ps[n]));
        assert Pieces(Print(ps)) == Printed(ps[..n]) + [PrintPair(ps[n])];
      } else {
        assert Print(ps) == PrintPair(ps[0]) && Printed(ps[..0]) == [];
      }
    }
  }

  function Named(ps: seq<Pair>): (r: seq<Pair>) {
    if ps == [] then [] else
    var n := |ps| - 1;
    Named(ps[..n]) + if ps[n].key == [] then [] else [ps[n]]
  }

  lemma {:induction false} PairsOfPrinted(ps: seq<Pair>)
    requires forall p :: p in ps ==> Printable(p)
    ensures PairsOf(Printed(ps)) == Named(ps)
  {
    if ps != [] {
      var n := |ps| - 1;
      PairsOfPrinted(ps[..n]);
      PrintedPair(ps[n]);
      assert Printed(ps)[..n] == Printed(ps[..n]);
    }
  }

  /** What is printed is read back, less the parameters without a key. */
  lemma {:induction false} ReadPrinted(ps: seq<Pair>)
    requires forall p :: p in ps ==> Printable(p)
    ensures Pairs(Print(ps)) == Named(ps)
  {
    PiecesOfPrint(ps);
    PairsOfPrinted(ps);
  }

  // ----------------------------------------------------------- normalisation

  lemma Last<T>(s: seq<T>)
    requires s != []
    ensures s == s[..|s| - 1] + [s[|s| - 1]]
  {
  }

  lemma {:induction false} AllNamed(ps: seq<Pair>)
    requires forall p :: p in ps ==> p.key != []
    ensures Named(ps) == ps
  {
    if ps != [] {
      var n := |ps| - 1;
      forall p | p in ps[..n]
        ensures p in ps
      {
      }
      AllNamed(ps[..n]);
      assert ps[n] in ps;
      Last(ps);
    }
  }

  lemma {:induction false} PairsArePrintable(pieces: seq<Text>)
    ensures forall p :: p in PairsOf(pieces) ==> Printable(p) && p.key != []
  {
    if pieces != [] {
      PairsArePrintable(pieces[..|pieces| - 1]);
    }
  }

  function Normalized(query: Text): (r: Text) {
    Print(Pairs(query))
  }

  lemma {:induction false} PrintIsEmpty(ps: seq<Pair>)
    requires forall p :: p in ps ==> p.key != []
    ensures Print(ps) == [] <==> ps == []
  {
    if ps != [] {
      EncodeIsClean(ps[|ps| - 1].key);
      assert ps[|ps| - 1] in ps;
    }
  }

  /** Decodes and encodes one parameter; nothing comes of one without a key. */
  method NormalizePiece(piece: Text) returns (text: Text)
    ensures text == if PairOf(piece).key == [] then [] else PrintPair(PairOf(piece))
  {
    var k := IndexOf(piece, EQUALS);
    WholeKey(piece, k);
    var key, value := piece[..k], if k < |piece| then piece[k + 1..] else [];
    text := [];
    if key != [] {
      var decKey := DecodeComponent(key);
      var decValue := DecodeComponent(value);
      text := EncodeComponent(decKey);
      if value != [] || k < |piece| {
        var encValue := EncodeComponent(decValue);
        text := text + ([EQUALS] + encValue);
      }
    }
  }

  /** The two halves of a piece, as they are cut. */
  lemma {:induction false} WholeKey(piece: Text, k: nat)
    requires k == IndexOf(piece, EQUALS)
    ensures var value := if k < |piece| then piece[k + 1..] else [];
            PairOf(piece) == Pair(Decode(piece[..k]), Decode(value), k < |piece|)
    ensures Decode(piece[..k]) == [] <==> piece[..k] == []
  {
    assert k == |piece| ==> piece[..k] == piece;
  }

  lemma PairsNext(pieces: seq<Text>, i: nat)
    requires i < |pieces|
    ensures var p := PairOf(pieces[i]);
            PairsOf(pieces[..i + 1]) == PairsOf(pieces[..i]) + if p.key == [] then [] else [p]
  {
    assert pieces[..i + 1][..i] == pieces[..i];
  }

  lemma {:induction false} PrintSnoc(ps: seq<Pair>, p: Pair)
    ensures Print(ps + [p]) == (if ps == [] then [] else Print(ps) + [AMP]) + PrintPair(p)
  {
    assert (ps + [p])[..|ps|] == ps;
  }

  lemma PrintNext(pieces: seq<Text>, i: nat)
    requires i < |pieces|
    ensures var before, p := Print(PairsOf(pieces[..i])), PairOf(pieces[i]);
            Print(PairsOf(pieces[..i + 1])) ==
            if p.key == [] then before else (if before == [] then [] else before + [AMP]) + PrintPair(p)
    ensures PairOf(pieces[i]).key != [] ==> PrintPair(PairOf(pieces[i])) != []
  {
    PairsNext(pieces, i);
    PairsArePrintable(pieces[..i]);
    PrintIsEmpty(PairsOf(pieces[..i]));
    EncodeIsClean(PairOf(pieces[i]).key);
    PrintSnoc(PairsOf(pieces[..i]), PairOf(pieces[i]));
    assert PairsOf(pieces[..i]) + [] == PairsOf(pieces[..i]);
  }

  /** Decodes and encodes each parameter again, in place. */
  method NormalizeQueryString(query: Text) returns (result: Text)
    ensures result == Normalized(query)
  {
    result := [];
    var pieces := Split(query);
    for i := 0 to |pieces|
      invariant result == Print(PairsOf(pieces[..i]))
    {
      PrintNext(pieces, i);
      var text := NormalizePiece(pieces[i]);
      if text != [] {
        if result != [] {
          result := result + [AMP];
        }
        result := result + text;
      }
    }
    assert pieces[..|pieces|] == pieces;
  }

  /** Normalising keeps the ordered list of parameters, for every octet string. */
  lemma NormalizingKeepsPairs(query: Text)
    ensures Pairs(Normalized(query)) == Pairs(query)
  {
    PairsArePrintable(Pieces(query));
    AllNamed(Pairs(query));
    ReadPrinted(Pairs(query));
  }

  /** Normalising twice is normalising once. */
  lemma NormalizingIsIdempotent(query: Text)
    ensures Normalized(Normalized(query)) == Normalized(query)
  {
    NormalizingKeepsPairs(query);
  }
}
