/** The multimap of parameters: printing it as a query, and reading a query into it. */
module ParamsMaps {
  import opened Basics
  import opened Bytes
  import opened Query
  import opened QueryParams

  datatype Param = Param(key: Text, value: Text)

  /** The order of keys: octet by octet, a proper prefix first. */
  predicate Leq(a: Text, b: Text) {
    a == [] || (b != [] && (a[0] < b[0] || (a[0] == b[0] && Leq(a[1..], b[1..]))))
  }

  /** A multimap is held as its entries in the order of their keys. */
  ghost predicate Sorted(m: seq<Param>) {
    forall i, j :: 0 <= i < j < |m| ==> Leq(m[i].key, m[j].key)
  }

  /** Adding an entry: after all entries whose key is not greater. */
  function Emplace(m: seq<Param>, p: Param): (r: seq<Param>) {
    if m == [] || Leq(m[|m| - 1].key, p.key) then m + [p]
    else Emplace(m[..|m| - 1], p) + [m[|m| - 1]]
  }

  function AsPairs(m: seq<Param>): (r: seq<Pair>)
    ensures |r| == |m|
    ensures forall i :: 0 <= i < |m| ==> r[i] == Pair(m[i].key, m[i].value, true)
  {
    seq(|m|, i requires 0 <= i < |m| => Pair(m[i].key, m[i].value, true))
  }

  function ToQuery(m: seq<Param>): (r: Text) {
    Print(AsPairs(m))
  }

  lemma ToQueryNext(m: seq<Param>, i: nat)
    requires i < |m|
    ensures ToQuery(m[..i + 1]) ==
            (if i == 0 then [] else ToQuery(m[..i]) + [AMP]) + (Encode(m[i].key) + ([EQUALS] + Encode(m[i].value)))
  {
    assert AsPairs(m[..i + 1])[..i] == AsPairs(m[..i]);
  }

  method ParamsToQueryStr(m: seq<Param>) returns (query: Text)
    ensures query == ToQuery(m)
  {
    query := [];
    for i := 0 to |m|
      invariant query == ToQuery(m[..i])
    {
      ToQueryNext(m, i);
      if i != 0 {
        query := query + [AMP];
      }
      var key := EncodeComponent(m[i].key);
      var value := EncodeComponent(m[i].value);
      query := query + (key + ([EQUALS] + value));
    }
    assert m[..|m|] == m;
  }

  /** What the pieces of a query add to a multimap: a piece met before is skipped, and so is one
      without a key. */
  function Parsed(pieces: seq<Text>, m0: seq<Param> := []): (m: seq<Param>) {
    if pieces == [] then m0 else
    var n := |pieces| - 1;
    var before, p := Parsed(pieces[..n], m0), PairOf(pieces[n]);
    if pieces[n] in pieces[..n] || p.key == [] then before else Emplace(before, Param(p.key, p.value))
  }

  /** Reads one piece; nothing comes of one without a key. */
  method ReadPiece(piece: Text, m: seq<Param>) returns (r: seq<Param>)
    ensures var p := PairOf(piece); r == if p.key == [] then m else Emplace(m, Param(p.key, p.value))
  {
    var k := IndexOf(piece, EQUALS);
    WholeKey(piece, k);
    var key, value := piece[..k], if k < |piece| then piece[k + 1..] else [];
    r := m;
    if key != [] {
      var decKey := DecodeComponent(key);
      var decValue := DecodeComponent(value);
      r := Emplace(m, Param(decKey, decValue));
    }
  }

  /** The first i pieces have been added to m0, and `cache` holds them. */
  ghost predicate ParsedUpTo(pieces: seq<Text>, i: nat, m: seq<Param>, m0: seq<Param>, cache: set<Text>) {
    Cached(pieces, i, cache) && m == Parsed(pieces[..i], m0)
  }

  lemma {:induction false} ParsedNext(pieces: seq<Text>, i: nat, m: seq<Param>, m0: seq<Param>, cache: set<Text>)
    requires i < |pieces| && ParsedUpTo(pieces, i, m, m0, cache)
    ensures pieces[i] in cache ==> ParsedUpTo(pieces, i + 1, m, m0, cache)
    ensures var p := PairOf(pieces[i]);
            pieces[i] !in cache ==>
              ParsedUpTo(pieces, i + 1, if p.key == [] then m else Emplace(m, Param(p.key, p.value)), m0,
                         cache + {pieces[i]})
  {
    assert pieces[..i + 1][..i] == pieces[..i];
    CachedNext(pieces, i, cache);
  }

  method ParseQueryText(query: Text, m0: seq<Param> := []) returns (m: seq<Param>)
    ensures m == Parsed(Pieces(query), m0)
  {
    m := m0;
    var cache: set<Text> := {};
    var pieces := Split(query);
    for i := 0 to |pieces|
      invariant ParsedUpTo(pieces, i, m, m0, cache)
    {
      ParsedNext(pieces, i, m, m0, cache);
      if pieces[i] !in cache {
        cache := cache + {pieces[i]};
        m := ReadPiece(pieces[i], m);
      }
    }
    assert pieces[..|pieces|] == pieces;
  }

  // --------------------------------------------------------------------- order

  /** Where two keys first differ, the smaller octet decides. */
  lemma {:induction false} LeqAtDifference(c: Text, x: Byte, a: Text, y: Byte, b: Text)
    requires x != y
    ensures Leq(c + [x] + a, c + [y] + b) <==> x < y
  {
    if c == [] {
      assert c + [x] + a == [x] + a && c + [y] + b == [y] + b;
    } else {
      assert (c + [x] + a)[1..] == c[1..] + [x] + a && (c + [y] + b)[1..] == c[1..] + [y] + b;
      LeqAtDifference(c[1..], x, a, y, b);
    }
  }

  lemma {:induction false} LeqPrefix(a: Text, b: Text)
    ensures Leq(a, a + b) && (b != [] ==> !Leq(a + b, a))
  {
    if a != [] {
      assert (a + b)[1..] == a[1..] + b;
      LeqPrefix(a[1..], b);
    }
  }

  lemma {:induction false} LeqTotal(a: Text, b: Text)
    ensures Leq(a, b) || Leq(b, a)
  {
    if a != [] && b != [] {
      LeqTotal(a[1..], b[1..]);
    }
  }

  lemma {:induction false} LeqTransitive(a: Text, b: Text, c: Text)
    requires Leq(a, b) && Leq(b, c)
    ensures Leq(a, c)
  {
    if a != [] && a[0] == b[0] == c[0] {
      LeqTransitive(a[1..], b[1..], c[1..]);
    }
  }

  /** Adding an entry keeps the order of keys, and entries with the same key in the order in which
      they were added: the new one stands after them all. */
  lemma {:induction false} EmplaceSorts(m: seq<Param>, p: Param)
    requires Sorted(m)
    ensures var r := Emplace(m, p);
            && Sorted(r)
            && exists k :: 0 <= k <= |m| && r == m[..k] + [p] + m[k..] &&
                           (forall i :: k <= i < |m| ==> m[i].key != p.key)
  {
    var k := EmplacedAt(m, p);
    var r := m[..k] + [p] + m[k..];
    forall i, j | 0 <= i < j < |r|
      ensures Leq(r[i].key, r[j].key)
    {
      assert r[i] == if i < k then m[i] else if i == k then p else m[i - 1];
      assert r[j] == if j < k then m[j] else if j == k then p else m[j - 1];
    }
  }

  /** The place of a new entry: after all whose key is not greater. */
  lemma {:induction false} EmplacedAt(m: seq<Param>, p: Param) returns (k: nat)
    requires Sorted(m)
    ensures k <= |m| && Emplace(m, p) == m[..k] + [p] + m[k..]
    ensures forall i :: 0 <= i < k ==> Leq(m[i].key, p.key)
    ensures forall i :: k <= i < |m| ==> !Leq(m[i].key, p.key) && Leq(p.key, m[i].key) && m[i].key != p.key
  {
    if m == [] || Leq(m[|m| - 1].key, p.key) {
      k := |m|;
      forall i | 0 <= i < |m|
        ensures Leq(m[i].key, p.key)
      {
        if i < |m| - 1 {
          LeqTransitive(m[i].key, m[|m| - 1].key, p.key);
        }
      }
      assert m[..k] == m && m[k..] == [];
    } else {
      var n := |m| - 1;
      k := EmplacedAt(m[..n], p);
      LeqTotal(m[n].key, p.key);
      LeqPrefix(p.key, []);
      assert p.key + [] == p.key;
      assert m[k..] == m[..n][k..] + [m[n]];
      assert m[..n][..k] == m[..k];
    }
  }

  /** What is read into a multimap in key order is in key order. */
  lemma {:induction false} ParsedIsSorted(pieces: seq<Text>, m0: seq<Param>)
    requires Sorted(m0)
    ensures Sorted(Parsed(pieces, m0))
  {
    if pieces != [] {
      var n := |pieces| - 1;
      var p := PairOf(pieces[n]);
      ParsedIsSorted(pieces[..n], m0);
      EmplaceSorts(Parsed(pieces[..n], m0), Param(p.key, p.value));
    }
  }

  // ---------------------------------------------------------------- round trip

  /** A multimap with repeated entries collapsed, and entries without a key dropped. */
  function Collapsed(m: seq<Param>): (r: seq<Param>) {
    if m == [] then [] else
    var n := |m| - 1;
    Collapsed(m[..n]) + if m[n] in m[..n] || m[n].key == [] then [] else [m[n]]
  }

  lemma {:induction false} CollapsedIsASet(m: seq<Param>)
    ensures forall p :: p in Collapsed(m) <==> p in m && p.key != []
    ensures forall i, j :: 0 <= i < j < |Collapsed(m)| ==> Collapsed(m)[i] != Collapsed(m)[j]
  {
    if m != [] {
      var n := |m| - 1;
      CollapsedIsASet(m[..n]);
      assert m == m[..n] + [m[n]];
      assert forall i :: 0 <= i < |Collapsed(m[..n])| ==> Collapsed(m[..n])[i] in Collapsed(m[..n]);
    }
  }

  /** Different entries are printed differently. */
  lemma PrintedApart(m: seq<Param>, i: nat, j: nat)
    requires i < |m| && j < |m|
    ensures Printed(AsPairs(m))[i] == Printed(AsPairs(m))[j] <==> m[i] == m[j]
  {
    PrintedPair(AsPairs(m)[i]);
    PrintedPair(AsPairs(m)[j]);
  }

  /** An element recurs in one sequence just when it does in another that has the same
      repetitions. */
  lemma RecursAlike<T, U>(a: seq<T>, b: seq<U>, n: nat)
    requires n < |a| == |b| && forall i :: 0 <= i < n ==> (a[i] == a[n] <==> b[i] == b[n])
    ensures a[n] in a[..n] <==> b[n] in b[..n]
  {
    if a[n] in a[..n] {
      var i :| 0 <= i < n && a[i] == a[n];
      assert b[..n][i] == b[n];
    }
    if b[n] in b[..n] {
      var i :| 0 <= i < n && b[i] == b[n];
      assert a[..n][i] == a[n];
    }
  }

  lemma SeenBefore(m: seq<Param>)
    requires m != []
    ensures var n, ts := |m| - 1, Printed(AsPairs(m));
            ts[n] in ts[..n] <==> m[n] in m[..n]
  {
    var n, ts := |m| - 1, Printed(AsPairs(m));
    forall i | 0 <= i < n
      ensures ts[i] == ts[n] <==> m[i] == m[n]
    {
      PrintedApart(m, i, n);
    }
    RecursAlike(ts, m, n);
  }

  /** In key order a new entry goes to the end. */
  lemma EmplaceLast(m: seq<Param>)
    requires m != [] && Sorted(m)
    ensures var n := |m| - 1; Emplace(Collapsed(m[..n]), m[n]) == Collapsed(m[..n]) + [m[n]]
  {
    var n := |m| - 1;
    var before := Collapsed(m[..n]);
    CollapsedIsASet(m[..n]);
    if before != [] {
      var last := before[|before| - 1];
      assert last in m[..n];
      var i :| 0 <= i < n && m[..n][i] == last;
      assert Leq(m[i].key, m[n].key);
    }
  }

  lemma PrintedPrefix(m: seq<Param>, n: nat)
    requires n <= |m|
    ensures Printed(AsPairs(m))[..n] == Printed(AsPairs(m[..n]))
  {
  }

  lemma {:induction false} ParsedPrinted(m: seq<Param>)
    requires Sorted(m)
    ensures Parsed(Printed(AsPairs(m))) == Collapsed(m)
  {
    if m != [] {
      var n := |m| - 1;
      ParsedPrinted(m[..n]);
      PrintedPrefix(m, n);
      SeenBefore(m);
      PrintedPair(AsPairs(m)[n]);
      EmplaceLast(m);
    }
  }

  /** Printing a multimap and reading the query back gives the same multimap with repeated
      entries collapsed; entries with an empty key, which a query cannot carry, are lost. */
  lemma {:induction false} ParamsRoundTrip(m: seq<Param>)
    requires Sorted(m)
    ensures Parsed(Pieces(ToQuery(m))) == Collapsed(m)
  {
    PiecesOfPrint(AsPairs(m));
    ParsedPrinted(m);
  }
}
