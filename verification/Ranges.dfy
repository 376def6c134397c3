/** Byte ranges of a request: resolving, refusing and coalescing them. */
module Ranges {

  const RANGE_MAX_COUNT := 1024

  /** As parsed: -1 stands for a position that was left out. */
  datatype Range = Range(first: int, last: int)

  // ------------------------------------------------------------- what is asked

  /** The positions a range asks for in a content of `len` octets, as section 14.1.2 of
      RFC 9110 reads it: everything, the last so many, from a position on, or an interval. */
  ghost predicate Asks(r: Range, len: nat, x: int) {
    && 0 <= x < len
    && if r.first == -1 && r.last == -1 then true
       else if r.first == -1 then len - r.last <= x
       else if r.last == -1 then r.first <= x
       else r.first <= x <= r.last
  }

  ghost predicate AskedBy(rs: seq<Range>, len: nat, x: int) {
    exists i :: 0 <= i < |rs| && Asks(rs[i], len, x)
  }

  /** The positions of a resolved range. */
  predicate Holds(r: Range, x: int) {
    r.first <= x <= r.last
  }

  ghost predicate Covered(rs: seq<Range>, x: int) {
    exists i :: 0 <= i < |rs| && Holds(rs[i], x)
  }

  predicate Satisfiable(r: Range, len: nat) {
    0 <= r.first <= r.last <= len - 1
  }

  function Resolve(r: Range, len: nat): (q: Range) {
    var a := if r.first == -1 && r.last == -1 then Range(0, len) else r;
    var b := if a.first == -1 then Range(len - a.last, len - 1) else a;
    if b.last == -1 || b.last >= len then Range(b.first, len - 1) else b
  }

  /** An accepted range resolves to exactly the positions it asks for. */
  lemma ResolveIsExact(r: Range, len: nat, x: int)
    requires Satisfiable(Resolve(r, len), len)
    ensures Holds(Resolve(r, len), x) <==> Asks(r, len, x)
  {
  }

  /** A range as a request can state it. */
  predicate WellFormed(r: Range) {
    r.first >= -1 && r.last >= -1 && (r.first != -1 && r.last != -1 ==> r.first <= r.last)
  }

  /** A range can be satisfied if and only if it asks for anything, and does not ask for more of
      the end of the content than there is. */
  lemma SatisfiableExactly(r: Range, len: nat)
    requires WellFormed(r)
    ensures Satisfiable(Resolve(r, len), len) <==>
            (exists x :: Asks(r, len, x)) && !(r.first == -1 && r.last > len)
  {
    if Satisfiable(Resolve(r, len), len) {
      assert Asks(r, len, Resolve(r, len).first);
    }
  }

  /** Section 14.1.2 of RFC 9110 serves the whole content to a suffix that is longer than it; here
      the request is refused. */
  lemma LongSuffixRefused(n: nat, len: nat, x: int)
    requires n > len && 0 <= x < len
    ensures Asks(Range(-1, n), len, x) && Refused([Range(-1, n)], len)
  {
    assert !Satisfiable(Resolve([Range(-1, n)][0], len), len);
  }

  /** Resolving again changes nothing. */
  lemma ResolveTwice(r: Range, len: nat)
    requires Satisfiable(Resolve(r, len), len)
    ensures Resolve(Resolve(r, len), len) == Resolve(r, len)
  {
  }

  // ---------------------------------------------------------------- coalescing

  ghost predicate Ordered(rs: seq<Range>) {
    forall i, j :: 0 <= i < j < |rs| ==> rs[i].first <= rs[j].first
  }

  lemma InsertKeepsOrder(s: seq<Range>, k: nat, r: Range)
    requires Ordered(s) && k <= |s|
    requires (k > 0 ==> s[k - 1].first <= r.first) && (k < |s| ==> r.first <= s[k].first)
    ensures Ordered(s[..k] + [r] + s[k..])
  {
    var t := s[..k] + [r] + s[k..];
    assert forall i :: 0 <= i < |t| ==> t[i] == if i < k then s[i] else if i == k then r else s[i - 1];
  }

  method Insert(s: seq<Range>, r: Range) returns (t: seq<Range>)
    requires Ordered(s)
    ensures multiset(t) == multiset(s) + multiset{r} && Ordered(t)
  {
    var k: nat := |s|;
    while k > 0 && s[k - 1].first > r.first
      invariant k <= |s| && (k < |s| ==> r.first <= s[k].first)
    {
      k := k - 1;
    }
    InsertKeepsOrder(s, k, r);
    assert s == s[..k] + s[k..];
    t := s[..k] + [r] + s[k..];
  }

  /** Sorting by first position; callers know no more than that the result is some
      permutation in order. */
  method Sort(rs: seq<Range>) returns (s: seq<Range>)
    ensures multiset(s) == multiset(rs) && Ordered(s)
  {
    s := [];
    for i := 0 to |rs|
      invariant multiset(s) == multiset(rs[..i]) && Ordered(s)
    {
      assert rs[..i + 1] == rs[..i] + [rs[i]];
      s := Insert(s, rs[i]);
    }
    assert rs[..|rs|] == rs;
  }

  /** One resolved range taken into the list: dropped, merged with the last one, or added. */
  function Taken(out: seq<Range>, q: Range, len: nat): (r: seq<Range>) {
    if !Satisfiable(q, len) then out
    else if out != [] && q.first <= out[|out| - 1].last + 1 && q != out[|out| - 1] then
      var prev := out[|out| - 1];
      out[..|out| - 1] + [Range(prev.first, if q.last > prev.last then q.last else prev.last)]
    else out + [q]
  }

  function Merge(rs: seq<Range>, len: nat): (r: seq<Range>) {
    if rs == [] then [] else Taken(Merge(rs[..|rs| - 1], len), Resolve(rs[|rs| - 1], len), len)
  }

  /** Every range of the list is satisfiable, and they are in order. */
  ghost predicate Sound(out: seq<Range>, len: nat) {
    Ordered(out) && forall i :: 0 <= i < |out| ==> Satisfiable(out[i], len)
  }

  /** Ranges that are their own resolution, in order. */
  ghost predicate Resolved(rs: seq<Range>, len: nat) {
    Ordered(rs) && forall i :: 0 <= i < |rs| ==> Satisfiable(rs[i], len) && Resolve(rs[i], len) == rs[i]
  }

  lemma TakenKeeps(out: seq<Range>, q: Range, len: nat, x: int)
    requires Sound(out, len) && Satisfiable(q, len)
    requires out != [] ==> out[|out| - 1].first <= q.first
    ensures Sound(Taken(out, q, len), len)
    ensures Covered(Taken(out, q, len), x) <==> Covered(out, x) || Holds(q, x)
    ensures var t := Taken(out, q, len); t != [] && t[|t| - 1].first <= q.first
  {
    var t := Taken(out, q, len);
    var n := |out| - 1;
    assert forall i :: 0 <= i < n ==> t[i] == out[i];
    if Covered(out, x) {
      var i :| 0 <= i < |out| && Holds(out[i], x);
      assert Holds(t[i], x);
    }
    if Holds(q, x) {
      assert Holds(t[|t| - 1], x);
    }
  }

  /** The list holds what was taken into it, as far as position x is concerned. */
  ghost predicate Keeps(out: seq<Range>, rs: seq<Range>, len: nat, x: int) {
    && Sound(out, len) && (Covered(out, x) <==> Covered(rs, x))
    && (rs != [] ==> out != [] && out[|out| - 1].first <= rs[|rs| - 1].first)
    && (rs == [] ==> out == [])
  }

  lemma KeepsNext(out: seq<Range>, rs: seq<Range>, n: nat, len: nat, x: int)
    requires n + 1 == |rs| && Ordered(rs) && Satisfiable(rs[n], len) && Keeps(out, rs[..n], len, x)
    ensures Keeps(Taken(out, rs[n], len), rs, len, x)
  {
    assert n > 0 ==> rs[..n][n - 1] == rs[n - 1] && rs[n - 1].first <= rs[n].first;
    TakenKeeps(out, rs[n], len, x);
    CoveredSplit(rs, x);
  }

  /** Coalescing ordered, resolved ranges keeps the positions they cover. */
  lemma {:induction false} MergeKeeps(rs: seq<Range>, len: nat, x: int)
    requires Resolved(rs, len)
    ensures Keeps(Merge(rs, len), rs, len, x)
  {
    if rs != [] {
      var n := |rs| - 1;
      PrefixResolved(rs, n, len);
      MergeKeeps(rs[..n], len, x);
      KeepsNext(Merge(rs[..n], len), rs, n, len, x);
    }
  }

  lemma CoveredSplit(rs: seq<Range>, x: int)
    requires rs != []
    ensures var n := |rs| - 1; Covered(rs, x) <==> Covered(rs[..n], x) || Holds(rs[n], x)
  {
    var n := |rs| - 1;
    if Covered(rs[..n], x) {
      var i :| 0 <= i < n && Holds(rs[..n][i], x);
      assert Holds(rs[i], x);
    }
    if Covered(rs, x) {
      var i :| 0 <= i < |rs| && Holds(rs[i], x);
      assert i < n ==> Holds(rs[..n][i], x);
    }
  }

  // ------------------------------------------------------------------ disjoint

  /** Ranges that neither overlap nor touch, in order. */
  ghost predicate Apart(out: seq<Range>) {
    forall i, j :: 0 <= i < j < |out| ==> out[i].last + 1 < out[j].first
  }

  ghost predicate Distinct(rs: seq<Range>) {
    forall i, j :: 0 <= i < j < |rs| ==> rs[i] != rs[j]
  }

  /** The last coalesced range ends where one of the ranges it was made from ends. */
  ghost predicate EndReached(out: seq<Range>, rs: seq<Range>) {
    out != [] ==> exists i :: 0 <= i < |rs| && rs[i].last == out[|out| - 1].last && out[|out| - 1].first <= rs[i].first
  }

  lemma TakenSeparates(out: seq<Range>, q: Range, len: nat)
    requires Sound(out, len) && Apart(out) && Satisfiable(q, len)
    requires out != [] ==> out[|out| - 1].first <= q.first && out[|out| - 1] != q
    ensures Apart(Taken(out, q, len))
  {
    var t := Taken(out, q, len);
    var n := |out| - 1;
    assert forall i :: 0 <= i < n ==> t[i] == out[i];
    assert |t| == |out| + 1 ==> out == [] || (t[n] == out[n] && t[n + 1] == q);
  }

  /** An earlier range reaches as far as the last coalesced one, from no earlier start. */
  lemma EndWitness(out: seq<Range>, rs: seq<Range>) returns (i: nat)
    requires out != [] && EndReached(out, rs)
    ensures i < |rs| && rs[i].last == out[|out| - 1].last && out[|out| - 1].first <= rs[i].first
  {
    i :| 0 <= i < |rs| && rs[i].last == out[|out| - 1].last && out[|out| - 1].first <= rs[i].first;
  }

  lemma EndStep(out: seq<Range>, rs: seq<Range>, len: nat)
    requires rs != [] && EndReached(out, rs[..|rs| - 1]) && Satisfiable(rs[|rs| - 1], len)
    requires out != [] ==> out[|out| - 1].first <= rs[|rs| - 1].first
    ensures EndReached(Taken(out, rs[|rs| - 1], len), rs)
  {
    var n := |rs| - 1;
    var t := Taken(out, rs[n], len);
    if out != [] {
      var i := EndWitness(out, rs[..n]);
      assert rs[i] == rs[..n][i];
      assert t[|t| - 1].last == rs[i].last || t[|t| - 1].last == rs[n].last;
    }
    assert rs[n].last <= t[|t| - 1].last;
  }

  lemma {:induction false} MergeEnds(rs: seq<Range>, len: nat)
    requires Resolved(rs, len)
    ensures EndReached(Merge(rs, len), rs)
  {
    if rs != [] {
      var n := |rs| - 1;
      MergeEnds(rs[..n], len);
      MergeKeeps(rs[..n], len, 0);
      EndStep(Merge(rs[..n], len), rs, len);
    }
  }

  /** Some range stands in the list twice. */
  ghost predicate Twice(rs: seq<Range>, r: Range) {
    multiset(rs)[r] >= 2
  }

  /** Every range that is repeated starts inside, or right after, another one. */
  ghost predicate RepeatsInside(rs: seq<Range>) {
    forall r :: Twice(rs, r) ==> Covered(rs, r.first - 1)
  }

  lemma CoveredEarlier(rs: seq<Range>, n: nat, x: int)
    requires Ordered(rs) && n < |rs| && x < rs[n].first && Covered(rs, x)
    ensures Covered(rs[..n], x)
  {
    var i :| 0 <= i < |rs| && Holds(rs[i], x);
    assert i < n;
    assert Holds(rs[..n][i], x);
  }

  lemma PrefixTwice(rs: seq<Range>, n: nat, r: Range)
    requires n <= |rs| && Twice(rs[..n], r)
    ensures Twice(rs, r)
  {
    assert rs == rs[..n] + rs[n..];
  }

  lemma RepeatsInsidePrefix(rs: seq<Range>, n: nat)
    requires Ordered(rs) && RepeatsInside(rs) && n <= |rs|
    ensures RepeatsInside(rs[..n])
  {
    forall r | Twice(rs[..n], r)
      ensures Covered(rs[..n], r.first - 1)
    {
      PrefixTwice(rs, n, r);
      assert r in rs[..n];
      var k :| 0 <= k < n && rs[k] == r;
      CoveredEarlier(rs, k, r.first - 1);
      var i :| 0 <= i < k && Holds(rs[..k][i], r.first - 1);
      assert Holds(rs[..n][i], r.first - 1);
    }
  }

  lemma TwiceAt(rs: seq<Range>, i: nat, j: nat)
    requires i < j < |rs| && rs[i] == rs[j]
    ensures Twice(rs, rs[i])
  {
    assert rs == rs[..j] + [rs[j]] + rs[j + 1..];
    assert rs[..j][i] == rs[i];
  }

  lemma NothingBeforeLast(out: seq<Range>)
    requires Apart(out) && Ordered(out) && out != []
    ensures !Covered(out, out[|out| - 1].first - 1)
  {
  }

  lemma PrefixResolved(t: seq<Range>, k: nat, len: nat)
    requires Resolved(t, len) && k <= |t|
    ensures Resolved(t[..k], len)
  {
  }

  /** A range equal to the one coalesced last is a repeated one. */
  lemma LastIsRepeat(out: seq<Range>, rs: seq<Range>, n: nat)
    requires Ordered(rs) && n < |rs| && out != [] && EndReached(out, rs[..n]) && out[|out| - 1] == rs[n]
    ensures Twice(rs, rs[n])
  {
    var i := EndWitness(out, rs[..n]);
    assert rs[i] == rs[n];
    TwiceAt(rs, i, n);
  }

  lemma {:induction false} RepeatIsCovered(out: seq<Range>, rs: seq<Range>, len: nat)
    requires rs != [] && Resolved(rs, len) && RepeatsInside(rs)
    requires out == Merge(rs[..|rs| - 1], len) && out != []
    ensures out[|out| - 1] == rs[|rs| - 1] ==> Covered(out, rs[|rs| - 1].first - 1)
  {
    var n := |rs| - 1;
    if out[|out| - 1] == rs[n] {
      PrefixResolved(rs, n, len);
      MergeEnds(rs[..n], len);
      LastIsRepeat(out, rs, n);
      CoveredEarlier(rs, n, rs[n].first - 1);
      MergeKeeps(rs[..n], len, rs[n].first - 1);
    }
  }

  /** The next range is not the one that was coalesced last. */
  lemma {:induction false} NotTheLast(out: seq<Range>, rs: seq<Range>, len: nat)
    requires rs != [] && Resolved(rs, len) && RepeatsInside(rs)
    requires out == Merge(rs[..|rs| - 1], len) && Apart(out) && out != []
    ensures out[|out| - 1].first <= rs[|rs| - 1].first && out[|out| - 1] != rs[|rs| - 1]
  {
    var n := |rs| - 1;
    MergeKeeps(rs[..n], len, 0);
    assert n > 0 && rs[n - 1].first <= rs[n].first;
    NothingBeforeLast(out);
    RepeatIsCovered(out, rs, len);
  }

  /** Ordered, resolved ranges of which none is repeated, unless inside others, coalesce to
      disjoint ranges that do not even touch. */
  lemma {:induction false} MergeSeparates(rs: seq<Range>, len: nat)
    requires Resolved(rs, len) && RepeatsInside(rs)
    ensures Apart(Merge(rs, len))
  {
    if rs != [] {
      var n := |rs| - 1;
      var before := Merge(rs[..n], len);
      RepeatsInsidePrefix(rs, n);
      MergeSeparates(rs[..n], len);
      MergeKeeps(rs[..n], len, 0);
      if before != [] {
        NotTheLast(before, rs, len);
      }
      TakenSeparates(before, rs[n], len);
    }
  }

  // ------------------------------------------------------------ repeated ranges

  lemma SwapKeeps(s: seq<Range>, k: nat, i: nat)
    requires Ordered(s) && k <= i < |s| && s[k].first == s[i].first
    ensures var t := s[k := s[i]][i := s[k]];
            && multiset(t) == multiset(s) && Ordered(t) && t[k] == s[i]
            && forall j :: 0 <= j < |s| && j != i && j != k ==> t[j] == s[j]
  {
    var t := s[k := s[i]][i := s[k]];
    assert forall j :: 0 <= j < |s| ==> t[j].first == s[j].first;
  }

  /** Where the ranges begin that start with r. */
  lemma FirstOf(s: seq<Range>, r: Range) returns (k: nat)
    requires Ordered(s) && r in s
    ensures k < |s| && s[k].first == r.first && forall j :: 0 <= j < k ==> s[j].first < r.first
  {
    var i :| 0 <= i < |s| && s[i] == r;
    k := i;
    while k > 0 && s[k - 1].first == r.first
      invariant k <= i && s[k].first == r.first
    {
      k := k - 1;
    }
    if k > 0 {
      assert s[k - 1].first < r.first;
    }
  }

  /** An occurrence of r from position k on, as there are fewer before it than there are. */
  lemma FoundFrom(s: seq<Range>, k: nat, r: Range) returns (i: nat)
    requires k <= |s| && multiset(s[..k])[r] < multiset(s)[r]
    ensures k <= i < |s| && s[i] == r
  {
    assert s == s[..k] + s[k..];
    assert r in s[k..];
    var j :| 0 <= j < |s[k..]| && s[k..][j] == r;
    i := k + j;
  }

  lemma NoneBefore(s: seq<Range>, k: nat, r: Range)
    requires k <= |s| && forall j :: 0 <= j < k ==> s[j].first < r.first
    ensures multiset(s[..k])[r] == 0
    ensures k < |s| ==> multiset(s[..k + 1])[r] <= 1
  {
    assert r !in s[..k];
    if k < |s| {
      assert s[..k + 1] == s[..k] + [s[k]];
    }
  }

  /** A repeated range can come to stand twice at the front of those that start with it. */
  lemma TwoInFront(s: seq<Range>, r: Range) returns (t: seq<Range>, k: nat)
    requires Ordered(s) && Twice(s, r)
    ensures multiset(t) == multiset(s) && Ordered(t) && k + 2 <= |t|
    ensures t[k] == t[k + 1] == r && forall j :: 0 <= j < k ==> t[j].first < r.first
  {
    assert r in s;
    k := FirstOf(s, r);
    NoneBefore(s, k, r);
    var u := BroughtTo(s, k, r);
    NoneBefore(u, k, r);
    t := BroughtTo(u, k + 1, r);
    assert forall j :: 0 <= j < k ==> t[j] == u[j] == s[j];
  }

  lemma BroughtTo(s: seq<Range>, k: nat, r: Range) returns (t: seq<Range>)
    requires Ordered(s) && k <= |s| && multiset(s[..k])[r] < multiset(s)[r]
    requires k < |s| ==> r.first <= s[k].first
    ensures multiset(t) == multiset(s) && Ordered(t) && k < |t| == |s| && t[k] == r
    ensures forall j :: 0 <= j < k ==> t[j] == s[j]
    ensures k + 1 < |t| ==> r.first <= t[k + 1].first
  {
    var i := FoundFrom(s, k, r);
    t := s[k := s[i]][i := s[k]];
    SwapKeeps(s, k, i);
  }

  /** The repeated range and what grew out of its second occurrence stand side by side. */
  ghost predicate SideBySide(out: seq<Range>, m: nat, r: Range) {
    m + 2 <= |out| && out[m] == r && out[m + 1].first == r.first
  }

  lemma {:induction false} SideBySideStays(t: seq<Range>, n: nat, m: nat, r: Range, len: nat)
    requires n <= |t| && SideBySide(Merge(t[..n], len), m, r)
    ensures SideBySide(Merge(t, len), m, r)
    decreases |t|
  {
    if n == |t| {
      assert t[..n] == t;
    } else {
      var u := t[..|t| - 1];
      assert u[..n] == t[..n];
      SideBySideStays(u, n, m, r, len);
    }
  }

  lemma {:induction false} MergeTwice(a: seq<Range>, r: Range, len: nat)
    requires Resolved(a, len) && Satisfiable(r, len) && Resolve(r, len) == r
    requires !Covered(a, r.first - 1) && forall j :: 0 <= j < |a| ==> a[j].first < r.first
    ensures Merge(a + [r, r], len) == Merge(a, len) + [r, r]
  {
    MergeEnds(a, len);
    FarFromLast(a, r, Merge(a, len));
    TakenTwice(Merge(a, len), r, len);
    MergeSnoc(a, r, len);
    MergeSnoc(a + [r], r, len);
    assert a + [r] + [r] == a + [r, r];
  }

  lemma FarFromLast(a: seq<Range>, r: Range, out: seq<Range>)
    requires EndReached(out, a) && !Covered(a, r.first - 1) && forall j :: 0 <= j < |a| ==> a[j].first < r.first
    ensures out != [] ==> out[|out| - 1].last + 1 < r.first
  {
    if out != [] {
      var i := EndWitness(out, a);
      assert !Holds(a[i], r.first - 1);
    }
  }

  lemma TakenTwice(out: seq<Range>, r: Range, len: nat)
    requires Satisfiable(r, len) && (out != [] ==> out[|out| - 1].last + 1 < r.first)
    ensures Taken(Taken(out, r, len), r, len) == out + [r, r]
  {
    assert Taken(out, r, len) == out + [r];
    assert out + [r] + [r] == out + [r, r];
  }

  lemma {:induction false} MergeSnoc(a: seq<Range>, r: Range, len: nat)
    ensures Merge(a + [r], len) == Taken(Merge(a, len), Resolve(r, len), len)
  {
    assert (a + [r])[..|a|] == a;
  }

  lemma RepeatStaysTwo(qs: seq<Range>, s: seq<Range>, r: Range, len: nat) returns (t: seq<Range>)
    requires Resolved(s, len) && multiset(s) == multiset(qs) && Twice(qs, r) && !Covered(qs, r.first - 1)
    ensures multiset(t) == multiset(qs) && Ordered(t) && !Apart(Merge(t, len))
  {
    var k;
    t, k := TwoInFront(s, r);
    SameMembers(s, t, len);
    NotCoveredIn(qs, t, k, r.first - 1);
    PrefixResolved(t, k, len);
    assert t[k] == r;
    MergeTwice(t[..k], r, len);
    assert t[..k + 2] == t[..k] + [r, r];
    var m := |Merge(t[..k], len)|;
    SideBySideStays(t, k + 2, m, r, len);
    assert !(Merge(t, len)[m].last + 1 < Merge(t, len)[m + 1].first);
  }

  lemma NotCoveredIn(qs: seq<Range>, t: seq<Range>, k: nat, x: int)
    requires multiset(t) == multiset(qs) && k <= |t| && !Covered(qs, x)
    ensures !Covered(t[..k], x)
  {
    SameMembersCover(t, qs, x);
    assert forall i :: 0 <= i < k ==> t[..k][i] == t[i];
  }

  lemma SameMembers(s: seq<Range>, t: seq<Range>, len: nat)
    requires Resolved(s, len) && multiset(s) == multiset(t) && Ordered(t)
    ensures Resolved(t, len)
  {
    forall i | 0 <= i < |t|
      ensures Satisfiable(t[i], len) && Resolve(t[i], len) == t[i]
    {
      assert t[i] in multiset(s);
      var j :| 0 <= j < |s| && s[j] == t[i];
    }
  }

  /** Sorting leaves the order of equal first positions open. Whatever it does, coalescing
      yields disjoint ranges that do not touch, if and only if every repeated range starts
      inside, or right after, another one. */
  lemma {:induction false} SeparatesExactly(qs: seq<Range>, s: seq<Range>, len: nat)
    requires Resolved(s, len) && multiset(s) == multiset(qs)
    ensures RepeatsInside(qs) <==>
            forall t :: multiset(t) == multiset(qs) && Ordered(t) ==> Apart(Merge(t, len))
  {
    if RepeatsInside(qs) {
      forall t | multiset(t) == multiset(qs) && Ordered(t)
        ensures Apart(Merge(t, len))
      {
        SameMembers(s, t, len);
        RepeatsInsideOf(qs, t);
        MergeSeparates(t, len);
      }
    } else {
      var r :| Twice(qs, r) && !Covered(qs, r.first - 1);
      var t := RepeatStaysTwo(qs, s, r, len);
    }
  }

  lemma RepeatsInsideOf(a: seq<Range>, b: seq<Range>)
    requires multiset(a) == multiset(b) && RepeatsInside(a)
    ensures RepeatsInside(b)
  {
    forall r | Twice(b, r)
      ensures Covered(b, r.first - 1)
    {
      assert Twice(a, r);
      SameMembersCover(a, b, r.first - 1);
    }
  }

  // ---------------------------------------------------------------- the request

  lemma {:induction false} MergeNext(s: seq<Range>, i: nat, len: nat)
    requires i < |s|
    ensures Merge(s[..i + 1], len) == Taken(Merge(s[..i], len), Resolve(s[i], len), len)
  {
    assert s[..i + 1][..i] == s[..i];
  }

  /** Extends the last range, or adds another one. */
  method TakeIn(before: seq<Range>, q: Range, len: nat) returns (out: seq<Range>)
    requires Satisfiable(q, len)
    ensures out == Taken(before, q, len)
  {
    out := before;
    if out != [] {
      var prev := out[|out| - 1];
      if q.first <= prev.last + 1 && !(q.first == prev.first && q.last == prev.last) {
        out := out[|out| - 1 := Range(prev.first, if prev.last > q.last then prev.last else q.last)];
        return;
      }
    }
    out := out + [q];
  }

  method CoalesceRanges(ranges: seq<Range>, len: nat) returns (out: seq<Range>)
    ensures |ranges| <= 1 ==> out == ranges
    ensures |ranges| > 1 ==> exists s :: multiset(s) == multiset(ranges) && Ordered(s) && out == Merge(s, len)
  {
    if |ranges| <= 1 {
      return ranges;
    }
    var s := Sort(ranges);
    out := [];
    for i := 0 to |s|
      invariant out == Merge(s[..i], len)
    {
      MergeNext(s, i, len);
      var q := Resolve(s[i], len);
      if !(0 <= q.first && q.first <= q.last && q.last < len) {
        continue;
      }
      out := TakeIn(out, q, len);
    }
    assert s[..|s|] == s;
  }

  function ResolveAll(rs: seq<Range>, len: nat): (qs: seq<Range>)
    ensures |qs| == |rs|
    ensures forall i :: 0 <= i < |rs| ==> qs[i] == Resolve(rs[i], len)
  {
    seq(|rs|, i requires 0 <= i < |rs| => Resolve(rs[i], len))
  }

  predicate Overlap(a: Range, b: Range) {
    !(b.last < a.first || b.first > a.last)
  }

  predicate OverlapsEarlier(qs: seq<Range>, i: nat)
    requires i < |qs|
  {
    exists j :: 0 <= j < i && Overlap(qs[j], qs[i])
  }

  /** How many ranges overlap one before them. */
  function Overlaps(qs: seq<Range>): (n: nat) {
    if qs == [] then 0 else
    Overlaps(qs[..|qs| - 1]) + if OverlapsEarlier(qs, |qs| - 1) then 1 else 0
  }

  /** Too many ranges, one that cannot be satisfied, or more than two that overlap. */
  ghost predicate Refused(rs: seq<Range>, len: nat) {
    || |rs| > RANGE_MAX_COUNT
    || (exists i :: 0 <= i < |rs| && !Satisfiable(Resolve(rs[i], len), len))
    || Overlaps(ResolveAll(rs, len)) > 2
  }

  lemma {:induction false} OverlapsGrow(qs: seq<Range>, n: nat)
    requires n <= |qs|
    ensures Overlaps(qs[..n]) <= Overlaps(qs)
  {
    if n == |qs| {
      assert qs[..n] == qs;
    } else {
      OverlapsGrow(qs[..|qs| - 1], n);
      assert qs[..|qs| - 1][..n] == qs[..n];
    }
  }

  method CountOverlap(processed: seq<Range>, q: Range) returns (hit: bool)
    ensures hit == OverlapsEarlier(processed + [q], |processed|)
  {
    ghost var all := processed + [q];
    for k := 0 to |processed|
      invariant forall j :: 0 <= j < k ==> !Overlap(all[j], q)
    {
      if !(q.last < processed[k].first || q.first > processed[k].last) {
        assert Overlap(all[k], all[|processed|]);
        return true;
      }
    }
    return false;
  }

  /** Resolves the ranges and tests them; on success `qs` are the resolved ranges. */
  method Validate(rs: seq<Range>, len: nat) returns (error: bool, qs: seq<Range>)
    ensures error <==> Refused(rs, len)
    ensures !error ==> qs == ResolveAll(rs, len)
  {
    qs := [];
    if |rs| > RANGE_MAX_COUNT {
      return true, qs;
    }
    ghost var all := ResolveAll(rs, len);
    var count := 0;
    for i := 0 to |rs|
      invariant Accepted(all, i, len, qs, count)
    {
      var q := Resolve(rs[i], len);
      if !(0 <= q.first && q.first <= q.last && q.last <= len - 1) {
        return true, qs;
      }
      var hit := CountOverlap(qs, q);
      AcceptedNext(all, i, len, qs, count, hit);
      if hit {
        count := count + 1;
        if count > 2 {
          return true, qs;
        }
      }
      qs := qs + [q];
    }
    assert all[..|rs|] == all;
    return false, qs;
  }

  /** The first i ranges have been accepted, of which `count` overlap an earlier one. */
  ghost predicate Accepted(all: seq<Range>, i: nat, len: nat, qs: seq<Range>, count: nat) {
    && i <= |all| && qs == all[..i] && count == Overlaps(qs) <= 2
    && forall j :: 0 <= j < i ==> Satisfiable(all[j], len)
  }

  lemma {:induction false} AcceptedNext(all: seq<Range>, i: nat, len: nat, qs: seq<Range>, count: nat, hit: bool)
    requires i < |all| && Accepted(all, i, len, qs, count) && Satisfiable(all[i], len)
    requires hit == OverlapsEarlier(qs + [all[i]], i)
    ensures var c := if hit then count + 1 else count;
            if c <= 2 then Accepted(all, i + 1, len, qs + [all[i]], c) else Overlaps(all) > 2
  {
    var next := qs + [all[i]];
    assert next == all[..i + 1] && next[..i] == qs;
    OverlapsGrow(all, i + 1);
  }

  /** What a request asks for and what its coalesced ranges hold. */
  ghost predicate Serves(out: seq<Range>, rs: seq<Range>, len: nat) {
    && Sound(out, len)
    && (forall x :: Covered(out, x) <==> AskedBy(rs, len, x))
    && (RepeatsInside(ResolveAll(rs, len)) ==> Apart(out))
    && (Distinct(ResolveAll(rs, len)) ==> Apart(out))
  }

  lemma ResolvedCovers(rs: seq<Range>, len: nat, x: int)
    requires forall i :: 0 <= i < |rs| ==> Satisfiable(Resolve(rs[i], len), len)
    ensures Covered(ResolveAll(rs, len), x) <==> AskedBy(rs, len, x)
  {
    forall i | 0 <= i < |rs|
      ensures Holds(ResolveAll(rs, len)[i], x) <==> Asks(rs[i], len, x)
    {
      ResolveIsExact(rs[i], len, x);
    }
  }

  lemma SameMembersCover(a: seq<Range>, b: seq<Range>, x: int)
    requires multiset(a) == multiset(b)
    ensures Covered(a, x) ==> Covered(b, x)
  {
    if Covered(a, x) {
      var i :| 0 <= i < |a| && Holds(a[i], x);
      assert a[i] in multiset(b);
      var j :| 0 <= j < |b| && b[j] == a[i];
      assert Holds(b[j], x);
    }
  }

  lemma {:induction false} DistinctOnce(s: seq<Range>, r: Range)
    ensures Distinct(s) ==> multiset(s)[r] <= 1
  {
    if s != [] {
      var n := |s| - 1;
      DistinctOnce(s[..n], r);
      assert s == s[..n] + [s[n]];
      assert Distinct(s) && s[n] == r ==> r !in s[..n];
    }
  }

  /** Ranges of which no two are the same satisfy the condition. */
  lemma DistinctRepeatsInside(rs: seq<Range>)
    requires Distinct(rs)
    ensures RepeatsInside(rs)
  {
    forall r
      ensures !Twice(rs, r)
    {
      DistinctOnce(rs, r);
    }
  }

  lemma {:induction false} CoalescedServes(rs: seq<Range>, len: nat, s: seq<Range>)
    requires forall i :: 0 <= i < |rs| ==> Satisfiable(Resolve(rs[i], len), len)
    requires multiset(s) == multiset(ResolveAll(rs, len)) && Ordered(s)
    ensures Serves(Merge(s, len), rs, len)
  {
    var qs := ResolveAll(rs, len);
    forall i | 0 <= i < |s|
      ensures Satisfiable(s[i], len) && Resolve(s[i], len) == s[i]
    {
      assert s[i] in multiset(qs);
      var j :| 0 <= j < |qs| && qs[j] == s[i];
      ResolveTwice(rs[j], len);
    }
    forall x
      ensures Covered(Merge(s, len), x) <==> AskedBy(rs, len, x)
    {
      MergeKeeps(s, len, x);
      SameMembersCover(s, qs, x);
      SameMembersCover(qs, s, x);
      ResolvedCovers(rs, len, x);
    }
    MergeKeeps(s, len, 0);
    if Distinct(qs) {
      DistinctRepeatsInside(qs);
    }
    if RepeatsInside(qs) {
      RepeatsInsideOf(qs, s);
      MergeSeparates(s, len);
    }
  }

  /** The test of a request's ranges, and what becomes of them: refused exactly for the
      reasons given, and otherwise replaced by ranges that hold exactly the positions asked
      for, in order, inside the content, and apart unless a repeated range starts a run. */
  method RangeError(rs: seq<Range>, status: int, len: nat) returns (error: bool, out: seq<Range>)
    ensures error <==> rs != [] && 200 <= status < 300 && Refused(rs, len)
    ensures !(rs != [] && 200 <= status < 300) ==> out == rs
    ensures rs != [] && 200 <= status < 300 && !error ==> Serves(out, rs, len)
  {
    error, out := false, rs;
    if rs != [] && 200 <= status < 300 {
      error, out := Validate(rs, len);
      if !error {
        ghost var qs := out;
        out := CoalesceRanges(out, len);
        if |rs| == 1 {
          SingleServes(rs, len);
        } else {
          ghost var s :| multiset(s) == multiset(qs) && Ordered(s) && out == Merge(s, len);
          CoalescedServes(rs, len, s);
        }
      }
    }
  }

  lemma SingleServes(rs: seq<Range>, len: nat)
    requires |rs| == 1 && Satisfiable(Resolve(rs[0], len), len)
    ensures Serves(ResolveAll(rs, len), rs, len)
  {
    forall x
      ensures Covered(ResolveAll(rs, len), x) <==> AskedBy(rs, len, x)
    {
      ResolvedCovers(rs, len, x);
    }
  }

  /** Offset and length of a range, under the conditions asserted there: the octets so
      described are those of the range, and lie in the content. */
  function OffsetAndLength(r: Range, len: nat): (p: (nat, nat))
    requires r.first != -1 && r.last != -1
    requires 0 <= r.first < len
    requires r.first <= r.last < len
    ensures p.1 > 0 && p.0 + p.1 <= len
    ensures forall x :: Holds(r, x) <==> p.0 <= x < p.0 + p.1
  {
    (r.first, r.last - r.first + 1)
  }

  /** Two equal ranges are both kept, and a later one may then be merged with the second. */
  lemma EqualRangesStayTwo()
    ensures var rs := [Range(0, 5), Range(0, 5), Range(3, 7)];
            && !Refused(rs, 10) && ResolveAll(rs, 10) == rs
            && Merge(rs, 10) == [Range(0, 5), Range(0, 7)] && !Apart(Merge(rs, 10))
  {
    var a, b := Range(0, 5), Range(3, 7);
    var rs := [a, a, b];
    assert ResolveAll(rs, 10) == rs;
    assert Overlaps([]) == 0 && !OverlapsEarlier([a], 0) && Overlaps([a]) == 0;
    assert rs[..2] == [a, a] && [a, a][..1] == [a] && [a][..0] == [];
    assert Merge([a], 10) == [a];
    assert Merge([a, a], 10) == [a, a];
    assert Merge(rs, 10) == [a] + [Range(0, 7)];
    var out := [a] + [Range(0, 7)];
    assert out[0].last + 1 >= out[1].first;
  }

  // ------------------------------------------------------------------ overlaps

  /** Two ranges overlap if and only if some position is in both. */
  lemma OverlapIsShared(a: Range, b: Range)
    requires a.first <= a.last && b.first <= b.last
    ensures Overlap(a, b) <==> exists x :: Holds(a, x) && Holds(b, x)
  {
    if Overlap(a, b) {
      var x := if a.first < b.first then b.first else a.first;
      assert Holds(a, x) && Holds(b, x);
    }
  }

  /** Some position is asked for by the range and by one before it. */
  ghost predicate SharesEarlier(rs: seq<Range>, len: nat, i: nat)
    requires i < |rs|
  {
    exists j, x :: 0 <= j < i && Asks(rs[j], len, x) && Asks(rs[i], len, x)
  }

  /** What counts as an overlap is that positions are asked for twice. */
  lemma OverlapsWhereShared(rs: seq<Range>, len: nat, i: nat)
    requires i < |rs| && forall j :: 0 <= j < |rs| ==> Satisfiable(Resolve(rs[j], len), len)
    ensures OverlapsEarlier(ResolveAll(rs, len), i) <==> SharesEarlier(rs, len, i)
  {
    var qs := ResolveAll(rs, len);
    if OverlapsEarlier(qs, i) {
      var j :| 0 <= j < i && Overlap(qs[j], qs[i]);
      OverlapIsShared(qs[j], qs[i]);
      var x :| Holds(qs[j], x) && Holds(qs[i], x);
      ResolveIsExact(rs[j], len, x);
      ResolveIsExact(rs[i], len, x);
    }
    if SharesEarlier(rs, len, i) {
      var j, x :| 0 <= j < i && Asks(rs[j], len, x) && Asks(rs[i], len, x);
      ResolveIsExact(rs[j], len, x);
      ResolveIsExact(rs[i], len, x);
      OverlapIsShared(qs[j], qs[i]);
      assert Overlap(qs[j], qs[i]);
    }
  }

  lemma {:induction false} NoOverlaps(qs: seq<Range>)
    requires forall i :: 0 <= i < |qs| ==> !OverlapsEarlier(qs, i)
    ensures Overlaps(qs) == 0
  {
    if qs != [] {
      var n := |qs| - 1;
      forall i | 0 <= i < n
        ensures !OverlapsEarlier(qs[..n], i)
      {
        assert !OverlapsEarlier(qs, i);
      }
      NoOverlaps(qs[..n]);
    }
  }

  /** Ranges that can be satisfied, of which no two ask for the same position, are not refused. */
  lemma {:induction false} DisjointAccepted(rs: seq<Range>, len: nat)
    requires |rs| <= 1024 && forall j :: 0 <= j < |rs| ==> Satisfiable(Resolve(rs[j], len), len)
    requires forall i :: 0 <= i < |rs| ==> !SharesEarlier(rs, len, i)
    ensures !Refused(rs, len)
  {
    forall i | 0 <= i < |rs|
      ensures !OverlapsEarlier(ResolveAll(rs, len), i)
    {
      OverlapsWhereShared(rs, len, i);
    }
    NoOverlaps(ResolveAll(rs, len));
  }
}
