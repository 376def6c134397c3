/** Octets, and searching for a delimiter in a run of octets. */
module Bytes {

  type Byte = n: int | 0 <= n < 256

  const CR: Byte := 13
  const LF: Byte := 10
  const CRLF: seq<Byte> := [CR, LF]

  /** The octets of a text literal; every literal of the program is ASCII. */
  function Ascii(s: string): (r: seq<Byte>)
    ensures |r| == |s|
    ensures forall i :: 0 <= i < |s| && s[i] as int < 128 ==> r[i] == s[i] as int
  {
    seq(|s|, i requires 0 <= i < |s| => s[i] as int % 128)
  }

  function Concat<T>(parts: seq<seq<T>>): (r: seq<T>) {
    if parts == [] then [] else parts[0] + Concat(parts[1..])
  }

  lemma {:induction false} ConcatSplit<T>(a: seq<seq<T>>, b: seq<seq<T>>)
    ensures Concat(a + b) == Concat(a) + Concat(b)
  {
    if a == [] {
      assert a + b == b;
    } else {
      assert (a + b)[0] == a[0] && (a + b)[1..] == a[1..] + b;
      ConcatSplit(a[1..], b);
    }
  }

  /** `pat` stands in `s` at offset `i`. */
  predicate At(s: seq<Byte>, i: nat, pat: seq<Byte>) {
    i + |pat| <= |s| && s[i..i + |pat|] == pat
  }

  ghost predicate Occurs(s: seq<Byte>, pat: seq<Byte>) {
    exists i: nat :: At(s, i, pat)
  }

  /** `k` is the first offset at which `pat` stands in `s`. */
  ghost predicate First(s: seq<Byte>, pat: seq<Byte>, k: nat) {
    At(s, k, pat) && forall i: nat :: i < k ==> !At(s, i, pat)
  }

  function FindFrom(s: seq<Byte>, pat: seq<Byte>, from: nat): (k: nat)
    requires pat != [] && from <= |s|
    ensures from <= k <= |s|
    ensures k < |s| ==> k + |pat| <= |s|
    decreases |s| - from
  {
    if from == |s| || At(s, from, pat) then from else FindFrom(s, pat, from + 1)
  }

  /** The first offset of `pat` in `s`, or |s| when there is none. */
  function Find(s: seq<Byte>, pat: seq<Byte>): (k: nat)
    requires pat != []
    ensures k <= |s|
    ensures k < |s| ==> k + |pat| <= |s|
  {
    FindFrom(s, pat, 0)
  }

  lemma FindFromSkips(s: seq<Byte>, pat: seq<Byte>, from: nat)
    requires pat != [] && from < |s| && s[from] != pat[0]
    ensures FindFrom(s, pat, from) == FindFrom(s, pat, from + 1)
  {
    assert from + |pat| <= |s| ==> s[from..from + |pat|][0] == s[from];
  }

  lemma {:induction false} FindFromIsFirst(s: seq<Byte>, pat: seq<Byte>, from: nat)
    requires pat != [] && from <= |s|
    ensures var k := FindFrom(s, pat, from);
            && (k < |s| ==> At(s, k, pat))
            && (forall i: nat :: from <= i < k ==> !At(s, i, pat))
    decreases |s| - from
  {
    if from < |s| && !At(s, from, pat) {
      FindFromIsFirst(s, pat, from + 1);
    }
  }

  lemma FindIsFirst(s: seq<Byte>, pat: seq<Byte>)
    requires pat != []
    ensures var k := Find(s, pat); if k < |s| then First(s, pat, k) else !Occurs(s, pat)
  {
    FindFromIsFirst(s, pat, 0);
  }

  /** A delimiter whose first octet does not recur in it is first met right after
      text that is free of it: no occurrence can straddle the seam. */
  lemma FirstAfter(x: seq<Byte>, pat: seq<Byte>, y: seq<Byte>)
    requires pat != [] && pat[0] !in pat[1..]
    requires !Occurs(x, pat)
    ensures First(x + pat + y, pat, |x|)
  {
    var s := x + pat + y;
    assert s[|x|..|x| + |pat|] == pat;
    forall i: nat | i < |x|
      ensures !At(s, i, pat)
    {
      if i + |pat| <= |x| {
        assert x[i..i + |pat|] == s[i..i + |pat|];
        assert !At(x, i, pat);
      } else {
        assert s[|x|] == pat[0] && pat[|x| - i] in pat[1..];
        assert s[i..i + |pat|][|x| - i] == s[|x|];
      }
    }
  }

  /** What a search of the part received so far says about the whole text. */
  lemma FindInPrefix(s: seq<Byte>, rest: seq<Byte>, pat: seq<Byte>, k: nat)
    requires pat != [] && First(s + rest, pat, k)
    ensures Find(s, pat) == if k + |pat| <= |s| then k else |s|
  {
    var f := Find(s, pat);
    FindIsFirst(s, pat);
    if f < |s| {
      assert (s + rest)[f..f + |pat|] == s[f..f + |pat|];
      assert At(s + rest, f, pat);
    }
    if k + |pat| <= |s| {
      assert (s + rest)[k..k + |pat|] == s[k..k + |pat|];
      assert At(s, k, pat);
    }
  }

  /** Text arriving as `buf` then `fut` and known to be `x` then `y`: removing `x`
      from the front of the buffer leaves `y`. */
  lemma TakeFront(buf: seq<Byte>, fut: seq<Byte>, x: seq<Byte>, y: seq<Byte>)
    requires buf + fut == x + y && |x| <= |buf|
    ensures buf[..|x|] == x && buf[|x|..] + fut == y
  {
    assert buf[..|x|] == (buf + fut)[..|x|] == (x + y)[..|x|];
    assert buf[|x|..] + fut == (buf + fut)[|x|..] == (x + y)[|x|..];
  }

  lemma TakePart(buf: seq<Byte>, fut: seq<Byte>, x: seq<Byte>, y: seq<Byte>, n: nat)
    requires buf + fut == x + y && n <= |x| && n <= |buf|
    ensures buf[..n] == x[..n] && buf[n..] + fut == x[n..] + y
  {
    assert x + y == x[..n] + (x[n..] + y);
    TakeFront(buf, fut, x[..n], x[n..] + y);
  }

  lemma OccursInSuffix(s: seq<Byte>, n: nat, pat: seq<Byte>)
    requires n <= |s| && !Occurs(s, pat)
    ensures !Occurs(s[n..], pat)
  {
    forall i: nat ensures !At(s[n..], i, pat) {
      if At(s[n..], i, pat) {
        assert s[n..][i..i + |pat|] == s[n + i..n + i + |pat|];
        assert At(s, n + i, pat);
      }
    }
  }
}
