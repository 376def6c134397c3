/** The multipart parser as it runs: a sliding window over a buffer that is compacted in
    place when more input arrives. It refines the parser of module Multipart. */
module FormDataParsers {
  import opened Bytes
  import opened Multipart

  /** The pattern does not stand before position j. */
  ghost predicate NotBefore(s: Text, pat: Text, j: nat) {
    pat != [] && j <= |s| && FindFrom(s, pat, j) == Find(s, pat)
  }

  lemma Passed(s: Text, pat: Text, j: nat)
    requires NotBefore(s, pat, j) && j < |s| && s[j] != pat[0]
    ensures NotBefore(s, pat, j + 1)
  {
    FindFromSkips(s, pat, j);
  }

  lemma Failed(s: Text, pat: Text, j: nat)
    requires NotBefore(s, pat, j) && j < |s| && !At(s, j, pat)
    ensures NotBefore(s, pat, j + 1)
  {
  }

  lemma Found(s: Text, pat: Text, j: nat)
    requires NotBefore(s, pat, j) && At(s, j, pat)
    ensures Find(s, pat) == j
  {
  }

  lemma NotThere(s: Text, pat: Text, j: nat)
    requires NotBefore(s, pat, j) && j + |pat| > |s|
    ensures Find(s, pat) == |s|
  {
  }

  lemma HeaderTaken(v: Parser, policy: Policy, pos: nat)
    requires pos == Find(v.buf, CRLF) && 0 < pos < |v.buf|
    ensures HeaderLoop(v, policy) ==
            if policy.lineOk(v.buf[..pos])
            then HeaderLoop(v.(buf := v.buf[pos + 2..], lines := v.lines + [v.buf[..pos]]), policy)
            else Return(v.(valid := false), false)
  {
  }

  lemma BodyStepIs(v: Parser, boundary: Text, policy: Policy, d: Text, pos: nat)
    requires d == CrlfDashBoundary(boundary) && |d| <= |v.buf| && pos == Find(v.buf, d)
    ensures var n := if pos < |v.buf| then pos else |v.buf| - |d|;
            BodyStep(v, boundary, policy) ==
            if pos == |v.buf| && n == 0 then Return(v, true)
            else if !policy.onContent(v.buf[..n]) then Return(v.(valid := false), false)
            else if pos < |v.buf| then
              Continue(v.(out := AppendLast(v.out, v.buf[..pos]), buf := v.buf[pos + |d|..], phase := Boundary))
            else Return(v.(out := AppendLast(v.out, v.buf[..n]), buf := v.buf[n..]), true)
  {
  }

  class FormDataParser {
    const boundary: Text
    const policy: Policy
    var phase: Phase
    var valid: bool
    var lines: seq<Text>
    var out: seq<Entry>
    var buf: array<Byte>
    var spos: nat
    var epos: nat

    ghost predicate Valid()
      reads this
    {
      spos <= epos <= buf.Length
    }

    ghost function View(): (p: Parser)
      requires Valid()
      reads this, buf
    {
      Parser(phase, buf[spos..epos], lines, valid, out)
    }

    constructor (boundary: Text, policy: Policy)
      ensures Valid() && fresh(buf) && View() == START
      ensures this.boundary == boundary && this.policy == policy
    {
      this.boundary, this.policy := boundary, policy;
      phase, valid, lines, out := Initial, false, [], [];
      buf := new Byte[0];
      spos, epos := 0, 0;
    }

    method StartsWith(ghost window: Text, pos: nat, pat: Text) returns (b: bool)
      requires Valid() && window == buf[spos..epos] && spos <= pos <= epos
      ensures b == At(window, pos - spos, pat)
    {
      if epos - pos < |pat| {
        return false;
      }
      ghost var here := window[pos - spos..pos - spos + |pat|];
      for i := 0 to |pat|
        invariant here[..i] == pat[..i]
      {
        assert here[i] == buf[pos + i];
        if buf[pos + i] != pat[i] {
          return false;
        }
      }
      assert here[..|pat|] == here;
      return true;
    }

    /** The next position, from `off` on, that holds the first octet of the pattern. */
    method NextCandidate(ghost window: Text, pat: Text, off: nat) returns (pos: nat)
      requires Valid() && window == buf[spos..epos]
      requires spos <= off <= epos && NotBefore(window, pat, off - spos)
      ensures off <= pos <= epos && NotBefore(window, pat, pos - spos)
    {
      pos := off;
      while true
        invariant off <= pos <= epos && NotBefore(window, pat, pos - spos)
        decreases epos - pos
      {
        if pos == epos {
          return;
        }
        if buf[pos] == pat[0] {
          return;
        }
        Passed(window, pat, pos - spos);
        pos := pos + 1;
      }
    }

    method BufFind(pat: Text) returns (k: nat)
      requires Valid() && pat != []
      ensures k == Find(buf[spos..epos], pat)
    {
      ghost var window := buf[spos..epos];
      var off := spos;
      while off < epos
        invariant spos <= off <= epos && NotBefore(window, pat, off - spos)
      {
        var done;
        done, k := Probe(window, pat, off);
        if done {
          return;
        }
        off := spos + k;
      }
      NotThere(window, pat, off - spos);
      return epos - spos;
    }

    /** Tries the next candidate from `off` on: the search is done at `k`, or goes on from there. */
    method Probe(ghost window: Text, pat: Text, off: nat) returns (done: bool, k: nat)
      requires Valid() && window == buf[spos..epos]
      requires spos <= off < epos && NotBefore(window, pat, off - spos)
      ensures done ==> k == Find(window, pat)
      ensures !done ==> off - spos < k <= |window| && NotBefore(window, pat, k)
    {
      var pos := NextCandidate(window, pat, off);
      if |pat| > epos - pos {
        NotThere(window, pat, pos - spos);
        return true, epos - spos;
      }
      var here := StartsWith(window, pos, pat);
      if here {
        Found(window, pat, pos - spos);
        return true, pos - spos;
      }
      Failed(window, pat, pos - spos);
      return false, pos + 1 - spos;
    }

    /** Moves what is left to the front of the buffer, then adds the new input. */
    method BufAppend(data: Text)
      requires Valid()
      modifies this`buf, this`spos, this`epos, buf
      ensures Valid() && (buf == old(buf) || fresh(buf))
      ensures buf[spos..epos] == old(buf[spos..epos]) + data
    {
      var remaining := epos - spos;
      ghost var window := buf[spos..epos];
      if remaining > 0 && spos > 0 {
        Compact(buf, spos, remaining);
      }
      assert buf[..remaining] == window;
      spos := 0;
      epos := remaining;
      if remaining + |data| > buf.Length {
        buf := Resized(buf, remaining, remaining + |data|);
      }
      assert buf[..remaining] == window;
      Store(buf, epos, data);
      epos := epos + |data|;
    }

    static method Compact(b: array<Byte>, from: nat, n: nat)
      requires 0 < from && from + n <= b.Length
      modifies b
      ensures b[..n] == old(b[from..from + n])
    {
      ghost var window := b[from..from + n];
      for i := 0 to n
        invariant forall j :: 0 <= j < i ==> b[j] == window[j]
        invariant forall j :: i <= j < n ==> b[from + j] == window[j]
      {
        b[i] := b[from + i];
      }
    }

    static method Resized(b: array<Byte>, n: nat, size: nat) returns (r: array<Byte>)
      requires n <= b.Length && n <= size
      ensures fresh(r) && r.Length == size && r[..n] == b[..n]
    {
      r := new Byte[size](_ => 0);
      for i := 0 to n
        invariant r[..i] == b[..i]
      {
        r[i] := b[i];
      }
    }

    static method Store(b: array<Byte>, at: nat, data: Text)
      requires at + |data| <= b.Length
      modifies b
      ensures b[..at + |data|] == old(b[..at]) + data
    {
      for i := 0 to |data|
        invariant b[..at + i] == old(b[..at]) + data[..i]
      {
        b[at + i] := data[i];
      }
    }

    method BufErase(n: nat)
      requires Valid() && n <= epos - spos
      modifies this`spos
      ensures Valid() && View() == old(View()).(buf := old(View()).buf[n..])
    {
      spos := spos + n;
    }

    method BufHead(n: nat) returns (t: Text)
      requires Valid() && n <= epos - spos
      ensures t == View().buf[..n]
    {
      t := buf[spos..spos + n];
    }

    /** The blank line that ends the headers. */
    method EndHeaders() returns (accepted: bool)
      requires Valid() && epos - spos >= 2
      modifies this`phase, this`valid, this`out, this`spos
      ensures Valid()
      ensures var v := old(View());
              && accepted == policy.onHeaders(v.lines)
              && View() == if accepted then v.(buf := v.buf[2..], phase := Body, out := v.out + [Entry(v.lines, [])])
                           else v.(valid := false)
    {
      accepted := policy.onHeaders(lines);
      if accepted {
        BufErase(2);
        out := out + [Entry(lines, [])];
        phase := Body;
      } else {
        valid := false;
      }
    }

    /** One header line. */
    method TakeHeader(pos: nat) returns (accepted: bool)
      requires Valid() && epos - spos >= pos + 2
      modifies this`valid, this`lines, this`spos
      ensures Valid()
      ensures var v := old(View());
              && accepted == policy.lineOk(v.buf[..pos])
              && View() == if accepted then v.(buf := v.buf[pos + 2..], lines := v.lines + [v.buf[..pos]])
                           else v.(valid := false)
    {
      var header := BufHead(pos);
      accepted := policy.lineOk(header);
      if accepted {
        BufErase(pos + 2);
        lines := lines + [header];
      } else {
        valid := false;
      }
    }

    /** The header lines at the front of the window; `go` says that the blank line was met. */
    method ParseHeaders() returns (go: bool, ok: bool)
      requires Valid() && phase == Headers
      modifies this`phase, this`valid, this`lines, this`out, this`spos
      ensures Valid()
      ensures var r := HeaderLoop(old(View()), policy);
              View() == r.p && go == r.Continue? && (!go ==> ok == r.ok)
    {
      ghost var goal := HeaderLoop(View(), policy);
      var pos := BufFind(CRLF);
      while pos < epos - spos
        invariant Valid() && pos == Find(View().buf, CRLF) && HeaderLoop(View(), policy) == goal
        decreases epos - spos
      {
        if pos == 0 {
          ok := EndHeaders();
          return ok, ok;
        }
        ghost var v := View();
        ok := TakeHeader(pos);
        HeaderTaken(v, policy, pos);
        if !ok {
          return false, false;
        }
        pos := BufFind(CRLF);
      }
      return false, true;
    }

    /** Hands the first `n` octets to the content callback and drops `drop` octets. */
    method Deliver(n: nat, drop: nat) returns (accepted: bool)
      requires Valid() && n <= drop <= epos - spos
      modifies this`valid, this`out, this`spos
      ensures Valid() && accepted == policy.onContent(old(View()).buf[..n])
      ensures var v := old(View());
              View() == if accepted then v.(out := AppendLast(v.out, v.buf[..n]), buf := v.buf[drop..])
                        else v.(valid := false)
    {
      var data := BufHead(n);
      accepted := policy.onContent(data);
      if accepted {
        BufErase(drop);
        out := AppendLast(out, data);
      } else {
        valid := false;
      }
    }

    method ParseBody() returns (go: bool, ok: bool)
      requires Valid() && phase == Body
      modifies this`phase, this`valid, this`out, this`spos
      ensures Valid()
      ensures var r := BodyStep(old(View()), boundary, policy);
              View() == r.p && go == r.Continue? && (!go ==> ok == r.ok)
    {
      var delimiter := CrlfDashBoundary(boundary);
      if |delimiter| > epos - spos {
        return false, true;
      }
      var pos := BufFind(delimiter);
      if pos < epos - spos {
        ok := EndContent(pos, delimiter);
        return ok, ok;
      }
      ok := PassContent(pos, delimiter);
      return false, ok;
    }

    /** The content ends with the delimiter, which was found. */
    method EndContent(pos: nat, delimiter: Text) returns (ok: bool)
      requires Valid() && phase == Body && delimiter == CrlfDashBoundary(boundary)
      requires |delimiter| <= |View().buf| && pos == Find(View().buf, delimiter) < |View().buf|
      modifies this`phase, this`valid, this`out, this`spos
      ensures Valid()
      ensures var r := BodyStep(old(View()), boundary, policy); View() == r.p && ok == r.Continue? && (!ok ==> !r.ok)
    {
      BodyStepIs(View(), boundary, policy, delimiter, pos);
      ok := Deliver(pos, pos + |delimiter|);
      if ok {
        phase := Boundary;
      }
    }

    /** The delimiter is not there: all content that cannot be its beginning is passed on. */
    method PassContent(pos: nat, delimiter: Text) returns (ok: bool)
      requires Valid() && phase == Body && delimiter == CrlfDashBoundary(boundary)
      requires |delimiter| <= |View().buf| && pos == Find(View().buf, delimiter) == |View().buf|
      modifies this`valid, this`out, this`spos
      ensures Valid()
      ensures var r := BodyStep(old(View()), boundary, policy); View() == r.p && r.Return? && ok == r.ok
    {
      BodyStepIs(View(), boundary, policy, delimiter, pos);
      var len := epos - spos - |delimiter|;
      ok := true;
      if len > 0 {
        ok := Deliver(len, len);
      }
    }

    method ParseBoundary() returns (go: bool)
      requires Valid() && phase == Boundary
      modifies this`phase, this`valid, this`spos
      ensures Valid()
      ensures var r := BoundaryStep(old(View()));
              View() == r.p && go == r.Continue? && (!go ==> r.ok)
    {
      if 2 > epos - spos {
        return false;
      }
      var crlf := StartsWith(View().buf, spos, CRLF);
      PrefixIsAt(View().buf, CRLF);
      if crlf {
        BufErase(2);
        phase := NewEntry;
        return true;
      }
      var dashes := StartsWith(View().buf, spos, DASHES);
      PrefixIsAt(View().buf, DASHES);
      if dashes {
        BufErase(2);
        valid := true;
        BufErase(epos - spos);
        return true;
      }
      return false;
    }

    /** One turn of the loop. */
    method Turn() returns (go: bool, ok: bool)
      requires Valid() && epos > spos
      modifies this`phase, this`valid, this`lines, this`out, this`spos
      ensures Valid()
      ensures var r := Step(old(View()), boundary, policy);
              View() == r.p && go == r.Continue? && (!go ==> ok == r.ok)
    {
      go, ok := true, true;
      match phase {
        case Initial =>
          var pos := BufFind(DashBoundaryCrlf(boundary));
          if pos == epos - spos {
            return false, true;
          }
          BufErase(pos + |DashBoundaryCrlf(boundary)|);
          phase := NewEntry;
        case NewEntry =>
          lines := [];
          phase := Headers;
        case Headers =>
          var pos := BufFind(CRLF);
          if pos > HEADER_MAX_LENGTH {
            return false, false;
          }
          go, ok := ParseHeaders();
        case Body =>
          go, ok := ParseBody();
        case Boundary =>
          go := ParseBoundary();
      }
    }

    /** One call on the next piece of input, whatever was left over from the last one. */
    method Parse(data: Text) returns (ok: bool)
      requires Valid()
      modifies this, buf
      ensures Valid() && (buf == old(buf) || fresh(buf))
      ensures var r := Feed(old(View()), data, boundary, policy); View() == r.p && ok == r.ok
    {
      BufAppend(data);
      ghost var goal := Loop(View(), boundary, policy);
      while epos - spos > 0
        invariant Valid() && (buf == old(buf) || fresh(buf))
        invariant Loop(View(), boundary, policy) == goal
        decreases epos - spos, Rank(View())
      {
        var go, done := Turn();
        if !go {
          return done;
        }
      }
      return true;
    }
  }

  lemma PrefixIsAt(s: Text, pat: Text)
    ensures At(s, 0, pat) <==> pat <= s
  {
  }
}
