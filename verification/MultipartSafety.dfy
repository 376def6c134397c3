/** What the multipart parser keeps on every input, well formed or not, however it is cut. */
module MultipartSafety {
  import opened Bytes
  import opened Multipart

  // ------------------------------------------------------ only what was accepted

  /** A header line that was accepted: it is not empty, and no line end stands in it. */
  ghost predicate GoodLine(l: Text, policy: Policy) {
    l != [] && !Occurs(l, CRLF) && policy.lineOk(l)
  }

  ghost predicate GoodEntry(e: Entry, policy: Policy) {
    (forall l :: l in e.lines ==> GoodLine(l, policy)) && policy.onHeaders(e.lines)
  }

  /** Every line held, and every entry delivered, was accepted. */
  ghost predicate Vetted(p: Parser, policy: Policy) {
    (forall l :: l in p.lines ==> GoodLine(l, policy)) && (forall e :: e in p.out ==> GoodEntry(e, policy))
  }

  lemma FoundLine(buf: Text, pos: nat)
    requires pos == Find(buf, CRLF) < |buf|
    ensures !Occurs(buf[..pos], CRLF)
  {
    FindIsFirst(buf, CRLF);
    forall i: nat | At(buf[..pos], i, CRLF)
      ensures At(buf, i, CRLF)
    {
      assert buf[..pos][i..i + 2] == buf[i..i + 2];
    }
  }

  lemma AppendKeeps(out: seq<Entry>, data: Text, policy: Policy)
    requires forall e :: e in out ==> GoodEntry(e, policy)
    ensures forall e :: e in AppendLast(out, data) ==> GoodEntry(e, policy)
  {
    if out != [] {
      var n := |out| - 1;
      assert out[n] in out;
      assert GoodEntry(Entry(out[n].lines, out[n].content + data), policy);
    }
  }

  lemma {:induction false} HeaderLoopVets(p: Parser, policy: Policy)
    requires Vetted(p, policy)
    ensures Vetted(HeaderLoop(p, policy).p, policy)
    decreases |p.buf|
  {
    var pos := Find(p.buf, CRLF);
    if pos == 0 < |p.buf| && policy.onHeaders(p.lines) {
      assert GoodEntry(Entry(p.lines, []), policy);
    } else if 0 < pos < |p.buf| && policy.lineOk(p.buf[..pos]) {
      FoundLine(p.buf, pos);
      HeaderLoopVets(p.(buf := p.buf[pos + 2..], lines := p.lines + [p.buf[..pos]]), policy);
    }
  }

  lemma StepVets(p: Parser, boundary: Text, policy: Policy)
    requires p.buf != [] && Vetted(p, policy)
    ensures Vetted(Step(p, boundary, policy).p, policy)
  {
    match p.phase {
      case Headers => HeaderLoopVets(p, policy);
      case Body => BodyVets(p, boundary, policy);
      case _ =>
    }
  }

  lemma BodyVets(p: Parser, boundary: Text, policy: Policy)
    requires Vetted(p, policy)
    ensures Vetted(BodyStep(p, boundary, policy).p, policy)
  {
    var d := CrlfDashBoundary(boundary);
    if |d| <= |p.buf| {
      AppendKeeps(p.out, p.buf[..Find(p.buf, d)], policy);
      AppendKeeps(p.out, p.buf[..|p.buf| - |d|], policy);
    }
  }

  lemma {:induction false} LoopVets(p: Parser, boundary: Text, policy: Policy)
    requires Vetted(p, policy)
    ensures Vetted(Loop(p, boundary, policy).p, policy)
    decreases |p.buf|, Rank(p)
  {
    if p.buf != [] {
      StepVets(p, boundary, policy);
      var r := Step(p, boundary, policy);
      if r.Continue? {
        LoopVets(r.p, boundary, policy);
      }
    }
  }

  /** Whatever is fed to the parser, in whatever pieces, every part that it delivers has header lines
      that were all accepted, and was itself accepted. */
  lemma {:induction false} OnlyAccepted(p: Parser, pieces: seq<Text>, boundary: Text, policy: Policy)
    requires Vetted(p, policy)
    ensures Vetted(FeedAll(p, pieces, boundary, policy).p, policy)
    decreases |pieces|
  {
    if pieces != [] {
      LoopVets(p.(buf := p.buf + pieces[0]), boundary, policy);
      var r := Feed(p, pieces[0], boundary, policy);
      if r.ok {
        OnlyAccepted(r.p, pieces[1..], boundary, policy);
      }
    }
  }

  // ---------------------------------------------------------------- streaming

  /** Content is passed on as it arrives: between two calls the parser holds back no more of it than
      the delimiter is long. */
  lemma {:induction false} HoldsBackLittle(p: Parser, boundary: Text, policy: Policy)
    ensures var r := Loop(p, boundary, policy);
            r.ok && r.p.phase == Body ==> |r.p.buf| <= 4 + |boundary|
    decreases |p.buf|, Rank(p)
  {
    if p.buf != [] {
      var r := Step(p, boundary, policy);
      if r.Continue? {
        HoldsBackLittle(r.p, boundary, policy);
      } else if p.phase == Headers && r.p.phase == Body {
        HeadersReturn(p, policy);
      }
    }
  }

  lemma {:induction false} HeadersReturn(p: Parser, policy: Policy)
    ensures var r := HeaderLoop(p, policy); r.Return? ==> r.p.phase == p.phase
    decreases |p.buf|
  {
    var pos := Find(p.buf, CRLF);
    if 0 < pos < |p.buf| && policy.lineOk(p.buf[..pos]) {
      HeadersReturn(p.(buf := p.buf[pos + 2..], lines := p.lines + [p.buf[..pos]]), policy);
    }
  }

  // ------------------------------------------------------------------- garbage

  /** A delimiter was followed by neither a line end nor two dashes. */
  predicate AtGarbage(p: Parser) {
    p.phase == Boundary && |p.buf| >= 2 && !(CRLF <= p.buf) && !(DASHES <= p.buf)
  }

  lemma {:induction false} GarbageStays(p: Parser, piece: Text, boundary: Text, policy: Policy)
    requires AtGarbage(p)
    ensures Feed(p, piece, boundary, policy) == Return(p.(buf := p.buf + piece), true)
    ensures AtGarbage(p.(buf := p.buf + piece))
  {
    TwoFirst(p.buf, piece, CRLF);
    TwoFirst(p.buf, piece, DASHES);
  }

  lemma TwoFirst(buf: Text, piece: Text, pat: Text)
    requires |pat| == 2 <= |buf|
    ensures pat <= buf + piece <==> pat <= buf
  {
    assert pat <= buf <==> buf[0] == pat[0] && buf[1] == pat[1];
  }

  /** After that the parser goes on taking input, and neither delivers anything nor becomes valid. */
  lemma {:induction false} NothingAfterGarbage(p: Parser, pieces: seq<Text>, boundary: Text, policy: Policy)
    requires AtGarbage(p)
    ensures var r := FeedAll(p, pieces, boundary, policy); r.ok && r.p.out == p.out && r.p.valid == p.valid
    decreases |pieces|
  {
    if pieces != [] {
      GarbageStays(p, pieces[0], boundary, policy);
      NothingAfterGarbage(p.(buf := p.buf + pieces[0]), pieces[1..], boundary, policy);
    }
  }

  // ------------------------------------------------------------------ boundaries

  predicate IsAlnum(c: Byte) {
    '0' as int <= c <= '9' as int || 'A' as int <= c <= 'Z' as int || 'a' as int <= c <= 'z' as int
  }

  /** The boundaries that a client may use: letters, digits, dashes and underscores. */
  lemma BoundaryCharsAre(b: Text)
    ensures BoundaryCharsValid(b) <==> forall c :: c in b ==> IsAlnum(c) || c == '-' as int || c == '_' as int
  {
    if forall c :: c in b ==> IsAlnum(c) || c == '-' as int || c == '_' as int {
      assert forall i :: 0 <= i < |b| ==> b[i] in b;
    }
  }
}
