/** The multipart/form-data wire format: the serializer, the five-phase parser as a
    function on values, and the round trip between them under every segmentation. */
module Multipart {
  import opened Bytes

  type Text = seq<Byte>

  const HEADER_MAX_LENGTH := 8192
  const DASHES: Text := [45, 45]

  datatype Item = Item(name: Text, filename: Text, contentType: Text, content: Text)

  /** What a receiver holds of one part: its header lines and its content so far. */
  datatype Entry = Entry(lines: seq<Text>, content: Text)

  // ---------------------------------------------------------------- serializer

  predicate BoundaryCharsValid(boundary: Text) {
    forall i :: 0 <= i < |boundary| ==>
      var c := boundary[i];
      48 <= c <= 57 || 65 <= c <= 90 || 97 <= c <= 122 || c == 45 || c == 95
  }

  function HeaderLines(item: Item): (lines: seq<Text>) {
    var disposition := Ascii("Content-Disposition: form-data; name=\"") + item.name + Ascii("\"");
    [if item.filename == [] then disposition
     else disposition + Ascii("; filename=\"") + item.filename + Ascii("\"")]
    + if item.contentType == [] then [] else [Ascii("Content-Type: ") + item.contentType]
  }

  function Received(item: Item): (e: Entry) {
    Entry(HeaderLines(item), item.content)
  }

  function ReceivedAll(items: seq<Item>): (r: seq<Entry>)
    ensures |r| == |items|
    ensures forall i :: 0 <= i < |items| ==> r[i] == Received(items[i])
  {
    seq(|items|, i requires 0 <= i < |items| => Received(items[i]))
  }

  function HeaderBlock(lines: seq<Text>): (r: Text) {
    if lines == [] then CRLF else lines[0] + CRLF + HeaderBlock(lines[1..])
  }

  function ItemBegin(item: Item, boundary: Text): (r: Text) {
    DASHES + boundary + CRLF + HeaderBlock(HeaderLines(item))
  }

  function Finish(boundary: Text): (r: Text) {
    DASHES + boundary + DASHES + CRLF
  }

  /** The body built for a list of items, closing delimiter included. */
  function Serialize(items: seq<Item>, boundary: Text): (r: Text) {
    if items == [] then Finish(boundary)
    else ItemBegin(items[0], boundary) + items[0].content + CRLF + Serialize(items[1..], boundary)
  }

  lemma Carry(before: Text, begin: Text, content: Text, rest: Text)
    ensures before + (begin + content + CRLF + rest) == before + begin + (content + CRLF) + rest
  {
  }

  method SerializeFormData(items: seq<Item>, boundary: Text, finish: bool) returns (body: Text)
    ensures finish ==> body == Serialize(items, boundary)
    ensures !finish ==> body + Finish(boundary) == Serialize(items, boundary)
  {
    body := [];
    for i := 0 to |items|
      invariant body + Serialize(items[i..], boundary) == Serialize(items, boundary)
    {
      assert items[i..][1..] == items[i + 1..];
      var begin := ItemBegin(items[i], boundary);
      Carry(body, begin, items[i].content, Serialize(items[i + 1..], boundary));
      body := body + begin;
      body := body + (items[i].content + CRLF);
    }
    if finish {
      body := body + Finish(boundary);
    }
  }

  // -------------------------------------------------------------------- parser

  datatype Phase = Initial | NewEntry | Headers | Body | Boundary

  /** The decisions taken outside the parser: whether a header line is well formed
      (field syntax and the disposition expression) and whether a callback goes on. */
  datatype Policy = Policy(lineOk: Text -> bool, onHeaders: seq<Text> -> bool, onContent: Text -> bool)

  /** `out` is what the callbacks were given: the header callback opens an entry, the
      content callback extends the entry that is open. */
  datatype Parser = Parser(phase: Phase, buf: Text, lines: seq<Text>, valid: bool, out: seq<Entry>)

  datatype Outcome = Continue(p: Parser) | Return(p: Parser, ok: bool)

  const START := Parser(Initial, [], [], false, [])

  function DashBoundaryCrlf(boundary: Text): Text { DASHES + boundary + CRLF }

  function CrlfDashBoundary(boundary: Text): Text { CRLF + DASHES + boundary }

  function AppendLast(out: seq<Entry>, data: Text): (r: seq<Entry>) {
    if out == [] then [] else
      out[..|out| - 1] + [Entry(out[|out| - 1].lines, out[|out| - 1].content + data)]
  }

  function HeaderLoop(p: Parser, policy: Policy): (r: Outcome)
    ensures r.Continue? ==> |r.p.buf| < |p.buf| && r.p.phase == Body
    decreases |p.buf|
  {
    var pos := Find(p.buf, CRLF);
    if pos == |p.buf| then Return(p, true)
    else if pos == 0 then
      if policy.onHeaders(p.lines) then
        Continue(p.(buf := p.buf[2..], phase := Body, out := p.out + [Entry(p.lines, [])]))
      else Return(p.(valid := false), false)
    else if policy.lineOk(p.buf[..pos]) then
      HeaderLoop(p.(buf := p.buf[pos + 2..], lines := p.lines + [p.buf[..pos]]), policy)
    else Return(p.(valid := false), false)
  }

  function BodyStep(p: Parser, boundary: Text, policy: Policy): (r: Outcome)
    ensures r.Continue? ==> |r.p.buf| < |p.buf|
  {
    var delimiter := CrlfDashBoundary(boundary);
    if |delimiter| > |p.buf| then Return(p, true) else
    var pos := Find(p.buf, delimiter);
    if pos < |p.buf| then
      if policy.onContent(p.buf[..pos]) then
        Continue(p.(out := AppendLast(p.out, p.buf[..pos]), buf := p.buf[pos + |delimiter|..],
                    phase := Boundary))
      else Return(p.(valid := false), false)
    else
      var len := |p.buf| - |delimiter|;
      if len == 0 then Return(p, true)
      else if policy.onContent(p.buf[..len]) then
        Return(p.(out := AppendLast(p.out, p.buf[..len]), buf := p.buf[len..]), true)
      else Return(p.(valid := false), false)
  }

  function BoundaryStep(p: Parser): (r: Outcome)
    ensures r.Continue? ==> |r.p.buf| < |p.buf|
  {
    if |p.buf| < 2 then Return(p, true)
    else if CRLF <= p.buf then Continue(p.(buf := p.buf[2..], phase := NewEntry))
    else if DASHES <= p.buf then Continue(p.(buf := [], valid := true))  // the epilogue goes too
    else Return(p, true)
  }

  function Rank(p: Parser): nat { if p.phase == NewEntry then 1 else 0 }

  /** One turn of the parser's loop. */
  function Step(p: Parser, boundary: Text, policy: Policy): (r: Outcome)
    requires p.buf != []
    ensures r.Continue? ==>
              |r.p.buf| < |p.buf| || (|r.p.buf| == |p.buf| && Rank(r.p) < Rank(p))
  {
    match p.phase
    case Initial =>
      var pos := Find(p.buf, DashBoundaryCrlf(boundary));
      if pos == |p.buf| then Return(p, true)
      else Continue(p.(buf := p.buf[pos + |DashBoundaryCrlf(boundary)|..], phase := NewEntry))
    case NewEntry => Continue(p.(lines := [], phase := Headers))
    case Headers =>
      if Find(p.buf, CRLF) > HEADER_MAX_LENGTH then Return(p, false) else HeaderLoop(p, policy)
    case Body => BodyStep(p, boundary, policy)
    case Boundary => BoundaryStep(p)
  }

  function Loop(p: Parser, boundary: Text, policy: Policy): (r: Outcome)
    ensures r.Return?
    decreases |p.buf|, Rank(p)
  {
    if p.buf == [] then Return(p, true)
    else match Step(p, boundary, policy)
      case Continue(q) => Loop(q, boundary, policy)
      case Return(q, ok) => Return(q, ok)
  }

  /** One call of the parser on the next piece of input. */
  function Feed(p: Parser, piece: Text, boundary: Text, policy: Policy): (r: Outcome)
    ensures r.Return?
  {
    Loop(p.(buf := p.buf + piece), boundary, policy)
  }

  /** Feeding pieces one after the other, until one call reports failure. */
  function FeedAll(p: Parser, pieces: seq<Text>, boundary: Text, policy: Policy): (r: Outcome)
    ensures r.Return?
    decreases |pieces|
  {
    if pieces == [] then Return(p, true) else
    var r := Feed(p, pieces[0], boundary, policy);
    if r.ok then FeedAll(r.p, pieces[1..], boundary, policy) else r
  }

  // ---------------------------------------------------------------- round trip

  /** Entries that can travel: no line is empty, breaks off, or reaches the limit, and
      no content holds the delimiter. */
  ghost predicate Sendable(e: Entry, boundary: Text, policy: Policy) {
    && (forall l :: l in e.lines ==> l != [] && |l| < HEADER_MAX_LENGTH && !Occurs(l, CRLF) && policy.lineOk(l))
    && policy.onHeaders(e.lines)
    && !Occurs(e.content, CrlfDashBoundary(boundary))
  }

  ghost predicate Setting(boundary: Text, policy: Policy) {
    BoundaryCharsValid(boundary) && forall c :: policy.onContent(c)
  }

  /** What follows a delimiter when `todo` are still to come. */
  function AfterBoundary(todo: seq<Entry>, boundary: Text): (r: Text)
    decreases |todo|, 1
  {
    if todo == [] then DASHES + CRLF else CRLF + EntryText(todo, boundary)
  }

  function EntryText(todo: seq<Entry>, boundary: Text): (r: Text)
    requires todo != []
    decreases |todo|, 0
  {
    HeaderBlock(todo[0].lines) + todo[0].content + CrlfDashBoundary(boundary) +
    AfterBoundary(todo[1..], boundary)
  }

  lemma EntryFirst(boundary: Text, block: Text, content: Text, rest: Text)
    ensures DASHES + boundary + CRLF + block + content + CRLF + (DASHES + boundary + rest) ==
            DASHES + boundary + (CRLF + (block + content + CrlfDashBoundary(boundary) + rest))
  {
  }

  lemma {:induction false} SerializeAsEntries(items: seq<Item>, boundary: Text)
    ensures Serialize(items, boundary) ==
            DASHES + boundary + AfterBoundary(ReceivedAll(items), boundary)
  {
    if items == [] {
      assert Finish(boundary) == DASHES + boundary + (DASHES + CRLF);
    } else {
      SerializeAsEntries(items[1..], boundary);
      assert ReceivedAll(items)[1..] == ReceivedAll(items[1..]);
      var block := HeaderBlock(HeaderLines(items[0]));
      EntryFirst(boundary, block, items[0].content, AfterBoundary(ReceivedAll(items[1..]), boundary));
    }
  }

  /** Where the parser is in the text being sent. */
  datatype Stage =
    | AtStart(todo: seq<Entry>)
    | AtEntry(todo: seq<Entry>)
    | InHeaders(rest: seq<Text>, todo: seq<Entry>)
    | InBody(left: Text, todo: seq<Entry>)
    | AtBoundary(todo: seq<Entry>)
    | Closed(tail: Text)

  /** The text still to be read at a stage. */
  function Remaining(s: Stage, boundary: Text): (r: Text)
    requires s.AtStart? || s.AtEntry? || s.InHeaders? ==> s.todo != []
  {
    match s
    case AtStart(todo) => DashBoundaryCrlf(boundary) + EntryText(todo, boundary)
    case AtEntry(todo) => EntryText(todo, boundary)
    case InHeaders(rest, todo) =>
      HeaderBlock(rest) + todo[0].content + CrlfDashBoundary(boundary) + AfterBoundary(todo[1..], boundary)
    case InBody(left, todo) => left + CrlfDashBoundary(boundary) + AfterBoundary(todo, boundary)
    case AtBoundary(todo) => AfterBoundary(todo, boundary)
    case Closed(tail) => tail
  }

  /** Parser and stage agree, and finishing the stage's text would complete `all`. */
  ghost predicate On(p: Parser, s: Stage, all: seq<Entry>, boundary: Text, policy: Policy) {
    && (s.AtStart? || s.AtEntry? || s.InHeaders? ==> s.todo != [])
    && (!s.Closed? ==> forall e :: e in s.todo ==> Sendable(e, boundary, policy))
    && match s
       case AtStart(todo) => p.phase == Initial && p.out + todo == all
       case AtEntry(todo) => p.phase == NewEntry && p.out + todo == all
       case InHeaders(rest, todo) =>
         p.phase == Headers && p.lines + rest == todo[0].lines && p.out + todo == all
       case InBody(left, todo) =>
         && p.phase == Body && p.out != [] && AppendLast(p.out, left) + todo == all
         && !Occurs(left, CrlfDashBoundary(boundary))
       case AtBoundary(todo) => p.phase == Boundary && p.out + todo == all
       case Closed(tail) =>
         && p.out == all && p.valid
         && (p.phase == NewEntry || p.phase == Headers ==> tail == [])
         && (p.phase == Boundary || p.phase == NewEntry)
         && (tail == [] || tail == [LF] || tail == CRLF)
  }

  /** The parser is on course: its buffer and the input to come are the text of its stage. */
  ghost predicate Aligned(p: Parser, fut: Text, s: Stage, all: seq<Entry>, boundary: Text, policy: Policy) {
    On(p, s, all, boundary, policy) && p.buf + fut == Remaining(s, boundary)
  }

  lemma AppendToNew(out: seq<Entry>, e: Entry)
    ensures AppendLast(out + [Entry(e.lines, [])], e.content) == out + [e]
  {
    assert [] + e.content == e.content;
    assert (out + [Entry(e.lines, [])])[..|out|] == out;
  }

  lemma AppendTwice(out: seq<Entry>, a: Text, b: Text)
    ensures AppendLast(AppendLast(out, a), b) == AppendLast(out, a + b)
  {
    if out != [] {
      assert out[|out| - 1].content + a + b == out[|out| - 1].content + (a + b);
    }
  }

  lemma DelimiterShape(boundary: Text)
    requires BoundaryCharsValid(boundary)
    ensures var d := CrlfDashBoundary(boundary); d[0] == CR && CR !in d[1..] && |d| == 4 + |boundary|
  {
    var d := CrlfDashBoundary(boundary);
    assert d[1..] == [LF] + DASHES + boundary;
  }

  /** A header line stands before its CRLF however the text is cut. */
  lemma {:induction false} LineFound(buf: Text, fut: Text, rest: seq<Text>, tail: Text)
    requires buf + fut == HeaderBlock(rest) + tail
    requires rest != [] ==> !Occurs(rest[0], CRLF)
    ensures var k := if rest == [] then 0 else |rest[0]|;
            Find(buf, CRLF) == if k + 2 <= |buf| then k else |buf|
  {
    var line := if rest == [] then [] else rest[0];
    var y := (if rest == [] then [] else HeaderBlock(rest[1..])) + tail;
    assert buf + fut == line + CRLF + y;
    assert CRLF[1..] == [LF];
    FirstAfter(line, CRLF, y);
    FindInPrefix(buf, fut, CRLF, |line|);
  }

  lemma OneMoreEntry(out: seq<Entry>, todo: seq<Entry>)
    requires todo != []
    ensures out + [todo[0]] + todo[1..] == out + todo
  {
  }

  lemma TextAfterHeaders(todo: seq<Entry>, boundary: Text)
    requires todo != []
    ensures Remaining(InHeaders([], todo), boundary) ==
            CRLF + Remaining(InBody(todo[0].content, todo[1..]), boundary)
  {
    var c, d, rest := todo[0].content, CrlfDashBoundary(boundary), AfterBoundary(todo[1..], boundary);
    assert CRLF + c + d + rest == CRLF + (c + d + rest);
  }

  /** The blank line closes the headers of an entry. */
  lemma HeadersEnd(p: Parser, fut: Text, s: Stage, all: seq<Entry>, boundary: Text, policy: Policy)
    returns (t: Stage)
    requires s.InHeaders? && s.rest == [] && Aligned(p, fut, s, all, boundary, policy) && |p.buf| >= 2
    ensures var q := p.(buf := p.buf[2..], phase := Body, out := p.out + [Entry(p.lines, [])]);
            Aligned(q, fut, t, all, boundary, policy)
  {
    var item := s.todo[0];
    assert Sendable(item, boundary, policy);
    assert p.lines == item.lines;
    t := InBody(item.content, s.todo[1..]);
    AppendToNew(p.out, item);
    OneMoreEntry(p.out, s.todo);
    TextAfterHeaders(s.todo, boundary);
    TakeFront(p.buf, fut, CRLF, Remaining(t, boundary));
  }

  /** A complete header line is taken off the front. */
  lemma HeadersNext(p: Parser, fut: Text, s: Stage, all: seq<Entry>, boundary: Text, policy: Policy)
    requires s.InHeaders? && s.rest != [] && Aligned(p, fut, s, all, boundary, policy) && |p.buf| >= |s.rest[0]| + 2
    ensures var pos := |s.rest[0]|;
            var q := p.(buf := p.buf[pos + 2..], lines := p.lines + [s.rest[0]]);
            var t := InHeaders(s.rest[1..], s.todo);
            && p.buf[..pos] == s.rest[0]
            && Aligned(q, fut, t, all, boundary, policy)
  {
    var t := InHeaders(s.rest[1..], s.todo);
    var line := s.rest[0] + CRLF;
    assert Remaining(s, boundary) == line + Remaining(t, boundary);
    TakeFront(p.buf, fut, line, Remaining(t, boundary));
    assert p.buf[..|s.rest[0]|] == line[..|s.rest[0]|];
    assert p.lines + [s.rest[0]] + s.rest[1..] == p.lines + s.rest;
  }

  lemma NextLine(p: Parser, fut: Text, s: Stage, all: seq<Entry>, boundary: Text, policy: Policy)
    requires s.InHeaders? && Aligned(p, fut, s, all, boundary, policy)
    ensures var k := if s.rest == [] then 0 else |s.rest[0]|;
            Find(p.buf, CRLF) == (if k + 2 <= |p.buf| then k else |p.buf|) <= HEADER_MAX_LENGTH
    ensures if s.rest == [] then policy.onHeaders(p.lines) else s.rest[0] != [] && policy.lineOk(s.rest[0])
    ensures fut == [] ==> Find(p.buf, CRLF) < |p.buf|
  {
    var item := s.todo[0];
    var tail := item.content + CrlfDashBoundary(boundary) + AfterBoundary(s.todo[1..], boundary);
    assert Remaining(s, boundary) == HeaderBlock(s.rest) + tail;
    assert Sendable(item, boundary, policy);
    if s.rest == [] {
      assert p.lines == item.lines;
    } else {
      assert (p.lines + s.rest)[|p.lines|] == s.rest[0];
    }
    LineFound(p.buf, fut, s.rest, tail);
  }

  lemma {:induction false} HeaderLoopOn(p: Parser, fut: Text, s: Stage, all: seq<Entry>, boundary: Text, policy: Policy)
    returns (t: Stage)
    requires s.InHeaders? && Aligned(p, fut, s, all, boundary, policy)
    ensures var r := HeaderLoop(p, policy);
            && Aligned(r.p, fut, t, all, boundary, policy)
            && (r.Return? ==> r.ok && fut != [])
    decreases |p.buf|
  {
    NextLine(p, fut, s, all, boundary, policy);
    var pos := Find(p.buf, CRLF);
    if pos == |p.buf| {
      t := s;
    } else if s.rest == [] {
      t := HeadersEnd(p, fut, s, all, boundary, policy);
    } else {
      HeadersNext(p, fut, s, all, boundary, policy);
      var q := p.(buf := p.buf[pos + 2..], lines := p.lines + [s.rest[0]]);
      t := HeaderLoopOn(q, fut, InHeaders(s.rest[1..], s.todo), all, boundary, policy);
    }
  }

  /** A stretch of content that is certain not to reach the delimiter. */
  lemma BodyPart(p: Parser, fut: Text, s: Stage, all: seq<Entry>, boundary: Text, policy: Policy, len: nat)
    requires s.InBody? && Aligned(p, fut, s, all, boundary, policy) && len <= |s.left| && len <= |p.buf|
    ensures var q := p.(out := AppendLast(p.out, p.buf[..len]), buf := p.buf[len..]);
            var t := InBody(s.left[len..], s.todo);
            Aligned(q, fut, t, all, boundary, policy)
  {
    var d := CrlfDashBoundary(boundary);
    OccursInSuffix(s.left, len, d);
    assert s.left + d + AfterBoundary(s.todo, boundary) == s.left + (d + AfterBoundary(s.todo, boundary));
    TakePart(p.buf, fut, s.left, d + AfterBoundary(s.todo, boundary), len);
    assert s.left[len..] + (d + AfterBoundary(s.todo, boundary)) == s.left[len..] + d + AfterBoundary(s.todo, boundary);
    AppendTwice(p.out, s.left[..len], s.left[len..]);
    assert s.left[..len] + s.left[len..] == s.left;
  }

  lemma BodyStepOn(p: Parser, fut: Text, s: Stage, all: seq<Entry>, boundary: Text, policy: Policy)
    returns (t: Stage)
    requires s.InBody? && Aligned(p, fut, s, all, boundary, policy) && Setting(boundary, policy)
    ensures var r := BodyStep(p, boundary, policy);
            && Aligned(r.p, fut, t, all, boundary, policy)
            && (r.Return? ==> r.ok && fut != [])
  {
    var d := CrlfDashBoundary(boundary);
    var after := AfterBoundary(s.todo, boundary);
    DelimiterShape(boundary);
    FirstAfter(s.left, d, after);
    FindInPrefix(p.buf, fut, d, |s.left|);
    if |s.left| + |d| <= |p.buf| {
      t := AtBoundary(s.todo);
      TakeFront(p.buf, fut, s.left + d, after);
      assert p.buf[..|s.left|] == (s.left + d)[..|s.left|];
    } else if |d| < |p.buf| {
      var len := |p.buf| - |d|;
      t := InBody(s.left[len..], s.todo);
      BodyPart(p, fut, s, all, boundary, policy, len);
    } else {
      t := s;
    }
  }

  lemma StartOn(p: Parser, fut: Text, s: Stage, all: seq<Entry>, boundary: Text, policy: Policy)
    returns (t: Stage)
    requires p.buf != [] && s.AtStart? && Aligned(p, fut, s, all, boundary, policy)
    ensures var r := Step(p, boundary, policy);
            && Aligned(r.p, fut, t, all, boundary, policy)
            && (r.Return? ==> r.ok && fut != [])
  {
    var d := DashBoundaryCrlf(boundary);
    assert (d + EntryText(s.todo, boundary))[0..|d|] == d;
    assert First(p.buf + fut, d, 0);
    FindInPrefix(p.buf, fut, d, 0);
    if |d| <= |p.buf| {
      t := AtEntry(s.todo);
      TakeFront(p.buf, fut, d, EntryText(s.todo, boundary));
    } else {
      t := s;
    }
  }

  lemma StepOn(p: Parser, fut: Text, s: Stage, all: seq<Entry>, boundary: Text, policy: Policy)
    returns (t: Stage)
    requires p.buf != [] && Aligned(p, fut, s, all, boundary, policy) && Setting(boundary, policy)
    ensures var r := Step(p, boundary, policy);
            && Aligned(r.p, fut, t, all, boundary, policy)
            && (r.Return? ==> r.ok && (fut == [] ==> t.Closed?))
  {
    match s {
      case AtStart(todo) =>
        t := StartOn(p, fut, s, all, boundary, policy);
      case AtEntry(todo) =>
        t := InHeaders(todo[0].lines, todo);
      case InHeaders(rest, todo) =>
        NextLine(p, fut, s, all, boundary, policy);
        t := HeaderLoopOn(p, fut, s, all, boundary, policy);
      case InBody(left, todo) =>
        t := BodyStepOn(p, fut, s, all, boundary, policy);
      case AtBoundary(todo) =>
        t := BoundaryStepOn(p, fut, s, all, boundary, policy);
      case Closed(tail) =>
        assert p.buf <= tail;
        t := if p.buf == CRLF then Closed(fut) else s;
    }
  }

  lemma BoundaryStepOn(p: Parser, fut: Text, s: Stage, all: seq<Entry>, boundary: Text, policy: Policy)
    returns (t: Stage)
    requires p.buf != [] && s.AtBoundary? && Aligned(p, fut, s, all, boundary, policy)
    ensures var r := BoundaryStep(p);
            && Aligned(r.p, fut, t, all, boundary, policy)
            && (r.Return? ==> r.ok && fut != [])
  {
    if |p.buf| < 2 {
      t := s;
    } else if s.todo == [] {
      t := Closed(fut);
      ClosingMark(p.buf, fut);
    } else {
      t := AtEntry(s.todo);
      TakeFront(p.buf, fut, CRLF, EntryText(s.todo, boundary));
      assert p.buf == p.buf[..2] + p.buf[2..];
    }
  }

  lemma ClosingMark(buf: Text, fut: Text)
    requires buf + fut == DASHES + CRLF && |buf| >= 2
    ensures DASHES <= buf && !(CRLF <= buf) && (fut == [] || fut == [LF] || fut == CRLF)
  {
    var text := buf + fut;
    assert buf[0] == text[0] && buf[1] == text[1];
    assert fut == text[|buf|..] == CRLF[|buf| - 2..];
  }

  lemma {:induction false} LoopOn(p: Parser, fut: Text, s: Stage, all: seq<Entry>, boundary: Text, policy: Policy)
    returns (t: Stage)
    requires Aligned(p, fut, s, all, boundary, policy) && Setting(boundary, policy)
    ensures var r := Loop(p, boundary, policy);
            && Aligned(r.p, fut, t, all, boundary, policy)
            && r.ok && (fut == [] ==> t.Closed?)
    decreases |p.buf|, Rank(p)
  {
    if p.buf == [] {
      t := s;
    } else {
      t := StepOn(p, fut, s, all, boundary, policy);
      var r := Step(p, boundary, policy);
      if r.Continue? {
        t := LoopOn(r.p, fut, t, all, boundary, policy);
      }
    }
  }

  lemma {:induction false} FeedAllOn(p: Parser, pieces: seq<Text>, s: Stage, all: seq<Entry>, boundary: Text,
                                     policy: Policy)
    requires On(p, s, all, boundary, policy) && Setting(boundary, policy)
    requires p.buf + Concat(pieces) == Remaining(s, boundary)
    requires pieces == [] ==> s.Closed?
    ensures var r := FeedAll(p, pieces, boundary, policy); r.ok && r.p.valid && r.p.out == all
    decreases |pieces|
  {
    if pieces != [] {
      var q := p.(buf := p.buf + pieces[0]);
      var fut := Concat(pieces[1..]);
      assert q.buf + fut == p.buf + Concat(pieces);
      var t := LoopOn(q, fut, s, all, boundary, policy);
      if pieces[1..] == [] {
        assert fut == [];
      }
      FeedAllOn(Feed(p, pieces[0], boundary, policy).p, pieces[1..], t, all, boundary, policy);
    }
  }

  lemma {:induction false} EntriesTravel(all: seq<Entry>, boundary: Text, pieces: seq<Text>, policy: Policy)
    requires all != [] && Setting(boundary, policy)
    requires forall e :: e in all ==> Sendable(e, boundary, policy)
    requires Concat(pieces) == DASHES + boundary + AfterBoundary(all, boundary)
    ensures var r := FeedAll(START, pieces, boundary, policy);
            r.ok && r.p.valid && r.p.out == all
  {
    var s := AtStart(all);
    assert Remaining(s, boundary) == DASHES + boundary + AfterBoundary(all, boundary);
    assert START.buf + Concat(pieces) == Concat(pieces);
    FeedAllOn(START, pieces, s, all, boundary, policy);
  }

  /** The round trip: however a serialized body is cut into pieces, the parser ends valid
      and has delivered the same parts, in order, with exactly their contents. */
  lemma {:induction false} RoundTrip(items: seq<Item>, boundary: Text, pieces: seq<Text>, policy: Policy)
    requires items != [] && Setting(boundary, policy)
    requires forall i :: i in items ==> Sendable(Received(i), boundary, policy)
    requires Concat(pieces) == Serialize(items, boundary)
    ensures var r := FeedAll(START, pieces, boundary, policy);
            r.ok && r.p.valid && r.p.out == ReceivedAll(items)
  {
    SerializeAsEntries(items, boundary);
    EntriesTravel(ReceivedAll(items), boundary, pieces, policy);
  }
}
