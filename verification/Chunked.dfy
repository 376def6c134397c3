/** Chunked transfer coding: the sink that writes chunks, and the decoder that reads them
    back through the buffered socket, whatever sizes the socket and the caller choose. */
module Chunked {
  import opened Basics
  import opened Bytes
  import opened Hex
  import opened Streams

  function Chunk(piece: seq<Byte>): (r: seq<Byte>) {
    Digits(|piece|) + CRLF + piece + CRLF
  }

  /** The body made of some pieces: a chunk each, then the last chunk and what follows it. */
  function Body(pieces: seq<seq<Byte>>, tail: seq<Byte>): (r: seq<Byte>) {
    if pieces == [] then [48] + CRLF + tail else Chunk(pieces[0]) + Body(pieces[1..], tail)
  }

  // --------------------------------------------------------------------- sink

  class ChunkSink {
    var out: seq<Byte>
    var dataAvailable: bool

    constructor ()
      ensures out == [] && dataAvailable
    {
      out, dataAvailable := [], true;
    }

    /** An empty piece writes nothing and ends the provider's loop. */
    method Write(d: seq<Byte>)
      modifies this
      ensures dataAvailable == (d != [])
      ensures out == old(out) + if d == [] then [] else Chunk(d)
    {
      dataAvailable := |d| > 0;
      if d != [] {
        var size := FromIToHex(|d|);
        out := out + (size + CRLF + d + CRLF);
      }
    }

    method Done()
      modifies this
      ensures out == old(out) + Body([], CRLF) && !dataAvailable
    {
      dataAvailable := false;
      out := out + ([48] + CRLF);
      out := out + CRLF;
    }
  }

  /** What was sent, and the chunks of the pieces from i on, make up the whole body. */
  ghost predicate Sending(out: seq<Byte>, pieces: seq<seq<Byte>>, i: nat) {
    i <= |pieces| && out + Body(pieces[i..], CRLF) == Body(pieces, CRLF)
  }

  lemma {:induction false} SendingOn(out: seq<Byte>, pieces: seq<seq<Byte>>, i: nat)
    requires i < |pieces| && Sending(out, pieces, i)
    ensures Sending(out + Chunk(pieces[i]), pieces, i + 1)
  {
    assert pieces[i..][1..] == pieces[i + 1..];
    Regroup(out, Chunk(pieces[i]), Body(pieces[i + 1..], CRLF));
  }

  lemma SendingStarts(pieces: seq<seq<Byte>>)
    ensures Sending([], pieces, 0)
  {
    assert pieces[0..] == pieces && [] + Body(pieces, CRLF) == Body(pieces, CRLF);
  }

  /** A provider that writes its pieces one by one and then reports that it is done. */
  method WriteChunked(pieces: seq<seq<Byte>>) returns (wire: seq<Byte>)
    requires forall p :: p in pieces ==> p != []
    ensures wire == Body(pieces, CRLF)
  {
    var sink := new ChunkSink();
    SendingStarts(pieces);
    for i := 0 to |pieces|
      invariant Sending(sink.out, pieces, i) && fresh(sink)
    {
      SendingOn(sink.out, pieces, i);
      assert pieces[i] in pieces;
      sink.Write(pieces[i]);
    }
    assert pieces[|pieces|..] == [];
    sink.Done();
    wire := sink.out;
  }

  // ------------------------------------------------------------------- lemmas

  function Pow16(k: nat): (p: nat)
    ensures p > 0
  {
    if k == 0 then 1 else 16 * Pow16(k - 1)
  }

  lemma {:induction false} DigitsLength(n: nat, k: nat)
    requires 0 < k && n < Pow16(k)
    ensures |Digits(n)| <= k
  {
    if n >= 16 {
      assert Pow16(1) == 16 * Pow16(0);
      DigitsLength(n / 16, k - 1);
    }
  }

  lemma {:induction false} SizeDigits(n: nat)
    requires n <= ULONG_MAX
    ensures |Digits(n)| <= 16
  {
    assert Pow16(8) == 0x1_0000_0000 by {
      assert Pow16(4) == 0x1_0000;
    }
    assert Pow16(12) == 0x1_0000_0000_0000;
    assert Pow16(16) == 0x1_0000_0000_0000_0000;
    DigitsLength(n, 16);
  }

  lemma NoCrlfInDigits(s: seq<Byte>)
    requires forall i :: 0 <= i < |s| ==> IsHex(s[i])
    ensures !Occurs(s, CRLF)
  {
    forall i: nat
      ensures !At(s, i, CRLF)
    {
      if i + 2 <= |s| {
        assert s[i..i + 2][0] == s[i];
      }
    }
  }

  /** The size line of a chunk is read as the size of the chunk. */
  lemma {:induction false} SizeLine(n: nat, rest: seq<Byte>)
    requires n <= ULONG_MAX
    ensures var s := Digits(n) + CRLF + rest;
            && LineFits(s) && NextLine(s) == Digits(n) + CRLF
            && StrToUL(NextLine(s)) == (n, |Digits(n)|)
  {
    var d := Digits(n);
    var s := d + CRLF + rest;
    NoCrlfInDigits(d);
    assert CRLF[1..] == [LF];
    FirstAfter(d, CRLF, rest);
    FindInPrefix(s, [], CRLF, |d|);
    assert s + [] == s;
    assert s[..|d| + 2] == d + CRLF;
    SizeDigits(n);
    StrToULReadsDigits(n, CRLF);
  }

  lemma EmptyLine(rest: seq<Byte>)
    ensures LineFits(CRLF + rest) && NextLine(CRLF + rest) == CRLF
  {
    var s := CRLF + rest;
    assert s[0..2] == CRLF;
    assert At(s, 0, CRLF);
    FindIsFirst(s, CRLF);
    assert Find(s, CRLF) == 0;
  }

  // ------------------------------------------------------------------ decoder

  /** Pieces that can be sent as chunks. */
  ghost predicate Sendable(pieces: seq<seq<Byte>>) {
    forall i :: 0 <= i < |pieces| ==> 0 < |pieces[i]| < ULONG_MAX
  }

  /** What the decoder has before it: the rest of the chunk it is in, then whole chunks. */
  function Ahead(cur: seq<Byte>, todo: seq<seq<Byte>>, tail: seq<Byte>): (r: seq<Byte>) {
    if cur == [] then Body(todo, tail) else cur + (CRLF + Body(todo, tail))
  }

  class ChunkedDecoder {
    const strm: SocketStream
    const lineBuf: array<Byte>
    var remaining: nat
    var finished: bool
    var lastTotal: nat
    var lastOffset: nat
    // the body being received, when it is a well-formed one
    ghost var cur: seq<Byte>
    ghost var todo: seq<seq<Byte>>
    ghost var tail: seq<Byte>

    ghost predicate Valid()
      reads this, lineBuf, strm, strm.sock, strm.buff
    {
      && strm.Valid() && lineBuf.Length == 64 && lineBuf != strm.buff
      && lastOffset + remaining == lastTotal
      && (finished ==> remaining == 0)
    }

    /** The stream holds a well-formed body, of which the decoder still owes Left(). */
    ghost predicate Serving()
      reads this, lineBuf, strm, strm.sock, strm.buff
    {
      && Valid() && Sendable(todo) && |cur| == remaining
      && (if finished then todo == [] else strm.Rest() == Ahead(cur, todo, tail))
    }

    /** The decoder is inside a chunk, whose blank line is still to come. */
    ghost predicate InChunk()
      reads this, lineBuf, strm, strm.sock, strm.buff
    {
      && Valid() && Sendable(todo) && |cur| == remaining && !finished
      && strm.Rest() == cur + (CRLF + Body(todo, tail))
    }

    ghost function Left(): (r: seq<Byte>)
      reads this
    {
      cur + Concat(todo)
    }

    constructor (strm: SocketStream, ghost pieces: seq<seq<Byte>>, ghost tail: seq<Byte>)
      requires strm.Valid()
      ensures Valid() && this.strm == strm && fresh(lineBuf) && !finished && remaining == 0
      ensures Sendable(pieces) && strm.Rest() == Body(pieces, tail) ==> Serving() && Left() == Concat(pieces)
    {
      this.strm := strm;
      lineBuf := new Byte[64](_ => 0);
      remaining, finished, lastTotal, lastOffset := 0, false, 0, 0;
      cur, todo, this.tail := [], pieces, tail;
    }

    method GetLine() returns (ok: bool, line: seq<Byte>)
      requires Valid()
      modifies lineBuf, strm`off, strm`content, strm.sock`delivered, strm.buff
      ensures Valid()
      ensures ok ==> line == NextLine(old(strm.Rest())) && strm.Rest() == old(strm.Rest())[|line|..]
      ensures !ok ==> strm.sock.faulty || !LineFits(old(strm.Rest()))
    {
      ok, line := FetchLine(strm, lineBuf);
    }

    /** Reads a size line: the size of the chunk to come, 0 for the last chunk, or -1. */
    method ReadSize() returns (n: int)
      requires Valid()
      modifies lineBuf, strm`off, strm`content, strm.sock`delivered, strm.buff
      ensures Valid() && n >= -1 && SizeRead(old(strm.Rest()), n, strm.Rest(), strm.sock.faulty)
    {
      var ok, line := GetLine();
      if !ok {
        return -1;
      }
      var (size, used) := StrToUL(line);
      if used == 0 {
        return -1;
      }
      if size == ULONG_MAX {
        return -1;
      }
      return size;
    }

    /** Enters the next chunk: its size, 0 at the end of the body, or -1. */
    method NextChunk() returns (n: int)
      requires Valid() && remaining == 0 && !finished
      modifies this, lineBuf, strm`off, strm`content, strm.sock`delivered, strm.buff
      ensures Valid() && n >= -1 && (n > 0 ==> remaining == n) && finished == (n == 0)
      ensures old(Serving()) && !strm.sock.faulty ==> n >= 0
      ensures old(Serving()) && n == 0 ==> Serving() && Left() == old(Left()) == []
      ensures old(Serving()) && n > 0 ==> InChunk() && Left() == old(Left())
    {
      ghost var serving, before := Serving(), strm.Rest();
      n := ReadSize();
      SetCounters(n);
      if serving {
        EnterChunk(n, before);
      }
    }

    /** Sets the counters to the size that was read. */
    method SetCounters(n: int)
      requires Valid() && remaining == 0 && !finished && n >= -1
      modifies this`remaining, this`finished, this`lastTotal, this`lastOffset
      ensures Valid() && strm.Rest() == old(strm.Rest())
      ensures remaining == (if n > 0 then n else 0) && finished == (n == 0)
    {
      if n <= 0 {
        finished := n == 0;
      } else {
        remaining := n;
        lastTotal := remaining;
        lastOffset := 0;
      }
    }

    /** What the size that was read means for the body being received. */
    ghost method EnterChunk(n: int, before: seq<Byte>)
      requires Valid() && cur == [] && Sendable(todo) && before == Body(todo, tail)
      requires (n > 0 ==> remaining == n) && finished == (n == 0) && SizeRead(before, n, strm.Rest(), strm.sock.faulty)
      modifies this`cur, this`todo
      ensures Valid() && (n > 0 ==> InChunk()) && (n == 0 ==> Serving())
      ensures (strm.sock.faulty || n >= 0) && (n >= 0 ==> Left() == old(Left())) && (n == 0 ==> Left() == [])
    {
      SizeAnnounced(todo, tail, n, strm.Rest(), strm.sock.faulty);
      if n > 0 {
        cur, todo := todo[0], todo[1..];
      }
    }

    /** Reads octets of the chunk the decoder is in. */
    method ReadPart(len: nat) returns (n: int, data: seq<Byte>)
      requires Valid() && len > 0 && remaining > 0
      modifies this, strm`off, strm`content, strm.sock`delivered, strm.buff
      ensures Valid() && finished == old(finished) && (0 < n == |data| <= len || n == -1)
      ensures n > 0 ==> lastOffset == old(lastOffset) + n && lastTotal == old(lastTotal)
      ensures old(InChunk()) && !strm.sock.faulty ==> n > 0
      ensures old(InChunk()) && n > 0 ==> InChunk() && data + Left() == old(Left())
    {
      ghost var inside, before := InChunk(), strm.Rest();
      var want := if remaining < len then remaining else len;
      n, data := strm.Read(want);
      if n <= 0 {
        n, data := -1, [];
        return;
      }
      lastOffset := lastOffset + n;
      remaining := remaining - n;
      if inside {
        PartAhead(cur, CRLF + Body(todo, tail), before, data, strm.Rest(), Concat(todo));
        cur := cur[n..];
      }
    }

    /** The blank line after the last octet of a chunk. */
    method ReadChunkEnd() returns (ok: bool)
      requires Valid() && remaining == 0 && !finished
      modifies lineBuf, strm`off, strm`content, strm.sock`delivered, strm.buff
      ensures Valid()
      ensures old(InChunk()) && !strm.sock.faulty ==> ok
      ensures old(InChunk()) && ok ==> Serving()
    {
      ghost var inside := InChunk();
      if inside {
        assert strm.Rest() == CRLF + Body(todo, tail);
        EmptyLine(Body(todo, tail));
      }
      var line;
      ok, line := GetLine();
      ok := ok && line == CRLF;
    }

    /** The next octets of the payload, at most `len`: their number, 0 at the end of the
        body, or -1; with the offset of the first one in its chunk and the chunk's size. */
    method ReadPayload(len: nat) returns (n: int, data: seq<Byte>, offset: nat, total: nat)
      requires Valid() && len > 0
      modifies this, lineBuf, strm`off, strm`content, strm.sock`delivered, strm.buff
      ensures Valid() && (n == |data| <= len || n == -1)
      ensures n > 0 ==> offset + n == lastOffset && total == lastTotal
      ensures n == 0 ==> finished
      ensures old(Serving()) && !strm.sock.faulty ==> n >= 0
      ensures old(Serving()) && n >= 0 ==> Serving() && data + Left() == old(Left()) && (n == 0 <==> old(Left()) == [])
    {
      n, data, offset, total := 0, [], 0, 0;
      if finished {
        return;
      }
      ghost var serving, owed := Serving(), Left();
      if remaining == 0 {
        n := NextChunk();
        if n <= 0 {
          return;
        }
      }
      assert serving ==> InChunk() && Left() == owed && cur != [];
      offset := lastOffset;
      n, data := ReadPart(len);
      if n < 0 {
        return;
      }
      total := lastTotal;
      if remaining == 0 {
        var ok := ReadChunkEnd();
        if !ok {
          n := -1;
        }
      }
    }
  }

  /** The size a line announces, or -1 where it is no size. */
  function SizeOf(line: seq<Byte>): (n: int)
    ensures n >= -1
  {
    var (size, used) := StrToUL(line);
    if used == 0 || size == ULONG_MAX then -1 else size
  }

  /** A size is taken exactly when it is less than the largest number that can be read. */
  lemma {:induction false} SizeTaken(n: nat)
    ensures SizeOf(Digits(n) + CRLF) == if n < ULONG_MAX then n else -1
  {
    if n <= ULONG_MAX {
      StrToULReadsDigits(n, CRLF);
    } else {
      SaturatesAbove(n, CRLF);
    }
  }

  /** A size line has been read off `s`, which leaves `rest`; or that has failed. */
  ghost predicate SizeRead(s: seq<Byte>, n: int, rest: seq<Byte>, faulty: bool) {
    if n >= 0 then SizeOf(NextLine(s)) == n && rest == s[|NextLine(s)|..]
    else faulty || !LineFits(s) || SizeOf(NextLine(s)) < 0
  }

  /** What was read is the size of the next piece, or 0 after the last one. */
  lemma {:induction false} SizeAnnounced(todo: seq<seq<Byte>>, tail: seq<Byte>, n: int, rest: seq<Byte>, faulty: bool)
    requires Sendable(todo) && SizeRead(Body(todo, tail), n, rest, faulty)
    ensures n < 0 ==> faulty
    ensures n == 0 ==> todo == []
    ensures n > 0 ==> todo != [] && n == |todo[0]| && rest == todo[0] + (CRLF + Body(todo[1..], tail))
  {
    SizeAhead(todo, tail);
  }

  /** A size line is next, and announces the next piece or the end. */
  lemma {:induction false} SizeAhead(todo: seq<seq<Byte>>, tail: seq<Byte>)
    requires Sendable(todo)
    ensures var s := Body(todo, tail);
            && LineFits(s)
            && SizeOf(NextLine(s)) == (if todo == [] then 0 else |todo[0]|)
            && s[|NextLine(s)|..] == (if todo == [] then tail else todo[0] + (CRLF + Body(todo[1..], tail)))
  {
    var s := Body(todo, tail);
    var n := if todo == [] then 0 else |todo[0]|;
    var rest := if todo == [] then tail else todo[0] + (CRLF + Body(todo[1..], tail));
    assert Digits(0) == [48];
    assert s == Digits(n) + CRLF + rest;
    SizeLine(n, rest);
  }

  /** Octets read inside a chunk are its next ones. */
  lemma PartAhead(cur: seq<Byte>, after: seq<Byte>, before: seq<Byte>, data: seq<Byte>, now: seq<Byte>, more: seq<Byte>)
    requires before == cur + after && before == data + now && |data| <= |cur|
    ensures now == cur[|data|..] + after
    ensures data + (cur[|data|..] + more) == cur + more
  {
    TakePart(before, [], cur, after, |data|);
    assert before + [] == before && before[|data|..] + [] == before[|data|..] == now;
    assert data == before[..|data|] == cur[..|data|];
    assert cur[..|data|] + cur[|data|..] == cur;
  }

  /** Reading a body to its end, with any positive read sizes, within a limit on the payload: on
      a socket that does not fail, exactly the pieces that were written, if and only if they are
      within the limit; otherwise a prefix of them. */
  method ReadContent(dec: ChunkedDecoder, limit: nat, ghost pieces: seq<seq<Byte>>) returns (ok: bool, body: seq<Byte>)
    requires dec.Serving() && dec.Left() == Concat(pieces)
    modifies dec, dec.lineBuf, dec.strm`off, dec.strm`content, dec.strm.sock`delivered, dec.strm.buff
    ensures ok ==> body == Concat(pieces) && dec.finished && |body| <= limit
    ensures body <= Concat(pieces)
    ensures !dec.strm.sock.faulty && |Concat(pieces)| <= limit ==> ok
  {
    body := [];
    while true
      invariant dec.Serving() && body + dec.Left() == Concat(pieces) && |body| <= limit
      decreases |dec.Left()|
    {
      var len: nat :| len > 0;
      var n, data, offset, total := dec.ReadPayload(len);
      if n < 0 {
        return false, body;
      }
      if n == 0 {
        return true, body;
      }
      if limit - |body| < n {
        return false, body;
      }
      Regroup(body, data, dec.Left());
      body := body + data;
    }
  }

  /** A decoder on a fresh connection whose peer sends a well-formed body. */
  method Connect(wire: seq<Byte>, ghost pieces: seq<seq<Byte>>) returns (dec: ChunkedDecoder)
    requires Sendable(pieces) && wire == Body(pieces, CRLF)
    ensures fresh(dec) && fresh(dec.lineBuf) && fresh(dec.strm) && fresh(dec.strm.sock) && fresh(dec.strm.buff)
    ensures dec.Serving() && dec.Left() == Concat(pieces) && !dec.strm.sock.faulty
  {
    var sock := new Socket(wire, false);
    var strm := new SocketStream(sock);
    assert strm.Rest() == wire;
    dec := new ChunkedDecoder(strm, pieces, CRLF);
  }

  /** What is written in chunks is read back, over any socket that does not fail, if and only if
      it is within the limit. */
  method RoundTrip(pieces: seq<seq<Byte>>, limit: nat) returns (ok: bool, body: seq<Byte>)
    requires Sendable(pieces)
    ensures ok <==> |Concat(pieces)| <= limit
    ensures ok ==> body == Concat(pieces)
  {
    var wire := WriteChunked(pieces);
    var dec := Connect(wire, pieces);
    ok, body := ReadContent(dec, limit, pieces);
  }
}
