/** A form on its whole way: written in chunks, delivered by a socket in pieces of any size,
    decoded, and handed to the multipart parser as it arrives. */
module FormUploads {
  import opened Bytes
  import opened Multipart
  import opened FormDataParsers
  import Chunked
  import FormHeaders

  lemma {:induction false} FeedAllSplit(p: Parser, a: seq<Text>, b: seq<Text>, boundary: Text, policy: Policy)
    ensures var r := FeedAll(p, a, boundary, policy);
            FeedAll(p, a + b, boundary, policy) == if r.ok then FeedAll(r.p, b, boundary, policy) else r
    decreases |a|
  {
    if a == [] {
      assert a + b == b;
    } else {
      var r := Feed(p, a[0], boundary, policy);
      assert (a + b)[0] == a[0] && (a + b)[1..] == a[1..] + b;
      if r.ok {
        FeedAllSplit(r.p, a[1..], b, boundary, policy);
      }
    }
  }

  /** One more piece, after others that were all accepted. */
  lemma {:induction false} FeedOneMore(p: Parser, pieces: seq<Text>, piece: Text, boundary: Text, policy: Policy)
    requires FeedAll(p, pieces, boundary, policy).ok
    ensures FeedAll(p, pieces + [piece], boundary, policy) ==
            Feed(FeedAll(p, pieces, boundary, policy).p, piece, boundary, policy)
  {
    FeedAllSplit(p, pieces, [piece], boundary, policy);
    assert [piece][1..] == [];
  }

  lemma {:induction false} ConcatOneMore(pieces: seq<Text>, piece: Text)
    ensures Concat(pieces + [piece]) == Concat(pieces) + piece
  {
    ConcatSplit(pieces, [piece]);
    assert [piece][1..] == [] && Concat([piece]) == piece;
  }

  /** Items that can travel in one form. */
  ghost predicate FormReady(items: seq<Item>, boundary: Text, policy: Policy) {
    && items != [] && Setting(boundary, policy)
    && forall i :: i in items ==> Sendable(Received(i), boundary, policy)
  }

  /** The parser is at `v` after reading `got`, and `left` is the rest of the form. */
  ghost predicate Arrived(v: Parser, got: seq<Text>, left: Text, items: seq<Item>, boundary: Text, policy: Policy) {
    && FormReady(items, boundary, policy)
    && Concat(got) + left == Serialize(items, boundary)
    && FeedAll(START, got, boundary, policy) == Return(v, true)
  }

  lemma {:induction false} NothingYet(items: seq<Item>, boundary: Text, policy: Policy)
    requires FormReady(items, boundary, policy)
    ensures Arrived(START, [], Serialize(items, boundary), items, boundary, policy)
  {
  }

  /** No part of a form is refused as it arrives. */
  lemma NextRead(v: Parser, got: seq<Text>, data: Text, left: Text, items: seq<Item>, boundary: Text, policy: Policy)
    requires Arrived(v, got, data + left, items, boundary, policy)
    ensures var r := Feed(v, data, boundary, policy);
            r.ok && Arrived(r.p, got + [data], left, items, boundary, policy)
  {
    ConcatTwoMore(got, data, left);
    PrefixAccepted(got + [data], left, items, boundary, policy);
    FeedOneMore(START, got, data, boundary, policy);
  }

  lemma {:induction false} ConcatTwoMore(got: seq<Text>, data: Text, left: Text)
    ensures Concat(got + [data]) + left == Concat(got) + (data + left)
  {
    ConcatOneMore(got, data);
    assert Concat(got) + (data + left) == Concat(got) + data + left;
  }

  lemma {:induction false} PrefixAccepted(got: seq<Text>, left: Text, items: seq<Item>, boundary: Text, policy: Policy)
    requires FormReady(items, boundary, policy) && Concat(got) + left == Serialize(items, boundary)
    ensures FeedAll(START, got, boundary, policy).ok
  {
    ConcatOneMore(got, left);
    RoundTrip(items, boundary, got + [left], policy);
    FeedAllSplit(START, got, [left], boundary, policy);
  }

  /** At the end all of the form has been delivered. */
  lemma AllRead(v: Parser, got: seq<Text>, items: seq<Item>, boundary: Text, policy: Policy)
    requires Arrived(v, got, [], items, boundary, policy)
    ensures v.valid && v.out == ReceivedAll(items)
  {
    assert Concat(got) + [] == Concat(got);
    RoundTrip(items, boundary, got, policy);
  }

  /** Decoder and parser in the middle of a form. */
  ghost predicate Midway(dec: Chunked.ChunkedDecoder, parser: FormDataParser, got: seq<Text>, items: seq<Item>)
    reads dec, dec.lineBuf, dec.strm, dec.strm.sock, dec.strm.buff, parser, parser.buf
  {
    && dec.Serving() && parser.Valid() && parser.buf != dec.lineBuf && parser.buf != dec.strm.buff
    && Arrived(parser.View(), got, dec.Left(), items, parser.boundary, parser.policy)
  }

  /** Hands one read to the parser. */
  method Pass(parser: FormDataParser, data: Text, ghost got: seq<Text>, ghost left: Text, ghost items: seq<Item>)
    returns (ok: bool)
    requires parser.Valid()
    requires Arrived(parser.View(), got, data + left, items, parser.boundary, parser.policy)
    modifies parser, parser.buf
    ensures ok && parser.Valid() && (parser.buf == old(parser.buf) || fresh(parser.buf))
    ensures Arrived(parser.View(), got + [data], left, items, parser.boundary, parser.policy)
    ensures |Concat(got + [data])| == |Concat(got)| + |data|
  {
    NextRead(parser.View(), got, data, left, items, parser.boundary, parser.policy);
    ok := parser.Parse(data);
    ConcatOneMore(got, data);
  }

  /** One read of at most `len` octets, passed on if there is `room` for it. */
  method ReadOn(dec: Chunked.ChunkedDecoder, parser: FormDataParser, len: nat, room: nat,
                ghost got: seq<Text>, ghost items: seq<Item>)
    returns (n: int, ghost more: seq<Text>)
    requires Midway(dec, parser, got, items) && len > 0
    modifies parser, parser.buf
    modifies dec, dec.lineBuf, dec.strm`off, dec.strm`content, dec.strm.sock`delivered, dec.strm.buff
    ensures parser.buf == old(parser.buf) || fresh(parser.buf)
    ensures n >= 0 ==> Midway(dec, parser, more, items) && |dec.Left()| + n == |old(dec.Left())|
    ensures 0 <= n <= room || (n == -1 && (dec.strm.sock.faulty || room < |old(dec.Left())|))
    ensures n == 0 ==> dec.Left() == []
  {
    more := got;
    var data, offset, chunk;
    n, data, offset, chunk := dec.ReadPayload(len);
    if n > 0 {
      if room < n {
        return -1, got;
      }
      var ok := Pass(parser, data, got, dec.Left(), items);
      more := got + [data];
    }
  }

  /** Reads a form to its end, with any read sizes, within a limit on the payload. On a socket
      that does not fail it succeeds exactly when the form is within the limit, and then the
      parser is valid and holds the very items that were sent. */
  method ReadForm(dec: Chunked.ChunkedDecoder, parser: FormDataParser, limit: nat, ghost items: seq<Item>,
                  ghost decode: Text -> Text)
    returns (ok: bool)
    requires Midway(dec, parser, [], items) && forall t :: |decode(t)| <= |t|
    modifies parser, parser.buf
    modifies dec, dec.lineBuf, dec.strm`off, dec.strm`content, dec.strm.sock`delivered, dec.strm.buff
    ensures ok ==> parser.valid && parser.out == ReceivedAll(items) && FormHeaders.Arrives(parser.out, items, decode)
    ensures ok ==> |old(dec.Left())| <= limit
    ensures !dec.strm.sock.faulty && |old(dec.Left())| <= limit ==> ok
  {
    ghost var got: seq<Text> := [];
    ghost var form := |dec.Left()|;
    var total, n := 0, 1;
    while n != 0
      invariant Midway(dec, parser, got, items) && (n == 0 ==> dec.Left() == [])
      invariant parser.buf == old(parser.buf) || fresh(parser.buf)
      invariant 0 <= n && total <= limit && total + |dec.Left()| == form
      decreases |dec.Left()|, n
    {
      var len: nat :| len > 0;
      n, got := ReadOn(dec, parser, len, limit - total, got, items);
      if n < 0 {
        return false;
      }
      total := total + n;
    }
    AllRead(parser.View(), got, items, parser.boundary, parser.policy);
    FormHeaders.ItemsArrive(items, decode);
    return true;
  }

  /** The whole way: however a form is cut into chunks, and however the socket delivers them,
      the items that arrive are the items that were sent. */
  method Upload(items: seq<Item>, boundary: Text, policy: Policy, pieces: seq<Text>, limit: nat,
                ghost decode: Text -> Text)
    returns (ok: bool, received: seq<Entry>)
    requires FormReady(items, boundary, policy) && Chunked.Sendable(pieces)
    requires Concat(pieces) == Serialize(items, boundary) && forall t :: |decode(t)| <= |t|
    ensures ok <==> |Serialize(items, boundary)| <= limit
    ensures ok ==> received == ReceivedAll(items) && FormHeaders.Arrives(received, items, decode)
  {
    var wire := Chunked.WriteChunked(pieces);
    var dec := Chunked.Connect(wire, pieces);
    var parser := new FormDataParser(boundary, policy);
    NothingYet(items, boundary, policy);
    ok := ReadForm(dec, parser, limit, items, decode);
    received := parser.out;
  }
}
