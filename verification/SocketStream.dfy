/** Reading from a socket: the buffered stream, and the line reader above it. */
module Streams {
  import opened Bytes

  const READ_BUFF_SIZE := 4096
  const MAX_LINE_LENGTH := 32768

  /** The peer's octets arrive in order, in pieces of any size; a faulty socket may also
      report an error, or time out, at any moment. */
  class Socket {
    const wire: seq<Byte>
    const faulty: bool
    var delivered: nat

    constructor (wire: seq<Byte>, faulty: bool)
      ensures this.wire == wire && this.faulty == faulty && delivered == 0
    {
      this.wire, this.faulty, delivered := wire, faulty, 0;
    }

    method Receive(size: nat) returns (n: int, data: seq<Byte>)
      requires delivered <= |wire| && size > 0
      modifies this`delivered
      ensures old(delivered) <= delivered <= |wire|
      ensures data == wire[old(delivered)..delivered] && |data| <= size
      ensures n == |data| || (n == -1 && data == [] && faulty)
      ensures n == 0 ==> delivered == |wire|
    {
      n, data := 0, [];
      var glitch: bool := *;
      if glitch && faulty {
        n := -1;
      } else if delivered < |wire| {
        var k :| 0 < k <= size && delivered + k <= |wire|;
        n, data := k, wire[delivered..delivered + k];
        delivered := delivered + k;
      }
    }
  }

  /** Cutting a slice in two gives the two slices. */
  lemma CutSlice(s: seq<Byte>, from: nat, upto: nat, k: nat)
    requires from + k <= upto <= |s|
    ensures s[from..upto][..k] == s[from..from + k] && s[from..upto][k..] == s[from + k..upto]
  {
  }

  class SocketStream {
    const sock: Socket
    const buff: array<Byte>
    var off: nat
    var content: nat

    ghost predicate Valid()
      reads this, sock, buff
    {
      && buff.Length == READ_BUFF_SIZE && off <= content <= READ_BUFF_SIZE
      && content - off <= sock.delivered <= |sock.wire|
      && buff[off..content] == sock.wire[sock.delivered - (content - off)..sock.delivered]
    }

    /** How far the reader has got in the peer's octets. */
    ghost function Pos(): (p: nat)
      requires Valid()
      reads this, sock, buff
    {
      sock.delivered - (content - off)
    }

    ghost function Rest(): (r: seq<Byte>)
      requires Valid()
      reads this, sock, buff
    {
      sock.wire[Pos()..]
    }

    constructor (sock: Socket)
      requires sock.delivered <= |sock.wire|
      ensures Valid() && this.sock == sock && fresh(buff) && Pos() == sock.delivered
    {
      this.sock := sock;
      buff := new Byte[READ_BUFF_SIZE](_ => 0);
      off, content := 0, 0;
    }

    /** Serves a read from what is buffered. */
    method FromBuffer(size: nat) returns (n: nat, data: seq<Byte>)
      requires Valid() && off < content
      modifies this`off
      ensures Valid() && old(Pos()) <= Pos()
      ensures data == sock.wire[old(Pos())..Pos()] && n == |data| <= size
      ensures size > 0 ==> n > 0
    {
      n := if size <= content - off then size else content - off;
      data := buff[off..off + n];
      CutSlice(buff[..], off, content, n);
      assert data == buff[..][off..off + n] && buff[off + n..content] == buff[..][off + n..content];
      CutSlice(sock.wire, Pos(), sock.delivered, n);
      assert buff[off..content] == buff[..][off..content];
      off := off + n;
    }

    /** Fills the empty buffer, and serves a read that is smaller than it. */
    method Refill(size: nat) returns (n: int, data: seq<Byte>)
      requires Valid() && off == content == 0 && size < READ_BUFF_SIZE
      modifies this`off, this`content, sock`delivered, buff
      ensures Valid() && old(Pos()) <= Pos()
      ensures data == sock.wire[old(Pos())..Pos()] && |data| <= size
      ensures n == |data| || (n == -1 && data == [] && sock.faulty)
      ensures n == 0 && size > 0 ==> Pos() == |sock.wire|
    {
      var got;
      n, got := sock.Receive(READ_BUFF_SIZE);
      if n <= 0 {
        return n, [];
      }
      forall i | 0 <= i < n {
        buff[i] := got[i];
      }
      if n <= size {
        assert buff[0..0] == sock.wire[sock.delivered..sock.delivered];
        return n, got;
      }
      off, content := size, n;
      assert buff[off..content] == got[size..];
      CutSlice(sock.wire, old(sock.delivered), sock.delivered, size);
      return size, got[..size];
    }

    /** The next octets in order, at most `size`, none lost and none repeated; 0 for a
        positive size means that the peer has closed. */
    method Read(size: nat) returns (n: int, data: seq<Byte>)
      requires Valid()
      modifies this`off, this`content, sock`delivered, buff
      ensures Valid() && old(Pos()) <= Pos()
      ensures data == sock.wire[old(Pos())..Pos()] && |data| <= size
      ensures n == |data| || (n == -1 && data == [] && sock.faulty)
      ensures n == 0 && size > 0 ==> Pos() == |sock.wire|
    {
      if off < content {
        n, data := FromBuffer(size);
        return;
      }
      var glitch: bool := *;
      if glitch && sock.faulty {
        return -1, [];
      }
      off, content := 0, 0;
      if size < READ_BUFF_SIZE {
        n, data := Refill(size);
      } else {
        n, data := sock.Receive(size);
      }
    }

    method ReadByte() returns (n: int, c: Byte)
      requires Valid()
      modifies this`off, this`content, sock`delivered, buff
      ensures Valid() && -1 <= n <= 1
      ensures n == 1 ==> Pos() == old(Pos()) + 1 && c == sock.wire[old(Pos())]
      ensures n <= 0 ==> Pos() == old(Pos())
      ensures n == 0 ==> Pos() == |sock.wire|
      ensures n < 0 ==> sock.faulty
    {
      var data;
      n, data := Read(1);
      c := if n == 1 then data[0] else 0;
    }
  }

  // ------------------------------------------------------------- line reader

  /** No line end lies within the first `i` octets. */
  ghost predicate Unbroken(s: seq<Byte>, i: nat) {
    forall j: nat :: j + 2 <= i ==> !At(s, j, CRLF)
  }

  /** The next line of some text: up to and including the first CRLF, or all of it. */
  function NextLine(s: seq<Byte>): (line: seq<Byte>)
    ensures line <= s
  {
    var k := Find(s, CRLF);
    if k < |s| then s[..k + 2] else s
  }

  /** A line is the shortest piece of the text that ends in CRLF. */
  lemma LineIsShortest(s: seq<Byte>, n: nat)
    requires 2 <= n <= |s| && s[n - 2..n] == CRLF
    ensures |NextLine(s)| <= n
    ensures var k := |NextLine(s)|; 2 <= k && s[k - 2..k] == CRLF
  {
    FindIsFirst(s, CRLF);
    assert At(s, n - 2, CRLF);
  }

  /** The lines that fit: the limit is tested before each octet is read. */
  predicate LineFits(s: seq<Byte>) {
    var line := NextLine(s);
    0 < |line| <= MAX_LINE_LENGTH && (Find(s, CRLF) == |s| ==> |s| < MAX_LINE_LENGTH)
  }

  /** How reading a line may end after `i` octets of `s`. */
  ghost predicate Outcome(s: seq<Byte>, i: nat, ok: bool, faulty: bool) {
    if ok then LineFits(s) && i <= |s| && NextLine(s) == s[..i] else faulty || !LineFits(s)
  }

  /** The first CRLF completes the line. */
  lemma LineComplete(s: seq<Byte>, n: nat, faulty: bool)
    requires 2 <= n <= |s| && At(s, n - 2, CRLF) && Unbroken(s, n - 1) && n <= MAX_LINE_LENGTH
    ensures Outcome(s, n, true, faulty)
  {
    FindIsFirst(s, CRLF);
    assert Find(s, CRLF) == n - 2;
  }

  lemma TooLong(s: seq<Byte>, i: nat, faulty: bool)
    requires MAX_LINE_LENGTH <= i <= |s| && Unbroken(s, i)
    ensures Outcome(s, i, false, faulty)
  {
    FindIsFirst(s, CRLF);
  }

  lemma NoLineEnd(s: seq<Byte>, faulty: bool)
    requires Unbroken(s, |s|) && |s| < MAX_LINE_LENGTH
    ensures Outcome(s, |s|, s != [], faulty)
  {
    FindIsFirst(s, CRLF);
    assert s[..|s|] == s;
  }

  class LineReader {
    const strm: SocketStream
    const fixedBuffer: array<Byte>
    var used: nat
    var growable: seq<Byte>

    ghost predicate Valid()
      reads this, fixedBuffer
    {
      && used < fixedBuffer.Length && 1 < fixedBuffer.Length
      && (growable != [] ==> used == fixedBuffer.Length - 1)
      && (used > 0 ==> fixedBuffer[used] == 0)
    }

    ghost predicate Apart()
      reads this, strm
    {
      fixedBuffer != strm.buff
    }

    /** The line held, whichever buffer holds it. */
    ghost function Line(): (s: seq<Byte>)
      requires Valid()
      reads this, fixedBuffer
    {
      if growable == [] then fixedBuffer[..used] else growable
    }

    constructor (strm: SocketStream, fixedBuffer: array<Byte>)
      requires 1 < fixedBuffer.Length
      ensures this.strm == strm && this.fixedBuffer == fixedBuffer && Valid() && Line() == []
    {
      this.strm, this.fixedBuffer := strm, fixedBuffer;
      used, growable := 0, [];
    }

    method Size() returns (n: nat)
      requires Valid()
      ensures n == |Line()|
    {
      n := if growable == [] then used else |growable|;
    }

    method Get() returns (s: seq<Byte>)
      requires Valid()
      ensures s == Line()
    {
      s := if growable == [] then fixedBuffer[..used] else growable;
    }

    method Append(c: Byte)
      requires Valid()
      modifies this`used, this`growable, fixedBuffer
      ensures Valid() && Line() == old(Line()) + [c]
    {
      if used < fixedBuffer.Length - 1 {
        fixedBuffer[used] := c;
        used := used + 1;
        fixedBuffer[used] := 0;
      } else {
        if growable == [] {
          assert fixedBuffer[used] == 0;
          growable := fixedBuffer[..used];
        }
        growable := growable + [c];
      }
    }

    /** The first `i` octets of `rest`, which began at `start`, have been read into the line. */
    ghost predicate Reading(rest: seq<Byte>, start: nat, i: nat)
      reads this, fixedBuffer, strm, strm.sock, strm.buff
    {
      && Valid() && strm.Valid() && Apart()
      && start <= |strm.sock.wire| && rest == strm.sock.wire[start..]
      && i <= |rest| && strm.Pos() == start + i && Line() == rest[..i]
    }

    method Take(ghost rest: seq<Byte>, ghost start: nat, ghost i: nat) returns (n: int, c: Byte)
      requires Reading(rest, start, i)
      modifies this`used, this`growable, fixedBuffer, strm`off, strm`content, strm.sock`delivered, strm.buff
      ensures -1 <= n <= 1
      ensures n == 1 ==> i < |rest| && c == rest[i] && Reading(rest, start, i + 1)
      ensures n <= 0 ==> Reading(rest, start, i)
      ensures n == 0 ==> i == |rest|
      ensures n < 0 ==> strm.sock.faulty
    {
      n, c := strm.ReadByte();
      if n == 1 {
        assert rest[..i + 1] == rest[..i] + [rest[i]];
        Append(c);
      }
    }

    /** The loop of GetLine; `i` counts the octets read. */
    method ReadLine(ghost rest: seq<Byte>, ghost start: nat) returns (ok: bool, i: nat)
      requires Reading(rest, start, 0)
      modifies this`used, this`growable, fixedBuffer, strm`off, strm`content, strm.sock`delivered, strm.buff
      ensures Reading(rest, start, i) && Outcome(rest, i, ok, strm.sock.faulty)
    {
      var prev: Byte := 0;
      i := 0;
      while true
        invariant Reading(rest, start, i)
        invariant prev == if i > 0 then rest[i - 1] else 0
        invariant Unbroken(rest, i)
        decreases |rest| - i
      {
        var size := Size();
        if size >= MAX_LINE_LENGTH {
          TooLong(rest, i, strm.sock.faulty);
          return false, i;
        }
        var n, c := Take(rest, start, i);
        if n < 0 {
          return false, i;
        } else if n == 0 {
          NoLineEnd(rest, strm.sock.faulty);
          return i != 0, i;
        }
        OneMore(rest, i);
        i := i + 1;
        if prev == CR && c == LF {
          LineComplete(rest, i, strm.sock.faulty);
          return true, i;
        }
        prev := c;
      }
    }

    /** Reads the next line, octet by octet; it fails at the end of the input, on a line
        over the limit, and when the stream fails. */
    method GetLine() returns (ok: bool)
      requires Valid() && strm.Valid() && Apart()
      modifies this`used, this`growable, fixedBuffer, strm`off, strm`content, strm.sock`delivered, strm.buff
      ensures Valid() && strm.Valid() && |Line()| <= |old(strm.Rest())|
      ensures ok ==> LineFits(old(strm.Rest())) && Line() == NextLine(old(strm.Rest()))
      ensures strm.Rest() == old(strm.Rest())[|Line()|..]
      ensures !ok ==> strm.sock.faulty || !LineFits(old(strm.Rest()))
    {
      used, growable := 0, [];
      var i;
      ghost var start := strm.Pos();
      ok, i := ReadLine(strm.Rest(), start);
      RestAfter(strm.sock.wire, start, i);
    }
  }

  lemma RestAfter(wire: seq<Byte>, pos: nat, k: nat)
    requires pos + k <= |wire|
    ensures wire[pos + k..] == wire[pos..][k..]
  {
  }

  /** Reads one line through a line reader of its own on a given fixed buffer. */
  method FetchLine(strm: SocketStream, buf: array<Byte>) returns (ok: bool, line: seq<Byte>)
    requires strm.Valid() && 1 < buf.Length && buf != strm.buff
    modifies buf, strm`off, strm`content, strm.sock`delivered, strm.buff
    ensures strm.Valid()
    ensures ok ==> line == NextLine(old(strm.Rest())) && strm.Rest() == old(strm.Rest())[|line|..]
    ensures !ok ==> strm.sock.faulty || !LineFits(old(strm.Rest()))
  {
    var lr := new LineReader(strm, buf);
    ok := lr.GetLine();
    line := lr.Get();
  }

  lemma OneMore(s: seq<Byte>, i: nat)
    requires i < |s|
    ensures s[..i + 1] == s[..i] + [s[i]]
    ensures if i > 0 && s[i - 1] == CR && s[i] == LF then At(s, i - 1, CRLF)
            else Unbroken(s, i) ==> Unbroken(s, i + 1)
  {
    if i > 0 {
      assert s[i - 1..i + 1] == [s[i - 1], s[i]];
    }
  }
}
