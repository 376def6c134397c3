/** What the receiver of a form makes of a part's header lines: the name, the file name and the
    type of its content. */
module FormHeaders {
  import opened Basics
  import opened Bytes
  import opened Multipart
  import Hex
  import Query
  import QueryParams

  const SEMICOLON: Byte := 59
  const EQUALS: Byte := 61
  const QUOTE: Byte := 34

  datatype Fields = Fields(name: Text, filename: Text, contentType: Text)

  datatype Param = Param(key: Text, value: Text)

  const NOTHING_READ := Fields([], [], [])

  // ------------------------------------------------------------------- reader

  function Lower(c: Byte): (r: Byte) {
    if 65 <= c <= 90 then c + 32 else c
  }

  /** Letters that differ only in case, and no other octets, are taken for the same. */
  lemma CaseIsIgnored(a: Byte, b: Byte)
    ensures Lower(a) == Lower(b) <==> || a == b || ('A' as int <= a <= 'Z' as int && b == a + 32)
                                      || ('A' as int <= b <= 'Z' as int && a == b + 32)
  {
  }

  predicate StartsIgnoringCase(s: Text, pat: Text) {
    |pat| <= |s| && forall i :: 0 <= i < |pat| ==> Lower(s[i]) == Lower(pat[i])
  }

  function SkipSpace(s: Text): (r: Text) {
    if s != [] && Hex.IsSpace(s[0]) then SkipSpace(s[1..]) else s
  }

  /** What follows `Content-Disposition: form-data;`, where a line is of that form. */
  function DispositionArgs(line: Text): (r: Option<Text>) {
    ArgsAfter(line, Ascii("Content-Disposition:"), Ascii("form-data;"))
  }

  function ArgsAfter(line: Text, field: Text, kind: Text): (r: Option<Text>) {
    if !StartsIgnoringCase(line, field) then None else
    var rest := SkipSpace(line[|field|..]);
    if !StartsIgnoringCase(rest, kind) then None else
    var args := SkipSpace(rest[|kind|..]);
    if CR in args || LF in args then None else Some(args)
  }

  function Unquote(s: Text): (r: Text) {
    if |s| >= 2 && s[0] == QUOTE && s[|s| - 1] == QUOTE then s[1..|s| - 1] else s
  }

  /** A parameter: its key before the first equals sign, its value after the last. */
  function ParamsOf(piece: Text): (r: seq<Param>) {
    ParamOfParts(Query.Pieces(piece, EQUALS))
  }

  function ParamOfParts(parts: seq<Text>): (r: seq<Param>) {
    if parts == [] then [] else
    [Param(Unquote(parts[0]), Unquote(if |parts| > 1 then parts[|parts| - 1] else []))]
  }

  function Params(pieces: seq<Text>): (r: seq<Param>) {
    if pieces == [] then [] else
    var n := |pieces| - 1;
    Params(pieces[..n]) + if pieces[n] in pieces[..n] then [] else ParamsOf(pieces[n])
  }

  function Lookup(ps: seq<Param>, key: Text): (r: Option<Text>) {
    if ps == [] then None else if ps[0].key == key then Some(ps[0].value) else Lookup(ps[1..], key)
  }

  /** What the parameters of a disposition say; without a name the part is refused, and so it is
      with an extended file name in another character set. */
  function ReadParams(f: Fields, ps: seq<Param>, decode: Text -> Text): (r: Option<Fields>) {
    match Lookup(ps, Ascii("name"))
    case None => None
    case Some(name) =>
      var given := Lookup(ps, Ascii("filename"));
      Extended(f.(name := name, filename := if given.Some? then given.value else f.filename),
               Lookup(ps, Ascii("filename*")), decode)
  }

  function Extended(g: Fields, given: Option<Text>, decode: Text -> Text): (r: Option<Fields>) {
    match given
    case None => Some(g)
    case Some(v) =>
      var charset := Ascii("UTF-8''");
      if StartsIgnoringCase(v, charset) && |v| > |charset| then Some(g.(filename := decode(v[|charset|..])))
      else None
  }

  /** One header line; `decode` undoes percent-encoding in an extended file name. */
  function ReadLine(f: Fields, line: Text, decode: Text -> Text): (r: Option<Fields>) {
    var typeField := Ascii("Content-Type:");
    if StartsIgnoringCase(line, typeField) then Some(f.(contentType := Query.Strip(line[|typeField|..])))
    else match DispositionArgs(line)
      case None => Some(f)
      case Some(args) => ReadParams(f, Params(Query.Pieces(args, SEMICOLON)), decode)
  }

  function ReadLines(f: Fields, lines: seq<Text>, decode: Text -> Text): (r: Option<Fields>)
    decreases |lines|
  {
    if lines == [] then Some(f)
    else match ReadLine(f, lines[0], decode)
      case None => None
      case Some(g) => ReadLines(g, lines[1..], decode)
  }

  /** The item that a receiver holds once all of an entry has arrived. */
  function ReadEntry(e: Entry, decode: Text -> Text): (r: Option<Item>) {
    match ReadLines(NOTHING_READ, e.lines, decode)
    case None => None
    case Some(f) => Some(Item(f.name, f.filename, f.contentType, e.content))
  }

  /** An extended file name counts when something follows the character set, in either case, and
      then takes precedence; an earlier file name stays where none is given. */
  lemma {:induction false} ExtendedCounts(g: Fields, charset: Text, t: Text, ps: seq<Param>, decode: Text -> Text)
    requires |charset| == 7 && StartsIgnoringCase(charset, Ascii("UTF-8''"))
    ensures Extended(g, Some(charset + t), decode) == if t == [] then None else Some(g.(filename := decode(t)))
    ensures Lookup(ps, Ascii("filename")) == Lookup(ps, Ascii("filename*")) == None ==>
              var r := ReadParams(g, ps, decode); r.Some? ==> r.value.filename == g.filename
  {
    assert |Ascii("UTF-8''")| == 7;
    assert (charset + t)[7..] == t;
  }

  // -------------------------------------------------------- parameters, as they run

  /** The first i pieces have been read, and `cache` holds them. */
  ghost predicate ReadUpTo(pieces: seq<Text>, i: nat, ps: seq<Param>, cache: set<Text>) {
    Cached(pieces, i, cache) && ps == Params(pieces[..i])
  }

  lemma {:induction false} ReadNext(pieces: seq<Text>, i: nat, ps: seq<Param>, cache: set<Text>)
    requires i < |pieces| && ReadUpTo(pieces, i, ps, cache)
    ensures pieces[i] in cache ==> ReadUpTo(pieces, i + 1, ps, cache)
    ensures pieces[i] !in cache ==> ReadUpTo(pieces, i + 1, ps + ParamsOf(pieces[i]), cache + {pieces[i]})
  {
    assert pieces[..i + 1][..i] == pieces[..i];
    CachedNext(pieces, i, cache);
    assert ps + [] == ps;
  }

  /** The key is the first part, the value the last of the others. */
  method ReadParam(piece: Text) returns (ps: seq<Param>)
    ensures ps == ParamsOf(piece)
  {
    var parts := Query.Split(piece, EQUALS);
    var key, value: Text := [], [];
    for i := 0 to |parts|
      invariant key == (if i > 0 then parts[0] else []) && (i > 0 ==> key != [])
      invariant value == if i > 1 then parts[i - 1] else []
    {
      PieceNotEmpty(piece, EQUALS, i);
      if key == [] {
        key := parts[i];
      } else {
        value := parts[i];
      }
    }
    ps := if parts != [] then [Param(Unquote(key), Unquote(value))] else [];
  }

  method ParseDispositionParams(s: Text) returns (ps: seq<Param>)
    ensures ps == Params(Query.Pieces(s, SEMICOLON))
  {
    ps := [];
    var cache: set<Text> := {};
    var pieces := Query.Split(s, SEMICOLON);
    for i := 0 to |pieces|
      invariant ReadUpTo(pieces, i, ps, cache)
    {
      ReadNext(pieces, i, ps, cache);
      if pieces[i] !in cache {
        cache := cache + {pieces[i]};
        var more := ReadParam(pieces[i]);
        ps := ps + more;
      }
    }
    assert pieces[..|pieces|] == pieces;
  }

  // ------------------------------------------------------------ pieces of a text

  /** A piece is not empty, holds no separator, and is no longer than the text. */
  ghost predicate PieceOf(t: Text, s: Text, d: Byte) {
    t != [] && d !in t && |t| <= |s| && forall c :: c in t ==> c in s
  }

  lemma KeptIsPiece(f: Text, s: Text, d: Byte, t: Text)
    requires t in Query.Kept(f) && d !in f && |f| <= |s| && forall c :: c in f ==> c in s
    ensures PieceOf(t, s, d)
  {
    var l, r := Query.LeftEdge(f, 0), Query.RightEdge(f, |f|);
    assert t == f[l..r];
    assert forall c :: c in t ==> c in f;
  }

  lemma {:induction false} PiecesArePieces(s: Text, d: Byte, t: Text)
    requires t in Query.Pieces(s, d)
    ensures PieceOf(t, s, d)
    decreases |s|
  {
    var k := Query.IndexOf(s, d);
    QueryParams.NotBefore(s, d);
    if k == |s| {
      Query.OneField(s, d);
      assert d !in s;
      KeptIsPiece(s, s, d, t);
    } else {
      Query.FieldsNext(s, k, d);
      assert d !in s[..k];
      if t in Query.Kept(s[..k]) {
        KeptIsPiece(s[..k], s, d, t);
      } else {
        PiecesArePieces(s[k + 1..], d, t);
        assert forall c :: c in s[k + 1..] ==> c in s;
      }
    }
  }

  lemma {:induction false} PieceNotEmpty(s: Text, d: Byte, i: nat)
    requires i < |Query.Pieces(s, d)|
    ensures Query.Pieces(s, d)[i] != []
  {
    PiecesArePieces(s, d, Query.Pieces(s, d)[i]);
  }

  // ------------------------------------------------------------------ literals

  lemma {:induction false} AsciiJoin(a: string, b: string)
    ensures Ascii(a + b) == Ascii(a) + Ascii(b)
  {
  }

  lemma {:induction false} SpaceBetween(a: string, b: string, c: string)
    requires c == a + " " + b
    ensures Ascii(c) == Ascii(a) + [32] + Ascii(b)
  {
    AsciiJoin(a, " ");
    AsciiJoin(a + " ", b);
    assert Ascii(" ") == [32];
  }

  lemma {:induction false} KeyLiteral(key: string, c: string)
    requires c == key + "=\""
    ensures Ascii(c) == Ascii(key) + [EQUALS] + [QUOTE]
  {
    AsciiJoin(key, "=\"");
    assert Ascii("=\"") == [EQUALS] + [QUOTE];
  }

  lemma {:induction false} DispositionLiteral()
    ensures Ascii("Content-Disposition: form-data; name=\"") ==
            Ascii("Content-Disposition:") + [32] + (Ascii("form-data;") + [32] + (Ascii("name") + [EQUALS] + [QUOTE]))
  {
    KeyLiteral("name", "name=\"");
    SpaceBetween("form-data;", "name=\"", "form-data; name=\"");
    SpaceBetween("Content-Disposition:", "form-data; name=\"", "Content-Disposition: form-data; name=\"");
  }

  lemma {:induction false} FilenameLiteral()
    ensures Ascii("; filename=\"") == [SEMICOLON] + ([32] + (Ascii("filename") + [EQUALS] + [QUOTE]))
    ensures Ascii("\"") == [QUOTE] && Ascii("Content-Type: ") == Ascii("Content-Type:") + [32]
  {
    assert Ascii(" ") == [32] && Ascii("=") == [EQUALS] && Ascii("\"") == [QUOTE] && Ascii("; ") == [SEMICOLON, 32];
    AsciiJoin("filename", "=");
    AsciiJoin("filename=", "\"");
    AsciiJoin("; ", "filename=\"");
    AsciiJoin("Content-Type:", " ");
    assert "filename" + "=" == "filename=" && "filename=" + "\"" == "filename=\"";
    assert "; " + "filename=\"" == "; filename=\"";
    assert "Content-Type:" + " " == "Content-Type: ";
  }

  /** A parameter as it is written: key="value". */
  function Written(key: Text, value: Text): (r: Text) {
    key + [EQUALS] + ([QUOTE] + value + [QUOTE])
  }

  /** The parameters of an item's disposition, as they are written. */
  function Args(item: Item): (r: Text) {
    ArgsBy(Ascii("name"), item.name, Ascii("filename"), item.filename)
  }

  function ArgsBy(k: Text, v: Text, l: Text, w: Text): (r: Text) {
    Written(k, v) + if w == [] then [] else [SEMICOLON] + ([32] + Written(l, w))
  }

  lemma Assemble(field: Text, kind: Text, key: Text, n: Text, more: Text)
    ensures field + [32] + (kind + [32] + (key + [EQUALS] + [QUOTE])) + n + [QUOTE] + more ==
            field + [32] + (kind + [32] + (Written(key, n) + more))
  {
  }

  lemma AssembleFile(key: Text, n: Text)
    ensures [SEMICOLON] + ([32] + (key + [EQUALS] + [QUOTE])) + n + [QUOTE] == [SEMICOLON] + ([32] + Written(key, n))
  {
  }

  lemma {:induction false} DispositionIs(item: Item)
    ensures HeaderLines(item)[0] ==
            Ascii("Content-Disposition:") + [32] + (Ascii("form-data;") + [32] + Args(item))
  {
    var field, kind, key := Ascii("Content-Disposition:"), Ascii("form-data;"), Ascii("name");
    DispositionLiteral();
    FilenameLiteral();
    if item.filename == [] {
      Assemble(field, kind, key, item.name, []);
      assert HeaderLines(item)[0] == HeaderLines(item)[0] + [];
    } else {
      var file := Ascii("filename");
      AssembleFile(file, item.filename);
      Assemble(field, kind, key, item.name, [SEMICOLON] + ([32] + Written(file, item.filename)));
      var shown := field + [32] + (kind + [32] + (key + [EQUALS] + [QUOTE])) + item.name + [QUOTE];
      assert shown + Ascii("; filename=\"") + item.filename + [QUOTE] ==
             shown + (Ascii("; filename=\"") + item.filename + [QUOTE]);
    }
  }

  // ------------------------------------------------------------------- reading

  lemma StartsWithIt(a: Text, b: Text)
    ensures StartsIgnoringCase(a + b, a)
  {
  }

  lemma {:induction false} SkipOne(s: Text)
    requires s != [] && !Hex.IsSpace(s[0])
    ensures SkipSpace([32] + s) == s
  {
    assert ([32] + s)[1..] == s && SkipSpace(s) == s;
  }

  lemma AfterIt(a: Text, b: Text)
    ensures (a + b)[|a|..] == b
  {
  }

  /** Nothing that would end a line stands in a text. */
  predicate OneLine(s: Text) {
    CR !in s && LF !in s
  }

  lemma OneLineArgs(item: Item)
    ensures OneLine(Args(item)) <==> OneLine(item.name) && OneLine(item.filename)
  {
    var n, f := Written(Ascii("name"), item.name), Written(Ascii("filename"), item.filename);
    assert OneLine(Ascii("name")) && OneLine(Ascii("filename"));
    assert OneLine(n) <==> OneLine(item.name);
    assert OneLine(f) <==> OneLine(item.filename);
  }

  predicate NotSpaced(s: Text) {
    s != [] && !Hex.IsSpace(s[0])
  }

  lemma {:induction false} ArgsAfterRead(line: Text, field: Text, kind: Text, args: Text)
    requires line == field + [32] + (kind + [32] + args) && NotSpaced(kind) && NotSpaced(args)
    ensures ArgsAfter(line, field, kind) == if OneLine(args) then Some(args) else None
  {
    var rest := kind + ([32] + args);
    assert line == field + ([32] + rest);
    StartsWithIt(field, [32] + rest);
    AfterIt(field, [32] + rest);
    SkipOne(rest);
    StartsWithIt(kind, [32] + args);
    AfterIt(kind, [32] + args);
    SkipOne(args);
  }

  lemma FirstLetters()
    ensures NotSpaced(Ascii("form-data;")) && NotSpaced(Ascii("name"))
    ensures |Ascii("Content-Disposition:")| == 20 && Ascii("Content-Disposition:")[8] == 68
    ensures |Ascii("Content-Type:")| == 13 && Ascii("Content-Type:")[8] == 84
  {
  }

  lemma {:induction false} ArgsRead(item: Item, line: Text)
    requires line == HeaderLines(item)[0]
    ensures !StartsIgnoringCase(line, Ascii("Content-Type:"))
    ensures DispositionArgs(line) ==
            if OneLine(item.name) && OneLine(item.filename) then Some(Args(item)) else None
  {
    FirstLetters();
    DispositionIs(item);
    NamesFirst(item);
    ArgsAfterRead(line, Ascii("Content-Disposition:"), Ascii("form-data;"), Args(item));
    OneLineArgs(item);
    assert line[8] == 68;
  }

  lemma NamesFirst(item: Item)
    ensures NotSpaced(Args(item))
  {
    FirstLetters();
    assert Args(item)[0] == Ascii("name")[0];
  }

  lemma {:induction false} BlankFirst(s: Text)
    ensures Query.Kept([32] + s) == Query.Kept(s) && Query.Strip([32] + s) == Query.Strip(s)
  {
    var t := [32] + s;
    var l, r := Query.LeftEdge(t, 1), Query.RightEdge(t, |t|);
    assert t[1..|t|] == s;
    Query.TrimInPlace(t, s, 1, |t|, l, r);
    assert Query.LeftEdge(t, 0) == l;
    Query.StripIs(t, l, r);
  }

  lemma {:induction false} TypeRead(f: Fields, t: Text, decode: Text -> Text)
    ensures ReadLine(f, Ascii("Content-Type: ") + t, decode) == Some(f.(contentType := Query.Strip(t)))
  {
    var field := Ascii("Content-Type:");
    FilenameLiteral();
    assert Ascii("Content-Type: ") + t == field + ([32] + t);
    StartsWithIt(field, [32] + t);
    AfterIt(field, [32] + t);
    BlankFirst(t);
  }

  // ----------------------------------------------------- what can be read back

  /** A text that no separator of parameters cuts. */
  predicate Uncut(s: Text) {
    SEMICOLON !in s && EQUALS !in s
  }

  /** A key as the serializer writes it. */
  predicate IsKey(key: Text) {
    && key != [] && Uncut(key) && key[0] != QUOTE
    && !Query.Blank(key[0]) && !Query.Blank(key[|key| - 1])
  }

  lemma KeysAre()
    ensures IsKey(Ascii("name")) && IsKey(Ascii("filename"))
    ensures |Ascii("name")| == 4 && |Ascii("filename")| == 8 && |Ascii("filename*")| == 9
    ensures Ascii("name")[0] == 110 && Ascii("filename")[0] == 102
  {
    assert Uncut(Ascii("name")) && Uncut(Ascii("filename"));
  }

  lemma {:induction false} WrittenIsRead(key: Text, value: Text)
    requires IsKey(key) && EQUALS !in value
    ensures ParamsOf(Written(key, value)) == [Param(key, value)]
  {
    var quoted := [QUOTE] + value + [QUOTE];
    KeyAndValue(key, quoted);
    assert quoted[1..|quoted| - 1] == value;
  }

  lemma {:induction false} KeyAndValue(key: Text, quoted: Text)
    requires IsKey(key) && |quoted| >= 2 && quoted[0] == QUOTE == quoted[|quoted| - 1] && EQUALS !in quoted
    ensures Query.Pieces(key + [EQUALS] + quoted, EQUALS) == [key, quoted]
  {
    QueryParams.PiecesJoin(key, quoted, EQUALS);
    QueryParams.OnePiece(key, EQUALS);
    QueryParams.OnePiece(quoted, EQUALS);
  }

  lemma {:induction false} WrittenIsPiece(key: Text, value: Text)
    requires IsKey(key) && SEMICOLON !in value
    ensures Query.Pieces(Written(key, value), SEMICOLON) == [Written(key, value)]
    ensures Query.Pieces([32] + Written(key, value), SEMICOLON) == [Written(key, value)]
  {
    var w := Written(key, value);
    assert w[0] == key[0] && w[|w| - 1] == QUOTE && SEMICOLON !in w;
    QueryParams.OnePiece(w, SEMICOLON);
    QueryParams.IndexOfNone(w, SEMICOLON);
    QueryParams.IndexOfNone([32] + w, SEMICOLON);
    Query.OneField(w, SEMICOLON);
    Query.OneField([32] + w, SEMICOLON);
    BlankFirst(w);
  }

  lemma {:induction false} ParamsOfTwo(a: Text, b: Text)
    requires a != b
    ensures Params([a]) == ParamsOf(a) && Params([a, b]) == ParamsOf(a) + ParamsOf(b)
  {
    assert [a, b][..1] == [a] && [a][..0] == [];
    assert Params([]) == [];
  }

  lemma {:induction false} TwoPieces(k: Text, v: Text, l: Text, w: Text, a: Text, b: Text, args: Text)
    requires IsKey(k) && IsKey(l) && Uncut(v) && Uncut(w) && a == Written(k, v) && b == Written(l, w)
    requires args == a + [SEMICOLON] + ([32] + b)
    ensures Query.Pieces(args, SEMICOLON) == [a, b]
  {
    WrittenIsPiece(k, v);
    WrittenIsPiece(l, w);
    QueryParams.PiecesJoin(a, [32] + b, SEMICOLON);
  }

  lemma {:induction false} TwoParams(k: Text, v: Text, l: Text, w: Text, a: Text, b: Text)
    requires IsKey(k) && IsKey(l) && k[0] != l[0] && Uncut(v) && Uncut(w) && a == Written(k, v) && b == Written(l, w)
    ensures Params([a, b]) == [Param(k, v), Param(l, w)]
  {
    WrittenIsRead(k, v);
    WrittenIsRead(l, w);
    assert a[0] == k[0] && b[0] == l[0];
    ParamsOfTwo(a, b);
  }

  lemma {:induction false} ArgsPieces(k: Text, v: Text, l: Text, w: Text, a: Text, b: Text, args: Text)
    requires IsKey(k) && IsKey(l) && Uncut(v) && Uncut(w) && a == Written(k, v) && b == Written(l, w)
    requires args == ArgsBy(k, v, l, w)
    ensures Query.Pieces(args, SEMICOLON) == if w == [] then [a] else [a, b]
  {
    if w == [] {
      WrittenIsPiece(k, v);
      assert args == a;
    } else {
      assert args == a + [SEMICOLON] + ([32] + b);
      TwoPieces(k, v, l, w, a, b, args);
    }
  }

  /** The parameters of a disposition are read as they were written. */
  lemma {:induction false} ArgsParams(k: Text, v: Text, l: Text, w: Text, pieces: seq<Text>)
    requires IsKey(k) && IsKey(l) && k[0] != l[0] && Uncut(v) && Uncut(w)
    requires pieces == Query.Pieces(ArgsBy(k, v, l, w), SEMICOLON)
    ensures Params(pieces) == [Param(k, v)] + if w == [] then [] else [Param(l, w)]
  {
    var a, b := Written(k, v), Written(l, w);
    ArgsPieces(k, v, l, w, a, b, ArgsBy(k, v, l, w));
    if w == [] {
      WrittenIsRead(k, v);
      ParamsOfTwo(a, a + [QUOTE]);
    } else {
      TwoParams(k, v, l, w, a, b);
    }
  }

  /** Items whose name and file name no separator cuts, and whose type has no blank at its ends. */
  predicate Readable(item: Item) {
    && Uncut(item.name) && OneLine(item.name) && Uncut(item.filename) && OneLine(item.filename)
    && Query.Strip(item.contentType) == item.contentType
  }

  lemma {:induction false} Looked(k: Text, v: Text, l: Text, w: Text, other: Text)
    requires k != l && other != k && other != l
    ensures var ps := [Param(k, v)] + if w == [] then [] else [Param(l, w)];
            && Lookup(ps, k) == Some(v) && Lookup(ps, l) == (if w == [] then None else Some(w))
            && Lookup(ps, other) == None
  {
    var rest: seq<Param> := if w == [] then [] else [Param(l, w)];
    assert ([Param(k, v)] + rest)[1..] == rest;
    if w != [] {
      assert rest[1..] == [];
      assert Lookup(rest, other) == Lookup([], other) == None;
    }
  }

  lemma {:induction false} ParamsRead(ps: seq<Param>, name: Text, filename: Text, decode: Text -> Text)
    requires ps == [Param(Ascii("name"), name)] + if filename == [] then [] else [Param(Ascii("filename"), filename)]
    ensures ReadParams(NOTHING_READ, ps, decode) == Some(Fields(name, filename, []))
  {
    KeysAre();
    Looked(Ascii("name"), name, Ascii("filename"), filename, Ascii("filename*"));
  }

  /** The first line gives the name and the file name. */
  lemma {:induction false} DispositionRead(item: Item, decode: Text -> Text)
    requires Readable(item)
    ensures ReadLine(NOTHING_READ, HeaderLines(item)[0], decode) == Some(Fields(item.name, item.filename, []))
  {
    ArgsRead(item, HeaderLines(item)[0]);
    KeysAre();
    ArgsParams(Ascii("name"), item.name, Ascii("filename"), item.filename, Query.Pieces(Args(item), SEMICOLON));
    ParamsRead(Params(Query.Pieces(Args(item), SEMICOLON)), item.name, item.filename, decode);
  }

  lemma {:induction false} OneOrTwoLines(f: Fields, g: Fields, a: Text, b: seq<Text>, decode: Text -> Text)
    requires ReadLine(f, a, decode) == Some(g) && |b| <= 1
    ensures ReadLines(f, [a] + b, decode) == if b == [] then Some(g) else ReadLine(g, b[0], decode)
  {
    assert ([a] + b)[1..] == b;
    assert ReadLines(f, [a] + b, decode) == ReadLines(g, b, decode);
    if b != [] {
      assert b[1..] == [];
      var r := ReadLine(g, b[0], decode);
      assert r.Some? ==> ReadLines(r.value, [], decode) == r;
    }
  }

  /** The receiver reads name, file name and type off the header lines as they were sent. */
  lemma {:induction false} ItemIsRead(item: Item, decode: Text -> Text)
    requires Readable(item)
    ensures ReadEntry(Received(item), decode) == Some(item)
  {
    var g := Fields(item.name, item.filename, []);
    var more: seq<Text> := if item.contentType == [] then [] else [Ascii("Content-Type: ") + item.contentType];
    DispositionRead(item, decode);
    TypeRead(g, item.contentType, decode);
    OneOrTwoLines(NOTHING_READ, g, HeaderLines(item)[0], more, decode);
    assert HeaderLines(item) == [HeaderLines(item)[0]] + more;
  }

  // ---------------------------------------------------------- what cannot be read

  lemma {:induction false} LookedIn(ps: seq<Param>, key: Text)
    ensures var r := Lookup(ps, key); r.Some? ==> Param(key, r.value) in ps
  {
    if ps != [] && ps[0].key != key {
      LookedIn(ps[1..], key);
    } else if ps != [] {
      assert ps[0] == Param(key, ps[0].value);
    }
  }

  /** A parameter comes from one of the pieces. */
  lemma {:induction false} ParamFrom(pieces: seq<Text>, p: Param) returns (t: Text)
    requires p in Params(pieces)
    ensures t in pieces && p in ParamsOf(t)
  {
    var n := |pieces| - 1;
    if p in Params(pieces[..n]) {
      t := ParamFrom(pieces[..n], p);
    } else {
      t := pieces[n];
    }
  }

  /** A value is cut out of its piece: it holds no separator, and is no longer. */
  lemma {:induction false} ValueOfPiece(t: Text, p: Param)
    requires p in ParamsOf(t) && SEMICOLON !in t
    ensures Uncut(p.value) && |p.value| <= |t|
  {
    var parts := Query.Pieces(t, EQUALS);
    if |parts| > 1 {
      var last := parts[|parts| - 1];
      PiecesArePieces(t, EQUALS, last);
      assert forall c :: c in Unquote(last) ==> c in last;
    }
  }

  lemma {:induction false} ValueFound(args: Text, key: Text, v: Text)
    requires Lookup(Params(Query.Pieces(args, SEMICOLON)), key) == Some(v)
    ensures Uncut(v)
  {
    var pieces := Query.Pieces(args, SEMICOLON);
    LookedIn(Params(pieces), key);
    var t := ParamFrom(pieces, Param(key, v));
    PiecesArePieces(args, SEMICOLON, t);
    ValueOfPiece(t, Param(key, v));
  }

  lemma {:induction false} RightEdgeBeyond(s: Text, b: nat, j: nat)
    requires j < b <= |s| && !Query.Blank(s[j])
    ensures Query.RightEdge(s, b) > j
  {
    if j + 1 < b && Query.Blank(s[b - 1]) {
      RightEdgeBeyond(s, b - 1, j);
    }
  }

  lemma {:induction false} KeyedEdge(key: Text, x: Text, u: Text)
    requires IsKey(key) && u == key + [EQUALS] + ([QUOTE] + x)
    ensures Query.LeftEdge(u, 0) == 0 && Query.RightEdge(u, |u|) > |key| + 1
  {
    assert u[|key| + 1] == QUOTE && u[0] == key[0];
    RightEdgeBeyond(u, |u|, |key| + 1);
  }

  lemma KeyedCut(key: Text, x: Text, u: Text, r: nat)
    requires u == key + [EQUALS] + ([QUOTE] + x) && |key| + 1 < r <= |u|
    ensures u[0..r] == key + [EQUALS] + u[|key| + 1..r]
  {
  }

  /** Blanks at the end of what begins with a key do not reach the key. */
  lemma {:induction false} KeyedIsKept(key: Text, x: Text, u: Text) returns (y: Text)
    requires IsKey(key) && u == key + [EQUALS] + ([QUOTE] + x)
    ensures Query.Kept(u) == [key + [EQUALS] + y]
  {
    var r := Query.RightEdge(u, |u|);
    KeyedEdge(key, x, u);
    Query.StripIs(u, 0, r);
    KeyedCut(key, x, u, r);
    y := u[|key| + 1..r];
  }

  lemma {:induction false} FirstIsKey(key: Text, y: Text, t: Text, p: Param)
    requires IsKey(key) && t == key + [EQUALS] + y && p in ParamsOf(t)
    ensures p.key == key
  {
    QueryParams.PiecesJoin(key, y, EQUALS);
    QueryParams.OnePiece(key, EQUALS);
    assert Query.Pieces(t, EQUALS)[0] == key;
  }

  /** What begins with a key and an equals sign is read under that key. */
  lemma {:induction false} KeyedBy(key: Text, x: Text, u: Text, s: Text, t: Text, p: Param)
    requires IsKey(key) && SEMICOLON !in x && u == key + [EQUALS] + ([QUOTE] + x) && s == [32] + u
    requires t in Query.Pieces(s, SEMICOLON) && p in ParamsOf(t)
    ensures p.key == key
  {
    KeyedPieces(key, x, u, s);
    var y := KeyedIsKept(key, x, u);
    FirstIsKey(key, y, t, p);
  }

  lemma {:induction false} KeyedPieces(key: Text, x: Text, u: Text, s: Text)
    requires IsKey(key) && SEMICOLON !in x && u == key + [EQUALS] + ([QUOTE] + x) && s == [32] + u
    ensures Query.Pieces(s, SEMICOLON) == Query.Kept(u)
  {
    assert SEMICOLON !in s;
    QueryParams.IndexOfNone(s, SEMICOLON);
    Query.OneField(s, SEMICOLON);
    BlankFirst(u);
  }

  lemma JoinedAt(l: Text, w: Text, k: nat)
    requires k < |w| && w[k] == SEMICOLON
    ensures [32] + Written(l, w) ==
            ([32] + (l + [EQUALS] + ([QUOTE] + w[..k]))) + [SEMICOLON] + (w[k + 1..] + [QUOTE])
  {
    assert w == w[..k] + [SEMICOLON] + w[k + 1..];
  }

  lemma Uncutted(l: Text, w: Text)
    ensures [32] + Written(l, w) == [32] + (l + [EQUALS] + ([QUOTE] + (w + [QUOTE])))
  {
  }

  lemma {:induction false} PiecesOfFile(l: Text, w: Text, s: Text, t: Text, p: Param)
    requires IsKey(l) && s == [32] + Written(l, w)
    requires t in Query.Pieces(s, SEMICOLON) && p in ParamsOf(t) && p.key != l
    ensures |t| <= |w|
  {
    var k := Query.IndexOf(w, SEMICOLON);
    QueryParams.NotBefore(w, SEMICOLON);
    if k == |w| {
      Uncutted(l, w);
      KeyedBy(l, w + [QUOTE], l + [EQUALS] + ([QUOTE] + (w + [QUOTE])), s, t, p);
    } else {
      JoinedAt(l, w, k);
      CutFile(l, w[..k], w[k + 1..], s, t, p);
    }
  }

  lemma {:induction false} CutFile(l: Text, a: Text, b: Text, s: Text, t: Text, p: Param)
    requires IsKey(l) && SEMICOLON !in a
    requires s == ([32] + (l + [EQUALS] + ([QUOTE] + a))) + [SEMICOLON] + (b + [QUOTE])
    requires t in Query.Pieces(s, SEMICOLON) && p in ParamsOf(t) && p.key != l
    ensures |t| <= |b| + 1
  {
    var keyed := l + [EQUALS] + ([QUOTE] + a);
    QueryParams.PiecesJoin([32] + keyed, b + [QUOTE], SEMICOLON);
    if t in Query.Pieces(b + [QUOTE], SEMICOLON) {
      PiecesArePieces(b + [QUOTE], SEMICOLON, t);
    } else {
      KeyedBy(l, a, keyed, [32] + keyed, t, p);
    }
  }

  lemma {:induction false} NoOther(k: Text, v: Text, other: Text)
    requires IsKey(k) && other != k && Uncut(v)
    ensures Lookup(Params(Query.Pieces(Written(k, v), SEMICOLON)), other) == None
  {
    WrittenIsPiece(k, v);
    WrittenIsRead(k, v);
    ParamsOfTwo(Written(k, v), Written(k, v) + [QUOTE]);
    assert [Param(k, v)][1..] == [];
  }

  lemma {:induction false} NotTheFirst(k: Text, v: Text, l: Text, w: Text, args: Text, t: Text, p: Param)
    requires IsKey(k) && Uncut(v) && args == Written(k, v) + [SEMICOLON] + ([32] + Written(l, w))
    requires t in Query.Pieces(args, SEMICOLON) && p in ParamsOf(t) && p.key != k
    ensures t in Query.Pieces([32] + Written(l, w), SEMICOLON)
  {
    WrittenIsPiece(k, v);
    WrittenIsRead(k, v);
    QueryParams.PiecesJoin(Written(k, v), [32] + Written(l, w), SEMICOLON);
  }

  lemma {:induction false} PieceRead(args: Text, p: Param) returns (t: Text)
    requires Lookup(Params(Query.Pieces(args, SEMICOLON)), p.key) == Some(p.value)
    ensures t in Query.Pieces(args, SEMICOLON) && p in ParamsOf(t) && |p.value| <= |t|
  {
    LookedIn(Params(Query.Pieces(args, SEMICOLON)), p.key);
    t := ParamFrom(Query.Pieces(args, SEMICOLON), p);
    PiecesArePieces(args, SEMICOLON, t);
    ValueOfPiece(t, p);
  }

  lemma BothWritten(k: Text, v: Text, l: Text, w: Text)
    requires w != []
    ensures ArgsBy(k, v, l, w) == Written(k, v) + [SEMICOLON] + ([32] + Written(l, w))
  {
  }

  /** A parameter under another key than the two that are written can only come out of the second
      value, and is no longer. */
  lemma {:induction false} OtherKey(k: Text, v: Text, l: Text, w: Text, args: Text, other: Text, x: Text)
    requires IsKey(k) && IsKey(l) && other != k && other != l && Uncut(v) && args == ArgsBy(k, v, l, w)
    requires Lookup(Params(Query.Pieces(args, SEMICOLON)), other) == Some(x)
    ensures |x| <= |w|
  {
    if w == [] {
      assert args == Written(k, v);
      NoOther(k, v, other);
    } else {
      var t := PieceRead(args, Param(other, x));
      BothWritten(k, v, l, w);
      NotTheFirst(k, v, l, w, args, t, Param(other, x));
      PiecesOfFile(l, w, [32] + Written(l, w), t, Param(other, x));
    }
  }

  /** An extended file name, where one is read, is shorter than the file name that was sent. */
  lemma {:induction false} ExtendedIsShorter(item: Item, g: Fields, decode: Text -> Text)
    requires (forall t :: |decode(t)| <= |t|) && Uncut(item.name)
    requires ReadParams(NOTHING_READ, Params(Query.Pieces(Args(item), SEMICOLON)), decode) == Some(g)
    ensures Lookup(Params(Query.Pieces(Args(item), SEMICOLON)), Ascii("filename*")).Some? ==>
              |g.filename| < |item.filename|
  {
    var ext := Lookup(Params(Query.Pieces(Args(item), SEMICOLON)), Ascii("filename*"));
    KeysAre();
    if ext.Some? {
      OtherKey(Ascii("name"), item.name, Ascii("filename"), item.filename, Args(item), Ascii("filename*"), ext.value);
      assert |Ascii("UTF-8''")| == 7;
    }
  }

  lemma {:induction false} NamesReadUncut(item: Item, g: Fields, decode: Text -> Text)
    requires forall t :: |decode(t)| <= |t|
    requires ReadParams(NOTHING_READ, Params(Query.Pieces(Args(item), SEMICOLON)), decode) == Some(g)
    requires g.name == item.name && g.filename == item.filename
    ensures Uncut(item.name) && Uncut(item.filename)
  {
    var args := Args(item);
    var given := Lookup(Params(Query.Pieces(args, SEMICOLON)), Ascii("filename"));
    ValueFound(args, Ascii("name"), item.name);
    ExtendedIsShorter(item, g, decode);
    if given.Some? {
      ValueFound(args, Ascii("filename"), given.value);
    }
  }

  lemma TypeStaysOut(ps: seq<Param>, g: Fields, decode: Text -> Text)
    requires ReadParams(NOTHING_READ, ps, decode) == Some(g)
    ensures g.contentType == []
  {
  }

  /** What the first line gives, whatever it gives. */
  lemma {:induction false} FirstLineGives(item: Item, g: Fields, decode: Text -> Text)
    requires forall t :: |decode(t)| <= |t|
    requires ReadLine(NOTHING_READ, HeaderLines(item)[0], decode) == Some(g)
    ensures g.contentType == []
    ensures g.name == item.name && g.filename == item.filename ==>
              Uncut(item.name) && OneLine(item.name) && Uncut(item.filename) && OneLine(item.filename)
  {
    ArgsRead(item, HeaderLines(item)[0]);
    if OneLine(item.name) && OneLine(item.filename) {
      TypeStaysOut(Params(Query.Pieces(Args(item), SEMICOLON)), g, decode);
      if g.name == item.name && g.filename == item.filename {
        NamesReadUncut(item, g, decode);
      }
    }
  }

  lemma {:induction false} OnlyReadable(item: Item, decode: Text -> Text)
    requires (forall t :: |decode(t)| <= |t|) && ReadEntry(Received(item), decode) == Some(item)
    ensures Readable(item)
  {
    var more: seq<Text> := if item.contentType == [] then [] else [Ascii("Content-Type: ") + item.contentType];
    assert HeaderLines(item) == [HeaderLines(item)[0]] + more;
    var g := ReadLine(NOTHING_READ, HeaderLines(item)[0], decode).value;
    OneOrTwoLines(NOTHING_READ, g, HeaderLines(item)[0], more, decode);
    FirstLineGives(item, g, decode);
    TypeRead(g, item.contentType, decode);
  }

  /** The receiver holds the item that was sent if and only if no semicolon, equals sign or line
      end stands in its name or file name, and no blank at the ends of its type. */
  lemma {:induction false} ReadExactly(item: Item, decode: Text -> Text)
    requires forall t :: |decode(t)| <= |t|
    ensures ReadEntry(Received(item), decode) == Some(item) <==> Readable(item)
  {
    if Readable(item) {
      ItemIsRead(item, decode);
    }
    if ReadEntry(Received(item), decode) == Some(item) {
      OnlyReadable(item, decode);
    }
  }

  // ------------------------------------------------------------------ the items

  /** The entries are read as the items that were sent, exactly those that can be read. */
  ghost predicate Arrives(es: seq<Entry>, items: seq<Item>, decode: Text -> Text) {
    && |es| == |items|
    && forall i :: 0 <= i < |items| ==> (ReadEntry(es[i], decode) == Some(items[i]) <==> Readable(items[i]))
  }

  lemma {:induction false} ItemsArrive(items: seq<Item>, decode: Text -> Text)
    requires forall t :: |decode(t)| <= |t|
    ensures Arrives(ReceivedAll(items), items, decode)
  {
    forall i | 0 <= i < |items|
      ensures ReadEntry(ReceivedAll(items)[i], decode) == Some(items[i]) <==> Readable(items[i])
    {
      ReadExactly(items[i], decode);
    }
  }

  /** The round trip of the items themselves: however a serialized form is cut into pieces, the
      receiver reads the items that were sent, with their names, file names, types and contents. */
  lemma {:induction false} FormRoundTrip(items: seq<Item>, boundary: Text, pieces: seq<Text>, policy: Policy,
                                         decode: Text -> Text)
    requires items != [] && Setting(boundary, policy) && forall t :: |decode(t)| <= |t|
    requires forall i :: i in items ==> Sendable(Received(i), boundary, policy)
    requires Concat(pieces) == Serialize(items, boundary)
    ensures var r := FeedAll(START, pieces, boundary, policy);
            r.ok && r.p.valid && Arrives(r.p.out, items, decode)
  {
    RoundTrip(items, boundary, pieces, policy);
    ItemsArrive(items, decode);
  }
}
