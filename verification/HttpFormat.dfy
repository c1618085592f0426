// The request and response format read off HTTPMessage.cpp: what fromString
// accepts, as a parser on values, and the grammar it turns out to implement.
module HttpFormat {
  import opened Wrappers
  import opened Text

  const CONTENT_LENGTH := "Content-Length"
  const CONNECTION := "Connection"
  const CRLF := ['\r', '\n']

  type Headers = map<string, string>
  datatype Field = Field(name: string, info: string)
  datatype Request = Request(verb: string, target: string, version: string, headers: Headers, body: string)

  /** What fromString leaves in the object, and whether it returned normally. */
  datatype Parsed = Parsed(message: Request, ok: bool)

  /** A freshly constructed HTTPRequest. */
  const EMPTY := Request("", "", "", map[], "")

  // ---------------------------------------------------------------- printing

  function RenderFields(fields: seq<Field>): string {
    if fields == [] then ""
    else FieldLine(fields[0]) + CRLF + RenderFields(fields[1..])
  }

  function FieldLine(f: Field): string {
    f.name + ": " + f.info
  }

  ghost function FieldsOf(h: Headers, keys: seq<string>): (r: seq<Field>)
    requires forall k | k in keys :: k in h
    ensures |r| == |keys|
    ensures forall i | 0 <= i < |r| :: r[i] == Field(keys[i], h[keys[i]])
  {
    if keys == [] then [] else [Field(keys[0], h[keys[0]])] + FieldsOf(h, keys[1..])
  }

  /** The entries of the std::map in traversal order. */
  ghost function Entries(h: Headers): seq<Field> {
    FieldsOf(h, SortedKeys(h.Keys))
  }

  /** toString first inserts the length of a non-empty body if none is given. */
  function WithLength(h: Headers, body: string): Headers {
    if CONTENT_LENGTH !in h && body != "" then h[CONTENT_LENGTH := Decimal(|body|)] else h
  }

  function Completed(m: Request): Request {
    m.(headers := WithLength(m.headers, m.body))
  }

  /** The parts toString writes, in order. */
  ghost function Parts(m: Request): Raw {
    Raw(m.verb, m.target, "HTTP", m.version, Entries(Completed(m).headers), m.body)
  }

  ghost function Print(m: Request): string {
    Render(Parts(m))
  }

  // ---------------------------------------------------------------- parsing

  function AddAll(h: Headers, fields: seq<Field>): Headers
    decreases |fields|
  {
    if fields == [] then h else AddAll(h[fields[0].name := fields[0].info], fields[1..])
  }

  /** Header lines read from begin on; next is where the body starts, if ok. */
  datatype Lines = Lines(fields: seq<Field>, next: nat, ok: bool)

  function ReadLines(s: string, begin: nat): (r: Lines)
    requires begin <= |s|
    ensures r.ok ==> begin + 2 <= r.next <= |s|
    decreases |s| - begin
  {
    match FindPair(s, '\r', '\n', begin)
    case None => Lines([], begin, false)
    case Some(end) =>
      var line := s[begin..end];
      if line == "" then Lines([], begin + 2, true)
      else
        match FindPair(line, ':', ' ', 0)
        case None => Lines([], begin, false)
        case Some(p) =>
          var rest := ReadLines(s, end + 2);
          Lines([Field(line[..p], line[p + 2..])] + rest.fields, rest.next, rest.ok)
  }

  /** How far the request line was understood. */
  datatype Start =
    | NoMethod
    | NoTarget(verb: string)
    | NoVersion(verb: string, target: string)
    | Start(verb: string, target: string, protocol: string, version: string)

  function ReadStart(line: string): Start {
    match FindChar(line, ' ', 0)
    case None => NoMethod
    case Some(a) =>
      match FindChar(line, ' ', a + 1)
      case None => NoTarget(line[..a])
      case Some(b) =>
        match FindChar(line, '/', b + 1)
        case None => NoVersion(line[..a], line[a + 1..b])
        case Some(c) => Start(line[..a], line[a + 1..b], line[b + 1..c], line[c + 1..])
  }

  /** The fields that the understood part of the request line sets. */
  function WithStart(m: Request, start: Start): Request {
    match start
    case NoMethod => m
    case NoTarget(verb) => m.(verb := verb)
    case NoVersion(verb, target) => m.(verb := verb, target := target)
    case Start(verb, target, _, version) => m.(verb := verb, target := target, version := version)
  }

  predicate BodyFits(h: Headers, rest: string) {
    CONTENT_LENGTH in h ==> ScanSize(h[CONTENT_LENGTH]) == |rest|
  }

  /** Without a Content-Length the old body stays and trailing bytes are dropped. */
  function BodyRead(h: Headers, oldBody: string, rest: string): string {
    if CONTENT_LENGTH in h then rest else oldBody
  }

  /** HTTPRequest::fromString on an object holding m; failures leave the fields read so far. */
  function Parse(m: Request, s: string): Parsed {
    match FindPair(s, '\r', '\n', 0)
    case None => Parsed(m, false)
    case Some(e) =>
      var start := ReadStart(s[..e]);
      if start.Start? then ParseRest(WithStart(m, start), s, e + 2)
      else Parsed(WithStart(m, start), false)
  }

  /** The header lines and the body. */
  function ParseRest(m: Request, s: string, begin: nat): Parsed
    requires begin <= |s|
  {
    var lines := ReadLines(s, begin);
    var read := m.(headers := AddAll(m.headers, lines.fields));
    if !lines.ok || !BodyFits(read.headers, s[lines.next..]) then Parsed(read, false)
    else Parsed(read.(body := BodyRead(read.headers, m.body, s[lines.next..])), true)
  }

  // ---------------------------------------------------------------- grammar

  /** A request text cut into its parts. */
  datatype Raw = Raw(verb: string, target: string, protocol: string, version: string,
                     fields: seq<Field>, rest: string)

  function StartLine(d: Raw): string {
    d.verb + " " + (d.target + " " + (d.protocol + "/" + d.version))
  }

  function Head(d: Raw): string {
    StartLine(d) + CRLF + (RenderFields(d.fields) + CRLF)
  }

  function Render(d: Raw): string {
    Head(d) + d.rest
  }

  ghost predicate GoodField(f: Field) {
    NoPair(f.name, '\r', '\n') && NoPair(f.info, '\r', '\n') && NoPair(f.name, ':', ' ')
  }

  ghost predicate GoodFields(fields: seq<Field>) {
    forall f | f in fields :: GoodField(f)
  }

  ghost predicate GoodStart(d: Raw) {
    && ' ' !in d.verb && ' ' !in d.target && '/' !in d.protocol
    && NoPair(d.verb, '\r', '\n') && NoPair(d.target, '\r', '\n')
    && NoPair(d.protocol, '\r', '\n') && NoPair(d.version, '\r', '\n')
  }

  /** The language: any parts free of their own separators. */
  ghost predicate Grammar(d: Raw) {
    GoodStart(d) && GoodFields(d.fields)
  }

  /** The parts that fromString cuts s into, if it gets to the body. */
  function Decompose(s: string): Option<Raw> {
    match FindPair(s, '\r', '\n', 0)
    case None => None
    case Some(e) =>
      var start := ReadStart(s[..e]);
      if !start.Start? then None
      else
        var lines := ReadLines(s, e + 2);
        if !lines.ok then None
        else Some(Raw(start.verb, start.target, start.protocol, start.version, lines.fields, s[lines.next..]))
  }

  /** The message those parts make when read into an object holding m. */
  function Build(m: Request, d: Raw): Request {
    var h := AddAll(m.headers, d.fields);
    Request(d.verb, d.target, d.version, h, BodyRead(h, m.body, d.rest))
  }

  ghost predicate Accepts(m: Request, d: Raw) {
    Grammar(d) && BodyFits(AddAll(m.headers, d.fields), d.rest)
  }

  lemma ParseByParts(m: Request, s: string)
    ensures Parse(m, s).ok <==>
            Decompose(s).Some? && BodyFits(AddAll(m.headers, Decompose(s).value.fields), Decompose(s).value.rest)
    ensures Parse(m, s).ok ==> Parse(m, s).message == Build(m, Decompose(s).value)
  {}

  // ------------------------------------------------ the parser is sound

  lemma SliceHasNoPair(s: string, a: char, b: char, from: nat)
    requires FindPair(s, a, b, from).Some?
    ensures NoPair(s[from..FindPair(s, a, b, from).value], a, b)
  {
    var e := FindPair(s, a, b, from).value;
    FindPairFirst(s, a, b, from);
    forall i: nat ensures !PairAt(s[from..e], a, b, i) {
      assert from + i < e ==> !PairAt(s, a, b, from + i);
    }
  }

  /** A slice of a text without the pattern does not have it either. */
  lemma NoPairSlice(s: string, a: char, b: char, lo: nat, hi: nat)
    requires NoPair(s, a, b) && lo <= hi <= |s|
    ensures NoPair(s[lo..hi], a, b)
  {
    forall i: nat ensures !PairAt(s[lo..hi], a, b, i) {
      assert !PairAt(s, a, b, lo + i);
    }
  }

  lemma FieldSound(line: string)
    requires NoPair(line, '\r', '\n') && FindPair(line, ':', ' ', 0).Some?
    ensures var p := FindPair(line, ':', ' ', 0).value;
            GoodField(Field(line[..p], line[p + 2..])) && line == FieldLine(Field(line[..p], line[p + 2..]))
  {
    var p := FindPair(line, ':', ' ', 0).value;
    SliceHasNoPair(line, ':', ' ', 0);
    assert line[0..p] == line[..p];
    NoPairSlice(line, '\r', '\n', 0, p);
    NoPairSlice(line, '\r', '\n', p + 2, |line|);
    assert line[p + 2..|line|] == line[p + 2..];
    CutPairAt(line, 0, p);
  }

  /** One round of the header loop. */
  lemma ReadLinesRound(s: string, begin: nat, end: nat, p: nat)
    requires begin < end && FindPair(s, '\r', '\n', begin) == Some(end)
    requires FindPair(s[begin..end], ':', ' ', 0) == Some(p)
    ensures var rest := ReadLines(s, end + 2);
            var f := Field(s[begin..end][..p], s[begin..end][p + 2..]);
            ReadLines(s, begin) == Lines([f] + rest.fields, rest.next, rest.ok)
  {}

  /** The lines read are the text from begin to the body. */
  ghost predicate Covers(s: string, begin: nat, r: Lines)
    requires begin <= |s|
  {
    r.next <= |s| && GoodFields(r.fields) && s[begin..] == RenderFields(r.fields) + CRLF + s[r.next..]
  }

  lemma CoversRound(s: string, begin: nat, end: nat, p: nat, rest: Lines)
    requires FindPair(s, '\r', '\n', begin) == Some(end) && begin < end
    requires FindPair(s[begin..end], ':', ' ', 0) == Some(p)
    requires Covers(s, end + 2, rest)
    ensures var f := Field(s[begin..end][..p], s[begin..end][p + 2..]);
            Covers(s, begin, Lines([f] + rest.fields, rest.next, rest.ok))
  {
    var line := s[begin..end];
    CutPairAt(s, begin, end);
    SliceHasNoPair(s, '\r', '\n', begin);
    FieldSound(line);
    RenderOneMore(Field(line[..p], line[p + 2..]), rest.fields, s[rest.next..]);
  }

  lemma CoversBlank(s: string, begin: nat)
    requires FindPair(s, '\r', '\n', begin) == Some(begin)
    ensures Covers(s, begin, Lines([], begin + 2, true))
  {
    CutPairAt(s, begin, begin);
  }

  lemma {:induction false} ReadLinesSound(s: string, begin: nat)
    requires begin <= |s| && ReadLines(s, begin).ok
    ensures Covers(s, begin, ReadLines(s, begin))
    decreases |s| - begin
  {
    var end := FindPair(s, '\r', '\n', begin).value;
    if begin < end {
      var p := FindPair(s[begin..end], ':', ' ', 0).value;
      ReadLinesRound(s, begin, end, p);
      ReadLinesSound(s, end + 2);
      CoversRound(s, begin, end, p, ReadLines(s, end + 2));
    } else {
      CoversBlank(s, begin);
    }
  }

  lemma RenderOneMore(f: Field, fields: seq<Field>, rest: string)
    ensures RenderFields([f] + fields) + CRLF + rest == FieldLine(f) + CRLF + (RenderFields(fields) + CRLF + rest)
  {
    assert ([f] + fields)[1..] == fields;
  }

  lemma ReadStartCuts(line: string, d: Raw)
    requires ReadStart(line) == Start(d.verb, d.target, d.protocol, d.version)
    ensures StartLine(d) == line
  {
    var a := FindChar(line, ' ', 0).value;
    var b := FindChar(line, ' ', a + 1).value;
    var c := FindChar(line, '/', b + 1).value;
    assert ReadStart(line) == Start(line[..a], line[a + 1..b], line[b + 1..c], line[c + 1..]);
    CutsMakeStartLine(line, a, b, c, d);
  }

  lemma CutsMakeStartLine(line: string, a: nat, b: nat, c: nat, d: Raw)
    requires a < b < c < |line| && line[a] == line[b] == ' ' && line[c] == '/'
    requires d.verb == line[..a] && d.target == line[a + 1..b]
    requires d.protocol == line[b + 1..c] && d.version == line[c + 1..]
    ensures StartLine(d) == line
  {
    var x, y := line[a + 1..], line[b + 1..];
    CutAt(line, b + 1, c);
    CutAt(line, a + 1, b);
    assert y == line[b + 1..c] + "/" + line[c + 1..];
    assert x == line[a + 1..b] + " " + y;
    assert line == line[..a] + " " + x;
  }

  lemma ReadStartSound(line: string, d: Raw)
    requires NoPair(line, '\r', '\n') && ReadStart(line) == Start(d.verb, d.target, d.protocol, d.version)
    ensures GoodStart(d)
  {
    var a := FindChar(line, ' ', 0).value;
    var b := FindChar(line, ' ', a + 1).value;
    var c := FindChar(line, '/', b + 1).value;
    assert line[0..a] == line[..a] && line[c + 1..|line|] == line[c + 1..];
    assert ' ' !in line[0..a] && ' ' !in line[a + 1..b] && '/' !in line[b + 1..c] by {
      BeforeFound(line, ' ', 0);
      BeforeFound(line, ' ', a + 1);
      BeforeFound(line, '/', b + 1);
    }
    NoPairSlice(line, '\r', '\n', 0, a);
    NoPairSlice(line, '\r', '\n', a + 1, b);
    NoPairSlice(line, '\r', '\n', b + 1, c);
    NoPairSlice(line, '\r', '\n', c + 1, |line|);
  }

  lemma BeforeFound(s: string, c: char, from: nat)
    requires FindChar(s, c, from).Some?
    ensures c !in s[from..FindChar(s, c, from).value]
  {
    FindCharFirst(s, c, from);
  }

  lemma RenderRegrouped(d: Raw)
    ensures Render(d) == StartLine(d) + CRLF + (RenderFields(d.fields) + CRLF + d.rest)
  {}

  lemma DecomposeSound(s: string)
    requires Decompose(s).Some?
    ensures Grammar(Decompose(s).value) && Render(Decompose(s).value) == s
  {
    var e := FindPair(s, '\r', '\n', 0).value;
    FirstLineClean(s, e);
    ReadLinesSound(s, e + 2);
    CutsAreGrammar(s, e, Decompose(s).value, ReadLines(s, e + 2).next);
  }

  lemma FirstLineClean(s: string, e: nat)
    requires FindPair(s, '\r', '\n', 0) == Some(e)
    ensures NoPair(s[..e], '\r', '\n')
  {
    SliceHasNoPair(s, '\r', '\n', 0);
    assert s[0..e] == s[..e];
  }

  lemma CutsAreGrammar(s: string, e: nat, d: Raw, next: nat)
    requires PairAt(s, '\r', '\n', e) && NoPair(s[..e], '\r', '\n')
    requires ReadStart(s[..e]) == Start(d.verb, d.target, d.protocol, d.version)
    requires Covers(s, e + 2, Lines(d.fields, next, true)) && d.rest == s[next..]
    ensures Grammar(d) && Render(d) == s
  {
    ReadStartSound(s[..e], d);
    ReadStartCuts(s[..e], d);
    GluedAt(s, e, RenderFields(d.fields) + CRLF + d.rest);
    RenderedWhole(d, s[..e], d.fields, d.rest, s);
  }

  lemma GluedAt(s: string, e: nat, post: string)
    requires PairAt(s, '\r', '\n', e) && s[e + 2..] == post
    ensures s == s[..e] + CRLF + post
  {}

  lemma RenderedWhole(d: Raw, line: string, fields: seq<Field>, rest: string, s: string)
    requires StartLine(d) == line && d.fields == fields && d.rest == rest
    requires s == line + CRLF + (RenderFields(fields) + CRLF + rest)
    ensures Render(d) == s
  {
    RenderRegrouped(d);
  }

  // ------------------------------------------------ the parser is complete

  lemma StartLineHasNoCrlf(d: Raw)
    requires GoodStart(d)
    ensures NoPair(StartLine(d), '\r', '\n')
  {
    NoPairConcat(d.protocol, "/", '\r', '\n');
    NoPairConcat(d.protocol + "/", d.version, '\r', '\n');
    NoPairConcat(d.target, " ", '\r', '\n');
    NoPairConcat(d.target + " ", d.protocol + "/" + d.version, '\r', '\n');
    NoPairConcat(d.verb, " ", '\r', '\n');
    NoPairConcat(d.verb + " ", d.target + " " + (d.protocol + "/" + d.version), '\r', '\n');
  }

  lemma PiecesOfStartLine(d: Raw, a: nat, b: nat, c: nat)
    requires a == |d.verb| && b == a + 1 + |d.target| && c == b + 1 + |d.protocol|
    ensures var line := StartLine(d);
            && c < |line| && line[a] == line[b] == ' ' && line[c] == '/'
            && line[0..a] == d.verb && line[a + 1..b] == d.target
            && line[b + 1..c] == d.protocol && line[c + 1..] == d.version
  {
    var x := d.protocol + "/" + d.version;
    var y := d.target + " " + x;
    var line := d.verb + " " + y;
    assert line[a + 1..] == y;
    assert line[b + 1..] == y[|d.target| + 1..] == x;
    assert line[c + 1..] == x[|d.protocol| + 1..] == d.version;
    assert line[a + 1..b] == y[..|d.target|];
    assert line[b + 1..c] == x[..|d.protocol|];
  }

  lemma ReadStartAt(line: string, a: nat, b: nat, c: nat)
    requires a < b < c < |line| && line[a] == line[b] == ' ' && line[c] == '/'
    requires ' ' !in line[0..a] && ' ' !in line[a + 1..b] && '/' !in line[b + 1..c]
    ensures ReadStart(line) == Start(line[0..a], line[a + 1..b], line[b + 1..c], line[c + 1..])
  {
    FindCharAt(line, 0, a, ' ');
    FindCharAt(line, a + 1, b, ' ');
    FindCharAt(line, b + 1, c, '/');
  }

  lemma ReadStartOfRender(d: Raw)
    requires GoodStart(d)
    ensures ReadStart(StartLine(d)) == Start(d.verb, d.target, d.protocol, d.version)
  {
    var a := |d.verb|;
    var b := a + 1 + |d.target|;
    var c := b + 1 + |d.protocol|;
    PiecesOfStartLine(d, a, b, c);
    ReadStartAt(StartLine(d), a, b, c);
  }

  lemma FieldLineIsRead(f: Field)
    requires GoodField(f)
    ensures var line := FieldLine(f);
            && NoPair(line, '\r', '\n') && FindPair(line, ':', ' ', 0) == Some(|f.name|)
            && line[..|f.name|] == f.name && line[|f.name| + 2..] == f.info
  {
    NoPairConcat(f.name, ": ", '\r', '\n');
    NoPairConcat(f.name + ": ", f.info, '\r', '\n');
    FindPairAfter(FieldLine(f), 0, f.name, ':', ' ', f.info);
  }

  /** Header lines and what follows, from the front. */
  function Tail(fields: seq<Field>, rest: string): string {
    if fields == [] then rest else FieldLine(fields[0]) + (CRLF + Tail(fields[1..], rest))
  }

  lemma {:induction false} TailIsRendered(fields: seq<Field>, rest: string)
    ensures Tail(fields, rest) == RenderFields(fields) + rest
  {
    if fields == [] {
      assert "" + rest == rest;
    } else {
      TailIsRendered(fields[1..], rest);
      FieldInFront(FieldLine(fields[0]), RenderFields(fields[1..]), rest);
    }
  }

  lemma FieldInFront(line: string, lines: string, rest: string)
    ensures line + CRLF + lines + rest == line + (CRLF + (lines + rest))
  {}

  /** From begin on, s is these header lines and rest. */
  ghost predicate Rendered(s: string, begin: nat, fields: seq<Field>, rest: string) {
    begin <= |s| && s[begin..] == Tail(fields, rest)
  }

  /** From begin to end, s has the line of f. */
  ghost predicate HasLine(s: string, begin: nat, end: nat, f: Field) {
    && begin < end && FindPair(s, '\r', '\n', begin) == Some(end)
    && FindPair(s[begin..end], ':', ' ', 0) == Some(|f.name|)
    && Field(s[begin..end][..|f.name|], s[begin..end][|f.name| + 2..]) == f
  }

  /** The next header line in a rendered text. */
  lemma RenderedNext(s: string, begin: nat, fields: seq<Field>, rest: string)
    requires fields != [] && GoodField(fields[0]) && Rendered(s, begin, fields, rest)
    ensures var end := begin + |FieldLine(fields[0])|;
            HasLine(s, begin, end, fields[0]) && Rendered(s, end + 2, fields[1..], rest)
  {
    FieldLineIsRead(fields[0]);
    FindPairAfter(s, begin, FieldLine(fields[0]), '\r', '\n', Tail(fields[1..], rest));
  }

  /** The header loop, started at begin, gives r. */
  ghost predicate Reads(s: string, begin: nat, r: Lines) {
    begin <= |s| && ReadLines(s, begin) == r
  }

  lemma ReadsRound(s: string, begin: nat, end: nat, f: Field, rest: Lines)
    requires HasLine(s, begin, end, f) && Reads(s, end + 2, rest)
    ensures Reads(s, begin, Lines([f] + rest.fields, rest.next, rest.ok))
  {
    ReadLinesRound(s, begin, end, |f.name|);
  }

  lemma EndsWith(s: string, begin: nat, x: string, rest: string)
    requires begin <= |s| && s[begin..] == x + rest
    ensures |rest| <= |s| && s[|s| - |rest|..] == rest
  {
    var t := s[begin..];
    assert s[|s| - |rest|..] == t[|t| - |rest|..];
  }

  /** The lines of the fields follow each other from begin on, and behind them the loop stops with next and ok. */
  ghost predicate Laid(s: string, begin: nat, fields: seq<Field>, next: nat, ok: bool)
    decreases |fields|
  {
    if fields == [] then Reads(s, begin, Lines([], next, ok))
    else
      var end := begin + |FieldLine(fields[0])|;
      HasLine(s, begin, end, fields[0]) && Laid(s, end + 2, fields[1..], next, ok)
  }

  lemma {:induction false} RenderedIsLaid(s: string, begin: nat, fields: seq<Field>, rest: string, next: nat, ok: bool)
    requires GoodFields(fields) && Rendered(s, begin, fields, rest)
    requires |rest| <= |s| && Reads(s, |s| - |rest|, Lines([], next, ok))
    ensures Laid(s, begin, fields, next, ok)
    decreases |fields|
  {
    if fields == [] {
      assert begin == |s| - |rest|;
    } else {
      RenderedNext(s, begin, fields, rest);
      RenderedIsLaid(s, begin + |FieldLine(fields[0])| + 2, fields[1..], rest, next, ok);
    }
  }

  lemma {:induction false} LaidIsRead(s: string, begin: nat, fields: seq<Field>, next: nat, ok: bool)
    requires Laid(s, begin, fields, next, ok)
    ensures Reads(s, begin, Lines(fields, next, ok))
    decreases |fields|
  {
    if fields != [] {
      var end := begin + |FieldLine(fields[0])|;
      LaidIsRead(s, end + 2, fields[1..], next, ok);
      ReadsRound(s, begin, end, fields[0], Lines(fields[1..], next, ok));
      assert fields == [fields[0]] + fields[1..];
    }
  }

  /** The header loop takes good lines up to where rest begins, and does there what it does. */
  lemma ReadLinesUpTo(s: string, begin: nat, fields: seq<Field>, rest: string, next: nat, ok: bool)
    requires GoodFields(fields) && begin <= |s| && s[begin..] == RenderFields(fields) + rest
    requires |rest| <= |s| && Reads(s, |s| - |rest|, Lines([], next, ok))
    ensures Reads(s, begin, Lines(fields, next, ok))
  {
    TailIsRendered(fields, rest);
    RenderedIsLaid(s, begin, fields, rest, next, ok);
    LaidIsRead(s, begin, fields, next, ok);
  }

  lemma BlankIsRead(s: string, begin: nat, rest: string)
    requires begin <= |s| && s[begin..] == CRLF + rest
    ensures Reads(s, begin, Lines([], begin + 2, true)) && |rest| == |s| - begin - 2
  {
    FindPairAfter(s, begin, "", '\r', '\n', rest);
  }

  lemma ReadLinesOfRender(s: string, begin: nat, fields: seq<Field>, rest: string)
    requires GoodFields(fields) && begin <= |s| && s[begin..] == RenderFields(fields) + CRLF + rest
    ensures |rest| <= |s| && s[|s| - |rest|..] == rest
    ensures Reads(s, begin, Lines(fields, |s| - |rest|, true))
  {
    BlankBehind(RenderFields(fields), rest);
    EndsWith(s, begin, RenderFields(fields) + CRLF, rest);
    EndsWith(s, begin, RenderFields(fields), CRLF + rest);
    BlankIsRead(s, |s| - |rest| - 2, rest);
    ReadLinesUpTo(s, begin, fields, CRLF + rest, |s| - |rest|, true);
  }

  lemma BlankBehind(lines: string, rest: string)
    ensures lines + CRLF + rest == lines + (CRLF + rest) && |CRLF + rest| == |rest| + 2
  {}

  lemma FirstLineOfRender(d: Raw)
    requires Grammar(d)
    ensures var s := Render(d);
            var n := |StartLine(d)|;
            && FindPair(s, '\r', '\n', 0) == Some(n) && s[..n] == StartLine(d)
            && n + 2 <= |s| && s[n + 2..] == RenderFields(d.fields) + CRLF + d.rest
  {
    RenderRegrouped(d);
    StartLineHasNoCrlf(d);
    FindPairAfter(Render(d), 0, StartLine(d), '\r', '\n', RenderFields(d.fields) + CRLF + d.rest);
  }

  lemma DecomposeByParts(s: string, e: nat, start: Start, lines: Lines)
    requires FindPair(s, '\r', '\n', 0) == Some(e) && ReadStart(s[..e]) == start && start.Start?
    requires ReadLines(s, e + 2) == lines && lines.ok
    ensures Decompose(s)
            == Some(Raw(start.verb, start.target, start.protocol, start.version, lines.fields, s[lines.next..]))
  {}

  lemma DecomposeOfRender(d: Raw)
    requires Grammar(d)
    ensures Decompose(Render(d)) == Some(d)
  {
    var s := Render(d);
    var n := |StartLine(d)|;
    FirstLineOfRender(d);
    ReadStartOfRender(d);
    ReadLinesOfRender(s, n + 2, d.fields, d.rest);
    DecomposeByParts(s, n, Start(d.verb, d.target, d.protocol, d.version),
                     Lines(d.fields, |s| - |d.rest|, true));
  }

  // ------------------------------------------------ what fromString accepts

  /** A text has at most one decomposition. */
  lemma GrammarIsUnambiguous(d1: Raw, d2: Raw)
    requires Grammar(d1) && Grammar(d2) && Render(d1) == Render(d2)
    ensures d1 == d2
  {
    DecomposeOfRender(d1);
    DecomposeOfRender(d2);
  }

  /** fromString accepts exactly the texts of the grammar whose body has the announced size. */
  lemma ParseAcceptsExactly(m: Request, s: string)
    ensures Parse(m, s).ok <==> exists d :: Accepts(m, d) && Render(d) == s
  {
    ParseByParts(m, s);
    if Parse(m, s).ok {
      DecomposeSound(s);
      assert Accepts(m, Decompose(s).value);
    }
    if d :| Accepts(m, d) && Render(d) == s {
      DecomposeOfRender(d);
    }
  }

  lemma ParseOfRender(m: Request, d: Raw)
    requires Accepts(m, d)
    ensures Parse(m, Render(d)) == Parsed(Build(m, d), true)
  {
    DecomposeOfRender(d);
    ParseByParts(m, Render(d));
  }
}
