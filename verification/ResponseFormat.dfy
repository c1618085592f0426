// HTTPResponse: the status line, its own parser, and the round trip.
module ResponseFormat {
  import opened Wrappers
  import opened Text
  import opened HttpFormat
  import opened HttpLaws

  /** The status is an enum over int; static_cast lets any int in. */
  newtype Status = n: int | -TWO_31 <= n < TWO_31

  datatype Response = Response(version: string, status: Status, headers: Headers, body: string)

  const NO_RESPONSE := Response("", 0, map[], "")

  /** getCodeMessage: which text goes with a code does not matter, only that no text holds a CR. */
  type Phrases = f: Status -> string | forall code :: '\r' !in f(code) witness (code: Status) => ""

  function Completed(m: Response): Response {
    m.(headers := WithLength(m.headers, m.body))
  }

  function StatusLine(m: Response, reason: Phrases): string {
    "HTTP/" + m.version + " " + (SignedDecimal(m.status as int) + " " + reason(m.status))
  }

  ghost function Print(m: Response, reason: Phrases): string {
    StatusLine(m, reason) + CRLF + (RenderFields(Entries(Completed(m).headers)) + CRLF + m.body)
  }

  lemma PrintNotEmpty(m: Response, reason: Phrases)
    ensures Print(m, reason) != ""
  {
    assert |StatusLine(m, reason)| >= 5;
  }

  /** ArgumentError is the project's own; the other two are thrown by std::stoi. */
  datatype Outcome = Accepted | ArgumentError | InvalidArgument | OutOfRange

  datatype Reading = Reading(message: Response, outcome: Outcome)

  /** version.substr(begin, end - begin): a count below zero wraps to a huge one. */
  function VersionIn(line: string, begin: nat, end: nat): string
    requires begin <= |line| && end <= |line|
  {
    if begin <= end then line[begin..end] else line[begin..]
  }

  /** How far the status line was understood. */
  datatype StatusStart =
    | NotAStatus
    | OnlyVersion(version: string, why: Outcome)
    | StatusStart(version: string, status: Status)
  {
    function Result(): Outcome {
      match this
      case NotAStatus => ArgumentError
      case OnlyVersion(_, why) => why
      case StatusStart(_, _) => Accepted
    }
  }

  function ReadStatus(line: string): (r: StatusStart)
    ensures r.OnlyVersion? ==> r.why != Accepted
  {
    match FindChar(line, '/', 0)
    case None => NotAStatus
    case Some(slash) =>
      match FindChar(line, ' ', 0)
      case None => NotAStatus
      case Some(a) =>
        var version := VersionIn(line, slash + 1, a);
        match FindChar(line, ' ', a + 1)
        case None => OnlyVersion(version, ArgumentError)
        case Some(b) =>
          match ScanInteger(line[a + 1..b])
          case None => OnlyVersion(version, InvalidArgument)
          case Some(code) =>
            if -TWO_31 <= code < TWO_31 then StatusStart(version, code as Status)
            else OnlyVersion(version, OutOfRange)
  }

  function WithStatus(m: Response, start: StatusStart): Response {
    match start
    case NotAStatus => m
    case OnlyVersion(version, _) => m.(version := version)
    case StatusStart(version, status) => m.(version := version, status := status)
  }

  /** HTTPResponse::fromString on an object holding m. */
  function Parse(m: Response, s: string): Reading {
    match FindPair(s, '\r', '\n', 0)
    case None => Reading(m, ArgumentError)
    case Some(e) =>
      var start := ReadStatus(s[..e]);
      if start.StatusStart? then ParseRest(WithStatus(m, start), s, e + 2)
      else Reading(WithStatus(m, start), start.Result())
  }

  /** From the header lines on, fromString is the same for both kinds of message. */
  function ParseRest(m: Response, s: string, begin: nat): Reading
    requires begin <= |s|
  {
    var lines := ReadLines(s, begin);
    var read := m.(headers := AddAll(m.headers, lines.fields));
    if !lines.ok || !BodyFits(read.headers, s[lines.next..]) then Reading(read, ArgumentError)
    else Reading(read.(body := BodyRead(read.headers, m.body, s[lines.next..])), Accepted)
  }

  // ---------------------------------------------------------------- round trip

  ghost predicate WellFormed(m: Response) {
    && ' ' !in m.version && NoPair(m.version, '\r', '\n')
    && GoodHeaders(m.headers)
    && LengthAgrees(m.headers, m.body)
  }

  lemma StatusLineHasNoCrlf(m: Response, reason: Phrases)
    requires NoPair(m.version, '\r', '\n')
    ensures NoPair(StatusLine(m, reason), '\r', '\n')
  {
    var code := SignedDecimal(m.status as int);
    CodeCharacters(m.status as int);
    assert NoPair(code, '\r', '\n') && NoPair(reason(m.status), '\r', '\n');
    NoPairConcat(code, " ", '\r', '\n');
    NoPairConcat(code + " ", reason(m.status), '\r', '\n');
    NoPairConcat("HTTP/", m.version, '\r', '\n');
    NoPairConcat("HTTP/" + m.version, " ", '\r', '\n');
    NoPairConcat("HTTP/" + m.version + " ", code + " " + reason(m.status), '\r', '\n');
  }

  lemma CodeCharacters(n: int)
    ensures ' ' !in SignedDecimal(n) && '\r' !in SignedDecimal(n)
  {
    var digits := Decimal(if n < 0 then -n else n);
    forall i | 0 <= i < |digits| ensures digits[i] != ' ' && digits[i] != '\r' {
      assert IsDigit(digits[i]);
    }
  }

  /** The status line is cut back into version and code. */
  lemma StatusLineIsRead(m: Response, reason: Phrases)
    requires ' ' !in m.version
    ensures ReadStatus(StatusLine(m, reason)) == StatusStart(m.version, m.status)
  {
    var line := StatusLine(m, reason);
    var code := SignedDecimal(m.status as int);
    var a := 5 + |m.version|;
    var b := a + 1 + |code|;
    PiecesOfStatusLine(m, reason, a, b);
    CodeCharacters(m.status as int);
    ScanSignedDecimal(m.status as int);
    FindCharAt(line, 0, 4, '/');
    FindCharAt(line, 0, a, ' ');
    FindCharAt(line, a + 1, b, ' ');
  }

  lemma PiecesOfStatusLine(m: Response, reason: Phrases, a: nat, b: nat)
    requires a == 5 + |m.version| && b == a + 1 + |SignedDecimal(m.status as int)|
    ensures var line := StatusLine(m, reason);
            && b < |line| && line[4] == '/' && line[a] == line[b] == ' ' && line[0..4] == "HTTP"
            && line[0..a] == "HTTP/" + m.version && line[5..a] == m.version
            && line[a + 1..b] == SignedDecimal(m.status as int)
  {
    var y := SignedDecimal(m.status as int) + " " + reason(m.status);
    var line := "HTTP/" + m.version + " " + y;
    assert line[a + 1..] == y;
    assert line[a + 1..b] == y[..|SignedDecimal(m.status as int)|];
  }

  lemma FirstLineOfPrint(m: Response, reason: Phrases)
    requires NoPair(m.version, '\r', '\n')
    ensures var s := Print(m, reason);
            var n := |StatusLine(m, reason)|;
            && FindPair(s, '\r', '\n', 0) == Some(n) && s[..n] == StatusLine(m, reason)
            && n + 2 <= |s| && s[n + 2..] == RenderFields(Entries(Completed(m).headers)) + CRLF + m.body
  {
    StatusLineHasNoCrlf(m, reason);
    FindPairAfter(Print(m, reason), 0, StatusLine(m, reason), '\r', '\n',
                  RenderFields(Entries(Completed(m).headers)) + CRLF + m.body);
  }

  lemma StatusLineIsParsed(m: Response, reason: Phrases)
    requires ' ' !in m.version && NoPair(m.version, '\r', '\n')
    ensures |StatusLine(m, reason)| + 2 <= |Print(m, reason)|
    ensures Parse(NO_RESPONSE, Print(m, reason))
            == ParseRest(Response(m.version, m.status, map[], ""), Print(m, reason), |StatusLine(m, reason)| + 2)
  {
    FirstLineOfPrint(m, reason);
    StatusLineIsRead(m, reason);
  }

  lemma RestByParts(m: Response, s: string, begin: nat, lines: Lines)
    requires begin <= |s| && ReadLines(s, begin) == lines && lines.ok
    requires BodyFits(AddAll(m.headers, lines.fields), s[lines.next..])
    ensures var h := AddAll(m.headers, lines.fields);
            ParseRest(m, s, begin)
            == Reading(Response(m.version, m.status, h, BodyRead(h, m.body, s[lines.next..])), Accepted)
  {}

  lemma RestIsRead(m: Response, s: string, begin: nat)
    requires GoodHeaders(m.headers) && LengthAgrees(m.headers, m.body)
    requires begin <= |s| && s[begin..] == RenderFields(Entries(Completed(m).headers)) + CRLF + m.body
    ensures ParseRest(Response(m.version, m.status, map[], ""), s, begin) == Reading(Completed(m), Accepted)
  {
    var h := Completed(m).headers;
    CompletedHeadersGood(m.headers, m.body);
    EntriesGood(h);
    EntriesRebuild(h);
    LengthAgreesMeansFits(m.headers, m.body);
    ReadLinesOfRender(s, begin, Entries(h), m.body);
    RestByParts(Response(m.version, m.status, map[], ""), s, begin, ReadLines(s, begin));
  }

  lemma PrintedIsRead(m: Response, reason: Phrases)
    requires WellFormed(m)
    ensures Parse(NO_RESPONSE, Print(m, reason)) == Reading(Completed(m), Accepted)
  {
    StatusLineIsParsed(m, reason);
    FirstLineOfPrint(m, reason);
    RestIsRead(m, Print(m, reason), |StatusLine(m, reason)| + 2);
  }

  lemma ReadHeadersGood(s: string, begin: nat)
    requires begin <= |s| && ReadLines(s, begin).ok
    ensures GoodHeaders(AddAll(map[], ReadLines(s, begin).fields))
  {
    var fields := ReadLines(s, begin).fields;
    var h := AddAll(map[], fields);
    ReadLinesSound(s, begin);
    forall k | k in h ensures GoodField(Field(k, h[k])) {
      AddAllOrigin(map[], fields, k);
    }
  }

  lemma VersionIsClean(line: string)
    requires NoPair(line, '\r', '\n') && ReadStatus(line).StatusStart?
    ensures NoPair(ReadStatus(line).version, '\r', '\n')
  {
    var slash := FindChar(line, '/', 0).value;
    var a := FindChar(line, ' ', 0).value;
    NoPairSlice(line, '\r', '\n', slash + 1, if slash < a then a else |line|);
    assert line[slash + 1..|line|] == line[slash + 1..];
  }

  /** Everything but the spaces is right in whatever the parser accepts. */
  lemma AcceptedReading(s: string)
    requires Parse(NO_RESPONSE, s).outcome == Accepted
    ensures var m := Parse(NO_RESPONSE, s).message;
            && NoPair(m.version, '\r', '\n') && GoodHeaders(m.headers)
            && LengthAgrees(m.headers, m.body) && Completed(m) == m
  {
    var e := FindPair(s, '\r', '\n', 0).value;
    SliceHasNoPair(s, '\r', '\n', 0);
    assert s[0..e] == s[..e];
    VersionIsClean(s[..e]);
    ReadHeadersGood(s, e + 2);
  }

  /** A version read from a text that starts with HTTP/ has no space. */
  lemma VersionAfterHttp(s: string)
    requires |s| >= 5 && s[..5] == "HTTP/" && Parse(NO_RESPONSE, s).outcome == Accepted
    ensures ' ' !in Parse(NO_RESPONSE, s).message.version
  {
    var e := FindPair(s, '\r', '\n', 0).value;
    var line := s[..e];
    assert forall i | 0 <= i < 5 :: s[i] == "HTTP/"[i];
    assert PairAt(s, '\r', '\n', e);
    assert e >= 5;
    assert line[..5] == "HTTP/";
    VersionFromHttpLine(line);
  }

  lemma VersionFromHttpLine(line: string)
    requires |line| >= 5 && line[..5] == "HTTP/" && ReadStatus(line).StatusStart?
    ensures ' ' !in ReadStatus(line).version
  {
    assert forall i | 0 <= i < 5 :: line[i] == "HTTP/"[i];
    FindCharFirst(line, '/', 0);
    FindCharFirst(line, ' ', 0);
    assert line[4] == '/';
  }

  lemma PrintStartsWithHttp(m: Response, reason: Phrases)
    ensures |Print(m, reason)| >= 5 && Print(m, reason)[..5] == "HTTP/"
  {}

  /** fromString(toString(m)) gives m back, with its length inserted, iff m is well formed. */
  lemma {:induction false} RoundTripExactly(m: Response, reason: Phrases)
    ensures Parse(NO_RESPONSE, Print(m, reason)) == Reading(Completed(m), Accepted) <==> WellFormed(m)
  {
    if WellFormed(m) {
      PrintedIsRead(m, reason);
    }
    if Parse(NO_RESPONSE, Print(m, reason)) == Reading(Completed(m), Accepted) {
      AcceptedReading(Print(m, reason));
      PrintStartsWithHttp(m, reason);
      VersionAfterHttp(Print(m, reason));
      CompletedHeadersGood(m.headers, m.body);
      ScanSizeOfDecimal(|m.body|);
    }
  }

  /** The text up to the first CRLF, or all of it. */
  function FirstLine(s: string): string {
    match FindPair(s, '\r', '\n', 0)
    case None => s
    case Some(e) => s[..e]
  }

  /** The first space of the line stands before the first slash, and another one after it. */
  predicate SpaceBeforeSlash(line: string) {
    && FindChar(line, '/', 0).Some? && FindChar(line, ' ', 0).Some?
    && var slash := FindChar(line, '/', 0).value;
       FindChar(line, ' ', 0).value < slash && ' ' in line[slash + 1..]
  }

  /** That is when the wrapped count lets a space into the version. */
  lemma SpacedVersionExactly(line: string)
    requires ReadStatus(line).StatusStart?
    ensures ' ' in ReadStatus(line).version <==> SpaceBeforeSlash(line)
  {
    var slash := FindChar(line, '/', 0).value;
    var a := FindChar(line, ' ', 0).value;
    FindCharFirst(line, ' ', 0);
  }

  /**
   * Unlike the request parser, this one is a retraction only up to a condition
   * on the status line: a space before the first slash lets the rest of the
   * line, if it has a space, in as the version.
   */
  lemma RetractionExactly(s: string, reason: Phrases)
    requires Parse(NO_RESPONSE, s).outcome == Accepted
    ensures var r := Parse(NO_RESPONSE, s);
            Parse(NO_RESPONSE, Print(r.message, reason)) == r <==> !SpaceBeforeSlash(FirstLine(s))
  {
    AcceptedReading(s);
    RoundTripExactly(Parse(NO_RESPONSE, s).message, reason);
    SpacedVersionExactly(FirstLine(s));
  }

  /** A text that shows it: accepted with the version " ". */
  lemma VersionMayBeASpace(reason: Phrases)
    ensures var r := Parse(NO_RESPONSE, " 0 / \r\n\r\n");
            && r == Reading(Response(" ", 0, map[], ""), Accepted)
            && Parse(NO_RESPONSE, Print(r.message, reason)) != r
  {
    SpaceIsRead();
    AcceptedReading(" 0 / \r\n\r\n");
    RoundTripExactly(Response(" ", 0, map[], ""), reason);
  }

  lemma SpaceIsRead()
    ensures Parse(NO_RESPONSE, " 0 / \r\n\r\n") == Reading(Response(" ", 0, map[], ""), Accepted)
  {
    SpaceTextCut();
    SpaceLine();
  }

  lemma SpaceTextCut()
    ensures var s := " 0 / \r\n\r\n";
            && FindPair(s, '\r', '\n', 0) == Some(5) && s[..5] == " 0 / "
            && FindPair(s, '\r', '\n', 7) == Some(7) && s[9..] == ""
  {
    var s := " 0 / \r\n\r\n";
    assert s[0..] == " 0 / " + ['\r', '\n'] + "\r\n" && s[7..] == "" + ['\r', '\n'] + "";
    FindPairAfter(s, 0, " 0 / ", '\r', '\n', "\r\n");
    FindPairAfter(s, 7, "", '\r', '\n', "");
    assert s[..5] == " 0 / " && s[9..] == "";
  }

  lemma SpaceLine()
    ensures ReadStatus(" 0 / ") == StatusStart(" ", 0)
  {
    var line := " 0 / ";
    FindCharAt(line, 0, 3, '/');
    FindCharAt(line, 0, 0, ' ');
    FindCharAt(line, 1, 2, ' ');
    assert line[1..2] == "0" && line[4..] == " ";
    ScanSignedDecimal(0);
  }
}
