// The texts themselves: what is printed, character by character, and what
// fromString makes of every kind of text that it does not accept.
module HttpTexts {
  import opened Wrappers
  import opened Text
  import opened HttpFormat
  import R = ResponseFormat

  // ---------------------------------------------------------------- headers

  /** The keys of h, in lexicographic order of their characters. */
  ghost predicate Lists(keys: seq<string>, h: Headers) {
    && (forall k :: k in keys <==> k in h)
    && (forall i, j | 0 <= i < j < |keys| :: exists d | 0 <= d <= |keys[i]| :: DiffersAt(keys[i], keys[j], d))
  }

  function HeaderLines(h: Headers, keys: seq<string>): string
    requires forall k | k in keys :: k in h
  {
    if keys == [] then "" else keys[0] + ": " + h[keys[0]] + "\r\n" + HeaderLines(h, keys[1..])
  }

  lemma {:induction false} FieldsPrinted(h: Headers, keys: seq<string>)
    requires forall k | k in keys :: k in h
    ensures RenderFields(FieldsOf(h, keys)) == HeaderLines(h, keys)
  {
    if keys != [] {
      var fields := FieldsOf(h, keys);
      assert fields[1..] == FieldsOf(h, keys[1..]);
      FieldsPrinted(h, keys[1..]);
    }
  }

  /** However its keys are brought into that order, a header map is printed as these lines. */
  lemma EntriesPrinted(h: Headers, keys: seq<string>)
    requires Lists(keys, h)
    ensures RenderFields(Entries(h)) == HeaderLines(h, keys)
  {
    forall i, j | 0 <= i < j < |keys| ensures Before(keys[i], keys[j]) {
      BeforeExactly(keys[i], keys[j]);
    }
    SortedIsUnique(SortedKeys(h.Keys), keys);
    FieldsPrinted(h, keys);
  }

  /** A number as std::to_string writes it. */
  ghost predicate Spells(s: string, n: nat) {
    && s != "" && (forall i | 0 <= i < |s| :: '0' <= s[i] <= '9')
    && ScanDigits(s, 0) == n && (s[0] == '0' ==> s == "0")
  }

  /** toString adds one header, and only to a message that has a body and does not give its length. */
  lemma LengthIsAnnounced(h: Headers, body: string)
    ensures var g := WithLength(h, body);
            if body == "" || "Content-Length" in h then g == h
            else g.Keys == h.Keys + {"Content-Length"} && Spells(g["Content-Length"], |body|)
                 && forall k | k in h :: g[k] == h[k]
  {
    DecimalIsCanonical(|body|);
    ScanDecimal(|body|);
    DecimalSpells(|body|);
  }

  lemma DecimalSpells(n: nat)
    ensures Spells(Decimal(n), n)
  {
    DecimalIsCanonical(n);
    ScanDecimal(n);
  }

  // ---------------------------------------------------------------- printing

  /** The printed request: request line, header lines in order, blank line, body. */
  lemma PrintedRequest(m: Request, keys: seq<string>)
    requires Lists(keys, Completed(m).headers)
    ensures Print(m) == m.verb + " " + m.target + " HTTP/" + m.version + "\r\n"
                        + HeaderLines(Completed(m).headers, keys) + "\r\n" + m.body
  {
    EntriesPrinted(Completed(m).headers, keys);
    RequestPieces(m.verb, m.target, m.version, HeaderLines(Completed(m).headers, keys), m.body);
  }

  lemma RequestPieces(verb: string, target: string, version: string, lines: string, body: string)
    ensures verb + " " + (target + " " + ("HTTP" + "/" + version)) + CRLF + (lines + CRLF) + body
            == verb + " " + target + " HTTP/" + version + "\r\n" + lines + "\r\n" + body
  {
    assert " HTTP/" == " " + ("HTTP" + "/");
    assert CRLF == "\r\n";
  }

  /** The printed response, with the status code in decimal and the text that goes with it. */
  lemma PrintedResponse(m: R.Response, reason: R.Phrases, keys: seq<string>, digits: string)
    requires Lists(keys, R.Completed(m).headers)
    requires Spells(digits, if m.status < 0 then -(m.status as int) else m.status as int)
    ensures R.Print(m, reason) == "HTTP/" + m.version + " " + (if m.status < 0 then "-" + digits else digits)
                                  + " " + reason(m.status) + "\r\n"
                                  + HeaderLines(R.Completed(m).headers, keys) + "\r\n" + m.body
  {
    var n := m.status as int;
    EntriesPrinted(R.Completed(m).headers, keys);
    DecimalIsUnique(if n < 0 then -n else n, digits);
    DecimalIsCanonical(if n < 0 then -n else n);
    ResponsePieces(m.version, SignedDecimal(n), reason(m.status), HeaderLines(R.Completed(m).headers, keys), m.body);
  }

  lemma ResponsePieces(version: string, code: string, text: string, lines: string, body: string)
    ensures "HTTP/" + version + " " + (code + " " + text) + CRLF + (lines + CRLF + body)
            == "HTTP/" + version + " " + code + " " + text + "\r\n" + lines + "\r\n" + body
  {
    assert CRLF == "\r\n";
  }

  // ---------------------------------------------------------------- reading headers

  /** The i-th line is the last one with the name k. */
  ghost predicate IsLast(fields: seq<Field>, i: nat, k: string) {
    i < |fields| && fields[i].name == k && forall j | i < j < |fields| :: fields[j].name != k
  }

  /** Of several lines with one name the last one counts; a name without lines keeps what it had. */
  lemma {:induction false} LastFieldWins(h: Headers, fields: seq<Field>, k: string)
    ensures forall i: nat | IsLast(fields, i, k) :: k in AddAll(h, fields) && AddAll(h, fields)[k] == fields[i].info
    ensures (forall i | 0 <= i < |fields| :: fields[i].name != k) ==>
              (k in AddAll(h, fields) <==> k in h) && (k in h ==> AddAll(h, fields)[k] == h[k])
    decreases |fields|
  {
    if fields != [] {
      var others := fields[1..];
      LastFieldWins(h[fields[0].name := fields[0].info], others, k);
      assert forall i | 1 <= i < |fields| :: fields[i] == others[i - 1];
      forall i: nat | IsLast(fields, i, k) ensures k in AddAll(h, fields) && AddAll(h, fields)[k] == fields[i].info {
        if i > 0 {
          assert forall j | i - 1 < j < |others| :: others[j] == fields[j + 1];
          assert IsLast(others, i - 1, k);
        }
      }
    }
  }

  /**
   * The announced length is read as a number; a text that does not start with
   * one counts as no bytes, and a negative one fits no body.
   */
  lemma LengthIsCompared(h: Headers, rest: string)
    requires |rest| < 9_223_372_036_854_775_807
    ensures BodyFits(h, rest) <==>
            ("Content-Length" in h ==>
               match ScanInteger(h["Content-Length"])
               case None => rest == ""
               case Some(v) => v == |rest|)
  {
    if "Content-Length" in h {
      SizeOfInteger(h["Content-Length"]);
    }
  }

  // ---------------------------------------------------------------- requests that are not accepted

  ghost predicate FreeOf(s: string, c: char) {
    forall i | 0 <= i < |s| :: s[i] != c
  }

  ghost predicate OneLine(s: string) {
    forall i: nat :: !StandsAt(s, "\r\n", i)
  }

  lemma OneLineHasNoPair(s: string)
    ensures OneLine(s) <==> NoPair(s, '\r', '\n')
  {
    assert "\r\n" == ['\r', '\n'];
    assert forall i: nat :: PairAt(s, '\r', '\n', i) <==> StandsAt(s, "\r\n", i) by {
      forall i: nat ensures PairAt(s, '\r', '\n', i) <==> StandsAt(s, "\r\n", i) {
        if i + 2 <= |s| { assert s[i..i + 2] == [s[i], s[i + 1]]; }
      }
    }
  }

  lemma FirstLineIs(line: string, post: string)
    requires OneLine(line)
    ensures var s := line + "\r\n" + post;
            FindPair(s, '\r', '\n', 0) == Some(|line|) && s[..|line|] == line && s[|line| + 2..] == post
  {
    var s := line + "\r\n" + post;
    OneLineHasNoPair(line);
    assert s[0..] == line + ['\r', '\n'] + post;
    FindPairAfter(s, 0, line, '\r', '\n', post);
  }

  lemma NoneFound(s: string, c: char, from: nat)
    requires from <= |s| && FreeOf(s[from..], c)
    ensures FindChar(s, c, from) == None
  {
    FindCharFirst(s, c, from);
    assert forall i | from <= i < |s| :: s[i] == s[from..][i - from];
  }

  /** x c y, with x free of c, cut at the c. */
  lemma FoundAfter(s: string, from: nat, x: string, c: char, y: string)
    requires from <= |s| && s[from..] == x + [c] + y && FreeOf(x, c)
    ensures FindChar(s, c, from) == Some(from + |x|)
    ensures s[from..from + |x|] == x && s[from + |x| + 1..] == y
  {
    var t := s[from..];
    assert s[from + |x|] == t[|x|] == c && s[from..from + |x|] == t[..|x|] == x;
    assert s[from + |x| + 1..] == t[|x| + 1..];
    FindCharAt(s, from, from + |x|, c);
  }

  /** Without a CRLF nothing is read. */
  lemma NoLineNoRequest(m: Request, s: string)
    requires OneLine(s)
    ensures Parse(m, s) == Parsed(m, false)
  {
    OneLineHasNoPair(s);
    FindPairFirst(s, '\r', '\n', 0);
  }

  /** A request line that breaks off leaves the fields before the break, and nothing else, in the object. */
  lemma BrokenRequestLine(m: Request, verb: string, target: string, x: string, post: string)
    requires FreeOf(verb, ' ') && FreeOf(target, ' ') && FreeOf(x, '/')
    ensures OneLine(verb) ==> Parse(m, verb + "\r\n" + post) == Parsed(m, false)
    ensures OneLine(verb + " " + target) ==>
              Parse(m, verb + " " + target + "\r\n" + post) == Parsed(m.(verb := verb), false)
    ensures OneLine(verb + " " + target + " " + x) ==>
              Parse(m, verb + " " + target + " " + x + "\r\n" + post)
              == Parsed(m.(verb := verb, target := target), false)
  {
    if OneLine(verb) {
      FirstLineIs(verb, post);
      assert verb[0..] == verb;
      NoneFound(verb, ' ', 0);
    }
    if OneLine(verb + " " + target) {
      FirstLineIs(verb + " " + target, post);
      LineWithoutTarget(verb, target);
    }
    if OneLine(verb + " " + target + " " + x) {
      FirstLineIs(verb + " " + target + " " + x, post);
      LineWithoutVersion(verb, target, x);
    }
  }

  lemma LineWithoutTarget(verb: string, target: string)
    requires FreeOf(verb, ' ') && FreeOf(target, ' ')
    ensures ReadStart(verb + " " + target) == NoTarget(verb)
  {
    var line := verb + " " + target;
    assert line[0..] == verb + [' '] + target && line[..|verb|] == line[0..|verb|];
    FoundAfter(line, 0, verb, ' ', target);
    NoneFound(line, ' ', |verb| + 1);
  }

  lemma LineWithoutVersion(verb: string, target: string, x: string)
    requires FreeOf(verb, ' ') && FreeOf(target, ' ') && FreeOf(x, '/')
    ensures ReadStart(verb + " " + target + " " + x) == NoVersion(verb, target)
  {
    var line, more := verb + " " + target + " " + x, target + [' '] + x;
    ThreePieces(verb, target, x);
    FoundAfter(line, 0, verb, ' ', more);
    FoundAfter(line, |verb| + 1, target, ' ', x);
    NoneFound(line, '/', |verb| + 1 + |target| + 1);
    assert line[..|verb|] == line[0..|verb|];
  }

  lemma ThreePieces(a: string, b: string, c: string)
    ensures (a + " " + b + " " + c)[0..] == a + [' '] + (b + [' '] + c)
  {
    assert " " == [' '];
  }

  /** Where the header lines break off: the text ends, or a line has no ": ". */
  ghost predicate BreaksOff(bad: string) {
    OneLine(bad) || exists line, post :: NotAHeader(line) && bad == line + "\r\n" + post
  }

  ghost predicate NotAHeader(line: string) {
    line != "" && OneLine(line) && forall i: nat :: !StandsAt(line, ": ", i)
  }

  /** The header loop stops there, and fails. */
  lemma BreakIsRead(s: string, begin: nat, bad: string)
    requires begin <= |s| && s[begin..] == bad && BreaksOff(bad)
    ensures Reads(s, begin, Lines([], begin, false))
  {
    if OneLine(bad) {
      OneLineHasNoPair(bad);
      FindPairFirst(s, '\r', '\n', begin);
      forall i: nat | begin <= i ensures !PairAt(s, '\r', '\n', i) {
        assert PairAt(s, '\r', '\n', i) ==> PairAt(bad, '\r', '\n', i - begin);
      }
    } else {
      var line, post :| NotAHeader(line) && bad == line + "\r\n" + post;
      OneLineHasNoPair(line);
      assert s[begin..] == line + ['\r', '\n'] + post;
      FindPairAfter(s, begin, line, '\r', '\n', post);
      FindPairExactly(line, ':', ' ', 0, 0);
      assert [':', ' '] == ": ";
    }
  }

  /** s has the request line of d up to n, and rest behind it. */
  ghost predicate LineIsRead(s: string, n: nat, d: Raw, rest: string) {
    && n + 2 <= |s| && FindPair(s, '\r', '\n', 0) == Some(n) && s[n + 2..] == rest
    && ReadStart(s[..n]) == Start(d.verb, d.target, d.protocol, d.version)
  }

  lemma RequestLineIsRead(d: Raw, rest: string)
    requires GoodStart(d)
    ensures LineIsRead(StartLine(d) + "\r\n" + rest, |StartLine(d)|, d, rest)
  {
    StartLineHasNoCrlf(d);
    OneLineHasNoPair(StartLine(d));
    FirstLineIs(StartLine(d), rest);
    ReadStartOfRender(d);
  }

  lemma BrokenLines(s: string, begin: nat, fields: seq<Field>, bad: string)
    requires GoodFields(fields) && begin <= |s| && s[begin..] == RenderFields(fields) + bad && BreaksOff(bad)
    ensures |bad| <= |s| && Reads(s, begin, Lines(fields, |s| - |bad|, false))
  {
    EndsWith(s, begin, RenderFields(fields), bad);
    BreakIsRead(s, |s| - |bad|, bad);
    ReadLinesUpTo(s, begin, fields, bad, |s| - |bad|, false);
  }

  /** What fromString leaves when it fails behind the request line. */
  ghost predicate Stopped(m: Request, s: string, d: Raw) {
    Parse(m, s) == Parsed(m.(verb := d.verb, target := d.target, version := d.version,
                             headers := AddAll(m.headers, d.fields)), false)
  }

  lemma StopsWithLines(m: Request, s: string, n: nat, d: Raw, rest: string, lines: Lines)
    requires LineIsRead(s, n, d, rest) && Reads(s, n + 2, lines) && lines.fields == d.fields
    requires !(lines.ok && BodyFits(AddAll(m.headers, lines.fields), s[lines.next..]))
    ensures Stopped(m, s, d)
  {}

  lemma StopsInHeaders(m: Request, s: string, n: nat, d: Raw, bad: string)
    requires GoodFields(d.fields) && BreaksOff(bad) && LineIsRead(s, n, d, RenderFields(d.fields) + bad)
    ensures Stopped(m, s, d)
  {
    BrokenLines(s, n + 2, d.fields, bad);
    StopsWithLines(m, s, n, d, RenderFields(d.fields) + bad, Lines(d.fields, |s| - |bad|, false));
  }

  lemma StopsAtBody(m: Request, s: string, n: nat, d: Raw)
    requires GoodFields(d.fields) && LineIsRead(s, n, d, RenderFields(d.fields) + CRLF + d.rest)
    requires !BodyFits(AddAll(m.headers, d.fields), d.rest)
    ensures Stopped(m, s, d)
  {
    ReadLinesOfRender(s, n + 2, d.fields, d.rest);
    StopsWithLines(m, s, n, d, RenderFields(d.fields) + CRLF + d.rest, Lines(d.fields, |s| - |d.rest|, true));
  }

  /** Header lines that break off leave the lines before the break in the object; the body stays as it was. */
  lemma BrokenHeaders(m: Request, d: Raw, bad: string)
    requires Grammar(d) && BreaksOff(bad)
    ensures Stopped(m, StartLine(d) + "\r\n" + (RenderFields(d.fields) + bad), d)
  {
    RequestLineIsRead(d, RenderFields(d.fields) + bad);
    StopsInHeaders(m, StartLine(d) + "\r\n" + (RenderFields(d.fields) + bad), |StartLine(d)|, d, bad);
  }

  /** A body of the wrong size leaves everything but the body. */
  lemma WrongBodySize(m: Request, d: Raw)
    requires Grammar(d) && !BodyFits(AddAll(m.headers, d.fields), d.rest)
    ensures Stopped(m, StartLine(d) + "\r\n" + (RenderFields(d.fields) + CRLF + d.rest), d)
  {
    RequestLineIsRead(d, RenderFields(d.fields) + CRLF + d.rest);
    StopsAtBody(m, StartLine(d) + "\r\n" + (RenderFields(d.fields) + CRLF + d.rest), |StartLine(d)|, d);
  }

  // ---------------------------------------------------------------- status lines

  /** The code between the spaces, as an int: not a number, out of range, or the status. */
  function Coded(version: string, code: string): R.StatusStart {
    match ScanInteger(code)
    case None => R.OnlyVersion(version, R.InvalidArgument)
    case Some(v) =>
      if -2_147_483_648 <= v <= 2_147_483_647 then R.StatusStart(version, v as R.Status)
      else R.OnlyVersion(version, R.OutOfRange)
  }

  /** A line without a slash or without a space says nothing. */
  lemma NoStatusLine(line: string)
    requires FreeOf(line, '/') || FreeOf(line, ' ')
    ensures R.ReadStatus(line) == R.NotAStatus
  {
    assert line[0..] == line;
    if FreeOf(line, '/') {
      NoneFound(line, '/', 0);
    } else {
      NoneFound(line, ' ', 0);
    }
  }

  /** The code that follows the first space is read. */
  lemma CodeFollows(line: string, slash: nat, a: nat, version: string, code: string, text: string)
    requires FindChar(line, '/', 0) == Some(slash) && FindChar(line, ' ', 0) == Some(a)
    requires R.VersionIn(line, slash + 1, a) == version
    requires line[a + 1..] == code + " " + text && FreeOf(code, ' ')
    ensures R.ReadStatus(line) == Coded(version, code)
  {
    assert code + " " + text == code + [' '] + text;
    FoundAfter(line, a + 1, code, ' ', text);
  }

  lemma NoCodeFollows(line: string, slash: nat, a: nat, version: string)
    requires FindChar(line, '/', 0) == Some(slash) && FindChar(line, ' ', 0) == Some(a)
    requires R.VersionIn(line, slash + 1, a) == version && FreeOf(line[a + 1..], ' ')
    ensures R.ReadStatus(line) == R.OnlyVersion(version, R.ArgumentError)
  {
    NoneFound(line, ' ', a + 1);
  }

  /** With the slash in front of the first space, the version is what stands between them. */
  lemma UsualStatusLine(pre: string, version: string, code: string, text: string)
    requires FreeOf(pre, '/') && FreeOf(pre, ' ') && FreeOf(version, ' ') && FreeOf(code, ' ')
    ensures R.ReadStatus(pre + "/" + version + " " + (code + " " + text)) == Coded(version, code)
    ensures R.ReadStatus(pre + "/" + version + " " + code) == R.OnlyVersion(version, R.ArgumentError)
  {
    var a := |pre| + 1 + |version|;
    UsualVersion(pre, version, code + " " + text);
    CodeFollows(pre + "/" + version + " " + (code + " " + text), |pre|, a, version, code, text);
    UsualVersion(pre, version, code);
    NoCodeFollows(pre + "/" + version + " " + code, |pre|, a, version);
  }

  lemma UsualVersion(pre: string, version: string, y: string)
    requires FreeOf(pre, '/') && FreeOf(pre, ' ') && FreeOf(version, ' ')
    ensures var line, a := pre + "/" + version + " " + y, |pre| + 1 + |version|;
            && FindChar(line, '/', 0) == Some(|pre|) && FindChar(line, ' ', 0) == Some(a)
            && R.VersionIn(line, |pre| + 1, a) == version && line[a + 1..] == y
  {
    var line := pre + "/" + version + " " + y;
    assert line[0..] == pre + ['/'] + (version + [' '] + y);
    FoundAfter(line, 0, pre, '/', version + [' '] + y);
    var x := pre + "/" + version;
    assert FreeOf(x, ' ');
    assert line[0..] == x + [' '] + y;
    FoundAfter(line, 0, x, ' ', y);
    assert line[|pre| + 1..|x|] == version;
  }

  /** With a space in front of the slash, the version is all that stands behind the slash. */
  lemma EarlySpaceStatusLine(x: string, u: string, v: string, code: string, text: string)
    requires FreeOf(x, '/') && FreeOf(x, ' ') && FreeOf(u, '/') && FreeOf(code, ' ')
    ensures u + "/" + v == code + " " + text ==> R.ReadStatus(x + " " + (u + "/" + v)) == Coded(v, code)
    ensures u + "/" + v == code ==> R.ReadStatus(x + " " + (u + "/" + v)) == R.OnlyVersion(v, R.ArgumentError)
  {
    var line, y := x + " " + (u + "/" + v), u + "/" + v;
    EarlySpaceVersion(x, u, v);
    if y == code + " " + text {
      CodeFollows(line, |x| + 1 + |u|, |x|, v, code, text);
    }
    if y == code {
      NoCodeFollows(line, |x| + 1 + |u|, |x|, v);
    }
  }

  lemma EarlySpaceVersion(x: string, u: string, v: string)
    requires FreeOf(x, '/') && FreeOf(x, ' ') && FreeOf(u, '/')
    ensures var line, slash := x + " " + (u + "/" + v), |x| + 1 + |u|;
            && FindChar(line, ' ', 0) == Some(|x|) && FindChar(line, '/', 0) == Some(slash)
            && R.VersionIn(line, slash + 1, |x|) == v && line[|x| + 1..] == u + "/" + v
  {
    var line := x + " " + (u + "/" + v);
    assert line[0..] == x + [' '] + (u + "/" + v);
    FoundAfter(line, 0, x, ' ', u + "/" + v);
    assert FreeOf(x + " " + u, '/');
    assert line[0..] == (x + " " + u) + ['/'] + v;
    FoundAfter(line, 0, x + " " + u, '/', v);
  }

  // ---------------------------------------------------------------- responses that are not accepted

  /** Without a CRLF nothing is read; a broken status line leaves at most the version in the object. */
  lemma BrokenStatusLine(m: R.Response, line: string, post: string)
    requires OneLine(line)
    ensures R.Parse(m, line) == R.Reading(m, R.ArgumentError)
    ensures var r := R.Parse(m, line + "\r\n" + post);
            match R.ReadStatus(line)
            case NotAStatus => r == R.Reading(m, R.ArgumentError)
            case OnlyVersion(version, why) => r == R.Reading(m.(version := version), why)
            case StatusStart(version, status) => r.message.version == version && r.message.status == status
  {
    OneLineHasNoPair(line);
    FindPairFirst(line, '\r', '\n', 0);
    FirstLineIs(line, post);
  }

  lemma RestOfResponse(m: R.Response, line: string, post: string, lines: Lines)
    requires OneLine(line) && R.ReadStatus(line).StatusStart?
    requires Reads(line + "\r\n" + post, |line| + 2, lines)
    ensures var start, s := R.ReadStatus(line), line + "\r\n" + post;
            var h := AddAll(m.headers, lines.fields);
            var read := m.(version := start.version, status := start.status, headers := h);
            R.Parse(m, s) == (if lines.ok && BodyFits(read.headers, s[lines.next..])
                              then R.Reading(read.(body := BodyRead(read.headers, m.body, s[lines.next..])), R.Accepted)
                              else R.Reading(read, R.ArgumentError))
  {
    FirstLineIs(line, post);
  }

  /** Header lines that break off leave what was read before; the body stays as it was. */
  lemma BrokenResponseHeaders(m: R.Response, line: string, fields: seq<Field>, bad: string)
    requires OneLine(line) && R.ReadStatus(line).StatusStart? && GoodFields(fields) && BreaksOff(bad)
    ensures var start := R.ReadStatus(line);
            R.Parse(m, line + "\r\n" + (RenderFields(fields) + bad))
            == R.Reading(m.(version := start.version, status := start.status,
                            headers := AddAll(m.headers, fields)), R.ArgumentError)
  {
    var s := line + "\r\n" + (RenderFields(fields) + bad);
    FirstLineIs(line, RenderFields(fields) + bad);
    BrokenLines(s, |line| + 2, fields, bad);
    RestOfResponse(m, line, RenderFields(fields) + bad, Lines(fields, |s| - |bad|, false));
  }

  /** With all header lines, it is the size of the body that decides. */
  lemma WholeResponse(m: R.Response, line: string, fields: seq<Field>, rest: string)
    requires OneLine(line) && R.ReadStatus(line).StatusStart? && GoodFields(fields)
    ensures var start, h := R.ReadStatus(line), AddAll(m.headers, fields);
            R.Parse(m, line + "\r\n" + (RenderFields(fields) + CRLF + rest))
            == if !BodyFits(h, rest)
               then R.Reading(m.(version := start.version, status := start.status, headers := h), R.ArgumentError)
               else R.Reading(R.Response(start.version, start.status, h,
                                         if "Content-Length" in h then rest else m.body), R.Accepted)
  {
    var post := RenderFields(fields) + CRLF + rest;
    var s := line + "\r\n" + post;
    FirstLineIs(line, post);
    ReadLinesOfRender(s, |line| + 2, fields, rest);
    RestOfResponse(m, line, post, Lines(fields, |s| - |rest|, true));
  }
}
