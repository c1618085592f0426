// HTTPRequest and HTTPResponse as objects that toString and fromString change
// in place, each tied to the format on values.
module HttpMessage {
  import opened Wrappers
  import opened Text
  import opened HttpFormat
  import R = ResponseFormat

  /** std::tolower in the C locale */
  function ToLower(c: char): char {
    if 'A' <= c <= 'Z' then (c as int + 32) as char else c
  }

  function Lower(s: string): (r: string)
    ensures |r| == |s| && forall i | 0 <= i < |s| :: r[i] == ToLower(s[i])
  {
    if s == "" then "" else [ToLower(s[0])] + Lower(s[1..])
  }

  predicate KeepAlive(h: Headers) {
    CONNECTION in h && Lower(h[CONNECTION]) == "keep-alive"
  }

  /** The header Connection is spelled keep-alive, in letters of either case, and has nothing else in it. */
  lemma KeepAliveExactly(h: Headers)
    ensures KeepAlive(h) <==>
            && "Connection" in h && |h["Connection"]| == 10
            && forall i | 0 <= i < 10 :: h["Connection"][i] in {"keep-alive"[i], "KEEP-ALIVE"[i]}
  {
    if "Connection" in h {
      var s, word := h["Connection"], "keep-alive";
      assert Lower(s) == word <==> |s| == 10 && forall i | 0 <= i < 10 :: ToLower(s[i]) == word[i];
      if |s| == 10 {
        forall i | 0 <= i < 10 ensures ToLower(s[i]) == word[i] <==> s[i] in {word[i], "KEEP-ALIVE"[i]} {
          LetterOf(i);
        }
      }
    }
  }

  lemma LetterOf(i: nat)
    requires i < 10
    ensures var c, d := "keep-alive"[i], "KEEP-ALIVE"[i];
            (c == d == '-') || ('a' <= c <= 'z' && c as int == d as int + 32)
  {}

  /** The traversal order starts with the least key. */
  lemma LeastIsFirst(keys: set<string>, k: string)
    requires IsLeast(k, keys)
    ensures SortedKeys(keys) == [k] + SortedKeys(keys - {k})
  {
    var s := SortedKeys(keys);
    assert k in s;
    assert s[0] in s;
    BeforeTrichotomy(s[0], k);
  }

  /** What is still to be printed when these keys are left. */
  ghost function Remaining(h: Headers, keys: set<string>): string
    requires keys <= h.Keys
  {
    RenderFields(FieldsOf(h, SortedKeys(keys)))
  }

  lemma NextEntry(h: Headers, keys: set<string>, k: string, done: string)
    requires keys <= h.Keys && IsLeast(k, keys)
    ensures done + (k + ": " + h[k]) + CRLF + Remaining(h, keys - {k}) == done + Remaining(h, keys)
  {
    LeastIsFirst(keys, k);
    var fields := FieldsOf(h, SortedKeys(keys));
    var line := FieldLine(fields[0]);
    var others := Remaining(h, keys - {k});
    assert fields[1..] == FieldsOf(h, SortedKeys(keys - {k}));
    assert Remaining(h, keys) == line + CRLF + others;
    Regroup(done, line, CRLF, others);
  }

  lemma Regroup(a: string, b: string, c: string, d: string)
    ensures a + b + c + d == a + (b + c + d)
  {}

  /** HTTPMessage::getHeaders */
  method GetHeaders(h: Headers) returns (res: string)
    ensures res == RenderFields(Entries(h))
  {
    if |h| == 0 {
      return "";
    }
    res := "";
    var rest := h.Keys;
    while rest != {}
      invariant rest <= h.Keys
      invariant res + Remaining(h, rest) == RenderFields(Entries(h))
    {
      LeastExists(rest);
      var k :| k in rest && forall j | j in rest && j != k :: Before(k, j);
      NextEntry(h, rest, k, res);
      res := res + (k + ": " + h[k]);
      res := res + CRLF;
      rest := rest - {k};
    }
  }

  /** A header line from begin to the next CRLF. */
  predicate LineAhead(s: string, begin: nat) {
    var end := FindPair(s, '\r', '\n', begin);
    end.Some? && begin < end.value && FindPair(s[begin..end.value], ':', ' ', 0).Some?
  }

  /** Its end and its field. */
  function NextLine(s: string, begin: nat): (nat, Field)
    requires LineAhead(s, begin)
  {
    var end := FindPair(s, '\r', '\n', begin).value;
    var p := FindPair(s[begin..end], ':', ' ', 0).value;
    (end, Field(s[begin..end][..p], s[begin..end][p + 2..]))
  }

  /** Line by line, the loop gets from begin with the headers g to the place at with the headers h. */
  ghost predicate Gets(s: string, begin: nat, g: Headers, at: nat, h: Headers)
    decreases |s| - begin
  {
    || (begin == at && g == h)
    || (LineAhead(s, begin) && var (end, f) := NextLine(s, begin); Gets(s, end + 2, g[f.name := f.info], at, h))
  }

  lemma {:induction false} GetsOneMore(s: string, begin: nat, g: Headers, at: nat, h: Headers)
    requires Gets(s, begin, g, at, h) && LineAhead(s, at)
    ensures var (end, f) := NextLine(s, at); Gets(s, begin, g, end + 2, h[f.name := f.info])
    decreases |s| - begin
  {
    if !(begin == at && g == h) {
      var (end, f) := NextLine(s, begin);
      GetsOneMore(s, end + 2, g[f.name := f.info], at, h);
    }
  }

  /** The same in the terms of the loop. */
  lemma GetsPast(s: string, begin: nat, g: Headers, at: nat, line: string, p: nat, h: Headers)
    requires Gets(s, begin, g, at, h)
    requires line != "" && at + |line| <= |s| && line == s[at..at + |line|]
    requires FindPair(s, '\r', '\n', at) == Some(at + |line|) && FindPair(line, ':', ' ', 0) == Some(p)
    ensures at + |line| + 2 <= |s| && p + 2 <= |line|
    ensures Gets(s, begin, g, at + |line| + 2, h[line[..p] := line[p + 2..]])
  {
    GetsOneMore(s, begin, g, at, h);
  }

  lemma ReadLinesStops(s: string, begin: nat)
    requires begin <= |s| && !LineAhead(s, begin)
    ensures var r := ReadLines(s, begin);
            && r.fields == [] && (r.ok <==> FindPair(s, '\r', '\n', begin) == Some(begin))
            && (r.ok ==> r.next == begin + 2 <= |s|)
  {}

  lemma ReadLinesGoesOn(s: string, begin: nat)
    requires LineAhead(s, begin)
    ensures var (end, f) := NextLine(s, begin);
            && end + 2 <= |s|
            && var rest := ReadLines(s, end + 2);
               ReadLines(s, begin) == Lines([f] + rest.fields, rest.next, rest.ok)
  {
    var (end, f) := NextLine(s, begin);
    ReadLinesRound(s, begin, end, |f.name|);
  }

  lemma AddAllFirst(h: Headers, f: Field, fields: seq<Field>)
    ensures AddAll(h, [f] + fields) == AddAll(h[f.name := f.info], fields)
  {
    assert ([f] + fields)[1..] == fields;
  }

  /** What the loop has come to when no header line follows: what reading all lines first would give. */
  lemma {:induction false} HeadersEnd(s: string, begin: nat, g: Headers, at: nat, h: Headers)
    requires begin <= |s| && at <= |s| && Gets(s, begin, g, at, h) && !LineAhead(s, at)
    ensures var r := ReadLines(s, begin);
            && h == AddAll(g, r.fields) && (r.ok <==> FindPair(s, '\r', '\n', at) == Some(at))
            && (r.ok ==> r.next == at + 2 <= |s|)
    decreases |s| - begin
  {
    if begin == at && g == h {
      ReadLinesStops(s, at);
    } else {
      var (end, f) := NextLine(s, begin);
      ReadLinesGoesOn(s, begin);
      HeadersEnd(s, end + 2, g[f.name := f.info], at, h);
      AddAllFirst(g, f, ReadLines(s, end + 2).fields);
    }
  }

  /** The header loop that both fromString functions run; begin ends after the last line read. */
  method ReadHeaderLines(str: string, start: nat, given: Headers)
    returns (headers: Headers, begin: nat, ok: bool)
    requires start <= |str|
    ensures var r := ReadLines(str, start);
            && ok == r.ok && headers == AddAll(given, r.fields) && (ok ==> begin == r.next <= |str|)
  {
    headers, begin := given, start;
    var end := FindPair(str, '\r', '\n', begin);
    if end.None? {
      HeadersEnd(str, start, given, begin, headers);
      return headers, begin, false;
    }
    var line := str[begin..end.value];
    while line != ""
      invariant begin <= |str| && Gets(str, start, given, begin, headers)
      invariant end == FindPair(str, '\r', '\n', begin) && end.Some? && line == str[begin..end.value]
      decreases |str| - begin
    {
      var p := FindPair(line, ':', ' ', 0);
      if p.None? {
        HeadersEnd(str, start, given, begin, headers);
        return headers, begin, false;
      }
      GetsPast(str, start, given, begin, line, p.value, headers);
      headers := headers[line[..p.value] := line[p.value + 2..]];
      begin := begin + |line| + 2;
      end := FindPair(str, '\r', '\n', begin);
      if end.None? {
        HeadersEnd(str, start, given, begin, headers);
        return headers, begin, false;
      }
      line := str[begin..end.value];
    }
    HeadersEnd(str, start, given, begin, headers);
    begin, ok := begin + 2, true;
  }

  lemma RequestLineRegrouped(verb: string, target: string, version: string)
    ensures "" + (verb + " ") + (target + " ") + ("HTTP" + "/" + version + CRLF)
            == verb + " " + (target + " " + ("HTTP" + "/" + version)) + CRLF
  {}

  lemma StatusLineRegrouped(version: string, code: string, text: string)
    ensures "" + ("HTTP" + "/" + version + " ") + (code + " ") + (text + CRLF)
            == "HTTP/" + version + " " + (code + " " + text) + CRLF
  {
    assert "HTTP" + "/" == "HTTP/";
  }

  lemma HeadRegrouped(first: string, lines: string, body: string)
    ensures first + lines + CRLF + body == first + (lines + CRLF) + body == first + (lines + CRLF + body)
  {}

  class HTTPRequest {
    var verb: string
    var target: string
    var version: string
    var headers: Headers
    var body: string

    ghost function State(): Request
      reads this
    {
      Request(verb, target, version, headers, body)
    }

    constructor ()
      ensures State() == EMPTY
    {
      verb, target, version, headers, body := "", "", "", map[], "";
    }

    method ToString() returns (res: string)
      modifies this
      ensures State() == Completed(old(State()))
      ensures res == Print(old(State()))
    {
      if CONTENT_LENGTH !in headers && |body| != 0 {
        headers := headers[CONTENT_LENGTH := Decimal(|body|)];
      }
      ghost var d := Parts(old(State()));
      res := "";
      res := res + (verb + " ");
      res := res + (target + " ");
      res := res + ("HTTP" + "/" + version + CRLF);
      RequestLineRegrouped(verb, target, version);
      var lines := GetHeaders(headers);
      res := res + lines;
      res := res + CRLF;
      res := res + body;
      HeadRegrouped(StartLine(d) + CRLF, lines, body);
    }

    /** ok == false stands for a thrown ArgumentError; the fields read so far stay set. */
    method FromString(str: string) returns (ok: bool)
      modifies this
      ensures HttpFormat.Parsed(State(), ok) == Parse(old(State()), str)
    {
      var end := FindPair(str, '\r', '\n', 0);
      if end.None? {
        return false;
      }
      var line := str[..end.value];
      ok := ReadRequestLine(line);
      if ok {
        ok := ReadRest(str, |line| + 2);
      }
    }

    /** The first part of fromString: the request line. */
    method ReadRequestLine(line: string) returns (ok: bool)
      modifies this
      ensures State() == WithStart(old(State()), ReadStart(line)) && ok == ReadStart(line).Start?
    {
      var a := FindChar(line, ' ', 0);
      if a.None? {
        return false;
      }
      verb := line[..a.value];
      var begin := a.value + 1;
      var b := FindChar(line, ' ', begin);
      if b.None? {
        return false;
      }
      target := line[begin..b.value];
      begin := b.value + 1;
      var c := FindChar(line, '/', begin);
      if c.None? {
        return false;
      }
      begin := c.value + 1;
      version := line[begin..];
      return true;
    }

    /** The rest of fromString: header lines, then the body. */
    method ReadRest(str: string, start: nat) returns (ok: bool)
      requires start <= |str|
      modifies this
      ensures HttpFormat.Parsed(State(), ok) == ParseRest(old(State()), str, start)
    {
      var begin, read;
      headers, begin, read := ReadHeaderLines(str, start, headers);
      if !read {
        return false;
      }
      if CONTENT_LENGTH in headers {
        var bodySize := ScanSize(headers[CONTENT_LENGTH]);
        if |str| - begin != bodySize {
          return false;
        }
        body := str[begin..begin + bodySize];
        assert begin + bodySize == |str| && body == str[begin..|str|] == str[begin..];
      }
      return true;
    }

    method DoKeepAlive() returns (r: bool)
      ensures r == KeepAlive(headers)
    {
      if CONNECTION !in headers {
        return false;
      }
      var params := headers[CONNECTION];
      ghost var given, lower := params, Lower(params);
      for i := 0 to |params|
        invariant |params| == |given|
        invariant forall j | 0 <= j < i :: params[j] == lower[j]
        invariant forall j | i <= j < |params| :: params[j] == given[j]
      {
        params := params[i := ToLower(params[i])];
      }
      assert params == lower;
      return params == "keep-alive";
    }
  }

  class HTTPResponse {
    var version: string
    var status: R.Status
    var headers: Headers
    var body: string

    ghost function State(): R.Response
      reads this
    {
      R.Response(version, status, headers, body)
    }

    constructor ()
      ensures State() == R.NO_RESPONSE
    {
      version, status, headers, body := "", 0, map[], "";
    }

    method ToString(reason: R.Phrases) returns (res: string)
      modifies this
      ensures State() == R.Completed(old(State()))
      ensures res == R.Print(old(State()), reason)
    {
      if CONTENT_LENGTH !in headers && |body| != 0 {
        headers := headers[CONTENT_LENGTH := Decimal(|body|)];
      }
      ghost var m := old(State());
      res := "";
      res := res + ("HTTP" + "/" + version + " ");
      res := res + (SignedDecimal(status as int) + " ");
      res := res + (reason(status) + CRLF);
      StatusLineRegrouped(version, SignedDecimal(status as int), reason(status));
      var lines := GetHeaders(headers);
      res := res + lines;
      res := res + CRLF;
      res := res + body;
      HeadRegrouped(R.StatusLine(m, reason) + CRLF, lines, body);
    }

    method FromString(str: string) returns (outcome: R.Outcome)
      modifies this
      ensures R.Reading(State(), outcome) == R.Parse(old(State()), str)
    {
      var end := FindPair(str, '\r', '\n', 0);
      if end.None? {
        return R.ArgumentError;
      }
      var line := str[..end.value];
      outcome := ReadStatusLine(line);
      if outcome == R.Accepted {
        outcome := ReadRest(str, |line| + 2);
      }
    }

    /** The first part of fromString: the status line. */
    method ReadStatusLine(line: string) returns (outcome: R.Outcome)
      modifies this
      ensures State() == R.WithStatus(old(State()), R.ReadStatus(line)) && outcome == R.ReadStatus(line).Result()
    {
      var slash := FindChar(line, '/', 0);
      if slash.None? {
        return R.ArgumentError;
      }
      var begin := slash.value + 1;
      var a := FindChar(line, ' ', 0);
      if a.None? {
        return R.ArgumentError;
      }
      version := R.VersionIn(line, begin, a.value);
      begin := a.value + 1;
      var b := FindChar(line, ' ', begin);
      if b.None? {
        return R.ArgumentError;
      }
      var code := ScanInteger(line[begin..b.value]);
      if code.None? {
        return R.InvalidArgument;
      }
      if !(-TWO_31 <= code.value < TWO_31) {
        return R.OutOfRange;
      }
      status := code.value as R.Status;
      return R.Accepted;
    }

    /** The rest of fromString: header lines, then the body. */
    method ReadRest(str: string, start: nat) returns (outcome: R.Outcome)
      requires start <= |str|
      modifies this
      ensures R.Reading(State(), outcome) == R.ParseRest(old(State()), str, start)
    {
      var begin, read;
      headers, begin, read := ReadHeaderLines(str, start, headers);
      if !read {
        return R.ArgumentError;
      }
      if CONTENT_LENGTH in headers {
        var bodySize := ScanSize(headers[CONTENT_LENGTH]);
        if |str| - begin != bodySize {
          return R.ArgumentError;
        }
        body := str[begin..begin + bodySize];
        assert begin + bodySize == |str| && body == str[begin..|str|] == str[begin..];
      }
      return R.Accepted;
    }
  }
}
