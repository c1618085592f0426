// What the request printer and parser promise each other: round trip,
// retraction and self-delimitation, each on all inputs.
module HttpLaws {
  import opened Wrappers
  import opened Text
  import opened HttpFormat

  // ---------------------------------------------------------------- headers

  ghost predicate GoodHeaders(h: Headers) {
    forall k | k in h :: GoodField(Field(k, h[k]))
  }

  lemma {:induction false} AddAllOrigin(h: Headers, fields: seq<Field>, k: string)
    requires k in AddAll(h, fields)
    ensures Field(k, AddAll(h, fields)[k]) in fields || (k in h && h[k] == AddAll(h, fields)[k])
    decreases |fields|
  {
    if fields != [] {
      AddAllOrigin(h[fields[0].name := fields[0].info], fields[1..], k);
    }
  }

  ghost function Selected(h: Headers, keys: seq<string>): Headers {
    map k | k in keys && k in h :: h[k]
  }

  lemma OneMoreEntry(g: Headers, h: Headers, keys: seq<string>)
    requires keys != [] && forall k | k in keys :: k in h
    ensures g[keys[0] := h[keys[0]]] + Selected(h, keys[1..]) == g + Selected(h, keys)
  {
    assert keys == [keys[0]] + keys[1..];
  }

  lemma {:induction false} AddAllOfKeys(g: Headers, h: Headers, keys: seq<string>)
    requires forall k | k in keys :: k in h
    ensures AddAll(g, FieldsOf(h, keys)) == g + Selected(h, keys)
    decreases |keys|
  {
    if keys == [] {
      assert Selected(h, keys) == map[];
    } else {
      var fields := FieldsOf(h, keys);
      var g' := g[keys[0] := h[keys[0]]];
      assert fields[1..] == FieldsOf(h, keys[1..]);
      assert AddAll(g, fields) == AddAll(g', fields[1..]);
      AddAllOfKeys(g', h, keys[1..]);
      OneMoreEntry(g, h, keys);
    }
  }

  /** Reading back the printed entries rebuilds the std::map. */
  lemma EntriesRebuild(h: Headers)
    ensures AddAll(map[], Entries(h)) == h
  {
    var keys := SortedKeys(h.Keys);
    AddAllOfKeys(map[], h, keys);
    assert Selected(h, keys) == h;
  }

  lemma EntriesGood(h: Headers)
    requires GoodHeaders(h)
    ensures GoodFields(Entries(h))
  {
    var keys := SortedKeys(h.Keys);
    forall f | f in Entries(h) ensures GoodField(f) {
      var i :| 0 <= i < |keys| && Entries(h)[i] == f;
      assert keys[i] in keys;
    }
  }

  lemma DigitsHaveNoCrlf(s: string)
    requires AllDigits(s)
    ensures NoPair(s, '\r', '\n')
  {
    forall i: nat ensures !PairAt(s, '\r', '\n', i) {
      if i < |s| { assert IsDigit(s[i]); }
    }
  }

  lemma CompletedHeadersGood(h: Headers, body: string)
    ensures GoodHeaders(WithLength(h, body)) <==> GoodHeaders(h)
  {
    var g := WithLength(h, body);
    DigitsHaveNoCrlf(Decimal(|body|));
    forall k | k in h ensures k in g && g[k] == h[k] {}
  }

  /** The size clause of a well-formed message, for both kinds of message. */
  ghost predicate LengthAgrees(h: Headers, body: string) {
    if CONTENT_LENGTH in h then ScanSize(h[CONTENT_LENGTH]) == |body| else |body| < TWO_63
  }

  lemma LengthAgreesMeansFits(h: Headers, body: string)
    ensures LengthAgrees(h, body) ==> BodyFits(WithLength(h, body), body)
    ensures BodyFits(WithLength(h, body), body) ==> LengthAgrees(h, body)
    ensures BodyRead(WithLength(h, body), "", body) == body
  {
    ScanSizeOfDecimal(|body|);
  }

  // ---------------------------------------------------------------- round trip

  /**
   * The requests that survive printing: no space in method or target, no CRLF
   * in any part, no ": " in a header name, an honest Content-Length.
   */
  ghost predicate WellFormed(m: Request) {
    && ' ' !in m.verb && ' ' !in m.target
    && NoPair(m.verb, '\r', '\n') && NoPair(m.target, '\r', '\n') && NoPair(m.version, '\r', '\n')
    && GoodHeaders(m.headers)
    && LengthAgrees(m.headers, m.body)
  }

  lemma PartsAccepted(m: Request)
    requires WellFormed(m)
    ensures Accepts(EMPTY, Parts(m)) && Build(EMPTY, Parts(m)) == Completed(m)
  {
    var h := Completed(m).headers;
    CompletedHeadersGood(m.headers, m.body);
    EntriesGood(h);
    EntriesRebuild(h);
    LengthAgreesMeansFits(m.headers, m.body);
    assert forall i: nat :: !PairAt("HTTP", '\r', '\n', i);
  }

  lemma BuiltIsWellFormed(d: Raw)
    requires Accepts(EMPTY, d)
    ensures WellFormed(Build(EMPTY, d)) && Completed(Build(EMPTY, d)) == Build(EMPTY, d)
  {
    var m := Build(EMPTY, d);
    forall k | k in m.headers ensures GoodField(Field(k, m.headers[k])) {
      AddAllOrigin(map[], d.fields, k);
    }
  }

  /** fromString(toString(m)) gives m back, with its length inserted, iff m is well formed. */
  lemma RoundTripExactly(m: Request)
    ensures Parse(EMPTY, Print(m)) == Parsed(Completed(m), true) <==> WellFormed(m)
  {
    if WellFormed(m) {
      PartsAccepted(m);
      ParseOfRender(EMPTY, Parts(m));
    }
    if Parse(EMPTY, Print(m)) == Parsed(Completed(m), true) {
      Retraction(Print(m));
      CompletedHeadersGood(m.headers, m.body);
      LengthAgreesMeansFits(m.headers, m.body);
    }
  }

  /** Every accepted text yields a well-formed request, and printing it loses nothing. */
  lemma Retraction(s: string)
    requires Parse(EMPTY, s).ok
    ensures WellFormed(Parse(EMPTY, s).message)
    ensures Completed(Parse(EMPTY, s).message) == Parse(EMPTY, s).message
    ensures Parse(EMPTY, Print(Parse(EMPTY, s).message)) == Parse(EMPTY, s)
  {
    ParseByParts(EMPTY, s);
    DecomposeSound(s);
    BuiltIsWellFormed(Decompose(s).value);
    PartsAccepted(Parse(EMPTY, s).message);
    ParseOfRender(EMPTY, Parts(Parse(EMPTY, s).message));
  }

  /** Two well-formed requests with the same text are the same up to the inserted length. */
  lemma PrintIsInjective(m1: Request, m2: Request)
    requires WellFormed(m1) && WellFormed(m2) && Print(m1) == Print(m2)
    ensures Completed(m1) == Completed(m2)
  {
    RoundTripExactly(m1);
    RoundTripExactly(m2);
  }

  // ---------------------------------------------------------------- self-delimitation

  /** A prefix is cut like the whole once it has the blank line, and not at all before. */
  lemma PrefixDecomposes(d: Raw, p: string)
    requires Grammar(d) && p <= Render(d)
    ensures Decompose(p) == if |p| < |Head(d)| then None else Some(d.(rest := p[|Head(d)|..]))
  {
    if |p| >= |Head(d)| {
      LongPrefix(Head(d), d.rest, p);
      DecomposeOfRender(d.(rest := p[|Head(d)|..]));
    } else {
      ShortPrefix(d, p);
    }
  }

  lemma ShortPrefix(d: Raw, p: string)
    requires Grammar(d) && p <= Render(d) && |p| < |Head(d)|
    ensures Decompose(p) == None
  {
    if Decompose(p).Some? {
      DecomposeSound(p);
      PrefixAndRest(p, Render(d));
      HeadIsDetermined(Decompose(p).value, Render(d)[|p|..], d);
      assert false;
    }
  }

  lemma PrefixAndRest(p: string, s: string)
    requires p <= s
    ensures p + s[|p|..] == s
  {}

  lemma LongPrefix(head: string, rest: string, p: string)
    requires p <= head + rest && |head| <= |p|
    ensures head + p[|head|..] == p
  {
    assert p == (head + rest)[..|p|];
  }

  lemma HeadIsDetermined(e: Raw, more: string, d: Raw)
    requires Grammar(e) && Grammar(d) && Render(e) + more == Render(d)
    ensures Head(e) == Head(d)
  {
    var longer := e.(rest := e.rest + more);
    assert Render(longer) == Render(e) + more;
    GrammarIsUnambiguous(longer, d);
  }

  /** Exactly which prefixes of an accepted text are themselves accepted. */
  lemma AcceptedPrefixes(m: Request, d: Raw, p: string)
    requires Accepts(m, d) && p <= Render(d)
    ensures Parse(m, p).ok <==>
            |Head(d)| <= |p| && (CONTENT_LENGTH in AddAll(m.headers, d.fields) ==> p == Render(d))
  {
    PrefixDecomposes(d, p);
    ParseByParts(m, p);
    if |Head(d)| <= |p| {
      var rest := p[|Head(d)|..];
      assert |rest| == |d.rest| ==> p == Render(d);
    }
  }

  /** A text accepted with a Content-Length has no other accepted prefix and no accepted extension. */
  lemma {:induction false} SelfDelimiting(m: Request, s: string, t: string)
    requires Parse(m, s).ok && Parse(m, t).ok && s <= t
    requires CONTENT_LENGTH in Parse(m, s).message.headers || CONTENT_LENGTH in Parse(m, t).message.headers
    ensures s == t
  {
    ParseByParts(m, s);
    ParseByParts(m, t);
    DecomposeSound(t);
    var d := Decompose(t).value;
    PrefixDecomposes(d, s);
    AcceptedPrefixes(m, d, s);
  }

  /** Without one, bytes after the blank line are dropped silently. */
  lemma TrailingBytesDropped(m: Request, s: string, more: string)
    requires Parse(m, s).ok && CONTENT_LENGTH !in Parse(m, s).message.headers
    ensures Parse(m, s + more) == Parse(m, s)
  {
    ParseByParts(m, s);
    DecomposeSound(s);
    var d := Decompose(s).value;
    var e := d.(rest := d.rest + more);
    RenderMore(d, more);
    ParseOfRender(m, e);
  }

  lemma RenderMore(d: Raw, more: string)
    ensures Render(d.(rest := d.rest + more)) == Render(d) + more
  {
    PlusAssociates(Head(d), d.rest, more);
  }

  lemma PlusAssociates(x: string, y: string, z: string)
    ensures x + (y + z) == x + y + z
  {}

  /** No strict prefix of a printed well-formed request is accepted. */
  lemma {:induction false} PrintedPrefixRejected(m: Request, p: string)
    requires WellFormed(m) && p < Print(m)
    ensures !Parse(EMPTY, p).ok
  {
    PartsAccepted(m);
    AcceptedPrefixes(EMPTY, Parts(m), p);
  }
}
