// One connection served by connectionCallback: a machine whose steps are the
// results of the read and write calls it makes, resumed and restarted the way
// handleConnection does it.
module Session {
  import opened Wrappers
  import opened HttpFormat
  import opened Coroutine

  const READ_SIZE := 256

  /** The result of one system call on the socket. */
  datatype Event = Data(chunk: string) | Wrote(count: nat) | WouldBlock | EndOfFile | Failure

  /**
   * What the callback does with bytes and requests: try to read a request off
   * the whole buffer, produce the response text, decide whether to stay open.
   */
  datatype Protocol = Protocol(accept: string -> Option<Request>, reply: Request -> string, keep: Request -> bool)

  /** Where the routine stands: in readRequest, or in writeResponse with msg left to send. */
  datatype Frame = Reading | Writing(request: Request, msg: string)

  /**
   * The connection, the routine serving it, and two histories: the bytes the
   * kernel took and the requests readRequest returned. broken means that an
   * exception escaped the routine.
   */
  datatype Session = State(frame: Frame, buffer: string, isOpen: bool, sent: string,
                             served: seq<Request>, broken: bool)
  {
    predicate Live() {
      isOpen && !broken
    }
  }

  const ACCEPTED := State(Reading, "", true, "", [], false)

  /** The kernel's side of the contract for the call that the routine makes next. */
  predicate Legal(s: Session, e: Event) {
    match s.frame
    case Reading => (e.Data? && 0 < |e.chunk| <= READ_SIZE) || e.WouldBlock? || e.EndOfFile? || e.Failure?
    case Writing(_, msg) => (e.Wrote? && e.count <= |msg|) || e.WouldBlock? || e.Failure?
  }

  /** handleConnection, once resume is back: an open connection without bytes gets a fresh routine. */
  function Parked(s: Session): Session {
    if s.isOpen && s.buffer == "" then s.(frame := Reading) else s
  }

  const DESCRIPTOR_ERROR: nat := 1
  const IO_ERROR: nat := 2

  /** What the routine does with the result, up to its next call or its stop. */
  function Advance(s: Session, e: Event, p: Protocol): Session
    requires Legal(s, e)
  {
    match s.frame
    case Reading =>
      (match e
       case Data(chunk) => s.(buffer := s.buffer + chunk)
       case WouldBlock =>
         var m := p.accept(s.buffer);
         if m.Some? then s.(frame := Writing(m.value, p.reply(m.value)), served := s.served + [m.value]) else s
       case EndOfFile => s.(isOpen := false, broken := true)
       case _ => s.(broken := true))
    case Writing(request, msg) =>
      (match e
       case Wrote(n) =>
         var t := s.(frame := Writing(request, msg[n..]), sent := s.sent + msg[..n]);
         if msg[n..] != "" then t else t.(buffer := "", isOpen := p.keep(request))
       case WouldBlock => s
       case _ => s.(broken := true))
  }

  /** Whether the routine then gives control back, and how. */
  function Stops(s: Session, e: Event, p: Protocol): Option<Exit>
    requires Legal(s, e)
  {
    match s.frame
    case Reading =>
      (match e
       case Data(_) => None
       case WouldBlock => if p.accept(s.buffer).Some? then None else Some(Yields)
       case EndOfFile => Some(Throws(DESCRIPTOR_ERROR))
       case _ => Some(Throws(IO_ERROR)))
    case Writing(_, msg) =>
      (match e
       case Wrote(n) => if msg[n..] != "" then None else Some(Returns)
       case WouldBlock => Some(Yields)
       case _ => Some(Throws(IO_ERROR)))
  }

  /** One call of the routine, and handleConnection's part if that was the last before a stop. */
  function Step(s: Session, e: Event, p: Protocol): Session
    requires Legal(s, e)
  {
    var t := Advance(s, e, p);
    match Stops(s, e, p)
    case None => t
    case Some(exit) => if exit.Throws? then t else Parked(t)
  }

  /** Every event answers a call that the live routine really makes. */
  predicate LegalRun(s: Session, es: seq<Event>, p: Protocol)
    decreases |es|
  {
    es != [] ==> s.Live() && Legal(s, es[0]) && LegalRun(Step(s, es[0], p), es[1..], p)
  }

  function Run(s: Session, es: seq<Event>, p: Protocol): Session
    requires LegalRun(s, es, p)
    decreases |es|
  {
    if es == [] then s else Run(Step(s, es[0], p), es[1..], p)
  }

  /** The machine gets from s to t on the events of es before rest. */
  predicate Reaches(s: Session, es: seq<Event>, t: Session, rest: seq<Event>, p: Protocol)
    decreases |es|
  {
    (s == t && es == rest)
    || (es != [] && s.Live() && Legal(s, es[0]) && Reaches(Step(s, es[0], p), es[1..], t, rest, p))
  }

  lemma {:induction false} ReachesOneMore(s: Session, es: seq<Event>, t: Session, rest: seq<Event>, p: Protocol)
    requires Reaches(s, es, t, rest, p) && rest != [] && t.Live() && Legal(t, rest[0])
    ensures Reaches(s, es, Step(t, rest[0], p), rest[1..], p)
    decreases |es|
  {
    if !(s == t && es == rest) {
      ReachesOneMore(Step(s, es[0], p), es[1..], t, rest, p);
    }
  }

  lemma {:induction false} ReachesJoins(s: Session, es: seq<Event>, t: Session, mid: seq<Event>,
                                        u: Session, rest: seq<Event>, p: Protocol)
    requires Reaches(s, es, t, mid, p) && Reaches(t, mid, u, rest, p)
    ensures Reaches(s, es, u, rest, p)
    decreases |es|
  {
    if !(s == t && es == mid) {
      ReachesJoins(Step(s, es[0], p), es[1..], t, mid, u, rest, p);
    }
  }

  /** What is reached on the way has the same end. */
  lemma {:induction false} ReachesRun(s: Session, es: seq<Event>, t: Session, rest: seq<Event>, p: Protocol)
    requires LegalRun(s, es, p) && Reaches(s, es, t, rest, p)
    ensures LegalRun(t, rest, p) && Run(s, es, p) == Run(t, rest, p)
    decreases |es|
  {
    if !(s == t && es == rest) {
      ReachesRun(Step(s, es[0], p), es[1..], t, rest, p);
    }
  }

  // ---------------------------------------------------------------- lockstep clients

  /** The text means m when complete and nothing before that. */
  ghost predicate Delimited(p: Protocol, text: string, m: Request) {
    text != "" && forall b | b <= text :: p.accept(b) == if b == text then Some(m) else None
  }

  /** A client's requests and the texts it sends for them. */
  datatype Client = Client(texts: seq<string>, requests: seq<Request>)

  /** No request is read from no bytes, and no response is empty. */
  ghost predicate Sensible(p: Protocol) {
    p.accept("") == None && forall m :: p.reply(m) != ""
  }

  ghost predicate Understands(p: Protocol, c: Client) {
    && |c.texts| == |c.requests|
    && Sensible(p)
    && (forall i | 0 <= i < |c.texts| :: Delimited(p, c.texts[i], c.requests[i]))
  }

  /** The responses to the first k requests, in order. */
  function Replies(c: Client, k: nat, p: Protocol): string
    requires k <= |c.requests|
  {
    if k == 0 then "" else Replies(c, k - 1, p) + p.reply(c.requests[k - 1])
  }

  /** The bytes of request k arrive only while the server reads its k-th request. */
  predicate FromClient(c: Client, s: Session, e: Event) {
    e.Data? ==> |s.served| < |c.texts| && s.buffer + e.chunk <= c.texts[|s.served|]
  }

  predicate Lockstep(c: Client, s: Session, es: seq<Event>, p: Protocol)
    requires LegalRun(s, es, p)
    decreases |es|
  {
    es != [] ==> FromClient(c, s, es[0]) && Lockstep(c, Step(s, es[0], p), es[1..], p)
  }

  /** Where the bytes stand while the k-th request is read or answered. */
  ghost predicate InPlace(c: Client, s: Session, p: Protocol)
    requires |s.served| <= |c.requests| == |c.texts|
  {
    var k := |s.served|;
    match s.frame
    case Reading =>
      && s.sent == Replies(c, k, p)
      && (if k < |c.texts| then s.buffer <= c.texts[k] else s.buffer == "")
      && (k > 0 ==> p.keep(c.requests[k - 1]))
    case Writing(request, msg) =>
      && k > 0 && request == c.requests[k - 1]
      && s.sent + msg == Replies(c, k, p)
      && (if msg != "" then s.isOpen && s.buffer == c.texts[k - 1]
          else !s.isOpen && s.buffer == "" && !p.keep(request))
  }

  /** What is true between any two system calls of a lockstep connection. */
  ghost predicate Faithful(c: Client, s: Session, p: Protocol) {
    && |c.texts| == |c.requests|
    && s.served <= c.requests
    && (forall i | 0 <= i < |s.served| - 1 :: p.keep(c.requests[i]))
    && InPlace(c, s, p)
  }

  lemma ReadStepFaithful(c: Client, s: Session, e: Event, p: Protocol)
    requires Understands(p, c) && Faithful(c, s, p) && s.Live()
    requires s.frame.Reading? && Legal(s, e) && FromClient(c, s, e)
    ensures Faithful(c, Step(s, e, p), p)
  {
    var k := |s.served|;
    if e.WouldBlock? {
      if k < |c.texts| {
        assert Delimited(p, c.texts[k], c.requests[k]);
        assert p.accept(s.buffer).Some? ==> s.served + [c.requests[k]] <= c.requests;
      }
    }
  }

  lemma WriteStepFaithful(c: Client, s: Session, e: Event, p: Protocol)
    requires Understands(p, c) && Faithful(c, s, p) && s.Live()
    requires s.frame.Writing? && Legal(s, e)
    ensures Faithful(c, Step(s, e, p), p)
  {
    var k := |s.served|;
    var msg := s.frame.msg;
    assert Delimited(p, c.texts[k - 1], c.requests[k - 1]);
    if e.Wrote? {
      assert s.sent + msg[..e.count] + msg[e.count..] == s.sent + msg;
    }
  }

  lemma {:induction false} RunFaithful(c: Client, s: Session, es: seq<Event>, p: Protocol)
    requires Understands(p, c) && Faithful(c, s, p)
    requires LegalRun(s, es, p) && Lockstep(c, s, es, p)
    ensures Faithful(c, Run(s, es, p), p)
    decreases |es|
  {
    if es != [] {
      if s.frame.Reading? {
        ReadStepFaithful(c, s, es[0], p);
      } else {
        WriteStepFaithful(c, s, es[0], p);
      }
      RunFaithful(c, Step(s, es[0], p), es[1..], p);
    }
  }

  // ---------------------------------------------------------------- accounting

  /** The texts of the first k requests. */
  function Texts(c: Client, k: nat): string
    requires k <= |c.texts|
  {
    if k == 0 then "" else Texts(c, k - 1) + c.texts[k - 1]
  }

  /** All bytes that the calls received. */
  function Received(es: seq<Event>): string {
    if es == [] then "" else (if es[0].Data? then es[0].chunk else "") + Received(es[1..])
  }

  /** The number of bytes that the calls sent. */
  function Written(es: seq<Event>): nat {
    if es == [] then 0 else (if es[0].Wrote? then es[0].count else 0) + Written(es[1..])
  }

  /** got are all bytes received: those of the requests taken, and those in the buffer while reading. */
  ghost predicate Accounted(c: Client, s: Session, got: string)
    requires |s.served| <= |c.texts|
  {
    got == Texts(c, |s.served|) + (if s.frame.Reading? then s.buffer else "")
  }

  lemma ReadAccounted(c: Client, s: Session, e: Event, p: Protocol, got: string)
    requires Understands(p, c) && Faithful(c, s, p) && s.frame.Reading? && Legal(s, e) && FromClient(c, s, e)
    requires Accounted(c, s, got) && |Step(s, e, p).served| <= |c.texts|
    ensures Accounted(c, Step(s, e, p), got + (if e.Data? then e.chunk else ""))
    ensures Step(s, e, p).sent == s.sent && |s.served| <= |Step(s, e, p).served|
  {
    var k := |s.served|;
    assert got + "" == got;
    if e.Data? {
      assert Texts(c, k) + s.buffer + e.chunk == Texts(c, k) + (s.buffer + e.chunk);
    } else if e.WouldBlock? && k < |c.texts| {
      assert Delimited(p, c.texts[k], c.requests[k]);
      assert Texts(c, k + 1) + "" == Texts(c, k) + c.texts[k];
    }
  }

  lemma WriteAccounted(c: Client, s: Session, e: Event, p: Protocol, got: string)
    requires Faithful(c, s, p) && s.frame.Writing? && Legal(s, e)
    requires Accounted(c, s, got) && |Step(s, e, p).served| <= |c.texts|
    ensures Accounted(c, Step(s, e, p), got)
    ensures |Step(s, e, p).sent| == |s.sent| + (if e.Wrote? then e.count else 0)
    ensures Step(s, e, p).served == s.served
  {}

  lemma StepAccounted(c: Client, s: Session, e: Event, p: Protocol, got: string)
    requires Understands(p, c) && Faithful(c, s, p) && s.Live() && Legal(s, e) && FromClient(c, s, e)
    requires Accounted(c, s, got)
    ensures Faithful(c, Step(s, e, p), p)
    ensures Accounted(c, Step(s, e, p), got + (if e.Data? then e.chunk else ""))
    ensures |Step(s, e, p).sent| == |s.sent| + (if e.Wrote? then e.count else 0)
    ensures |s.served| <= |Step(s, e, p).served|
  {
    if s.frame.Reading? {
      ReadStepFaithful(c, s, e, p);
      ReadAccounted(c, s, e, p, got);
    } else {
      WriteStepFaithful(c, s, e, p);
      WriteAccounted(c, s, e, p, got);
      assert got + "" == got;
    }
  }

  lemma {:induction false} RunAccounted(c: Client, s: Session, es: seq<Event>, p: Protocol, got: string)
    requires Understands(p, c) && Faithful(c, s, p) && LegalRun(s, es, p) && Lockstep(c, s, es, p)
    requires Accounted(c, s, got)
    ensures Faithful(c, Run(s, es, p), p) && Accounted(c, Run(s, es, p), got + Received(es))
    ensures |Run(s, es, p).sent| == |s.sent| + Written(es) && |s.served| <= |Run(s, es, p).served|
    decreases |es|
  {
    if es == [] {
      assert got + "" == got;
    } else {
      var chunk := if es[0].Data? then es[0].chunk else "";
      StepAccounted(c, s, es[0], p, got);
      RunAccounted(c, Step(s, es[0], p), es[1..], p, got + chunk);
      ReceivedFirst(got, got + chunk, es);
    }
  }

  lemma {:induction false} TextsGrow(c: Client, p: Protocol, k: nat, n: nat)
    requires Understands(p, c) && k <= n <= |c.texts|
    ensures |Texts(c, k)| + (if k < n then |c.texts[k]| else 0) <= |Texts(c, n)|
    ensures k < n - 1 ==> |Texts(c, k)| + |c.texts[k]| < |Texts(c, n)|
  {
    if k < n {
      TextsGrow(c, p, k, n - 1);
      assert Delimited(p, c.texts[n - 1], c.requests[n - 1]);
    }
  }

  /** With all bytes received, all requests were taken or the last one is whole in the buffer. */
  lemma AllReceived(c: Client, s: Session, p: Protocol)
    requires Understands(p, c) && Faithful(c, s, p) && Accounted(c, s, Texts(c, |c.texts|))
    ensures |s.served| < |c.texts| ==>
              s.frame.Reading? && |s.served| == |c.texts| - 1 && s.buffer == c.texts[|s.served|]
  {
    var k, n := |s.served|, |c.texts|;
    if k < n {
      TextsGrow(c, p, k, n);
      assert Delimited(p, c.texts[k], c.requests[k]);
    }
  }

  /** Then EAGAIN takes the last one, if it is not taken yet. */
  lemma TakenByEagain(c: Client, s: Session, p: Protocol)
    requires Understands(p, c) && Faithful(c, s, p) && Accounted(c, s, Texts(c, |c.texts|))
    requires s.Live() && Legal(s, WouldBlock) && FromClient(c, s, WouldBlock)
    ensures |Step(s, WouldBlock, p).served| == |c.texts|
  {
    AllReceived(c, s, p);
    if |s.served| < |c.texts| {
      assert Delimited(p, c.texts[|s.served|], c.requests[|s.served|]);
    }
  }

  lemma FinishedRun(c: Client, s: Session, b: seq<Event>, p: Protocol)
    requires Understands(p, c) && Faithful(c, s, p) && Accounted(c, s, Texts(c, |c.texts|))
    requires LegalRun(s, [WouldBlock] + b, p) && Lockstep(c, s, [WouldBlock] + b, p)
    ensures |Run(s, [WouldBlock] + b, p).served| >= |c.texts|
  {
    assert ([WouldBlock] + b)[1..] == b;
    TakenByEagain(c, s, p);
    StepAccounted(c, s, WouldBlock, p, Texts(c, |c.texts|));
    assert Texts(c, |c.texts|) + "" == Texts(c, |c.texts|);
    RunAccounted(c, Step(s, WouldBlock, p), b, p, Texts(c, |c.texts|));
  }

  /**
   * Completeness: once the bytes of all requests have arrived and one more
   * call answers EAGAIN, all requests have been taken.
   */
  lemma AllTaken(c: Client, a: seq<Event>, b: seq<Event>, p: Protocol)
    requires Understands(p, c)
    requires LegalRun(ACCEPTED, a + [WouldBlock] + b, p) && Lockstep(c, ACCEPTED, a + [WouldBlock] + b, p)
    requires Received(a) == Texts(c, |c.texts|)
    ensures Faithful(c, Run(ACCEPTED, a + [WouldBlock] + b, p), p)
    ensures Run(ACCEPTED, a + [WouldBlock] + b, p).served == c.requests
    ensures |Run(ACCEPTED, a + [WouldBlock] + b, p).sent| == Written(a + [WouldBlock] + b)
  {
    assert a + [WouldBlock] + b == a + ([WouldBlock] + b);
    LockstepParts(c, ACCEPTED, a, [WouldBlock] + b, p);
    RunAccounted(c, ACCEPTED, a, p, "");
    assert "" + Received(a) == Received(a);
    FinishedRun(c, Run(ACCEPTED, a, p), b, p);
    RunAccounted(c, ACCEPTED, a + [WouldBlock] + b, p, "");
  }

  lemma {:induction false} LockstepParts(c: Client, s: Session, a: seq<Event>, b: seq<Event>, p: Protocol)
    requires LegalRun(s, a + b, p) && Lockstep(c, s, a + b, p)
    ensures LegalRun(s, a, p) && Lockstep(c, s, a, p)
    ensures LegalRun(Run(s, a, p), b, p) && Lockstep(c, Run(s, a, p), b, p)
    ensures Run(s, a + b, p) == Run(Run(s, a, p), b, p)
    decreases |a|
  {
    if a == [] {
      assert a + b == b;
    } else {
      assert (a + b)[0] == a[0] && (a + b)[1..] == a[1..] + b;
      LockstepParts(c, Step(s, a[0], p), a[1..], b, p);
    }
  }

  /**
   * And once the counts of the writes add up to the responses, exactly the
   * responses were sent, and nothing is left in the buffer.
   */
  lemma AllSent(c: Client, a: seq<Event>, b: seq<Event>, p: Protocol)
    requires Understands(p, c)
    requires LegalRun(ACCEPTED, a + [WouldBlock] + b, p) && Lockstep(c, ACCEPTED, a + [WouldBlock] + b, p)
    requires Received(a) == Texts(c, |c.texts|)
    requires Written(a + [WouldBlock] + b) == |Replies(c, |c.requests|, p)|
    ensures var s := Run(ACCEPTED, a + [WouldBlock] + b, p);
            s.served == c.requests && s.sent == Replies(c, |c.requests|, p) && s.buffer == ""
  {
    AllTaken(c, a, b, p);
    var s := Run(ACCEPTED, a + [WouldBlock] + b, p);
    if s.frame.Writing? {
      assert |s.sent + s.frame.msg| == |s.sent| + |s.frame.msg|;
      assert s.frame.msg == "" && s.sent + "" == s.sent;
    }
  }

  ghost predicate WritesOnly(es: seq<Event>) {
    forall e | e in es :: e.WouldBlock? || e.Wrote?
  }

  /**
   * The writing counterpart of the chunks: partial writes that add up to the
   * message, the last one not empty, leave it fully sent.
   */
  lemma {:induction false} WritesAddUp(s: Session, es: seq<Event>, p: Protocol)
    requires s.frame.Writing? && s.Live() && s.buffer != "" && s.frame.msg != ""
    requires WritesOnly(es) && Written(es) == |s.frame.msg| && es != []
    requires es[|es| - 1].Wrote? && es[|es| - 1].count > 0
    ensures LegalRun(s, es, p)
    ensures var r := Run(s, es, p);
            && r.sent == s.sent + s.frame.msg && r.buffer == "" && r.served == s.served && !r.broken
            && r.isOpen == p.keep(s.frame.request) && (r.isOpen ==> r.frame == Reading)
    decreases |es|
  {
    var msg := s.frame.msg;
    if |es| == 1 {
      assert es[1..] == [] && msg[es[0].count..] == "" && msg[..es[0].count] == msg;
    } else {
      LastCounts(es[1..]);
      assert es[1..][|es| - 2] == es[|es| - 1];
      var t := Step(s, es[0], p);
      WritesAddUp(t, es[1..], p);
      if es[0].Wrote? {
        assert s.sent + msg[..es[0].count] + msg[es[0].count..] == s.sent + msg;
      }
    }
  }

  lemma {:induction false} LastCounts(es: seq<Event>)
    requires es != [] && es[|es| - 1].Wrote?
    ensures Written(es) >= es[|es| - 1].count
    decreases |es|
  {
    if |es| > 1 {
      assert es[1..][|es| - 2] == es[|es| - 1];
      LastCounts(es[1..]);
    }
  }

  // ---------------------------------------------------------------- one resume

  /** es are the calls of one resume: only the last one stops the routine. */
  predicate Activation(s: Session, es: seq<Event>, p: Protocol)
    decreases |es|
  {
    && es != [] && s.Live() && Legal(s, es[0])
    && if Stops(s, es[0], p).None? then Activation(Advance(s, es[0], p), es[1..], p) else |es| == 1
  }

  /** The routine's state at the stop, before handleConnection goes on, and how it stopped. */
  function Activate(s: Session, es: seq<Event>, p: Protocol): (Session, Exit)
    requires Activation(s, es, p)
    decreases |es|
  {
    match Stops(s, es[0], p)
    case None => Activate(Advance(s, es[0], p), es[1..], p)
    case Some(exit) => (Advance(s, es[0], p), exit)
  }

  lemma {:induction false} ActivationIsRun(s: Session, es: seq<Event>, p: Protocol)
    requires Activation(s, es, p)
    ensures LegalRun(s, es, p)
    ensures var (t, exit) := Activate(s, es, p);
            && Run(s, es, p) == (if exit.Throws? then t else Parked(t))
            && (exit.Throws? <==> t.broken)
    decreases |es|
  {
    if Stops(s, es[0], p).None? {
      ActivationIsRun(Advance(s, es[0], p), es[1..], p);
    } else {
      assert es[1..] == [];
    }
  }

  /** The last call of a resume met the end of the stream or an error: a client that hangs up does this. */
  predicate Breaks(es: seq<Event>) {
    es != [] && (es[|es| - 1].EndOfFile? || es[|es| - 1].Failure?)
  }

  /** Which way a resume ends, and whether it leaves the connection open, is told by its last call. */
  lemma {:induction false} EndsExactly(s: Session, es: seq<Event>, p: Protocol)
    requires Activation(s, es, p)
    ensures var (t, exit), last := Activate(s, es, p), es[|es| - 1];
            && (last.EndOfFile? <==> exit == Throws(DESCRIPTOR_ERROR))
            && (last.Failure? <==> exit == Throws(IO_ERROR))
            && (last.WouldBlock? <==> exit == Yields) && (last.Wrote? <==> exit == Returns) && !last.Data?
            && (last.EndOfFile? ==> !t.isOpen) && (last.Failure? || last.WouldBlock? ==> t.isOpen)
    decreases |es|
  {
    if Stops(s, es[0], p).None? {
      EndsExactly(Advance(s, es[0], p), es[1..], p);
      assert es[1..][|es| - 2] == es[|es| - 1];
    }
  }

  lemma ThrowsExactly(s: Session, es: seq<Event>, p: Protocol)
    requires Activation(s, es, p)
    ensures Activate(s, es, p).1.Throws? <==> Breaks(es)
  {
    EndsExactly(s, es, p);
    ExitIsOne(Activate(s, es, p).1, es[|es| - 1]);
  }

  lemma ExitIsOne(exit: Exit, last: Event)
    requires last.WouldBlock? <==> exit == Yields
    requires last.Wrote? <==> exit == Returns
    requires !last.Data?
    ensures exit.Throws? <==> last.EndOfFile? || last.Failure?
  {}

  lemma ActivateOne(s: Session, e: Event, p: Protocol)
    requires s.Live() && Legal(s, e) && Stops(s, e, p).Some?
    ensures Activation(s, [e], p) && Activate(s, [e], p) == (Advance(s, e, p), Stops(s, e, p).value)
  {}

  lemma ActivateMore(s: Session, es: seq<Event>, p: Protocol)
    requires es != [] && s.Live() && Legal(s, es[0]) && Stops(s, es[0], p).None?
    requires Activation(Advance(s, es[0], p), es[1..], p)
    ensures Activation(s, es, p) && Activate(s, es, p) == Activate(Advance(s, es[0], p), es[1..], p)
  {}

  lemma {:induction false} RunConcat(s: Session, a: seq<Event>, b: seq<Event>, p: Protocol)
    requires LegalRun(s, a, p) && LegalRun(Run(s, a, p), b, p)
    ensures LegalRun(s, a + b, p) && Run(s, a + b, p) == Run(Run(s, a, p), b, p)
    decreases |a|
  {
    if a == [] {
      assert a + b == b;
    } else {
      assert (a + b)[1..] == a[1..] + b;
      RunConcat(Step(s, a[0], p), a[1..], b, p);
    }
  }

  /** A routine answering a request has the request's bytes still buffered. */
  predicate Busy(s: Session) {
    s.frame.Writing? && s.isOpen ==> s.buffer != "" && s.frame.msg != ""
  }

  lemma {:induction false} ActivateBusy(s: Session, es: seq<Event>, p: Protocol)
    requires Sensible(p) && Busy(s) && Activation(s, es, p)
    ensures var (t, exit) := Activate(s, es, p);
            && (exit.Yields? ==> Busy(t) && t.isOpen)
            && (exit.Returns? ==> t.buffer == "")
    decreases |es|
  {
    if Stops(s, es[0], p).None? {
      ActivateBusy(Advance(s, es[0], p), es[1..], p);
    }
  }

  // ---------------------------------------------------------------- chunking

  predicate ReadsOnly(es: seq<Event>) {
    forall e | e in es :: e.WouldBlock? || (e.Data? && 0 < |e.chunk| <= READ_SIZE)
  }

  /** The calls that brought bytes. */
  function Deliveries(es: seq<Event>): nat {
    if es == [] then 0 else (if es[0].Data? then 1 else 0) + Deliveries(es[1..])
  }

  /** One call brings at most 256 bytes. */
  lemma {:induction false} DeliveriesNeeded(s: Session, es: seq<Event>, p: Protocol)
    requires LegalRun(s, es, p)
    ensures |Received(es)| <= 256 * Deliveries(es)
    decreases |es|
  {
    if es != [] {
      DeliveriesNeeded(Step(s, es[0], p), es[1..], p);
    }
  }

  /** A text in pieces of 256 bytes and a last one with the rest. */
  function InFullPieces(text: string): (es: seq<Event>)
    ensures |es| == (|text| + 255) / 256
  {
    if |text| <= 256 then (if text == "" then [] else [Data(text)]) else [Data(text[..256])] + InFullPieces(text[256..])
  }

  /** And it can bring that many: no text needs more calls than that. */
  lemma {:induction false} DeliveriesSuffice(s: Session, text: string, p: Protocol)
    requires s.frame.Reading? && s.Live()
    ensures LegalRun(s, InFullPieces(text), p) && Received(InFullPieces(text)) == text
    decreases |text|
  {
    var es := InFullPieces(text);
    if |text| > 256 {
      assert es[1..] == InFullPieces(text[256..]);
      DeliveriesSuffice(Step(s, es[0], p), text[256..], p);
      assert text == text[..256] + text[256..];
    } else if text != "" {
      assert es[1..] == [] && text + "" == text;
    }
  }

  /** readRequest gathers bytes as long as no EAGAIN finds an acceptable buffer. */
  lemma {:induction false} Gathers(s: Session, es: seq<Event>, p: Protocol)
    requires s.frame.Reading? && s.Live() && ReadsOnly(es)
    requires forall j | 0 <= j < |es| && es[j].WouldBlock? :: p.accept(s.buffer + Received(es[..j])).None?
    ensures LegalRun(s, es, p) && Run(s, es, p) == s.(buffer := s.buffer + Received(es))
    decreases |es|
  {
    if es == [] {
      assert s.buffer + "" == s.buffer;
    } else {
      GathersOne(s, es, p);
      Gathers(Step(s, es[0], p), es[1..], p);
    }
  }

  lemma GathersOne(s: Session, es: seq<Event>, p: Protocol)
    requires s.frame.Reading? && s.Live() && es != [] && ReadsOnly(es)
    requires forall j | 0 <= j < |es| && es[j].WouldBlock? :: p.accept(s.buffer + Received(es[..j])).None?
    ensures var t := Step(s, es[0], p);
            && t == s.(buffer := t.buffer) && t.buffer + Received(es[1..]) == s.buffer + Received(es)
            && forall j | 0 <= j < |es| - 1 && es[1..][j].WouldBlock? ::
                 p.accept(t.buffer + Received(es[1..][..j])).None?
  {
    var t := Step(s, es[0], p);
    StepGathers(s, es, p);
    ReceivedFirst(s.buffer, t.buffer, es);
    forall j | 0 <= j < |es| - 1 && es[1..][j].WouldBlock? ensures p.accept(t.buffer + Received(es[1..][..j])).None? {
      assert es[j + 1].WouldBlock?;
      ReceivedAfterFirst(s.buffer, t.buffer, es, j);
    }
  }

  lemma StepGathers(s: Session, es: seq<Event>, p: Protocol)
    requires s.frame.Reading? && s.Live() && es != [] && ReadsOnly(es)
    requires es[0].WouldBlock? ==> p.accept(s.buffer + Received(es[..0])).None?
    ensures var t := Step(s, es[0], p);
            t == s.(buffer := t.buffer) && t.buffer == s.buffer + (if es[0].Data? then es[0].chunk else "")
  {
    assert es[..0] == [] && s.buffer + "" == s.buffer;
    assert es[0] in es;
  }

  lemma ReceivedAfterFirst(before: string, after: string, es: seq<Event>, j: nat)
    requires j < |es| && after == before + (if es[0].Data? then es[0].chunk else "")
    ensures after + Received(es[1..][..j]) == before + Received(es[..j + 1])
  {
    var front := es[..j + 1];
    assert front[0] == es[0] && front[1..] == es[1..][..j];
    ReceivedFirst(before, after, front);
  }

  lemma ReceivedFirst(before: string, after: string, es: seq<Event>)
    requires es != [] && after == before + (if es[0].Data? then es[0].chunk else "")
    ensures after + Received(es[1..]) == before + Received(es)
  {
    var chunk := if es[0].Data? then es[0].chunk else "";
    PlusAssociates(before, chunk, Received(es[1..]));
  }

  lemma PlusAssociates(x: string, y: string, z: string)
    ensures x + y + z == x + (y + z)
  {}

  lemma {:induction false} ReceivedGrows(es: seq<Event>, j: nat)
    requires j <= |es|
    ensures Received(es[..j]) <= Received(es)
    decreases |es|
  {
    if j > 0 {
      var front := es[..j];
      assert front[0] == es[0] && front[1..] == es[1..][..j - 1];
      ReceivedGrows(es[1..], j - 1);
      var c := if es[0].Data? then es[0].chunk else "";
      PrefixExtends(c, Received(es[1..][..j - 1]), Received(es[1..]));
    }
  }

  lemma PrefixExtends(c: string, x: string, y: string)
    requires x <= y
    ensures c + x <= c + y
  {}

  /**
   * However a delimited text is chunked, readRequest keeps exactly the bytes
   * received, does not return before the last one, and returns the request at
   * the first EAGAIN after it.
   */
  lemma {:induction false} ChunksOfDelimited(p: Protocol, text: string, m: Request, s: Session, es: seq<Event>)
    requires Delimited(p, text, m) && s.frame.Reading? && s.Live() && s.buffer == ""
    requires ReadsOnly(es) && Received(es) <= text
    requires forall j | 0 <= j < |es| && es[j].WouldBlock? :: Received(es[..j]) != text
    ensures LegalRun(s, es, p) && Run(s, es, p) == s.(buffer := Received(es))
    ensures Step(Run(s, es, p), WouldBlock, p)
            == if Received(es) == text
               then s.(buffer := text, frame := Writing(m, p.reply(m)), served := s.served + [m])
               else s.(buffer := Received(es))
  {
    forall j | 0 <= j < |es| && es[j].WouldBlock? ensures p.accept(s.buffer + Received(es[..j])).None? {
      ReceivedGrows(es, j);
      assert "" + Received(es[..j]) == Received(es[..j]);
    }
    Gathers(s, es, p);
    assert "" + Received(es) == Received(es);
  }
}
