// The session machine for HTTP: the callback as the server runs it, the
// connection object it runs on, and the end-to-end promise.
module HttpSession {
  import opened Wrappers
  import opened HttpFormat
  import opened Session
  import L = HttpLaws
  import M = HttpMessage
  import R = ResponseFormat

  /** What HTTPRequest{buffer} gives: a request, or ArgumentError. */
  function Accept(buffer: string): Option<Request> {
    var p := Parse(EMPTY, buffer);
    if p.ok then Some(p.message) else None
  }

  ghost function Http(onRequest: Request -> R.Response, reason: R.Phrases): Protocol {
    Protocol((b: string) => Accept(b),
             (m: Request) => R.Print(onRequest(m), reason),
             (m: Request) => M.KeepAlive(m.headers))
  }

  /** A client that prints these requests. */
  ghost function Printing(ms: seq<Request>): (c: Client)
    ensures |c.texts| == |c.requests| == |ms|
    ensures forall i | 0 <= i < |ms| :: c.texts[i] == Print(ms[i]) && c.requests[i] == Completed(ms[i])
  {
    Client(seq(|ms|, i requires 0 <= i < |ms| => Print(ms[i])),
           seq(|ms|, i requires 0 <= i < |ms| => Completed(ms[i])))
  }

  lemma PrintIsDelimited(m: Request, onRequest: Request -> R.Response, reason: R.Phrases)
    requires L.WellFormed(m)
    ensures Delimited(Http(onRequest, reason), Print(m), Completed(m))
  {
    L.RoundTripExactly(m);
    forall b | b <= Print(m) ensures Accept(b) == if b == Print(m) then Some(Completed(m)) else None {
      if b != Print(m) {
        L.PrintedPrefixRejected(m, b);
      }
    }
  }

  lemma RepliesAreTexts(onRequest: Request -> R.Response, reason: R.Phrases, m: Request)
    ensures Http(onRequest, reason).reply(m) != ""
  {
    R.PrintNotEmpty(onRequest(m), reason);
  }

  lemma AcceptedNotEmpty(buffer: string)
    requires Accept(buffer).Some?
    ensures buffer != ""
  {}

  lemma {:induction false} HttpUnderstands(ms: seq<Request>, onRequest: Request -> R.Response, reason: R.Phrases)
    requires forall i | 0 <= i < |ms| :: L.WellFormed(ms[i])
    ensures Understands(Http(onRequest, reason), Printing(ms))
  {
    var c := Printing(ms);
    var p := Http(onRequest, reason);
    assert p.accept("").None? by {
      if Accept("").Some? { AcceptedNotEmpty(""); }
    }
    forall m ensures p.reply(m) != "" {
      RepliesAreTexts(onRequest, reason, m);
    }
    forall i | 0 <= i < |c.texts| ensures Delimited(p, c.texts[i], c.requests[i]) {
      PrintIsDelimited(ms[i], onRequest, reason);
    }
  }

  /**
   * End to end. Whatever the split of the bytes, the partial writes and the
   * pauses, between any two system calls the bytes sent and the rest of the
   * current response make up the responses so far, in order; nothing is left
   * in the buffer once a response is out; the connection stays open exactly
   * while the requests ask for it.
   */
  lemma {:induction false} EndToEnd(ms: seq<Request>, es: seq<Event>,
                                    onRequest: Request -> R.Response, reason: R.Phrases)
    requires forall i | 0 <= i < |ms| :: L.WellFormed(ms[i])
    requires LegalRun(ACCEPTED, es, Http(onRequest, reason))
    requires Lockstep(Printing(ms), ACCEPTED, es, Http(onRequest, reason))
    ensures Faithful(Printing(ms), Run(ACCEPTED, es, Http(onRequest, reason)), Http(onRequest, reason))
  {
    HttpUnderstands(ms, onRequest, reason);
    RunFaithful(Printing(ms), ACCEPTED, es, Http(onRequest, reason));
  }

  /**
   * Complete, from what goes in and comes out alone: once the bytes of all
   * requests have arrived and one more call answers EAGAIN, all requests have
   * been taken; and once the counts of the writes add up to the responses,
   * exactly these were sent.
   */
  lemma {:induction false} AllAnswered(ms: seq<Request>, a: seq<Event>, b: seq<Event>,
                                       onRequest: Request -> R.Response, reason: R.Phrases)
    requires forall i | 0 <= i < |ms| :: L.WellFormed(ms[i])
    requires LegalRun(ACCEPTED, a + [WouldBlock] + b, Http(onRequest, reason))
    requires Lockstep(Printing(ms), ACCEPTED, a + [WouldBlock] + b, Http(onRequest, reason))
    requires Received(a) == Texts(Printing(ms), |ms|)
    ensures var s := Run(ACCEPTED, a + [WouldBlock] + b, Http(onRequest, reason));
            var replies := Replies(Printing(ms), |ms|, Http(onRequest, reason));
            && s.served == Printing(ms).requests
            && (Written(a + [WouldBlock] + b) == |replies| ==> s.sent == replies && s.buffer == "")
  {
    var p := Http(onRequest, reason);
    HttpUnderstands(ms, onRequest, reason);
    AllTaken(Printing(ms), a, b, p);
    if Written(a + [WouldBlock] + b) == |Replies(Printing(ms), |ms|, p)| {
      AllSent(Printing(ms), a, b, p);
    }
  }

  /** Chunking independence for printed requests. */
  lemma {:induction false} ChunkingIndependence(m: Request, s: Session, es: seq<Event>,
                                                onRequest: Request -> R.Response, reason: R.Phrases)
    requires L.WellFormed(m) && s.frame.Reading? && s.Live() && s.buffer == ""
    requires ReadsOnly(es) && Received(es) <= Print(m)
    requires forall j | 0 <= j < |es| && es[j].WouldBlock? :: Received(es[..j]) != Print(m)
    ensures var p := Http(onRequest, reason);
            && LegalRun(s, es, p) && Run(s, es, p) == s.(buffer := Received(es))
            && Step(Run(s, es, p), WouldBlock, p)
               == if Received(es) == Print(m)
                  then s.(buffer := Print(m), served := s.served + [Completed(m)],
                          frame := Writing(Completed(m), R.Print(onRequest(Completed(m)), reason)))
                  else s.(buffer := Received(es))
  {
    PrintIsDelimited(m, onRequest, reason);
    ChunksOfDelimited(Http(onRequest, reason), Print(m), Completed(m), s, es);
  }

  /**
   * One exchange from beginning to end: the request arrives in any pieces, one
   * EAGAIN follows its last byte, and the response is taken in any pieces. The
   * bytes sent are the printed response to it, and the connection is open
   * afterwards exactly if the request has a header Connection that says
   * keep-alive in letters of either case.
   */
  lemma {:induction false} OneExchange(m: Request, s: Session, es: seq<Event>, ws: seq<Event>,
                                       onRequest: Request -> R.Response, reason: R.Phrases)
    requires L.WellFormed(m) && s.frame.Reading? && s.Live() && s.buffer == ""
    requires ReadsOnly(es) && Received(es) == Print(m)
    requires forall j | 0 <= j < |es| && es[j].WouldBlock? :: Received(es[..j]) != Print(m)
    requires WritesOnly(ws) && Written(ws) == |R.Print(onRequest(Completed(m)), reason)|
    requires ws != [] && ws[|ws| - 1].Wrote? && ws[|ws| - 1].count > 0
    ensures var p, h := Http(onRequest, reason), m.headers;
            && LegalRun(s, es + ([WouldBlock] + ws), p)
            && var r := Run(s, es + ([WouldBlock] + ws), p);
               && r.sent == s.sent + R.Print(onRequest(Completed(m)), reason)
               && r.served == s.served + [Completed(m)] && r.buffer == "" && !r.broken
               && (r.isOpen <==>
                   && "Connection" in h && |h["Connection"]| == 10
                   && forall i | 0 <= i < 10 :: h["Connection"][i] in {"keep-alive"[i], "KEEP-ALIVE"[i]})
  {
    var p := Http(onRequest, reason);
    ChunkingIndependence(m, s, es, onRequest, reason);
    var t := Step(Run(s, es, p), WouldBlock, p);
    R.PrintNotEmpty(onRequest(Completed(m)), reason);
    AcceptedTextNotEmpty(m);
    WritesAddUp(t, ws, p);
    assert ([WouldBlock] + ws)[1..] == ws;
    RunConcat(s, es, [WouldBlock] + ws, p);
    KeepsOpenExactly(m);
  }

  lemma AcceptedTextNotEmpty(m: Request)
    ensures Print(m) != ""
  {
    assert |StartLine(Parts(m))| >= 2;
  }

  lemma KeepsOpenExactly(m: Request)
    ensures M.KeepAlive(Completed(m).headers) <==>
            && "Connection" in m.headers && |m.headers["Connection"]| == 10
            && forall i | 0 <= i < 10 :: m.headers["Connection"][i] in {"keep-alive"[i], "KEEP-ALIVE"[i]}
  {
    M.KeepAliveExactly(Completed(m).headers);
  }

  /**
   * Requests are not separated: once a byte follows a complete request with a
   * Content-Length in the buffer, no later input is ever accepted.
   */
  lemma {:induction false} PipelinedRequestStalls(m: Request, s: Session, es: seq<Event>,
                                                  onRequest: Request -> R.Response, reason: R.Phrases)
    requires L.WellFormed(m) && CONTENT_LENGTH in Completed(m).headers
    requires s.frame.Reading? && s.Live() && Print(m) < s.buffer && ReadsOnly(es)
    ensures LegalRun(s, es, Http(onRequest, reason))
    ensures Run(s, es, Http(onRequest, reason)) == s.(buffer := s.buffer + Received(es))
  {
    forall j | 0 <= j < |es| && es[j].WouldBlock? ensures Accept(s.buffer + Received(es[..j])).None? {
      ExtensionRejected(m, s.buffer + Received(es[..j]));
    }
    Gathers(s, es, Http(onRequest, reason));
  }

  lemma ExtensionRejected(m: Request, t: string)
    requires L.WellFormed(m) && CONTENT_LENGTH in Completed(m).headers && Print(m) < t
    ensures Accept(t).None?
  {
    L.RoundTripExactly(m);
    if Parse(EMPTY, t).ok {
      L.SelfDelimiting(EMPTY, Print(m), t);
      assert false;
    }
  }

  // ---------------------------------------------------------------- the objects

  /** The kernel's side of a socket: what its calls will return, and what it was given. */
  class Socket {
    var script: seq<Event>
    var sent: string

    constructor (script: seq<Event>)
      ensures this.script == script && sent == ""
    {
      this.script, sent := script, "";
    }
  }

  /** A byte count with errno == EAGAIN or not, or one of the exceptions. */
  datatype Io = Count(n: nat, again: bool) | DescriptorError | IOError

  class ConnectionAsync {
    const socket: Socket
    var buffer: string
    var isOpen: bool

    constructor (socket: Socket)
      ensures this.socket == socket && buffer == "" && isOpen
    {
      this.socket, buffer, isOpen := socket, "", true;
    }

    /** At most size bytes, through data. */
    method Read(size: nat) returns (r: Io, data: string)
      requires isOpen ==> socket.script != [] && !socket.script[0].Wrote?
      requires isOpen && socket.script[0].Data? ==> 0 < |socket.script[0].chunk| <= size
      modifies this`isOpen, socket`script
      ensures !old(isOpen) ==> r == DescriptorError && !isOpen && socket.script == old(socket.script)
      ensures old(isOpen) ==>
                var e := old(socket.script[0]);
                && socket.script == old(socket.script[1..])
                && isOpen == !e.EndOfFile?
                && r == (if e.Failure? then IOError else Count(if e.Data? then |e.chunk| else 0, e.WouldBlock?))
                && data == (if e.Data? then e.chunk else "")
    {
      data := "";
      if !isOpen {
        return DescriptorError, data;
      }
      var e := socket.script[0];
      socket.script := socket.script[1..];
      if e.WouldBlock? {
        return Count(0, true), data;
      }
      if e.Failure? {
        return IOError, data;
      }
      if e.Data? {
        data := e.chunk;
      } else {
        isOpen := false;
      }
      r := Count(|data|, false);
    }

    /** Appends what read delivers; an exception leaves the buffer as it was. */
    method ReadToBuffer(size: nat) returns (r: Io)
      requires isOpen ==> socket.script != [] && !socket.script[0].Wrote?
      requires isOpen && socket.script[0].Data? ==> 0 < |socket.script[0].chunk| <= size
      modifies this`isOpen, this`buffer, socket`script
      ensures !old(isOpen) ==> r == DescriptorError && !isOpen
      ensures !old(isOpen) ==> buffer == old(buffer) && socket.script == old(socket.script)
      ensures old(isOpen) ==>
                var e := old(socket.script[0]);
                && socket.script == old(socket.script[1..])
                && isOpen == !e.EndOfFile?
                && buffer == old(buffer) + (if e.Data? then e.chunk else "")
                && r == (if e.Failure? then IOError else Count(if e.Data? then |e.chunk| else 0, e.WouldBlock?))
    {
      if !isOpen {
        return DescriptorError;
      }
      var oldSize := |buffer|;
      buffer := buffer + seq(size, _ => '\0');
      var data;
      r, data := Read(size);
      if !r.Count? {
        buffer := buffer[..oldSize];
        return;
      }
      buffer := buffer[..oldSize] + data + buffer[oldSize + r.n..];
      buffer := buffer[..oldSize + r.n];
    }

    method Write(data: string) returns (r: Io)
      requires isOpen ==> socket.script != []
      requires isOpen ==> var e := socket.script[0]; e.WouldBlock? || e.Failure? || (e.Wrote? && e.count <= |data|)
      modifies socket
      ensures !isOpen ==> r == DescriptorError && socket.script == old(socket.script) && socket.sent == old(socket.sent)
      ensures isOpen ==>
                var e := old(socket.script[0]);
                && socket.script == old(socket.script[1..])
                && socket.sent == old(socket.sent) + (if e.Wrote? then data[..e.count] else "")
                && r == (match e
                         case Wrote(n) => Count(n, false)
                         case WouldBlock => Count(0, true)
                         case _ => IOError)
    {
      if !isOpen {
        return DescriptorError;
      }
      var e := socket.script[0];
      socket.script := socket.script[1..];
      match e
      case Wrote(n) => socket.sent := socket.sent + data[..n]; r := Count(n, false);
      case WouldBlock => r := Count(0, true);
      case _ => r := IOError;
    }

    method Close()
      modifies this`isOpen
      ensures !isOpen
    {
      if !isOpen {
        return;
      }
      isOpen := false;
    }
  }

  /** The object and the history agree with the machine's state. */
  ghost predicate Mirrors(c: ConnectionAsync, s: Session)
    reads c, c.socket
  {
    c.buffer == s.buffer && c.isOpen == s.isOpen && c.socket.sent == s.sent
  }

  /** How a call inside the routine ended: Suspended means that it still waits for the kernel. */
  datatype Ended<+T> = Returned(value: T) | Suspended | Raised(error: Io)

  lemma ReadingStep(t: Session, e: Event, p: Protocol)
    requires t.frame.Reading? && t.Live() && Legal(t, e)
    ensures var u := Step(t, e, p);
            && u.isOpen == !e.EndOfFile? && u.broken == (e.EndOfFile? || e.Failure?) && u.sent == t.sent
            && u.buffer == t.buffer + (if e.Data? then e.chunk else "")
            && u.frame == (if e.WouldBlock? && p.accept(t.buffer).Some?
                           then Writing(p.accept(t.buffer).value, p.reply(p.accept(t.buffer).value)) else Reading)
  {
    assert t.buffer + "" == t.buffer;
  }

  /**
   * The loop of readRequest. A yield is a point where the main context runs;
   * it changes nothing here, so the loop goes on with the next event. Its
   * outcome is the machine's after the events it used.
   */
  method ReadRequest(c: ConnectionAsync, ghost s: Session, ghost p: Protocol)
    returns (r: Ended<M.HTTPRequest>, ghost t: Session)
    requires p.accept == ((b: string) => Accept(b))
    requires s.frame.Reading? && s.Live() && Mirrors(c, s) && LegalRun(s, c.socket.script, p)
    modifies c, c.socket
    ensures Reaches(s, old(c.socket.script), t, c.socket.script, p) && LegalRun(t, c.socket.script, p)
    ensures && Mirrors(c, t)
            && match r
               case Returned(req) =>
                 && fresh(req) && t.frame == Writing(req.State(), p.reply(req.State()))
                 && t.Live() && t.buffer != ""
               case Suspended => t.frame.Reading? && t.Live() && c.socket.script == []
               case Raised(error) => t.broken && error == (if t.isOpen then IOError else DescriptorError)
  {
    ghost var es := c.socket.script;
    t := s;
    while !c.isOpen || c.socket.script != []
      invariant Reaches(s, es, t, c.socket.script, p) && LegalRun(t, c.socket.script, p)
      invariant Mirrors(c, t) && t.frame.Reading? && (t.isOpen ==> t.Live()) && (!t.isOpen ==> t.broken)
      decreases c.isOpen, |c.socket.script|
    {
      if c.isOpen {
        ReachesOneMore(s, es, t, c.socket.script, p);
        ReadingStep(t, c.socket.script[0], p);
        t := Step(t, c.socket.script[0], p);
      }
      var received := c.ReadToBuffer(READ_SIZE);
      if !received.Count? {
        return Raised(received), t;
      }
      if received.again {
        var request := new M.HTTPRequest();
        var ok := request.FromString(c.buffer);
        if ok {
          AcceptedNotEmpty(c.buffer);
          return Returned(request), t;
        }
      }
    }
    return Suspended, t;
  }

  /** The machine t on its way from s, with msg left of text. */
  predicate Sending(s: Session, text: string, t: Session, msg: string, p: Protocol)
    requires s.frame.Writing?
  {
    && !t.broken && t.sent + msg == s.sent + text
    && if msg != "" then t.frame == Writing(s.frame.request, msg) && t.buffer == s.buffer && t.isOpen
       else t.buffer == "" && t.isOpen == p.keep(s.frame.request) && (t.isOpen ==> t.frame.Reading?)
  }

  lemma SendStep(s: Session, text: string, t: Session, msg: string, e: Event, p: Protocol)
    requires s.frame.Writing? && s.buffer != "" && msg != "" && Sending(s, text, t, msg, p) && Legal(t, e)
    ensures e.Wrote? ==> Sending(s, text, Step(t, e, p), msg[e.count..], p)
    ensures e.Wrote? ==> Step(t, e, p).sent == t.sent + msg[..e.count]
    ensures e.WouldBlock? ==> Step(t, e, p) == t && msg[0..] == msg
    ensures e.Failure? ==> Step(t, e, p) == t.(broken := true)
  {
    if e.Wrote? {
      assert t.sent + msg[..e.count] + msg[e.count..] == t.sent + msg;
    }
  }

  /** The loop of writeResponse: sends msg, or what the kernel takes of it. */
  method SendAll(c: ConnectionAsync, text: string, ghost s: Session, ghost p: Protocol)
    returns (r: Ended<()>, ghost t: Session)
    requires s.frame.Writing? && s.frame.msg == text != ""
    requires s.Live() && Mirrors(c, s) && s.buffer != "" && LegalRun(s, c.socket.script, p)
    modifies c.socket
    ensures Reaches(s, old(c.socket.script), t, c.socket.script, p) && LegalRun(t, c.socket.script, p)
    ensures && c.socket.sent == t.sent
            && match r
               case Returned(_) =>
                 && t.buffer == "" && !t.broken && t.sent == s.sent + text
                 && t.isOpen == p.keep(s.frame.request) && (t.isOpen ==> t.frame.Reading?)
               case Suspended => Mirrors(c, t) && t.frame.Writing? && t.Live() && c.socket.script == []
               case Raised(error) => Mirrors(c, t) && t.broken && error == IOError
  {
    ghost var es := c.socket.script;
    t := s;
    var msg := text;
    while |msg| != 0
      invariant Reaches(s, es, t, c.socket.script, p) && LegalRun(t, c.socket.script, p)
      invariant c.isOpen && c.buffer == s.buffer && c.socket.sent == t.sent
      invariant Sending(s, text, t, msg, p)
      decreases |c.socket.script|
    {
      if c.socket.script == [] {
        return Suspended, t;
      }
      ReachesOneMore(s, es, t, c.socket.script, p);
      SendStep(s, text, t, msg, c.socket.script[0], p);
      t := Step(t, c.socket.script[0], p);
      var sent := c.Write(msg);
      if !sent.Count? {
        return Raised(sent), t;
      }
      msg := msg[sent.n..];
    }
    return Returned(()), t;
  }

  /** writeResponse: on return the response is out and the buffer is empty. */
  method WriteResponse(c: ConnectionAsync, resp: M.HTTPResponse, reason: R.Phrases, ghost s: Session, ghost p: Protocol)
    returns (r: Ended<()>, ghost t: Session)
    requires s.frame.Writing? && s.frame.msg == R.Print(resp.State(), reason) != ""
    requires s.Live() && Mirrors(c, s) && s.buffer != "" && LegalRun(s, c.socket.script, p)
    modifies c, c.socket, resp
    ensures Reaches(s, old(c.socket.script), t, c.socket.script, p) && LegalRun(t, c.socket.script, p)
    ensures match r
            case Returned(_) =>
              && c.isOpen && c.buffer == "" == t.buffer && !t.broken
              && c.socket.sent == t.sent == s.sent + s.frame.msg
              && t.isOpen == p.keep(s.frame.request) && (t.isOpen ==> t.frame.Reading?)
            case Suspended => Mirrors(c, t) && t.frame.Writing? && t.Live() && c.socket.script == []
            case Raised(error) => Mirrors(c, t) && t.broken && error == IOError
  {
    var msg := resp.ToString(reason);
    r, t := SendAll(c, msg, s, p);
    if r.Returned? {
      c.buffer := "";
    }
  }

  /** How the callback leaves the connection, seen after handleConnection: as the machine does. */
  ghost predicate Ending(c: ConnectionAsync, r: Ended<()>, t: Session)
    reads c, c.socket
  {
    && Mirrors(c, t)
    && match r
       case Returned(_) => t.buffer == "" && !t.broken && (t.isOpen ==> t.frame.Reading?)
       case Suspended => t.Live() && c.socket.script == []
       case Raised(_) => t.broken
  }

  /**
   * connectionCallback from a fresh routine on: one request, one response. Its
   * end, seen after handleConnection, is the machine's.
   */
  method ConnectionCallback(c: ConnectionAsync, onRequest: Request -> R.Response, reason: R.Phrases, ghost s: Session)
    returns (r: Ended<()>, ghost t: Session)
    requires s.frame.Reading? && s.Live() && Mirrors(c, s)
    requires LegalRun(s, c.socket.script, Http(onRequest, reason))
    modifies c, c.socket
    ensures Reaches(s, old(c.socket.script), t, c.socket.script, Http(onRequest, reason))
    ensures LegalRun(t, c.socket.script, Http(onRequest, reason)) && Ending(c, r, t)
  {
    ghost var p := Http(onRequest, reason);
    ghost var es := c.socket.script;
    var read;
    read, t := ReadRequest(c, s, p);
    if read.Suspended? {
      return Suspended, t;
    }
    if read.Raised? {
      return Raised(read.error), t;
    }
    ghost var mid, left := t, c.socket.script;
    r, t := Answer(c, read.value, onRequest, reason, mid);
    ReachesJoins(s, es, mid, left, t, c.socket.script, p);
  }

  /** The second half of the callback, from onRequest on. */
  method Answer(c: ConnectionAsync, req: M.HTTPRequest, onRequest: Request -> R.Response, reason: R.Phrases,
                ghost s: Session)
    returns (r: Ended<()>, ghost t: Session)
    requires s.frame == Writing(req.State(), R.Print(onRequest(req.State()), reason))
    requires s.Live() && Mirrors(c, s) && s.buffer != ""
    requires LegalRun(s, c.socket.script, Http(onRequest, reason))
    modifies c, c.socket
    ensures Reaches(s, old(c.socket.script), t, c.socket.script, Http(onRequest, reason))
    ensures LegalRun(t, c.socket.script, Http(onRequest, reason)) && Ending(c, r, t)
  {
    var v := onRequest(Request(req.verb, req.target, req.version, req.headers, req.body));
    var resp := new M.HTTPResponse();
    resp.version, resp.status, resp.headers, resp.body := v.version, v.status, v.headers, v.body;
    R.PrintNotEmpty(v, reason);
    r, t := WriteResponse(c, resp, reason, s, Http(onRequest, reason));
    if r.Returned? {
      var keep := req.DoKeepAlive();
      if !keep {
        c.Close();
      }
    }
  }
}
