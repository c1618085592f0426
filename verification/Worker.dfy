// One worker thread of the server: its connections, the routine serving each,
// and the idle set, as the event loop changes them. A routine's stack is kept
// by its id, so a resumed routine acts on the connection it was created for.
module Worker {
  import opened Wrappers
  import opened Coroutine
  import opened IdleTime
  import opened Session
  import F = HttpFormat
  import H = HttpSession
  import L = HttpLaws
  import R = ResponseFormat

  /** A ConnectionAsync with its histories; events are all results of calls made on it. */
  datatype Link = Link(buffer: string, isOpen: bool, sent: string, served: seq<F.Request>, events: seq<Event>)

  const NEW_LINK := Link("", true, "", [], [])

  datatype Worker = Worker(connections: map<nat, Link>, coroutines: map<nat, nat>, idle: seq<Entry>,
                           pool: Pool, frames: map<nat, Frame>)

  const STARTED := Worker(map[], map[], [], EMPTY_POOL, map[])

  ghost predicate Ready(w: Worker) {
    Sound(w.pool) && w.pool.current == 0
  }

  // ---------------------------------------------------------------- the operations on values

  /** Coroutine::create(connectionCallback, ..., connection fd); emplace and [] differ only on old keys. */
  function WithRoutine(w: Worker, fd: nat): Worker
    requires w.pool.finished != [] ==> IsId(w.pool, w.pool.finished[0])
  {
    var id := NextId(w.pool);
    w.(pool := Created(w.pool, fd), frames := w.frames[id := Reading], coroutines := w.coroutines[fd := id])
  }

  /** accept of descriptor fd; without epollOk, addToEpoll throws after the first emplace. */
  function Accepted(w: Worker, fd: nat, epollOk: bool, now: int): Worker
    requires w.pool.finished != [] ==> IsId(w.pool, w.pool.finished[0])
    requires fd !in w.connections && fd !in w.coroutines
  {
    var w1 := w.(connections := w.connections[fd := NEW_LINK]);
    if !epollOk then w1
    else
      var w2 := WithRoutine(w1, fd);
      w2.(idle := Emplaced(w2.idle, Entry(now, fd)))
  }

  function Disconnected(w: Worker, fd: nat): Worker {
    w.(connections := w.connections - {fd}, coroutines := w.coroutines - {fd}, idle := Erased(w.idle, fd))
  }

  function Reset(w: Worker, fd: nat, now: int): Worker {
    w.(idle := Emplaced(Erased(w.idle, fd), Entry(now, fd)))
  }

  /** Routine id on the connection it was created for. */
  function SessionOf(w: Worker, id: nat): Session
    requires IsId(w.pool, id) && id in w.frames && w.pool.slots[id - 1].body in w.connections
  {
    var link := w.connections[w.pool.slots[id - 1].body];
    State(w.frames[id], link.buffer, link.isOpen, link.sent, link.served, false)
  }

  /** The system-call results es fit what resuming fd's routine makes it do; nothing if it has finished. */
  predicate Resumable(w: Worker, fd: nat, es: seq<Event>, p: Protocol) {
    && fd in w.connections && fd in w.coroutines
    && var id := w.coroutines[fd];
       if Unfinished(w.pool, id)
       then id in w.frames && w.pool.slots[id - 1].body in w.connections && Activation(SessionOf(w, id), es, p)
       else es == []
  }

  /** The state when resume is back in handleConnection, and the exit of the routine if it ran. */
  function AfterResume(w: Worker, fd: nat, es: seq<Event>, p: Protocol): (Worker, Option<Exit>)
    requires Resumable(w, fd, es, p) && w.pool.current == 0
  {
    var id := w.coroutines[fd];
    if !Unfinished(w.pool, id) then (w, None)
    else
      var body := w.pool.slots[id - 1].body;
      var (t, exit) := Activate(SessionOf(w, id), es, p);
      var link := Link(t.buffer, t.isOpen, t.sent, t.served, w.connections[body].events + es);
      (w.(pool := Resumed(w.pool, id, exit), frames := w.frames[id := t.frame],
          connections := w.connections[body := link]), Some(exit))
  }

  predicate Threw(exit: Option<Exit>) {
    exit.Some? && exit.value.Throws?
  }

  lemma ThrewExactly(w: Worker, fd: nat, es: seq<Event>, p: Protocol)
    requires Resumable(w, fd, es, p) && w.pool.current == 0
    ensures Threw(AfterResume(w, fd, es, p).1) <==> Breaks(es)
  {
    var id := w.coroutines[fd];
    if Unfinished(w.pool, id) {
      ThrowsExactly(SessionOf(w, id), es, p);
    }
  }

  /** The rest of handleConnection, and the event loop's resetConnectionTime; an exception skips both. */
  function Handled(w: Worker, fd: nat, es: seq<Event>, now: int, p: Protocol): Worker
    requires Ready(w) && Resumable(w, fd, es, p)
  {
    var (w1, exit) := AfterResume(w, fd, es, p);
    if Threw(exit) then w1
    else if !w1.connections[fd].isOpen then Disconnected(w1, fd)
    else
      ReadyAfterResume(w, fd, es, p);
      Reset(if w1.connections[fd].buffer == "" then WithRoutine(w1, fd) else w1, fd, now)
  }

  lemma ReadyAfterResume(w: Worker, fd: nat, es: seq<Event>, p: Protocol)
    requires Ready(w) && Resumable(w, fd, es, p)
    ensures var w1 := AfterResume(w, fd, es, p).0;
            && Ready(w1) && (w1.pool.finished != [] ==> IsId(w1.pool, w1.pool.finished[0]))
  {
    var (w1, exit) := AfterResume(w, fd, es, p);
    if exit.Some? {
      ResumeSound(w.pool, w.coroutines[fd], exit.value);
    }
    assert w1.pool.finished != [] ==> w1.pool.finished[0] in w1.pool.finished;
  }

  /** dropTimeoutedConnections, taking the oldest entry each time; one clock reading per entry looked at. */
  function Swept(w: Worker, nows: seq<int>, timeout: int): Worker
    requires |w.idle| <= |nows|
    decreases |nows|
  {
    if w.idle != [] && Expired(w.idle[0].time, nows[0], timeout)
    then Swept(Disconnected(w, w.idle[0].fd), nows[1..], timeout)
    else w
  }

  // ---------------------------------------------------------------- bookkeeping

  /** The three structures name the same descriptors, each once and in time order. */
  ghost predicate Booked(w: Worker) {
    && InOrder(w.idle) && EachOnce(w.idle)
    && w.coroutines.Keys == w.connections.Keys
    && forall fd :: fd in w.connections <==> Lists(w.idle, fd)
  }

  /** accept keeps the books exactly if epoll took the descriptor and the clock reading is new. */
  lemma AcceptBooks(w: Worker, fd: nat, epollOk: bool, now: int)
    requires Ready(w) && Booked(w) && fd !in w.connections
    requires w.pool.finished != [] ==> IsId(w.pool, w.pool.finished[0])
    ensures Booked(Accepted(w, fd, epollOk, now)) <==> epollOk && !HasTime(w.idle, now)
  {
    var r := Accepted(w, fd, epollOk, now);
    EmplacedMeaning(w.idle, Entry(now, fd));
    assert fd in r.connections;
    if !epollOk {
      assert fd !in r.coroutines.Keys;
    } else if HasTime(w.idle, now) {
      assert !Lists(r.idle, fd);
    } else {
      assert r.coroutines.Keys == r.connections.Keys;
    }
  }

  lemma DisconnectBooks(w: Worker, fd: nat)
    requires Booked(w) && fd in w.connections
    ensures Booked(Disconnected(w, fd))
  {
    ErasedMeaning(w.idle, fd);
  }

  /** resetConnectionTime keeps the books exactly if no other connection has the new time. */
  lemma ResetBooks(w: Worker, fd: nat, now: int)
    requires Booked(w) && fd in w.connections
    ensures Booked(Reset(w, fd, now)) <==> !HasTime(Erased(w.idle, fd), now)
  {
    ErasedMeaning(w.idle, fd);
    EmplacedMeaning(Erased(w.idle, fd), Entry(now, fd));
  }

  /** A clock reading later than all that the idle set holds. */
  ghost predicate Later(w: Worker, now: int) {
    forall i | 0 <= i < |w.idle| :: w.idle[i].time < now
  }

  lemma ErasedStaysEarlier(w: Worker, fd: nat, now: int)
    requires InOrder(w.idle) && EachOnce(w.idle) && Lists(w.idle, fd) && Later(w, now)
    ensures !HasTime(Erased(w.idle, fd), now)
    ensures forall i | 0 <= i < |Erased(w.idle, fd)| :: Erased(w.idle, fd)[i].time < now
  {
    ErasedMeaning(w.idle, fd);
    forall i | 0 <= i < |Erased(w.idle, fd)| ensures Erased(w.idle, fd)[i].time < now {
      assert Erased(w.idle, fd)[i] in w.idle;
    }
  }

  /** The end of handleConnection and the new time, on an open connection. */
  lemma ResetKeepsBooks(w: Worker, fd: nat, now: int)
    requires Booked(w) && fd in w.connections && Later(w, now)
    requires w.pool.finished != [] ==> IsId(w.pool, w.pool.finished[0])
    ensures Booked(Reset(w, fd, now)) && Booked(Reset(WithRoutine(w, fd), fd, now))
  {
    var v := WithRoutine(w, fd);
    assert Booked(v) by {
      assert v.coroutines.Keys == v.connections.Keys;
    }
    ErasedStaysEarlier(w, fd, now);
    ResetBooks(w, fd, now);
    ResetBooks(v, fd, now);
  }

  /** However the routine ends, handling a connection keeps the books. */
  lemma HandleBooks(w: Worker, fd: nat, es: seq<Event>, now: int, p: Protocol)
    requires Ready(w) && Booked(w) && Resumable(w, fd, es, p) && Later(w, now)
    ensures Booked(Handled(w, fd, es, now, p))
  {
    var (w1, exit) := AfterResume(w, fd, es, p);
    ReadyAfterResume(w, fd, es, p);
    ResumeKeepsBooks(w, fd, es, p);
    if !w1.connections[fd].isOpen {
      DisconnectBooks(w1, fd);
    } else {
      ResetKeepsBooks(w1, fd, now);
    }
  }

  lemma ResumeKeepsBooks(w: Worker, fd: nat, es: seq<Event>, p: Protocol)
    requires Ready(w) && Booked(w) && Resumable(w, fd, es, p)
    ensures var w1 := AfterResume(w, fd, es, p).0;
            Booked(w1) && fd in w1.connections && w1.idle == w.idle
  {
    assert AfterResume(w, fd, es, p).0.connections.Keys == w.connections.Keys;
  }

  /** The connection just accepted is the youngest; all others keep their times. */
  lemma AcceptedIsYoungest(w: Worker, fd: nat, now: int)
    requires fd !in w.connections && fd !in w.coroutines && Later(w, now)
    requires w.pool.finished != [] ==> IsId(w.pool, w.pool.finished[0])
    ensures Accepted(w, fd, true, now).idle == w.idle + [Entry(now, fd)]
  {
    EmplacedLast(w.idle, Entry(now, fd));
  }

  /** So is the connection just handled, unless it is gone; an exception leaves its old time. */
  lemma HandledIsYoungest(w: Worker, fd: nat, es: seq<Event>, now: int, p: Protocol)
    requires Ready(w) && Booked(w) && Resumable(w, fd, es, p) && Later(w, now)
    ensures var (w1, exit) := AfterResume(w, fd, es, p);
            Handled(w, fd, es, now, p).idle
            == if Threw(exit) then w.idle
               else Erased(w.idle, fd) + (if w1.connections[fd].isOpen then [Entry(now, fd)] else [])
  {
    var rest := Erased(w.idle, fd);
    ErasedStaysEarlier(w, fd, now);
    EmplacedLast(rest, Entry(now, fd));
    assert rest + [] == rest;
  }

  /** The sweep drops the first entries of the idle set, as many as SweptCount says, and nothing else. */
  lemma {:induction false} SweepTakesOldest(w: Worker, nows: seq<int>, timeout: int)
    requires Booked(w) && |w.idle| <= |nows|
    ensures var n := SweptCount(w.idle, nows, timeout);
            var r := Swept(w, nows, timeout);
            && Booked(r) && r.idle == w.idle[n..] && r.pool == w.pool && r.frames == w.frames
            && (forall fd | fd in r.connections :: fd in w.connections && r.connections[fd] == w.connections[fd]
                                                  && r.coroutines[fd] == w.coroutines[fd])
    decreases |nows|
  {
    if w.idle != [] && Expired(w.idle[0].time, nows[0], timeout) {
      var w1 := Disconnected(w, w.idle[0].fd);
      assert Lists(w.idle, w.idle[0].fd);
      DisconnectBooks(w, w.idle[0].fd);
      SweepTakesOldest(w1, nows[1..], timeout);
      var n := SweptCount(w1.idle, nows[1..], timeout);
      assert w1.idle[n..] == w.idle[n + 1..];
    }
  }

  /** What the idle set keeps stays connected. */
  lemma SweptStays(w: Worker, nows: seq<int>, timeout: int, i: nat)
    requires Booked(w) && |w.idle| <= |nows| && SweptCount(w.idle, nows, timeout) <= i < |w.idle|
    ensures w.idle[i].fd in Swept(w, nows, timeout).connections
  {
    SweepTakesOldest(w, nows, timeout);
    SuffixLists(w.idle, SweptCount(w.idle, nows, timeout), i);
  }

  /** What leaves it is disconnected. */
  lemma SweptGoes(w: Worker, nows: seq<int>, timeout: int, i: nat)
    requires Booked(w) && |w.idle| <= |nows| && i < SweptCount(w.idle, nows, timeout)
    ensures w.idle[i].fd !in Swept(w, nows, timeout).connections
  {
    SweepTakesOldest(w, nows, timeout);
    SuffixLists(w.idle, SweptCount(w.idle, nows, timeout), i);
  }

  /**
   * A connection survives the sweep exactly if at the last clock reading that
   * the sweep takes it was idle for less than one whole second more than the
   * timeout, for any clock that does not run back.
   */
  lemma {:induction false} SweepIsFilter(w: Worker, nows: seq<int>, timeout: int, i: nat)
    requires Booked(w) && |w.idle| <= |nows| && i < |w.idle|
    requires forall j, k | 0 <= j <= k < |nows| :: nows[j] <= nows[k]
    ensures w.idle[i].fd in Swept(w, nows, timeout).connections
            <==> var idleFor := LastLook(w.idle, nows, timeout) - w.idle[i].time;
                 if timeout >= 0 then idleFor < (timeout + 1) * 1_000_000_000 else idleFor <= timeout * 1_000_000_000
  {
    SweepIsExact(w.idle, nows, timeout);
    ExpiredExactly(w.idle[i].time, LastLook(w.idle, nows, timeout), timeout);
    if i < SweptCount(w.idle, nows, timeout) {
      SweptGoes(w, nows, timeout, i);
      ExpiredLater(w.idle[i].time, nows[i], LastLook(w.idle, nows, timeout), timeout);
    } else {
      SweptStays(w, nows, timeout, i);
    }
  }

  // ---------------------------------------------------------------- ownership

  /** fd's routine is unfinished, made for fd, and fd's connection is where the machine is after its events. */
  ghost predicate Owns(w: Worker, fd: nat, p: Protocol) {
    && fd in w.connections && fd in w.coroutines
    && var id := w.coroutines[fd];
       && Unfinished(w.pool, id) && w.pool.slots[id - 1].body == fd && id in w.frames
       && var s := SessionOf(w, id);
          && s.isOpen && Busy(s)
          && LegalRun(ACCEPTED, w.connections[fd].events, p) && Run(ACCEPTED, w.connections[fd].events, p) == s
  }

  /** k is gone, or holds its own routine. */
  ghost predicate Keeps(w: Worker, k: nat, p: Protocol) {
    k in w.connections ==> Owns(w, k, p)
  }

  /** No two connections share a routine. */
  lemma OwnersDiffer(w: Worker, p: Protocol, fd1: nat, fd2: nat)
    requires Owns(w, fd1, p) && Owns(w, fd2, p) && fd1 != fd2
    ensures w.coroutines[fd1] != w.coroutines[fd2]
  {}

  /** A fresh routine for fd leaves every other connection's routine alone. */
  lemma RoutineForOther(w: Worker, fd: nat, other: nat, p: Protocol)
    requires Ready(w) && other != fd && Owns(w, other, p)
    requires w.pool.finished != [] ==> IsId(w.pool, w.pool.finished[0])
    ensures Owns(WithRoutine(w, fd), other, p)
  {
    CreateSound(w.pool, fd);
  }

  /** It puts fd where a fresh session is, if nothing is buffered. */
  lemma RoutineForSelf(w: Worker, fd: nat, p: Protocol)
    requires Ready(w) && fd in w.connections
    requires w.pool.finished != [] ==> IsId(w.pool, w.pool.finished[0])
    requires var l := w.connections[fd];
             && l.isOpen && LegalRun(ACCEPTED, l.events, p)
             && Run(ACCEPTED, l.events, p) == State(Frame.Reading, l.buffer, true, l.sent, l.served, false)
    ensures Owns(WithRoutine(w, fd), fd, p)
  {
    CreateSound(w.pool, fd);
  }

  lemma AcceptKeeps(w: Worker, fd: nat, now: int, k: nat, p: Protocol)
    requires Ready(w) && Keeps(w, k, p) && fd !in w.connections && fd !in w.coroutines
    requires w.pool.finished != [] ==> IsId(w.pool, w.pool.finished[0])
    ensures Keeps(Accepted(w, fd, true, now), k, p)
  {
    var w1 := w.(connections := w.connections[fd := NEW_LINK]);
    if k == fd {
      RoutineForSelf(w1, fd, p);
    } else if k in w.connections {
      assert Owns(w1, k, p);
      RoutineForOther(w1, fd, k, p);
    }
  }

  lemma DisconnectKeeps(w: Worker, fd: nat, k: nat, p: Protocol)
    requires Keeps(w, k, p)
    ensures Keeps(Disconnected(w, fd), k, p)
  {}

  lemma {:induction false} SweepKeeps(w: Worker, nows: seq<int>, timeout: int, k: nat, p: Protocol)
    requires Keeps(w, k, p) && |w.idle| <= |nows|
    ensures Keeps(Swept(w, nows, timeout), k, p)
    decreases |nows|
  {
    if w.idle != [] && Expired(w.idle[0].time, nows[0], timeout) {
      DisconnectKeeps(w, w.idle[0].fd, k, p);
      SweepKeeps(Disconnected(w, w.idle[0].fd), nows[1..], timeout, k, p);
    }
  }

  /**
   * Handling fd does not resume a routine that was made for another connection
   * k. This can be looked up before the call; it fails only when fd holds an
   * id that the pool has given out again.
   */
  predicate SparesOther(w: Worker, fd: nat, k: nat)
    requires fd in w.coroutines
  {
    Unfinished(w.pool, w.coroutines[fd]) ==> w.pool.slots[w.coroutines[fd] - 1].body != k
  }

  /** Resuming fd's routine, however it ends, does not touch such a k. */
  lemma ResumeKeepsOther(w: Worker, fd: nat, es: seq<Event>, k: nat, p: Protocol)
    requires Ready(w) && Resumable(w, fd, es, p) && k != fd && SparesOther(w, fd, k) && Owns(w, k, p)
    ensures Owns(AfterResume(w, fd, es, p).0, k, p)
  {
    var (w1, exit) := AfterResume(w, fd, es, p);
    if exit.Some? {
      ResumeKeepsBodies(w.pool, w.coroutines[fd], exit.value);
    }
  }

  /** The resumed connection follows its session. */
  lemma ResumeFollowsSession(w: Worker, fd: nat, es: seq<Event>, p: Protocol)
    requires Ready(w) && Owns(w, fd, p) && Resumable(w, fd, es, p) && Sensible(p)
    ensures var (w1, exit) := AfterResume(w, fd, es, p);
            var s := SessionOf(w, w.coroutines[fd]);
            var (t, e) := Activate(s, es, p);
            var l := w1.connections[fd];
            && exit == Some(e) && l == Link(t.buffer, t.isOpen, t.sent, t.served, w.connections[fd].events + es)
            && LegalRun(ACCEPTED, l.events, p)
            && Run(ACCEPTED, l.events, p) == (if e.Throws? then t else Parked(t))
            && (e.Throws? <==> t.broken)
            && (e.Yields? ==> Busy(t) && t.isOpen) && (e.Returns? ==> t.buffer == "")
  {
    var s := SessionOf(w, w.coroutines[fd]);
    ActivationIsRun(s, es, p);
    ActivateBusy(s, es, p);
    RunConcat(ACCEPTED, w.connections[fd].events, es, p);
  }

  /** handleConnection on an open connection without exception: the routine it leaves fd with is right. */
  lemma HandleOwnsSelf(w: Worker, fd: nat, es: seq<Event>, p: Protocol)
    requires Ready(w) && Owns(w, fd, p) && Resumable(w, fd, es, p) && Sensible(p)
    requires var (w1, exit) := AfterResume(w, fd, es, p); !Threw(exit) && w1.connections[fd].isOpen
    ensures var w1 := AfterResume(w, fd, es, p).0;
            && (w1.pool.finished != [] ==> IsId(w1.pool, w1.pool.finished[0]))
            && Owns(if w1.connections[fd].buffer == "" then WithRoutine(w1, fd) else w1, fd, p)
  {
    var (w1, exit) := AfterResume(w, fd, es, p);
    ReadyAfterResume(w, fd, es, p);
    ResumeFollowsSession(w, fd, es, p);
    ResumeKeepsBodies(w.pool, w.coroutines[fd], exit.value);
    if w1.connections[fd].buffer == "" {
      RoutineForSelf(w1, fd, p);
    }
  }

  lemma HandleKeepsSelf(w: Worker, fd: nat, es: seq<Event>, now: int, p: Protocol)
    requires Ready(w) && Owns(w, fd, p) && Resumable(w, fd, es, p) && Sensible(p) && !Breaks(es)
    ensures Keeps(Handled(w, fd, es, now, p), fd, p)
  {
    ThrewExactly(w, fd, es, p);
    if AfterResume(w, fd, es, p).0.connections[fd].isOpen {
      HandleOwnsSelf(w, fd, es, p);
    }
  }

  /** What handleConnection does after the resume does not concern another connection k. */
  lemma RestKeepsOther(w: Worker, fd: nat, es: seq<Event>, now: int, k: nat, p: Protocol)
    requires Ready(w) && Resumable(w, fd, es, p) && k != fd && Owns(AfterResume(w, fd, es, p).0, k, p)
    ensures k in Handled(w, fd, es, now, p).connections && Owns(Handled(w, fd, es, now, p), k, p)
  {
    var w1 := AfterResume(w, fd, es, p).0;
    ReadyAfterResume(w, fd, es, p);
    if w1.connections[fd].isOpen && w1.connections[fd].buffer == "" {
      RoutineForOther(w1, fd, k, p);
    }
  }

  lemma HandleKeepsOther(w: Worker, fd: nat, es: seq<Event>, now: int, k: nat, p: Protocol)
    requires Ready(w) && Resumable(w, fd, es, p) && k != fd && SparesOther(w, fd, k) && Owns(w, k, p)
    ensures Keeps(Handled(w, fd, es, now, p), k, p)
  {
    ResumeKeepsOther(w, fd, es, k, p);
    RestKeepsOther(w, fd, es, now, k, p);
  }

  // ---------------------------------------------------------------- the swap

  lemma OneMoreLive(p: Pool, body: nat)
    requires Sound(p)
    ensures |Live(Created(p, body))| == |Live(p)| + 1
  {
    CreateSound(p, body);
    LiveCount(p);
    LiveCount(Created(p, body));
  }

  lemma OneLessLive(p: Pool, id: nat, exit: Exit)
    requires Sound(p) && p.current == 0 && Unfinished(p, id)
    ensures |Live(Resumed(p, id, exit))| == |Live(p)| - (if exit.Yields? then 0 else 1)
  {
    ResumeSound(p, id, exit);
    LiveCount(p);
    LiveCount(Resumed(p, id, exit));
  }

  /**
   * Whenever handleConnection finds the connection open and its buffer empty,
   * fd gets a new routine, whether or not the old one has ended; otherwise it
   * keeps the one it has.
   */
  lemma SwapsExactly(w: Worker, fd: nat, es: seq<Event>, now: int, p: Protocol)
    requires Ready(w) && Resumable(w, fd, es, p)
    requires var (w1, exit) := AfterResume(w, fd, es, p); !Threw(exit) && w1.connections[fd].isOpen
    ensures var w1, r := AfterResume(w, fd, es, p).0, Handled(w, fd, es, now, p);
            && fd in r.connections && r.connections[fd] == w1.connections[fd] && fd in r.coroutines
            && if r.connections[fd].buffer != "" then r.pool == w1.pool && r.coroutines[fd] == w.coroutines[fd]
               else var id := r.coroutines[fd];
                    && |Live(r.pool)| == |Live(w1.pool)| + 1 && !Unfinished(w1.pool, id) && HoldsRoutine(r, fd)
                    && id in r.frames && r.frames[id] == Frame.Reading
  {
    var w1 := AfterResume(w, fd, es, p).0;
    ReadyAfterResume(w, fd, es, p);
    if w1.connections[fd].buffer == "" {
      CreateSound(w1.pool, fd);
      OneMoreLive(w1.pool, fd);
    }
  }

  /**
   * So an event that brings no bytes, to a connection that waits for a
   * request, leaves its routine behind: unfinished for good, and held by no
   * connection that has a routine of its own.
   */
  lemma IdleWakeupAbandons(w: Worker, fd: nat, now: int, p: Protocol)
    requires Ready(w) && Owns(w, fd, p) && Sensible(p)
    requires w.frames[w.coroutines[fd]].Reading? && w.connections[fd].buffer == ""
    ensures Resumable(w, fd, [WouldBlock], p)
    ensures var r, before := Handled(w, fd, [WouldBlock], now, p), w.coroutines[fd];
            && |Live(r.pool)| == |Live(w.pool)| + 1 && Unfinished(r.pool, before)
            && Owns(r, fd, p) && r.coroutines[fd] != before
            && r.frames[r.coroutines[fd]].Reading? && r.connections[fd].buffer == ""
            && forall k | k != fd && k in r.coroutines && HoldsRoutine(r, k) :: r.coroutines[k] != before
  {
    var id, es := w.coroutines[fd], [WouldBlock];
    var s := SessionOf(w, id);
    ActivateOne(s, WouldBlock, p);
    OneLessLive(w.pool, id, Yields);
    ResumeKeepsBodies(w.pool, id, Yields);
    ThrewExactly(w, fd, es, p);
    SwapsExactly(w, fd, es, now, p);
    ReadyAfterResume(w, fd, es, p);
    CreateSound(AfterResume(w, fd, es, p).0.pool, fd);
    HandleKeepsSelf(w, fd, es, now, p);
  }

  // ---------------------------------------------------------------- resuming a routine of another connection

  /** What is left when fd's routine, which is also k's, comes back by a yield. */
  lemma SharedYieldKeeps(w: Worker, fd: nat, es: seq<Event>, k: nat, p: Protocol)
    requires Ready(w) && Resumable(w, fd, es, p) && Owns(w, k, p) && Sensible(p)
    requires w.coroutines[fd] == w.coroutines[k] && AfterResume(w, fd, es, p).1 == Some(Yields)
    ensures Owns(AfterResume(w, fd, es, p).0, k, p)
  {
    var s := SessionOf(w, w.coroutines[k]);
    ActivationIsRun(s, es, p);
    ActivateBusy(s, es, p);
    RunConcat(ACCEPTED, w.connections[k].events, es, p);
    ResumeKeepsBodies(w.pool, w.coroutines[k], Yields);
  }

  /** After any other exit, k is there with a finished routine. */
  lemma SharedEndLoses(w: Worker, fd: nat, es: seq<Event>, k: nat, p: Protocol)
    requires Ready(w) && Resumable(w, fd, es, p) && k != fd && Owns(w, k, p)
    requires w.coroutines[fd] == w.coroutines[k] && AfterResume(w, fd, es, p).1 != Some(Yields)
    ensures var w1 := AfterResume(w, fd, es, p).0;
            && k in w1.connections && w1.coroutines == w.coroutines && w.coroutines[k] in w1.pool.finished
            && !Unfinished(w1.pool, w.coroutines[k])
  {
    var id, w1 := w.coroutines[k], AfterResume(w, fd, es, p).0;
    ResumeSound(w.pool, id, AfterResume(w, fd, es, p).1.value);
    ResumeKeepsBodies(w.pool, id, AfterResume(w, fd, es, p).1.value);
  }

  /** k's id is that of an unfinished routine made for k. */
  predicate HoldsRoutine(w: Worker, k: nat) {
    k in w.coroutines && Unfinished(w.pool, w.coroutines[k]) && w.pool.slots[w.coroutines[k] - 1].body == k
  }

  lemma OwnsHolds(w: Worker, k: nat, p: Protocol)
    requires Owns(w, k, p)
    ensures HoldsRoutine(w, k)
  {}

  /** Then what handleConnection does after the resume does not help k. */
  lemma RestLosesOther(w: Worker, fd: nat, es: seq<Event>, now: int, k: nat, p: Protocol)
    requires Ready(w) && Resumable(w, fd, es, p) && k != fd && k in w.connections && k in w.coroutines
    requires !Unfinished(AfterResume(w, fd, es, p).0.pool, w.coroutines[k])
    ensures k in Handled(w, fd, es, now, p).connections && !HoldsRoutine(Handled(w, fd, es, now, p), k)
  {
    ReadyAfterResume(w, fd, es, p);
    RoutineForOtherLoses(AfterResume(w, fd, es, p).0, fd, k);
  }

  lemma RoutineForOtherLoses(w: Worker, fd: nat, k: nat)
    requires Ready(w) && k != fd && k in w.coroutines && !Unfinished(w.pool, w.coroutines[k])
    requires w.pool.finished != [] ==> IsId(w.pool, w.pool.finished[0])
    ensures var v, id := WithRoutine(w, fd), w.coroutines[k];
            v.connections == w.connections && k in v.coroutines && v.coroutines[k] == id && !HoldsRoutine(v, k)
  {
    CreateSound(w.pool, fd);
  }

  /**
   * An event on a stale descriptor fd resumes the routine that the pool gave
   * to k: k is served on as before exactly if that resume ends with EAGAIN.
   */
  lemma SharedResumeExactly(w: Worker, fd: nat, es: seq<Event>, now: int, k: nat, p: Protocol)
    requires Ready(w) && Resumable(w, fd, es, p) && k != fd && Owns(w, k, p) && Sensible(p)
    requires w.coroutines[fd] == w.coroutines[k]
    ensures k in Handled(w, fd, es, now, p).connections && es != []
    ensures Owns(Handled(w, fd, es, now, p), k, p) <==> es[|es| - 1].WouldBlock?
  {
    EndsExactly(SessionOf(w, w.coroutines[k]), es, p);
    if es[|es| - 1].WouldBlock? {
      SharedYieldKeeps(w, fd, es, k, p);
      RestKeepsOther(w, fd, es, now, k, p);
    } else {
      SharedEndLoses(w, fd, es, k, p);
      RestLosesOther(w, fd, es, now, k, p);
      if Owns(Handled(w, fd, es, now, p), k, p) {
        OwnsHolds(Handled(w, fd, es, now, p), k, p);
      }
    }
  }

  lemma HandledNamesOldOnes(w: Worker, fd: nat, es: seq<Event>, now: int, p: Protocol)
    requires Ready(w) && Resumable(w, fd, es, p)
    ensures Handled(w, fd, es, now, p).connections.Keys <= w.connections.Keys
  {}

  /** An exception breaks it: the descriptor is left with a finished routine that the pool will hand out again. */
  lemma BreakLosesOwnership(w: Worker, fd: nat, es: seq<Event>, now: int, p: Protocol)
    requires Ready(w) && Owns(w, fd, p) && Resumable(w, fd, es, p) && Breaks(es)
    ensures var r := Handled(w, fd, es, now, p);
            && fd in r.connections && r.coroutines[fd] in r.pool.finished && !Keeps(r, fd, p)
  {
    var r := Handled(w, fd, es, now, p);
    ThrewExactly(w, fd, es, p);
    ReadyAfterResume(w, fd, es, p);
    assert !Owns(r, fd, p);
  }

  /**
   * Handling a connection keeps it with an unfinished routine of its own, or
   * disconnects it, exactly when its last call did not meet the end of the
   * stream or an error.
   */
  lemma {:induction false} HandleKeepsExactly(w: Worker, fd: nat, es: seq<Event>, now: int, p: Protocol)
    requires Ready(w) && Owns(w, fd, p) && Resumable(w, fd, es, p) && Sensible(p)
    ensures Keeps(Handled(w, fd, es, now, p), fd, p) <==> !Breaks(es)
  {
    if Breaks(es) {
      BreakLosesOwnership(w, fd, es, now, p);
    } else {
      HandleKeepsSelf(w, fd, es, now, p);
    }
  }

  /** With no other id to recycle, the next accepted connection then gets that very routine id. */
  lemma BreakSharesRoutine(w: Worker, fd: nat, es: seq<Event>, now: int, next: nat, later: int, p: Protocol)
    requires Ready(w) && Owns(w, fd, p) && Resumable(w, fd, es, p) && Breaks(es)
    requires w.pool.finished == [] && next !in w.connections && next !in w.coroutines
    ensures var r := Handled(w, fd, es, now, p);
            && (r.pool.finished != [] ==> IsId(r.pool, r.pool.finished[0]))
            && next !in r.connections && next !in r.coroutines
            && var q := Accepted(r, next, true, later);
               fd in q.coroutines && next in q.coroutines && q.coroutines[next] == q.coroutines[fd]
  {
    ThrewExactly(w, fd, es, p);
    ReadyAfterResume(w, fd, es, p);
    var r := Handled(w, fd, es, now, p);
    assert r.pool.finished == [w.coroutines[fd]];
  }

  /**
   * handleConnection replaces a routine only when it has finished, or when it
   * waits in readRequest without a byte: no request in progress is lost.
   */
  lemma SwapIsSafe(w: Worker, fd: nat, es: seq<Event>, p: Protocol)
    requires Ready(w) && Owns(w, fd, p) && Resumable(w, fd, es, p) && Sensible(p)
    requires var (w1, exit) := AfterResume(w, fd, es, p);
             !Threw(exit) && w1.connections[fd].isOpen && w1.connections[fd].buffer == ""
    ensures var w1 := AfterResume(w, fd, es, p).0;
            var oldId := w.coroutines[fd];
            !Unfinished(w1.pool, oldId) || w1.frames[oldId] == Reading
  {
    ResumeFollowsSession(w, fd, es, p);
  }

  // ---------------------------------------------------------------- runs

  /** One turn of the event loop's body. */
  datatype Turn =
    | Accepting(fd: nat, epollOk: bool, now: int)
    | Handling(fd: nat, es: seq<Event>, now: int)
    | Sweeping(nows: seq<int>, timeout: int)

  /** The kernel hands out unused descriptors, epoll takes them, and the clock strictly increases. */
  ghost predicate Allowed(w: Worker, a: Turn, p: Protocol) {
    match a
    case Accepting(fd, epollOk, now) => fd !in w.connections && epollOk && Later(w, now)
    case Handling(fd, es, now) => Resumable(w, fd, es, p) && Later(w, now)
    case Sweeping(nows, timeout) => |w.idle| <= |nows|
  }

  ghost function Turned(w: Worker, a: Turn, p: Protocol): (r: Worker)
    requires Ready(w) && Booked(w) && Allowed(w, a, p)
    ensures Ready(r) && Booked(r)
  {
    TurnKeepsBooks(w, a, p);
    match a
    case Accepting(fd, epollOk, now) => Accepted(w, fd, epollOk, now)
    case Handling(fd, es, now) => Handled(w, fd, es, now, p)
    case Sweeping(nows, timeout) => Swept(w, nows, timeout)
  }

  lemma AcceptTurnKeepsBooks(w: Worker, fd: nat, now: int)
    requires Ready(w) && Booked(w) && fd !in w.connections && Later(w, now)
    requires w.pool.finished != [] ==> IsId(w.pool, w.pool.finished[0])
    ensures Ready(Accepted(w, fd, true, now)) && Booked(Accepted(w, fd, true, now))
  {
    AcceptBooks(w, fd, true, now);
    CreateSound(w.pool, fd);
  }

  lemma HandleTurnKeepsBooks(w: Worker, fd: nat, es: seq<Event>, now: int, p: Protocol)
    requires Ready(w) && Booked(w) && Resumable(w, fd, es, p) && Later(w, now)
    ensures Ready(Handled(w, fd, es, now, p)) && Booked(Handled(w, fd, es, now, p))
  {
    assert Booked(Handled(w, fd, es, now, p)) by {
      HandleBooks(w, fd, es, now, p);
    }
    assert Ready(Handled(w, fd, es, now, p)) by {
      ReadyAfterResume(w, fd, es, p);
      CreateSound(AfterResume(w, fd, es, p).0.pool, fd);
    }
  }

  lemma TurnKeepsBooks(w: Worker, a: Turn, p: Protocol)
    requires Ready(w) && Booked(w) && Allowed(w, a, p)
    ensures w.pool.finished != [] ==> IsId(w.pool, w.pool.finished[0])
    ensures a.Accepting? ==> Ready(Accepted(w, a.fd, a.epollOk, a.now)) && Booked(Accepted(w, a.fd, a.epollOk, a.now))
    ensures a.Handling? ==> Ready(Handled(w, a.fd, a.es, a.now, p)) && Booked(Handled(w, a.fd, a.es, a.now, p))
    ensures a.Sweeping? ==> Ready(Swept(w, a.nows, a.timeout)) && Booked(Swept(w, a.nows, a.timeout))
  {
    assert w.pool.finished != [] ==> w.pool.finished[0] in w.pool.finished;
    match a
    case Accepting(fd, _, now) => AcceptTurnKeepsBooks(w, fd, now);
    case Handling(fd, es, now) => HandleTurnKeepsBooks(w, fd, es, now, p);
    case Sweeping(nows, timeout) => SweepTakesOldest(w, nows, timeout);
  }

  ghost predicate RunsTo(w: Worker, turns: seq<Turn>, r: Worker, p: Protocol)
    requires Ready(w) && Booked(w)
    decreases |turns|
  {
    if turns == [] then w == r
    else Allowed(w, turns[0], p) && RunsTo(Turned(w, turns[0], p), turns[1..], r, p)
  }

  /** However the routines end, the three structures stay in agreement in every run. */
  lemma {:induction false} RunKeepsBooks(w: Worker, turns: seq<Turn>, r: Worker, p: Protocol)
    requires Ready(w) && Booked(w) && RunsTo(w, turns, r, p)
    ensures Ready(r) && Booked(r)
    decreases |turns|
  {
    if turns != [] {
      RunKeepsBooks(Turned(w, turns[0], p), turns[1..], r, p);
    }
  }

  /**
   * The turns do not break k's own routine, and no event on another descriptor
   * resumes a routine made for k, unless it is the one that k holds and it
   * ends with EAGAIN. What happens on other connections, exceptions included,
   * is left open.
   */
  ghost predicate Spared(w: Worker, turns: seq<Turn>, r: Worker, k: nat, p: Protocol)
    requires Ready(w) && Booked(w) && RunsTo(w, turns, r, p)
    decreases |turns|
  {
    turns != [] ==>
      && SparedBy(w, turns[0], k)
      && Spared(Turned(w, turns[0], p), turns[1..], r, k, p)
  }

  predicate SparedBy(w: Worker, a: Turn, k: nat) {
    a.Handling? ==> if a.fd == k then !Breaks(a.es)
                    else a.fd in w.coroutines && (SparesOther(w, a.fd, k) || SharesYield(w, a.fd, a.es, k))
  }

  predicate SharesYield(w: Worker, fd: nat, es: seq<Event>, k: nat)
    requires fd in w.coroutines
  {
    k in w.coroutines && w.coroutines[fd] == w.coroutines[k] && es != [] && es[|es| - 1].WouldBlock?
  }

  lemma TurnKeepsOwn(w: Worker, a: Turn, k: nat, p: Protocol)
    requires Ready(w) && Booked(w) && Allowed(w, a, p) && Keeps(w, k, p) && Sensible(p) && SparedBy(w, a, k)
    ensures Keeps(Turned(w, a, p), k, p)
  {
    TurnKeepsBooks(w, a, p);
    match a
    case Accepting(fd, _, now) => AcceptKeeps(w, fd, now, k, p);
    case Handling(fd, es, now) =>
      HandledNamesOldOnes(w, fd, es, now, p);
      if k in w.connections {
        if k == fd {
          HandleKeepsSelf(w, fd, es, now, p);
        } else if SharesYield(w, fd, es, k) {
          SharedResumeExactly(w, fd, es, now, k, p);
        } else {
          HandleKeepsOther(w, fd, es, now, k, p);
        }
      }
    case Sweeping(nows, timeout) => SweepKeeps(w, nows, timeout, k, p);
  }

  /**
   * A spared connection, if it is still there, holds an unfinished routine of
   * its own and is exactly where its session is after the calls made on it.
   */
  lemma {:induction false} RunKeepsOwn(w: Worker, turns: seq<Turn>, r: Worker, k: nat, p: Protocol)
    requires Ready(w) && Booked(w) && RunsTo(w, turns, r, p) && Spared(w, turns, r, k, p)
    requires Keeps(w, k, p) && Sensible(p)
    ensures Keeps(r, k, p)
    decreases |turns|
  {
    if turns != [] {
      TurnKeepsOwn(w, turns[0], k, p);
      RunKeepsOwn(Turned(w, turns[0], p), turns[1..], r, k, p);
    }
  }

  /** fd's routine waits for a request of which no byte has arrived. */
  ghost predicate Waits(w: Worker, fd: nat, p: Protocol) {
    Owns(w, fd, p) && w.frames[w.coroutines[fd]].Reading? && w.connections[fd].buffer == ""
  }

  /** Routines pile up: each event that brings no bytes to a waiting connection leaves one more behind. */
  lemma {:induction false} WakeupsPileUp(w: Worker, turns: seq<Turn>, r: Worker, fd: nat, p: Protocol)
    requires Ready(w) && Booked(w) && RunsTo(w, turns, r, p) && Sensible(p) && Waits(w, fd, p)
    requires forall i | 0 <= i < |turns| :: turns[i].Handling? && turns[i].fd == fd && turns[i].es == [WouldBlock]
    ensures |Live(r.pool)| == |Live(w.pool)| + |turns| && Waits(r, fd, p)
    decreases |turns|
  {
    if turns != [] {
      var w1 := Turned(w, turns[0], p);
      assert |Live(w1.pool)| == |Live(w.pool)| + 1 && Waits(w1, fd, p) by {
        IdleWakeupAbandons(w, fd, turns[0].now, p);
      }
      assert forall i | 0 <= i < |turns| - 1 :: turns[1..][i] == turns[i + 1];
      WakeupsPileUp(w1, turns[1..], r, fd, p);
    }
  }

  /** No connection's routine ends by an exception on the way. A client that hangs up is one. */
  ghost predicate ExceptionFree(turns: seq<Turn>) {
    forall i | 0 <= i < |turns| && turns[i].Handling? :: !Breaks(turns[i].es)
  }

  /** In every state of the run, every connection holds its own routine. */
  ghost predicate AlwaysKeeps(w: Worker, turns: seq<Turn>, r: Worker, p: Protocol)
    requires Ready(w) && Booked(w) && RunsTo(w, turns, r, p)
    decreases |turns|
  {
    && (forall k :: Keeps(w, k, p))
    && (turns != [] ==> AlwaysKeeps(Turned(w, turns[0], p), turns[1..], r, p))
  }

  lemma TurnSparesAll(w: Worker, a: Turn, k: nat, p: Protocol)
    requires Ready(w) && Booked(w) && Allowed(w, a, p) && (a.Handling? ==> !Breaks(a.es))
    requires forall fd :: Keeps(w, fd, p)
    ensures SparedBy(w, a, k)
  {
    if a.Handling? {
      assert Keeps(w, a.fd, p);
    }
  }

  /** One turn leaves every connection with its own routine exactly if it breaks none. */
  lemma TurnKeepsAllExactly(w: Worker, a: Turn, p: Protocol)
    requires Ready(w) && Booked(w) && Allowed(w, a, p) && Sensible(p)
    requires forall fd :: Keeps(w, fd, p)
    ensures (forall k :: Keeps(Turned(w, a, p), k, p)) <==> (a.Handling? ==> !Breaks(a.es))
  {
    if a.Handling? && Breaks(a.es) {
      assert Keeps(w, a.fd, p);
      BreakLosesOwnership(w, a.fd, a.es, a.now, p);
      assert !Keeps(Turned(w, a, p), a.fd, p);
    } else {
      forall k ensures Keeps(Turned(w, a, p), k, p) {
        TurnSparesAll(w, a, k, p);
        TurnKeepsOwn(w, a, k, p);
      }
    }
  }

  /** Exceptions are the only way to lose a routine: a run without them, and no other, keeps all of them. */
  lemma {:induction false} ExceptionFreeExactly(w: Worker, turns: seq<Turn>, r: Worker, p: Protocol)
    requires Ready(w) && Booked(w) && RunsTo(w, turns, r, p) && Sensible(p)
    requires forall k :: Keeps(w, k, p)
    ensures AlwaysKeeps(w, turns, r, p) <==> ExceptionFree(turns)
    decreases |turns|
  {
    if turns != [] {
      var w1 := Turned(w, turns[0], p);
      TurnKeepsAllExactly(w, turns[0], p);
      if forall k :: Keeps(w1, k, p) {
        ExceptionFreeExactly(w1, turns[1..], r, p);
      }
      FreeFirst(turns);
    }
  }

  lemma FreeFirst(turns: seq<Turn>)
    requires turns != []
    ensures ExceptionFree(turns) <==> (turns[0].Handling? ==> !Breaks(turns[0].es)) && ExceptionFree(turns[1..])
  {
    assert forall i | 1 <= i < |turns| :: turns[i] == turns[1..][i - 1];
  }

  lemma AllOwnersDiffer(r: Worker, p: Protocol)
    requires forall k :: Keeps(r, k, p)
    ensures forall fd1, fd2 | fd1 in r.connections && fd2 in r.connections && fd1 != fd2 ::
              fd1 in r.coroutines && fd2 in r.coroutines && r.coroutines[fd1] != r.coroutines[fd2]
  {
    forall fd1, fd2 | fd1 in r.connections && fd2 in r.connections && fd1 != fd2
      ensures fd1 in r.coroutines && fd2 in r.coroutines && r.coroutines[fd1] != r.coroutines[fd2]
    {
      assert Keeps(r, fd1, p) && Keeps(r, fd2, p);
    }
  }

  /** Then every connection is spared, and all routine ids differ. */
  lemma {:induction false} ExceptionFreeSparesAll(w: Worker, turns: seq<Turn>, r: Worker, p: Protocol)
    requires Ready(w) && Booked(w) && RunsTo(w, turns, r, p) && ExceptionFree(turns)
    requires (forall fd :: Keeps(w, fd, p)) && Sensible(p)
    ensures forall k :: Spared(w, turns, r, k, p) && Keeps(r, k, p)
    ensures forall fd1, fd2 | fd1 in r.connections && fd2 in r.connections && fd1 != fd2 ::
              fd1 in r.coroutines && fd2 in r.coroutines && r.coroutines[fd1] != r.coroutines[fd2]
    decreases |turns|
  {
    if turns == [] {
      AllOwnersDiffer(r, p);
    } else {
      var w1 := Turned(w, turns[0], p);
      FreeFirst(turns);
      TurnKeepsAllExactly(w, turns[0], p);
      ExceptionFreeSparesAll(w1, turns[1..], r, p);
      forall k ensures Spared(w, turns, r, k, p) {
        TurnSparesAll(w, turns[0], k, p);
      }
    }
  }

  /** The calls made on a connection are those of a client that sends c in lockstep. */
  ghost predicate InLockstep(c: Client, es: seq<Event>, p: Protocol) {
    LegalRun(ACCEPTED, es, p) && Lockstep(c, ACCEPTED, es, p)
  }

  /** fd holds its own routine, and its session is faithful to the client c. */
  ghost predicate ServesFaithfully(w: Worker, fd: nat, c: Client, p: Protocol) {
    Owns(w, fd, p) && Faithful(c, SessionOf(w, w.coroutines[fd]), p)
  }

  /** The worker got to w, where k is not connected, and on to r, where it is, sparing k on that last part. */
  ghost predicate SparedSince(before: seq<Turn>, w: Worker, turns: seq<Turn>, r: Worker, k: nat, p: Protocol) {
    && Ready(STARTED) && Booked(STARTED) && RunsTo(STARTED, before, w, p) && k !in w.connections
    && Ready(w) && Booked(w) && RunsTo(w, turns, r, p) && k in r.connections && Spared(w, turns, r, k, p)
  }

  /** A connection spared since it was accepted serves its client faithfully, whatever the others do. */
  lemma SparedIsFaithful(before: seq<Turn>, w: Worker, turns: seq<Turn>, r: Worker, k: nat, c: Client, p: Protocol)
    requires SparedSince(before, w, turns, r, k, p)
    requires Understands(p, c) && InLockstep(c, r.connections[k].events, p)
    ensures ServesFaithfully(r, k, c, p)
  {
    RunKeepsOwn(w, turns, r, k, p);
    RunFaithful(c, ACCEPTED, r.connections[k].events, p);
  }

  /**
   * The whole server is end to end: in every run from the start, a connection
   * whose client prints ms in lockstep, and that was spared since it was
   * accepted, has sent exactly the responses so far.
   */
  lemma {:induction false} ServerEndToEnd(before: seq<Turn>, w: Worker, turns: seq<Turn>, r: Worker, k: nat,
                                          ms: seq<F.Request>, onRequest: F.Request -> R.Response, reason: R.Phrases)
    requires SparedSince(before, w, turns, r, k, H.Http(onRequest, reason))
    requires forall i | 0 <= i < |ms| :: L.WellFormed(ms[i])
    requires InLockstep(H.Printing(ms), r.connections[k].events, H.Http(onRequest, reason))
    ensures ServesFaithfully(r, k, H.Printing(ms), H.Http(onRequest, reason))
  {
    H.HttpUnderstands(ms, onRequest, reason);
    SparedIsFaithful(before, w, turns, r, k, H.Printing(ms), H.Http(onRequest, reason));
  }

  /**
   * And complete: once the bytes of all requests have arrived on such a
   * connection and one more call answered EAGAIN, all requests have been
   * taken; and once its write counts add up to the responses, exactly these
   * were sent.
   */
  lemma {:induction false} ServerAnswersAll(before: seq<Turn>, w: Worker, turns: seq<Turn>, r: Worker, k: nat,
                                            ms: seq<F.Request>, a: seq<Event>, b: seq<Event>,
                                            onRequest: F.Request -> R.Response, reason: R.Phrases)
    requires SparedSince(before, w, turns, r, k, H.Http(onRequest, reason))
    requires forall i | 0 <= i < |ms| :: L.WellFormed(ms[i])
    requires r.connections[k].events == a + [WouldBlock] + b
    requires InLockstep(H.Printing(ms), a + [WouldBlock] + b, H.Http(onRequest, reason))
    requires Received(a) == Texts(H.Printing(ms), |ms|)
    ensures var link := r.connections[k];
            var replies := Replies(H.Printing(ms), |ms|, H.Http(onRequest, reason));
            && link.served == H.Printing(ms).requests
            && (Written(a + [WouldBlock] + b) == |replies| ==> link.sent == replies && link.buffer == "")
  {
    var p := H.Http(onRequest, reason);
    H.HttpUnderstands(ms, onRequest, reason);
    RunKeepsOwn(w, turns, r, k, p);
    H.AllAnswered(ms, a, b, onRequest, reason);
  }

  // ---------------------------------------------------------------- a client that hangs up

  const ONE_ACCEPTED := Worker(map[5 := NEW_LINK], map[5 := 1], [Entry(1, 5)],
                               Pool([FreshSlot(5)], [], 0), map[1 := Frame.Reading])

  const HUNG_UP := Worker(map[5 := Link("", false, "", [], [EndOfFile])], map[5 := 1], [Entry(1, 5)],
                          Pool([Slot(5, true, Some(DESCRIPTOR_ERROR))], [1], 0), map[1 := Frame.Reading])

  const BOTH_HOLD_ONE := Worker(map[5 := Link("", false, "", [], [EndOfFile]), 6 := NEW_LINK], map[5 := 1, 6 := 1],
                                [Entry(1, 5), Entry(3, 6)], Pool([FreshSlot(6)], [], 0), map[1 := Frame.Reading])

  lemma FirstAccepted()
    ensures Accepted(STARTED, 5, true, 1) == ONE_ACCEPTED
  {}

  lemma ThenHungUp(p: Protocol)
    ensures Ready(ONE_ACCEPTED) && Resumable(ONE_ACCEPTED, 5, [EndOfFile], p)
    ensures Handled(ONE_ACCEPTED, 5, [EndOfFile], 2, p) == HUNG_UP
  {
    assert Activation(ACCEPTED, [EndOfFile], p);
    var t := ACCEPTED.(isOpen := false, broken := true);
    assert Activate(ACCEPTED, [EndOfFile], p) == (t, Throws(DESCRIPTOR_ERROR));
    var w1 := AfterResume(ONE_ACCEPTED, 5, [EndOfFile], p).0;
    assert Resumed(ONE_ACCEPTED.pool, 1, Throws(DESCRIPTOR_ERROR)).slots == HUNG_UP.pool.slots;
    assert [] + [EndOfFile] == [EndOfFile];
    assert w1.connections == HUNG_UP.connections && w1.frames == HUNG_UP.frames;
  }

  lemma SecondAccepted()
    ensures Accepted(HUNG_UP, 6, true, 3) == BOTH_HOLD_ONE
  {
    EmplacedLast(HUNG_UP.idle, Entry(3, 6));
  }

  ghost predicate Leads(w: Worker, a: Turn, v: Worker, p: Protocol) {
    Ready(w) && Booked(w) && Allowed(w, a, p) && Turned(w, a, p) == v
  }

  lemma RunsOneMore(w: Worker, a: Turn, v: Worker, rest: seq<Turn>, r: Worker, p: Protocol)
    requires Leads(w, a, v, p) && RunsTo(v, rest, r, p)
    ensures RunsTo(w, [a] + rest, r, p)
  {
    assert ([a] + rest)[1..] == rest;
  }

  const ACCEPT_5 := Accepting(5, true, 1)
  const HANG_UP_5 := Handling(5, [EndOfFile], 2)
  const ACCEPT_6 := Accepting(6, true, 3)

  lemma FirstTurn(p: Protocol)
    ensures Leads(STARTED, ACCEPT_5, ONE_ACCEPTED, p)
  {
    FirstAccepted();
  }

  lemma SecondTurn(p: Protocol)
    ensures Leads(ONE_ACCEPTED, HANG_UP_5, HUNG_UP, p)
  {
    FirstTurn(p);
    ThenHungUp(p);
  }

  lemma ThirdTurn(p: Protocol)
    ensures Leads(HUNG_UP, ACCEPT_6, BOTH_HOLD_ONE, p)
    ensures Ready(BOTH_HOLD_ONE) && Booked(BOTH_HOLD_ONE)
  {
    SecondTurn(p);
    SecondAccepted();
  }

  lemma LastTurns(p: Protocol)
    ensures Ready(HUNG_UP) && Booked(HUNG_UP) && RunsTo(HUNG_UP, [ACCEPT_6] + [], BOTH_HOLD_ONE, p)
  {
    ThirdTurn(p);
    RunsOneMore(HUNG_UP, ACCEPT_6, BOTH_HOLD_ONE, [], BOTH_HOLD_ONE, p);
  }

  lemma LastTwoTurns(p: Protocol)
    ensures Ready(ONE_ACCEPTED) && Booked(ONE_ACCEPTED)
    ensures RunsTo(ONE_ACCEPTED, [HANG_UP_5] + ([ACCEPT_6] + []), BOTH_HOLD_ONE, p)
  {
    LastTurns(p);
    SecondTurn(p);
    RunsOneMore(ONE_ACCEPTED, HANG_UP_5, HUNG_UP, [ACCEPT_6] + [], BOTH_HOLD_ONE, p);
  }

  /** What an exception leads to: 5 is accepted, its client hangs up, 6 is accepted, and both hold routine 1. */
  lemma HangUpSharesRoutine(p: Protocol)
    ensures Ready(STARTED) && Booked(STARTED)
    ensures RunsTo(STARTED, [ACCEPT_5, HANG_UP_5, ACCEPT_6], BOTH_HOLD_ONE, p)
    ensures BOTH_HOLD_ONE.coroutines[5] == BOTH_HOLD_ONE.coroutines[6]
  {
    FirstTurn(p);
    LastTwoTurns(p);
    RunsOneMore(STARTED, ACCEPT_5, ONE_ACCEPTED, [HANG_UP_5] + ([ACCEPT_6] + []), BOTH_HOLD_ONE, p);
    OneByOne(ACCEPT_5, HANG_UP_5, ACCEPT_6);
  }

  lemma OneByOne(a: Turn, b: Turn, c: Turn)
    ensures [a, b, c] == [a] + ([b] + ([c] + []))
  {}

  /** 6's client sends a request in one piece, and the kernel takes the response in one piece. */
  function OneRequest(p: Protocol, text: string, m: F.Request): seq<Event> {
    [Data(text), WouldBlock, Wrote(|p.reply(m)|)]
  }

  lemma OneRequestActivates(p: Protocol, text: string, m: F.Request)
    requires Sensible(p) && p.accept(text) == Some(m) && |text| <= READ_SIZE
    ensures Activation(ACCEPTED, OneRequest(p, text, m), p)
    ensures Activate(ACCEPTED, OneRequest(p, text, m), p)
            == (State(Writing(m, ""), "", p.keep(m), p.reply(m), [m], false), Returns)
  {
    var es := OneRequest(p, text, m);
    var s1 := ACCEPTED.(buffer := text);
    var s2 := s1.(frame := Writing(m, p.reply(m)), served := [m]);
    var reply := p.reply(m);
    assert "" + text == text && [] + [m] == [m] && reply[|reply|..] == "" && "" + reply[..|reply|] == reply;
    assert es[1..] == [WouldBlock, Wrote(|reply|)] && es[1..][1..] == [Wrote(|reply|)];
    assert Stops(ACCEPTED, es[0], p).None? && Advance(ACCEPTED, es[0], p) == s1;
    assert Stops(s1, WouldBlock, p).None? && Advance(s1, WouldBlock, p) == s2;
    var end := s2.(frame := Writing(m, ""), sent := reply, buffer := "", isOpen := p.keep(m));
    assert Stops(s2, Wrote(|reply|), p) == Some(Returns) && Advance(s2, Wrote(|reply|), p) == end;
    ActivateOne(s2, Wrote(|reply|), p);
    ActivateMore(s1, es[1..], p);
    ActivateMore(ACCEPTED, es, p);
  }

  /**
   * The harm to 6 in that run, for any request of one read: if an event on 5
   * meets 6's request, 6's client gets its response, but 6 is left with a
   * routine that has ended and waits to be given away again.
   */
  lemma {:induction false} HangUpLosesRoutine(p: Protocol, text: string, m: F.Request)
    requires Sensible(p) && p.accept(text) == Some(m) && |text| <= READ_SIZE
    ensures Ready(BOTH_HOLD_ONE) && Owns(BOTH_HOLD_ONE, 6, p)
    ensures Allowed(BOTH_HOLD_ONE, Handling(5, OneRequest(p, text, m), 4), p)
    ensures var r := Handled(BOTH_HOLD_ONE, 5, OneRequest(p, text, m), 4, p);
            && 6 in r.connections && 6 in r.coroutines && !Owns(r, 6, p)
            && r.connections[6].sent == p.reply(m) && r.connections[6].isOpen == p.keep(m)
            && r.pool.finished == [r.coroutines[6]]
  {
    var es := OneRequest(p, text, m);
    OneRequestActivates(p, text, m);
    assert BOTH_HOLD_ONE.pool.slots[0] == FreshSlot(6);
    assert SessionOf(BOTH_HOLD_ONE, 1) == ACCEPTED;
    assert Resumed(BOTH_HOLD_ONE.pool, 1, Returns).finished == [1];
    SharedResumeExactly(BOTH_HOLD_ONE, 5, es, 4, 6, p);
  }
}
