// ThreadWork as an object whose maps and idle set its methods change, tied to
// the worker on values.
module ThreadWork {
  import opened Wrappers
  import opened Coroutine
  import opened IdleTime
  import opened Session
  import opened Worker

  class ThreadWork {
    var connections: map<nat, Link>
    var coroutines: map<nat, nat>
    var idleTime: seq<Entry>
    var frames: map<nat, Frame>
    const ordinator: Ordinator

    ghost function View(): Worker
      reads this, ordinator
    {
      Worker(connections, coroutines, idleTime, ordinator.State(), frames)
    }

    constructor (ordinator: Ordinator)
      requires ordinator.State() == EMPTY_POOL
      ensures this.ordinator == ordinator && View() == STARTED
    {
      this.ordinator := ordinator;
      connections, coroutines, idleTime, frames := map[], map[], [], map[];
    }

    /** threw is the DescriptorError of addToEpoll. */
    method Accept(fd: nat, epollOk: bool, now: int) returns (threw: bool)
      requires Sound(ordinator.State())
      requires fd !in connections && fd !in coroutines
      modifies this, ordinator
      ensures threw == !epollOk && Sound(ordinator.State())
      ensures old(View()).pool.finished != [] ==> IsId(old(View()).pool, old(View()).pool.finished[0])
      ensures View() == Accepted(old(View()), fd, epollOk, now)
    {
      assert ordinator.finished != [] ==> ordinator.finished[0] in ordinator.finished;
      connections := connections[fd := NEW_LINK];
      if !epollOk {
        return true;
      }
      CreateRoutine(fd);
      idleTime := Emplaced(idleTime, Entry(now, fd));
      return false;
    }

    /** Coroutine::create for this connection, and the entry in m_coroutines. */
    method CreateRoutine(fd: nat)
      requires Sound(ordinator.State())
      modifies this`coroutines, this`frames, ordinator
      ensures Sound(ordinator.State())
      ensures old(View()).pool.finished != [] ==> IsId(old(View()).pool, old(View()).pool.finished[0])
      ensures View() == WithRoutine(old(View()), fd)
    {
      assert ordinator.finished != [] ==> ordinator.finished[0] in ordinator.finished;
      var id := ordinator.Create(fd);
      coroutines := coroutines[fd := id];
      frames := frames[id := Reading];
    }

    /** std::find_if on the descriptor; the end if there is none. */
    method FindIdle(fd: nat) returns (t: nat)
      ensures t <= |idleTime| && (t < |idleTime| ==> idleTime[t].fd == fd)
      ensures forall i | 0 <= i < t :: idleTime[i].fd != fd
    {
      t := 0;
      while t < |idleTime| && idleTime[t].fd != fd
        invariant t <= |idleTime|
        invariant forall i | 0 <= i < t :: idleTime[i].fd != fd
      {
        t := t + 1;
      }
    }

    /** The source erases what find_if returns, so the descriptor must be listed. */
    method EraseIdle(fd: nat)
      requires Lists(idleTime, fd)
      modifies this`idleTime
      ensures idleTime == Erased(old(idleTime), fd)
    {
      var t := FindIdle(fd);
      ErasedFirst(idleTime, fd, t);
      idleTime := idleTime[..t] + idleTime[t + 1..];
    }

    method DisconnectClient(fd: nat)
      requires Lists(idleTime, fd)
      modifies this`connections, this`coroutines, this`idleTime
      ensures View() == Disconnected(old(View()), fd)
    {
      connections := connections - {fd};
      coroutines := coroutines - {fd};
      EraseIdle(fd);
    }

    method ResetConnectionTime(fd: nat, now: int)
      requires Lists(idleTime, fd)
      modifies this`idleTime
      ensures View() == Reset(old(View()), fd, now)
    {
      EraseIdle(fd);
      idleTime := Emplaced(idleTime, Entry(now, fd));
    }

    /** The intended sweep: always the oldest entry next; nows are the clock readings it takes. */
    method DropTimeoutedConnections(nows: seq<int>, timeout: int)
      requires |idleTime| <= |nows|
      modifies this`connections, this`coroutines, this`idleTime
      ensures View() == Swept(old(View()), nows, timeout)
    {
      var k := 0;
      while |idleTime| > 0
        invariant k <= |nows| && |idleTime| <= |nows| - k
        invariant Swept(old(View()), nows, timeout) == Swept(View(), nows[k..], timeout)
        decreases |idleTime|
      {
        assert nows[k..][0] == nows[k] && nows[k..][1..] == nows[k + 1..];
        if TruncDiv(nows[k] - idleTime[0].time, TICKS) > timeout {
          assert idleTime[0].fd == idleTime[0].fd && Lists(idleTime, idleTime[0].fd);
          DisconnectClient(idleTime[0].fd);
          k := k + 1;
        } else {
          idleTime := idleTime[0..];  // erase(begin, i) with i == begin
          break;
        }
      }
    }

    /**
     * handleConnection and, as in the event loop, resetConnectionTime. es are
     * the results of the system calls that the resumed routine makes; an
     * exception that it throws comes back as rethrown.
     */
    method HandleConnection(fd: nat, es: seq<Event>, now: int, p: Protocol) returns (rethrown: Option<nat>)
      requires Ready(View()) && Booked(View()) && Resumable(View(), fd, es, p)
      modifies this, ordinator
      ensures Ready(View())
      ensures View() == Handled(old(View()), fd, es, now, p)
      ensures rethrown.Some? == Threw(AfterResume(old(View()), fd, es, p).1)
    {
      rethrown := ResumeRoutine(fd, es, p);
      if rethrown.Some? {
        return;
      }
      if !connections[fd].isOpen {
        DisconnectClient(fd);
      } else {
        if connections[fd].buffer == "" {
          CreateRoutine(fd);
        }
        ResetConnectionTime(fd, now);
      }
    }

    /** Coroutine::resume of the connection's routine, which runs the callback up to its next stop. */
    method ResumeRoutine(fd: nat, es: seq<Event>, p: Protocol) returns (rethrown: Option<nat>)
      requires Ready(View()) && Resumable(View(), fd, es, p)
      modifies this`connections, this`frames, ordinator
      ensures Ready(View())
      ensures View() == AfterResume(old(View()), fd, es, p).0
      ensures rethrown.Some? == Threw(AfterResume(old(View()), fd, es, p).1)
      ensures fd in connections && connections.Keys == old(connections).Keys
    {
      var id := coroutines[fd];
      if id == 0 || id > |ordinator.routines| || ordinator.routines[id - 1].finished {
        return None;
      }
      var body := ordinator.routines[id - 1].body;
      var link := connections[body];
      var (t, exit) := Activate(State(frames[id], link.buffer, link.isOpen, link.sent, link.served, false), es, p);
      var resumed;
      resumed, rethrown := ordinator.Resume(id, exit);
      frames := frames[id := t.frame];
      connections := connections[body := Link(t.buffer, t.isOpen, t.sent, t.served, link.events + es)];
    }
  }

  lemma {:induction false} ErasedFirst(idle: seq<Entry>, fd: nat, t: nat)
    requires Lists(idle, fd) && t <= |idle| && (t < |idle| ==> idle[t].fd == fd)
    requires forall i | 0 <= i < t :: idle[i].fd != fd
    ensures t < |idle| && Erased(idle, fd) == idle[..t] + idle[t + 1..]
    decreases |idle|
  {
    if t > 0 {
      assert forall i | 0 <= i < |idle| - 1 :: idle[1..][i] == idle[i + 1];
      ErasedFirst(idle[1..], fd, t - 1);
    }
  }
}
