// The set of connections ordered by the time of their last activity. The
// comparison looks at the time only, so two equal times cannot both be in it.
module IdleTime {
  /** Clock ticks in a second; the timeout is counted in whole seconds. */
  const TICKS := 1_000_000_000

  datatype Entry = Entry(time: int, fd: nat)

  ghost predicate InOrder(idle: seq<Entry>) {
    forall i, j | 0 <= i < j < |idle| :: idle[i].time < idle[j].time
  }

  ghost predicate EachOnce(idle: seq<Entry>) {
    forall i, j | 0 <= i < j < |idle| :: idle[i].fd != idle[j].fd
  }

  predicate HasTime(idle: seq<Entry>, time: int) {
    exists i | 0 <= i < |idle| :: idle[i].time == time
  }

  predicate Lists(idle: seq<Entry>, fd: nat) {
    exists i | 0 <= i < |idle| :: idle[i].fd == fd
  }

  /** emplace: in time order, and not at all if the time is taken. */
  function Emplaced(idle: seq<Entry>, e: Entry): seq<Entry> {
    if idle == [] || e.time < idle[0].time then [e] + idle
    else if e.time == idle[0].time then idle
    else [idle[0]] + Emplaced(idle[1..], e)
  }

  /** find_if on the descriptor, then erase. */
  function Erased(idle: seq<Entry>, fd: nat): seq<Entry> {
    if idle == [] then []
    else if idle[0].fd == fd then idle[1..]
    else [idle[0]] + Erased(idle[1..], fd)
  }

  lemma {:induction false} EmplacedMembers(idle: seq<Entry>, e: Entry)
    requires InOrder(idle)
    ensures forall x :: x in Emplaced(idle, e) <==> x in idle || (x == e && !HasTime(idle, e.time))
  {
    if idle != [] && idle[0].time < e.time {
      EmplacedMembers(idle[1..], e);
      assert idle == [idle[0]] + idle[1..];
      if HasTime(idle, e.time) {
        var i :| 0 <= i < |idle| && idle[i].time == e.time;
        assert idle[1..][i - 1].time == e.time;
      }
      if HasTime(idle[1..], e.time) {
        var i :| 0 <= i < |idle| - 1 && idle[1..][i].time == e.time;
        assert idle[i + 1].time == e.time;
      }
    }
  }

  lemma {:induction false} EmplacedInOrder(idle: seq<Entry>, e: Entry)
    requires InOrder(idle)
    ensures InOrder(Emplaced(idle, e))
  {
    if idle != [] && idle[0].time < e.time {
      var rest := Emplaced(idle[1..], e);
      EmplacedInOrder(idle[1..], e);
      EmplacedMembers(idle[1..], e);
      forall j | 0 <= j < |rest| ensures idle[0].time < rest[j].time {
        assert rest[j] in rest;
        if rest[j] in idle[1..] {
          var k :| 0 <= k < |idle| - 1 && idle[1..][k] == rest[j];
          assert idle[k + 1] == rest[j];
        }
      }
    }
  }

  lemma {:induction false} EmplacedOnce(idle: seq<Entry>, e: Entry)
    requires InOrder(idle) && EachOnce(idle) && !Lists(idle, e.fd)
    ensures EachOnce(Emplaced(idle, e))
  {
    if idle != [] && idle[0].time < e.time {
      var rest := Emplaced(idle[1..], e);
      assert forall i | 0 <= i < |idle| - 1 :: idle[1..][i] == idle[i + 1];
      EmplacedOnce(idle[1..], e);
      EmplacedMembers(idle[1..], e);
      forall j | 0 <= j < |rest| ensures idle[0].fd != rest[j].fd {
        assert rest[j] in rest;
        if rest[j] in idle[1..] {
          var k :| 0 <= k < |idle| - 1 && idle[1..][k] == rest[j];
          assert idle[k + 1] == rest[j];
        }
      }
    }
  }

  lemma ListsMember(idle: seq<Entry>, fd: nat)
    ensures Lists(idle, fd) <==> exists x :: x in idle && x.fd == fd
  {
    if x :| x in idle && x.fd == fd {
      var i :| 0 <= i < |idle| && idle[i] == x;
    }
    if i :| 0 <= i < |idle| && idle[i].fd == fd {
      assert idle[i] in idle;
    }
  }

  /** An ordered insertion: the descriptor is listed afterwards exactly if its time was free. */
  lemma EmplacedMeaning(idle: seq<Entry>, e: Entry)
    requires InOrder(idle) && EachOnce(idle) && !Lists(idle, e.fd)
    ensures var r := Emplaced(idle, e);
            && InOrder(r) && EachOnce(r)
            && forall fd :: Lists(r, fd) <==> Lists(idle, fd) || (fd == e.fd && !HasTime(idle, e.time))
  {
    var r := Emplaced(idle, e);
    EmplacedInOrder(idle, e);
    EmplacedOnce(idle, e);
    forall fd ensures Lists(r, fd) <==> Lists(idle, fd) || (fd == e.fd && !HasTime(idle, e.time)) {
      EmplacedMembers(idle, e);
      ListsMember(r, fd);
      ListsMember(idle, fd);
    }
  }

  /** A time later than all others goes to the end. */
  lemma {:induction false} EmplacedLast(idle: seq<Entry>, e: Entry)
    requires forall i | 0 <= i < |idle| :: idle[i].time < e.time
    ensures Emplaced(idle, e) == idle + [e]
  {
    if idle != [] {
      assert forall i | 0 <= i < |idle| - 1 :: idle[1..][i] == idle[i + 1];
      EmplacedLast(idle[1..], e);
    }
  }

  /** Where the descriptor stands. */
  lemma {:induction false} ErasedAt(idle: seq<Entry>, fd: nat, i: nat)
    requires EachOnce(idle) && i < |idle| && idle[i].fd == fd
    ensures Erased(idle, fd) == idle[..i] + idle[i + 1..]
    decreases |idle|
  {
    if i > 0 {
      assert idle[1..][i - 1] == idle[i];
      ErasedAt(idle[1..], fd, i - 1);
    }
  }

  lemma ErasedMeaning(idle: seq<Entry>, fd: nat)
    requires InOrder(idle) && EachOnce(idle) && Lists(idle, fd)
    ensures var r := Erased(idle, fd);
            && InOrder(r) && EachOnce(r)
            && (forall k :: Lists(r, k) <==> Lists(idle, k) && k != fd)
            && (forall x :: x in r <==> x in idle && x.fd != fd)
  {
    var i :| 0 <= i < |idle| && idle[i].fd == fd;
    ErasedAt(idle, fd, i);
    SliceMembers(idle, i);
    SliceInOrder(idle, i);
    var r := Erased(idle, fd);
    forall k ensures Lists(r, k) <==> Lists(idle, k) && k != fd {
      ListsMember(r, k);
      ListsMember(idle, k);
    }
  }

  lemma SliceInOrder(idle: seq<Entry>, i: nat)
    requires InOrder(idle) && EachOnce(idle) && i < |idle|
    ensures InOrder(idle[..i] + idle[i + 1..]) && EachOnce(idle[..i] + idle[i + 1..])
  {
    var r := idle[..i] + idle[i + 1..];
    assert forall j | 0 <= j < |r| :: r[j] == idle[if j < i then j else j + 1];
  }

  lemma SliceMembers(idle: seq<Entry>, i: nat)
    requires EachOnce(idle) && i < |idle|
    ensures forall x :: x in idle[..i] + idle[i + 1..] <==> x in idle && x.fd != idle[i].fd
  {
    var r := idle[..i] + idle[i + 1..];
    forall x ensures x in r <==> x in idle && x.fd != idle[i].fd {
      if x in idle && x.fd != idle[i].fd {
        var j :| 0 <= j < |idle| && idle[j] == x;
        assert r[if j < i then j else j - 1] == x;
      }
      if x in r {
        var j :| 0 <= j < |r| && r[j] == x;
        assert idle[if j < i then j else j + 1] == x;
      }
    }
  }

  /** A last part of the set lists the descriptors of its own entries only. */
  lemma SuffixLists(idle: seq<Entry>, n: nat, i: nat)
    requires EachOnce(idle) && n <= |idle| && i < |idle|
    ensures Lists(idle[n..], idle[i].fd) <==> n <= i
  {
    if n <= i {
      assert idle[n..][i - n] == idle[i];
    } else {
      assert forall k | 0 <= k < |idle| - n :: idle[n..][k] == idle[n + k];
    }
  }

  // ---------------------------------------------------------------- expiry

  /** Integer division as C++ does it, towards zero. */
  function TruncDiv(x: int, d: int): int
    requires d > 0
  {
    if x >= 0 then x / d else -((-x) / d)
  }

  /** duration_cast to seconds, then a strict comparison. */
  predicate Expired(time: int, now: int, timeout: int) {
    TruncDiv(now - time, TICKS) > timeout
  }

  /**
   * A connection has expired when it was idle for more whole seconds than the
   * timeout says: a timeout of 5 lets 5.9 s pass, and ends at 6 s.
   */
  lemma ExpiredExactly(time: int, now: int, timeout: int)
    ensures Expired(time, now, timeout) <==>
            if timeout >= 0 then now - time >= (timeout + 1) * 1_000_000_000
            else now - time > timeout * 1_000_000_000
  {
    var age := now - time;
    if age >= 0 {
      WholeSeconds(age);
    } else {
      WholeSeconds(-age);
    }
  }

  lemma WholeSeconds(x: nat)
    ensures x / 1_000_000_000 * 1_000_000_000 <= x < (x / 1_000_000_000 + 1) * 1_000_000_000
  {}

  lemma DivMonotone(x: int, y: int)
    requires 0 <= x <= y
    ensures x / TICKS <= y / TICKS
  {}

  lemma ExpiredEarlier(t1: int, t2: int, now: int, timeout: int)
    requires t1 <= t2 && Expired(t2, now, timeout)
    ensures Expired(t1, now, timeout)
  {
    var x, y := now - t2, now - t1;
    if x >= 0 {
      DivMonotone(x, y);
    } else if y < 0 {
      DivMonotone(-y, -x);
    }
  }

  lemma ExpiredLater(time: int, now1: int, now2: int, timeout: int)
    requires now1 <= now2 && Expired(time, now1, timeout)
    ensures Expired(time, now2, timeout)
  {
    ExpiredEarlier(time - (now2 - now1), time, now1, timeout);
  }

  /** The sweep reads the clock once per entry, oldest first, and stops at the first that is not expired. */
  function SweptCount(idle: seq<Entry>, nows: seq<int>, timeout: int): (n: nat)
    requires |idle| <= |nows|
    ensures n <= |idle|
  {
    if idle != [] && Expired(idle[0].time, nows[0], timeout) then 1 + SweptCount(idle[1..], nows[1..], timeout) else 0
  }

  /** The last clock reading that the sweep takes. */
  function LastLook(idle: seq<Entry>, nows: seq<int>, timeout: int): int
    requires idle != [] && |idle| <= |nows|
  {
    var n := SweptCount(idle, nows, timeout);
    nows[if n < |idle| then n else n - 1]
  }

  /**
   * The early stop misses nothing: what the sweep takes had expired when it
   * looked, and nothing that it leaves had expired at its last look.
   */
  lemma {:induction false} SweepIsExact(idle: seq<Entry>, nows: seq<int>, timeout: int)
    requires InOrder(idle) && |idle| <= |nows|
    ensures var n := SweptCount(idle, nows, timeout);
            && (forall i | 0 <= i < n :: Expired(idle[i].time, nows[i], timeout))
            && (forall i | n <= i < |idle| :: !Expired(idle[i].time, nows[n], timeout))
    decreases |idle|
  {
    if idle != [] {
      var n := SweptCount(idle, nows, timeout);
      if n == 0 {
        forall i | 0 <= i < |idle| ensures !Expired(idle[i].time, nows[0], timeout) {
          if Expired(idle[i].time, nows[0], timeout) {
            ExpiredEarlier(idle[0].time, idle[i].time, nows[0], timeout);
          }
        }
      } else {
        SweepIsExact(idle[1..], nows[1..], timeout);
        forall i | 0 <= i < n ensures Expired(idle[i].time, nows[i], timeout) {
          if i > 0 { assert idle[i] == idle[1..][i - 1] && nows[i] == nows[1..][i - 1]; }
        }
        forall i | n <= i < |idle| ensures !Expired(idle[i].time, nows[n], timeout) {
          assert idle[i] == idle[1..][i - 1] && nows[n] == nows[1..][n - 1];
        }
      }
    }
  }
}
