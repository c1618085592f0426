// The coroutine pool of one thread: slots, the queue of finished ids, and the
// running routine. A context switch is one step.
module Coroutine {
  import opened Wrappers

  /** Which function a slot holds, whether it ended, and the exception that ended it. */
  datatype Slot = Slot(body: nat, finished: bool, exception: Option<nat>)

  /** ids are slot numbers from 1; current is 0 in the main context. */
  datatype Pool = Pool(slots: seq<Slot>, finished: seq<nat>, current: nat)

  const EMPTY_POOL := Pool([], [], 0)

  predicate IsId(p: Pool, id: nat) {
    1 <= id <= |p.slots|
  }

  predicate Unfinished(p: Pool, id: nat) {
    IsId(p, id) && !p.slots[id - 1].finished
  }

  /** The queue lists exactly the finished slots, each once; only those have an exception. */
  ghost predicate Sound(p: Pool) {
    && (forall i, j | 0 <= i < j < |p.finished| :: p.finished[i] != p.finished[j])
    && (forall id: nat :: id in p.finished <==> IsId(p, id) && p.slots[id - 1].finished)
    && (forall i | 0 <= i < |p.slots| && !p.slots[i].finished :: p.slots[i].exception.None?)
    && (p.current != 0 ==> Unfinished(p, p.current))
  }

  // ---------------------------------------------------------------- the operations on values

  function FreshSlot(body: nat): Slot {
    Slot(body, false, None)
  }

  /** The id that create returns. */
  function NextId(p: Pool): nat {
    if p.finished == [] then |p.slots| + 1 else p.finished[0]
  }

  function Created(p: Pool, body: nat): Pool
    requires p.finished != [] ==> IsId(p, p.finished[0])
  {
    if p.finished == [] then p.(slots := p.slots + [FreshSlot(body)])
    else p.(slots := p.slots[p.finished[0] - 1 := FreshSlot(body)], finished := p.finished[1..])
  }

  /** How a routine gives control back: yield, its end, or an escaping exception. */
  datatype Exit = Yields | Returns | Throws(exception: nat)

  /** resume up to the switch into the routine. */
  function Entered(p: Pool, id: nat): Pool {
    p.(current := id)
  }

  /** The switch back: yield, or the tail of entry. */
  function Left(p: Pool, exit: Exit): Pool
    requires Unfinished(p, p.current)
  {
    var id := p.current;
    match exit
    case Yields => p.(current := 0)
    case Returns =>
      Pool(p.slots[id - 1 := p.slots[id - 1].(finished := true)], p.finished + [id], 0)
    case Throws(e) =>
      Pool(p.slots[id - 1 := p.slots[id - 1].(finished := true, exception := Some(e))], p.finished + [id], 0)
  }

  /** resume as a whole: nothing happens unless the id names an unfinished slot. */
  function Resumed(p: Pool, id: nat, exit: Exit): Pool
    requires p.current == 0
  {
    if Unfinished(p, id) then Left(Entered(p, id), exit) else p
  }

  lemma CreateSound(p: Pool, body: nat)
    requires Sound(p)
    ensures Sound(Created(p, body)) && !Unfinished(p, NextId(p)) && Unfinished(Created(p, body), NextId(p))
    ensures forall id | id != NextId(p) && IsId(p, id) ::
              IsId(Created(p, body), id) && Created(p, body).slots[id - 1] == p.slots[id - 1]
    ensures Created(p, body).slots[NextId(p) - 1] == FreshSlot(body)
  {
    var q := Created(p, body);
    if p.finished != [] {
      var first := p.finished[0];
      assert first in p.finished;
      forall id: nat ensures id in q.finished <==> IsId(q, id) && q.slots[id - 1].finished {
        assert id in p.finished <==> id == first || id in q.finished;
      }
    }
  }

  lemma LeaveSound(p: Pool, exit: Exit)
    requires Sound(p) && p.current != 0
    ensures Sound(Left(p, exit)) && Left(p, exit).current == 0
  {
    var q := Left(p, exit);
    var id := p.current;
    if !exit.Yields? {
      assert id !in p.finished;
      forall k: nat ensures k in q.finished <==> IsId(q, k) && q.slots[k - 1].finished {
        assert k in q.finished <==> k in p.finished || k == id;
      }
    }
  }

  lemma ResumeSound(p: Pool, id: nat, exit: Exit)
    requires Sound(p) && p.current == 0
    ensures Sound(Resumed(p, id, exit)) && Resumed(p, id, exit).current == 0
    ensures Unfinished(p, id) ==> Sound(Entered(p, id)) && Entered(p, id).current == id != 0
    ensures !Unfinished(p, id) ==> Resumed(p, id, exit) == p
  {
    if Unfinished(p, id) {
      assert Sound(Entered(p, id));
      LeaveSound(Entered(p, id), exit);
    }
  }

  // ---------------------------------------------------------------- runs

  /** What the main context does; exit is how the resumed routine gives control back. */
  datatype Action = Creating(body: nat) | Resuming(id: nat, exit: Exit)

  ghost function Did(p: Pool, a: Action): (q: Pool)
    requires Sound(p) && p.current == 0
    ensures Sound(q) && q.current == 0
  {
    match a
    case Creating(body) => CreateSound(p, body); Created(p, body)
    case Resuming(id, exit) => ResumeSound(p, id, exit); Resumed(p, id, exit)
  }

  ghost function After(actions: seq<Action>): (p: Pool)
    ensures Sound(p) && p.current == 0
  {
    if actions == [] then EMPTY_POOL else Did(After(actions[..|actions| - 1]), actions[|actions| - 1])
  }

  /** The routines that are not finished. */
  ghost function Live(p: Pool): set<nat> {
    set id | id in Ids(|p.slots|) && Unfinished(p, id)
  }

  ghost function Ids(n: nat): (r: set<nat>)
    ensures |r| == n && forall id: nat :: id in r <==> 1 <= id <= n
  {
    if n == 0 then {} else Ids(n - 1) + {n}
  }

  ghost function Elements(q: seq<nat>): (r: set<nat>)
    ensures forall id: nat :: id in r <==> id in q
  {
    if q == [] then {} else {q[0]} + Elements(q[1..])
  }

  lemma {:induction false} CountDistinct(q: seq<nat>)
    requires forall i, j | 0 <= i < j < |q| :: q[i] != q[j]
    ensures |Elements(q)| == |q|
  {
    if q != [] {
      CountDistinct(q[1..]);
      assert q[0] !in Elements(q[1..]);
    }
  }

  lemma LiveCount(p: Pool)
    requires Sound(p)
    ensures |Live(p)| == |p.slots| - |p.finished|
  {
    var all, done := Ids(|p.slots|), Elements(p.finished);
    CountDistinct(p.finished);
    assert done <= all && Live(p) == all - done;
  }

  ghost function Max(a: nat, b: nat): nat {
    if a < b then b else a
  }

  /** The largest number of unfinished routines at any moment so far. */
  ghost function Peak(actions: seq<Action>): nat {
    if actions == [] then 0
    else Max(Peak(actions[..|actions| - 1]), |Live(After(actions))|)
  }

  lemma GrowsAtPeak(p: Pool, a: Action)
    requires Sound(p) && p.current == 0
    ensures |Did(p, a).slots| == Max(|p.slots|, |Live(Did(p, a))|)
  {
    assert p.finished != [] ==> p.finished[0] in p.finished;
    LiveCount(Did(p, a));
  }

  /** The pool never grows beyond what was needed at once. */
  lemma {:induction false} SlotsArePeak(actions: seq<Action>)
    ensures |After(actions).slots| == Peak(actions)
  {
    if actions != [] {
      var front := actions[..|actions| - 1];
      SlotsArePeak(front);
      GrowsAtPeak(After(front), actions[|actions| - 1]);
    }
  }

  // ---------------------------------------------------------------- the queue

  /** The ids in the order in which their routines ended. */
  ghost function EndedIds(actions: seq<Action>): seq<nat> {
    if actions == [] then []
    else
      var front := actions[..|actions| - 1];
      match actions[|actions| - 1]
      case Creating(_) => EndedIds(front)
      case Resuming(id, exit) =>
        if Unfinished(After(front), id) && !exit.Yields? then EndedIds(front) + [id] else EndedIds(front)
  }

  /** The ids in the order in which create gave them out again. */
  ghost function ReusedIds(actions: seq<Action>): seq<nat> {
    if actions == [] then []
    else
      var front := actions[..|actions| - 1];
      var reused := ReusedIds(front);
      match actions[|actions| - 1]
      case Creating(_) =>
        if NextId(After(front)) <= |After(front).slots| then reused + [NextId(After(front))] else reused
      case Resuming(_, _) => reused
  }

  lemma QueueNext(p: Pool, a: Action)
    requires Sound(p) && p.current == 0
    ensures match a
            case Creating(_) =>
              if NextId(p) <= |p.slots| then p.finished == [NextId(p)] + Did(p, a).finished
              else p.finished == Did(p, a).finished
            case Resuming(id, exit) =>
              Did(p, a).finished == if Unfinished(p, id) && !exit.Yields? then p.finished + [id] else p.finished
  {
    assert p.finished != [] ==> p.finished[0] in p.finished;
  }

  /** First in, first out: ids are reused in the order in which their routines ended. */
  lemma {:induction false} OldestIdFirst(actions: seq<Action>)
    ensures EndedIds(actions) == ReusedIds(actions) + After(actions).finished
  {
    if actions != [] {
      var front, a := actions[..|actions| - 1], actions[|actions| - 1];
      OldestIdFirst(front);
      QueueNext(After(front), a);
      Regrouped(ReusedIds(front), NextId(After(front)), After(actions).finished);
      if a.Resuming? {
        RegroupedEnd(ReusedIds(front), After(front).finished, a.id);
      }
    }
  }

  lemma Regrouped(a: seq<nat>, x: nat, b: seq<nat>)
    ensures a + ([x] + b) == a + [x] + b
  {}

  lemma RegroupedEnd(a: seq<nat>, b: seq<nat>, x: nat)
    ensures a + (b + [x]) == a + b + [x]
  {}

  // ---------------------------------------------------------------- generations

  /** The body of the last create that returned id. */
  ghost function LatestBody(actions: seq<Action>, id: nat): Option<nat> {
    if actions == [] then None
    else
      var front := actions[..|actions| - 1];
      var a := actions[|actions| - 1];
      if a.Creating? && NextId(After(front)) == id then Some(a.body) else LatestBody(front, id)
  }

  lemma BodyAfter(p: Pool, a: Action, id: nat)
    requires Sound(p) && p.current == 0
    ensures var q := Did(p, a);
            && (a.Creating? && id == NextId(p) ==> IsId(q, id) && q.slots[id - 1].body == a.body)
            && (!(a.Creating? && id == NextId(p)) ==>
                  (IsId(q, id) <==> IsId(p, id)) && (IsId(p, id) ==> q.slots[id - 1].body == p.slots[id - 1].body))
  {
    assert p.finished != [] ==> p.finished[0] in p.finished;
  }

  /** A slot holds, and so resume runs, the body of the latest create that returned its id. */
  lemma {:induction false} RunsLatestBody(actions: seq<Action>, id: nat)
    ensures LatestBody(actions, id)
            == if IsId(After(actions), id) then Some(After(actions).slots[id - 1].body) else None
  {
    if actions != [] {
      var front := actions[..|actions| - 1];
      RunsLatestBody(front, id);
      BodyAfter(After(front), actions[|actions| - 1], id);
    }
  }

  /** The exception that resume finds in the slot after the switch, and rethrows. */
  function Rethrown(p: Pool, id: nat, exit: Exit): Option<nat>
    requires p.current == 0
  {
    if Unfinished(p, id) then Resumed(p, id, exit).slots[id - 1].exception else None
  }

  datatype End = End(body: nat, exit: Exit)

  /** The bodies that ended, in order, and how. */
  ghost function Ends(actions: seq<Action>): seq<End> {
    if actions == [] then []
    else
      var front := actions[..|actions| - 1];
      match actions[|actions| - 1]
      case Creating(_) => Ends(front)
      case Resuming(id, exit) =>
        if Unfinished(After(front), id) && !exit.Yields? then Ends(front) + [End(After(front).slots[id - 1].body, exit)]
        else Ends(front)
  }

  /** What the resume calls rethrew, with the body that was resumed. */
  ghost function Rethrows(actions: seq<Action>): seq<End> {
    if actions == [] then []
    else
      var front := actions[..|actions| - 1];
      match actions[|actions| - 1]
      case Creating(_) => Rethrows(front)
      case Resuming(id, exit) =>
        match Rethrown(After(front), id, exit)
        case None => Rethrows(front)
        case Some(e) => Rethrows(front) + [End(After(front).slots[id - 1].body, Throws(e))]
  }

  ghost function Throwing(ends: seq<End>): seq<End> {
    if ends == [] then []
    else Throwing(ends[..|ends| - 1]) + (if ends[|ends| - 1].exit.Throws? then [ends[|ends| - 1]] else [])
  }

  ghost predicate CreatedIn(actions: seq<Action>, body: nat) {
    exists i | 0 <= i < |actions| :: actions[i] == Creating(body)
  }

  /** Each create is given a body of its own. */
  ghost predicate OwnBodies(actions: seq<Action>) {
    forall i, j | 0 <= i < j < |actions| && actions[i].Creating? && actions[j].Creating? ::
      actions[i].body != actions[j].body
  }

  /** Between actions: bodies in slots are distinct and created, unfinished ones have not ended. */
  ghost predicate Generations(actions: seq<Action>) {
    var p, ends := After(actions), Ends(actions);
    && (forall i, j | 0 <= i < j < |p.slots| :: p.slots[i].body != p.slots[j].body)
    && (forall i | 0 <= i < |p.slots| :: CreatedIn(actions, p.slots[i].body))
    && (forall i, k | 0 <= i < |p.slots| && !p.slots[i].finished && 0 <= k < |ends| :: ends[k].body != p.slots[i].body)
    && (forall k | 0 <= k < |ends| :: CreatedIn(actions, ends[k].body))
    && (forall k, l | 0 <= k < l < |ends| :: ends[k].body != ends[l].body)
  }

  lemma CreatedLater(front: seq<Action>, a: Action, body: nat)
    requires CreatedIn(front, body)
    ensures CreatedIn(front + [a], body)
  {
    var i :| 0 <= i < |front| && front[i] == Creating(body);
    assert (front + [a])[i] == Creating(body);
  }

  lemma GenerationsCreate(front: seq<Action>, body: nat)
    requires Generations(front) && !CreatedIn(front, body)
    ensures Generations(front + [Creating(body)])
  {
    var actions := front + [Creating(body)];
    assert actions[..|actions| - 1] == front;
    var p, q := After(front), After(actions);
    CreateSound(p, body);
    assert p.finished != [] ==> p.finished[0] in p.finished;
    assert actions[|front|] == Creating(body);
    forall i | 0 <= i < |q.slots| ensures CreatedIn(actions, q.slots[i].body) {
      if i != NextId(p) - 1 { CreatedLater(front, Creating(body), p.slots[i].body); }
    }
    forall k | 0 <= k < |Ends(actions)| ensures CreatedIn(actions, Ends(actions)[k].body) {
      CreatedLater(front, Creating(body), Ends(front)[k].body);
    }
  }

  lemma ResumeKeepsBodies(p: Pool, id: nat, exit: Exit)
    requires p.current == 0
    ensures var q := Resumed(p, id, exit);
            && |q.slots| == |p.slots|
            && forall i | 0 <= i < |p.slots| ::
                 && q.slots[i].body == p.slots[i].body
                 && q.slots[i].finished == (p.slots[i].finished || (i == id - 1 && !exit.Yields?))
  {}

  lemma GenerationsResume(front: seq<Action>, id: nat, exit: Exit)
    requires Generations(front)
    ensures Generations(front + [Resuming(id, exit)])
  {
    var a := Resuming(id, exit);
    var actions := front + [a];
    assert actions[..|actions| - 1] == front;
    var p, q := After(front), After(actions);
    ResumeKeepsBodies(p, id, exit);
    forall i | 0 <= i < |q.slots| ensures CreatedIn(actions, q.slots[i].body) {
      CreatedLater(front, a, p.slots[i].body);
    }
    var ends := Ends(actions);
    forall k | 0 <= k < |ends| ensures CreatedIn(actions, ends[k].body) {
      CreatedLater(front, a, if k < |Ends(front)| then Ends(front)[k].body else p.slots[id - 1].body);
    }
  }

  lemma RethrowsNext(actions: seq<Action>, front: seq<Action>, id: nat, exit: Exit)
    requires actions != [] && front == actions[..|actions| - 1] && actions[|actions| - 1] == Resuming(id, exit)
    requires Rethrows(front) == Throwing(Ends(front))
    ensures Rethrows(actions) == Throwing(Ends(actions))
  {
    EndsNext(actions, front, id, exit);
    RethrownNext(actions, front, id, exit);
    if Unfinished(After(front), id) && !exit.Yields? {
      ThrowingNext(Ends(front), End(After(front).slots[id - 1].body, exit));
    }
  }

  /** What the last resume adds to the ends, and to what was rethrown. */
  lemma EndsNext(actions: seq<Action>, front: seq<Action>, id: nat, exit: Exit)
    requires actions != [] && front == actions[..|actions| - 1] && actions[|actions| - 1] == Resuming(id, exit)
    ensures var p := After(front);
            Ends(actions)
            == if Unfinished(p, id) && !exit.Yields? then Ends(front) + [End(p.slots[id - 1].body, exit)]
               else Ends(front)
  {}

  lemma RethrownNext(actions: seq<Action>, front: seq<Action>, id: nat, exit: Exit)
    requires actions != [] && front == actions[..|actions| - 1] && actions[|actions| - 1] == Resuming(id, exit)
    ensures var p := After(front);
            Rethrows(actions)
            == if Unfinished(p, id) && exit.Throws? then Rethrows(front) + [End(p.slots[id - 1].body, exit)]
               else Rethrows(front)
  {}

  lemma ThrowingNext(ends: seq<End>, e: End)
    ensures Throwing(ends + [e]) == Throwing(ends) + (if e.exit.Throws? then [e] else [])
  {
    assert (ends + [e])[..|ends|] == ends;
  }

  /**
   * With a body of its own for each create: no body ends twice, and resume
   * rethrows exactly the exceptions that ended bodies, once each, in order.
   */
  lemma {:induction false} EndsOnce(actions: seq<Action>)
    requires OwnBodies(actions)
    ensures Generations(actions)
    ensures Rethrows(actions) == Throwing(Ends(actions))
  {
    if actions != [] {
      var front := actions[..|actions| - 1];
      var a := actions[|actions| - 1];
      EndsOnce(front);
      assert actions == front + [a];
      match a
      case Creating(body) =>
        assert !CreatedIn(front, body) by {
          assert forall i | 0 <= i < |front| && actions[i].Creating? :: actions[i].body != actions[|front|].body;
        }
        GenerationsCreate(front, body);
      case Resuming(id, exit) =>
        GenerationsResume(front, id, exit);
        RethrowsNext(actions, front, id, exit);
    }
  }

  // ---------------------------------------------------------------- the thread-local object

  class Ordinator {
    var routines: seq<Slot>
    var finished: seq<nat>
    var current: nat

    ghost function State(): Pool
      reads this
    {
      Pool(routines, finished, current)
    }

    constructor ()
      ensures State() == EMPTY_POOL
    {
      routines, finished, current := [], [], 0;
    }

    method Create(body: nat) returns (id: nat)
      requires Sound(State())
      modifies this
      ensures Sound(State()) && State() == Created(old(State()), body)
      ensures id == NextId(old(State())) && !Unfinished(old(State()), id) && Unfinished(State(), id)
    {
      CreateSound(State(), body);
      if finished == [] {
        routines := routines + [FreshSlot(body)];
        id := |routines|;
      } else {
        id := finished[0];
        assert id in finished;
        finished := finished[1..];
        routines := routines[id - 1 := FreshSlot(body)];
      }
    }

    /** resume in the main context; exit is how the routine gives control back, if it runs. */
    method Resume(id: nat, exit: Exit) returns (resumed: bool, rethrown: Option<nat>)
      requires Sound(State()) && current == 0
      modifies this
      ensures Sound(State()) && current == 0
      ensures State() == Resumed(old(State()), id, exit)
      ensures (resumed || rethrown.Some?) == Unfinished(old(State()), id)
      ensures rethrown == if Unfinished(old(State()), id) && exit.Throws? then Some(exit.exception) else None
      ensures !(resumed && rethrown.Some?)
    {
      ResumeSound(State(), id, exit);
      if id == 0 || id > |routines| {
        return false, None;
      }
      if routines[id - 1].finished {
        return false, None;
      }
      current := id;
      SwitchBack(exit);
      if routines[id - 1].exception.Some? {
        return false, routines[id - 1].exception;
      }
      return true, None;
    }

    /** Inside the routine: yield, or the rest of entry after the function. */
    method SwitchBack(exit: Exit)
      requires Unfinished(State(), current)
      modifies this
      ensures State() == Left(old(State()), exit)
    {
      var id := current;
      match exit
      case Yields =>
        current := 0;
      case Returns =>
        routines := routines[id - 1 := routines[id - 1].(finished := true)];
        current := 0;
        finished := finished + [id];
      case Throws(e) =>
        routines := routines[id - 1 := routines[id - 1].(exception := Some(e))];
        routines := routines[id - 1 := routines[id - 1].(finished := true)];
        current := 0;
        finished := finished + [id];
    }
  }
}
