// The map in shared memory and its lock: any number of processes, each inside
// an operation whose body takes several steps and may be aborted by bad_alloc.
module SharedMap {
  import opened Wrappers

  type Contents = map<string, string>

  /** What operator[] puts under a new key. */
  const ZERO := ""

  datatype Op =
    | Get(key: string)
    | Insert(key: string, value: string)
    | Erase(key: string)
    | Clear
    | Set(key: string, value: string)

  /** What runs under the lock. */
  type Locked = op: Op | !op.Set? witness Clear

  datatype Outcome = Value(value: string) | Nothing | Count(n: nat) | BadAlloc

  /** The sequential meaning of a completed operation. */
  function Apply(op: Op, m: Contents): (Contents, Outcome) {
    match op
    case Get(k) => if k in m then (m, Value(m[k])) else (m[k := ZERO], Value(ZERO))
    case Insert(k, v) => (if k in m then m else m[k := v], Nothing)
    case Erase(k) => (m - {k}, Count(if k in m then 1 else 0))
    case Clear => (map[], Nothing)
    case Set(k, v) => (m[k := v], Nothing)
  }

  /**
   * What later calls see of an operation: which keys are there, with which
   * values, and what it answered. Only a key that was not there gets the empty
   * value, and insert never changes a value.
   */
  lemma ApplySeen(op: Op, m: Contents, j: string)
    ensures var (r, outcome) := Apply(op, m);
            match op
            case Get(k) =>
              && (j in r <==> j in m || j == k) && (j in r ==> r[j] == if j in m then m[j] else "")
              && outcome == Value(if k in m then m[k] else "")
            case Insert(k, v) =>
              && (j in r <==> j in m || j == k) && (j in r ==> r[j] == if j in m then m[j] else v)
              && outcome == Nothing
            case Erase(k) =>
              && (j in r <==> j in m && j != k) && (j in r ==> r[j] == m[j])
              && outcome == Count(|m| - |r|)
            case Clear => j !in r && outcome == Nothing
            case Set(k, v) =>
              && (j in r <==> j in m || j == k) && (j in r ==> r[j] == if j == k then v else m[j])
              && outcome == Nothing
  {
    if op.Erase? {
      var r := m - {op.key};
      assert op.key in m ==> m == r[op.key := m[op.key]] && |m| == |r| + 1;
      assert op.key !in m ==> m == r;
    }
  }

  // ---------------------------------------------------------------- the processes

  /**
   * Inside a body: arguments still to be copied into shared memory, then the
   * node looked up and acted upon. Found: the lookup met the key, or a place to
   * link a new node.
   */
  datatype Pc = Working(copies: nat) | Found(present: bool) | Done(outcome: Outcome)

  /** Setting: in set_value, which does not ask for the lock. */
  datatype Process =
    | Idle
    | Waiting(op: Locked)
    | Inside(op: Locked, pc: Pc)
    | Setting(key: string, value: string, copies: nat)

  /** An operation in the sequential order, and how it ended. */
  datatype Entry = Entry(pid: nat, op: Op, outcome: Option<Outcome>)

  /** The semaphore, the map, the processes, and the operations in order. */
  datatype Shared = Shared(sem: nat, contents: Contents, processes: seq<Process>, log: seq<Entry>)

  function Copies(op: Op): nat {
    match op
    case Get(_) => 1
    case Insert(_, _) => 2
    case Erase(_) => 1
    case Clear => 0
    case Set(_, _) => 2
  }

  /** fails: the allocation of this step runs out of memory. victim: the node clear removes next. */
  datatype Action =
    | Call(pid: nat, op: Op)
    | WaitFails(pid: nat)
    | Acquire(pid: nat)
    | Work(pid: nat, fails: bool, victim: string)
    | Release(pid: nat)

  predicate Enabled(s: Shared, a: Action) {
    && a.pid < |s.processes|
    && var q := s.processes[a.pid];
       match a
       case Call(_, _) => q.Idle?
       case WaitFails(_) => q.Waiting?
       case Acquire(_) => q.Waiting? && s.sem > 0
       case Work(_, _, victim) =>
         || q.Setting?
         || (q.Inside? && !q.pc.Done? && (q.op.Clear? && s.contents != map[] ==> victim in s.contents))
       case Release(_) => q.Inside? && q.pc.Done?
  }

  /** The lookup, which only reads; afterwards the operation may be over. */
  function Looked(op: Locked, m: Contents): Pc {
    match op
    case Get(k) => Found(k in m)
    case Insert(k, _) => if k in m then Done(Nothing) else Found(false)
    case Erase(k) => if k in m then Found(true) else Done(Count(0))
    case Clear => Done(Nothing)
  }

  /** What follows a lookup acts on its answer, not on the map as it may be by now. */
  function Acted(op: Locked, present: bool, m: Contents, fails: bool): (Contents, Pc) {
    match op
    case Get(k) =>
      if present then (m, Done(Value(if k in m then m[k] else ZERO)))
      else if fails then (m, Done(BadAlloc))
      else (m[k := ZERO], Found(true))
    case Insert(k, v) =>
      if fails then (m, Done(BadAlloc)) else (m[k := v], Done(Nothing))
    case Erase(k) => (m - {k}, Done(Count(1)))
    case Clear => (m, Done(Nothing))
  }

  /** One step of a body. */
  function Worked(op: Locked, pc: Pc, m: Contents, fails: bool, victim: string): (Contents, Pc)
    requires !pc.Done?
  {
    match pc
    case Working(copies) =>
      if copies > 0 then (m, if fails then Done(BadAlloc) else Working(copies - 1))
      else if op.Clear? && m != map[] then (m - {victim}, Working(0))
      else (m, Looked(op, m))
    case Found(present) => Acted(op, present, m, fails)
  }

  predicate Pending(log: seq<Entry>) {
    log != [] && log[|log| - 1].outcome.None?
  }

  /** An entry that ends now: in front of the operation that is still pending, if there is one. */
  function Logged(log: seq<Entry>, e: Entry): seq<Entry> {
    if Pending(log) then log[..|log| - 1] + [e] + [log[|log| - 1]] else log + [e]
  }

  /** The pending operation ends. */
  function Ended(log: seq<Entry>, outcome: Outcome): seq<Entry> {
    if Pending(log) then log[..|log| - 1] + [log[|log| - 1].(outcome := Some(outcome))] else log
  }

  /** set_value: the value and the key are copied, then the node is looked up or made, and assigned. */
  function SetStep(s: Shared, pid: nat, fails: bool): Shared
    requires pid < |s.processes| && s.processes[pid].Setting?
  {
    var Setting(key, value, copies) := s.processes[pid];
    if fails && (copies > 0 || key !in s.contents) then s.(processes := s.processes[pid := Idle])
    else if copies > 0 then s.(processes := s.processes[pid := Setting(key, value, copies - 1)])
    else
      s.(contents := s.contents[key := value], processes := s.processes[pid := Idle],
         log := Logged(s.log, Entry(pid, Set(key, value), Some(Nothing))))
  }

  function BodyStep(s: Shared, pid: nat, fails: bool, victim: string): Shared
    requires pid < |s.processes| && s.processes[pid].Inside? && !s.processes[pid].pc.Done?
  {
    var q := s.processes[pid];
    var (m, pc) := Worked(q.op, q.pc, s.contents, fails, victim);
    s.(contents := m, processes := s.processes[pid := Inside(q.op, pc)],
       log := if pc.Done? then Ended(s.log, pc.outcome) else s.log)
  }

  function Step(s: Shared, a: Action): Shared
    requires Enabled(s, a)
  {
    var q := s.processes[a.pid];
    match a
    case Call(pid, op) =>
      s.(processes := s.processes[pid := if op.Set? then Setting(op.key, op.value, Copies(op)) else Waiting(op)])
    case WaitFails(pid) => s.(processes := s.processes[pid := Idle])
    case Acquire(pid) =>
      s.(sem := s.sem - 1, processes := s.processes[pid := Inside(q.op, Working(Copies(q.op)))],
         log := s.log + [Entry(pid, q.op, None)])
    case Work(pid, fails, victim) =>
      if q.Setting? then SetStep(s, pid, fails) else BodyStep(s, pid, fails, victim)
    case Release(pid) => s.(sem := s.sem + 1, processes := s.processes[pid := Idle])
  }

  /** One semaphore unit, an empty map, n processes doing nothing. */
  function Initial(n: nat): Shared {
    Shared(1, map[], seq(n, _ => Idle), [])
  }

  // ---------------------------------------------------------------- the sequential explanation

  /** The contents after the logged operations one by one; aborted and pending ones have no effect. */
  function Replay(log: seq<Entry>): Contents {
    if log == [] then map[]
    else
      var m := Replay(log[..|log| - 1]);
      var e := log[|log| - 1];
      if e.outcome.None? || e.outcome.value == BadAlloc then m else Apply(e.op, m).0
  }

  /** Every entry ended, either aborted or with the outcome of the sequential operation. */
  ghost predicate Explained(log: seq<Entry>) {
    forall i | 0 <= i < |log| ::
      log[i].outcome.Some? && log[i].outcome.value in {BadAlloc, Apply(log[i].op, Replay(log[..i])).1}
  }

  /** The latest entry of a process. */
  function LatestOf(log: seq<Entry>, pid: nat): Option<Entry> {
    if log == [] then None
    else if log[|log| - 1].pid == pid then Some(log[|log| - 1])
    else LatestOf(log[..|log| - 1], pid)
  }

  function InsideCount(processes: seq<Process>): nat {
    if processes == [] then 0
    else InsideCount(processes[..|processes| - 1]) + (if processes[|processes| - 1].Inside? then 1 else 0)
  }

  /** How far the body of op may have brought the map from m0. */
  ghost predicate Midway(op: Locked, pc: Pc, m0: Contents, m: Contents) {
    match pc
    case Working(copies) =>
      if op.Clear? then copies == 0 && m.Keys <= m0.Keys else m == m0
    case Found(present) =>
      (match op
       case Get(k) => m == (if present && k !in m0 then m0[k := ZERO] else m0) && (present || k !in m0)
       case Insert(k, _) => m == m0 && !present && k !in m0
       case Erase(k) => m == m0 && present && k in m0
       case Clear => false)
    case Done(_) => false
  }

  /** What a process is about to return is the outcome logged for its latest operation. */
  ghost predicate TakesHome(s: Shared) {
    forall i | 0 <= i < |s.processes| && s.processes[i].Inside? && s.processes[i].pc.Done? ::
      LatestOf(s.log, i) == Some(Entry(i, s.processes[i].op, Some(s.processes[i].pc.outcome)))
  }

  /** Nobody on the way: map and results are what the log says. */
  ghost predicate Settled(s: Shared) {
    && Explained(s.log) && s.contents == Replay(s.log) && TakesHome(s)
    && forall i | 0 <= i < |s.processes| && s.processes[i].Inside? :: s.processes[i].pc.Done?
  }

  /** Somebody on the way: the process of the last entry, starting from what the rest of the log says. */
  ghost predicate Held(s: Shared, before: seq<Entry>, e: Entry) {
    && s.log == before + [e] && Explained(before) && e.outcome.None?
    && e.pid < |s.processes| && s.processes[e.pid].Inside? && s.processes[e.pid].op == e.op
    && Midway(e.op, s.processes[e.pid].pc, Replay(before), s.contents)
  }

  ghost predicate Consistent(s: Shared) {
    && s.sem + InsideCount(s.processes) == 1
    && (if Pending(s.log) then Held(s, s.log[..|s.log| - 1], s.log[|s.log| - 1]) else Settled(s))
  }

  // ---------------------------------------------------------------- mutual exclusion

  lemma {:induction false} CountUpdate(processes: seq<Process>, pid: nat, q: Process)
    requires pid < |processes|
    ensures InsideCount(processes[pid := q]) + (if processes[pid].Inside? then 1 else 0)
            == InsideCount(processes) + (if q.Inside? then 1 else 0)
    decreases |processes|
  {
    var front := processes[..|processes| - 1];
    if pid == |front| {
      assert processes[pid := q][..|front|] == front;
    } else {
      assert processes[pid := q][..|front|] == front[pid := q];
      CountUpdate(front, pid, q);
    }
  }

  lemma {:induction false} CountTwo(processes: seq<Process>, i: nat, j: nat)
    requires i < j < |processes| && processes[i].Inside? && processes[j].Inside?
    ensures InsideCount(processes) >= 2
    decreases |processes|
  {
    var front := processes[..|processes| - 1];
    if j < |front| {
      CountTwo(front, i, j);
    } else {
      CountOne(front, i);
    }
  }

  lemma {:induction false} CountOne(processes: seq<Process>, i: nat)
    requires i < |processes| && processes[i].Inside?
    ensures InsideCount(processes) >= 1
    decreases |processes|
  {
    if i < |processes| - 1 {
      CountOne(processes[..|processes| - 1], i);
    }
  }

  lemma {:induction false} CountIdle(n: nat)
    ensures InsideCount(seq(n, _ => Idle)) == 0
  {
    if n > 0 {
      var all := seq(n, _ => Idle);
      assert all[..n - 1] == seq(n - 1, _ => Idle);
      CountIdle(n - 1);
    }
  }

  /** Mutual exclusion. */
  lemma OnlyOneInside(s: Shared, i: nat, j: nat)
    requires Consistent(s) && i < |s.processes| && j < |s.processes|
    requires s.processes[i].Inside? && s.processes[j].Inside?
    ensures i == j && s.sem == 0
  {
    CountOne(s.processes, i);
    if i < j {
      CountTwo(s.processes, i, j);
    } else if j < i {
      CountTwo(s.processes, j, i);
    }
  }

  // ---------------------------------------------------------------- steps

  lemma ExplainedGrows(log: seq<Entry>, e: Entry)
    requires Explained(log) && e.outcome.Some? && e.outcome.value in {BadAlloc, Apply(e.op, Replay(log)).1}
    ensures Explained(log + [e])
    ensures Replay(log + [e]) == if e.outcome.value == BadAlloc then Replay(log) else Apply(e.op, Replay(log)).0
  {
    var all := log + [e];
    assert all[..|log|] == log;
    forall i | 0 <= i < |all|
      ensures all[i].outcome.Some? && all[i].outcome.value in {BadAlloc, Apply(all[i].op, Replay(all[..i])).1}
    {
      if i < |log| { assert all[..i] == log[..i]; }
    }
  }

  lemma LatestGrows(log: seq<Entry>, e: Entry, pid: nat)
    ensures LatestOf(log + [e], pid) == if e.pid == pid then Some(e) else LatestOf(log, pid)
  {
    assert (log + [e])[..|log|] == log;
  }

  /** A step of a process that neither is nor gets inside and leaves map, log and semaphore alone. */
  lemma OutsideStep(s: Shared, pid: nat, q: Process)
    requires Consistent(s) && pid < |s.processes| && !s.processes[pid].Inside? && !q.Inside?
    ensures Consistent(s.(processes := s.processes[pid := q]))
  {
    CountUpdate(s.processes, pid, q);
  }

  lemma AcquireStep(s: Shared, a: Action)
    requires Consistent(s) && Enabled(s, a) && a.Acquire?
    ensures Consistent(Step(s, a))
  {
    var q := s.processes[a.pid];
    CountUpdate(s.processes, a.pid, Inside(q.op, Working(Copies(q.op))));
    if Pending(s.log) {
      CountOne(s.processes, s.log[|s.log| - 1].pid);
      assert false;
    } else {
      var e := Entry(a.pid, q.op, None);
      assert (s.log + [e])[..|s.log|] == s.log;
      assert Held(Step(s, a), s.log, e);
    }
  }

  /** A body that is over has done what the sequential operation does, or nothing. */
  ghost predicate Finished(op: Locked, outcome: Outcome, m0: Contents, m: Contents) {
    if outcome == BadAlloc then m == m0 else Apply(op, m0) == (m, outcome)
  }

  /** One step of the body brings the map further on its way. */
  lemma WorkMoves(op: Locked, pc: Pc, m0: Contents, m: Contents, fails: bool, victim: string)
    requires Midway(op, pc, m0, m)
    ensures var (m', pc') := Worked(op, pc, m, fails, victim);
            if pc'.Done? then Finished(op, pc'.outcome, m0, m') else Midway(op, pc', m0, m')
  {
    match op
    case Get(_) =>
    case Insert(_, _) =>
    case Erase(k) => assert k !in m0 ==> m0 - {k} == m0;
    case Clear =>
  }

  lemma BodyMoves(s: Shared, a: Action)
    requires Consistent(s) && Enabled(s, a) && a.Work? && s.processes[a.pid].Inside?
    ensures Pending(s.log) && s.log[|s.log| - 1].pid == a.pid
    ensures Held(s, s.log[..|s.log| - 1], s.log[|s.log| - 1])
    ensures Step(s, a).sem + InsideCount(Step(s, a).processes) == 1
    ensures forall i | 0 <= i < |s.processes| && s.processes[i].Inside? :: i == a.pid
  {
    forall i | 0 <= i < |s.processes| && s.processes[i].Inside? ensures i == a.pid {
      OnlyOneInside(s, i, a.pid);
    }
    CountUpdate(s.processes, a.pid, Step(s, a).processes[a.pid]);
  }

  lemma EndSettles(s: Shared, before: seq<Entry>, e: Entry)
    requires Explained(before) && e.outcome.Some? && s.log == before + [e]
    requires e.pid < |s.processes| && !e.op.Set? && s.processes[e.pid] == Inside(e.op, Done(e.outcome.value))
    requires Finished(e.op, e.outcome.value, Replay(before), s.contents)
    requires forall i | 0 <= i < |s.processes| && s.processes[i].Inside? :: i == e.pid
    ensures Settled(s)
  {
    ExplainedGrows(before, e);
    LatestGrows(before, e, e.pid);
  }

  lemma BodyConsistent(s: Shared, a: Action)
    requires Consistent(s) && Enabled(s, a) && a.Work? && s.processes[a.pid].Inside?
    ensures Consistent(Step(s, a))
  {
    BodyMoves(s, a);
    var before, e, t := s.log[..|s.log| - 1], s.log[|s.log| - 1], Step(s, a);
    WorkMoves(e.op, s.processes[a.pid].pc, Replay(before), s.contents, a.fails, a.victim);
    if t.processes[a.pid].pc.Done? {
      var ended := e.(outcome := Some(t.processes[a.pid].pc.outcome));
      assert t.log == before + [ended] && !Pending(t.log);
      assert Settled(t) by {
        EndSettles(t, before, ended);
      }
    } else {
      assert Held(t, before, e);
    }
  }

  lemma ReleaseStep(s: Shared, a: Action)
    requires Consistent(s) && Enabled(s, a) && a.Release?
    ensures Consistent(Step(s, a))
  {
    CountUpdate(s.processes, a.pid, Idle);
    if Pending(s.log) {
      OnlyOneInside(s, a.pid, s.log[|s.log| - 1].pid);
      assert false;
    }
  }

  // ---------------------------------------------------------------- progress

  /** The steps of a body from here on, if no allocation fails. */
  function StepsLeft(op: Locked, pc: Pc, m: Contents): nat {
    match pc
    case Working(copies) =>
      copies + (match op
                case Get(k) => if k in m then 2 else 3
                case Insert(k, _) => if k in m then 1 else 2
                case Erase(k) => if k in m then 2 else 1
                case Clear => |m| + 1)
    case Found(present) => if op.Get? && !present then 2 else 1
    case Done(_) => 0
  }

  lemma OneStepLess(op: Locked, pc: Pc, m: Contents, fails: bool, victim: string)
    requires !pc.Done? && (op.Clear? && m != map[] ==> victim in m)
    ensures var (m', pc') := Worked(op, pc, m, fails, victim);
            && StepsLeft(op, pc', m') < StepsLeft(op, pc, m)
            && (!fails ==> StepsLeft(op, pc', m') == StepsLeft(op, pc, m) - 1)
  {
    if op.Clear? && m != map[] {
      var r := m - {victim};
      assert m == r[victim := m[victim]] && |m| == |r| + 1;
    }
  }

  /** acts are steps of process h alone. */
  predicate StepsOf(h: nat, acts: seq<Action>) {
    forall i | 0 <= i < |acts| :: acts[i].Work? && acts[i].pid == h
  }

  lemma {:induction false} StepsCount(s: Shared, h: nat, acts: seq<Action>)
    requires EnabledRun(s, acts) && StepsOf(h, acts) && h < |s.processes| && s.processes[h].Inside?
    ensures var t := After(s, acts);
            && h < |t.processes| && t.processes[h].Inside? && t.processes[h].op == s.processes[h].op
            && var left := StepsLeft(t.processes[h].op, t.processes[h].pc, t.contents);
               var all := StepsLeft(s.processes[h].op, s.processes[h].pc, s.contents);
               && left + |acts| <= all
               && ((forall i | 0 <= i < |acts| :: !acts[i].fails) ==> left + |acts| == all)
    decreases |acts|
  {
    if acts != [] {
      var q := s.processes[h];
      assert StepsOf(h, acts[1..]);
      OneStepLess(q.op, q.pc, s.contents, acts[0].fails, acts[0].victim);
      StepsCount(Step(s, acts[0]), h, acts[1..]);
      assert (forall i | 0 <= i < |acts| :: !acts[i].fails) ==>
             !acts[0].fails && forall i | 0 <= i < |acts| - 1 :: !acts[1..][i].fails;
    }
  }

  /**
   * Progress: the holder of the lock, running alone, is done after a number of
   * steps that the operation and the map fix (a copy for each argument, the
   * lookup, and the link and the read or the unlink; clear: one for each
   * entry), and earlier only by bad_alloc.
   */
  lemma HolderEnds(s: Shared, h: nat, acts: seq<Action>)
    requires EnabledRun(s, acts) && StepsOf(h, acts) && h < |s.processes|
    requires s.processes[h].Inside? && s.processes[h].pc == Working(Copies(s.processes[h].op))
    ensures var m, t := s.contents, After(s, acts);
            var all := match s.processes[h].op
                       case Get(k) => if k in m then 3 else 4
                       case Insert(k, _) => if k in m then 3 else 4
                       case Erase(k) => if k in m then 3 else 2
                       case Clear => |m| + 1;
            && |acts| <= all && h < |t.processes| && t.processes[h].Inside?
            && (|acts| == all ==> t.processes[h].pc.Done?)
            && ((forall i | 0 <= i < |acts| :: !acts[i].fails) && |acts| < all ==> !t.processes[h].pc.Done?)
  {
    StepsCount(s, h, acts);
  }

  lemma {:induction false} SettingSteps(s: Shared, h: nat, acts: seq<Action>)
    requires EnabledRun(s, acts) && StepsOf(h, acts) && h < |s.processes| && s.processes[h].Setting?
    requires forall i | 0 <= i < |acts| :: !acts[i].fails
    ensures |acts| <= s.processes[h].copies + 1 && h < |After(s, acts).processes|
    ensures After(s, acts).processes[h].Idle? <==> |acts| == s.processes[h].copies + 1
    decreases |acts|
  {
    if acts != [] {
      assert forall i | 0 <= i < |acts| - 1 :: acts[1..][i] == acts[i + 1];
      if s.processes[h].copies > 0 {
        SettingSteps(Step(s, acts[0]), h, acts[1..]);
      } else {
        assert StepsOf(h, acts[1..]) && EnabledRun(Step(s, acts[0]), acts[1..]);
      }
    }
  }

  /** set_value copies the value and the key, then assigns: three steps, unless one fails. */
  lemma SetterEnds(s: Shared, h: nat, key: string, value: string, acts: seq<Action>)
    requires h < |s.processes| && s.processes[h].Idle? && StepsOf(h, acts)
    requires forall i | 0 <= i < |acts| :: !acts[i].fails
    requires EnabledRun(Step(s, Call(h, Set(key, value))), acts)
    ensures var t := After(Step(s, Call(h, Set(key, value))), acts);
            |acts| <= 3 && h < |t.processes| && (t.processes[h].Idle? <==> |acts| == 3)
  {
    SettingSteps(Step(s, Call(h, Set(key, value))), h, acts);
  }

  // ---------------------------------------------------------------- set_value

  /** a is the step of set_value that changes the map. */
  predicate Lands(s: Shared, a: Action)
    requires Enabled(s, a)
  {
    && a.Work? && s.processes[a.pid].Setting? && s.processes[a.pid].copies == 0
    && !(a.fails && s.processes[a.pid].key !in s.contents)
  }

  /** A process has looked for the key in vain and is about to link a node for it. */
  predicate Linking(q: Process, key: string) {
    q.Inside? && q.pc == Found(false) && (q.op.Get? || q.op.Insert?) && q.op.key == key
  }

  predicate Harmless(s: Shared, a: Action)
    requires Enabled(s, a)
  {
    Lands(s, a) ==> forall i | 0 <= i < |s.processes| :: !Linking(s.processes[i], s.processes[a.pid].key)
  }

  /** An assignment in the middle of a body is as good as one before it, unless the body is about to link the key. */
  lemma SetMoves(op: Locked, pc: Pc, m0: Contents, m: Contents, key: string, value: string)
    requires Midway(op, pc, m0, m)
    ensures Midway(op, pc, m0[key := value], m[key := value]) <==> !Linking(Inside(op, pc), key)
  {}

  lemma SettledGrows(s: Shared, t: Shared, e: Entry)
    requires Settled(s) && e.pid < |s.processes| && !s.processes[e.pid].Inside? && e.outcome.Some?
    requires t.log == s.log + [e] && t.processes == s.processes[e.pid := Idle]
    requires Apply(e.op, s.contents) == (t.contents, e.outcome.value) && e.outcome.value != BadAlloc
    ensures Settled(t)
  {
    ExplainedGrows(s.log, e);
    forall i | 0 <= i < |t.processes| && t.processes[i].Inside?
      ensures LatestOf(t.log, i) == LatestOf(s.log, i) && t.processes[i] == s.processes[i]
    {
      LatestGrows(s.log, e, i);
    }
  }

  lemma NobodyLinks(s: Shared, key: string)
    requires Settled(s)
    ensures forall i | 0 <= i < |s.processes| :: !Linking(s.processes[i], key)
  {}

  /** What the assignment does while nobody is on the way. */
  lemma LandedAlone(s: Shared, a: Action)
    requires Enabled(s, a) && Lands(s, a) && !Pending(s.log)
    ensures var q, t := s.processes[a.pid], Step(s, a);
            && t.log == s.log + [Entry(a.pid, Set(q.key, q.value), Some(Nothing))] && !Pending(t.log)
            && t.sem == s.sem && t.processes == s.processes[a.pid := Idle]
            && t.contents == s.contents[q.key := q.value]
  {}

  lemma LandsSettled(s: Shared, a: Action)
    requires Consistent(s) && Enabled(s, a) && Lands(s, a) && !Pending(s.log)
    ensures Consistent(Step(s, a)) && Harmless(s, a)
  {
    var q, t := s.processes[a.pid], Step(s, a);
    LandedAlone(s, a);
    assert t.sem + InsideCount(t.processes) == 1 by {
      CountUpdate(s.processes, a.pid, Idle);
    }
    assert Settled(t) by {
      SettledGrows(s, t, Entry(a.pid, Set(q.key, q.value), Some(Nothing)));
    }
    assert Harmless(s, a) by {
      NobodyLinks(s, q.key);
    }
  }

  /** And while somebody is. */
  lemma LandedInFront(s: Shared, a: Action, before: seq<Entry>, e: Entry)
    requires Enabled(s, a) && Lands(s, a) && s.log == before + [e] && e.outcome.None?
    ensures var q, t := s.processes[a.pid], Step(s, a);
            var front := before + [Entry(a.pid, Set(q.key, q.value), Some(Nothing))];
            && t.log == front + [e] && t.log[..|t.log| - 1] == front && t.log[|t.log| - 1] == e && Pending(t.log)
            && t.sem == s.sem && t.processes == s.processes[a.pid := Idle]
            && t.contents == s.contents[q.key := q.value]
  {
    assert s.log[..|before|] == before;
  }

  lemma LandsHeld(s: Shared, a: Action, before: seq<Entry>, e: Entry)
    requires Consistent(s) && Enabled(s, a) && Lands(s, a) && Pending(s.log) && Held(s, before, e)
    ensures Consistent(Step(s, a)) <==> !Linking(s.processes[e.pid], s.processes[a.pid].key)
  {
    var q, t := s.processes[a.pid], Step(s, a);
    var front := before + [Entry(a.pid, Set(q.key, q.value), Some(Nothing))];
    LandedInFront(s, a, before, e);
    assert t.sem + InsideCount(t.processes) == 1 by {
      CountUpdate(s.processes, a.pid, Idle);
    }
    assert Held(t, front, e) <==> !Linking(s.processes[e.pid], q.key) by {
      HeldAfterSet(s, t, before, front, e, q.key, q.value);
    }
  }

  lemma HeldAfterSet(s: Shared, t: Shared, before: seq<Entry>, front: seq<Entry>, e: Entry, key: string, value: string)
    requires Held(s, before, e) && t.log == front + [e] && |t.processes| == |s.processes|
    requires t.processes[e.pid] == s.processes[e.pid] && t.contents == s.contents[key := value]
    requires front != [] && front[..|front| - 1] == before && front[|front| - 1].op == Set(key, value)
    requires front[|front| - 1].outcome == Some(Nothing)
    ensures Held(t, front, e) <==> !Linking(s.processes[e.pid], key)
  {
    assert Explained(front) && Replay(front) == Replay(before)[key := value] by {
      assert front == before + [front[|front| - 1]];
      ExplainedGrows(before, front[|front| - 1]);
    }
    SetMoves(e.op, s.processes[e.pid].pc, Replay(before), s.contents, key, value);
  }

  /** Landing while nobody is on the way, or on a way that it does not cross, is all that set_value may do. */
  lemma LandsExactly(s: Shared, a: Action)
    requires Consistent(s) && Enabled(s, a) && Lands(s, a)
    ensures Consistent(Step(s, a)) <==> Harmless(s, a)
  {
    if Pending(s.log) {
      var before, e := s.log[..|s.log| - 1], s.log[|s.log| - 1];
      LandsHeld(s, a, before, e);
      forall i | 0 <= i < |s.processes| && s.processes[i].Inside? ensures i == e.pid {
        OnlyOneInside(s, i, e.pid);
      }
    } else {
      LandsSettled(s, a);
    }
  }

  /** The exact guard: of all steps, only an assignment to a key that somebody is about to link breaks the agreement. */
  lemma StepConsistentExactly(s: Shared, a: Action)
    requires Consistent(s) && Enabled(s, a)
    ensures Consistent(Step(s, a)) <==> Harmless(s, a)
  {
    match a
    case Call(pid, op) => OutsideStep(s, pid, Step(s, a).processes[pid]);
    case WaitFails(pid) => OutsideStep(s, pid, Idle);
    case Acquire(_) => AcquireStep(s, a);
    case Release(_) => ReleaseStep(s, a);
    case Work(pid, _, _) =>
      if s.processes[pid].Inside? {
        BodyConsistent(s, a);
      } else if Lands(s, a) {
        LandsExactly(s, a);
      } else {
        OutsideStep(s, pid, Step(s, a).processes[pid]);
      }
  }

  /** Assigning a key that is in the map never does any harm. */
  lemma OverwritingIsHarmless(s: Shared, a: Action)
    requires Consistent(s) && Enabled(s, a) && a.Work? && s.processes[a.pid].Setting?
    requires s.processes[a.pid].key in s.contents
    ensures Harmless(s, a)
  {
    forall i | 0 <= i < |s.processes| ensures !Linking(s.processes[i], s.processes[a.pid].key) {
      if Linking(s.processes[i], s.processes[a.pid].key) && Pending(s.log) {
        OnlyOneInside(s, i, s.log[|s.log| - 1].pid);
      }
    }
  }

  /** Where memory is needed, for a copy or a new node, bad_alloc ends set_value and leaves map and log as they were. */
  lemma FailedSetIsClean(s: Shared, a: Action)
    requires Enabled(s, a) && a.Work? && a.fails && s.processes[a.pid].Setting?
    requires s.processes[a.pid].copies > 0 || s.processes[a.pid].key !in s.contents
    ensures Step(s, a) == s.(processes := s.processes[a.pid := Idle])
  {}

  /** Assigning a present key needs none, so it cannot fail. */
  lemma OverwritingSucceeds(s: Shared, a: Action)
    requires Enabled(s, a) && a.Work? && s.processes[a.pid].Setting? && s.processes[a.pid].copies == 0
    requires s.processes[a.pid].key in s.contents
    ensures Step(s, a).contents == s.contents[s.processes[a.pid].key := s.processes[a.pid].value]
    ensures Step(s, a).log == Step(s, a.(fails := !a.fails)).log
  {}

  // ---------------------------------------------------------------- runs

  predicate EnabledRun(s: Shared, acts: seq<Action>)
    decreases |acts|
  {
    acts != [] ==> Enabled(s, acts[0]) && EnabledRun(Step(s, acts[0]), acts[1..])
  }

  predicate HarmlessRun(s: Shared, acts: seq<Action>)
    requires EnabledRun(s, acts)
    decreases |acts|
  {
    acts != [] ==> Harmless(s, acts[0]) && HarmlessRun(Step(s, acts[0]), acts[1..])
  }

  function After(s: Shared, acts: seq<Action>): Shared
    requires EnabledRun(s, acts)
    decreases |acts|
  {
    if acts == [] then s else After(Step(s, acts[0]), acts[1..])
  }

  lemma {:induction false} RunConsistent(s: Shared, acts: seq<Action>)
    requires Consistent(s) && EnabledRun(s, acts) && HarmlessRun(s, acts)
    ensures Consistent(After(s, acts))
    decreases |acts|
  {
    if acts != [] {
      StepConsistentExactly(s, acts[0]);
      RunConsistent(Step(s, acts[0]), acts[1..]);
    }
  }

  lemma InitiallyConsistent(n: nat)
    ensures Consistent(Initial(n))
  {
    CountIdle(n);
  }

  /**
   * For any number of processes and any interleaving, set_value included as
   * long as it does no harm: the semaphore and the processes inside add up to
   * one, and whenever nobody is inside, the map and all results are those of
   * the completed operations one by one, those under the lock in the order in
   * which they got it.
   */
  lemma HarmlessProtocol(n: nat, acts: seq<Action>)
    requires EnabledRun(Initial(n), acts) && HarmlessRun(Initial(n), acts)
    ensures var s := After(Initial(n), acts);
            && s.sem + InsideCount(s.processes) == 1
            && Explained(if Pending(s.log) then s.log[..|s.log| - 1] else s.log)
            && (InsideCount(s.processes) == 0 ==> s.contents == Replay(s.log) && !Pending(s.log))
            && TakesHome(s)
  {
    InitiallyConsistent(n);
    RunConsistent(Initial(n), acts);
    var s := After(Initial(n), acts);
    if Pending(s.log) {
      CountOne(s.processes, s.log[|s.log| - 1].pid);
      forall i | 0 <= i < |s.processes| && s.processes[i].Inside? ensures !s.processes[i].pc.Done? {
        OnlyOneInside(s, i, s.log[|s.log| - 1].pid);
      }
    }
  }

  /** Nobody is in set_value, and nobody is going to be. */
  predicate NoSetting(s: Shared, acts: seq<Action>) {
    && (forall i | 0 <= i < |s.processes| :: !s.processes[i].Setting?)
    && (forall i | 0 <= i < |acts| :: acts[i].Call? ==> !acts[i].op.Set?)
  }

  lemma {:induction false} LockedIsHarmless(s: Shared, acts: seq<Action>)
    requires EnabledRun(s, acts) && NoSetting(s, acts)
    ensures HarmlessRun(s, acts)
    decreases |acts|
  {
    if acts != [] {
      LockedIsHarmless(Step(s, acts[0]), acts[1..]);
    }
  }

  /** Without set_value, every run is explained. */
  lemma LockProtocol(n: nat, acts: seq<Action>)
    requires EnabledRun(Initial(n), acts)
    requires forall i | 0 <= i < |acts| :: acts[i].Call? ==> !acts[i].op.Set?
    ensures var s := After(Initial(n), acts);
            && s.sem + InsideCount(s.processes) == 1
            && Explained(if Pending(s.log) then s.log[..|s.log| - 1] else s.log)
            && (InsideCount(s.processes) == 0 ==> s.contents == Replay(s.log) && !Pending(s.log))
            && TakesHome(s)
  {
    LockedIsHarmless(Initial(n), acts);
    HarmlessProtocol(n, acts);
  }

  // ---------------------------------------------------------------- the lost update

  ghost predicate Fits(log: seq<Entry>, m: Contents) {
    Explained(log) && Replay(log) == m
  }

  function Swapped(log: seq<Entry>): seq<Entry>
    requires |log| >= 2
  {
    log[..|log| - 2] + [log[|log| - 1]] + [log[|log| - 2]]
  }

  /** The value of the node that an operation links. */
  function Linked(op: Locked): string {
    if op.Insert? then op.value else ZERO
  }

  /** The body goes on from the vain lookup to its end. */
  function LinkAndEnd(s: Shared, h: nat, key: string, fails: bool): (t: Shared)
    requires h < |s.processes| && Linking(s.processes[h], key)
    ensures h < |t.processes| && t.processes[h].Inside? && t.processes[h].pc.Done?
  {
    var t := BodyStep(s, h, fails, "");
    if t.processes[h].pc.Done? then t else BodyStep(t, h, false, "")
  }

  /** e fits behind log, and leads to m. */
  predicate FitsNext(before: Contents, e: Entry, m: Contents) {
    && e.outcome.Some? && e.outcome.value in {BadAlloc, Apply(e.op, before).1}
    && m == if e.outcome.value == BadAlloc then before else Apply(e.op, before).0
  }

  lemma FitsTwo(log: seq<Entry>, e: Entry, f: Entry, m: Contents)
    requires Explained(log)
    ensures Fits(log + [e] + [f], m) <==>
            exists m' :: FitsNext(Replay(log), e, m') && FitsNext(m', f, m)
  {
    var one, two := log + [e], log + [e] + [f];
    assert one[..|log|] == log && two[..|one|] == one && two[..|log|] == log;
    if Fits(two, m) {
      assert two[|log|] == e && two[|one|] == f;
      assert FitsNext(Replay(log), e, Replay(one)) && FitsNext(Replay(one), f, m);
    }
    if m' :| FitsNext(Replay(log), e, m') && FitsNext(m', f, m) {
      ExplainedGrows(log, e);
      ExplainedGrows(one, f);
    }
  }

  /** What the harm is, for the two operations alone. */
  lemma LostOrNot(op: Locked, h: nat, setting: Entry, outcome: Outcome, m0: Contents, m: Contents, fails: bool)
    requires setting.op.Set? && setting.outcome == Some(Nothing)
    requires Linking(Inside(op, Found(false)), setting.op.key) && setting.op.key !in m0
    requires outcome == if fails then BadAlloc else if op.Get? then Value(ZERO) else Nothing
    requires m == if fails then m0[op.key := setting.op.value] else m0[op.key := Linked(op)]
    ensures var locked := Entry(h, op, Some(outcome));
            || (exists m' :: FitsNext(m0, setting, m') && FitsNext(m', locked, m))
            || (exists m' :: FitsNext(m0, locked, m') && FitsNext(m', setting, m))
            <==> fails || setting.op.value == Linked(op)
  {
    var locked := Entry(h, op, Some(outcome));
    var m1 := m0[op.key := setting.op.value];
    assert FitsNext(m0, setting, m1);
    assert m[op.key] == if fails then setting.op.value else Linked(op);
    if fails || setting.op.value == Linked(op) {
      assert FitsNext(m1, locked, m);
    }
  }

  /**
   * An assignment that lands between the vain lookup of a key and the link
   * fits, behind all that was logged before, in front of the operation or
   * after it exactly if the link fails or writes the same value.
   */
  lemma LostUpdateExactly(s: Shared, a: Action, h: nat, fails: bool)
    requires Consistent(s) && Enabled(s, a) && Lands(s, a)
    requires h < |s.processes| && Linking(s.processes[h], s.processes[a.pid].key)
    ensures var q, t := s.processes[a.pid], LinkAndEnd(Step(s, a), h, s.processes[a.pid].key, fails);
            && |t.log| >= 2
            && (Fits(t.log, t.contents) || Fits(Swapped(t.log), t.contents)
                <==> fails || q.value == Linked(s.processes[h].op))
  {
    var q, op := s.processes[a.pid], s.processes[h].op;
    LinkingIsHeld(s, h);
    var before, e := s.log[..|s.log| - 1], s.log[|s.log| - 1];
    var t := LinkAndEnd(Step(s, a), h, q.key, fails);
    var setting, locked := Entry(a.pid, Set(q.key, q.value), Some(Nothing)),
                           Entry(h, op, Some(t.processes[h].pc.outcome));
    LinkAndEndLog(s, a, h, before, e, fails);
    FitsTwo(before, setting, locked, t.contents);
    FitsTwo(before, locked, setting, t.contents);
    LostOrNot(op, h, setting, t.processes[h].pc.outcome, Replay(before), t.contents, fails);
    TwoSwapped(before, setting, locked);
  }

  lemma TwoSwapped(log: seq<Entry>, e: Entry, f: Entry)
    ensures Swapped(log + [e] + [f]) == log + [f] + [e]
  {}

  lemma LinkingIsHeld(s: Shared, h: nat)
    requires Consistent(s) && h < |s.processes| && s.processes[h].Inside? && !s.processes[h].pc.Done?
    ensures Pending(s.log) && s.log[|s.log| - 1].pid == h
    ensures Held(s, s.log[..|s.log| - 1], s.log[|s.log| - 1])
  {
    OnlyOneInside(s, h, s.log[|s.log| - 1].pid);
  }

  lemma LinkedLog(s: Shared, h: nat, key: string, before: seq<Entry>, e: Entry, fails: bool)
    requires h < |s.processes| && Linking(s.processes[h], key)
    requires s.log == before + [e] && e.outcome.None?
    ensures var op, t := s.processes[h].op, LinkAndEnd(s, h, key, fails);
            && t.processes[h].pc.outcome == (if fails then BadAlloc else if op.Get? then Value(ZERO) else Nothing)
            && t.contents == (if fails then s.contents else s.contents[key := Linked(op)])
            && t.log == before + [e.(outcome := Some(t.processes[h].pc.outcome))]
  {
    assert s.log[..|before|] == before;
  }

  lemma LinkAndEndLog(s: Shared, a: Action, h: nat, before: seq<Entry>, e: Entry, fails: bool)
    requires Enabled(s, a) && Lands(s, a) && s.log == before + [e]
    requires h < |s.processes| && Linking(s.processes[h], s.processes[a.pid].key)
    requires e == Entry(h, s.processes[h].op, None)
    ensures var q, op, t := s.processes[a.pid], s.processes[h].op,
                            LinkAndEnd(Step(s, a), h, s.processes[a.pid].key, fails);
            && t.processes[h].pc.outcome == (if fails then BadAlloc else if op.Get? then Value(ZERO) else Nothing)
            && t.contents == s.contents[q.key := if fails then q.value else Linked(op)]
            && t.log == before + [Entry(a.pid, Set(q.key, q.value), Some(Nothing))]
                        + [Entry(h, op, Some(t.processes[h].pc.outcome))]
  {
    var q := s.processes[a.pid];
    var landed := Step(s, a);
    var front := before + [Entry(a.pid, Set(q.key, q.value), Some(Nothing))];
    LandedInFront(s, a, before, e);
    assert s.contents[q.key := q.value][q.key := Linked(e.op)] == s.contents[q.key := Linked(e.op)];
    LinkedLog(landed, h, q.key, front, e, fails);
  }

  // ---------------------------------------------------------------- a run that loses one

  ghost predicate RunsTo(s: Shared, acts: seq<Action>, t: Shared) {
    EnabledRun(s, acts) && After(s, acts) == t
  }

  predicate Leads(s: Shared, a: Action, t: Shared) {
    && Enabled(s, a)
    && Step(s, a).sem == t.sem && Step(s, a).contents == t.contents
    && Step(s, a).processes == t.processes && Step(s, a).log == t.log
  }

  lemma RunsOneMore(s: Shared, a: Action, u: Shared, rest: seq<Action>, t: Shared)
    requires Leads(s, a, u) && RunsTo(u, rest, t)
    ensures RunsTo(s, [a] + rest, t)
  {
    assert Step(s, a) == u;
    assert ([a] + rest)[1..] == rest;
  }

  const INSERTING: Locked := Insert("a", "x")
  const ASSIGNED := Entry(1, Set("a", "y"), Some(Nothing))

  /** One process in insert, on its way to the vain lookup, the other in set_value or not yet. */
  function Racing(pc: Pc, other: Process): Shared {
    Shared(0, map[], [Inside(INSERTING, pc), other], [Entry(0, INSERTING, None)])
  }

  /** insert has linked its node, and returned. */
  const CROSSED := Shared(0, map["a" := "y"], [Inside(INSERTING, Found(false)), Idle],
                          [ASSIGNED, Entry(0, INSERTING, None)])
  const LINKED := Shared(0, map["a" := "x"], [Inside(INSERTING, Done(Nothing)), Idle],
                         [ASSIGNED, Entry(0, INSERTING, Some(Nothing))])
  const LOST := LINKED.(sem := 1, processes := [Idle, Idle])

  const WORK0 := Work(0, false, "")
  const WORK1 := Work(1, false, "")

  /** The vain lookup; set_value as a whole; the link and the release. */
  const LOOKUP := [Call(0, INSERTING)] + ([Acquire(0)] + ([WORK0] + ([WORK0] + [WORK0])))
  const SETTING := [Call(1, Set("a", "y"))] + ([WORK1] + ([WORK1] + [WORK1]))
  const LINK := [WORK0] + [Release(0)]

  lemma LookupRuns()
    ensures RunsTo(Initial(2), LOOKUP, Racing(Found(false), Idle))
  {
    var end := Racing(Found(false), Idle);
    var waiting := Shared(1, map[], [Waiting(INSERTING), Idle], []);
    RunsOneMore(Racing(Working(0), Idle), WORK0, end, [], end);
    assert [WORK0] + [] == [WORK0];
    RunsOneMore(Racing(Working(1), Idle), WORK0, Racing(Working(0), Idle), [WORK0], end);
    RunsOneMore(Racing(Working(2), Idle), WORK0, Racing(Working(1), Idle), [WORK0] + [WORK0], end);
    RunsOneMore(waiting, Acquire(0), Racing(Working(2), Idle), [WORK0] + ([WORK0] + [WORK0]), end);
    RunsOneMore(Initial(2), Call(0, INSERTING), waiting,
                [Acquire(0)] + ([WORK0] + ([WORK0] + [WORK0])), end);
  }

  lemma SettingRuns()
    ensures RunsTo(Racing(Found(false), Idle), SETTING, CROSSED)
  {
    var at := (copies: nat) => Racing(Found(false), Setting("a", "y", copies));
    RunsOneMore(at(0), WORK1, CROSSED, [], CROSSED);
    assert [WORK1] + [] == [WORK1];
    RunsOneMore(at(1), WORK1, at(0), [WORK1], CROSSED);
    RunsOneMore(at(2), WORK1, at(1), [WORK1] + [WORK1], CROSSED);
    RunsOneMore(Racing(Found(false), Idle), Call(1, Set("a", "y")), at(2), [WORK1] + ([WORK1] + [WORK1]), CROSSED);
  }

  lemma LinkRuns()
    ensures RunsTo(CROSSED, LINK, LOST)
  {
    RunsOneMore(LINKED, Release(0), LOST, [], LOST);
    assert [Release(0)] + [] == [Release(0)];
    RunsOneMore(CROSSED, WORK0, LINKED, [Release(0)], LOST);
  }

  lemma {:induction false} RunsInTwo(s: Shared, a: seq<Action>, t: Shared, b: seq<Action>, u: Shared)
    requires RunsTo(s, a, t) && RunsTo(t, b, u)
    ensures RunsTo(s, a + b, u)
    decreases |a|
  {
    if a == [] {
      assert a + b == b;
    } else {
      assert (a + b)[1..] == a[1..] + b;
      RunsInTwo(Step(s, a[0]), a[1..], t, b, u);
    }
  }

  /** No order of what the processes did explains the map. */
  ghost predicate Inexplicable(s: Shared) {
    forall log | multiset(log) == multiset(s.log) :: !Fits(log, s.contents)
  }

  lemma TwoOrders(log: seq<Entry>, e: Entry, f: Entry)
    requires multiset(log) == multiset([e, f])
    ensures log == [e] + [f] || log == [f] + [e]
  {
    assert |log| == |multiset(log)| == 2;
    assert log == [log[0], log[1]];
    assert log[0] in multiset(log) && log[1] in multiset(log);
    assert multiset([e, f])[e] == if e == f then 2 else 1;
  }

  /**
   * Two processes from an empty map: while one inserts "a" with the value "x",
   * the other sets it to "y" and returns. Both succeed, nobody is inside any
   * more, the map says "x", and neither order of the two gives that.
   */
  lemma SetValueLosesUpdate()
    ensures RunsTo(Initial(2), LOOKUP + (SETTING + LINK), LOST)
    ensures InsideCount(LOST.processes) == 0 && LOST.contents == map["a" := "x"]
    ensures Inexplicable(LOST)
  {
    LookupRuns();
    SettingRuns();
    LinkRuns();
    RunsInTwo(Racing(Found(false), Idle), SETTING, CROSSED, LINK, LOST);
    RunsInTwo(Initial(2), LOOKUP, Racing(Found(false), Idle), SETTING + LINK, LOST);
    LostFitsNeither();
    BothOrders(LOST.log, LOST.contents);
  }

  lemma BothOrders(log: seq<Entry>, m: Contents)
    requires |log| == 2 && !Fits(log, m) && !Fits(Swapped(log), m)
    ensures forall other | multiset(other) == multiset(log) :: !Fits(other, m)
  {
    assert log == [log[0]] + [log[1]] && Swapped(log) == [log[1]] + [log[0]] && log == [log[0], log[1]];
    forall other | multiset(other) == multiset(log) ensures !Fits(other, m) {
      TwoOrders(other, log[0], log[1]);
    }
  }

  lemma LostFitsNeither()
    ensures !Fits(LOST.log, LOST.contents) && !Fits(Swapped(LOST.log), LOST.contents)
  {
    var s := Racing(Found(false), Setting("a", "y", 0));
    RacingConsistent(s);
    LostUpdateExactly(s, WORK1, 0, false);
    LinkAndEndLog(s, WORK1, 0, [], s.log[0], false);
    assert "y" != "x";
  }

  lemma RacingConsistent(s: Shared)
    requires s == Racing(Found(false), Setting("a", "y", 0))
    ensures Consistent(s) && Held(s, [], s.log[0])
  {
    assert s.processes[..1][..0] == [];
    assert s.log[..0] == [];
    assert Held(s, [], s.log[0]);
  }
}
