/** What becomes of every task, from the call of `enqueue` to the call of the task itself
    (src/concurrency/ThreadPool.cpp:15-31, 51-64). */
module ThreadPoolTasks {
  import opened ByteStrings
  import opened Counting
  import opened ThreadPool
  import opened ThreadPoolSafety
  import opened ThreadPoolRuns

  // ----- the tasks that threads hold -----

  /** The task a producer was given and has not written yet. */
  function ToWrite(p: Producer): Option<Task> {
    match p
    case PCounted(t) => Some(t)
    case PSpace(t) => Some(t)
    case PLocked(t) => Some(t)
    case _ => None
  }

  /** The task a worker has taken and whose call has not returned yet. */
  function ToRun(w: Worker): Option<Task> {
    match w
    case WTook(t) => t
    case WAdvanced(t) => t
    case WUnlocked(t) => t
    case WReleased(t) => t
    case WRunning(t) => t
    case _ => None
  }

  function HoldsIt(x: Task): Producer -> bool { p => ToWrite(p) == Some(x) }

  function CarriesIt(x: Task): Worker -> bool { w => ToRun(w) == Some(x) }

  /** How often a task occurs in a list. */
  function Times(tasks: seq<Task>, x: Task): nat { multiset(tasks)[x] }

  // ----- one step -----

  /** The task with which a step enters `enqueue`. */
  function StartedBy(s: State, a: Action): Option<Task> {
    match a
    case ProducerStep(i, task) => if i < |s.producers| && s.producers[i] == PIdle then Some(task) else None
    case _ => None
  }

  /** The task whose call a step completes: `task()`, if it is not empty. */
  function RanBy(s: State, a: Action): Option<Task> {
    match a
    case WorkerStep(i) => if i < |s.workers| && s.workers[i].WRunning? then s.workers[i].task else None
    case _ => None
  }

  /** A producer keeps the task it was given until it writes that task. */
  lemma ProducerHolds(s: State, i: nat, task: Task)
    requires i < |s.producers| && InRing(s) && ProducerNext(s, i, task).Some?
    ensures
      var t := ProducerNext(s, i, task).value;
      && t.producers == s.producers[i := t.producers[i]] && t.workers == s.workers && t.taken == s.taken
      && (s.producers[i] == PIdle ==> t.written == s.written && ToWrite(t.producers[i]) == Some(task))
      && (s.producers[i].PLocked? ==>
            t.written == s.written + [s.producers[i].task] && ToWrite(t.producers[i]) == None)
      && (s.producers[i] != PIdle && !s.producers[i].PLocked? ==>
            t.written == s.written && ToWrite(t.producers[i]) == ToWrite(s.producers[i]))
  {}

  /** A worker keeps the task it took until it has run it. */
  lemma WorkerHolds(s: State, i: nat)
    requires i < |s.workers| && InRing(s) && WorkerNext(s, i).Some?
    ensures
      var t := WorkerNext(s, i).value;
      && t.workers == s.workers[i := t.workers[i]] && t.producers == s.producers && t.written == s.written
      && (s.workers[i].WLocked? ==>
            t.taken == (if ToRun(t.workers[i]).Some? then s.taken + [ToRun(t.workers[i]).value] else s.taken))
      && (s.workers[i].WRunning? ==> t.taken == s.taken && t.workers[i] == WParked)
      && (!s.workers[i].WLocked? && !s.workers[i].WRunning? ==>
            t.taken == s.taken && ToRun(t.workers[i]) == ToRun(s.workers[i]))
  {}

  /** The only waits: a producer for space or for the lock, a worker for a task permit or for the lock, and the
      destructor for the worker it joins; threads that have ended, or do not exist, do not move. */
  lemma WaitsOnly(s: State, a: Action)
    requires InRing(s)
    ensures Next(s, a) == None <==>
            match a
            case ProducerStep(i, _) =>
              |s.producers| <= i || (s.producers[i].PCounted? && s.pool.space == 0) || (s.producers[i].PSpace? && s.pool.lock)
            case WorkerStep(i) =>
              |s.workers| <= i || (s.workers[i] == WParked && s.pool.tasks == 0)
              || (s.workers[i] == WChecked && s.pool.lock) || s.workers[i] == WExited
            case DestructorStep =>
              s.destructor == DDone
              || (s.destructor.DJoining? && s.destructor.joined < |s.workers| && s.workers[s.destructor.joined] != WExited)
  {}

  lemma TimesOfOneMore(tasks: seq<Task>, y: Task, x: Task)
    ensures Times(tasks + [y], x) == Times(tasks, x) + One(y == x)
  {
    assert multiset(tasks + [y]) == multiset(tasks) + multiset{y};
  }

  lemma ProducerStepCounts(s: State, i: nat, task: Task, x: Task)
    requires i < |s.producers| && InRing(s) && ProducerNext(s, i, task).Some?
    ensures
      var t := ProducerNext(s, i, task).value;
      Times(t.written, x) + Count(t.producers, HoldsIt(x))
      == Times(s.written, x) + Count(s.producers, HoldsIt(x)) + One(StartedBy(s, ProducerStep(i, task)) == Some(x))
  {
    ProducerHolds(s, i, task);
    hide ProducerNext, Count, Times;
    var t := ProducerNext(s, i, task).value;
    CountUpdate(s.producers, i, t.producers[i], HoldsIt(x));
    if s.producers[i].PLocked? { TimesOfOneMore(s.written, s.producers[i].task, x); }
  }

  lemma WorkerStepCounts(s: State, i: nat, x: Task)
    requires i < |s.workers| && InRing(s) && WorkerNext(s, i).Some?
    ensures
      var t := WorkerNext(s, i).value;
      Times(t.taken, x) + Count(s.workers, CarriesIt(x))
      == Times(s.taken, x) + Count(t.workers, CarriesIt(x)) + One(RanBy(s, WorkerStep(i)) == Some(x))
  {
    WorkerHolds(s, i);
    hide WorkerNext, Count, Times;
    var t := WorkerNext(s, i).value;
    CountUpdate(s.workers, i, t.workers[i], CarriesIt(x));
    if s.workers[i].WLocked? && ToRun(t.workers[i]).Some? { TimesOfOneMore(s.taken, ToRun(t.workers[i]).value, x); }
  }

  lemma StepCounts(s: State, a: Action, x: Task)
    requires InRing(s) && Next(s, a).Some?
    ensures
      var t := Next(s, a).value;
      && Times(t.written, x) + Count(t.producers, HoldsIt(x))
         == Times(s.written, x) + Count(s.producers, HoldsIt(x)) + One(StartedBy(s, a) == Some(x))
      && Times(t.taken, x) + Count(s.workers, CarriesIt(x))
         == Times(s.taken, x) + Count(t.workers, CarriesIt(x)) + One(RanBy(s, a) == Some(x))
  {
    hide Count, Times, HoldsIt, CarriesIt;
    match a
    case ProducerStep(i, task) =>
      ProducerHolds(s, i, task);
      ProducerStepCounts(s, i, task, x);
    case WorkerStep(i) =>
      WorkerHolds(s, i);
      WorkerStepCounts(s, i, x);
    case DestructorStep =>
  }

  // ----- runs -----

  /** How often `enqueue` was entered with a task in the first `n` steps of a run. */
  function Started(states: seq<State>, actions: seq<Action>, n: nat, x: Task): nat
    requires n <= |actions| <= |states|
  {
    if n == 0 then 0
    else Started(states, actions, n - 1, x) + One(StartedBy(states[n - 1], actions[n - 1]) == Some(x))
  }

  /** How often a task was run in the first `n` steps. */
  function Ran(states: seq<State>, actions: seq<Action>, n: nat, x: Task): nat
    requires n <= |actions| <= |states|
  {
    if n == 0 then 0 else Ran(states, actions, n - 1, x) + One(RanBy(states[n - 1], actions[n - 1]) == Some(x))
  }

  lemma {:induction false} RunCounts(states: seq<State>, actions: seq<Action>, n: nat, x: Task)
    requires IsRun(states, actions) && Initial(states[0]) && n <= |actions|
    ensures Started(states, actions, n, x) == Times(states[n].written, x) + Count(states[n].producers, HoldsIt(x))
    ensures Times(states[n].taken, x) == Ran(states, actions, n, x) + Count(states[n].workers, CarriesIt(x))
  {
    hide Count, Times, HoldsIt, CarriesIt, Next, StartedBy, RanBy;
    if n == 0 {
      NobodyHolds(states[0], x);
    } else {
      RunCounts(states, actions, n - 1, x);
      assert InRing(states[n - 1]) && Next(states[n - 1], actions[n - 1]) == Some(states[n]);
      hide IsRun, Initial;
      StepCounts(states[n - 1], actions[n - 1], x);
    }
  }

  lemma NobodyHolds(s: State, x: Task)
    requires Initial(s)
    ensures Times(s.written, x) == Times(s.taken, x) == 0
    ensures Count(s.producers, HoldsIt(x)) == Count(s.workers, CarriesIt(x)) == 0
  {
    hide Count;
    CountNone(s.producers, HoldsIt(x));
    CountNone(s.workers, CarriesIt(x));
  }

  /** No task is lost, run twice or made up.  At every point of every run, for every task: as often as `enqueue`
      was entered with it, it was run, or a worker has taken it and not finished it, or it waits in the ring, or
      a producer has not written it yet. */
  lemma TasksAccounted(states: seq<State>, actions: seq<Action>, n: nat, x: Task)
    requires IsRun(states, actions) && Initial(states[0]) && n <= |actions|
    ensures |states[n].taken| <= |states[n].written|
    ensures Started(states, actions, n, x)
         == Ran(states, actions, n, x) + Count(states[n].workers, CarriesIt(x)) + multiset(Queue(states[n]))[x]
            + Count(states[n].producers, HoldsIt(x))
  {
    RunCounts(states, actions, n, x);
    InitialInv(states[0]);
    RunKeepsInv(states, actions, n);
    TakenThenQueue(states[n], x);
    hide Started, Ran, Count, Inv;
  }

  lemma TakenThenQueue(s: State, x: Task)
    requires Inv(s)
    ensures |s.taken| <= |s.written| && Times(s.written, x) == Times(s.taken, x) + multiset(Queue(s))[x]
  {
    hide Count, RingHolds;
    assert s.written == s.taken + Queue(s);
  }

  /** A worker that has taken from the ring always holds a task, so `if (task)` never skips one. */
  predicate TakersHold(s: State) {
    forall i :: 0 <= i < |s.workers| ==>
      match s.workers[i]
      case WTook(t) => t.Some?
      case WAdvanced(t) => t.Some?
      case WUnlocked(t) => t.Some?
      case WReleased(t) => t.Some?
      case WRunning(t) => t.Some?
      case _ => true
  }

  lemma StepKeepsHold(s: State, a: Action)
    requires Inv(s) && TakersHold(s) && Next(s, a).Some?
    ensures TakersHold(Next(s, a).value)
  {
    match a
    case ProducerStep(i, task) =>
      ProducerHolds(s, i, task);
      hide ProducerNext, Inv;
    case WorkerStep(i) =>
      if s.workers[i].WLocked? { TakeFacts(s, i); }
      WorkerHolds(s, i);
      hide Inv;
    case DestructorStep =>
      hide Inv;
  }

  lemma {:induction false} TakersAlwaysHold(states: seq<State>, actions: seq<Action>, n: nat)
    requires IsRun(states, actions) && Initial(states[0]) && n <= |actions|
    ensures TakersHold(states[n])
  {
    hide Inv, Next, TakersHold;
    InitialInv(states[0]);
    if n == 0 {
      InitialHold(states[0]);
    } else {
      TakersAlwaysHold(states, actions, n - 1);
      RunKeepsInv(states, actions, n - 1);
      assert InRing(states[n - 1]) && Next(states[n - 1], actions[n - 1]) == Some(states[n]);
      StepKeepsHold(states[n - 1], actions[n - 1]);
    }
  }

  lemma InitialHold(s: State)
    requires Initial(s)
    ensures TakersHold(s)
  {}
}
