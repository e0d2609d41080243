/** What holds in every run of the pool: the queue it implements, its permits, and its shutdown. */
module ThreadPoolRuns {
  import opened ByteStrings
  import opened Counting
  import opened ThreadPool
  import opened ThreadPoolSafety

  /** A run: states, and the actions between them.  A step from positions outside the ring would be
      undefined behaviour; `ReachableInv` shows that no run gets there. */
  predicate IsRun(states: seq<State>, actions: seq<Action>) {
    && |states| == |actions| + 1
    && forall i :: 0 <= i < |actions| ==> InRing(states[i]) && Next(states[i], actions[i]) == Some(states[i + 1])
  }

  ghost predicate Reachable(s: State) {
    exists states: seq<State>, actions: seq<Action> ::
      IsRun(states, actions) && Initial(states[0]) && states[|actions|] == s
  }

  lemma {:induction false} RunKeepsInv(states: seq<State>, actions: seq<Action>, i: nat)
    requires IsRun(states, actions) && Inv(states[0]) && i <= |actions|
    ensures Inv(states[i])
  {
    hide Inv;
    if i != 0 {
      RunKeepsInv(states, actions, i - 1);
      assert InRing(states[i - 1]) && Next(states[i - 1], actions[i - 1]) == Some(states[i]);
      StepKeepsInv(states[i - 1], actions[i - 1]);
    }
  }

  /** Every reachable state satisfies the invariant: permits are conserved, the lock excludes, and the
      ring is a queue. */
  lemma ReachableInv(s: State)
    requires Reachable(s)
    ensures Inv(s)
  {
    hide Inv;
    var states: seq<State>, actions: seq<Action> :|
      IsRun(states, actions) && Initial(states[0]) && states[|actions|] == s;
    InitialInv(states[0]);
    RunKeepsInv(states, actions, |actions|);
  }

  /** No permit is lost or made up: the space permits, the producers and workers that hold one, and the
      waiting tasks add up to the capacity; task permits and the threads that owe or hold one add up
      to the waiting tasks and what the destructor released. */
  lemma PermitsConserved(s: State)
    requires Reachable(s)
    ensures s.pool.space + Count(s.producers, HoldsSpace) + |s.written| - |s.taken| + Count(s.workers, OwesSpace) == 1024
    ensures s.pool.tasks + Count(s.workers, HoldsTask) + Count(s.producers, OwesTask) + Count(s.workers, HasExited)
         == |s.written| - |s.taken| + Released(s)
  {
    ReachableInv(s);
    hide Count, RingIsQueue;
  }

  // ----- the queue -----

  /** The tasks waiting in the ring, oldest first. */
  function Queue(s: State): seq<Task>
    requires |s.taken| <= |s.written|
  {
    s.written[|s.taken|..]
  }

  /** What one step does to the queue. */
  predicate QueueStep(s: State, a: Action, t: State)
    requires |s.taken| <= |s.written| && |t.taken| <= |t.written|
  {
    match a
    case ProducerStep(i, _) =>
      if i < |s.producers| && s.producers[i].PLocked? then Queue(t) == Queue(s) + [s.producers[i].task]
      else Queue(t) == Queue(s)
    case WorkerStep(i) =>
      if i < |s.workers| && s.workers[i].WLocked? then
        Queue(s) != [] && i < |t.workers| && t.workers[i] == WTook(Some(Queue(s)[0])) && Queue(t) == Queue(s)[1..]
      else Queue(t) == Queue(s)
    case DestructorStep => Queue(t) == Queue(s)
  }

  lemma ProducerQueueStep(s: State, i: nat, task: Task, t: State)
    requires |s.taken| <= |s.written| && i < |s.producers| && InRing(s) && ProducerNext(s, i, task) == Some(t)
    ensures |t.taken| <= |t.written| && QueueStep(s, ProducerStep(i, task), t)
  {
    assert s.producers[i].PLocked? ==>
             t.written[|t.taken|..] == s.written[|s.taken|..] + [s.producers[i].task];
  }

  lemma WorkerQueueStep(s: State, i: nat, t: State)
    requires |s.taken| <= |s.written| && i < |s.workers| && InRing(s) && WorkerNext(s, i) == Some(t)
    requires s.workers[i].WLocked? ==> |s.taken| < |s.written| && s.pool.ring[s.pool.head] == Some(s.written[|s.taken|])
    ensures |t.taken| <= |t.written| && QueueStep(s, WorkerStep(i), t)
  {}

  /** In every interleaving the pool is a bounded first-in, first-out queue: a write appends the
      producer's task, a take hands the worker the oldest task, and no other step changes it. */
  lemma RefinesQueue(s: State, a: Action, t: State)
    requires Reachable(s) && InRing(s) && Next(s, a) == Some(t)
    ensures |s.taken| <= |s.written| && |t.taken| <= |t.written| && QueueStep(s, a, t)
    ensures |Queue(s)| <= CAPACITY
  {
    ReachableInv(s);
    QueueBounds(s);
    hide QueueStep, Inv;
    match a
    case ProducerStep(i, task) => ProducerQueueStep(s, i, task, t);
    case WorkerStep(i) =>
      if s.workers[i].WLocked? { TakeFacts(s, i); }
      WorkerQueueStep(s, i, t);
    case DestructorStep => DestructorQueueStep(s, t);
  }

  lemma DestructorQueueStep(s: State, t: State)
    requires |s.taken| <= |s.written| && DestructorNext(s) == Some(t)
    ensures |t.taken| <= |t.written| && QueueStep(s, DestructorStep, t)
  {}

  lemma QueueBounds(s: State)
    requires Inv(s)
    ensures |s.taken| <= |s.written| && |Queue(s)| <= CAPACITY
  {
    hide Count, RingHolds;
  }

  lemma SlotOfSum(n: nat, k: nat)
    ensures (n % CAPACITY + k) % CAPACITY == (n + k) % CAPACITY
  {
    var rest, rounds := n % CAPACITY + k, n / CAPACITY;
    assert n + k == rest + rounds * CAPACITY;
    SlotAfterRounds(rest, rounds);
  }

  lemma WaitingSlots(ring: seq<Option<Task>>, written: seq<Task>, n: nat)
    requires |ring| == CAPACITY && RingHolds(ring, written, n) && n <= |written|
    ensures forall k :: 0 <= k < |written| - n ==> ring[(n + k) % CAPACITY] == Some(written[n..][k])
  {
    forall k | 0 <= k < |written| - n ensures ring[(n + k) % CAPACITY] == Some(written[n..][k]) {
      assert ring[(n + k) % CAPACITY] == Some(written[n + k]);
    }
  }

  /** While no thread is inside the lock, `tail_` is `head_` plus the number of waiting tasks, and the
      slots between them hold those tasks in order. */
  lemma RingGeometry(s: State)
    requires Reachable(s) && !s.pool.lock
    ensures |s.taken| <= |s.written| && |s.pool.ring| == CAPACITY
    ensures s.pool.tail == (s.pool.head + |Queue(s)|) % CAPACITY
    ensures forall k :: 0 <= k < |Queue(s)| ==> s.pool.ring[(s.pool.head + k) % CAPACITY] == Some(Queue(s)[k])
  {
    ReachableInv(s);
    UnlockedGeometry(s);
    hide Inv, Reachable, RingHolds;
    var n := |s.taken|;
    SlotOfSum(n, |Queue(s)|);
    WaitingSlots(s.pool.ring, s.written, n);
    forall k | 0 <= k < |Queue(s)| ensures s.pool.ring[(s.pool.head + k) % CAPACITY] == Some(Queue(s)[k]) {
      SlotOfSum(n, k);
    }
  }

  lemma UnlockedGeometry(s: State)
    requires Inv(s) && !s.pool.lock
    ensures |s.taken| <= |s.written| && |s.pool.ring| == CAPACITY && RingHolds(s.pool.ring, s.written, |s.taken|)
    ensures s.pool.head == |s.taken| % CAPACITY && s.pool.tail == |s.written| % CAPACITY
  {
    AloneInside(s);
    hide Count, RingHolds;
  }

  /** A write always hits an empty slot, and a take always finds a task. */
  lemma SlotsAreRespected(s: State, i: nat)
    requires Reachable(s)
    ensures i < |s.producers| && s.producers[i].PLocked? ==>
              s.pool.tail < |s.pool.ring| && s.pool.ring[s.pool.tail] == None
    ensures i < |s.workers| && s.workers[i].WLocked? ==>
              s.pool.head < |s.pool.ring| && s.pool.ring[s.pool.head].Some?
  {
    ReachableInv(s);
    if i < |s.producers| && s.producers[i].PLocked? { StoreFacts(s, i); }
    if i < |s.workers| && s.workers[i].WLocked? { TakeFacts(s, i); }
  }

  /** The tasks taken are the first ones written, in the order they were written. */
  lemma TakenIsPrefix(s: State)
    requires Reachable(s)
    ensures s.taken <= s.written
  {
    ReachableInv(s);
  }

  // ----- the counter -----

  /** `pending_tasks_` is never below the number of waiting tasks, and no decrement wraps around. */
  lemma PendingNeverWraps(s: State, i: nat)
    requires Reachable(s)
    ensures |s.taken| <= |s.written| && |Queue(s)| <= s.pool.pending
    ensures i < |s.workers| && s.workers[i].WReleased? ==> 0 < s.pool.pending
  {
    ReachableInv(s);
    if i < |s.workers| && s.workers[i].WReleased? { CountPositive(s.workers, i, OwesCount); }
    hide Count, RingHolds;
  }

  // ----- no lost wakeup -----

  /** Before shutdown, when no thread is between a permit and its task, there is exactly one permit for
      every waiting task: a parked worker never sleeps beside a task. */
  lemma NoLostWakeup(s: State)
    requires Reachable(s) && !s.pool.stop
    requires forall i :: 0 <= i < |s.producers| ==> !OwesTask(s.producers[i])
    requires forall i :: 0 <= i < |s.workers| ==> !HoldsTask(s.workers[i])
    ensures |s.taken| <= |s.written| && s.pool.tasks == |Queue(s)|
  {
    ReachableInv(s);
    CountNone(s.producers, OwesTask);
    CountNone(s.workers, HoldsTask);
    hide Count, RingHolds;
  }

  /** Something is left to do: an `enqueue` is under way, or a task is waiting. */
  predicate HasWork(s: State)
    requires |s.taken| <= |s.written|
  {
    (exists i :: 0 <= i < |s.producers| && s.producers[i] != PIdle) || Queue(s) != []
  }

  /** A step of a worker, or of a producer that is inside `enqueue`. */
  predicate WorkStep(s: State, a: Action) {
    match a
    case ProducerStep(i, _) => i < |s.producers| && s.producers[i] != PIdle
    case WorkerStep(i) => i < |s.workers|
    case DestructorStep => false
  }

  lemma HolderMoves(s: State) returns (a: Action)
    requires Inv(s) && s.pool.lock
    ensures Next(s, a).Some? && WorkStep(s, a)
  {
    if 0 < Count(s.workers, WorkerInside) {
      var i := CountWitness(s.workers, WorkerInside);
      a := WorkerStep(i);
    } else {
      var i := CountWitness(s.producers, ProducerInside);
      a := ProducerStep(i, 0);
    }
  }

  /** With all workers parked, and every started producer waiting for space, a parked worker has a permit. */
  lemma ParkedWorkerHasPermit(s: State)
    requires Inv(s) && !s.pool.stop && 0 < |s.workers|
    requires forall i :: 0 <= i < |s.workers| ==> s.workers[i] == WParked
    requires forall i :: 0 <= i < |s.producers| ==> s.producers[i] == PIdle || s.producers[i].PCounted?
    requires s.pool.space == 0 || Queue(s) != []
    ensures 0 < s.pool.tasks
  {
    CountNone(s.producers, HoldsSpace);
    CountNone(s.producers, OwesTask);
    CountNone(s.workers, HoldsTask);
    CountNone(s.workers, OwesSpace);
    CountNone(s.workers, HasExited);
    hide Count, RingHolds;
  }

  /** Before shutdown the pool never deadlocks.  With at least one worker, as long as an `enqueue` is under way
      or a task is waiting, some worker or some producer inside `enqueue` can move. */
  lemma NeverDeadlocks(s: State) returns (a: Action)
    requires Reachable(s) && !s.pool.stop && 0 < |s.workers|
    requires |s.taken| <= |s.written| && HasWork(s)
    ensures InRing(s) && Next(s, a).Some? && WorkStep(s, a)
  {
    ReachableInv(s);
    if s.pool.lock {
      a := HolderMoves(s);
    } else if i :| 0 <= i < |s.workers| && s.workers[i] != WParked {
      NotExited(s, i);
      a := WorkerStep(i);
    } else if i :| 0 <= i < |s.producers| && s.producers[i] != PIdle && !s.producers[i].PCounted? {
      a := ProducerStep(i, 0);
    } else if i :| 0 <= i < |s.producers| && s.producers[i].PCounted? && 0 < s.pool.space {
      a := ProducerStep(i, 0);
    } else {
      ParkedWorkerHasPermit(s);
      a := WorkerStep(0);
    }
  }

  lemma NotExited(s: State, i: nat)
    requires StopOrder(s) && !s.pool.stop && i < |s.workers|
    ensures s.workers[i] != WExited
  {
    if s.workers[i] == WExited { CountPositive(s.workers, i, HasExited); }
  }

  // ----- shutdown -----

  /** Even during shutdown, the workers past the check of `stop_` that have not dequeued yet never
      outnumber the waiting tasks. */
  lemma CommittedFindTasks(s: State)
    requires Reachable(s)
    ensures |s.taken| <= |s.written| && Count(s.workers, Committed) <= |Queue(s)|
  {
    ReachableInv(s);
    hide Count, RingHolds;
  }

  /** A worker that is done with dequeuing once `stop_` is set. */
  predicate Retiring(w: Worker) { w.WParked? || w.WAcquired? || w.WExited? }

  /** A worker that is parked, or has only acquired a permit, when `stop_` is set never dequeues again:
      whatever permit it consumes, it goes on to exit. */
  lemma {:induction false} RetiringStaysRetiring(states: seq<State>, actions: seq<Action>, i: nat, worker: nat)
    requires IsRun(states, actions) && i <= |actions|
    requires states[0].pool.stop && worker < |states[0].workers| && Retiring(states[0].workers[worker])
    ensures states[i].pool.stop && worker < |states[i].workers| && Retiring(states[i].workers[worker])
  {
    if i != 0 {
      RetiringStaysRetiring(states, actions, i - 1, worker);
      assert Next(states[i - 1], actions[i - 1]) == Some(states[i]);
    }
  }

  function Waiting(w: Worker): bool { w.WParked? || w.WTook? || w.WAdvanced? || w.WUnlocked? || w.WReleased? || w.WRunning? }

  function Busy(w: Worker): bool { HoldsTask(w) || HasExited(w) }

  /** Once the destructor has released all its permits, every worker that is parked, and every worker
      that may still come back to park, has a permit of its own. */
  lemma PermitForEveryWorker(s: State)
    requires Reachable(s) && (s.destructor.DJoining? || s.destructor == DReleasing(|s.workers|))
    ensures Count(s.workers, Waiting) <= s.pool.tasks
  {
    ReachableInv(s);
    CountSplit(s.workers, HoldsTask, HasExited, Busy);
    CountSplit(s.workers, Waiting, Busy, w => true);
    CountAll(s.workers, w => true);
    hide Count, RingHolds;
  }

  /** No join waits forever on a thread that cannot move: the worker being joined can take its next
      step, unless it is spinning on `lock_`, and then the thread inside the lock can take its own. */
  lemma JoinNeverStuck(s: State) returns (a: Action)
    requires Reachable(s) && s.destructor.DJoining?
    requires s.destructor.joined < |s.workers| && s.workers[s.destructor.joined] != WExited
    ensures InRing(s) && Next(s, a).Some?
    ensures a == WorkerStep(s.destructor.joined) ||
            (&& s.workers[s.destructor.joined].WChecked? && s.pool.lock
             && match a
                case ProducerStep(i, _) => i < |s.producers| && ProducerInside(s.producers[i])
                case WorkerStep(i) => i < |s.workers| && WorkerInside(s.workers[i])
                case DestructorStep => false)
  {
    ReachableInv(s);
    var n := s.destructor.joined;
    if s.workers[n].WParked? {
      PermitForEveryWorker(s);
      CountPositive(s.workers, n, Waiting);
      a := WorkerStep(n);
    } else if s.workers[n].WChecked? && s.pool.lock {
      if 0 < Count(s.workers, WorkerInside) {
        var i := CountWitness(s.workers, WorkerInside);
        a := WorkerStep(i);
      } else {
        var i := CountWitness(s.producers, ProducerInside);
        a := ProducerStep(i, 0);
      }
    } else {
      a := WorkerStep(n);
    }
  }

  /** How many more steps a worker can take once `stop_` is set. */
  function Rank(w: Worker): nat {
    match w
    case WChecked => 9 case WLocked => 8 case WTook(_) => 7 case WAdvanced(_) => 6 case WUnlocked(_) => 5
    case WReleased(_) => 4 case WRunning(_) => 3 case WParked => 2 case WAcquired => 1 case WExited => 0
  }

  function TotalRank(ws: seq<Worker>): nat {
    if ws == [] then 0 else Rank(ws[0]) + TotalRank(ws[1..])
  }

  lemma {:induction false} RankUpdate(ws: seq<Worker>, i: nat, w: Worker)
    requires i < |ws|
    ensures TotalRank(ws[i := w]) + Rank(ws[i]) == TotalRank(ws) + Rank(w)
  {
    if i == 0 {
      assert ws[i := w][1..] == ws[1..];
    } else {
      assert ws[i := w][1..] == ws[1..][i - 1 := w];
      RankUpdate(ws[1..], i - 1, w);
    }
  }

  function WorkerSteps(actions: seq<Action>): nat {
    if actions == [] then 0 else WorkerSteps(actions[..|actions| - 1]) + One(actions[|actions| - 1].WorkerStep?)
  }

  lemma WorkerStepLowersRank(s: State, i: nat)
    requires InRing(s) && i < |s.workers| && WorkerNext(s, i).Some? && s.pool.stop
    ensures var t := WorkerNext(s, i).value;
            && t.pool.stop && |t.workers| == |s.workers| && t.workers == s.workers[i := t.workers[i]]
            && Rank(t.workers[i]) < Rank(s.workers[i])
  {}

  lemma StepLowersRank(s: State, a: Action)
    requires InRing(s) && Next(s, a).Some? && s.pool.stop
    ensures Next(s, a).value.pool.stop
    ensures TotalRank(Next(s, a).value.workers) + One(a.WorkerStep?) <= TotalRank(s.workers)
  {
    hide TotalRank;
    if a.WorkerStep? {
      hide WorkerNext, Rank;
      WorkerStepLowersRank(s, a.thread);
      RankUpdate(s.workers, a.thread, Next(s, a).value.workers[a.thread]);
    }
  }

  /** Once `stop_` is set, all workers together take at most `TotalRank` more steps, nine each at the
      most, in any interleaving: shutdown cannot go on forever. */
  lemma {:induction false} ShutdownIsBounded(states: seq<State>, actions: seq<Action>, i: nat)
    requires IsRun(states, actions) && i <= |actions| && states[0].pool.stop
    ensures states[i].pool.stop
    ensures WorkerSteps(actions[..i]) + TotalRank(states[i].workers) <= TotalRank(states[0].workers)
  {
    if i != 0 {
      ShutdownIsBounded(states, actions, i - 1);
      assert InRing(states[i - 1]) && Next(states[i - 1], actions[i - 1]) == Some(states[i]);
      StepLowersRank(states[i - 1], actions[i - 1]);
      assert actions[..i][..i - 1] == actions[..i - 1];
    }
  }

  lemma {:induction false} RankBound(ws: seq<Worker>)
    ensures TotalRank(ws) <= 9 * |ws|
  {
    if ws != [] { RankBound(ws[1..]); }
  }
}
