/** How the pool ends (src/concurrency/ThreadPool.cpp:37-49): which tasks are still taken after `stop_` is set,
    and that the destructor finishes. */
module ThreadPoolShutdown {
  import opened ByteStrings
  import opened Counting
  import opened ThreadPool
  import opened ThreadPoolSafety
  import opened ThreadPoolRuns

  // ----- the tasks that are taken -----

  /** The tasks taken so far, and those that a worker past the check of `stop_` is about to take. */
  function Promised(s: State): nat { |s.taken| + Count(s.workers, Committed) }

  lemma WorkerKeepsPromise(s: State, i: nat)
    requires Inv(s) && s.pool.stop && i < |s.workers| && WorkerNext(s, i).Some?
    ensures Promised(WorkerNext(s, i).value) == Promised(s)
  {
    if s.workers[i].WLocked? { TakeFacts(s, i); }
    hide Count, RingIsQueue, MutualExclusion, PendingExact, SpaceConserved, TasksConserved, Covered;
    var t := WorkerNext(s, i).value;
    WorkerCounts(s.workers, i, t.workers[i]);
  }

  lemma StepKeepsPromise(s: State, a: Action)
    requires Inv(s) && s.pool.stop && Next(s, a).Some?
    ensures Next(s, a).value.pool.stop && Promised(Next(s, a).value) == Promised(s)
  {
    if a.WorkerStep? { WorkerKeepsPromise(s, a.thread); }
    hide Count, RingIsQueue, MutualExclusion, PendingExact, SpaceConserved, TasksConserved, Covered;
  }

  lemma {:induction false} RunKeepsPromise(states: seq<State>, actions: seq<Action>, i: nat)
    requires IsRun(states, actions) && Inv(states[0]) && states[0].pool.stop && i <= |actions|
    ensures states[i].pool.stop && Promised(states[i]) == Promised(states[0])
  {
    hide Inv, Promised;
    if i != 0 {
      RunKeepsPromise(states, actions, i - 1);
      RunKeepsInv(states, actions, i - 1);
      assert InRing(states[i - 1]) && Next(states[i - 1], actions[i - 1]) == Some(states[i]);
      StepKeepsPromise(states[i - 1], actions[i - 1]);
    }
  }

  /** From any reachable state with `stop_` set to the end of the destructor: exactly the tasks taken by then
      and one more for each worker past the check are taken, in order; every other task is dropped.  So all
      are taken if and only if no more than these were ever written. */
  lemma TasksTakenByTheEnd(states: seq<State>, actions: seq<Action>)
    requires IsRun(states, actions) && Reachable(states[0]) && states[0].pool.stop
    requires states[|actions|].destructor == DDone
    ensures
      var end, promised := states[|actions|], Promised(states[0]);
      && |end.taken| == promised <= |end.written| && end.taken == end.written[..promised]
      && (end.taken == end.written <==> |end.written| == promised)
  {
    ReachableInv(states[0]);
    RunKeepsPromise(states, actions, |actions|);
    RunKeepsInv(states, actions, |actions|);
    var end := states[|actions|];
    CountNone(end.workers, Committed);
    hide Count, SpaceConserved, TasksConserved, Covered, MutualExclusion, PendingExact, RingHolds;
    assert end.written[..|end.written|] == end.written;
  }

  // ----- a run that drops a task -----

  lemma OneMoreStep(states: seq<State>, actions: seq<Action>, a: Action, t: State)
    returns (more: seq<State>, steps: seq<Action>)
    requires IsRun(states, actions) && InRing(states[|actions|]) && Next(states[|actions|], a) == Some(t)
    ensures IsRun(more, steps) && more[0] == states[0] && more[|steps|] == t
  {
    hide Next;
    more, steps := states + [t], actions + [a];
    forall i | 0 <= i < |steps| ensures InRing(more[i]) && Next(more[i], steps[i]) == Some(more[i + 1]) {
      if i < |actions| { assert more[i] == states[i] && more[i + 1] == states[i + 1] && steps[i] == actions[i]; }
    }
  }

  function EmptyRing(): (ring: seq<Option<Task>>)
    ensures |ring| == CAPACITY && forall i :: 0 <= i < CAPACITY ==> ring[i] == None
  {
    seq(CAPACITY, i => None)
  }

  /** One producer, one worker. */
  function Small(pool: Pool, p: Producer, w: Worker, d: Destructor, written: seq<Task>): State {
    State(pool, [p], [w], d, written, [])
  }

  lemma OneThread<T(!new)>()
    ensures forall x: T, y: T :: [x][0 := y] == [y]
  {}

  /** Task 7 is enqueued while the worker is parked. */
  lemma OneTaskEnqueued() returns (states: seq<State>, actions: seq<Action>)
    ensures IsRun(states, actions) && Initial(states[0])
    ensures states[|actions|]
         == Small(Pool(EmptyRing()[0 := Some(7)], 0, 1, false, 1, 1023, false, 1), PIdle, WParked, DWaiting, [7])
  {
    hide EmptyRing, IsRun;
    var ring, full, step := EmptyRing(), EmptyRing()[0 := Some(7)], ProducerStep(0, 7);
    var s0 := Small(Pool(ring, 0, 0, false, 0, 1024, false, 0), PIdle, WParked, DWaiting, []);
    var s1 := Small(Pool(ring, 0, 0, false, 0, 1024, false, 1), PCounted(7), WParked, DWaiting, []);
    var s2 := Small(Pool(ring, 0, 0, false, 0, 1023, false, 1), PSpace(7), WParked, DWaiting, []);
    var s3 := Small(Pool(ring, 0, 0, true, 0, 1023, false, 1), PLocked(7), WParked, DWaiting, []);
    var s4 := Small(Pool(full, 0, 0, true, 0, 1023, false, 1), PStored, WParked, DWaiting, [7]);
    var s5 := Small(Pool(full, 0, 1, true, 0, 1023, false, 1), PAdvanced, WParked, DWaiting, [7]);
    var s6 := Small(Pool(full, 0, 1, false, 0, 1023, false, 1), PUnlocked, WParked, DWaiting, [7]);
    var s7 := Small(Pool(full, 0, 1, false, 1, 1023, false, 1), PIdle, WParked, DWaiting, [7]);
    StartOfRun(s0);
    OneThread<Producer>();
    assert [] + [7] == [7];
    states, actions := OneMoreStep([s0], [], step, s1);
    states, actions := OneMoreStep(states, actions, step, s2);
    states, actions := OneMoreStep(states, actions, step, s3);
    states, actions := OneMoreStep(states, actions, step, s4);
    states, actions := OneMoreStep(states, actions, step, s5);
    states, actions := OneMoreStep(states, actions, step, s6);
    states, actions := OneMoreStep(states, actions, step, s7);
    assert ring == seq(CAPACITY, i => None);
  }

  lemma StartOfRun(s: State)
    ensures IsRun([s], [])
  {}

  /** The destructor then sets `stop_` and releases its permit; the worker wakes up, sees `stop_` and exits;
      and task 7 is never taken. */
  lemma ATaskIsDropped() returns (states: seq<State>, actions: seq<Action>)
    ensures IsRun(states, actions) && Initial(states[0]) && states[|actions|].destructor == DDone
    ensures states[|actions|].written == [7] && states[|actions|].taken == []
  {
    hide EmptyRing, IsRun;
    states, actions := OneTaskEnqueued();
    OneThread<Worker>();
    var full, step := EmptyRing()[0 := Some(7)], DestructorStep;
    var s1 := Small(Pool(full, 0, 1, false, 1, 1023, true, 1), PIdle, WParked, DReleasing(0), [7]);
    var s2 := Small(Pool(full, 0, 1, false, 2, 1023, true, 1), PIdle, WParked, DReleasing(1), [7]);
    var s3 := Small(Pool(full, 0, 1, false, 1, 1023, true, 1), PIdle, WAcquired, DReleasing(1), [7]);
    var s4 := Small(Pool(full, 0, 1, false, 1, 1023, true, 1), PIdle, WExited, DReleasing(1), [7]);
    var s5 := Small(Pool(full, 0, 1, false, 1, 1023, true, 1), PIdle, WExited, DJoining(0), [7]);
    var s6 := Small(Pool(full, 0, 1, false, 1, 1023, true, 1), PIdle, WExited, DJoining(1), [7]);
    var s7 := Small(Pool(full, 0, 1, false, 1, 1023, true, 1), PIdle, WExited, DDone, [7]);
    states, actions := OneMoreStep(states, actions, step, s1);
    states, actions := OneMoreStep(states, actions, step, s2);
    states, actions := OneMoreStep(states, actions, WorkerStep(0), s3);
    states, actions := OneMoreStep(states, actions, WorkerStep(0), s4);
    states, actions := OneMoreStep(states, actions, step, s5);
    states, actions := OneMoreStep(states, actions, step, s6);
    states, actions := OneMoreStep(states, actions, step, s7);
  }

  // ----- the destructor finishes -----

  /** How many more steps the destructor can take. */
  function DestructorRank(s: State): int {
    match s.destructor
    case DWaiting => 2 * |s.workers| + 3
    case DReleasing(n) => 2 * |s.workers| + 2 - n
    case DJoining(n) => |s.workers| + 1 - n
    case DDone => 0
  }

  function Remaining(s: State): int { TotalRank(s.workers) + DestructorRank(s) }

  lemma RemainingIsBounded(s: State)
    requires StopOrder(s)
    ensures 0 <= Remaining(s) <= 11 * |s.workers| + 3
  {
    RankBound(s.workers);
    hide TotalRank;
  }

  lemma StepLowersRemaining(s: State, a: Action)
    requires Inv(s) && Next(s, a).Some? && s.pool.stop
    ensures Next(s, a).value.pool.stop
    ensures Remaining(Next(s, a).value) + One(!a.ProducerStep?) <= Remaining(s)
  {
    StepLowersRank(s, a);
    if a == DestructorStep { DestructorLowersRank(s); } else { OthersKeepDestructor(s, a); }
    hide TotalRank, Inv, Next;
  }

  lemma DestructorLowersRank(s: State)
    requires StopOrder(s) && DestructorNext(s).Some?
    ensures var t := DestructorNext(s).value;
            t.workers == s.workers && DestructorRank(t) < DestructorRank(s)
  {
    hide Count;
  }

  lemma OthersKeepDestructor(s: State, a: Action)
    requires InRing(s) && a != DestructorStep && Next(s, a).Some?
    ensures var t := Next(s, a).value;
            |t.workers| == |s.workers| && t.destructor == s.destructor
  {}

  /** The steps of the workers and of the destructor. */
  function PoolSteps(actions: seq<Action>): nat {
    if actions == [] then 0 else PoolSteps(actions[..|actions| - 1]) + One(!actions[|actions| - 1].ProducerStep?)
  }

  lemma {:induction false} RunLowersRemaining(states: seq<State>, actions: seq<Action>, i: nat)
    requires IsRun(states, actions) && i <= |actions| && Inv(states[0]) && states[0].pool.stop
    ensures states[i].pool.stop && PoolSteps(actions[..i]) + Remaining(states[i]) <= Remaining(states[0])
  {
    hide Inv, Remaining;
    if i != 0 {
      RunLowersRemaining(states, actions, i - 1);
      RunKeepsInv(states, actions, i - 1);
      assert InRing(states[i - 1]) && Next(states[i - 1], actions[i - 1]) == Some(states[i]);
      StepLowersRemaining(states[i - 1], actions[i - 1]);
      assert actions[..i][..i - 1] == actions[..i - 1];
    }
  }

  /** A step that is not the start or the wait of a producer: of a worker, of the destructor, or of a producer
      inside the lock. */
  predicate OwnStep(s: State, a: Action) {
    a.ProducerStep? ==> a.thread < |s.producers| && ProducerInside(s.producers[a.thread])
  }

  lemma DestructorOrWorkerMoves(s: State) returns (a: Action)
    requires Reachable(s) && s.pool.stop && s.destructor != DDone
    ensures InRing(s) && Next(s, a).Some? && OwnStep(s, a)
  {
    ReachableInv(s);
    if s.destructor.DJoining? && s.destructor.joined < |s.workers| && s.workers[s.destructor.joined] != WExited {
      a := JoinNeverStuck(s);
    } else {
      a := DestructorStep;
    }
  }

  lemma RunsJoin(before: seq<State>, first: seq<Action>, states: seq<State>, actions: seq<Action>)
    requires IsRun(before, first) && IsRun(states, actions) && before[|first|] == states[0]
    ensures IsRun(before + states[1..], first + actions)
    ensures (before + states[1..])[0] == before[0] && (before + states[1..])[|first + actions|] == states[|actions|]
  {
    hide Next, InRing;
    var all, steps := before + states[1..], first + actions;
    assert |all| == |steps| + 1;
    forall i | 0 <= i < |steps| ensures InRing(all[i]) && Next(all[i], steps[i]) == Some(all[i + 1]) {
      if i < |first| {
        assert steps[i] == first[i] && all[i] == before[i] && all[i + 1] == before[i + 1];
      } else {
        var k := i - |first|;
        assert steps[i] == actions[k] && all[i] == states[k] && all[i + 1] == states[k + 1];
      }
    }
  }

  lemma ReachableGoesOn(states: seq<State>, actions: seq<Action>)
    requires IsRun(states, actions) && Reachable(states[0])
    ensures Reachable(states[|actions|])
  {
    var before: seq<State>, first: seq<Action> :|
      IsRun(before, first) && Initial(before[0]) && before[|first|] == states[0];
    hide Initial, Reachable;
    RunsJoin(before, first, states, actions);
    RunReaches(before + states[1..], first + actions);
  }

  lemma RunReaches(states: seq<State>, actions: seq<Action>)
    requires IsRun(states, actions) && Initial(states[0])
    ensures Reachable(states[|actions|])
  {}

  /** Shutdown ends.  After `stop_` is set, the workers and the destructor take at most eleven steps for each
      worker and three more, in any interleaving; and as long as the destructor is not done, one of them can
      move, or the producer that holds the lock can.  So a run that cannot be continued by these ends with the
      destructor done. */
  lemma ShutdownEnds(states: seq<State>, actions: seq<Action>)
    requires IsRun(states, actions) && Reachable(states[0]) && states[0].pool.stop
    ensures PoolSteps(actions) <= 11 * |states[0].workers| + 3
    ensures InRing(states[|actions|])
    ensures (forall a :: OwnStep(states[|actions|], a) ==> Next(states[|actions|], a) == None) ==>
              states[|actions|].destructor == DDone
  {
    ReachableInv(states[0]);
    RunLowersRemaining(states, actions, |actions|);
    RunKeepsInv(states, actions, |actions|);
    RemainingIsBounded(states[0]);
    RemainingIsBounded(states[|actions|]);
    assert actions[..|actions|] == actions;
    ReachableGoesOn(states, actions);
    hide Remaining, Reachable, Next, OwnStep;
    var end := states[|actions|];
    if end.destructor != DDone {
      var a := DestructorOrWorkerMoves(end);
    }
  }
}
