/** Every reachable state of the pool satisfies the invariant, and what follows from it. */
module ThreadPoolSafety {
  import opened ByteStrings
  import opened Counting
  import opened ThreadPool

  // ----- arithmetic of ring positions -----

  lemma NextSlot(x: int)
    requires 0 <= x
    ensures (x % CAPACITY + 1) % CAPACITY == (x + 1) % CAPACITY
  {
    SlotAfterRounds(x % CAPACITY + 1, x / CAPACITY);
  }

  lemma SlotAfterRounds(x: int, rounds: int)
    ensures (x + rounds * CAPACITY) % CAPACITY == x % CAPACITY
  {
    OnlyRemainder(x + rounds * CAPACITY, x / CAPACITY + rounds, x % CAPACITY);
  }

  lemma OnlyRemainder(x: int, rounds: int, slot: int)
    requires x == rounds * CAPACITY + slot && 0 <= slot < CAPACITY
    ensures x % CAPACITY == slot
  {}

  lemma SlotsDiffer(a: int, b: int)
    requires 0 <= a < b < a + CAPACITY
    ensures a % CAPACITY != b % CAPACITY
  {
    var first, last := a / CAPACITY, b / CAPACITY;
    assert a == first * CAPACITY + a % CAPACITY && b == last * CAPACITY + b % CAPACITY;
  }

  lemma RingAfterStore(ring: seq<Option<Task>>, written: seq<Task>, first: nat, task: Task)
    requires |ring| == CAPACITY && RingHolds(ring, written, first) && first <= |written| < first + CAPACITY
    ensures RingHolds(ring[|written| % CAPACITY := Some(task)], written + [task], first)
  {
    var after := ring[|written| % CAPACITY := Some(task)];
    forall k | first <= k < |written| ensures after[k % CAPACITY] == Some(written[k]) {
      SlotsDiffer(k, |written|);
    }
    forall k | |written| < k < first + CAPACITY ensures after[k % CAPACITY] == None {
      SlotsDiffer(|written|, k);
    }
  }

  lemma RingAfterTake(ring: seq<Option<Task>>, written: seq<Task>, first: nat)
    requires |ring| == CAPACITY && RingHolds(ring, written, first) && first < |written| <= first + CAPACITY
    ensures RingHolds(ring[first % CAPACITY := None], written, first + 1)
  {
    var slot := first % CAPACITY;
    var after := ring[slot := None];
    forall k | first < k < |written| ensures after[k % CAPACITY] == Some(written[k]) {
      SlotsDiffer(first, k);
    }
    forall k | |written| <= k < first + 1 + CAPACITY ensures after[k % CAPACITY] == None {
      if k < first + CAPACITY { SlotsDiffer(first, k); } else { SlotAfterRounds(first, 1); }
    }
  }

  // ----- counting after one thread moved -----

  function One(b: bool): nat { if b then 1 else 0 }

  lemma ProducerCounts(ps: seq<Producer>, i: nat, v: Producer)
    requires i < |ps|
    ensures Count(ps[i := v], HoldsSpace) == Count(ps, HoldsSpace) - One(HoldsSpace(ps[i])) + One(HoldsSpace(v))
    ensures Count(ps[i := v], BeforeWrite) == Count(ps, BeforeWrite) - One(BeforeWrite(ps[i])) + One(BeforeWrite(v))
    ensures Count(ps[i := v], OwesTask) == Count(ps, OwesTask) - One(OwesTask(ps[i])) + One(OwesTask(v))
    ensures Count(ps[i := v], ProducerInside) == Count(ps, ProducerInside) - One(ProducerInside(ps[i])) + One(ProducerInside(v))
    ensures Count(ps[i := v], JustStored) == Count(ps, JustStored) - One(JustStored(ps[i])) + One(JustStored(v))
  {
    CountUpdate(ps, i, v, HoldsSpace);
    CountUpdate(ps, i, v, BeforeWrite);
    CountUpdate(ps, i, v, OwesTask);
    CountUpdate(ps, i, v, ProducerInside);
    CountUpdate(ps, i, v, JustStored);
  }

  lemma WorkerCounts(ws: seq<Worker>, i: nat, v: Worker)
    requires i < |ws|
    ensures Count(ws[i := v], HoldsTask) == Count(ws, HoldsTask) - One(HoldsTask(ws[i])) + One(HoldsTask(v))
    ensures Count(ws[i := v], Committed) == Count(ws, Committed) - One(Committed(ws[i])) + One(Committed(v))
    ensures Count(ws[i := v], OwesSpace) == Count(ws, OwesSpace) - One(OwesSpace(ws[i])) + One(OwesSpace(v))
    ensures Count(ws[i := v], OwesCount) == Count(ws, OwesCount) - One(OwesCount(ws[i])) + One(OwesCount(v))
    ensures Count(ws[i := v], WorkerInside) == Count(ws, WorkerInside) - One(WorkerInside(ws[i])) + One(WorkerInside(v))
    ensures Count(ws[i := v], JustTook) == Count(ws, JustTook) - One(JustTook(ws[i])) + One(JustTook(v))
    ensures Count(ws[i := v], HasExited) == Count(ws, HasExited) - One(HasExited(ws[i])) + One(HasExited(v))
  {
    CountUpdate(ws, i, v, HoldsTask);
    CountUpdate(ws, i, v, Committed);
    CountUpdate(ws, i, v, OwesSpace);
    CountUpdate(ws, i, v, OwesCount);
    CountUpdate(ws, i, v, WorkerInside);
    CountUpdate(ws, i, v, JustTook);
    CountUpdate(ws, i, v, HasExited);
  }

  /** A thread inside the lock is the only one that can be between two halves of an update. */
  lemma AloneInside(s: State)
    requires MutualExclusion(s)
    ensures Count(s.producers, JustStored) <= Count(s.producers, ProducerInside) <= 1
    ensures Count(s.workers, JustTook) <= Count(s.workers, WorkerInside) <= 1
  {
    CountImplies(s.producers, JustStored, ProducerInside);
    CountImplies(s.workers, JustTook, WorkerInside);
  }

  /** Steps that touch neither the ring nor its positions. */
  lemma SameRing(s: State, t: State)
    requires InRing(s) && RingIsQueue(s)
    requires t.pool.ring == s.pool.ring && t.pool.head == s.pool.head && t.pool.tail == s.pool.tail
    requires t.written == s.written && t.taken == s.taken
    requires Count(t.producers, JustStored) == Count(s.producers, JustStored)
    requires Count(t.workers, JustTook) == Count(s.workers, JustTook)
    ensures InRing(t) && RingIsQueue(t)
  {
    hide Count;
  }

  /** Steps that move one of the two positions over the slot just written or just emptied. */
  lemma MovedPosition(s: State, t: State)
    requires InRing(s) && RingIsQueue(s)
    requires t.pool.ring == s.pool.ring && t.written == s.written && t.taken == s.taken
    requires
      || (&& t.pool.head == s.pool.head && t.pool.tail == (s.pool.tail + 1) % CAPACITY
          && Count(s.producers, JustStored) == 1 && Count(t.producers, JustStored) == 0
          && Count(t.workers, JustTook) == Count(s.workers, JustTook))
      || (&& t.pool.tail == s.pool.tail && t.pool.head == (s.pool.head + 1) % CAPACITY
          && Count(s.workers, JustTook) == 1 && Count(t.workers, JustTook) == 0
          && Count(t.producers, JustStored) == Count(s.producers, JustStored))
    ensures InRing(t) && RingIsQueue(t)
  {
    hide Count;
    if Count(s.producers, JustStored) == 1 { NextSlot(|s.written| - 1); }
    if Count(s.workers, JustTook) == 1 { NextSlot(|s.taken| - 1); }
  }

  // ----- producers -----

  lemma ProducerKeepsCounts(s: State, i: nat, task: Task)
    requires Inv(s) && i < |s.producers| && ProducerNext(s, i, task).Some?
    ensures
      var t := ProducerNext(s, i, task).value;
      SpaceConserved(t) && TasksConserved(t) && Covered(t) && MutualExclusion(t) && PendingExact(t) && StopOrder(t)
  {
    hide Count, RingIsQueue;
    var t := ProducerNext(s, i, task).value;
    ProducerCounts(s.producers, i, t.producers[i]);
    assert t.workers == s.workers;
  }

  /** A producer about to write finds `tail_` at the next position, and room in the ring. */
  lemma StoreFacts(s: State, i: nat)
    requires Inv(s) && i < |s.producers| && s.producers[i].PLocked?
    ensures s.pool.tail == |s.written| % CAPACITY && Occupancy(s) < CAPACITY && Count(s.producers, JustStored) == 0
    ensures s.pool.ring[s.pool.tail] == None
  {
    CountPositive(s.producers, i, HoldsSpace);
    CountPositive(s.producers, i, ProducerInside);
    hide Count;
    AloneInside(s);
    if Count(s.producers, JustStored) == 1 {
      NotBoth(s.producers, i, JustStored, ProducerInside);
    }
  }

  /** Two different threads of a kind cannot both be inside. */
  lemma NotBoth<T(!new)>(ts: seq<T>, i: nat, q: T -> bool, p: T -> bool)
    requires i < |ts| && p(ts[i]) && !q(ts[i])
    requires forall x :: q(x) ==> p(x)
    ensures Count(ts, q) < Count(ts, p)
  {
    var r := x => p(x) && !q(x);
    CountPositive(ts, i, r);
    CountSplit(ts, q, r, p);
  }

  lemma StoreKeepsRing(s: State, i: nat)
    requires Inv(s) && i < |s.producers| && s.producers[i].PLocked?
    ensures InRing(ProducerNext(s, i, 0).value) && RingIsQueue(ProducerNext(s, i, 0).value)
  {
    StoreFacts(s, i);
    ProducerCounts(s.producers, i, PStored);
    hide Count, SpaceConserved, TasksConserved, Covered, MutualExclusion, PendingExact, StopOrder, RingHolds;
    var t := ProducerNext(s, i, 0).value;
    assert t.written[..|t.taken|] == s.written[..|s.taken|];
    RingAfterStore(s.pool.ring, s.written, |s.taken|, s.producers[i].task);
  }

  lemma ProducerKeepsRing(s: State, i: nat, task: Task)
    requires Inv(s) && i < |s.producers| && ProducerNext(s, i, task).Some?
    ensures InRing(ProducerNext(s, i, task).value) && RingIsQueue(ProducerNext(s, i, task).value)
  {
    if s.producers[i].PLocked? {
      StoreKeepsRing(s, i);
    } else {
      if s.producers[i].PStored? {
        CountPositive(s.producers, i, JustStored);
        AloneInside(s);
      }
      hide Count, RingIsQueue, SpaceConserved, TasksConserved, Covered, MutualExclusion, PendingExact, StopOrder;
      var t := ProducerNext(s, i, task).value;
      ProducerCounts(s.producers, i, t.producers[i]);
      if s.producers[i].PStored? { MovedPosition(s, t); } else { SameRing(s, t); }
    }
  }

  // ----- workers -----

  lemma WorkerKeepsSpace(s: State, i: nat)
    requires Inv(s) && i < |s.workers| && WorkerNext(s, i).Some?
    requires s.workers[i].WLocked? ==> s.pool.ring[s.pool.head].Some?
    ensures SpaceConserved(WorkerNext(s, i).value) && PendingExact(WorkerNext(s, i).value)
  {
    hide Count, RingIsQueue, MutualExclusion, TasksConserved, Covered, StopOrder;
    var t := WorkerNext(s, i).value;
    WorkerCounts(s.workers, i, t.workers[i]);
    assert t.producers == s.producers;
  }

  lemma WorkerKeepsTasks(s: State, i: nat)
    requires Inv(s) && i < |s.workers| && WorkerNext(s, i).Some?
    requires s.workers[i].WLocked? ==> s.pool.ring[s.pool.head].Some?
    ensures TasksConserved(WorkerNext(s, i).value)
  {
    hide Count, RingIsQueue, MutualExclusion, PendingExact, SpaceConserved, Covered;
    var t := WorkerNext(s, i).value;
    WorkerCounts(s.workers, i, t.workers[i]);
    assert t.producers == s.producers;
  }

  lemma WorkerKeepsCover(s: State, i: nat)
    requires Inv(s) && i < |s.workers| && WorkerNext(s, i).Some?
    requires s.workers[i].WLocked? ==> s.pool.ring[s.pool.head].Some?
    ensures Covered(WorkerNext(s, i).value)
  {
    if s.workers[i].WAcquired? { NotBoth(s.workers, i, Committed, HoldsTask); }
    hide Count, RingIsQueue, MutualExclusion, PendingExact, SpaceConserved;
    var t := WorkerNext(s, i).value;
    WorkerCounts(s.workers, i, t.workers[i]);
    assert t.producers == s.producers;
  }

  lemma WorkerKeepsOrder(s: State, i: nat)
    requires Inv(s) && i < |s.workers| && WorkerNext(s, i).Some?
    requires s.workers[i].WLocked? ==> s.pool.ring[s.pool.head].Some?
    ensures MutualExclusion(WorkerNext(s, i).value) && StopOrder(WorkerNext(s, i).value)
  {
    hide Count, RingIsQueue, SpaceConserved, TasksConserved, Covered, PendingExact;
    var t := WorkerNext(s, i).value;
    WorkerCounts(s.workers, i, t.workers[i]);
    assert t.producers == s.producers;
  }

  /** A worker about to take finds `head_` at the oldest task, which is there. */
  lemma TakeFacts(s: State, i: nat)
    requires Inv(s) && i < |s.workers| && s.workers[i].WLocked?
    ensures s.pool.head == |s.taken| % CAPACITY && 0 < Occupancy(s) && Count(s.workers, JustTook) == 0
    ensures s.pool.ring[s.pool.head] == Some(s.written[|s.taken|])
  {
    CountPositive(s.workers, i, Committed);
    CountPositive(s.workers, i, WorkerInside);
    AloneInside(s);
    NotBoth(s.workers, i, JustTook, WorkerInside);
  }

  lemma TakeKeepsRing(s: State, i: nat)
    requires Inv(s) && i < |s.workers| && s.workers[i].WLocked?
    ensures InRing(WorkerNext(s, i).value) && RingIsQueue(WorkerNext(s, i).value)
  {
    TakeFacts(s, i);
    WorkerCounts(s.workers, i, WTook(s.pool.ring[s.pool.head]));
    hide Count, SpaceConserved, TasksConserved, Covered, MutualExclusion, PendingExact, StopOrder, RingHolds;
    var t := WorkerNext(s, i).value;
    assert t.taken == s.written[..|s.taken|] + [s.written[|s.taken|]] == s.written[..|t.taken|];
    RingAfterTake(s.pool.ring, s.written, |s.taken|);
  }

  lemma WorkerKeepsRing(s: State, i: nat)
    requires Inv(s) && i < |s.workers| && WorkerNext(s, i).Some?
    ensures InRing(WorkerNext(s, i).value) && RingIsQueue(WorkerNext(s, i).value)
  {
    if s.workers[i].WLocked? {
      TakeKeepsRing(s, i);
    } else {
      if s.workers[i].WTook? {
        CountPositive(s.workers, i, JustTook);
        AloneInside(s);
      }
      hide Count, RingIsQueue, SpaceConserved, TasksConserved, Covered, MutualExclusion, PendingExact, StopOrder;
      var t := WorkerNext(s, i).value;
      WorkerCounts(s.workers, i, t.workers[i]);
      if s.workers[i].WTook? { MovedPosition(s, t); } else { SameRing(s, t); }
    }
  }

  // ----- the destructor, and every run -----

  lemma DestructorKeeps(s: State)
    requires Inv(s) && DestructorNext(s).Some?
    ensures Inv(DestructorNext(s).value)
  {
    hide Count;
  }

  /** Every step of every thread keeps the invariant. */
  lemma StepKeepsInv(s: State, a: Action)
    requires Inv(s) && Next(s, a).Some?
    ensures Inv(Next(s, a).value)
  {
    hide RingIsQueue, SpaceConserved, TasksConserved, Covered, MutualExclusion, PendingExact, StopOrder, WorkerNext,
         ProducerNext, DestructorNext;
    match a
    case ProducerStep(i, task) =>
      ProducerKeepsCounts(s, i, task);
      ProducerKeepsRing(s, i, task);
    case WorkerStep(i) =>
      if s.workers[i].WLocked? { TakeFacts(s, i); }
      WorkerKeepsSpace(s, i);
      WorkerKeepsTasks(s, i);
      WorkerKeepsCover(s, i);
      WorkerKeepsOrder(s, i);
      WorkerKeepsRing(s, i);
    case DestructorStep =>
      DestructorKeeps(s);
  }

  lemma InitialInv(s: State)
    requires Initial(s)
    ensures Inv(s)
  {
    CountNone(s.producers, HoldsSpace);
    CountNone(s.producers, BeforeWrite);
    CountNone(s.producers, OwesTask);
    CountNone(s.producers, ProducerInside);
    CountNone(s.producers, JustStored);
    CountNone(s.workers, HoldsTask);
    CountNone(s.workers, Committed);
    CountNone(s.workers, OwesSpace);
    CountNone(s.workers, OwesCount);
    CountNone(s.workers, WorkerInside);
    CountNone(s.workers, JustTook);
    CountNone(s.workers, HasExited);
  }
}
