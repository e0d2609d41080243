/** The thread pool as a transition system: any number of producers inside `enqueue`, any number of
    workers, and the destructor, each with a program counter, and one atomic operation a step
    (src/concurrency/ThreadPool.cpp, fields in include/http/concurrency/ThreadPool.hpp:31-43). */
module ThreadPool {
  import opened ByteStrings
  import opened Counting

  const CAPACITY: nat := 1024

  /** Tasks are opaque; an identifier stands for the `std::function`. */
  type Task = nat

  /** A producer, by what it has done last. */
  datatype Producer =
    | PIdle
    | PCounted(task: Task)   // incremented pending_tasks_
    | PSpace(task: Task)     // acquired space_available_
    | PLocked(task: Task)    // set lock_
    | PStored                // wrote ring_buffer_[tail_]
    | PAdvanced              // moved tail_
    | PUnlocked              // cleared lock_; tasks_available_ is not released yet

  /** A worker, by what it has done last. */
  datatype Worker =
    | WParked
    | WAcquired                       // acquired tasks_available_
    | WChecked                        // read stop_ as false
    | WLocked                         // set lock_
    | WTook(task: Option<Task>)       // moved ring_buffer_[head_] out
    | WAdvanced(task: Option<Task>)   // moved head_
    | WUnlocked(task: Option<Task>)   // cleared lock_
    | WReleased(task: Option<Task>)   // released space_available_
    | WRunning(task: Option<Task>)    // decremented pending_tasks_
    | WExited

  datatype Destructor = DWaiting | DReleasing(released: nat) | DJoining(joined: nat) | DDone

  /** The fields of the pool. */
  datatype Pool = Pool(
    ring: seq<Option<Task>>, head: nat, tail: nat, lock: bool,
    tasks: nat, space: nat, stop: bool, pending: int)

  /** The pool, its threads, and the tasks written and taken so far, in order. */
  datatype State = State(
    pool: Pool, producers: seq<Producer>, workers: seq<Worker>, destructor: Destructor,
    written: seq<Task>, taken: seq<Task>)

  datatype Action = ProducerStep(thread: nat, task: Task) | WorkerStep(thread: nat) | DestructorStep

  predicate Initial(s: State) {
    && s.pool == Pool(seq(CAPACITY, i => None), 0, 0, false, 0, CAPACITY, false, 0)
    && (forall i :: 0 <= i < |s.producers| ==> s.producers[i] == PIdle)
    && (forall i :: 0 <= i < |s.workers| ==> s.workers[i] == WParked)
    && s.destructor == DWaiting && s.written == [] && s.taken == []
  }

  // ----- the steps; None is a thread that has to wait -----

  function SetProducer(s: State, i: nat, p: Producer, pool: Pool): State
    requires i < |s.producers|
  {
    s.(producers := s.producers[i := p], pool := pool)
  }

  function SetWorker(s: State, i: nat, w: Worker, pool: Pool): State
    requires i < |s.workers|
  {
    s.(workers := s.workers[i := w], pool := pool)
  }

  function ProducerNext(s: State, i: nat, task: Task): Option<State>
    requires i < |s.producers| && s.pool.tail < |s.pool.ring|
  {
    var pool := s.pool;
    match s.producers[i]
    case PIdle => Some(SetProducer(s, i, PCounted(task), pool.(pending := pool.pending + 1)))
    case PCounted(t) =>
      if pool.space == 0 then None else Some(SetProducer(s, i, PSpace(t), pool.(space := pool.space - 1)))
    case PSpace(t) =>
      if pool.lock then None else Some(SetProducer(s, i, PLocked(t), pool.(lock := true)))
    case PLocked(t) =>
      Some(SetProducer(s, i, PStored, pool.(ring := pool.ring[pool.tail := Some(t)])).(written := s.written + [t]))
    case PStored => Some(SetProducer(s, i, PAdvanced, pool.(tail := (pool.tail + 1) % CAPACITY)))
    case PAdvanced => Some(SetProducer(s, i, PUnlocked, pool.(lock := false)))
    case PUnlocked => Some(SetProducer(s, i, PIdle, pool.(tasks := pool.tasks + 1)))
  }

  function WorkerNext(s: State, i: nat): Option<State>
    requires i < |s.workers| && s.pool.head < |s.pool.ring|
  {
    var pool := s.pool;
    match s.workers[i]
    case WParked =>
      if pool.tasks == 0 then None else Some(SetWorker(s, i, WAcquired, pool.(tasks := pool.tasks - 1)))
    case WAcquired => Some(SetWorker(s, i, if pool.stop then WExited else WChecked, pool))
    case WChecked =>
      if pool.lock then None else Some(SetWorker(s, i, WLocked, pool.(lock := true)))
    case WLocked =>
      var slot := pool.ring[pool.head];
      Some(SetWorker(s, i, WTook(slot), pool.(ring := pool.ring[pool.head := None]))
           .(taken := if slot.Some? then s.taken + [slot.value] else s.taken))
    case WTook(t) => Some(SetWorker(s, i, WAdvanced(t), pool.(head := (pool.head + 1) % CAPACITY)))
    case WAdvanced(t) => Some(SetWorker(s, i, WUnlocked(t), pool.(lock := false)))
    case WUnlocked(t) => Some(SetWorker(s, i, WReleased(t), pool.(space := pool.space + 1)))
    case WReleased(t) => Some(SetWorker(s, i, WRunning(t), pool.(pending := pool.pending - 1)))
    case WRunning(_) => Some(SetWorker(s, i, WParked, pool))
    case WExited => None
  }

  function DestructorNext(s: State): Option<State> {
    match s.destructor
    case DWaiting => Some(s.(destructor := DReleasing(0), pool := s.pool.(stop := true)))
    case DReleasing(n) =>
      if n < |s.workers| then Some(s.(destructor := DReleasing(n + 1), pool := s.pool.(tasks := s.pool.tasks + 1)))
      else Some(s.(destructor := DJoining(0)))
    case DJoining(n) =>
      if |s.workers| <= n then Some(s.(destructor := DDone))
      else if s.workers[n] == WExited then Some(s.(destructor := DJoining(n + 1)))
      else None
    case DDone => None
  }

  predicate InRing(s: State) {
    |s.pool.ring| == CAPACITY && s.pool.head < CAPACITY && s.pool.tail < CAPACITY
  }

  function Next(s: State, a: Action): Option<State>
    requires InRing(s)
  {
    match a
    case ProducerStep(i, task) => if i < |s.producers| then ProducerNext(s, i, task) else None
    case WorkerStep(i) => if i < |s.workers| then WorkerNext(s, i) else None
    case DestructorStep => DestructorNext(s)
  }

  // ----- where threads can be -----

  function HoldsSpace(p: Producer): bool { p.PSpace? || p.PLocked? }

  function BeforeWrite(p: Producer): bool { p.PCounted? || p.PSpace? || p.PLocked? }

  function OwesTask(p: Producer): bool { p.PStored? || p.PAdvanced? || p.PUnlocked? }

  function ProducerInside(p: Producer): bool { p.PLocked? || p.PStored? || p.PAdvanced? }

  function JustStored(p: Producer): bool { p.PStored? }

  function HoldsTask(w: Worker): bool { w.WAcquired? || w.WChecked? || w.WLocked? }

  function Committed(w: Worker): bool { w.WChecked? || w.WLocked? }

  function OwesSpace(w: Worker): bool { w.WTook? || w.WAdvanced? || w.WUnlocked? }

  function OwesCount(w: Worker): bool { w.WTook? || w.WAdvanced? || w.WUnlocked? || w.WReleased? }

  function WorkerInside(w: Worker): bool { w.WLocked? || w.WTook? || w.WAdvanced? }

  function JustTook(w: Worker): bool { w.WTook? }

  function HasExited(w: Worker): bool { w.WExited? }

  // ----- the invariant -----

  function Occupancy(s: State): int { |s.written| - |s.taken| }

  /** The permits the destructor has released so far. */
  function Released(s: State): nat {
    match s.destructor
    case DWaiting => 0
    case DReleasing(n) => n
    case DJoining(_) => |s.workers|
    case DDone => |s.workers|
  }

  /** Every unit of space is a permit, a producer's, a task in the ring, or a worker's. */
  predicate SpaceConserved(s: State) {
    s.pool.space + Count(s.producers, HoldsSpace) + Occupancy(s) + Count(s.workers, OwesSpace) == CAPACITY
  }

  /** Every task in the ring, and every release of the destructor, is a permit, or is owed one by its
      producer, or has been acquired by a worker. */
  predicate TasksConserved(s: State) {
    s.pool.tasks + Count(s.workers, HoldsTask) + Count(s.producers, OwesTask) + Count(s.workers, HasExited)
    == Occupancy(s) + Released(s)
  }

  /** Workers that are bound to dequeue, and tasks whose permit is still to come, are all covered by
      tasks in the ring, even during shutdown. */
  predicate Covered(s: State) {
    Count(s.workers, Committed) + Count(s.producers, OwesTask) <= Occupancy(s)
  }

  predicate StopOrder(s: State) {
    && (!s.pool.stop <==> s.destructor == DWaiting)
    && (!s.pool.stop ==> Count(s.workers, HasExited) == 0)
    && (s.destructor.DReleasing? ==> s.destructor.released <= |s.workers|)
    && (s.destructor.DJoining? ==> s.destructor.joined <= |s.workers|)
    && (s.destructor.DJoining? ==> forall i :: 0 <= i < s.destructor.joined ==> s.workers[i] == WExited)
    && (s.destructor.DDone? ==> forall i :: 0 <= i < |s.workers| ==> s.workers[i] == WExited)
  }

  predicate MutualExclusion(s: State) {
    Count(s.producers, ProducerInside) + Count(s.workers, WorkerInside) == if s.pool.lock then 1 else 0
  }

  predicate PendingExact(s: State) {
    s.pool.pending == Occupancy(s) + Count(s.producers, BeforeWrite) + Count(s.workers, OwesCount)
  }

  /** The tasks from the `first` one on sit at consecutive positions, and the other slots are empty. */
  predicate RingHolds(ring: seq<Option<Task>>, written: seq<Task>, first: nat)
    requires |ring| == CAPACITY
  {
    && (forall k :: first <= k < |written| ==> ring[k % CAPACITY] == Some(written[k]))
    && (forall k :: |written| <= k < first + CAPACITY ==> ring[k % CAPACITY] == None)
  }

  /** The ring holds the tasks written and not yet taken, in order, and nothing else. */
  predicate RingIsQueue(s: State)
    requires InRing(s)
  {
    && 0 <= Occupancy(s) <= CAPACITY
    && s.taken == s.written[..|s.taken|]
    && Count(s.workers, JustTook) <= |s.taken| && Count(s.producers, JustStored) <= |s.written|
    && s.pool.head == (|s.taken| - Count(s.workers, JustTook)) % CAPACITY
    && s.pool.tail == (|s.written| - Count(s.producers, JustStored)) % CAPACITY
    && RingHolds(s.pool.ring, s.written, |s.taken|)
  }

  predicate Inv(s: State) {
    && InRing(s) && RingIsQueue(s) && SpaceConserved(s) && TasksConserved(s) && Covered(s)
    && StopOrder(s) && MutualExclusion(s) && PendingExact(s)
  }
}
