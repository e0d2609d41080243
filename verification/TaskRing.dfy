/** The two critical sections of the pool, on the ring buffer itself: what a worker does to it and what
    `enqueue` does, between taking and clearing the lock (src/concurrency/ThreadPool.cpp:21-22, 59-60). */
module TaskRing {
  import opened ByteStrings
  import opened ThreadPool
  import opened ThreadPoolSafety

  class Ring {
    const slots: array<Option<Task>>
    var head: nat
    var tail: nat
    ghost var written: seq<Task>
    ghost var taken: nat

    ghost predicate ValidRing()
      reads this, slots
    {
      && slots.Length == CAPACITY && taken <= |written| <= taken + CAPACITY
      && head == taken % CAPACITY && tail == |written| % CAPACITY
      && RingHolds(slots[..], written, taken)
    }

    /** The waiting tasks, oldest first. */
    ghost function Contents(): seq<Task>
      requires taken <= |written|
      reads this
    {
      written[taken..]
    }

    constructor ()
      ensures ValidRing() && fresh(slots) && Contents() == []
    {
      slots := new Option<Task>[CAPACITY](i => None);
      head, tail, written, taken := 0, 0, [], 0;
    }

    /** The space permit says that a slot is free. */
    method Store(task: Task)
      requires ValidRing() && |Contents()| < CAPACITY
      modifies this, slots
      ensures ValidRing() && Contents() == old(Contents()) + [task]
    {
      hide RingHolds;
      RingAfterStore(slots[..], written, taken, task);
      NextSlot(|written|);
      slots[tail] := Some(task);
      tail := (tail + 1) % CAPACITY;
      written := written + [task];
    }

    /** The task permit says that a task is waiting. */
    method Take() returns (task: Option<Task>)
      requires ValidRing() && Contents() != []
      modifies this, slots
      ensures ValidRing() && task == Some(old(Contents())[0]) && Contents() == old(Contents())[1..]
    {
      assert slots[..][head] == Some(written[taken]);
      hide RingHolds;
      RingAfterTake(slots[..], written, taken);
      NextSlot(taken);
      task := slots[head];
      slots[head] := None;
      head := (head + 1) % CAPACITY;
      taken := taken + 1;
    }
  }
}
