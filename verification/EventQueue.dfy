/**
 The ring buffer of events: a fixed array used as a bounded first-in first-out queue.
 */
module EventQueue {

  const QUEUE_SIZE: nat := 1024

  /** An event; `forGhost` marks the delivery of a stored ("ghost") message. */
  datatype Event = Event(forGhost: bool, peer: string, text: string)

  /** Position `i` of the ring whose oldest element is at `head`. */
  function Slot(head: nat, i: nat): nat
    requires head < QUEUE_SIZE && i < QUEUE_SIZE
  {
    if head + i < QUEUE_SIZE then head + i else head + i - QUEUE_SIZE
  }

  class EventQueue {
    const ring: array<Event>
    var head: nat
    var tail: nat
    var count: nat

    ghost predicate Valid()
      reads this
    {
      && ring.Length == QUEUE_SIZE && head < QUEUE_SIZE && tail < QUEUE_SIZE && count <= QUEUE_SIZE
      && tail == (head + count) % QUEUE_SIZE
    }

    /** The queued events, oldest first. */
    ghost function Contents(): (s: seq<Event>)
      requires Valid()
      reads this, ring
      ensures |s| == count
    {
      seq(count, i requires 0 <= i < count && Valid() reads this, ring => ring[Slot(head, i)])
    }

    constructor ()
      ensures Valid() && Contents() == [] && fresh(ring)
    {
      ring := new Event[1024](_ => Event(false, "", ""));
      head, tail, count := 0, 0, 0;
    }

    method Push(e: Event) returns (rc: int)
      requires Valid()
      modifies this, ring
      ensures Valid()
      ensures rc == if |old(Contents())| >= QUEUE_SIZE then -1 else 0
      ensures Contents() == if rc == 0 then old(Contents()) + [e] else old(Contents())
    {
      if count >= QUEUE_SIZE {
        return -1;
      }
      assert tail == Slot(head, count);
      ring[tail] := e;
      tail := (tail + 1) % QUEUE_SIZE;
      count := count + 1;
      assert forall i | 0 <= i < count - 1 :: Slot(head, i) != Slot(head, count - 1);
      assert Contents() == old(Contents()) + [e];
      rc := 0;
    }

    /** The oldest event, or nothing when the queue is empty (the wait itself is not modelled). */
    method Pop() returns (rc: int, e: Event)
      requires Valid()
      modifies this
      ensures Valid()
      ensures rc == if old(Contents()) == [] then -1 else 0
      ensures rc == 0 ==> old(Contents()) == [e] + Contents()
      ensures rc != 0 ==> Contents() == old(Contents())
    {
      e := Event(false, "", "");
      if count == 0 {
        return -1, e;
      }
      e := ring[head];
      assert Slot(head, 0) == head;
      ghost var next := (head + 1) % QUEUE_SIZE;
      assert forall i | 0 <= i < count - 1 :: Slot(next, i) == Slot(head, i + 1);
      head := (head + 1) % QUEUE_SIZE;
      count := count - 1;
      assert old(Contents()) == [e] + Contents();
      rc := 0;
    }
  }
}
