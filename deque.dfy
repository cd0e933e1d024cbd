// A double-ended queue over a fixed-size ring buffer (2048ai/utils/CircularDeque.ts).
// One slot of the buffer always stays free, so `head == tail` means empty and
// `tail + 1 == head` (modulo the buffer length) means full.

module Deque {
  import opened Common

  class CircularDeque<T(0)> {
    /** The length of the ring buffer: one more than the capacity asked for. */
    const capacity: nat
    const buffer: array<T>
    var head: nat
    var tail: nat

    /** The elements from front to back. */
    ghost var Contents: seq<T>

    ghost predicate Valid()
      reads this, buffer
    {
      && buffer.Length == capacity >= 1
      && head < capacity && tail < capacity
      && |Contents| < capacity
      && tail == Wrap(head + |Contents|, capacity)
      && forall i :: 0 <= i < |Contents| ==> Contents[i] == buffer[Wrap(head + i, capacity)]
    }

    constructor (requested: nat)
      ensures Valid() && fresh(buffer)
      ensures capacity == requested + 1 && Contents == []
    {
      capacity := requested + 1;
      buffer := new T[requested + 1];
      head, tail := 0, 0;
      Contents := [];
    }

    /** The number of elements, computed from the two cursors. */
    function Size(): (n: nat)
      reads this, buffer
      requires Valid()
      ensures n == |Contents|
    {
      ModSmall(tail - head + capacity, capacity);
      (tail - head + capacity) % capacity
    }

    function IsEmpty(): (b: bool)
      reads this, buffer
      requires Valid()
      ensures b <==> |Contents| == 0
    {
      head == tail
    }

    /** Full when only the spare slot is left. */
    function IsFull(): (b: bool)
      reads this, buffer
      requires Valid()
      ensures b <==> |Contents| == capacity - 1
    {
      ModSmall(tail + 1, capacity);
      (tail + 1) % capacity == head
    }

    function PeekFront(): (r: Option<T>)
      reads this, buffer
      requires Valid()
      ensures |Contents| == 0 ==> r == None
      ensures |Contents| > 0 ==> r == Some(Contents[0])
    {
      if IsEmpty() then None else Some(buffer[head])
    }

    function PeekBack(): (r: Option<T>)
      reads this, buffer
      requires Valid()
      ensures |Contents| == 0 ==> r == None
      ensures |Contents| > 0 ==> r == Some(Contents[|Contents| - 1])
    {
      if IsEmpty() then None
      else
        ModSmall(tail - 1 + capacity, capacity);
        Some(buffer[(tail - 1 + capacity) % capacity])
    }

    method AddFront(value: T) returns (r: Outcome)
      requires Valid()
      modifies this, buffer
      ensures Valid()
      ensures old(|Contents|) == capacity - 1 ==> r == Fail("Deque is full") && Contents == old(Contents)
      ensures old(|Contents|) < capacity - 1 ==> r == Pass && Contents == [value] + old(Contents)
    {
      if IsFull() {
        return Fail("Deque is full");
      }
      ModSmall(head - 1 + capacity, capacity);
      head := (head - 1 + capacity) % capacity;
      buffer[head] := value;
      Contents := [value] + Contents;
      r := Pass;
    }

    method AddBack(value: T) returns (r: Outcome)
      requires Valid()
      modifies this, buffer
      ensures Valid()
      ensures old(|Contents|) == capacity - 1 ==> r == Fail("Deque is full") && Contents == old(Contents)
      ensures old(|Contents|) < capacity - 1 ==> r == Pass && Contents == old(Contents) + [value]
    {
      if IsFull() {
        return Fail("Deque is full");
      }
      buffer[tail] := value;
      ModSmall(tail + 1, capacity);
      tail := (tail + 1) % capacity;
      Contents := Contents + [value];
      r := Pass;
    }

    method RemoveFront() returns (r: Result<T>)
      requires Valid()
      modifies this
      ensures Valid()
      ensures old(|Contents|) == 0 ==> r == Err("Deque is empty") && Contents == old(Contents)
      ensures old(|Contents|) > 0 ==> r == Ok(old(Contents)[0]) && Contents == old(Contents)[1..]
    {
      if IsEmpty() {
        return Err("Deque is empty");
      }
      var value := buffer[head];
      ModSmall(head + 1, capacity);
      head := (head + 1) % capacity;
      Contents := Contents[1..];
      r := Ok(value);
    }

    method RemoveBack() returns (r: Result<T>)
      requires Valid()
      modifies this
      ensures Valid()
      ensures old(|Contents|) == 0 ==> r == Err("Deque is empty") && Contents == old(Contents)
      ensures old(|Contents|) > 0 ==>
        r == Ok(old(Contents)[|old(Contents)| - 1]) && Contents == old(Contents)[..|old(Contents)| - 1]
    {
      if IsEmpty() {
        return Err("Deque is empty");
      }
      ModSmall(tail - 1 + capacity, capacity);
      tail := (tail - 1 + capacity) % capacity;
      Contents := Contents[..|Contents| - 1];
      r := Ok(buffer[tail]);
    }

    method Clear()
      requires Valid()
      modifies this
      ensures Valid()
      ensures Contents == []
    {
      head, tail := 0, 0;
      Contents := [];
    }
  }

  /** An index into the ring buffer that ran past its end by less than one lap. */
  function Wrap(k: nat, c: nat): nat
    requires c >= 1
  {
    if k < c then k else k - c
  }

  /** `%` on the cursor arithmetic of the source never goes more than one lap. */
  lemma ModSmall(k: int, c: int)
    requires 0 < c && 0 <= k < 2 * c
    ensures k % c == if k < c then k else k - c
  {
  }
}
