/** The lock-free queue as an object: one call at a time, fields updated in place. */
module LockFreeQueue {
  import opened Wrappers
  import opened RingIndex
  import QP = QueueProtocol

  const SMALL_INTEGER_OPTIMISATION_LIMIT: nat := 100

  /** The elements from slot `head` up to slot `tail`, going round the end of the array. */
  function Window<T>(arr: seq<T>, head: nat, tail: nat): seq<T>
    requires head <= |arr| && tail <= |arr|
  {
    if head <= tail then arr[head..tail] else arr[head..] + arr[..tail]
  }

  class LockFreeQueue<T> {
    const capacity: nat
    const arr: array<T>
    const nextArr: array<nat>
    var head: nat
    var tail: nat
    var size: nat

    ghost predicate Valid()
      reads this, arr, nextArr
    {
      && 0 < capacity < WORD && arr.Length == capacity
      && (arr as object) != nextArr
      && head < capacity && tail < capacity && size < WORD
      && (capacity <= SMALL_INTEGER_OPTIMISATION_LIMIT ==>
            nextArr.Length == capacity && forall i :: 0 <= i < capacity ==> nextArr[i] == Next(capacity, i))
    }

    /** What the queue holds, oldest element first. */
    ghost function Contents(): seq<T>
      requires Valid()
      reads this, arr, nextArr
    {
      Window(arr[..], head, tail)
    }

    /** The shared fields, with the producer outside `push` and one consumer at `pc`. */
    ghost function Snapshot(pc: QP.ConsumerPc<T>): QP.Config<T>
      reads this, arr
    {
      QP.Config(arr[..], head, tail, size, QP.Idle, [pc])
    }

    /** `blank` is the value that default-initialises the slots. */
    constructor (capacity: nat, blank: T)
      requires 0 < capacity < WORD
      ensures Valid() && fresh(arr) && fresh(nextArr)
      ensures this.capacity == capacity && Contents() == [] && size == 0
      ensures forall i :: 0 <= i < capacity <= 100 ==> nextArr[i] == (i + 1) % capacity
    {
      this.capacity := capacity;
      this.head, this.tail, this.size := 0, 0, 0;
      this.arr := new T[capacity](_ => blank);
      var table := new nat[if capacity <= SMALL_INTEGER_OPTIMISATION_LIMIT then capacity else 0];
      this.nextArr := table;
      new;
      if capacity <= SMALL_INTEGER_OPTIMISATION_LIMIT {
        for i := 0 to capacity
          invariant forall j :: 0 <= j < i ==> nextArr[j] == j + 1
          modifies nextArr
        {
          nextArr[i] := i + 1;
        }
        nextArr[capacity - 1] := 0;
      }
    }

    /** The table is consulted below the limit, the remainder is computed from the limit on; both
        give the same successor. */
    method NextIndex(current: nat) returns (r: nat)
      requires Valid() && current < capacity
      ensures r == (if current == capacity - 1 then 0 else current + 1) == Next(capacity, current)
    {
      if capacity < SMALL_INTEGER_OPTIMISATION_LIMIT {
        r := nextArr[current];
      } else {
        r := (current + 1) % capacity;
        RemainderIsNext(capacity, current);
      }
    }

    method IsEmpty() returns (r: bool)
      requires Valid()
      ensures r <==> Contents() == []
    {
      r := head == tail;
    }

    method IsFull() returns (r: bool)
      requires Valid()
      ensures r <==> |Contents()| == capacity - 1
      ensures r <==> QP.Full(Snapshot(QP.Out))
    {
      var next := NextIndex(tail);
      r := next == head;
    }

    /** `push` does not look at the head: below capacity - 1 elements it appends, and on a full
        ring it makes the tail catch up with the head, which empties the queue. */
    method Push(elem: T) returns (pushed: bool)
      requires Valid()
      modifies this`tail, this`size, arr
      ensures Valid() && pushed && head == old(head) && size == (old(size) + 1) % WORD
      ensures |old(Contents())| < capacity - 1 ==> Contents() == old(Contents()) + [elem]
      ensures |old(Contents())| == capacity - 1 ==> Contents() == []
      ensures forall i :: 0 <= i < capacity && i != old(tail) ==> arr[i] == old(arr[i])
      ensures old(arr[..])[old(tail) := elem] == arr[..] && tail == Next(capacity, old(tail))
    {
      ghost var before := arr[..];
      var t := tail;
      var nextTail := NextIndex(t);
      arr[t] := elem;
      tail := nextTail;
      size := (size + 1) % WORD;
      assert arr[..] == before[t := elem];
      WindowPush(before, head, t, elem);
      return true;
    }

    /** `spurious` says whether the weak exchange fails for no reason; `residue` is what moving
        the element out leaves in its slot. */
    method Pop(spurious: bool, residue: T) returns (r: Option<T>)
      requires Valid()
      modifies this`head, this`size, arr
      ensures Valid() && tail == old(tail)
      ensures old(Contents()) == [] || spurious ==>
                r == None && head == old(head) && size == old(size) && arr[..] == old(arr[..])
      ensures old(Contents()) != [] && !spurious ==>
                && r == Some(old(Contents())[0]) && Contents() == old(Contents())[1..]
                && size == (old(size) + WORD - 1) % WORD && head == Next(capacity, old(head))
                && arr[..] == old(arr[..])[old(head) := residue]
    {
      var h := head;
      if h == tail {
        return None;
      }
      if spurious {
        return None;
      }
      ghost var before := arr[..];
      var nextHead := NextIndex(h);
      head := nextHead;
      r := Some(arr[h]);
      arr[h] := residue;
      size := (size + WORD - 1) % WORD;
      assert arr[..] == before[h := residue];
      WindowPop(before, h, tail, residue);
    }

    /** Called alone, `push` is the four steps of the protocol in a row. */
    method PushAlone(elem: T)
      requires Valid()
      modifies this`tail, this`size, arr
      ensures Valid() && Snapshot(QP.Out) == PushSteps(old(Snapshot(QP.Out)), elem)
    {
      ghost var c := Snapshot(QP.Out);
      var _ := Push(elem);
      PushStepsAre(c, elem);
    }

    /** Called alone, a `pop` is the two or five steps of the protocol in a row, and what it
        returns is what the consumer of the protocol holds before its last step. */
    method PopAlone(residue: T) returns (r: Option<T>)
      requires Valid()
      modifies this`head, this`size, arr
      ensures Valid() && (r.Some? <==> old(Contents()) != [])
      ensures var c := old(Snapshot(QP.Out));
        if r.Some?
        then PopSteps(c, residue).consumers[0] == QP.HasValue(r.value) &&
             Snapshot(QP.Out) == QP.Do(PopSteps(c, residue), QP.DecSize(0))
        else Snapshot(QP.Out) == CheckSteps(c)
    {
      ghost var c := Snapshot(QP.Out);
      r := Pop(false, residue);
      PopStepsAre(c, residue);
    }
  }

  function PushSteps<T>(c: QP.Config<T>, elem: T): QP.Config<T>
    requires c.tail < |c.arr| && c.producer.Idle?
  {
    var c1 := QP.Do(c, QP.LoadTail(elem));
    var c2 := QP.Do(c1, QP.WriteSlot);
    var c3 := QP.Do(c2, QP.StoreTail);
    QP.Do(c3, QP.IncSize)
  }

  /** Consumer 0 loads the head and checks it against the tail. */
  function CheckSteps<T>(c: QP.Config<T>): QP.Config<T>
    requires c.consumers == [QP.Out]
  {
    QP.Do(QP.Do(c, QP.LoadHead(0)), QP.CheckTail(0))
  }

  /** Consumer 0 goes on, if there is something to pop, up to its decrement of the size. */
  function PopSteps<T>(c: QP.Config<T>, residue: T): (c': QP.Config<T>)
    requires c.head < |c.arr| && c.consumers == [QP.Out]
    ensures |c'.consumers| == 1 && (c.head != c.tail ==> QP.Enabled(c', QP.DecSize(0)))
  {
    var c2 := CheckSteps(c);
    if c.head == c.tail then c2
    else QP.Do(QP.Do(c2, QP.Cas(0, false)), QP.ReadSlot(0, residue))
  }

  lemma PushStepsAre<T>(c: QP.Config<T>, elem: T)
    requires c.tail < |c.arr| && c.producer.Idle?
    ensures PushSteps(c, elem) ==
            c.(arr := c.arr[c.tail := elem], tail := Next(|c.arr|, c.tail), size := (c.size + 1) % WORD)
  {
  }

  lemma PopStepsAre<T>(c: QP.Config<T>, residue: T)
    requires c.head < |c.arr| && c.consumers == [QP.Out]
    ensures c.head == c.tail ==> PopSteps(c, residue) == c
    ensures c.head != c.tail ==>
      PopSteps(c, residue) ==
      c.(arr := c.arr[c.head := residue], head := Next(|c.arr|, c.head), consumers := [QP.HasValue(c.arr[c.head])])
  {
  }

  lemma RemainderIsNext(capacity: nat, i: nat)
    requires i < capacity
    ensures (i + 1) % capacity == Next(capacity, i)
  {
  }

  /** The window after a store: one element longer, unless the ring was full. */
  lemma WindowPush<T>(arr: seq<T>, head: nat, tail: nat, elem: T)
    requires head < |arr| && tail < |arr|
    ensures Next(|arr|, tail) != head ==>
              Window(arr[tail := elem], head, Next(|arr|, tail)) == Window(arr, head, tail) + [elem]
    ensures Next(|arr|, tail) == head <==> |Window(arr, head, tail)| == |arr| - 1
    ensures Next(|arr|, tail) == head ==> Window(arr[tail := elem], head, Next(|arr|, tail)) == []
  {
  }

  lemma WindowPop<T>(arr: seq<T>, head: nat, tail: nat, residue: T)
    requires head < |arr| && tail < |arr| && head != tail
    ensures Window(arr, head, tail) != [] && Window(arr, head, tail)[0] == arr[head]
    ensures Window(arr[head := residue], Next(|arr|, head), tail) == Window(arr, head, tail)[1..]
  {
  }

  // ----- Whole sequences of calls against a bounded FIFO -----

  datatype Call<T> = Pushing(elem: T) | Popping

  /** A plain FIFO: what it holds and what its pops returned. */
  datatype Fifo<T> = Fifo(items: seq<T>, returned: seq<Option<T>>)

  function FifoCall<T>(f: Fifo<T>, call: Call<T>): Fifo<T> {
    match call
    case Pushing(e) => f.(items := f.items + [e])
    case Popping =>
      if f.items == [] then f.(returned := f.returned + [None])
      else Fifo(f.items[1..], f.returned + [Some(f.items[0])])
  }

  function FifoCalls<T>(f: Fifo<T>, calls: seq<Call<T>>): Fifo<T> {
    if calls == [] then f
    else FifoCall(FifoCalls(f, calls[..|calls| - 1]), calls[|calls| - 1])
  }

  /** The FIFO never holds more than `limit` elements. */
  predicate StaysWithin<T>(calls: seq<Call<T>>, limit: nat) {
    forall n :: 0 <= n <= |calls| ==> |FifoCalls<T>(Fifo([], []), calls[..n]).items| <= limit
  }

  /** One call on a queue that has room for it. */
  method RunCall<T>(q: LockFreeQueue<T>, call: Call<T>, blank: T, returned: seq<Option<T>>)
    returns (returned': seq<Option<T>>)
    requires q.Valid() && q.size == |q.Contents()|
    requires |FifoCall(Fifo(q.Contents(), returned), call).items| <= q.capacity - 1
    modifies q, q.arr
    ensures q.Valid() && q.size == |q.Contents()|
    ensures Fifo(q.Contents(), returned') == FifoCall(Fifo(old(q.Contents()), returned), call)
  {
    match call
    case Pushing(e) =>
      var _ := q.Push(e);
      returned' := returned;
    case Popping =>
      var r := q.Pop(false, blank);
      returned' := returned + [r];
  }

  /** Any sequence of calls that never asks for more than capacity - 1 elements is answered as a
      FIFO answers it. */
  method RunCalls<T>(capacity: nat, blank: T, calls: seq<Call<T>>)
    returns (q: LockFreeQueue<T>, returned: seq<Option<T>>)
    requires 0 < capacity < WORD && StaysWithin(calls, capacity - 1)
    ensures fresh(q) && q.Valid() && q.capacity == capacity
    ensures Fifo(q.Contents(), returned) == FifoCalls(Fifo([], []), calls)
    ensures q.size == |q.Contents()|
  {
    q := new LockFreeQueue(capacity, blank);
    returned := [];
    for i := 0 to |calls|
      invariant fresh(q) && fresh(q.arr) && q.Valid() && q.capacity == capacity
      invariant Fifo(q.Contents(), returned) == FifoCalls(Fifo([], []), calls[..i])
      invariant q.size == |q.Contents()|
    {
      assert calls[..i + 1][..i] == calls[..i];
      assert |FifoCalls<T>(Fifo([], []), calls[..i + 1]).items| <= capacity - 1;
      returned := RunCall(q, calls[i], blank, returned);
    }
    assert calls[..|calls|] == calls;
  }
}
