/** Index arithmetic of a ring of `capacity` slots: every unbounded ticket `t`
    lives in slot `t % capacity`. */
module RingIndex {

  /** std::uint32_t, on which the shared counters wrap around. */
  const WORD: nat := 0x1_0000_0000

  /** The slot after slot `i`. */
  function Next(capacity: nat, i: nat): (r: nat)
    requires i < capacity
    ensures r == if i == capacity - 1 then 0 else i + 1
  {
    WrapOnce(capacity, i);
    (i + 1) % capacity
  }

  lemma WrapOnce(capacity: nat, i: nat)
    requires i < capacity
    ensures (i + 1) % capacity == if i == capacity - 1 then 0 else i + 1
  {
    if i < capacity - 1 {
      ModUnique(capacity, i + 1, 0, i + 1);
    } else {
      ModUnique(capacity, i + 1, 1, 0);
    }
  }

  lemma NextOfTicket(capacity: nat, t: nat)
    requires 0 < capacity
    ensures Next(capacity, t % capacity) == (t + 1) % capacity
  {
    var q, i := t / capacity, t % capacity;
    assert t + 1 == q * capacity + (i + 1);
    if i + 1 < capacity {
      ModUnique(capacity, t + 1, q, i + 1);
    } else {
      assert t + 1 == (q + 1) * capacity + 0;
      ModUnique(capacity, t + 1, q + 1, 0);
    }
  }

  lemma AtLeastOneLap(capacity: int, d: int)
    requires 0 < d && 0 <= capacity
    ensures d * capacity >= capacity
  {
    assert d * capacity == capacity + (d - 1) * capacity;
    assert 0 <= (d - 1) * capacity;
  }

  lemma LessThanALap(capacity: int, d: int)
    requires 0 < capacity && -capacity < d * capacity < capacity
    ensures d == 0
  {
    if 0 < d {
      AtLeastOneLap(capacity, d);
    } else if d < 0 {
      AtLeastOneLap(capacity, -d);
    }
  }

  lemma ModUnique(capacity: nat, t: nat, q: nat, i: nat)
    requires i < capacity && t == q * capacity + i
    ensures t % capacity == i
  {
    var q', i' := t / capacity, t % capacity;
    assert t == q' * capacity + i';
    assert (q' - q) * capacity == q' * capacity - q * capacity == i - i';
    LessThanALap(capacity, q' - q);
  }

  /** Two tickets less than one lap apart share a slot only when they are equal. */
  lemma SlotsDiffer(capacity: nat, a: nat, b: nat)
    requires a < b < a + capacity
    ensures a % capacity != b % capacity
  {
    var qa, qb := a / capacity, b / capacity;
    if a % capacity == b % capacity {
      assert b - a == qb * capacity - qa * capacity == (qb - qa) * capacity;
      LessThanALap(capacity, qb - qa);
    }
  }

  /** One full lap later the slot is the same. */
  lemma LapLater(capacity: nat, a: nat)
    requires 0 < capacity
    ensures (a + capacity) % capacity == a % capacity
  {
    ModUnique(capacity, a + capacity, a / capacity + 1, a % capacity);
  }
}
