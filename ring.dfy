/**
 * The circular-buffer arithmetic of the pool's task queue (c/threadpool.c):
 * the tasks held are the `size` slots read from `front`, wrapping around the
 * end of the buffer, and `rear == (front + size) % capacity` is the next free slot.
 */
module Ring {

  /** True when `front`/`size` describe a legal window on a buffer of `capacity` slots. */
  predicate Window(capacity: int, front: int, size: int)
  {
    capacity > 0 && 0 <= front < capacity && 0 <= size <= capacity
  }

  /** `x % c` for 0 <= x < 2c: no reduction, or one subtraction of c. */
  lemma {:induction false} ModSmall(x: int, c: int)
    requires c > 0 && 0 <= x < 2 * c
    ensures x % c == if x < c then x else x - c
  {
    if x >= c {
      assert x == 1 * c + (x - c);
    }
  }

  /** The tasks held by the ring, oldest first: `size` slots starting at `front`. */
  function Slots<T>(buf: seq<T>, front: int, size: int): (r: seq<T>)
    requires Window(|buf|, front, size)
    decreases size
  {
    if size == 0 then []
    else
      ModSmall(front + 1, |buf|);
      [buf[front]] + Slots(buf, (front + 1) % |buf|, size - 1)
  }

  /** The window holds exactly `size` tasks. */
  lemma {:induction false} SlotsLength<T>(buf: seq<T>, front: int, size: int)
    requires Window(|buf|, front, size)
    ensures |Slots(buf, front, size)| == size
    decreases size
  {
    if size > 0 {
      ModSmall(front + 1, |buf|);
      SlotsLength(buf, (front + 1) % |buf|, size - 1);
    }
  }

  /** The k-th oldest task sits in slot `(front + k) % capacity`. */
  lemma {:induction false} SlotsAt<T>(buf: seq<T>, front: int, size: int, k: int)
    requires Window(|buf|, front, size) && 0 <= k < size
    ensures |Slots(buf, front, size)| == size
    ensures Slots(buf, front, size)[k] == buf[(front + k) % |buf|]
    decreases size
  {
    SlotsLength(buf, front, size);
    ModSmall(front + k, |buf|);
    if k > 0 {
      var front' := (front + 1) % |buf|;
      ModSmall(front + 1, |buf|);
      SlotsAt(buf, front', size - 1, k - 1);
      ModSmall(front' + k - 1, |buf|);
    }
  }

  /**
   * Storing x in the free slot `(front + size) % capacity` of a ring that is not full
   * appends x after every task already held: the queue stays FIFO.
   */
  lemma {:induction false} SlotsPush<T>(buf: seq<T>, front: int, size: int, x: T)
    requires Window(|buf|, front, size) && size < |buf|
    ensures (front + size) % |buf| < |buf|
    ensures Slots(buf[(front + size) % |buf| := x], front, size + 1) == Slots(buf, front, size) + [x]
    decreases size
  {
    var c := |buf|;
    ModSmall(front + size, c);
    ModSmall(front + 1, c);
    var rear := (front + size) % c;
    var buf' := buf[rear := x];
    var front' := (front + 1) % c;
    if size == 0 {
      assert Slots(buf', front', 0) == [];
    } else {
      ModSmall(front' + size - 1, c);
      assert (front' + (size - 1)) % c == rear;
      SlotsPush(buf, front', size - 1, x);
      assert buf'[front] == buf[front];
      calc {
        Slots(buf', front, size + 1);
        [buf'[front]] + Slots(buf', front', size);
        [buf[front]] + (Slots(buf, front', size - 1) + [x]);
        ([buf[front]] + Slots(buf, front', size - 1)) + [x];
        Slots(buf, front, size) + [x];
      }
    }
  }

  /**
   * One push on the ring as the pool performs it: the free slot `rear` is written,
   * `rear` advances by one with wrap-around and stays `(front + size) % capacity`,
   * and the tasks held gain x at the end.
   */
  lemma {:induction false} PushStep<T>(buf: seq<T>, front: int, size: int, rear: int, x: T)
    requires Window(|buf|, front, size) && size < |buf| && rear == (front + size) % |buf|
    ensures 0 <= rear < |buf| && Window(|buf|, front, size + 1)
    ensures (rear + 1) % |buf| == (front + (size + 1)) % |buf|
    ensures Slots(buf[rear := x], front, size + 1) == Slots(buf, front, size) + [x]
  {
    SlotsPush(buf, front, size, x);
    ModSmall(front + size, |buf|);
    ModSmall(rear + 1, |buf|);
    ModSmall(front + size + 1, |buf|);
  }

  /**
   * One pop on the ring as the pool performs it: `front` advances by one with
   * wrap-around, `rear` is still `(front + size) % capacity`, and the first task
   * held is gone.
   */
  lemma {:induction false} PopStep<T>(buf: seq<T>, front: int, size: int, rear: int)
    requires Window(|buf|, front, size) && size > 0 && rear == (front + size) % |buf|
    ensures Window(|buf|, (front + 1) % |buf|, size - 1)
    ensures rear == ((front + 1) % |buf| + (size - 1)) % |buf|
    ensures Slots(buf, front, size) == [buf[front]] + Slots(buf, (front + 1) % |buf|, size - 1)
  {
    ModSmall(front + 1, |buf|);
    ModSmall(front + size, |buf|);
    ModSmall((front + 1) % |buf| + (size - 1), |buf|);
  }

}
