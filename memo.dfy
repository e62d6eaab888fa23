/**
 * The memoised Fibonacci of rust/src/tasks.rs.  `fib(n)` builds a table of n + 1 empty
 * `Option` slots and `fib_helper` fills it: slot k, once filled, holds F(k) and keeps it.
 * The per-slot mutexes and the `async` calls serialise to plain field updates here.
 */
module MemoFib {
  import opened Wrappers
  import opened Fibonacci

  /** The `Vec<Arc<Mutex<Option<usize>>>>` of one `fib` call. */
  class MemoTable {
    var slots: seq<Option<nat>>

    /** Every filled slot k holds F(k). */
    ghost predicate Valid()
      reads this
    {
      forall k | 0 <= k < |slots| :: SlotOk(slots, k)
    }

    /** `Vec::new()`: no slots. */
    constructor ()
      ensures slots == [] && Valid()
    {
      slots := [];
    }

    /** `push(Arc::new(Mutex::new(Option::None)))`: one more empty slot. */
    method PushEmpty()
      requires Valid()
      modifies this
      ensures slots == old(slots) + [None] && Valid()
    {
      slots := slots + [None];
      assert forall k | 0 <= k < |slots| :: SlotOk(slots, k) by {
        forall k | 0 <= k < |slots|
          ensures SlotOk(slots, k)
        {
          if k < |old(slots)| {
            assert SlotOk(old(slots), k);
          }
        }
      }
    }

    /**
     * `fib_helper(n, results)`: a filled slot n is returned as it is, with no slot
     * written.  Otherwise the value is 0 for n = 0, 1 for n = 1, and
     * `fib_helper(n-1) + fib_helper(n-2)` beyond, and it is stored in slot n.  The value
     * is F(n); only empty slots at or below n are written, and a filled slot never changes.
     */
    method FibHelper(n: nat) returns (value: nat)
      requires n < |slots| && Valid()
      modifies this
      ensures value == Fib(n) && Valid()
      ensures |slots| == |old(slots)| && slots[n] == Some(value)
      ensures forall k | 0 <= k < |slots| && old(slots)[k].Some? :: slots[k] == old(slots)[k]
      ensures forall k | n < k < |slots| :: slots[k] == old(slots)[k]
      ensures old(slots)[n].Some? ==> slots == old(slots)
      decreases n
    {
      var result := slots[n];
      if result.Some? {
        assert SlotOk(slots, n);
        return result.value;
      }
      if n == 0 {
        value := 0;
      } else if n == 1 {
        value := 1;
      } else {
        var a := FibHelper(n - 1);
        var b := FibHelper(n - 2);
        value := a + b;
      }
      ghost var before := slots;
      slots := slots[n := Some(value)];
      assert forall k | 0 <= k < |slots| :: SlotOk(slots, k) by {
        forall k | 0 <= k < |slots|
          ensures SlotOk(slots, k)
        {
          if k != n {
            assert SlotOk(before, k);
          }
        }
      }
    }
  }

  /** Slot k is empty or holds F(k). */
  ghost predicate SlotOk(slots: seq<Option<nat>>, k: nat)
    requires k < |slots|
  {
    slots[k].Some? ==> slots[k].value == Fib(k)
  }

  /**
   * The first half of `fib(n)`: `Vec::new()` and the loop `for _ in 0..=n`, which pushes
   * one empty slot per round, so the table starts with exactly n + 1 empty slots.
   */
  method NewTable(n: nat) returns (table: MemoTable)
    ensures fresh(table)
    ensures table.slots == seq(n + 1, k => None) && table.Valid()
  {
    table := new MemoTable();
    var i := 0;
    while i <= n
      invariant 0 <= i <= n + 1
      invariant |table.slots| == i && table.Valid()
      invariant forall k | 0 <= k < i :: table.slots[k] == None
    {
      table.PushEmpty();
      i := i + 1;
    }
  }

  /**
   * `fib(n)`: `fib_helper(n)` on the fresh table of n + 1 empty slots.  The result is
   * F(n); the table is returned, with slot n holding the result and every filled slot k
   * holding F(k).
   */
  method MemoizedFib(n: nat) returns (r: nat, table: MemoTable)
    ensures r == Fib(n)
    ensures fresh(table) && table.Valid()
    ensures |table.slots| == n + 1 && table.slots[n] == Some(r)
  {
    table := NewTable(n);
    r := table.FibHelper(n);
  }
}
