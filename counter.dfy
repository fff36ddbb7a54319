/**
 * The state behind the `useCounter` hook (packages/shared/hooks/useCounter.js),
 * without React: the current `count` and the `initialValue` the hook was
 * last rendered with, which `reset` returns to.
 */
module Counter {

  class Counter {
    /** The `count` state. */
    var count: int
    /** The `initialValue` argument of the latest render. */
    var initial: int

    /** The first render, `useCounter(initialValue = 0)`: the count starts at the initial value. */
    constructor(initialValue: int := 0)
      ensures count == initialValue && initial == initialValue
    {
      count := initialValue;
      initial := initialValue;
    }

    /** `increment`: `setCount(prev => prev + 1)`. */
    method Increment()
      modifies this
      ensures count == old(count) + 1
      ensures initial == old(initial)
    {
      count := count + 1;
    }

    /** `decrement`: `setCount(prev => prev - 1)`. */
    method Decrement()
      modifies this
      ensures count == old(count) - 1
      ensures initial == old(initial)
    {
      count := count - 1;
    }

    /** `reset`: `setCount(initialValue)`, whatever the count was. */
    method Reset()
      modifies this
      ensures count == initial
      ensures initial == old(initial)
    {
      count := initial;
    }

    /**
     * A later render with `initialValue`: `useState` keeps the current
     * count, while `reset` is re-created over the new initial value.
     */
    method Rerender(initialValue: int)
      modifies this
      ensures initial == initialValue
      ensures count == old(count)
    {
      initial := initialValue;
    }
  }

  /** An increment followed by a decrement leaves the counter as it was. */
  method IncrementThenDecrement(c: Counter)
    modifies c
    ensures c.count == old(c.count) && c.initial == old(c.initial)
  {
    c.Increment();
    c.Decrement();
  }

  /**
   * A second reset changes nothing: the first already brings the count to
   * the initial value, which `afterFirst` records, and the second keeps it.
   */
  method ResetTwice(c: Counter) returns (afterFirst: int)
    modifies c
    ensures afterFirst == c.initial == old(c.initial)
    ensures c.count == afterFirst
  {
    c.Reset();
    afterFirst := c.count;
    c.Reset();
  }

  /**
   * The net effect of a sequence of calls, `true` for `increment` and
   * `false` for `decrement`: the number of increments less the number of
   * decrements, in whatever order they come.
   */
  function Net(ops: seq<bool>): (r: int)
    ensures r == multiset(ops)[true] as int - multiset(ops)[false] as int
  {
    if |ops| == 0 then 0
    else
      var init := ops[..|ops| - 1];
      assert ops == init + [ops[|ops| - 1]];
      Net(init) + (if ops[|ops| - 1] then 1 else -1)
  }

  /** Any interleaving of increments and decrements moves the count by their difference. */
  method ApplyChanges(c: Counter, ops: seq<bool>)
    modifies c
    ensures c.count == old(c.count) + Net(ops)
    ensures c.initial == old(c.initial)
  {
    for i := 0 to |ops|
      invariant c.count == old(c.count) + Net(ops[..i])
      invariant c.initial == old(c.initial)
    {
      assert ops[..i + 1][..i] == ops[..i];
      if ops[i] {
        c.Increment();
      } else {
        c.Decrement();
      }
    }
    assert ops[..|ops|] == ops;
  }

  /** A reset after any changes to the count returns to the initial value. */
  method ResetAfterChanges(c: Counter, ops: seq<bool>)
    modifies c
    ensures c.count == c.initial == old(c.initial)
  {
    ApplyChanges(c, ops);
    c.Reset();
  }

  /** From 5: increment, increment, decrement and reset pass through 6, 7, 6 and 5. */
  method Trace() returns (states: seq<int>)
    ensures states == [6, 7, 6, 5]
  {
    var c := new Counter(5);
    c.Increment();
    var first := c.count;
    c.Increment();
    var second := c.count;
    c.Decrement();
    var third := c.count;
    c.Reset();
    states := [first, second, third, c.count];
  }
}
