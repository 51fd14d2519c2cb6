/** The concurrency limiter of `limitConcurrent` in `src/util.ts`, as the
    state machine its closure keeps: a counter of calls in flight and a FIFO
    queue of calls waiting for a slot. Each promise is an abstract call id;
    a call arrives (`Call`), and later the promise of a call in flight
    settles, successfully or not (`Settle`). */
module Limiter {
  import opened Wrappers

  type CallId = nat

  /** How the promise of one call settled. The payloads are opaque. */
  datatype Settlement = Fulfilled(value: int) | Rejected(reason: int)

  class Limiter {
    /** `num`: how many calls may be in flight at once. */
    const num: int
    /** `concurrent`: how many calls are in flight. */
    var concurrent: int
    /** `waiting`: the queued calls, oldest first (`push` at the back,
        `shift` at the front). */
    var waiting: seq<CallId>

    /** The calls in flight. */
    ghost var running: set<CallId>
    /** Every call that has arrived. */
    ghost var issued: set<CallId>
    /** What each caller has received from its own promise. */
    ghost var delivered: map<CallId, Settlement>

    /** The slots `num` provides: a limit below 1 lets no call start. */
    function Slots(): nat {
      if num >= 0 then num else 0
    }

    ghost predicate Valid()
      reads this
    {
      && concurrent == |running|
      && 0 <= concurrent <= Slots()
      && (waiting != [] ==> concurrent == Slots())
      && (forall i :: 0 <= i < |waiting| ==>
            waiting[i] in issued && waiting[i] !in running && waiting[i] !in delivered)
      && (forall i, j :: 0 <= i < j < |waiting| ==> waiting[i] != waiting[j])
      && running <= issued
      && delivered.Keys <= issued
      && (forall id :: id in running ==> id !in delivered)
    }

    /** The calls whose caller still waits for a result. */
    ghost function Outstanding(): nat
      reads this
    {
      |running| + |waiting|
    }

    /** `limitConcurrent(num, func)`: nothing in flight, nothing queued. */
    constructor (num: int)
      ensures Valid()
      ensures this.num == num && concurrent == 0 && waiting == []
      ensures running == {} && issued == {} && delivered == map[]
    {
      this.num := num;
      concurrent := 0;
      waiting := [];
      running := {};
      issued := {};
      delivered := map[];
    }

    /** `limitedFunc(...args)`: the call starts at once when fewer than
        `num` calls are in flight, and is queued otherwise. A call never
        starts ahead of a queued one: it starts only when the queue is
        empty. */
    method Call(id: CallId) returns (dispatched: bool)
      requires Valid() && id !in issued
      modifies this
      ensures Valid()
      ensures dispatched <==> old(concurrent) < num
      ensures dispatched ==> old(waiting) == []
      ensures dispatched ==>
                concurrent == old(concurrent) + 1 && running == old(running) + {id} &&
                waiting == old(waiting)
      ensures !dispatched ==>
                concurrent == old(concurrent) && running == old(running) &&
                waiting == old(waiting) + [id]
      ensures issued == old(issued) + {id} && delivered == old(delivered)
      ensures Outstanding() == old(Outstanding()) + 1
    {
      issued := issued + {id};
      if concurrent < num {
        // call(...args)
        concurrent := concurrent + 1;
        running := running + {id};
        dispatched := true;
      } else {
        // waiting.push(funcForLater)
        waiting := waiting + [id];
        dispatched := false;
      }
    }

    /** The `finally` of a call in flight, reached on success and on failure
        alike: the outcome goes to that call's own caller, the slot is
        freed, and `next()` starts the oldest queued call, if any. */
    method Settle(id: CallId, outcome: Settlement) returns (started: Option<CallId>)
      requires Valid() && id in running
      modifies this
      ensures Valid()
      ensures delivered == old(delivered)[id := outcome]
      ensures started == (if old(waiting) == [] then None else Some(old(waiting)[0]))
      ensures waiting == (if old(waiting) == [] then [] else old(waiting)[1..])
      ensures started.None? ==>
                running == old(running) - {id} && concurrent == old(concurrent) - 1
      ensures started.Some? ==>
                running == old(running) - {id} + {started.value} && concurrent == old(concurrent)
      ensures issued == old(issued)
      ensures Outstanding() == old(Outstanding()) - 1
    {
      delivered := delivered[id := outcome];
      // concurrent -= 1
      concurrent := concurrent - 1;
      running := running - {id};
      // next()
      started := None;
      if concurrent < num {
        if waiting != [] {
          var nextCall := waiting[0];
          waiting := waiting[1..];
          // funcForLater() runs call(...args) at once
          concurrent := concurrent + 1;
          running := running + {nextCall};
          started := Some(nextCall);
        }
      }
    }
  }

  /** Four calls through `limitConcurrent(1, ...)`: one runs, three queue,
      and each settle (one of them a failure) starts the next in arrival
      order, until all four callers have their results. */
  method OneSlotScenario()
  {
    var one := new Limiter(1);
    assert one.Slots() == 1;
    var d0 := one.Call(0);
    var d1 := one.Call(1);
    var d2 := one.Call(2);
    var d3 := one.Call(3);
    assert d0 && !d1 && !d2 && !d3;
    assert one.waiting == [1, 2, 3];
    var s := one.Settle(0, Fulfilled(10));
    assert s == Some(1);
    s := one.Settle(1, Rejected(7));
    assert s == Some(2);
    s := one.Settle(2, Fulfilled(12));
    assert s == Some(3);
    s := one.Settle(3, Fulfilled(13));
    assert s == None && one.Outstanding() == 0;
    assert one.delivered[1] == Rejected(7);
  }

  /** With `num <= 0` every call queues and none runs. */
  method NoSlotScenario()
  {
    var none := new Limiter(0);
    var e0 := none.Call(0);
    var e1 := none.Call(1);
    assert !e0 && !e1 && none.concurrent == 0 && none.waiting == [0, 1];
  }
}
