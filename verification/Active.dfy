// The active object's queue and worker loop. Every operation is tied to the steps of the
// protocol that it performs. What the other threads do is given by a schedule: the items
// they put while the worker waits or runs a call.
module ActiveObjects {
  import P = ActiveProtocol
  type Item = P.Item

  type Schedule = nat -> seq<Item>

  class ActiveQueue {
    var queue: seq<Item>
    const others: Schedule
    var tick: nat             // how often the others have had their turn

    ghost var spec: P.State   // the queue, its users and the worker in the protocol

    ghost predicate Valid()
      reads this
    {
      spec.queue == queue && P.Reaches(P.Init(), spec)
    }

    // The protocol makes a step.
    ghost method Step(e: P.Event)
      requires P.Reaches(P.Init(), spec) && P.Enabled(spec, e)
      modifies this`spec
      ensures P.Reaches(P.Init(), spec) && spec == P.Next(old(spec), e)
    {
      P.ReachesNext(P.Init(), spec, e);
      spec := P.Next(spec, e);
    }

    constructor (others: Schedule)
      ensures this.others == others && Valid() && spec == P.Init() && tick == 0
    {
      this.others := others;
      queue, tick := [], 0;
      spec := P.Init();
      assert P.IsRun(P.Init(), []) && P.Run(P.Init(), []) == P.Init();
    }

    // Adds the item under the lock and notifies after its release.
    method Put(x: Item)
      requires Valid()
      modifies this`queue, this`spec
      ensures Valid() && queue == old(queue) + [x]
      ensures spec == P.Next(P.Next(old(spec), P.Put(x)), P.Notify)
    {
      queue := queue + [x];
      Step(P.Put(x));
      Step(P.Notify);
    }

    // Nothing but puts has happened. A worker asleep has been woken if there were any.
    twostate predicate Grown(xs: seq<Item>)
      reads this
    {
      && queue == old(queue) + xs && spec.put == old(spec.put) + xs
      && spec.taken == old(spec.taken) && spec.executed == old(spec.executed) && spec.stop == old(spec.stop)
      && spec.pc == if xs != [] && old(spec.pc) == P.Asleep then P.Testing else old(spec.pc)
    }

    method PutAll(xs: seq<Item>)
      requires Valid()
      modifies this`queue, this`spec
      ensures Valid() && Grown(xs)
    {
      for i := 0 to |xs|
        invariant Valid() && Grown(xs[..i])
      {
        assert xs[..i + 1] == xs[..i] + [xs[i]];
        Put(xs[i]);
      }
      assert xs[..|xs|] == xs;
    }

    // The other threads have their turn.
    method Yield()
      requires Valid()
      modifies this
      ensures Valid() && tick == old(tick) + 1 && Grown(others(old(tick)))
    {
      PutAll(others(tick));
      tick := tick + 1;
    }

    // Sleeps on the condition variable: until a notification, or for no reason.
    method Wait()
      requires Valid() && spec.pc == P.Asleep
      modifies this
      ensures Valid() && tick == old(tick) + 1 && spec.pc == P.Testing
      ensures queue == old(queue) + others(old(tick)) && spec.executed == old(spec.executed)
      ensures spec.taken == old(spec.taken) && spec.stop == old(spec.stop)
    {
      Yield();
      if spec.pc == P.Asleep {
        Step(P.Spurious);
      }
    }

    // Takes the first item. While there is none it waits, and looks again whenever it
    // wakes up. Something is put in turn n at the latest.
    method Get(ghost n: nat) returns (item: Item)
      requires Valid() && spec.pc == P.Testing && (queue != [] || (tick <= n && others(n) != []))
      modifies this
      ensures Valid() && spec.pc == P.Running(item) && tick >= old(tick)
      ensures spec.taken == old(spec.taken) + [item]
      ensures spec.executed == old(spec.executed) && spec.stop == old(spec.stop)
      ensures old(queue) != [] ==> [item] + queue == old(queue) && tick == old(tick)
      ensures old(queue) == [] ==> old(tick) < tick <= n + 1 && [item] + queue == others(tick - 1)
    {
      while queue == []
        invariant Valid() && spec.pc == P.Testing && tick >= old(tick)
        invariant spec.taken == old(spec.taken) && spec.executed == old(spec.executed) && spec.stop == old(spec.stop)
        invariant queue != [] || (tick <= n && others(n) != [])
        invariant if old(queue) != [] || tick == old(tick) then queue == old(queue) && tick == old(tick)
                  else tick <= n + 1 && queue == others(tick - 1)
        decreases n + 1 - tick, queue == []
      {
        Step(P.Test);
        Wait();
      }
      Step(P.Test);
      item := queue[0];
      queue := queue[1..];
    }
  }

  class ActiveObject {
    const queue: ActiveQueue
    const body: Item -> (seq<Item>, bool)   // what a call puts itself, and whether it throws
    var terminationRequested: bool
    ghost var executed: seq<Item>           // the calls that were run, as the worker sees it

    ghost predicate Valid()
      reads this, queue
    {
      queue.Valid() && queue.spec.stop == terminationRequested && queue.spec.executed == executed
    }

    // An empty call is in the queue, or will be put in turn n.
    ghost predicate EndsBy(n: nat)
      reads queue
    {
      P.Empty in queue.queue || (queue.tick <= n && P.Empty in queue.others(n))
    }

    constructor (others: Schedule, body: Item -> (seq<Item>, bool))
      ensures Valid() && !terminationRequested && executed == [] && fresh(queue)
      ensures queue.spec == P.Init() && queue.tick == 0 && queue.others == others && this.body == body
    {
      queue := new ActiveQueue(others);
      this.body := body;
      terminationRequested, executed := false, [];
    }

    method Enqueue(call: Item)
      requires Valid()
      modifies queue
      ensures Valid() && queue.spec == P.Next(P.Next(old(queue.spec), P.Put(call)), P.Notify)
    {
      queue.Put(call);
    }

    // An empty call asks the worker to terminate, behind everything that was put before.
    method Shutdown()
      requires Valid()
      modifies queue
      ensures Valid() && queue.spec == P.Next(P.Next(old(queue.spec), P.Put(P.Empty)), P.Notify) && EndsBy(0)
    {
      queue.Put(P.Empty);
    }

    // One round of the worker, during which the others also have their turn: takes one item
    // in front of `rest`. What a call puts itself and then what the others put follows.
    method Action(ghost n: nat) returns (threw: bool, ghost call: Item, ghost rest: seq<Item>)
      requires Valid() && EndsBy(n) && queue.spec.pc == P.Testing && !terminationRequested
      modifies this, queue
      ensures Valid() && queue.spec.pc == P.Looping && queue.tick > old(queue.tick)
      ensures old(queue.queue) != [] ==> [call] + rest == old(queue.queue)
      ensures old(queue.tick) > n ==> old(queue.queue) != []
      ensures terminationRequested <==> call == P.Empty
      ensures executed == old(executed) + if call == P.Empty then [] else [call]
      ensures threw == (call != P.Empty && body(call).1)
      ensures queue.queue == rest + (if call == P.Empty then [] else body(call).0) + queue.others(queue.tick - 1)
      ensures terminationRequested || EndsBy(n)
    {
      ghost var q := queue.queue;
      var taken := queue.Get(n);
      call, rest := taken, queue.queue;
      threw := Perform(taken);
      queue.Yield();
      assert call != P.Empty ==> rest <= queue.queue && (q != [] && P.Empty in q ==> P.Empty in rest);
    }

    method Perform(call: Item) returns (threw: bool)
      requires Valid() && queue.spec.pc == P.Running(call)
      modifies this, queue
      ensures Valid() && queue.spec.pc == P.Looping
      ensures terminationRequested == (old(terminationRequested) || call == P.Empty)
      ensures executed == old(executed) + if call == P.Empty then [] else [call]
      ensures threw == (call != P.Empty && body(call).1)
      ensures queue.queue == old(queue.queue) + (if call == P.Empty then [] else body(call).0)
      ensures queue.tick == old(queue.tick) && old(queue.queue) <= queue.queue
    {
      threw := false;
      if call == P.Empty {
        terminationRequested := true;
      } else {
        queue.PutAll(body(call).0);
        threw := body(call).1;
        executed := executed + [call];
      }
      queue.Step(P.Finish(threw));
    }

    // The worker's loop; exceptions are caught. It is a run of the protocol up to the
    // worker's end: the calls put before the first empty one have been executed in order,
    // and nothing else has been.
    method Run(ghost n: nat)
      requires Valid() && EndsBy(n) && queue.spec.pc == P.Looping && !terminationRequested
      modifies this, queue
      ensures Valid() && queue.spec.pc == P.Done
      ensures var put := queue.spec.put; P.FirstEmpty(put) < |put| && executed == put[..P.FirstEmpty(put)]
    {
      while !terminationRequested
        invariant Valid() && queue.spec.pc == P.Looping && (terminationRequested || EndsBy(n))
        decreases !terminationRequested, if queue.tick <= n then n + 1 - queue.tick else 0, P.FirstEmpty(queue.queue)
      {
        ghost var q, late := queue.queue, queue.tick > n;
        queue.Step(P.Loop);
        ghost var call, rest;
        var threw;
        threw, call, rest := Action(n);
        if late && call != P.Empty {
          OneTaken(q, call, rest, queue.queue);
        }
      }
      queue.Step(P.Loop);
      AtTheEnd(queue.spec);
    }
  }

  // Without its first call, and with more behind it, a queue has its empty call one place
  // further to the front.
  lemma OneTaken(q: seq<Item>, call: Item, rest: seq<Item>, after: seq<Item>)
    requires q == [call] + rest && call != P.Empty && P.Empty in q && rest <= after
    ensures P.FirstEmpty(after) == P.FirstEmpty(q) - 1
  {
    assert q[1..] == rest;
    var k := P.FirstEmpty(rest);
    assert k < |rest| && after[k] == P.Empty && forall i | 0 <= i < k :: after[i] == rest[i];
  }

  lemma AtTheEnd(s: P.State)
    requires P.Reaches(P.Init(), s) && s.pc == P.Done
    ensures P.FirstEmpty(s.put) < |s.put| && s.executed == s.put[..P.FirstEmpty(s.put)]
  {
    var es :| P.IsRun(P.Init(), es) && P.Run(P.Init(), es) == s;
    P.ExecutedInOrder(es);
  }
}
