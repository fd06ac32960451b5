// An active object as a system of steps: any number of threads put deferred calls into a
// queue, one worker takes them out and runs them until it meets an empty call.
module ActiveProtocol {

  datatype Item = Call(id: nat) | Empty

  // Where the worker is: in front of its loop test, about to test the queue, asleep on the
  // condition variable, running what it took, or gone.
  datatype Pc = Looping | Testing | Asleep | Running(item: Item) | Done

  datatype State = State(
    queue: seq<Item>,
    notifies: nat,       // put, but not yet notified
    stop: bool,
    pc: Pc,
    put: seq<Item>,      // history
    taken: seq<Item>,
    executed: seq<Item>)

  // A call ends by returning or by throwing; the worker's loop catches exceptions.
  datatype Event = Put(x: Item) | Notify | Spurious | Loop | Test | Finish(throws: bool)

  function Init(): State {
    State([], 0, false, Looping, [], [], [])
  }

  predicate Enabled(s: State, e: Event) {
    match e
    case Put(_) => true
    case Notify => s.notifies > 0
    case Spurious => s.pc == Asleep
    case Loop => s.pc == Looping
    case Test => s.pc == Testing
    case Finish(throws) => s.pc.Running? && (throws ==> s.pc.item.Call?)
  }

  function Next(s: State, e: Event): State
    requires Enabled(s, e)
  {
    match e
    case Put(x) => s.(queue := s.queue + [x], put := s.put + [x], notifies := s.notifies + 1)
    case Notify => s.(notifies := s.notifies - 1, pc := if s.pc == Asleep then Testing else s.pc)
    case Spurious => s.(pc := Testing)
    case Loop => s.(pc := if s.stop then Done else Testing)
    case Test =>
      if s.queue == [] then s.(pc := Asleep)
      else s.(queue := s.queue[1..], taken := s.taken + [s.queue[0]], pc := Running(s.queue[0]))
    case Finish(_) =>
      if s.pc.item == Empty then s.(stop := true, pc := Looping)
      else s.(executed := s.executed + [s.pc.item], pc := Looping)
  }

  ghost predicate IsRun(s: State, es: seq<Event>)
    decreases |es|
  {
    es == [] || (Enabled(s, es[0]) && IsRun(Next(s, es[0]), es[1..]))
  }

  ghost function Run(s: State, es: seq<Event>): State
    requires IsRun(s, es)
    decreases |es|
  {
    if es == [] then s else Run(Next(s, es[0]), es[1..])
  }

  ghost predicate Reaches(s: State, t: State) {
    exists es :: IsRun(s, es) && Run(s, es) == t
  }

  lemma {:induction false} RunOneMore(s: State, es: seq<Event>, e: Event)
    requires IsRun(s, es) && Enabled(Run(s, es), e)
    ensures IsRun(s, es + [e]) && Run(s, es + [e]) == Next(Run(s, es), e)
    decreases |es|
  {
    if es == [] {
      assert IsRun(Next(s, e), []) && [e][1..] == [];
      assert [] + [e] == [e];
    } else {
      assert (es + [e])[1..] == es[1..] + [e];
      RunOneMore(Next(s, es[0]), es[1..], e);
    }
  }

  lemma ReachesNext(s: State, t: State, e: Event)
    requires Reaches(s, t) && Enabled(t, e)
    ensures Reaches(s, Next(t, e))
  {
    var es :| IsRun(s, es) && Run(s, es) == t;
    RunOneMore(s, es, e);
  }

  // Number of items before the first empty call, which may be missing.
  function FirstEmpty(q: seq<Item>): (k: nat)
    ensures k <= |q| && (k < |q| ==> q[k] == Empty) && forall i | 0 <= i < k :: q[i] != Empty
  {
    if q == [] || q[0] == Empty then 0 else 1 + FirstEmpty(q[1..])
  }

  ghost predicate Inv(s: State) {
    && s.put == s.taken + s.queue
    && (forall i | 0 <= i < |s.executed| :: s.executed[i] != Empty)
    && s.taken == s.executed + (if s.pc.Running? then [s.pc.item] else if s.stop then [Empty] else [])
    && (s.stop ==> s.pc == Looping || s.pc == Done)
    && (s.pc == Done ==> s.stop)
    && (s.pc == Asleep && s.queue != [] ==> s.notifies > 0)
  }

  lemma InvKept(s: State, e: Event)
    requires Inv(s) && Enabled(s, e)
    ensures Inv(Next(s, e))
  {
    var t := Next(s, e);
    match e {
      case Put(x) => assert s.taken + s.queue + [x] == s.taken + (s.queue + [x]);
      case Test =>
        if s.queue != [] {
          assert s.executed + [] == s.executed;
          assert s.taken + [s.queue[0]] + s.queue[1..] == s.taken + s.queue;
        }
      case Finish(_) => assert t.executed + [] == t.executed;
      case _ =>
    }
  }

  // In every interleaving what was put is what was taken followed by the queue, what was
  // executed is what was taken, and a worker asleep has a notification coming as soon as
  // there is an item.
  lemma {:induction false} InvAlways(s: State, es: seq<Event>)
    requires Inv(s) && IsRun(s, es)
    ensures Inv(Run(s, es))
    decreases |es|
  {
    if es != [] {
      InvKept(s, es[0]);
      InvAlways(Next(s, es[0]), es[1..]);
    }
  }

  // The executed calls are the first ones put, in order and once each, and none behind an
  // empty call. When the worker is gone, they are all the calls put before the first empty
  // one, whether they threw or not.
  lemma ExecutedInOrder(es: seq<Event>)
    requires IsRun(Init(), es)
    ensures var s := Run(Init(), es);
            && |s.executed| <= FirstEmpty(s.put) && s.executed == s.put[..|s.executed|]
            && (s.pc == Done ==> FirstEmpty(s.put) < |s.put| && s.executed == s.put[..FirstEmpty(s.put)])
  {
    InvAlways(Init(), es);
    var s := Run(Init(), es);
    assert s.executed <= s.taken <= s.put;
    if s.pc == Done {
      assert s.put[|s.executed|] == s.taken[|s.executed|] == Empty;
    }
  }

  // ---- termination ----

  ghost predicate Ending(s: State) {
    Inv(s) && FirstEmpty(s.put) < |s.put|
  }

  lemma EmptyAhead(s: State)
    requires Ending(s) && !s.stop && s.pc != Running(Empty)
    ensures FirstEmpty(s.queue) < |s.queue|
  {
    var k := FirstEmpty(s.put);
    assert forall i | 0 <= i < |s.taken| :: s.put[i] == s.taken[i] != Empty;
    assert s.queue[k - |s.taken|] == Empty;
  }

  // Number of steps of the worker until it is gone.
  ghost function Distance(s: State): nat {
    var k := FirstEmpty(s.queue);
    match s.pc
    case Done => 0
    case Looping => if s.stop then 1 else 3 * k + 4
    case Testing => 3 * k + 3
    case Asleep => 3 * k + 4
    case Running(item) => if item == Empty then 2 else 3 * k + 5
  }

  // A step of the worker, or one that wakes it.
  predicate Moves(s: State, e: Event) {
    match e
    case Put(_) => false
    case Notify => s.pc == Asleep
    case _ => true
  }

  lemma FirstEmptyAppend(q: seq<Item>, x: Item)
    requires FirstEmpty(q) < |q|
    ensures FirstEmpty(q + [x]) == FirstEmpty(q)
  {
    assert forall i | 0 <= i < |q| :: (q + [x])[i] == q[i];
  }

  // Once an empty call has been put, the worker needs exactly one step for each unit of
  // distance, whatever the other threads do meanwhile.
  lemma OneStepCloser(s: State, e: Event)
    requires Ending(s) && Enabled(s, e)
    ensures Ending(Next(s, e))
    ensures Distance(Next(s, e)) == Distance(s) - if Moves(s, e) then 1 else 0
  {
    InvKept(s, e);
    if !s.stop && s.pc != Running(Empty) {
      EmptyAhead(s);
    }
    match e {
      case Put(x) =>
        FirstEmptyAppend(s.put, x);
        if !s.stop && s.pc != Running(Empty) {
          FirstEmptyAppend(s.queue, x);
        }
      case _ =>
    }
  }

  ghost function CountMoves(s: State, es: seq<Event>): nat
    requires IsRun(s, es)
    decreases |es|
  {
    if es == [] then 0 else (if Moves(s, es[0]) then 1 else 0) + CountMoves(Next(s, es[0]), es[1..])
  }

  // After `shutdown` has put its empty call, the worker is gone exactly when it has made a
  // number of steps that is known in advance.
  lemma {:induction false} EndsOnTime(s: State, es: seq<Event>)
    requires Ending(s) && IsRun(s, es)
    ensures CountMoves(s, es) <= Distance(s)
    ensures Run(s, es).pc == Done <==> CountMoves(s, es) == Distance(s)
    decreases |es|
  {
    if es == [] {
      assert Distance(s) == 0 <==> s.pc == Done;
    } else {
      OneStepCloser(s, es[0]);
      EndsOnTime(Next(s, es[0]), es[1..]);
    }
  }

  // Until then it is never stuck: it can move, or a notification that is under way lets it.
  lemma NeverStuck(s: State)
    requires Ending(s) && s.pc != Done
    ensures exists e: Event :: !e.Put? && Enabled(s, e) && Moves(s, e) && !e.Spurious?
  {
    match s.pc {
      case Looping => assert Enabled(s, Loop) && Moves(s, Loop);
      case Testing => assert Enabled(s, Test) && Moves(s, Test);
      case Asleep =>
        EmptyAhead(s);
        assert Enabled(s, Notify) && Moves(s, Notify);
      case Running(_) => assert Enabled(s, Finish(false)) && Moves(s, Finish(false));
    }
  }

  // Anything can be put at any time; whoever has put something notifies; a sleeping worker may
  // wake up for no reason; and a call ends by returning or by throwing.
  lemma WhatCanHappen(s: State, x: Item, throws: bool)
    ensures Enabled(s, Put(x)) && Next(s, Put(x)).queue == s.queue + [x]
    ensures Enabled(s, Notify) <==> s.notifies > 0
    ensures s.pc == Asleep ==> Enabled(s, Spurious) && Enabled(Next(s, Spurious), Test)
    ensures s.pc.Running? && s.pc.item.Call? ==>
              Enabled(s, Finish(throws)) && Next(s, Finish(throws)).executed == s.executed + [s.pc.item]
              && Enabled(Next(s, Finish(throws)), Loop)
  {
  }
}
