// What the timer thread does get done: due timers fire, list changes are seen, and a request
// to stop is obeyed; and what it leaves alone: removed and freshly reset timers.
module TimerProgress {
  import opened Seqs
  import opened TimerProtocol

  // ---- the end of a wait ----

  // A wait that ends at its deadline fires the timer exactly if it is still at the back of
  // the list with the trigger time that was slept for. Otherwise nothing happens to it.
  lemma TimeoutFiresIff(s: State)
    requires Enabled(s, Timeout)
    ensures var n, t := Next(s, Timeout), s.pc.best;
            if s.order != [] && s.order[|s.order| - 1] == t && s.trigger[t] == s.pc.deadline then
              && n.fired == s.fired + [Firing(t, s.now)] && n.trigger == s.trigger[t := s.now + s.interval[t]]
              && n.pc == Calling(t) && n.order == s.order
            else n == s.(pc := Deciding)
  {
  }

  // ---- due timers fire ----

  // The worker is about to choose a timer, all of them with an interval that is no deadline
  // in the past.
  ghost predicate Choosing(s: State) {
    && InRange(s) && Distinct(s.order) && s.pc == Deciding && !s.cancel
    && |s.trigger| == |s.interval| && forall u | 0 <= u < |s.interval| :: s.interval[u] >= 0
  }

  // The first of the timers with the smallest trigger time has fired.
  function Fired(s: State, k: nat): State
    requires k < |s.order| && s.order[k] < |s.trigger| && s.order[k] < |s.interval|
  {
    var t := s.order[k];
    s.(order := MoveToBack(s.order, k), trigger := s.trigger[t := s.now + s.interval[t]],
       fired := s.fired + [Firing(t, s.now)])
  }

  // It sleeps until that timer's time.
  function Asleep(s: State, k: nat): State
    requires k < |s.order| && s.order[k] < |s.trigger|
  {
    var t := s.order[k];
    s.(order := MoveToBack(s.order, k), pc := Sleeping(t, s.trigger[t], s.trigger[t], false))
  }

  lemma OneRound(start: State, s: State, k: nat)
    requires Chooses(start, s) && Choosing(s) && k < |s.order| && FirstMin(s.order, s.trigger, k)
    requires s.trigger[s.order[k]] <= s.now
    ensures Chooses(start, Fired(s, k))
  {
    UndisturbedChoice(s, k);
    ChoosesThen(start, s, Asleep(s, k));
    FireAndReturn(start, s, k);
  }

  lemma FireAndReturn(start: State, s: State, k: nat)
    requires Choosing(s) && k < |s.order| && s.trigger[s.order[k]] <= s.now && Chooses(start, Asleep(s, k))
    ensures Chooses(start, Fired(s, k))
  {
    var t, asleep := s.order[k], Asleep(s, k);
    var calling := Fired(s, k).(pc := Calling(t));
    TimeoutCalls(s, k);
    ChoosesNext(start, asleep, Timeout, calling);
    ChoosesNext(start, calling, Return, Fired(s, k));
  }

  lemma TimeoutCalls(s: State, k: nat)
    requires Choosing(s) && k < |s.order| && s.trigger[s.order[k]] <= s.now
    ensures Enabled(Asleep(s, k), Timeout)
    ensures Next(Asleep(s, k), Timeout) == Fired(s, k).(pc := Calling(s.order[k]))
  {
    assert Last(Asleep(s, k).order) == s.order[k];
  }

  lemma ChoosesThen(a: State, b: State, c: State)
    requires Chooses(a, b) && Chooses(b, c)
    ensures Chooses(a, c)
  {
    var es :| IsRun(b, es) && (forall e | e in es :: WorkerStep(e)) && Run(b, es) == c;
    ChoosesRun(a, b, es);
  }

  lemma {:induction false} ChoosesRun(a: State, b: State, es: seq<Event>)
    requires Chooses(a, b) && IsRun(b, es) && forall e | e in es :: WorkerStep(e)
    ensures Chooses(a, Run(b, es))
  {
    if es != [] {
      assert forall e | e in Front(es) :: e in es;
      ChoosesRun(a, b, Front(es));
      assert Last(es) in es;
      ChoosesNext(a, Run(b, Front(es)), Last(es), Run(b, es));
    }
  }

  // The timers that may still be chosen before t.
  ghost function Rivals(s: State, t: Timer): set<Timer>
    requires Choosing(s) && t in s.order
  {
    set u | u in s.order && u != t && !(s.trigger[t] <= s.trigger[u] && Ahead(s.order, t, u))
  }

  lemma SmallestExists(s: State) returns (k: nat)
    requires Choosing(s) && s.order != []
    ensures k < |s.order| && FirstMin(s.order, s.trigger, k)
  {
    k := Best(s, |s.order|);
    BestIsFirstMin(s, |s.order|);
  }

  // A timer that fires before t is one of the rivals, and then no longer.
  lemma RivalFires(s: State, k: nat, t: Timer)
    requires Choosing(s) && k < |s.order| && FirstMin(s.order, s.trigger, k)
    requires t in s.order && s.trigger[t] <= s.now && s.order[k] != t
    ensures Choosing(Fired(s, k)) && t in Fired(s, k).order
    ensures s.order[k] in Rivals(s, t) && Rivals(Fired(s, k), t) <= Rivals(s, t) - {s.order[k]}
  {
    var n, u := Fired(s, k), s.order[k];
    MoveToBackSame(s.order, k);
    ChosenIsRival(s, k, t);
    forall v | v in Rivals(n, t) ensures v in Rivals(s, t) && v != u {
      BackIsBehind(s.order, k, t);
      if v != u && Ahead(s.order, t, v) {
        AheadKept(s.order, k, t, v);
      }
    }
  }

  lemma ChosenIsRival(s: State, k: nat, t: Timer)
    requires Choosing(s) && k < |s.order| && FirstMin(s.order, s.trigger, k) && t in s.order && s.order[k] != t
    ensures s.order[k] in Rivals(s, t)
  {
    var i :| 0 <= i < |s.order| && s.order[i] == t;
    if Ahead(s.order, t, s.order[k]) {
      assert i < k;
    }
  }

  lemma BackIsBehind(order: seq<Timer>, k: nat, t: Timer)
    requires k < |order| && Distinct(order) && t in order && order[k] != t
    ensures Ahead(MoveToBack(order, k), t, order[k])
  {
    MoveToBackSame(order, k);
  }

  // Whatever else is listed, a timer that is due fires after at most as many rounds of the
  // worker as there are timers, if nobody else takes a step.
  lemma DueTimerFires(s: State, t: Timer) returns (n: State)
    requires Choosing(s) && t in s.order && s.trigger[t] <= s.now
    ensures Chooses(s, n) && Choosing(n) && n.now == s.now
    ensures s.fired < n.fired && Last(n.fired) == Firing(t, s.now) && |n.fired| <= |s.fired| + |s.order|
    ensures t < |n.trigger| && n.trigger[t] == s.now + s.interval[t]
  {
    assert IsRun(s, []) && Run(s, []) == s;
    n := FiresFrom(s, s, t);
    FewRivals(s, t);
  }

  lemma {:induction false} FiresFrom(start: State, s: State, t: Timer) returns (n: State)
    requires Chooses(start, s) && Choosing(s) && t in s.order && s.trigger[t] <= s.now
    ensures Chooses(start, n) && Choosing(n) && n.now == s.now
    ensures s.fired < n.fired && Last(n.fired) == Firing(t, s.now) && |n.fired| <= |s.fired| + |Rivals(s, t)| + 1
    ensures t < |n.trigger| && n.trigger[t] == s.now + s.interval[t]
    decreases |Rivals(s, t)|
  {
    var k := SmallestExists(s);
    OneRound(start, s, k);
    n := Fired(s, k);
    MoveToBackSame(s.order, k);
    if s.order[k] != t {
      RivalFires(s, k, t);
      FewerRivals(Rivals(n, t), Rivals(s, t), s.order[k]);
      n := FiresFrom(start, n, t);
    }
  }

  lemma FewerRivals(a: set<Timer>, b: set<Timer>, u: Timer)
    requires u in b && a <= b - {u}
    ensures |a| < |b|
  {
    SubsetSize(a, b - {u});
  }

  lemma {:induction false} SubsetSize(a: set<Timer>, b: set<Timer>)
    requires a <= b
    ensures |a| <= |b|
  {
    if a != {} {
      var x :| x in a;
      SubsetSize(a - {x}, b - {x});
    }
  }

  ghost function Listed(order: seq<Timer>): set<Timer> {
    set u | u in order
  }

  lemma FewRivals(s: State, t: Timer)
    requires Choosing(s) && t in s.order
    ensures |Rivals(s, t)| < |s.order|
  {
    ListedSize(s.order);
    FewerRivals(Rivals(s, t), Listed(s.order), t);
  }

  lemma {:induction false} ListedSize(order: seq<Timer>)
    ensures |Listed(order)| <= |order|
  {
    if order != [] {
      ListedSize(Front(order));
      assert Listed(order) == Listed(Front(order)) + {Last(order)};
    }
  }

  // The worker sleeps until a timer is due, and then fires it: the first of those with the
  // smallest trigger time, if nobody else takes a step but the clock.
  lemma SleeperFires(s: State, k: nat, dt: nat)
    requires Choosing(s) && k < |s.order| && FirstMin(s.order, s.trigger, k)
    requires s.trigger[s.order[k]] <= s.now + dt
    ensures var t := s.order[k];
            var due := Asleep(s, k).(now := s.now + dt);
            && Chooses(s, Asleep(s, k)) && Next(Asleep(s, k), Tick(dt)) == due && Enabled(due, Timeout)
            && Next(due, Timeout).fired == s.fired + [Firing(t, s.now + dt)]
  {
    UndisturbedChoice(s, k);
  }

  // ---- changes of the list ----

  // Nobody but the worker, while it is choosing, keeps other threads or a callback from
  // adding and removing timers; a reset is always possible.
  lemma ListIsFree(s: State, t: Timer)
    requires Inv(s) && t < |s.trigger|
    ensures Enabled(s, Reset(t))
    ensures Enabled(s, Add(t)) <==> !s.pc.Deciding? && !s.pc.Scanning? && !s.pc.Picked?
    ensures Enabled(s, Remove(t)) <==> !s.pc.Deciding? && !s.pc.Scanning? && !s.pc.Picked?
  {
  }

  // A timer is added behind the others. Adding a listed one changes nothing.
  lemma AddChanges(s: State, t: Timer)
    requires Enabled(s, Add(t))
    ensures Next(s, Add(t)) == if t in s.order then s
                               else s.(order := s.order + [t], cancel := true, pending := s.pending + 1)
  {
  }

  // A timer is removed from between the others. Removing one that is not listed changes
  // nothing.
  lemma RemoveChanges(s: State, t: Timer, front: seq<Timer>, back: seq<Timer>)
    requires Enabled(s, Remove(t)) && t !in front && t !in back
    ensures s.order == front + [t] + back ==>
              Next(s, Remove(t)) == s.(order := front + back, cancel := true, pending := s.pending + 1)
    ensures s.order == front + back ==> Next(s, Remove(t)) == s
  {
    if s.order == front + [t] + back {
      FirstBehind(front, t, back);
    }
  }

  lemma FirstBehind(front: seq<Timer>, t: Timer, back: seq<Timer>)
    requires t !in front
    ensures var s := front + [t] + back;
            t in s && IndexOf(s, t) == |front| && RemoveAt(s, |front|) == front + back
  {
    var s := front + [t] + back;
    assert s[|front|] == t && forall i | 0 <= i < |front| :: s[i] == front[i];
  }

  // A worker that waits sees the change: notified, it starts again with the new list.
  lemma ChangeIsSeen(s: State, e: Event)
    requires Inv(s) && (s.pc.Sleeping? || s.pc.Idle?) && !s.terminate
    requires Enabled(s, e) && (e.Add? || e.Remove?) && Next(s, e) != s
    ensures var n := Next(s, e);
            Enabled(n, Notify) &&
            var woken := Next(n, Notify);
            Enabled(woken, WakeUp) &&
            Chooses(Next(woken, WakeUp), n.(pending := s.pending, cancel := false, pc := Deciding))
  {
    var n := Next(s, e);
    var awake := n.(pending := s.pending, pc := Deciding);
    assert n.cancel && !n.stopped && n.pending == s.pending + 1;
    assert Next(Next(n, Notify), WakeUp) == awake;
    StartsAgain(awake);
  }

  // A worker that finds the cancel flag set clears it and goes round once.
  lemma StartsAgain(awake: State)
    requires awake.pc == Deciding && awake.cancel && !awake.terminate && !awake.stopped
    ensures Chooses(awake, awake.(cancel := false))
  {
    assert IsRun(awake, []) && Run(awake, []) == awake;
    var m := awake.(cancel := false);
    ChoosesNext(awake, awake, Decide, m.(pc := AtLoop));
    ChoosesNext(awake, m.(pc := AtLoop), LoopTop, m.(pc := Entering));
    ChoosesNext(awake, m.(pc := Entering), Enter, m);
  }

  // A timer that has been removed does not fire again before it is added again.
  lemma {:induction false} RemovedStaysSilent(s: State, es: seq<Event>, t: Timer)
    requires Inv(s) && IsRun(s, es) && t !in s.order && Add(t) !in es
    ensures Inv(Run(s, es)) && t !in Run(s, es).order && Count(Run(s, es).fired, t) == Count(s.fired, t)
  {
    if es != [] {
      var m, e := Run(s, Front(es)), Last(es);
      assert e in es && forall f | f in Front(es) :: f in es;
      RemovedStaysSilent(s, Front(es), t);
      StepCount(m, e, t);
      FiresOnlyWhenDue(m, e);
      StaysUnlisted(m, e, t);
    }
  }

  lemma StaysUnlisted(s: State, e: Event, t: Timer)
    requires Inv(s) && Enabled(s, e) && e != Add(t) && t !in s.order
    ensures t !in Next(s, e).order
  {
    if e == ScanEnd {
      MoveToBackSame(s.order, IndexOf(s.order, s.pc.best));
    } else if e.Remove? && e.timer in s.order {
      RemoveAtSubset(s.order, IndexOf(s.order, e.timer));
    }
  }

  // A timer that is reset does not fire for a full interval, whatever happens.
  lemma {:induction false} RestsAfterReset(s: State, es: seq<Event>, t: Timer)
    requires Inv(s) && t < |s.trigger| && IsRun(Next(s, Reset(t)), es)
    ensures var n := Run(Next(s, Reset(t)), es);
            && Inv(n) && t < |n.trigger| && s.now + s.interval[t] <= n.trigger[t] && |s.fired| <= |n.fired|
            && forall i | |s.fired| <= i < |n.fired| && n.fired[i].timer == t :: s.now + s.interval[t] <= n.fired[i].at
  {
    var s1 := Next(s, Reset(t));
    InvKept(s, Reset(t));
    if es != [] {
      var m, e := Run(s1, Front(es)), Last(es);
      RestsAfterReset(s, Front(es), t);
      InvKept(m, e);
      TriggersRise(m, e);
      FiresOnlyWhenDue(m, e);
    }
  }

  // A new timer is not listed, and due an interval after its creation.
  lemma NewTimer(s: State, length: int)
    requires Inv(s)
    ensures var n, t := Next(s, Create(length)), |s.trigger|;
            t < |n.trigger| && n.trigger[t] == s.now + length == n.now + n.interval[t] && t !in n.order
  {
  }

  // ---- what can happen ----

  // Time passes, timers are created and reset, termination is asked for, and a waiting worker
  // wakes up for no reason, at any time. A stop is signalled when it has been asked for and
  // the list is free; whoever changed the list notifies; and a wait ends when it has been
  // notified or its deadline has come.
  lemma WhatCanHappen(s: State, dt: nat, length: int)
    requires Inv(s)
    ensures Enabled(s, Tick(dt)) && Next(s, Tick(dt)) == s.(now := s.now + dt)
    ensures Enabled(s, Create(length)) && Enabled(s, Terminate)
    ensures Enabled(s, StopCancel) <==> s.terminate && !s.pc.Deciding? && !s.pc.Scanning? && !s.pc.Picked?
    ensures Enabled(s, Notify) <==> s.pending > 0
    ensures s.pc.Sleeping? || s.pc.Idle? ==>
              Enabled(s, Spurious) && Enabled(Next(s, Spurious), WakeUp)
              && Next(Next(s, Spurious), WakeUp) == s.(pc := Deciding)
    ensures Enabled(s, WakeUp) <==> (s.pc.Sleeping? || s.pc.Idle?) && s.pc.woken
    ensures Enabled(s, Timeout) <==> s.pc.Sleeping? && s.pc.deadline <= s.now
  {
  }

  // ---- the worker's loop ----

  // The worker always has a step to take, unless it waits or is done.
  lemma NeverStuck(s: State)
    requires Inv(s) && !s.pc.Sleeping? && !s.pc.Idle? && !s.pc.Done?
    ensures exists e :: WorkerStep(e) && Enabled(s, e)
  {
    var e := match s.pc
      case AtLoop => LoopTop
      case Entering => Enter
      case Deciding => Decide
      case Scanning(k, _, _) => if k < |s.order| then ScanStep else ScanEnd
      case Picked(_, _) => ReadDeadline
      case _ => Return;
    assert s.order != [] ==> s.order[0] in s.order;
    assert s.pc.Scanning? && s.pc.k < |s.order| ==> s.order[s.pc.k] in s.order;
    assert WorkerStep(e) && Enabled(s, e);
  }

  // After a callback has returned the worker goes on choosing. After one that has thrown it
  // tests first whether it is to terminate; the timers are as they would be otherwise.
  lemma CallbackEnds(s: State)
    requires Inv(s) && s.pc.Calling?
    ensures Enabled(s, Return) && Next(s, Return) == s.(pc := Deciding)
    ensures Enabled(s, Throw) && Enabled(Next(s, Throw), LoopTop)
    ensures Next(Next(s, Throw), LoopTop) == s.(pc := if s.terminate then Done else Entering)
  {
  }

  // The worker ends only on request, and then as soon as it tests for one.
  lemma {:induction false} EndsOnRequest(es: seq<Event>)
    requires IsRun(Init, es)
    ensures var s := Run(Init, es);
            && (s.pc.Done? ==> s.terminate)
            && (s.pc.AtLoop? ==> Enabled(s, LoopTop) && (Next(s, LoopTop).pc.Done? <==> s.terminate))
            && (s.terminate <==> Terminate in es)
  {
    if es != [] {
      EndsOnRequest(Front(es));
      RequestStep(Run(Init, Front(es)), Last(es));
      assert es == Front(es) + [Last(es)];
    }
  }

  lemma RequestStep(s: State, e: Event)
    requires Enabled(s, e) && (s.pc.Done? ==> s.terminate)
    ensures Next(s, e).pc.Done? ==> Next(s, e).terminate
    ensures Next(s, e).terminate <==> s.terminate || e == Terminate
  {
  }
}
