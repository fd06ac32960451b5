// The timer thread's operations on the real list, each tied to the step of the protocol
// that it performs while it holds the list lock.
module TimerThreads {
  import opened Seqs
  import opened IntrusiveList
  import P = TimerProtocol

  class TimerThread {
    const timers: List
    var now: int         // the clock
    var cancel: bool
    var terminate: bool

    ghost var spec: P.State  // the same state in the protocol, where timers are numbers

    // The list holds the timers with the given numbers.
    ghost predicate Lists(order: seq<nat>)
      reads timers, timers.items`prev, timers.items`next
      reads timers.known`list, timers.known`prev, timers.known`next
    {
      && timers.Valid()
      && (forall x | x in timers.known :: x.list == null || x.list == timers)
      && (forall x, y | x in timers.known && y in timers.known && x.id == y.id :: x == y)
      && Named(order, timers.items)
    }

    // Times and flags are those of the protocol.
    ghost predicate Values()
      reads this, timers`known, timers.known`trigger
    {
      && spec.now == now && spec.cancel == cancel && spec.terminate == terminate
      && |spec.trigger| == |spec.interval|
      && (forall x | x in timers.known ::
            x.id < |spec.trigger| && x.trigger == spec.trigger[x.id] && x.interval == spec.interval[x.id])
    }

    ghost predicate Valid()
      reads this, timers, timers.items`prev, timers.items`next
      reads timers.known`list, timers.known`prev, timers.known`next, timers.known`trigger
    {
      Lists(spec.order) && Values()
    }

    constructor ()
      ensures Valid() && spec == P.Init && timers.known == {} && fresh(timers)
    {
      timers := new List();
      now, cancel, terminate := 0, false, false;
      spec := P.Init;
    }

    // A timer is created with a full interval to go; it is not listed yet.
    method Create(interval: int) returns (t: ListItem)
      requires Valid()
      modifies this`spec, timers`known
      ensures Valid() && fresh(t) && timers.known == old(timers.known) + {t}
      ensures t.id == |old(spec).trigger| && spec == P.DoCreate(old(spec), interval)
    {
      t := new ListItem(interval, now + interval, |spec.trigger|);
      Register(t);
    }

    ghost method Register(t: ListItem)
      requires Valid() && t !in timers.known && t.id == |spec.trigger| && t.trigger == now + t.interval
      requires t.list == null && t.prev == null && t.next == null
      modifies this`spec, timers`known
      ensures Valid() && timers.known == old(timers.known) + {t}
      ensures spec == P.DoCreate(old(spec), t.interval)
    {
      timers.Meet(t);
      spec := P.DoCreate(spec, t.interval);
    }

    method Reset(t: ListItem)
      requires Valid() && t in timers.known
      modifies this`spec, t`trigger
      ensures Valid() && spec == P.DoReset(old(spec), t.id)
    {
      t.trigger := now + t.interval;
      spec := P.DoReset(spec, t.id);
    }

    method Add(t: ListItem)
      requires Valid() && t in timers.known && P.ListUnlocked(spec.pc)
      modifies this`cancel, this`spec, timers, t`list, t`prev, {timers.last}`next
      ensures Valid() && spec == P.DoAdd(old(spec), t.id)
    {
      SameMembers(timers.known, spec.order, timers.items, t);
      var listed := timers.Contains(t);
      if !listed {
        Enlist(t);
      }
    }

    method Enlist(t: ListItem)
      requires Valid() && t in timers.known && t.list == null && t.id !in spec.order
      modifies this`cancel, this`spec, timers, t`list, t`prev, {timers.last}`next
      ensures Valid() && spec == P.DoAdd(old(spec), t.id)
    {
      spec := P.DoAdd(spec, t.id);
      cancel := true;
      timers.PushBack(t);
    }

    method Remove(t: ListItem)
      requires Valid() && t in timers.known && P.ListUnlocked(spec.pc)
      modifies this`cancel, this`spec, timers, t`list, t`prev, t`next, {t.prev}`next, {t.next}`prev
      ensures Valid() && spec == P.DoRemove(old(spec), t.id)
    {
      SameMembers(timers.known, spec.order, timers.items, t);
      var listed := timers.Contains(t);
      if listed {
        Unlist(t);
      }
    }

    method Unlist(t: ListItem)
      requires Valid() && t in timers.known && P.ListUnlocked(spec.pc) && t in timers.items
      requires t.id in spec.order && IndexOf(spec.order, t.id) == IndexOf(timers.items, t)
      modifies this`cancel, this`spec, timers, t`list, t`prev, t`next, {t.prev}`next, {t.next}`prev
      ensures Valid() && spec == P.DoRemove(old(spec), t.id)
    {
      ghost var order, k := spec.order, IndexOf(timers.items, t);
      ghost var next := P.DoRemove(spec, t.id);
      assert next == spec.(order := RemoveAt(order, k), cancel := true, pending := spec.pending + 1);
      spec, cancel := next, true;
      Delete(t, order);
    }

    method Delete(t: ListItem, ghost order: seq<nat>)
      requires Lists(order) && t in timers.items
      modifies timers, t`list, t`prev, t`next, {t.prev}`next, {t.next}`prev
      ensures Lists(RemoveAt(order, IndexOf(old(timers.items), t))) && timers.known == old(timers.known)
    {
      NamedRemove(order, timers.items, IndexOf(timers.items, t));
      timers.Remove(t);
    }

    method SendToBack(t: ListItem, ghost order: seq<nat>)
      requires Lists(order) && t in timers.items
      modifies timers, timers.items`next, timers.items`prev, t`list
      ensures Lists(MoveToBack(order, IndexOf(old(timers.items), t))) && timers.known == old(timers.known)
      ensures timers.items != [] && Last(timers.items) == t
    {
      NamedMoveToBack(order, timers.items, IndexOf(timers.items, t));
      timers.MoveToBack(t);
    }

    // The two halves of shutdown(): the flag, and the cancel signal under the list lock.
    method RequestTermination()
      requires Valid()
      modifies this`terminate, this`spec
      ensures Valid() && spec == P.Next(old(spec), P.Terminate)
    {
      terminate := true;
      spec := spec.(terminate := true);
    }

    method SignalStop()
      requires Valid() && spec.terminate && P.ListUnlocked(spec.pc)
      modifies this`cancel, this`spec
      ensures Valid() && spec == P.Next(old(spec), P.StopCancel)
    {
      cancel := true;
      spec := spec.(cancel := true, pending := spec.pending + 1, stopped := true);
    }

    // What other threads do while the worker holds the list lock: time passes, and these
    // timers are reset.
    method Meanwhile(resets: seq<ListItem>, ghost r: iset<P.State>)
      requires Valid() && P.Closed(r) && spec in r && forall x | x in resets :: x in timers.known
      modifies this`now, this`spec, timers.known`trigger
      ensures Valid() && spec in r && |spec.trigger| == |old(spec).trigger|
      ensures spec == old(spec).(now := spec.now, trigger := spec.trigger)
      ensures resets == [] ==> forall x | x in timers.known :: x.trigger == old(x.trigger)
    {
      for i := 0 to |resets|
        invariant Valid() && spec in r && |spec.trigger| == |old(spec).trigger|
        invariant spec == old(spec).(now := spec.now, trigger := spec.trigger)
        invariant i == 0 ==> forall x | x in timers.known :: x.trigger == old(x.trigger)
      {
        PassTime(r);
        assert resets[i] in resets;
        ResetDuring(resets[i], r);
      }
      PassTime(r);
    }

    method PassTime(ghost r: iset<P.State>)
      requires Valid() && P.Closed(r) && spec in r
      modifies this`now, this`spec
      ensures Valid() && spec in r && spec == old(spec).(now := spec.now)
    {
      var dt: nat := *;
      P.TickStays(r, spec, dt);
      now := now + dt;
      spec := spec.(now := now);
    }

    method ResetDuring(t: ListItem, ghost r: iset<P.State>)
      requires Valid() && P.Closed(r) && spec in r && t in timers.known
      modifies this`spec, t`trigger
      ensures Valid() && spec in r && |spec.trigger| == |old(spec).trigger|
      ensures spec == old(spec).(trigger := spec.trigger)
    {
      P.ResetStays(r, spec, t.id);
      Reset(t);
    }

    // Which timers are reset before the worker looks at item i.
    ghost predicate Known(schedule: nat -> seq<ListItem>)
      reads timers`known
    {
      forall i, x | x in schedule(i) :: x in timers.known
    }

    // No timer has been reset.
    twostate predicate Unreset()
      reads timers, timers.known`trigger
    {
      timers.known == old(timers.known) && forall x | x in timers.known :: x.trigger == old(x.trigger)
    }

    // Reads the trigger time of item k and keeps the better one of it and `best`, while
    // other threads reset timers.
    method Compare(t: ListItem, best: ListItem, time: int, resets: seq<ListItem>, ghost k: nat, ghost r: iset<P.State>)
      returns (best': ListItem, time': int)
      requires Valid() && P.Closed(r) && spec in r && forall x | x in resets :: x in timers.known
      requires k < |timers.items| && t == timers.items[k] && best in timers.items
      requires spec.pc == P.Scanning(k, best.id, time)
      modifies this`now, this`spec, timers.known`trigger
      ensures Valid() && spec in r && best' in timers.items
      ensures spec == old(spec).(now := spec.now, trigger := spec.trigger, pc := P.Scanning(k + 1, best'.id, time'))
      ensures resets == [] ==> Unreset()
      ensures if time > t.trigger then best' == t && time' == t.trigger else best' == best && time' == time
    {
      Meanwhile(resets, r);
      best', time' := CompareNow(t, best, time, k, r);
    }

    method CompareNow(t: ListItem, best: ListItem, time: int, ghost k: nat, ghost r: iset<P.State>)
      returns (best': ListItem, time': int)
      requires Valid() && P.Closed(r) && spec in r && k < |timers.items| && t == timers.items[k]
      requires best in timers.items && spec.pc == P.Scanning(k, best.id, time)
      modifies this`spec
      ensures Valid() && spec in r && best' in timers.items
      ensures spec == old(spec).(pc := P.Scanning(k + 1, best'.id, time'))
      ensures if time > t.trigger then best' == t && time' == t.trigger else best' == best && time' == time
    {
      best', time' := best, time;
      assert t in timers.items && spec.order[k] == t.id;
      P.ScanStepStays(r, spec);
      if time > t.trigger {
        best', time' := t, t.trigger;
      }
      spec := spec.(pc := P.Scanning(k + 1, best'.id, time'));
    }

    ghost predicate Quiet(schedule: nat -> seq<ListItem>) {
      forall i :: schedule(i) == []
    }

    // Reads the trigger times one after the other, while other threads reset timers. If
    // nobody does, the result is the first of the timers with the smallest trigger time.
    method GetNextTimer(schedule: nat -> seq<ListItem>, ghost r: iset<P.State>) returns (timer: ListItem?)
      requires Valid() && Known(schedule) && P.Closed(r) && spec in r
      requires spec.pc == P.Deciding && !spec.cancel
      modifies this`now, this`spec, timers.known`trigger
      ensures Valid() && spec in r
      ensures timer == null <==> timers.items == []
      ensures timer == null ==> spec == old(spec).(pc := P.Idle(false))
      ensures timer != null ==> timer in timers.items && Chosen(timer) && PassedFrom(old(spec))
      ensures timer != null && Quiet(schedule) ==> old(FirstMin(timers.items, IndexOf(timers.items, timer)))
    {
      timer := timers.first;
      if timer == null {
        P.IdleStays(r, spec);
        spec := spec.(pc := P.Idle(false));
      } else {
        timer := Scan(schedule, r);
      }
    }

    // The scan is over and came to this timer.
    ghost predicate Chosen(timer: ListItem)
      reads this
    {
      spec.pc.Scanning? && spec.pc.k == |spec.order| && spec.pc.best == timer.id
    }

    ghost predicate PassedFrom(s: P.State)
      reads this
    {
      spec == s.(now := spec.now, trigger := spec.trigger, pc := spec.pc)
    }

    // Reads the trigger time of the first item.
    method Begin(ghost r: iset<P.State>) returns (timer: ListItem, time: int)
      requires Valid() && P.Closed(r) && spec in r && spec.pc == P.Deciding && !spec.cancel && timers.items != []
      modifies this`spec
      ensures Valid() && spec in r && timer == timers.items[0] && timer in timers.items
      ensures time == timer.trigger && spec == old(spec).(pc := P.Scanning(0, timer.id, time))
    {
      timer := timers.first;
      assert timers.items[0] in timers.items && spec.order[0] == timer.id;
      time := timer.trigger;
      P.DecideStays(r, spec);
      spec := spec.(pc := P.Scanning(0, timer.id, time));
    }

    method Scan(schedule: nat -> seq<ListItem>, ghost r: iset<P.State>) returns (timer: ListItem)
      requires Valid() && Known(schedule) && P.Closed(r) && spec in r
      requires spec.pc == P.Deciding && !spec.cancel && timers.items != []
      modifies this`now, this`spec, timers.known`trigger
      ensures Valid() && spec in r && timer in timers.items && Chosen(timer) && PassedFrom(old(spec))
      ensures Quiet(schedule) ==> old(FirstMin(timers.items, IndexOf(timers.items, timer)))
    {
      ghost var s, triggers, best := spec, Triggers(timers.items), 0;
      var time;
      timer, time := Begin(r);
      timer, time, best := ScanFrom(timer, time, schedule, r, s, triggers);
      if Quiet(schedule) {
        LastBest(triggers, best, timer, time);
      }
    }

    // The scan has come to item t, the k-th one.
    ghost predicate ScanAt(r: iset<P.State>, s: P.State, t: ListItem?, k: nat, timer: ListItem, time: int)
      reads this, timers, timers.items`prev, timers.items`next
      reads timers.known`list, timers.known`prev, timers.known`next, timers.known`trigger
    {
      && Valid() && spec in r && PassedFrom(s)
      && k <= |timers.items| && t == (if k < |timers.items| then timers.items[k] else null)
      && timer in timers.items && spec.pc == P.Scanning(k, timer.id, time)
    }

    method ScanFrom(first: ListItem, firstTime: int, schedule: nat -> seq<ListItem>,
                    ghost r: iset<P.State>, ghost s: P.State, ghost triggers: seq<int>)
      returns (timer: ListItem, time: int, ghost best: nat)
      requires Known(schedule) && P.Closed(r) && ScanAt(r, s, first, 0, first, firstTime)
      modifies this`now, this`spec, timers.known`trigger
      ensures ScanAt(r, s, null, |timers.items|, timer, time)
      ensures Quiet(schedule) && old(BestSoFar(triggers, 0, 0, first, firstTime)) ==>
                BestSoFar(triggers, |timers.items|, best, timer, time)
    {
      ghost var held, still := BestSoFar(triggers, 0, 0, first, firstTime), Quiet(schedule);
      ghost var begun := held;
      timer, time, best := first, firstTime, 0;
      var t: ListItem? := first;
      var k := 0;
      while t != null
        invariant ScanAt(r, s, t, k, timer, time)
        invariant held ==> BestSoFar(triggers, k, best, timer, time)
        invariant still && begun ==> held
        decreases |timers.items| - k
      {
        t, timer, time, best, held := Round(t, timer, time, schedule(k), k, r, s, triggers, best, held);
        k := k + 1;
      }
    }

    // One round of the scan. While the trigger times have held, the best timer is known.
    method Round(t: ListItem, best: ListItem, time: int, resets: seq<ListItem>, ghost k: nat, ghost r: iset<P.State>,
                 ghost s: P.State, ghost triggers: seq<int>, ghost b: nat, ghost held: bool)
      returns (t': ListItem?, best': ListItem, time': int, ghost b': nat, ghost held': bool)
      requires P.Closed(r) && ScanAt(r, s, t, k, best, time) && forall x | x in resets :: x in timers.known
      requires held ==> BestSoFar(triggers, k, b, best, time)
      modifies this`now, this`spec, timers.known`trigger
      ensures ScanAt(r, s, t', k + 1, best', time')
      ensures held' == (held && resets == []) && (held' ==> BestSoFar(triggers, k + 1, b', best', time'))
    {
      assert t in timers.items;
      best', time' := Compare(t, best, time, resets, k, r);
      t' := t.next;
      b', held' := b, held && resets == [];
      if held' {
        BestNext(triggers, k, b, time);
        b' := if time > triggers[k] then k else b;
      }
    }

    lemma LastBest(triggers: seq<int>, b: nat, timer: ListItem, time: int)
      requires Distinct(timers.items) && BestSoFar(triggers, |timers.items|, b, timer, time)
      ensures timer in timers.items && IndexOf(timers.items, timer) == b
    {
    }

    // The trigger times are still the given ones, and the best timer so far is at position b.
    ghost predicate BestSoFar(triggers: seq<int>, k: nat, b: nat, timer: ListItem, time: int)
      reads timers, timers.items`trigger
    {
      && |triggers| == |timers.items| && BestOf(triggers, k, b, time) && timer == timers.items[b]
      && forall i | 0 <= i < |triggers| :: timers.items[i].trigger == triggers[i]
    }

    ghost function Triggers(items: seq<ListItem>): (r: seq<int>)
      reads items`trigger
      ensures |r| == |items| && forall i | 0 <= i < |r| :: r[i] == items[i].trigger
    {
      if items == [] then [] else Triggers(items[..|items| - 1]) + [items[|items| - 1].trigger]
    }

    // One pass of the worker's loop up to its wait, while other threads reset timers, the
    // `late` ones after the choice: tests the cancel flag, chooses a timer, moves it to the
    // back, and reads the time to sleep until. It is a run of the protocol.
    method NextWait(schedule: nat -> seq<ListItem>, late: seq<ListItem>) returns (timer: ListItem?, deadline: int)
      requires Valid() && Known(schedule) && spec.pc == P.Deciding && forall x | x in late :: x in timers.known
      modifies this`now, this`cancel, this`spec, timers.known`trigger
      modifies timers, timers.items`next, timers.items`prev, timers.items`list
      ensures Valid() && P.Passes(old(spec), spec)
      ensures old(cancel) ==> timer == null && spec == old(spec).(cancel := false, pc := P.AtLoop)
      ensures !old(cancel) && timer == null ==> old(timers.items) == [] && spec == old(spec).(pc := P.Idle(false))
      ensures !old(cancel) && timer != null ==> timer in old(timers.items) && SleepsFor(timer, deadline)
      ensures timer != null && Quiet(schedule) ==> old(FirstMin(timers.items, IndexOf(timers.items, timer)))
    {
      ghost var start := spec;
      ghost var r := iset t | P.Passes(start, t);
      P.PassesClosed(start);
      timer, deadline := null, 0;
      if cancel {
        P.CancelStays(r, spec);
        cancel := false;
        spec := spec.(cancel := false, pc := P.AtLoop);
      } else {
        timer := GetNextTimer(schedule, r);
        if timer != null {
          deadline := PrepareWait(timer, late, r);
        }
      }
    }

    // The worker sleeps until the trigger time of the timer at the back of the list.
    ghost predicate SleepsFor(timer: ListItem, deadline: int)
      reads this, timers, timer
    {
      && spec.pc.Sleeping? && spec.pc.best == timer.id && spec.pc.deadline == deadline == timer.trigger
      && timers.items != [] && Last(timers.items) == timer
    }

    // Moves the chosen timer to the back and reads its trigger time, again with resets in
    // between.
    method PrepareWait(timer: ListItem, resets: seq<ListItem>, ghost r: iset<P.State>) returns (deadline: int)
      requires Valid() && P.Closed(r) && spec in r && forall x | x in resets :: x in timers.known
      requires timer in timers.items
      requires Chosen(timer)
      modifies this`now, this`spec, timers.known`trigger
      modifies timers, timers.items`next, timers.items`prev, timers.items`list
      ensures Valid() && spec in r && SleepsFor(timer, deadline)
    {
      MoveChosen(timer, r);
      Meanwhile(resets, r);
      deadline := timer.trigger;
      P.ReadDeadlineStays(r, spec);
      spec := spec.(pc := P.Sleeping(timer.id, deadline, spec.pc.time, false));
    }

    method MoveChosen(timer: ListItem, ghost r: iset<P.State>)
      requires Valid() && P.Closed(r) && spec in r && timer in timers.items
      requires Chosen(timer)
      modifies this`spec, timers, timers.items`next, timers.items`prev, timers.items`list
      ensures Valid() && spec in r && timers.known == old(timers.known)
      ensures spec.pc == P.Picked(timer.id, old(spec).pc.time)
      ensures timers.items != [] && Last(timers.items) == timer
    {
      ghost var order := spec.order;
      SameMembers(timers.known, order, timers.items, timer);
      P.ScanEndStays(r, spec);
      spec := spec.(order := MoveToBack(order, IndexOf(order, timer.id)), pc := P.Picked(timer.id, spec.pc.time));
      SendToBack(timer, order);
    }

    // The wait ended at its deadline: fires the timer if it is still at the back of the
    // list with the same trigger time.
    method Expire(timer: ListItem, deadline: int) returns (fires: bool)
      requires Valid() && timer in timers.known
      requires spec.pc.Sleeping? && spec.pc.best == timer.id && spec.pc.deadline == deadline <= now
      modifies this`spec, timer`trigger
      ensures Valid() && spec == P.DoTimeout(old(spec))
      ensures fires <==> old(timers.items != [] && Last(timers.items) == timer && timer.trigger == deadline)
      ensures timer.trigger == if fires then now + timer.interval else old(timer.trigger)
      ensures spec.fired == old(spec).fired + if fires then [P.Firing(timer.id, now)] else []
    {
      fires := timer == timers.last && timer.trigger == deadline;
      LastNamed(timers.known, spec.order, timers.items, timer);
      if fires {
        Fire(timer);
      } else {
        spec := spec.(pc := P.Deciding);
      }
    }

    method Fire(timer: ListItem)
      requires Valid() && timer in timers.known
      modifies this`spec, timer`trigger
      ensures Valid()
      ensures spec == P.DoReset(old(spec), timer.id).(fired := old(spec).fired + [P.Firing(timer.id, now)],
                                                      pc := P.Calling(timer.id))
    {
      Reset(timer);
      spec := spec.(fired := spec.fired + [P.Firing(timer.id, now)], pc := P.Calling(timer.id));
    }
  }

  // The items are the timers numbered by `order`.
  ghost predicate Named(order: seq<nat>, items: seq<ListItem>) {
    |order| == |items| && forall i | 0 <= i < |order| :: order[i] == items[i].id
  }

  ghost predicate ToldApart(known: set<ListItem>, items: seq<ListItem>) {
    && (forall x, y | x in known && y in known && x.id == y.id :: x == y)
    && (forall x | x in items :: x in known)
  }

  lemma SameMembers(known: set<ListItem>, order: seq<nat>, items: seq<ListItem>, t: ListItem)
    requires ToldApart(known, items) && Named(order, items) && t in known
    ensures t.id in order <==> t in items
    ensures t in items ==> IndexOf(order, t.id) == IndexOf(items, t)
  {
    if t in items {
      assert order[IndexOf(items, t)] == t.id;
    }
    if t.id in order {
      assert items[IndexOf(order, t.id)] in items;
    }
  }

  // Position b has the first of the smallest among the first k trigger times.
  ghost predicate BestOf(triggers: seq<int>, k: nat, b: nat, time: int) {
    && k <= |triggers| && b < |triggers| && b <= k && time == triggers[b]
    && (forall i | 0 <= i < k :: time <= triggers[i])
    && (forall i | 0 <= i < b :: time < triggers[i])
  }

  lemma BestNext(triggers: seq<int>, k: nat, b: nat, time: int)
    requires BestOf(triggers, k, b, time) && k < |triggers|
    ensures if time > triggers[k] then BestOf(triggers, k + 1, k, triggers[k]) else BestOf(triggers, k + 1, b, time)
  {
  }

  lemma LastNamed(known: set<ListItem>, order: seq<nat>, items: seq<ListItem>, t: ListItem)
    requires ToldApart(known, items) && Named(order, items) && t in known
    ensures order != [] ==> (items[|items| - 1] == t <==> Last(order) == t.id)
  {
    assert order != [] ==> items[|items| - 1] in items;
  }

  lemma NamedRemove(order: seq<nat>, items: seq<ListItem>, k: nat)
    requires Named(order, items) && k < |order|
    ensures Named(RemoveAt(order, k), RemoveAt(items, k))
  {
  }

  lemma NamedMoveToBack(order: seq<nat>, items: seq<ListItem>, k: nat)
    requires Named(order, items) && k < |order|
    ensures Named(MoveToBack(order, k), MoveToBack(items, k))
  {
  }
}
