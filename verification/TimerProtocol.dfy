// The timer thread as a step system: the worker sleeps until a timer is due while other
// threads add, remove and reset timers, let time pass, and ask it to stop.
module TimerProtocol {
  import opened Seqs

  type Timer = nat

  // Where the worker is. It holds the list lock in Deciding, Scanning, Picked and Calling.
  datatype Pc =
    | AtLoop                                              // testing the termination flag
    | Entering                                            // about to take the lock
    | Deciding                                            // testing the cancel flag
    | Scanning(k: nat, best: Timer, time: int)            // `best` had trigger time `time` when read
    | Picked(best: Timer, time: int)                      // moved to back, deadline not yet read
    | Sleeping(best: Timer, deadline: int, time: int, woken: bool)
    | Idle(woken: bool)                                   // waiting without a deadline
    | Calling(timer: Timer)                               // running a callback
    | Done

  datatype Firing = Firing(timer: Timer, at: int)

  datatype State = State(
    now: int,
    order: seq<Timer>,      // the list of timers
    trigger: seq<int>,      // per timer
    interval: seq<int>,     // per timer
    cancel: bool,
    terminate: bool,
    pc: Pc,
    pending: nat,           // threads that have changed the list and not notified yet
    stopped: bool,          // a shutdown has set the cancel flag
    entries: nat,           // how often the worker entered its action since then
    fired: seq<Firing>)

  datatype Event =
    // other threads, and callbacks
    | Tick(dt: nat)
    | Create(length: int)
    | Reset(timer: Timer)
    | Add(timer: Timer)
    | Remove(timer: Timer)
    | Terminate
    | StopCancel
    | Notify
    // the worker
    | LoopTop | Enter | Decide | ScanStep | ScanEnd | ReadDeadline
    | Spurious | Timeout | WakeUp | Return | Throw

  const Init := State(0, [], [], [], false, false, AtLoop, 0, false, 0, [])

  // The list lock can be taken: nobody holds it, or the callback that asks does.
  predicate ListUnlocked(pc: Pc) {
    !pc.Deciding? && !pc.Scanning? && !pc.Picked?
  }

  predicate Known(s: State, t: Timer) {
    t < |s.trigger| && t < |s.interval|
  }

  ghost predicate Enabled(s: State, e: Event) {
    match e
    case Tick(_) => true
    case Create(_) => true
    case Reset(t) => Known(s, t)
    case Add(t) => Known(s, t) && ListUnlocked(s.pc)
    case Remove(t) => Known(s, t) && ListUnlocked(s.pc)
    case Terminate => true
    case StopCancel => s.terminate && ListUnlocked(s.pc)
    case Notify => s.pending > 0
    case LoopTop => s.pc.AtLoop?
    case Enter => s.pc.Entering?
    case Decide => s.pc.Deciding? && (!s.cancel && s.order != [] ==> Known(s, s.order[0]))
    case ScanStep => s.pc.Scanning? && s.pc.k < |s.order| && Known(s, s.order[s.pc.k])
    case ScanEnd => s.pc.Scanning? && s.pc.k == |s.order| && s.pc.best in s.order
    case ReadDeadline => s.pc.Picked? && Known(s, s.pc.best)
    case Spurious => s.pc.Sleeping? || s.pc.Idle?
    case Timeout => s.pc.Sleeping? && s.pc.deadline <= s.now && Known(s, s.pc.best)
    case WakeUp => (s.pc.Sleeping? || s.pc.Idle?) && s.pc.woken
    case Return => s.pc.Calling?
    case Throw => s.pc.Calling?
  }

  // A new timer has a full interval to go and is not listed.
  function DoCreate(s: State, length: int): State {
    s.(trigger := s.trigger + [s.now + length], interval := s.interval + [length])
  }

  // reset(): the next firing is a full interval away.
  function DoReset(s: State, t: Timer): State
    requires Known(s, t)
  {
    s.(trigger := s.trigger[t := s.now + s.interval[t]])
  }

  // add() and remove() under the lock; the notification is still to come.
  function DoAdd(s: State, t: Timer): State {
    if t in s.order then s
    else s.(order := s.order + [t], cancel := true, pending := s.pending + 1)
  }

  ghost function DoRemove(s: State, t: Timer): State {
    if t !in s.order then s
    else s.(order := RemoveAt(s.order, IndexOf(s.order, t)), cancel := true, pending := s.pending + 1)
  }

  // The wait for a timer ended at its deadline.
  function DoTimeout(s: State): State
    requires s.pc.Sleeping? && Known(s, s.pc.best)
  {
    var t := s.pc.best;
    if s.order != [] && Last(s.order) == t && s.trigger[t] == s.pc.deadline
    then DoReset(s, t).(fired := s.fired + [Firing(t, s.now)], pc := Calling(t))
    else s.(pc := Deciding)
  }

  function Wake(pc: Pc): Pc {
    match pc
    case Sleeping(b, d, t, _) => Sleeping(b, d, t, true)
    case Idle(_) => Idle(true)
    case _ => pc
  }

  ghost function Next(s: State, e: Event): State
    requires Enabled(s, e)
  {
    match e
    case Tick(dt) => s.(now := s.now + dt)
    case Create(d) => DoCreate(s, d)
    case Reset(t) => DoReset(s, t)
    case Add(t) => DoAdd(s, t)
    case Remove(t) => DoRemove(s, t)
    case Terminate => s.(terminate := true)
    case StopCancel => s.(cancel := true, pending := s.pending + 1, stopped := true)
    case Notify => s.(pending := s.pending - 1, pc := Wake(s.pc))
    case LoopTop => s.(pc := if s.terminate then Done else Entering)
    case Enter => s.(pc := Deciding, entries := if s.stopped then s.entries + 1 else s.entries)
    case Decide =>
      if s.cancel then s.(cancel := false, pc := AtLoop)
      else if s.order == [] then s.(pc := Idle(false))
      else s.(pc := Scanning(0, s.order[0], s.trigger[s.order[0]]))
    case ScanStep =>
      var u := s.order[s.pc.k];
      if s.pc.time > s.trigger[u]
      then s.(pc := Scanning(s.pc.k + 1, u, s.trigger[u]))
      else s.(pc := Scanning(s.pc.k + 1, s.pc.best, s.pc.time))
    case ScanEnd =>
      s.(order := MoveToBack(s.order, IndexOf(s.order, s.pc.best)), pc := Picked(s.pc.best, s.pc.time))
    case ReadDeadline =>
      s.(pc := Sleeping(s.pc.best, s.trigger[s.pc.best], s.pc.time, false))
    case Spurious => s.(pc := Wake(s.pc))
    case Timeout => DoTimeout(s)
    case WakeUp => s.(pc := Deciding)
    case Return => s.(pc := Deciding)
    case Throw => s.(pc := AtLoop)
  }

  ghost predicate IsRun(s: State, es: seq<Event>)
    decreases |es|, 0
  {
    es == [] || (IsRun(s, Front(es)) && Enabled(Run(s, Front(es)), Last(es)))
  }

  ghost function Run(s: State, es: seq<Event>): State
    requires IsRun(s, es)
    decreases |es|, 1
  {
    if es == [] then s else Next(Run(s, Front(es)), Last(es))
  }

  // ---- what every step keeps ----

  ghost predicate ListOk(s: State) {
    && |s.trigger| == |s.interval|
    && Distinct(s.order)
    && (forall t | t in s.order :: t < |s.trigger|)
  }

  ghost predicate WellFormed(s: State) {
    && ListOk(s)
    && (forall t | 0 <= t < |s.trigger| :: s.trigger[t] <= s.now + s.interval[t])
    && match s.pc {
         case Scanning(k, best, _) => k <= |s.order| && best in s.order
         case Picked(best, _) => best < |s.trigger| && s.order != [] && best == Last(s.order)
         case Sleeping(best, _, _, _) => best < |s.trigger| && (!s.cancel ==> s.order != [] && best == Last(s.order))
         case Calling(t) => t < |s.trigger|
         case _ => true
       }
  }

  // No listed timer is due before time x.
  ghost predicate NoneBefore(s: State, x: int)
    requires ListOk(s)
  {
    forall u | u in s.order :: x <= s.trigger[u]
  }

  ghost predicate Timing(s: State)
    requires WellFormed(s)
  {
    match s.pc
    case Scanning(k, best, time) =>
      !s.cancel && time <= s.trigger[best] && forall i | 0 <= i < k ::
        s.order[i] in s.order && time <= s.trigger[s.order[i]]
    case Picked(_, time) => !s.cancel && NoneBefore(s, time)
    case Sleeping(_, _, time, _) => !s.cancel ==> NoneBefore(s, time)
    case Idle(_) => !s.cancel ==> s.order == []
    case _ => true
  }

  // A worker that waits although the cancel flag is set is about to be notified.
  ghost predicate NoLostWakeup(s: State) {
    (s.pc.Sleeping? || s.pc.Idle?) && s.cancel && !s.pc.woken ==> s.pending > 0
  }

  ghost predicate Stopping(s: State) {
    if !s.stopped then s.entries == 0 else
      && s.terminate
      && !s.pc.Scanning? && !s.pc.Picked?
      && (s.cancel || s.pc.AtLoop? || s.pc.Done?)
      && s.entries <= 1
      && (s.pc.Entering? ==> s.entries == 0)
  }

  ghost predicate Inv(s: State) {
    WellFormed(s) && Timing(s) && NoLostWakeup(s) && Stopping(s)
  }

  // Events that change the list or the times of timers.
  predicate Changes(e: Event) {
    e.Create? || e.Reset? || e.Add? || e.Remove? || e.ScanEnd? || e.Timeout?
  }

  lemma Unchanged(s: State, e: Event)
    requires Enabled(s, e) && !Changes(e)
    ensures var n := Next(s, e);
            n.order == s.order && n.trigger == s.trigger && n.interval == s.interval && n.fired == s.fired
  {
  }

  lemma ListKept(s: State, e: Event)
    requires WellFormed(s) && Enabled(s, e)
    ensures ListOk(Next(s, e))
  {
    if !Changes(e) {
      Unchanged(s, e);
    } else if e.Remove? && e.timer in s.order {
      RemoveAtSubset(s.order, IndexOf(s.order, e.timer));
    } else if e.ScanEnd? {
      MoveToBackSame(s.order, IndexOf(s.order, s.pc.best));
    }
  }

  lemma WellFormedKept(s: State, e: Event)
    requires WellFormed(s) && Enabled(s, e)
    ensures WellFormed(Next(s, e))
  {
    ListKept(s, e);
    if Changes(e) {
      WellFormedByChange(s, e);
    } else {
      Unchanged(s, e);
      if WorkerStep(e) {
        WellFormedByWorker(s, e);
      }
    }
  }

  lemma WellFormedByChange(s: State, e: Event)
    requires WellFormed(s) && Enabled(s, e) && Changes(e) && ListOk(Next(s, e))
    ensures WellFormed(Next(s, e))
  {
    if e.ScanEnd? {
      MoveToBackSame(s.order, IndexOf(s.order, s.pc.best));
    }
  }

  lemma WellFormedByWorker(s: State, e: Event)
    requires WellFormed(s) && Enabled(s, e) && WorkerStep(e) && !Changes(e) && ListOk(Next(s, e))
    ensures WellFormed(Next(s, e))
  {
  }

  // Trigger times only rise, because a reset counts a full interval from now on.
  lemma TriggersRise(s: State, e: Event)
    requires WellFormed(s) && Enabled(s, e)
    ensures |s.trigger| <= |Next(s, e).trigger|
    ensures forall t | 0 <= t < |s.trigger| :: s.trigger[t] <= Next(s, e).trigger[t]
    ensures s.interval <= Next(s, e).interval && s.now <= Next(s, e).now
  {
    match e {
      case Reset(_) =>
      case Timeout =>
      case Create(_) =>
      case _ => assert Next(s, e).trigger == s.trigger;
    }
  }

  // When the scan is over, no listed timer is due before the time read for the best one,
  // whichever timers were reset in the meantime.
  lemma ScanCovers(s: State)
    requires WellFormed(s) && Timing(s) && Enabled(s, ScanEnd)
    ensures NoneBefore(s, s.pc.time)
  {
    forall u | u in s.order ensures s.pc.time <= s.trigger[u] {
      var i :| 0 <= i < |s.order| && s.order[i] == u;
    }
  }

  // What other threads do cannot make a listed timer due before the time that was read.
  lemma TimingKeptByOthers(s: State, e: Event)
    requires WellFormed(s) && Timing(s) && Enabled(s, e) && !WorkerStep(e)
    requires WellFormed(Next(s, e))
    ensures Timing(Next(s, e))
  {
    TriggersRise(s, e);
  }

  lemma TimingKept(s: State, e: Event)
    requires WellFormed(s) && Timing(s) && Enabled(s, e)
    requires WellFormed(Next(s, e))
    ensures Timing(Next(s, e))
  {
    if !WorkerStep(e) {
      TimingKeptByOthers(s, e);
    } else if e == ScanEnd {
      ScanCovers(s);
      MoveToBackSame(s.order, IndexOf(s.order, s.pc.best));
    } else if e == Decide || e == ScanStep || e == ReadDeadline {
      TimingKeptInPass(s, e);
    } else {
      TimingNotNeeded(s, e);
    }
  }

  lemma TimingKeptInPass(s: State, e: Event)
    requires WellFormed(s) && Timing(s) && Enabled(s, e) && (e == Decide || e == ScanStep || e == ReadDeadline)
    requires WellFormed(Next(s, e))
    ensures Timing(Next(s, e))
  {
    Unchanged(s, e);
  }

  // The other steps of the worker lead to where nothing is required of the times.
  lemma TimingNotNeeded(s: State, e: Event)
    requires Enabled(s, e) && WorkerStep(e) && WellFormed(Next(s, e))
    requires e != ScanEnd && e != Decide && e != ScanStep && e != ReadDeadline
    ensures Timing(Next(s, e))
  {
  }

  lemma WakeupKept(s: State, e: Event)
    requires WellFormed(s) && Timing(s) && NoLostWakeup(s) && Enabled(s, e)
    ensures NoLostWakeup(Next(s, e))
  {
  }

  lemma StoppingKept(s: State, e: Event)
    requires Stopping(s) && Enabled(s, e)
    ensures Stopping(Next(s, e))
  {
  }

  lemma InvKept(s: State, e: Event)
    requires Inv(s) && Enabled(s, e)
    ensures Inv(Next(s, e))
  {
    WellFormedKept(s, e);
    TimingKept(s, e);
    WakeupKept(s, e);
    StoppingKept(s, e);
  }

  lemma {:induction false} InvAlways(es: seq<Event>)
    requires IsRun(Init, es)
    ensures Inv(Run(Init, es))
  {
    if es != [] {
      InvAlways(Front(es));
      InvKept(Run(Init, Front(es)), Last(es));
    }
  }

  // ---- sleeping ----

  ghost predicate Oversleeps(s: State)
    requires ListOk(s)
  {
    s.pc.Sleeping? && !s.cancel && exists u | u in s.order :: s.trigger[u] < s.pc.deadline
  }

  // In no state of the run does the worker sleep past the trigger time of a listed timer.
  ghost predicate AlwaysOnTime(es: seq<Event>)
    requires IsRun(Init, es)
  {
    && ListOk(Run(Init, es)) && !Oversleeps(Run(Init, es))
    && (es != [] ==> AlwaysOnTime(Front(es)))
  }

  // The deadline read for the chosen timer is not after another listed timer.
  ghost predicate ReadsInTime(s: State, e: Event) {
    ListOk(s) && (e == ReadDeadline && Enabled(s, e) ==> NoneBefore(s, s.trigger[s.pc.best]))
  }

  ghost predicate AllReadsInTime(es: seq<Event>)
    requires IsRun(Init, es)
  {
    es == [] || (AllReadsInTime(Front(es)) && ReadsInTime(Run(Init, Front(es)), Last(es)))
  }

  // The timer chosen by the scan still has the trigger time it was chosen for.
  ghost predicate Undisturbed(es: seq<Event>)
    requires IsRun(Init, es)
  {
    es == [] ||
    (Undisturbed(Front(es)) &&
     var s := Run(Init, Front(es));
     Last(es) == ReadDeadline ==> s.trigger[s.pc.best] == s.pc.time)
  }

  lemma OnTimeStep(s: State, e: Event)
    requires Inv(s) && Enabled(s, e) && Inv(Next(s, e)) && !Oversleeps(s)
    ensures !Oversleeps(Next(s, e)) <==> ReadsInTime(s, e)
  {
    TriggersRise(s, e);
  }

  // The worker never oversleeps exactly when every deadline it reads is in time.
  lemma {:induction false} OnTimeIff(es: seq<Event>)
    requires IsRun(Init, es)
    ensures AlwaysOnTime(es) <==> AllReadsInTime(es)
  {
    InvAlways(es);
    if es != [] {
      InvAlways(Front(es));
      OnTimeIff(Front(es));
      if AlwaysOnTime(Front(es)) {
        OnTimeStep(Run(Init, Front(es)), Last(es));
      }
    }
  }

  // In particular while no timer is reset between being chosen and being slept for. And
  // the worker sleeps without a deadline only if there are no timers.
  lemma {:induction false} NeverOversleeps(es: seq<Event>)
    requires IsRun(Init, es) && Undisturbed(es)
    ensures AllReadsInTime(es) && AlwaysOnTime(es)
    ensures var s := Run(Init, es); s.pc.Idle? && !s.cancel ==> s.order == []
  {
    InvAlways(es);
    if es != [] {
      NeverOversleeps(Front(es));
      InvAlways(Front(es));
    }
    OnTimeIff(es);
  }

  // ---- which resets are safe ----

  // A guard for the caller of reset(): the timer is not the one the worker is just choosing,
  // or it will not be due after any other listed one.
  ghost predicate SafeReset(s: State, t: Timer)
    requires ListOk(s) && Known(s, t)
  {
    (s.pc.Scanning? || s.pc.Picked?) && t == s.pc.best ==>
      forall u | u in s.order && u != t :: s.now + s.interval[t] <= s.trigger[u]
  }

  ghost predicate AllResetsSafe(es: seq<Event>)
    requires IsRun(Init, es)
  {
    es == [] ||
    (AllResetsSafe(Front(es)) &&
     var s := Run(Init, Front(es));
     Last(es).Reset? ==> ListOk(s) && SafeReset(s, Last(es).timer))
  }

  // While the worker is choosing, its best timer has the trigger time that was read, or is
  // not after any listed one.
  ghost predicate BestInTime(s: State)
    requires ListOk(s)
  {
    (s.pc.Scanning? || s.pc.Picked?) && s.pc.best < |s.trigger| ==>
      s.trigger[s.pc.best] == s.pc.time || NoneBefore(s, s.trigger[s.pc.best])
  }

  lemma ResetKeepsBest(s: State, t: Timer)
    requires Inv(s) && BestInTime(s) && Known(s, t) && SafeReset(s, t) && ListOk(Next(s, Reset(t)))
    ensures BestInTime(Next(s, Reset(t)))
  {
  }

  lemma ScanKeepsBest(s: State, e: Event)
    requires Inv(s) && BestInTime(s) && Enabled(s, e) && (e == ScanStep || e == ScanEnd) && ListOk(Next(s, e))
    ensures BestInTime(Next(s, e))
  {
    if e == ScanEnd {
      MoveToBackSame(s.order, IndexOf(s.order, s.pc.best));
    }
  }

  lemma BestKept(s: State, e: Event)
    requires Inv(s) && BestInTime(s) && Enabled(s, e) && (e.Reset? ==> SafeReset(s, e.timer))
    requires ListOk(Next(s, e))
    ensures BestInTime(Next(s, e))
  {
    if e.Reset? {
      ResetKeepsBest(s, e.timer);
    } else if e == ScanStep || e == ScanEnd {
      ScanKeepsBest(s, e);
    } else {
      TriggersRise(s, e);
    }
  }

  lemma BestIsInTime(s: State)
    requires Inv(s) && BestInTime(s)
    ensures ReadsInTime(s, ReadDeadline)
  {
  }

  lemma {:induction false} BestAlways(es: seq<Event>)
    requires IsRun(Init, es) && AllResetsSafe(es)
    ensures Inv(Run(Init, es)) && BestInTime(Run(Init, es)) && AllReadsInTime(es)
  {
    InvAlways(es);
    if es != [] {
      BestAlways(Front(es));
      BestKept(Run(Init, Front(es)), Last(es));
      BestIsInTime(Run(Init, Front(es)));
    }
  }

  // The worker never sleeps past the trigger time of a listed timer in any run in which
  // every reset is safe, whatever else the other threads do.
  lemma SafeResetsSuffice(es: seq<Event>)
    requires IsRun(Init, es) && AllResetsSafe(es)
    ensures AlwaysOnTime(es)
  {
    BestAlways(es);
    OnTimeIff(es);
  }

  // After the choice the guard is exact: a reset of the chosen timer makes the worker
  // oversleep if and only if it is not safe, because the trigger time is read again.
  lemma ResetAfterChoice(s: State)
    requires Inv(s) && s.pc.Picked?
    ensures var t := s.pc.best;
            var s1 := Next(s, Reset(t));
            Inv(s1) && Enabled(s1, ReadDeadline) && Inv(Next(s1, ReadDeadline)) &&
            (Oversleeps(Next(s1, ReadDeadline)) <==> !SafeReset(s, t))
  {
    var t := s.pc.best;
    assert t in s.order;
    var s1 := Next(s, Reset(t));
    InvKept(s, Reset(t));
    InvKept(s1, ReadDeadline);
    var s2 := Next(s1, ReadDeadline);
    assert s2.order == s.order && s2.pc.deadline == s.now + s.interval[t];
    assert forall u | u in s.order && u != t :: s2.trigger[u] == s.trigger[u];
  }

  // ---- a reset during the scan ----

  // The worker goes on from its scan to its wait, and nobody else takes a step.
  ghost function Continued(s: State): (n: State)
    requires Inv(s) && s.pc.Scanning?
    ensures Inv(n)
    decreases |s.order| - s.pc.k
  {
    if s.pc.k < |s.order| then
      CanScan(s);
      Continued(Next(s, ScanStep))
    else
      InvKept(s, ScanEnd);
      InvKept(Next(s, ScanEnd), ReadDeadline);
      Next(Next(s, ScanEnd), ReadDeadline)
  }

  lemma CanScan(s: State)
    requires Inv(s) && s.pc.Scanning? && s.pc.k < |s.order|
    ensures Enabled(s, ScanStep) && Inv(Next(s, ScanStep)) && Next(s, ScanStep).pc.Scanning?
    ensures Next(s, ScanStep).order == s.order && Next(s, ScanStep).trigger == s.trigger
    ensures Next(s, ScanStep).pc.k == s.pc.k + 1
  {
    assert s.order[s.pc.k] in s.order;
    InvKept(s, ScanStep);
  }

  // No item from the one the scan has come to is due before the best one's time.
  ghost predicate BestStays(s: State)
    requires Inv(s) && s.pc.Scanning?
  {
    forall i | s.pc.k <= i < |s.order| :: s.order[i] in s.order && s.pc.time <= s.trigger[s.order[i]]
  }

  // Then the best one stays, and its trigger time is read again.
  lemma {:induction false} StaysChosen(s: State)
    requires Inv(s) && s.pc.Scanning? && BestStays(s)
    ensures Continued(s) == s.(order := MoveToBack(s.order, IndexOf(s.order, s.pc.best)),
                               pc := Sleeping(s.pc.best, s.trigger[s.pc.best], s.pc.time, false))
    decreases |s.order| - s.pc.k
  {
    if s.pc.k < |s.order| {
      CanScan(s);
      StaysChosen(Next(s, ScanStep));
    }
  }

  // A best timer whose time is the one that was read, or that gives way to such a one, is
  // slept for in time.
  lemma {:induction false} ContinuesInTime(s: State)
    requires Inv(s) && s.pc.Scanning? && (s.trigger[s.pc.best] == s.pc.time || !BestStays(s))
    ensures !Oversleeps(Continued(s))
    decreases |s.order| - s.pc.k
  {
    if s.pc.k < |s.order| {
      CanScan(s);
      ContinuesInTime(Next(s, ScanStep));
    }
  }

  // A reset of the best timer during the scan makes the worker oversleep, if nobody else
  // interferes, exactly if no timer still to be looked at takes its place and the reset is
  // not safe.
  lemma ResetDuringScan(s: State)
    requires Inv(s) && s.pc.Scanning?
    ensures var s1 := Next(s, Reset(s.pc.best));
            Inv(s1) && (Oversleeps(Continued(s1)) <==> BestStays(s) && !SafeReset(s, s.pc.best))
  {
    var t := s.pc.best;
    var s1 := Next(s, Reset(t));
    InvKept(s, Reset(t));
    TriggersRise(s, Reset(t));
    StaysIfStayed(s, s1);
    if BestStays(s1) {
      ScanOversleeps(s, s1);
    } else {
      ContinuesInTime(s1);
    }
  }

  lemma StaysIfStayed(s: State, s1: State)
    requires Inv(s) && s.pc.Scanning? && s1 == Next(s, Reset(s.pc.best)) && Inv(s1)
    ensures BestStays(s) <==> BestStays(s1)
  {
    assert forall i | 0 <= i < |s.order| :: s.order[i] in s.order;
    assert forall i | 0 <= i < |s.order| && s.order[i] != s.pc.best :: s1.trigger[s.order[i]] == s.trigger[s.order[i]];
  }

  lemma ScanOversleeps(s: State, s1: State)
    requires Inv(s) && s.pc.Scanning? && s1 == Next(s, Reset(s.pc.best)) && Inv(s1) && BestStays(s1)
    ensures Oversleeps(Continued(s1)) <==> !SafeReset(s, s.pc.best)
  {
    var t, n := s.pc.best, Continued(s1);
    StaysChosen(s1);
    MoveToBackSame(s1.order, IndexOf(s1.order, t));
    assert n.trigger == s1.trigger && n.pc.deadline == s.now + s.interval[t] == s1.trigger[t];
    assert Oversleeps(n) <==> exists u | u in s.order :: s1.trigger[u] < s1.trigger[t];
  }

  ghost predicate Reachable(s: State) {
    exists es :: IsRun(Init, es) && Run(Init, es) == s
  }

  lemma ReachNext(s: State, e: Event, n: State)
    requires Reachable(s) && Enabled(s, e) && Next(s, e) == n
    ensures Reachable(n)
  {
    var es :| IsRun(Init, es) && Run(Init, es) == s;
    assert Front(es + [e]) == es;
    assert IsRun(Init, es + [e]) && Run(Init, es + [e]) == n;
  }

  // Timers 0 and 1, due at 10 and 12, both listed; everybody has been notified.
  const TwoTimers := State(0, [0, 1], [10, 12], [10, 12], true, false, AtLoop, 0, false, 0, [])
  // Timer 0 has been chosen while timer 1 waits.
  const Chosen := TwoTimers.(order := [1, 0], cancel := false, pc := Picked(0, 10))

  lemma ReachTwoTimers()
    ensures Reachable(TwoTimers)
  {
    assert IsRun(Init, []) && Run(Init, []) == Init;
    var s := Init.(trigger := [10], interval := [10]);
    ReachNext(Init, Create(10), s);
    var s1 := s.(trigger := [10, 12], interval := [10, 12]);
    ReachNext(s, Create(12), s1);
    ReachAdds(s1);
  }

  lemma ReachAdds(s: State)
    requires Reachable(s) && s == TwoTimers.(order := [], cancel := false)
    ensures Reachable(TwoTimers)
  {
    var s1 := TwoTimers.(order := [0], pending := 1);
    ReachNext(s, Add(0), s1);
    ReachNext(s1, Notify, s1.(pending := 0));
    var s2 := TwoTimers.(pending := 1);
    ReachNext(s1.(pending := 0), Add(1), s2);
    ReachNext(s2, Notify, TwoTimers);
  }

  lemma ReachDeciding(s: State)
    requires Reachable(s) && s.pc == AtLoop && !s.terminate && !s.stopped
    ensures Reachable(s.(pc := Deciding))
  {
    ReachNext(s, LoopTop, s.(pc := Entering));
    ReachNext(s.(pc := Entering), Enter, s.(pc := Deciding));
  }

  lemma ReachScanning()
    ensures Reachable(TwoTimers.(cancel := false, pc := Scanning(0, 0, 10)))
  {
    ReachTwoTimers();
    ReachDeciding(TwoTimers);
    var s := TwoTimers.(cancel := false);
    ReachNext(TwoTimers.(pc := Deciding), Decide, s);
    ReachDeciding(s);
    ReachNext(s.(pc := Deciding), Decide, s.(pc := Scanning(0, 0, 10)));
  }

  lemma ReachChosen()
    ensures Reachable(Chosen)
  {
    ReachScanning();
    var s := TwoTimers.(cancel := false);
    ReachNext(s.(pc := Scanning(0, 0, 10)), ScanStep, s.(pc := Scanning(1, 0, 10)));
    ReachNext(s.(pc := Scanning(1, 0, 10)), ScanStep, s.(pc := Scanning(2, 0, 10)));
    assert MoveToBack([0, 1], 0) == [1, 0];
    ReachNext(s.(pc := Scanning(2, 0, 10)), ScanEnd, Chosen);
  }

  // Timer 0 is reset at time 5, before its trigger time is read again.
  lemma ReachAsleep()
    ensures Reachable(Chosen.(now := 5, trigger := [15, 12], pc := Sleeping(0, 15, 10, false)))
  {
    ReachChosen();
    var p := Chosen.(now := 5);
    ReachNext(Chosen, Tick(5), p);
    var q := p.(trigger := [15, 12]);
    ReachNext(p, Reset(0), q);
    ReachNext(q, ReadDeadline, q.(pc := Sleeping(0, 15, 10, false)));
  }

  // It does happen: the worker sleeps until 15, nobody is about to wake it, and at time 14
  // timer 1 has been due for two units of time and has not fired.
  lemma OversleepingIsReachable() returns (s: State)
    ensures Reachable(s) && ListOk(s) && Oversleeps(s)
    ensures s.pc == Sleeping(0, 15, 10, false) && s.pending == 0 && s.now == 14
    ensures 1 in s.order && s.trigger[1] == 12 && s.fired == []
  {
    ReachAsleep();
    var q := Chosen.(now := 5, trigger := [15, 12], pc := Sleeping(0, 15, 10, false));
    s := q.(now := 14);
    ReachNext(q, Tick(9), s);
    assert s.order[0] == 1 && 1 in s.order && s.trigger[1] < s.pc.deadline;
  }

  // ---- firing ----

  // A firing timer is listed and due, and its next trigger time is an interval away.
  lemma FiresOnlyWhenDue(s: State, e: Event)
    requires Inv(s) && Enabled(s, e)
    ensures var n := Next(s, e);
            n.fired == s.fired ||
            (e == Timeout && s.pc.best in s.order && s.trigger[s.pc.best] <= s.now
             && n.fired == s.fired + [Firing(s.pc.best, s.now)]
             && n.trigger == s.trigger[s.pc.best := s.now + s.interval[s.pc.best]])
  {
  }

  // Firings of one timer are at least an interval apart, and so is the next one.
  ghost predicate Spaced(s: State) {
    && (forall i | 0 <= i < |s.fired| ::
          var f := s.fired[i];
          f.timer < |s.trigger| == |s.interval| && f.at <= s.now
          && f.at + s.interval[f.timer] <= s.trigger[f.timer])
    && (forall i, j | 0 <= i < j < |s.fired| && s.fired[i].timer == s.fired[j].timer ::
          s.fired[i].timer < |s.interval| && s.fired[i].at + s.interval[s.fired[i].timer] <= s.fired[j].at)
  }

  lemma SpacedKept(s: State, e: Event)
    requires Inv(s) && Spaced(s) && Enabled(s, e)
    ensures Spaced(Next(s, e))
  {
    TriggersRise(s, e);
    FiresOnlyWhenDue(s, e);
  }

  lemma {:induction false} FiringsSpaced(es: seq<Event>)
    requires IsRun(Init, es)
    ensures Spaced(Run(Init, es))
  {
    if es != [] {
      FiringsSpaced(Front(es));
      InvAlways(Front(es));
      SpacedKept(Run(Init, Front(es)), Last(es));
    }
  }

  // How often timer t fired from time a to time b.
  ghost function CountIn(fired: seq<Firing>, t: Timer, a: int, b: int): nat {
    if fired == [] then 0
    else
      var f := Last(fired);
      CountIn(Front(fired), t, a, b) + if f.timer == t && a <= f.at <= b then 1 else 0
  }

  // Which of the firings these are.
  ghost function Within(fired: seq<Firing>, t: Timer, a: int, b: int): set<nat> {
    set i: nat | i < |fired| && fired[i].timer == t && a <= fired[i].at <= b
  }

  lemma {:induction false} CountInSize(fired: seq<Firing>, t: Timer, a: int, b: int)
    ensures CountIn(fired, t, a, b) == |Within(fired, t, a, b)|
  {
    if fired != [] {
      var k, f := |fired| - 1, Last(fired);
      CountInSize(Front(fired), t, a, b);
      assert Within(fired, t, a, b)
             == Within(Front(fired), t, a, b) + if f.timer == t && a <= f.at <= b then {k} else {};
    }
  }

  // The last of n firings in a window comes n - 1 intervals after its start.
  lemma {:induction false} LastFiring(fired: seq<Firing>, t: Timer, d: int, a: int, b: int) returns (k: nat)
    requires forall i, j | 0 <= i < j < |fired| && fired[i].timer == t == fired[j].timer ::
               fired[i].at + d <= fired[j].at
    requires CountIn(fired, t, a, b) > 0
    ensures k < |fired| && fired[k].timer == t && a <= fired[k].at <= b
    ensures a + (CountIn(fired, t, a, b) - 1) * d <= fired[k].at
  {
    var f := Last(fired);
    var n := CountIn(Front(fired), t, a, b);
    if f.timer == t && a <= f.at <= b {
      k := |fired| - 1;
      if n > 0 {
        var i := LastFiring(Front(fired), t, d, a, b);
        assert fired[i].at + d <= f.at;
        assert (n - 1) * d + d == n * d;
      }
    } else {
      k := LastFiring(Front(fired), t, d, a, b);
    }
  }

  lemma QuotientBound(n: nat, d: nat, length: nat)
    requires n > 0 && d > 0 && (n - 1) * d <= length
    ensures n <= length / d + 1
  {
    var q := length / d;
    assert length < q * d + d == (q + 1) * d;
    if n - 1 > q {
      MultiplesGrow(q + 1, n - 1, d);
    }
  }

  lemma MultiplesGrow(a: nat, b: nat, d: nat)
    requires a <= b
    ensures a * d <= b * d
  {
    assert b * d == a * d + (b - a) * d;
  }

  lemma CountBound(fired: seq<Firing>, t: Timer, d: nat, a: int, length: nat)
    requires d > 0
    requires forall i, j | 0 <= i < j < |fired| && fired[i].timer == t == fired[j].timer ::
               fired[i].at + d <= fired[j].at
    ensures CountIn(fired, t, a, a + length) <= length / d + 1
  {
    var n := CountIn(fired, t, a, a + length);
    if n > 0 {
      var k := LastFiring(fired, t, d, a, a + length);
      QuotientBound(n, d, length);
    }
  }

  // A window of length `length` holds at most length / interval + 1 firings of a timer with
  // a positive interval.
  lemma FiringRate(es: seq<Event>, t: Timer, a: int, length: nat)
    requires IsRun(Init, es)
    requires var s := Run(Init, es); t < |s.interval| && s.interval[t] > 0
    ensures var s := Run(Init, es);
            |Within(s.fired, t, a, a + length)| <= length / s.interval[t] + 1
  {
    var s := Run(Init, es);
    CountInSize(s.fired, t, a, a + length);
    FiringsSpaced(es);
    CountBound(s.fired, t, s.interval[t], a, length);
  }

  // ---- bounded bypass ----

  // Events that neither change the list, nor end a wait before its deadline, nor reset t.
  predicate QuietFor(e: Event, t: Timer) {
    !e.Add? && !e.Remove? && !e.WakeUp? && e != Reset(t)
  }

  // Wherever both are listed, t comes before u.
  ghost predicate Ahead(order: seq<Timer>, t: Timer, u: Timer) {
    forall i, j | 0 <= i < |order| && 0 <= j < |order| && order[i] == t && order[j] == u :: i < j
  }

  // Timer t is due no later than u, and u cannot be chosen before t.
  ghost predicate Behind(s: State, t: Timer, u: Timer)
    requires WellFormed(s) && t in s.order && u < |s.trigger|
  {
    && s.trigger[t] <= s.trigger[u]
    && match s.pc {
         case Picked(best, _) => best == t || (best != u && Ahead(s.order, t, u))
         case Sleeping(best, d, _, _) =>
           if best == t then Last(s.order) == t && d == s.trigger[t] else best != u && Ahead(s.order, t, u)
         case Scanning(_, best, _) => best != u && Ahead(s.order, t, u)
         case _ => Ahead(s.order, t, u)
       }
  }

  lemma AheadKept(s: seq<Timer>, k: nat, t: Timer, u: Timer)
    requires k < |s| && s[k] != t && Ahead(s, t, u)
    ensures Ahead(MoveToBack(s, k), t, u)
  {
    var r := MoveToBack(s, k);
    forall i, j | 0 <= i < |r| && 0 <= j < |r| && r[i] == t && r[j] == u ensures i < j {
      var p := if i < k then i else i + 1;
      var q := if j < k then j else if j == |r| - 1 then k else j + 1;
      assert s[p] == t && s[q] == u;
    }
  }

  lemma BehindKeptInScan(s: State, e: Event, t: Timer, u: Timer)
    requires Inv(s) && Enabled(s, e) && (e == Decide || e == ScanStep || e == ScanEnd)
    requires t in s.order && u != t && u < |s.trigger| && Behind(s, t, u)
    ensures var n := Next(s, e); WellFormed(n) && t in n.order && Behind(n, t, u)
  {
    WellFormedKept(s, e);
    if e == ScanEnd {
      var k := IndexOf(s.order, s.pc.best);
      MoveToBackSame(s.order, k);
      if s.pc.best != t { AheadKept(s.order, k, t, u); }
    }
    var i :| 0 <= i < |s.order| && s.order[i] == t;
    assert e == Decide ==> Ahead(s.order, t, u);
  }

  lemma BehindKept(s: State, e: Event, t: Timer, u: Timer)
    requires Inv(s) && Enabled(s, e) && QuietFor(e, t)
    requires t in s.order && u != t && u < |s.trigger| && s.trigger[t] <= s.now
    requires Behind(s, t, u)
    requires var n := Next(s, e); n.fired == s.fired || Last(n.fired).timer != t
    ensures var n := Next(s, e);
            && WellFormed(n) && t in n.order && u < |n.trigger| && Behind(n, t, u)
            && (n.fired == s.fired || Last(n.fired).timer != u)
  {
    WellFormedKept(s, e);
    if e == Decide || e == ScanStep || e == ScanEnd {
      BehindKeptInScan(s, e, t, u);
    } else if Changes(e) {
      BehindKeptByChange(s, e, t, u);
    } else {
      Unchanged(s, e);
      BehindKeptElse(s, e, t, u);
    }
  }

  lemma BehindKeptByChange(s: State, e: Event, t: Timer, u: Timer)
    requires Inv(s) && Enabled(s, e) && QuietFor(e, t) && (e.Create? || e.Reset? || e.Timeout?)
    requires t in s.order && u != t && u < |s.trigger| && s.trigger[t] <= s.now
    requires Behind(s, t, u) && WellFormed(Next(s, e))
    requires var n := Next(s, e); n.fired == s.fired || Last(n.fired).timer != t
    ensures var n := Next(s, e);
            && t in n.order && u < |n.trigger| && Behind(n, t, u)
            && (n.fired == s.fired || Last(n.fired).timer != u)
  {
  }

  lemma BehindKeptElse(s: State, e: Event, t: Timer, u: Timer)
    requires Inv(s) && Enabled(s, e) && QuietFor(e, t) && !Changes(e)
    requires e != Decide && e != ScanStep && e != ScanEnd
    requires t in s.order && u < |s.trigger| && Behind(s, t, u)
    requires WellFormed(Next(s, e)) && Next(s, e).order == s.order && Next(s, e).trigger == s.trigger
    ensures Behind(Next(s, e), t, u)
  {
  }

  lemma FiringPutsBehind(s: State, t: Timer)
    requires Inv(s) && Enabled(s, Timeout) && Next(s, Timeout).fired != s.fired
    requires t in s.order && t != s.pc.best && s.trigger[t] <= s.now
    requires s.interval[s.pc.best] >= 0
    ensures var n := Next(s, Timeout);
            WellFormed(n) && t in n.order && n.trigger[t] == s.trigger[t] && Behind(n, t, s.pc.best)
  {
    WellFormedKept(s, Timeout);
  }

  ghost function Count(fired: seq<Firing>, t: Timer): nat {
    if fired == [] then 0
    else Count(Front(fired), t) + if Last(fired).timer == t then 1 else 0
  }

  lemma StepCount(s: State, e: Event, t: Timer)
    requires Inv(s) && Enabled(s, e)
    ensures Inv(Next(s, e))
    ensures Next(s, e).fired != s.fired ==> Front(Next(s, e).fired) == s.fired
    ensures Count(Next(s, e).fired, t)
            == Count(s.fired, t) + if Next(s, e).fired != s.fired && Last(Next(s, e).fired).timer == t then 1 else 0
  {
    InvKept(s, e);
    FiresOnlyWhenDue(s, e);
  }

  lemma {:induction false} CountRises(s: State, es: seq<Event>, t: Timer)
    requires Inv(s) && IsRun(s, es)
    ensures Inv(Run(s, es)) && Count(s.fired, t) <= Count(Run(s, es).fired, t)
  {
    if es != [] {
      CountRises(s, Front(es), t);
      StepCount(Run(s, Front(es)), Last(es), t);
    }
  }

  // A step that neither resets nor fires t leaves it listed and due.
  lemma StepKeepsDue(s: State, e: Event, t: Timer)
    requires Inv(s) && Enabled(s, e) && QuietFor(e, t)
    requires t in s.order && s.trigger[t] <= s.now
    requires Next(s, e).fired == s.fired || Last(Next(s, e).fired).timer != t
    ensures var n := Next(s, e);
            Inv(n) && t in n.order && n.trigger[t] == s.trigger[t] <= n.now && s.interval <= n.interval
  {
    InvKept(s, e);
    FiresOnlyWhenDue(s, e);
    if e == ScanEnd {
      MoveToBackSame(s.order, IndexOf(s.order, s.pc.best));
    }
  }

  ghost predicate Due(s: State, t: Timer) {
    Inv(s) && t in s.order && s.trigger[t] <= s.now
  }

  // A step that neither fires nor resets t fires u only if u was not yet behind t.
  lemma BypassStep(s: State, e: Event, t: Timer, u: Timer)
    requires Due(s, t) && Enabled(s, e) && QuietFor(e, t)
    requires u != t && u < |s.interval| && s.interval[u] >= 0
    requires Count(Next(s, e).fired, t) == Count(s.fired, t)
    ensures var n := Next(s, e);
            && Due(n, t) && s.interval <= n.interval
            && (Count(n.fired, u) == Count(s.fired, u)
                || (Count(n.fired, u) == Count(s.fired, u) + 1 && Behind(n, t, u) && !Behind(s, t, u)))
            && (Behind(s, t, u) ==> Behind(n, t, u))
  {
    StepCount(s, e, t);
    StepCount(s, e, u);
    StepKeepsDue(s, e, t);
    if Behind(s, t, u) {
      BehindKept(s, e, t, u);
    } else if Next(s, e).fired != s.fired && Last(Next(s, e).fired).timer == u {
      FiringPutsBehind(s, t);
    }
  }

  // A timer that is due is overtaken at most once by each other timer before it fires or
  // is reset, while the list does not change and no wait is cut short.
  lemma {:induction false} BoundedBypass(s: State, es: seq<Event>, t: Timer, u: Timer)
    requires Due(s, t) && IsRun(s, es) && (forall e | e in es :: QuietFor(e, t))
    requires u != t && u < |s.interval| && s.interval[u] >= 0
    requires Count(Run(s, es).fired, t) == Count(s.fired, t)
    ensures var n := Run(s, es);
            && Due(n, t) && s.interval <= n.interval
            && (Count(n.fired, u) == Count(s.fired, u)
                || (Count(n.fired, u) == Count(s.fired, u) + 1 && Behind(n, t, u)))
  {
    if es != [] {
      var m, e := Run(s, Front(es)), Last(es);
      assert forall f | f in Front(es) :: f in es;
      CountRises(s, Front(es), t);
      StepCount(m, e, t);
      BoundedBypass(s, Front(es), t, u);
      BypassStep(m, e, t, u);
    }
  }

  // ---- shutdown ----

  // A bound on the worker's steps once a shutdown has set the cancel flag.
  function Rank(pc: Pc): nat {
    match pc
    case Done => 0
    case AtLoop => 1
    case Deciding => 2
    case Entering => 3
    case Calling(_) => 3
    case Sleeping(_, _, _, woken) => if woken then 4 else 5
    case Idle(woken) => if woken then 4 else 5
    case _ => 6
  }

  predicate WorkerStep(e: Event) {
    e.LoopTop? || e.Enter? || e.Decide? || e.ScanStep? || e.ScanEnd? || e.ReadDeadline?
    || e.Timeout? || e.WakeUp? || e.Return? || e.Throw?
  }

  // After a shutdown nothing raises the rank, and every step of the worker lowers it.
  lemma ShutdownProgress(s: State, e: Event)
    requires Inv(s) && s.stopped && Enabled(s, e)
    ensures var n := Next(s, e);
            n.stopped && Rank(n.pc) <= Rank(s.pc) && (WorkerStep(e) ==> Rank(n.pc) < Rank(s.pc))
  {
  }

  // Until it is done the worker has a step to take, or a notification is on its way.
  lemma NeverStuckInShutdown(s: State)
    requires Inv(s) && s.stopped && !s.pc.Done?
    ensures s.pending > 0 || exists e :: WorkerStep(e) && Enabled(s, e)
  {
    var e := match s.pc
      case AtLoop => LoopTop
      case Entering => Enter
      case Deciding => Decide
      case Calling(_) => Return
      case _ => WakeUp;
    assert s.order != [] ==> s.order[0] in s.order;
    assert s.pending == 0 ==> WorkerStep(e) && Enabled(s, e);
  }

  ghost function WorkerSteps(es: seq<Event>): nat {
    if es == [] then 0 else WorkerSteps(Front(es)) + if WorkerStep(Last(es)) then 1 else 0
  }

  // The positions of the worker's steps.
  ghost function ByWorker(es: seq<Event>): set<nat> {
    set i: nat | i < |es| && WorkerStep(es[i])
  }

  lemma {:induction false} WorkerStepsSize(es: seq<Event>)
    ensures WorkerSteps(es) == |ByWorker(es)|
  {
    if es != [] {
      WorkerStepsSize(Front(es));
      assert ByWorker(es) == ByWorker(Front(es)) + if WorkerStep(Last(es)) then {|es| - 1} else {};
    }
  }

  // Whatever other threads do, after a shutdown the worker takes at most five more steps,
  // enters its action at most once, and once every thread has notified it is not asleep.
  lemma {:induction false} CleanShutdown(s: State, es: seq<Event>)
    requires Inv(s) && s.stopped && IsRun(s, es)
    ensures var n := Run(s, es);
            && Inv(n) && n.stopped && n.entries <= 1
            && Rank(n.pc) + WorkerSteps(es) <= Rank(s.pc) <= 5
            && (n.pending == 0 && (n.pc.Sleeping? || n.pc.Idle?) ==> n.pc.woken)
  {
    if es != [] {
      CleanShutdown(s, Front(es));
      InvKept(Run(s, Front(es)), Last(es));
      ShutdownProgress(Run(s, Front(es)), Last(es));
    }
  }

  // ---- one pass of the worker ----

  // While the worker holds the list lock, other threads can let time pass and reset timers.
  predicate DuringPass(e: Event) {
    WorkerStep(e) || e.Tick? || e.Reset?
  }

  ghost predicate Passes(s: State, t: State) {
    exists es :: IsRun(s, es) && (forall e | e in es :: DuringPass(e)) && Run(s, es) == t
  }

  // A set of states that a pass cannot leave.
  ghost predicate Closed(r: iset<State>) {
    forall s, e | s in r && DuringPass(e) && Enabled(s, e) :: Next(s, e) in r
  }

  lemma PassesNext(s: State, t: State, e: Event)
    requires Passes(s, t) && DuringPass(e) && Enabled(t, e)
    ensures Passes(s, Next(t, e))
  {
    var es :| IsRun(s, es) && (forall e | e in es :: DuringPass(e)) && Run(s, es) == t;
    assert Front(es + [e]) == es && Last(es + [e]) == e;
    assert IsRun(s, es + [e]) && Run(s, es + [e]) == Next(t, e);
  }

  // Such are the states that can be reached from a given one.
  lemma PassesClosed(s: State)
    ensures var r := iset t | Passes(s, t); Closed(r) && s in r
  {
    assert IsRun(s, []) && Run(s, []) == s;
    forall t, e | Passes(s, t) && DuringPass(e) && Enabled(t, e) ensures Passes(s, Next(t, e)) {
      PassesNext(s, t, e);
    }
  }

  lemma CancelStays(r: iset<State>, s: State)
    requires Closed(r) && s in r && s.pc == Deciding && s.cancel
    ensures s.(cancel := false, pc := AtLoop) in r
  {
    assert DuringPass(Decide) && Enabled(s, Decide) && Next(s, Decide) in r;
  }

  lemma IdleStays(r: iset<State>, s: State)
    requires Closed(r) && s in r && s.pc == Deciding && !s.cancel && s.order == []
    ensures s.(pc := Idle(false)) in r
  {
    assert DuringPass(Decide) && Enabled(s, Decide) && Next(s, Decide) in r;
  }

  lemma DecideStays(r: iset<State>, s: State)
    requires Closed(r) && s in r && s.pc == Deciding && !s.cancel && s.order != [] && Known(s, s.order[0])
    ensures s.(pc := Scanning(0, s.order[0], s.trigger[s.order[0]])) in r
  {
    assert DuringPass(Decide) && Enabled(s, Decide) && Next(s, Decide) in r;
  }

  lemma ScanStepStays(r: iset<State>, s: State)
    requires Closed(r) && s in r && s.pc.Scanning? && s.pc.k < |s.order| && Known(s, s.order[s.pc.k])
    ensures var u := s.order[s.pc.k];
            (if s.pc.time > s.trigger[u] then s.(pc := Scanning(s.pc.k + 1, u, s.trigger[u]))
             else s.(pc := Scanning(s.pc.k + 1, s.pc.best, s.pc.time))) in r
  {
    assert DuringPass(ScanStep) && Enabled(s, ScanStep) && Next(s, ScanStep) in r;
  }

  lemma ScanEndStays(r: iset<State>, s: State)
    requires Closed(r) && s in r && s.pc.Scanning? && s.pc.k == |s.order| && s.pc.best in s.order
    ensures s.(order := MoveToBack(s.order, IndexOf(s.order, s.pc.best)), pc := Picked(s.pc.best, s.pc.time)) in r
  {
    assert DuringPass(ScanEnd) && Enabled(s, ScanEnd) && Next(s, ScanEnd) in r;
  }

  lemma ReadDeadlineStays(r: iset<State>, s: State)
    requires Closed(r) && s in r && s.pc.Picked? && Known(s, s.pc.best)
    ensures s.(pc := Sleeping(s.pc.best, s.trigger[s.pc.best], s.pc.time, false)) in r
  {
    assert DuringPass(ReadDeadline) && Enabled(s, ReadDeadline) && Next(s, ReadDeadline) in r;
  }

  lemma TickStays(r: iset<State>, s: State, dt: nat)
    requires Closed(r) && s in r
    ensures s.(now := s.now + dt) in r
  {
    assert DuringPass(Tick(dt)) && Enabled(s, Tick(dt)) && Next(s, Tick(dt)) in r;
  }

  lemma ResetStays(r: iset<State>, s: State, t: Timer)
    requires Closed(r) && s in r && Known(s, t)
    ensures DoReset(s, t) in r
  {
    assert DuringPass(Reset(t)) && Enabled(s, Reset(t)) && Next(s, Reset(t)) in r;
  }

  // ---- one undisturbed choice ----

  predicate FirstMin(order: seq<Timer>, trigger: seq<int>, k: nat)
    requires k < |order| && forall i | 0 <= i < |order| :: order[i] < |trigger|
  {
    && (forall i | 0 <= i < |order| :: trigger[order[k]] <= trigger[order[i]])
    && (forall i | 0 <= i < k :: trigger[order[k]] < trigger[order[i]])
  }

  // The worker goes from testing the cancel flag to sleeping, and nobody else takes a step.
  ghost predicate Chooses(s: State, t: State) {
    exists es :: IsRun(s, es) && (forall e | e in es :: WorkerStep(e)) && Run(s, es) == t
  }

  lemma ChoosesNext(s: State, t: State, e: Event, n: State)
    requires Chooses(s, t) && WorkerStep(e) && Enabled(t, e) && Next(t, e) == n
    ensures Chooses(s, n)
  {
    var es :| IsRun(s, es) && (forall e | e in es :: WorkerStep(e)) && Run(s, es) == t;
    assert Front(es + [e]) == es && Last(es + [e]) == e;
    assert IsRun(s, es + [e]) && Run(s, es + [e]) == n;
  }

  ghost predicate InRange(s: State) {
    forall i | 0 <= i < |s.order| :: s.order[i] < |s.trigger| && s.order[i] < |s.interval|
  }

  function ScanningAt(s: State, k: nat, b: nat): State
    requires b < |s.order| && s.order[b] < |s.trigger|
  {
    s.(pc := Scanning(k, s.order[b], s.trigger[s.order[b]]))
  }

  // Position of the best timer among the first k the scan looks at.
  ghost function Best(s: State, k: nat): (b: nat)
    requires InRange(s) && 0 < |s.order| && k <= |s.order|
    ensures b < |s.order| && (k > 0 ==> b < k)
  {
    if k == 0 then 0
    else
      var b := Best(s, k - 1);
      if s.trigger[s.order[b]] > s.trigger[s.order[k - 1]] then k - 1 else b
  }

  lemma {:induction false} BestIsFirstMin(s: State, k: nat)
    requires InRange(s) && 0 < |s.order| && k <= |s.order|
    ensures var b := Best(s, k);
            && (k == 0 ==> b == 0)
            && (forall i | 0 <= i < k :: s.trigger[s.order[b]] <= s.trigger[s.order[i]])
            && (forall i | 0 <= i < b :: s.trigger[s.order[b]] < s.trigger[s.order[i]])
  {
    if k > 0 {
      BestIsFirstMin(s, k - 1);
    }
  }

  lemma {:induction false} ScanReaches(s: State, k: nat)
    requires InRange(s) && s.pc == Deciding && !s.cancel && 0 < |s.order| && k <= |s.order|
    ensures Chooses(s, ScanningAt(s, k, Best(s, k)))
  {
    if k == 0 {
      assert IsRun(s, []) && Run(s, []) == s;
      ChoosesNext(s, s, Decide, ScanningAt(s, 0, 0));
    } else {
      ScanReaches(s, k - 1);
      ChoosesNext(s, ScanningAt(s, k - 1, Best(s, k - 1)), ScanStep, ScanningAt(s, k, Best(s, k)));
    }
  }

  // Undisturbed, the worker sleeps for the first of the timers with the smallest trigger
  // time and leaves it at the back of the list.
  lemma UndisturbedChoice(s: State, k: nat)
    requires InRange(s) && Distinct(s.order) && s.pc == Deciding && !s.cancel && k < |s.order|
    requires FirstMin(s.order, s.trigger, k)
    ensures var t := s.order[k];
            Chooses(s, s.(order := MoveToBack(s.order, k), pc := Sleeping(t, s.trigger[t], s.trigger[t], false)))
  {
    BestIsFirstMin(s, |s.order|);
    ScanReaches(s, |s.order|);
    assert Best(s, |s.order|) == k;
    assert IndexOf(s.order, s.order[k]) == k;
    var u := ScanningAt(s, |s.order|, k);
    ChoosesNext(s, u, ScanEnd, Next(u, ScanEnd));
    ChoosesNext(s, Next(u, ScanEnd), ReadDeadline, Next(Next(u, ScanEnd), ReadDeadline));
  }
}
