// A set of sockets that is polled for events. The callbacks of the sockets may change the
// set while it is being walked.
module SocketSets {
  import opened Results
  import opened Seqs

  datatype Sock = Sock(id: nat, fd: int)
  datatype Revents = Revents(pollin: bool, pollhup: bool)
  datatype PollFd = PollFd(fd: int, revents: Revents)

  const NOTHING := Revents(false, false)

  // Two vectors that belong together index by index.
  datatype Set = Set(socks: seq<Sock>, fds: seq<PollFd>)
  {
    predicate Aligned() {
      |socks| == |fds| && forall i | 0 <= i < |socks| :: fds[i].fd == socks[i].fd
    }
  }

  // What a callback does to the set.
  datatype Op = Insert(s: Sock) | Delete(s: Sock)

  // A callback that was called.
  datatype Event = ReceiveReady(s: Sock) | Disconnected(s: Sock)

  // What a callback does to the set, and whether it ends with an exception.
  datatype Response = Response(ops: seq<Op>, throws: bool)

  // What the callbacks do, given all the calls up to now and the set as it is.
  type Reaction = (seq<Event>, Set) -> Response

  ghost function Apply(x: Set, op: Op): (y: Set)
    requires x.Aligned()
    ensures y.Aligned()
  {
    match op
    case Insert(s) => Set(x.socks + [s], x.fds + [PollFd(s.fd, NOTHING)])
    case Delete(s) =>
      if s !in x.socks then x
      else Set(RemoveAt(x.socks, IndexOf(x.socks, s)), RemoveAt(x.fds, IndexOf(x.socks, s)))
  }

  ghost function ApplyAll(x: Set, ops: seq<Op>): (y: Set)
    requires x.Aligned()
    ensures y.Aligned()
    decreases |ops|
  {
    if ops == [] then x else ApplyAll(Apply(x, ops[0]), ops[1..])
  }

  // The socket has something to be called for.
  predicate Ready(x: Set, k: nat)
    requires x.Aligned() && k < |x.socks|
  {
    x.fds[k].revents.pollin || x.fds[k].revents.pollhup
  }

  function CallFor(x: Set, k: nat): Event
    requires x.Aligned() && k < |x.socks|
  {
    if x.fds[k].revents.pollin then ReceiveReady(x.socks[k]) else Disconnected(x.socks[k])
  }

  datatype Walked = Walked(final: Set, log: seq<Event>, thrown: bool)

  // The walk over indices i - 1 down to 0. A callback's exception ends it. None stands for
  // an access beyond the vectors, which is undefined.
  ghost function Walk(x: Set, i: nat, log: seq<Event>, react: Reaction): (w: Option<Walked>)
    requires x.Aligned()
    ensures w.Some? ==> w.value.final.Aligned()
    decreases i
  {
    if i == 0 then Some(Walked(x, log, false))
    else if i > |x.socks| then None
    else if !Ready(x, i - 1) then Walk(x, i - 1, log, react)
    else
      var more := log + [CallFor(x, i - 1)];
      var r := react(more, x);
      if r.throws then Some(Walked(ApplyAll(x, r.ops), more, true))
      else Walk(ApplyAll(x, r.ops), i - 1, more, react)
  }

  // ---- callbacks that keep away from what is still to be visited ----

  // They may remove their own socket and any that has been visited, and add any socket.
  predicate Harmless(ops: seq<Op>, below: seq<Sock>) {
    forall k | 0 <= k < |ops| && ops[k].Delete? :: ops[k].s !in below
  }

  // No callback touches what is still to be visited, nor throws while a socket below is
  // ready.
  ghost predicate Polite(x: Set, i: nat, log: seq<Event>, react: Reaction)
    requires x.Aligned() && i <= |x.socks|
    decreases i
  {
    if i == 0 then true
    else if !Ready(x, i - 1) then Polite(x, i - 1, log, react)
    else
      var more := log + [CallFor(x, i - 1)];
      var r := react(more, x);
      var y := ApplyAll(x, r.ops);
      if r.throws then Due(x, i - 1) == []
      else Harmless(r.ops, x.socks[..i - 1]) && i - 1 <= |y.socks| && Polite(y, i - 1, more, react)
  }

  // The calls due for the sockets that were ready at the start, highest index first.
  function Due(x: Set, i: nat): seq<Event>
    requires x.Aligned() && i <= |x.socks|
  {
    if i == 0 then [] else if Ready(x, i - 1) then [CallFor(x, i - 1)] + Due(x, i - 1) else Due(x, i - 1)
  }

  ghost predicate SameBelow(x: Set, y: Set, i: nat) {
    i <= |x.socks| && i <= |x.fds| && i <= |y.socks| && i <= |y.fds|
    && x.socks[..i] == y.socks[..i] && x.fds[..i] == y.fds[..i]
  }

  lemma ApplyHarmless(x: Set, op: Op, i: nat)
    requires x.Aligned() && i <= |x.socks| && Harmless([op], x.socks[..i])
    ensures SameBelow(x, Apply(x, op), i)
  {
    if op.Delete? {
      assert [op][0] == op;
      assert forall j | 0 <= j < i :: x.socks[j] in x.socks[..i];
    }
  }

  lemma {:induction false} ApplyAllHarmless(x: Set, ops: seq<Op>, i: nat)
    requires x.Aligned() && i <= |x.socks| && Harmless(ops, x.socks[..i])
    ensures SameBelow(x, ApplyAll(x, ops), i)
    decreases |ops|
  {
    if ops != [] {
      ApplyHarmless(x, ops[0], i);
      ApplyAllHarmless(Apply(x, ops[0]), ops[1..], i);
    }
  }

  lemma {:induction false} DueSame(x: Set, y: Set, i: nat)
    requires x.Aligned() && y.Aligned() && SameBelow(x, y, i)
    ensures Due(x, i) == Due(y, i)
  {
    if i > 0 {
      assert x.socks[..i][i - 1] == y.socks[..i][i - 1] && x.fds[..i][i - 1] == y.fds[..i][i - 1];
      assert x.socks[..i - 1] == x.socks[..i][..i - 1] && x.fds[..i - 1] == x.fds[..i][..i - 1];
      assert y.socks[..i - 1] == y.socks[..i][..i - 1] && y.fds[..i - 1] == y.fds[..i][..i - 1];
      DueSame(x, y, i - 1);
    }
  }

  // Every socket that was ready at the start has its callback called exactly once, from
  // the last to the first, and nothing is read out of range.
  lemma {:induction false} PoliteWalk(x: Set, i: nat, log: seq<Event>, react: Reaction)
    requires x.Aligned() && i <= |x.socks| && Polite(x, i, log, react)
    ensures var w := Walk(x, i, log, react); w.Some? && w.value.log == log + Due(x, i)
    decreases i
  {
    if i > 0 {
      if !Ready(x, i - 1) {
        WalkIdle(x, i, log, react);
        PoliteWalk(x, i - 1, log, react);
      } else {
        var more := log + [CallFor(x, i - 1)];
        if react(more, x).throws {
          WalkThrow(x, i, log, more, react);
        } else {
          var y := PoliteCall(x, i, log, more, react);
          PoliteWalk(y, i - 1, more, react);
        }
      }
    }
  }

  // One callback returns; below its socket, the set is the same.
  lemma PoliteCall(x: Set, i: nat, log: seq<Event>, more: seq<Event>, react: Reaction) returns (y: Set)
    requires x.Aligned() && 0 < i <= |x.socks| && Ready(x, i - 1) && Polite(x, i, log, react)
    requires more == log + [CallFor(x, i - 1)] && !react(more, x).throws
    ensures y.Aligned() && i - 1 <= |y.socks| && Polite(y, i - 1, more, react)
    ensures Walk(x, i, log, react) == Walk(y, i - 1, more, react)
    ensures log + Due(x, i) == more + Due(y, i - 1)
  {
    var ops := react(more, x).ops;
    y := ApplyAll(x, ops);
    WalkCall(x, i, log, more, react, y);
    ApplyAllHarmless(x, ops, i - 1);
    DueSame(x, y, i - 1);
  }

  lemma WalkThrow(x: Set, i: nat, log: seq<Event>, more: seq<Event>, react: Reaction)
    requires x.Aligned() && 0 < i <= |x.socks| && Ready(x, i - 1)
    requires more == log + [CallFor(x, i - 1)] && react(more, x).throws
    ensures Walk(x, i, log, react) == Some(Walked(ApplyAll(x, react(more, x).ops), more, true))
    ensures log + Due(x, i) == more + Due(x, i - 1)
  {
    DueNext(x, i, log);
  }

  lemma DueNext(x: Set, i: nat, log: seq<Event>)
    requires x.Aligned() && 0 < i <= |x.socks| && Ready(x, i - 1)
    ensures log + Due(x, i) == log + [CallFor(x, i - 1)] + Due(x, i - 1)
  {
    Assoc(log, [CallFor(x, i - 1)], Due(x, i - 1));
  }

  // ---- which permissions are harmless ----

  // `removes(a, b)`: the callback of a may remove b. `throws(a)`: it may end with an
  // exception.
  datatype Permission = Permission(removes: (Sock, Sock) -> bool, throws: Sock -> bool)

  ghost predicate Respects(react: Reaction, may: Permission) {
    && (forall log, x, k | log != [] && 0 <= k < |react(log, x).ops| && react(log, x).ops[k].Delete? ::
          may.removes(Last(log).s, react(log, x).ops[k].s))
    && (forall log, x | log != [] && react(log, x).throws :: may.throws(Last(log).s))
  }

  // Nobody who is ready may remove a socket below its own, or throw while one below its own
  // is ready.
  ghost predicate NoneBelow(x: Set, i: nat, may: Permission)
    requires x.Aligned() && i <= |x.socks|
  {
    forall j, k | 0 <= j < k < i && Ready(x, k) ::
      !may.removes(x.socks[k], x.socks[j]) && (Ready(x, j) ==> !may.throws(x.socks[k]))
  }

  lemma SameAt(x: Set, y: Set, i: nat, k: nat)
    requires x.Aligned() && y.Aligned() && SameBelow(x, y, i) && k < i
    ensures x.socks[k] == y.socks[k] && x.fds[k] == y.fds[k]
  {
    assert x.socks[..i][k] == y.socks[..i][k] && x.fds[..i][k] == y.fds[..i][k];
  }

  lemma NoneBelowKept(x: Set, y: Set, i: nat, may: Permission)
    requires x.Aligned() && y.Aligned() && SameBelow(x, y, i)
    requires NoneBelow(x, i, may) && Distinct(x.socks[..i])
    ensures NoneBelow(y, i, may) && Distinct(y.socks[..i])
  {
    forall j, k | 0 <= j < k < i && Ready(y, k)
      ensures !may.removes(y.socks[k], y.socks[j]) && (Ready(y, j) ==> !may.throws(y.socks[k]))
    {
      SameAt(x, y, i, j);
      SameAt(x, y, i, k);
    }
  }

  lemma NoneBelowIsHarmless(x: Set, i: nat, may: Permission, log: seq<Event>, react: Reaction)
    requires x.Aligned() && 0 < i <= |x.socks| && NoneBelow(x, i, may) && Respects(react, may)
    requires Ready(x, i - 1) && log != [] && Last(log).s == x.socks[i - 1]
    ensures Harmless(react(log, x).ops, x.socks[..i - 1])
    ensures react(log, x).throws ==> forall j | 0 <= j < i - 1 :: !Ready(x, j)
  {
    var ops := react(log, x).ops;
    forall k | 0 <= k < |ops| && ops[k].Delete? ensures ops[k].s !in x.socks[..i - 1] {
      assert may.removes(x.socks[i - 1], ops[k].s);
      assert forall j | 0 <= j < i - 1 :: !may.removes(x.socks[i - 1], x.socks[j]);
    }
  }

  lemma {:induction false} NothingDue(x: Set, i: nat)
    requires x.Aligned() && i <= |x.socks|
    ensures Due(x, i) == [] <==> forall j | 0 <= j < i :: !Ready(x, j)
  {
    if i > 0 {
      NothingDue(x, i - 1);
    }
  }

  lemma {:induction false} NoneBelowIsPolite(x: Set, i: nat, may: Permission, log: seq<Event>, react: Reaction)
    requires x.Aligned() && i <= |x.socks| && Distinct(x.socks[..i])
    requires NoneBelow(x, i, may) && Respects(react, may)
    ensures Polite(x, i, log, react)
    decreases i
  {
    if i > 0 {
      assert x.socks[..i - 1] == x.socks[..i][..i - 1];
      if !Ready(x, i - 1) {
        NoneBelowIsPolite(x, i - 1, may, log, react);
      } else {
        var more := log + [CallFor(x, i - 1)];
        NoneBelowIsHarmless(x, i, may, more, react);
        if react(more, x).throws {
          NothingDue(x, i - 1);
        } else {
          var y := NoneBelowCall(x, i, may, log, more, react);
          NoneBelowIsPolite(y, i - 1, may, more, react);
        }
      }
    }
  }

  // One callback returns; below its socket, the set is the same.
  lemma NoneBelowCall(x: Set, i: nat, may: Permission, log: seq<Event>, more: seq<Event>, react: Reaction)
    returns (y: Set)
    requires x.Aligned() && 0 < i <= |x.socks| && Ready(x, i - 1) && Distinct(x.socks[..i - 1])
    requires more == log + [CallFor(x, i - 1)] && !react(more, x).throws
    requires Harmless(react(more, x).ops, x.socks[..i - 1]) && NoneBelow(x, i - 1, may)
    ensures y.Aligned() && i - 1 <= |y.socks| && Distinct(y.socks[..i - 1]) && NoneBelow(y, i - 1, may)
    ensures Polite(y, i - 1, more, react) ==> Polite(x, i, log, react)
  {
    y := ApplyAll(x, react(more, x).ops);
    ApplyAllHarmless(x, react(more, x).ops, i - 1);
    NoneBelowKept(x, y, i - 1, may);
  }

  lemma {:induction false} LogGrows(x: Set, i: nat, log: seq<Event>, react: Reaction)
    requires x.Aligned()
    ensures var w := Walk(x, i, log, react); w.Some? ==> log <= w.value.log
    decreases i
  {
    if 0 < i <= |x.socks| {
      if !Ready(x, i - 1) {
        LogGrows(x, i - 1, log, react);
      } else {
        var more := log + [CallFor(x, i - 1)];
        LogGrows(ApplyAll(x, react(more, x).ops), i - 1, more, react);
      }
    }
  }

  // The callback of a removes b, the others do nothing.
  function Remover(a: Sock, b: Sock): Reaction {
    (log: seq<Event>, x: Set) => Response(if log != [] && Last(log).s == a then [Delete(b)] else [], false)
  }

  lemma RemoverActs(a: Sock, b: Sock, log: seq<Event>, x: Set)
    requires x.Aligned() && log != []
    ensures !Remover(a, b)(log, x).throws
    ensures ApplyAll(x, Remover(a, b)(log, x).ops) == if Last(log).s == a then Apply(x, Delete(b)) else x
  {
    assert ApplyAll(x, [Delete(b)]) == ApplyAll(Apply(x, Delete(b)), []);
  }

  // The callback of a throws, the others do nothing.
  function Thrower(a: Sock): Reaction {
    (log: seq<Event>, x: Set) => Response([], log != [] && Last(log).s == a)
  }

  lemma WalkIdle(x: Set, i: nat, log: seq<Event>, react: Reaction)
    requires x.Aligned() && 0 < i <= |x.socks| && !Ready(x, i - 1)
    ensures Walk(x, i, log, react) == Walk(x, i - 1, log, react) && Due(x, i) == Due(x, i - 1)
  {
  }

  lemma WalkCall(x: Set, i: nat, log: seq<Event>, more: seq<Event>, react: Reaction, y: Set)
    requires x.Aligned() && 0 < i <= |x.socks| && Ready(x, i - 1)
    requires more == log + [CallFor(x, i - 1)]
    requires ApplyAll(x, react(more, x).ops) == y && !react(more, x).throws
    ensures more != [] && Last(more).s == x.socks[i - 1]
    ensures Walk(x, i, log, react) == Walk(y, i - 1, more, react) && log + Due(x, i) == more + Due(x, i - 1)
  {
    DueNext(x, i, log);
  }

  // No callback but that of a does anything.
  ghost predicate OnlyActs(react: Reaction, a: Sock) {
    forall log: seq<Event>, x: Set | log != [] && Last(log).s != a :: react(log, x) == Response([], false)
  }

  lemma OthersPass(x: Set, a: Sock, react: Reaction, n: nat, log: seq<Event>) returns (more: seq<Event>)
    requires x.Aligned() && OnlyActs(react, a) && 0 < n <= |x.socks| && x.socks[n - 1] != a
    ensures Walk(x, n, log, react) == Walk(x, n - 1, more, react)
    ensures log + Due(x, n) == more + Due(x, n - 1)
  {
    if Ready(x, n - 1) {
      more := log + [CallFor(x, n - 1)];
      assert ApplyAll(x, []) == x;
      WalkCall(x, n, log, more, react, x);
    } else {
      more := log;
      WalkIdle(x, n, log, react);
    }
  }

  // So the walk comes to index i with the set unchanged and the calls due so far.
  lemma {:induction false} WalkDownTo(x: Set, a: Sock, react: Reaction, i: nat, n: nat, log: seq<Event>)
    returns (more: seq<Event>)
    requires x.Aligned() && OnlyActs(react, a) && i < n <= |x.socks| && forall k | i < k < n :: x.socks[k] != a
    ensures Walk(x, n, log, react) == Walk(x, i + 1, more, react)
    ensures log + Due(x, n) == more + Due(x, i + 1)
    decreases n
  {
    if n == i + 1 {
      more := log;
    } else {
      var next := OthersPass(x, a, react, n, log);
      more := WalkDownTo(x, a, react, i, n - 1, next);
    }
  }

  // Only sockets below index i are called for.
  lemma {:induction false} DueBelow(x: Set, i: nat, k: nat)
    requires x.Aligned() && i <= |x.socks| && k < |Due(x, i)|
    ensures exists j :: 0 <= j < i && x.socks[j] == Due(x, i)[k].s
  {
    if !Ready(x, i - 1) {
      DueBelow(x, i - 1, k);
    } else if k > 0 {
      DueBelow(x, i - 1, k - 1);
    }
  }

  // Removing a socket below moves the remover down, so it is visited again.
  lemma RemoverCalled(x: Set, i: nat, j: nat, log: seq<Event>, once: seq<Event>)
    requires x.Aligned() && j < i < |x.socks| && Distinct(x.socks) && Ready(x, i)
    requires once == log + [CallFor(x, i)]
    ensures var react, y := Remover(x.socks[i], x.socks[j]), Apply(x, Delete(x.socks[j]));
            Walk(x, i + 1, log, react) == Walk(y, i, once, react)
  {
    RemoverActs(x.socks[i], x.socks[j], once, x);
    WalkCall(x, i + 1, log, once, Remover(x.socks[i], x.socks[j]), Apply(x, Delete(x.socks[j])));
  }

  lemma CalledFrom(y: Set, i: nat, react: Reaction, once: seq<Event>, twice: seq<Event>, z: Set)
    requires y.Aligned() && 0 < i <= |y.socks| && Ready(y, i - 1)
    requires ApplyAll(y, react(twice, y).ops) == z && !react(twice, y).throws
    requires twice == once + [CallFor(y, i - 1)]
    ensures var w := Walk(y, i, once, react); w.Some? ==> twice <= w.value.log
  {
    WalkCall(y, i, once, twice, react, z);
    LogGrows(z, i - 1, twice, react);
  }

  lemma MovedDown(x: Set, i: nat, j: nat)
    requires x.Aligned() && j < i < |x.socks| && Distinct(x.socks)
    ensures var y := Apply(x, Delete(x.socks[j]));
            i - 1 < |y.socks| && y.socks[i - 1] == x.socks[i] && y.fds[i - 1] == x.fds[i]
  {
    assert IndexOf(x.socks, x.socks[j]) == j;
  }

  lemma VisitedAgain(x: Set, i: nat, j: nat, log: seq<Event>, twice: seq<Event>)
    requires x.Aligned() && j < i < |x.socks| && Distinct(x.socks) && Ready(x, i)
    requires twice == log + [CallFor(x, i)] + [CallFor(x, i)]
    ensures var w := Walk(x, i + 1, log, Remover(x.socks[i], x.socks[j])); w.Some? ==> twice <= w.value.log
  {
    var once := log + [CallFor(x, i)];
    MovedDown(x, i, j);
    RemoverCalled(x, i, j, log, once);
    var y := Apply(x, Delete(x.socks[j]));
    RemoverActs(x.socks[i], x.socks[j], twice, y);
    CalledFrom(y, i, Remover(x.socks[i], x.socks[j]), once, twice, Apply(y, Delete(x.socks[j])));
  }

  lemma RemovalBelowShows(x: Set, i: nat, j: nat)
    requires x.Aligned() && j < i < |x.socks| && Distinct(x.socks) && Ready(x, i)
    ensures var w := Walk(x, |x.socks|, [], Remover(x.socks[i], x.socks[j]));
            w.Some? ==> w.value.log != Due(x, |x.socks|)
  {
    var log := WalkDownTo(x, x.socks[i], Remover(x.socks[i], x.socks[j]), i, |x.socks|, []);
    VisitedAgain(x, i, j, log, log + [CallFor(x, i)] + [CallFor(x, i)]);
    NotTwice(x, i, log);
    assert [] + Due(x, |x.socks|) == Due(x, |x.socks|);
  }

  // What is due after the call for socket i does not begin with another one.
  lemma NotTwice(x: Set, i: nat, log: seq<Event>)
    requires x.Aligned() && i < |x.socks| && Distinct(x.socks) && Ready(x, i)
    ensures !(log + [CallFor(x, i)] + [CallFor(x, i)] <= log + Due(x, i + 1))
  {
    var e, due := CallFor(x, i), Due(x, i);
    DueNext(x, i + 1, log);
    if log + [e] + [e] <= log + [e] + due {
      assert e == (log + [e] + [e])[|log| + 1] == (log + [e] + due)[|log| + 1] == due[0];
      DueBelow(x, i, 0);
    }
  }

  // An exception keeps exactly the calls due below from being made.
  lemma ThrowShows(x: Set, i: nat, j: nat)
    requires x.Aligned() && j < i < |x.socks| && Distinct(x.socks) && Ready(x, i) && Ready(x, j)
    ensures var w := Walk(x, |x.socks|, [], Thrower(x.socks[i]));
            && w.Some? && w.value.thrown && w.value.final == x
            && Due(x, |x.socks|) == w.value.log + Due(x, i) && Due(x, i) != []
  {
    var log := WalkDownTo(x, x.socks[i], Thrower(x.socks[i]), i, |x.socks|, []);
    var more := log + [CallFor(x, i)];
    assert Last(more).s == x.socks[i];
    WalkThrow(x, i + 1, log, more, Thrower(x.socks[i]));
    NothingDue(x, i);
    assert [] + Due(x, |x.socks|) == Due(x, |x.socks|);
  }

  // In a set of different sockets, whatever the callbacks do within their permission, every
  // socket that was ready at the start is called exactly once, from the last to the first,
  // and nothing is read out of range: if and only if nobody who is ready may remove a
  // socket below its own, or throw while one below its own is ready.
  lemma ExactlyOnceIff(x: Set, may: Permission)
    requires x.Aligned() && Distinct(x.socks)
    ensures (forall react: Reaction | Respects(react, may) ::
               var w := Walk(x, |x.socks|, [], react); w.Some? && w.value.log == Due(x, |x.socks|))
            <==> NoneBelow(x, |x.socks|, may)
  {
    var n := |x.socks|;
    if NoneBelow(x, n, may) {
      assert x.socks[..n] == x.socks;
      forall react: Reaction | Respects(react, may)
        ensures var w := Walk(x, n, [], react); w.Some? && w.value.log == Due(x, n)
      {
        NoneBelowIsPolite(x, n, may, [], react);
        PoliteWalk(x, n, [], react);
        assert [] + Due(x, n) == Due(x, n);
      }
    } else {
      var j, i :| 0 <= j < i < n && Ready(x, i)
                  && (may.removes(x.socks[i], x.socks[j]) || (Ready(x, j) && may.throws(x.socks[i])));
      if may.removes(x.socks[i], x.socks[j]) {
        assert Respects(Remover(x.socks[i], x.socks[j]), may);
        RemovalBelowShows(x, i, j);
      } else {
        assert Respects(Thrower(x.socks[i]), may);
        ThrowShows(x, i, j);
      }
    }
  }

  ghost predicate RemovesOnlyItself(react: Reaction) {
    forall log, x, k | log != [] && 0 <= k < |react(log, x).ops| ::
      react(log, x).ops[k].Delete? ==> react(log, x).ops[k].s == Last(log).s
  }

  ghost predicate ThrowsOnly(react: Reaction, throws: Sock -> bool) {
    forall log, x | log != [] && react(log, x).throws :: throws(Last(log).s)
  }

  // In particular it is harmless that callbacks remove their own socket, whatever they add,
  // and that they throw if no socket below is ready.
  lemma SelfRemovalIsPolite(x: Set, i: nat, log: seq<Event>, react: Reaction, throws: Sock -> bool)
    requires x.Aligned() && i <= |x.socks| && Distinct(x.socks[..i])
    requires RemovesOnlyItself(react) && ThrowsOnly(react, throws)
    requires forall j, k | 0 <= j < k < i && Ready(x, j) && Ready(x, k) :: !throws(x.socks[k])
    ensures Polite(x, i, log, react)
  {
    var may := Permission((a, b) => a == b, throws);
    assert forall j, k | 0 <= j < k < i :: x.socks[j] == x.socks[..i][j] != x.socks[..i][k] == x.socks[k];
    NoneBelowIsPolite(x, i, may, log, react);
  }

  // A callback that removes a socket still to be visited gets called again: the others
  // move down by one index.
  lemma RemovingBelow(a: Sock, b: Sock)
    requires a != b
    ensures exists x: Set, react: Reaction ::
              && x.Aligned() && x.socks == [a, b]
              && Due(x, 2) == [ReceiveReady(b), ReceiveReady(a)]
              && Walk(x, 2, [], react).Some?
              && Walk(x, 2, [], react).value.log == [ReceiveReady(b), ReceiveReady(b)]
  {
    var ready := Revents(true, false);
    var x := Set([a, b], [PollFd(a.fd, ready), PollFd(b.fd, ready)]);
    var react: Reaction := (log, y) => Response([Delete(a)], false);
    var y := Set([b], [PollFd(b.fd, ready)]);
    assert IndexOf(x.socks, a) == 0 && Apply(x, Delete(a)) == y;
    assert ApplyAll(x, [Delete(a)]) == y;
    assert a !in y.socks && ApplyAll(y, [Delete(a)]) == y;
    assert [ReceiveReady(b)] + [ReceiveReady(b)] == [ReceiveReady(b), ReceiveReady(b)];
    assert Due(x, 1) == [ReceiveReady(a)] + Due(x, 0);
    var w := Walk(y, 1, [ReceiveReady(b)], react);
    assert w == Walk(y, 0, [ReceiveReady(b)] + [ReceiveReady(b)], react);
    assert Walk(x, 2, [], react) == Walk(y, 1, [] + [ReceiveReady(b)], react);
  }

  // The callback of b removes both sockets: the walk goes on at index 0 of empty vectors.
  lemma RemovingAll(a: Sock, b: Sock)
    requires a != b
    ensures exists x: Set, react: Reaction ::
              x.Aligned() && x.socks == [a, b] && Walk(x, 2, [], react) == None
  {
    var ready := Revents(true, false);
    var x := Set([a, b], [PollFd(a.fd, ready), PollFd(b.fd, ready)]);
    var react: Reaction := (log, y) => Response([Delete(a), Delete(b)], false);
    BothDeleted(x, a, b);
    WalkCall(x, 2, [], [] + [CallFor(x, 1)], react, Set([], []));
  }

  lemma BothDeleted(x: Set, a: Sock, b: Sock)
    requires x.Aligned() && x.socks == [a, b] && a != b
    ensures ApplyAll(x, [Delete(a), Delete(b)]) == Set([], [])
  {
    var y := Apply(x, Delete(a));
    assert IndexOf(x.socks, a) == 0 && y.socks == [b] && |y.fds| == 1;
    assert IndexOf(y.socks, b) == 0 && Apply(y, Delete(b)) == Set([], []);
    assert [Delete(a), Delete(b)][1..] == [Delete(b)];
    assert ApplyAll(x, [Delete(a), Delete(b)]) == ApplyAll(y, [Delete(b)]);
    assert ApplyAll(y, [Delete(b)]) == ApplyAll(Apply(y, Delete(b)), []);
  }

  function CountReady(log: seq<Event>): nat {
    if log == [] then 0 else CountReady(Front(log)) + if Last(log).ReceiveReady? then 1 else 0
  }

  function Reported(x: Set, answer: seq<Revents>): (y: Set)
    requires x.Aligned() && |answer| == |x.socks|
    ensures y.Aligned() && y.socks == x.socks
  {
    Set(x.socks, seq(|x.fds|, k requires 0 <= k < |x.fds| => x.fds[k].(revents := answer[k])))
  }

  // ---- what the operating system reports, and who is called for it ----

  // The positions of the sockets with data or a hang-up among the first n, last to first.
  ghost predicate Positions(who: seq<nat>, answer: seq<Revents>, n: nat)
    requires n <= |answer|
  {
    && (forall i | 0 <= i < |who| :: who[i] < n)
    && (forall i, j | 0 <= i < j < |who| :: who[i] > who[j])
    && (forall k {:trigger k in who} | 0 <= k < n :: k in who <==> answer[k].pollin || answer[k].pollhup)
  }

  // The calls that are made for these sockets.
  ghost predicate CallsFor(log: seq<Event>, who: seq<nat>, socks: seq<Sock>, answer: seq<Revents>)
    requires |socks| == |answer|
  {
    && |log| == |who| && (forall i | 0 <= i < |who| :: who[i] < |socks|)
    && (forall i {:trigger log[i]} | 0 <= i < |who| ::
          log[i] == if answer[who[i]].pollin then ReceiveReady(socks[who[i]]) else Disconnected(socks[who[i]]))
  }

  ghost function WithData(answer: seq<Revents>, n: nat): set<nat>
    requires n <= |answer|
  {
    set k: nat | k < n && answer[k].pollin
  }

  // The set with these answers.
  ghost predicate Answered(y: Set, answer: seq<Revents>) {
    y.Aligned() && |answer| == |y.socks| && forall k | 0 <= k < |answer| :: y.fds[k].revents == answer[k]
  }

  lemma {:induction false} DueForAnswer(y: Set, answer: seq<Revents>, n: nat) returns (who: seq<nat>)
    requires Answered(y, answer) && n <= |y.socks|
    ensures Positions(who, answer, n) && CallsFor(Due(y, n), who, y.socks, answer)
    decreases n
  {
    if n == 0 {
      who := [];
    } else {
      var rest := DueForAnswer(y, answer, n - 1);
      AnswerDue(y, answer, n - 1);
      who := AnswerCalled(Due(y, n - 1), rest, y.socks, answer, n - 1);
    }
  }

  lemma {:induction false} DueCount(y: Set, answer: seq<Revents>, n: nat)
    requires Answered(y, answer) && n <= |y.socks|
    ensures CountReady(Due(y, n)) == |WithData(answer, n)|
    decreases n
  {
    if n > 0 {
      DueCount(y, answer, n - 1);
      OneAnswer(answer, n);
      if Ready(y, n - 1) {
        CountFirst(CallFor(y, n - 1), Due(y, n - 1));
      }
    }
  }

  // The answer for socket k: a call in front of those for the sockets below.
  lemma AnswerCalled(log: seq<Event>, rest: seq<nat>, socks: seq<Sock>, answer: seq<Revents>, k: nat)
    returns (who: seq<nat>)
    requires |socks| == |answer| && k < |socks| && Positions(rest, answer, k) && CallsFor(log, rest, socks, answer)
    ensures Positions(who, answer, k + 1)
    ensures var e := if answer[k].pollin then ReceiveReady(socks[k]) else Disconnected(socks[k]);
            CallsFor(if answer[k].pollin || answer[k].pollhup then [e] + log else log, who, socks, answer)
  {
    who := rest;
    if answer[k].pollin || answer[k].pollhup {
      who := [k] + rest;
      FirstPosition(rest, answer, k + 1);
      FirstCall(log, rest, socks, answer, k);
    } else {
      NoPosition(rest, answer, k + 1);
    }
  }

  // What the answer for socket k adds to the calls due.
  lemma AnswerDue(y: Set, answer: seq<Revents>, k: nat)
    requires Answered(y, answer) && k < |y.socks|
    ensures var e := if answer[k].pollin then ReceiveReady(y.socks[k]) else Disconnected(y.socks[k]);
            Due(y, k + 1) == if answer[k].pollin || answer[k].pollhup then [e] + Due(y, k) else Due(y, k)
  {
  }

  lemma FirstPosition(rest: seq<nat>, answer: seq<Revents>, n: nat)
    requires 0 < n <= |answer| && Positions(rest, answer, n - 1) && (answer[n - 1].pollin || answer[n - 1].pollhup)
    ensures Positions([n - 1] + rest, answer, n)
  {
    assert forall k :: k in [n - 1] + rest <==> k == n - 1 || k in rest;
  }

  lemma NoPosition(who: seq<nat>, answer: seq<Revents>, n: nat)
    requires 0 < n <= |answer| && Positions(who, answer, n - 1) && !answer[n - 1].pollin && !answer[n - 1].pollhup
    ensures Positions(who, answer, n)
  {
    assert n - 1 !in who;
  }

  lemma FirstCall(log: seq<Event>, rest: seq<nat>, socks: seq<Sock>, answer: seq<Revents>, k: nat)
    requires |socks| == |answer| && k < |socks| && CallsFor(log, rest, socks, answer)
    ensures var e := if answer[k].pollin then ReceiveReady(socks[k]) else Disconnected(socks[k]);
            CallsFor([e] + log, [k] + rest, socks, answer)
  {
  }

  lemma OneAnswer(answer: seq<Revents>, n: nat)
    requires 0 < n <= |answer|
    ensures |WithData(answer, n)| == |WithData(answer, n - 1)| + if answer[n - 1].pollin then 1 else 0
  {
    assert WithData(answer, n) == WithData(answer, n - 1) + if answer[n - 1].pollin then {n - 1} else {};
  }

  lemma {:induction false} CountFirst(e: Event, log: seq<Event>)
    ensures CountReady([e] + log) == CountReady(log) + if e.ReceiveReady? then 1 else 0
  {
    if log == [] {
      assert Front([e] + log) == [];
    } else {
      CountFirst(e, Front(log));
      assert Front([e] + log) == [e] + Front(log) && Last([e] + log) == Last(log);
    }
  }

  // Polite callbacks: the events reported, each once.
  lemma PolitePoll(x: Set, answer: seq<Revents>, react: Reaction) returns (who: seq<nat>)
    requires x.Aligned() && |answer| == |x.socks|
    requires Polite(Reported(x, answer), |x.socks|, [], react)
    ensures var w := Walk(Reported(x, answer), |x.socks|, [], react);
            && w.Some? && Positions(who, answer, |x.socks|) && CallsFor(w.value.log, who, x.socks, answer)
            && CountReady(w.value.log) == |WithData(answer, |x.socks|)|
  {
    var n := |x.socks|;
    PoliteWalk(Reported(x, answer), n, [], react);
    who := DueForAnswer(Reported(x, answer), answer, n);
    DueCount(Reported(x, answer), answer, n);
    assert [] + Due(Reported(x, answer), n) == Due(Reported(x, answer), n);
  }

  // ---- the object ----

  class SocketSet {
    var sockets: seq<Sock>
    var pollfds: seq<PollFd>

    function Value(): Set
      reads this
    {
      Set(sockets, pollfds)
    }

    ghost predicate Valid()
      reads this
    {
      Value().Aligned()
    }

    constructor ()
      ensures Valid() && sockets == []
    {
      sockets, pollfds := [], [];
    }

    method Add(s: Sock)
      requires Valid()
      modifies this
      ensures Valid() && Value() == Apply(old(Value()), Insert(s)) && |sockets| == old(|sockets|) + 1
      ensures sockets == old(sockets) + [s] && pollfds == old(pollfds) + [PollFd(s.fd, Revents(false, false))]
    {
      sockets := sockets + [s];
      pollfds := pollfds + [PollFd(s.fd, NOTHING)];
    }

    method Remove(s: Sock)
      requires Valid()
      modifies this
      ensures Valid() && Value() == Apply(old(Value()), Delete(s))
      ensures s in old(sockets) ==> |sockets| == old(|sockets|) - 1
      ensures s !in old(sockets) ==> Value() == old(Value())
      ensures forall k | 0 <= k < |old(sockets)| && old(sockets)[k] == s && s !in old(sockets)[..k] ::
                && sockets == old(sockets)[..k] + old(sockets)[k + 1..]
                && pollfds == old(pollfds)[..k] + old(pollfds)[k + 1..]
    {
      var n := |sockets|;
      for i := 0 to n
        invariant Value() == old(Value()) && forall j | 0 <= j < i :: sockets[j] != s
      {
        if sockets[i] == s {
          assert IndexOf(sockets, s) == i;
          sockets := RemoveAt(sockets, i);
          pollfds := RemoveAt(pollfds, i);
          return;
        }
      }
    }

    // Runs a callback.
    method Perform(ops: seq<Op>)
      requires Valid()
      modifies this
      ensures Valid() && Value() == ApplyAll(old(Value()), ops)
    {
      ghost var x := Value();
      var k := 0;
      assert ops[0..] == ops;
      while k < |ops|
        invariant k <= |ops| && Valid() && ApplyAll(Value(), ops[k..]) == ApplyAll(x, ops)
      {
        assert ops[k..][1..] == ops[k + 1..];
        match ops[k] {
          case Insert(s) => Add(s);
          case Delete(s) => Remove(s);
        }
        k := k + 1;
      }
    }

    // `answer` is what the operating system reports for the sockets, or that it failed.
    // Unless a callback throws, the number of receive events is returned.
    method Poll(answer: Option<seq<Revents>>, react: Reaction) returns (r: PollEnd, log: seq<Event>)
      requires Valid() && (answer.Some? ==> |answer.value| == |sockets|)
      modifies this
      ensures Valid()
      ensures answer.None? ==> r == PollFailed && log == [] && Value() == old(Value())
      ensures answer.Some? ==>
                match Walk(Reported(old(Value()), answer.value), |old(sockets)|, [], react)
                case None => r == OutOfRange
                case Some(w) =>
                  w == Walked(Value(), log, r == CallbackThrew)
                  && (!w.thrown ==> r == Polled(CountReady(log)))
      ensures answer.Some? && Polite(Reported(old(Value()), answer.value), |old(sockets)|, [], react) ==>
                && (exists who :: Positions(who, answer.value, |old(sockets)|)
                                  && CallsFor(log, who, old(sockets), answer.value))
                && r in {Polled(|WithData(answer.value, |old(sockets)|)|), CallbackThrew}
    {
      log := [];
      if answer.None? {
        return PollFailed, log;
      }
      ghost var before := Value();
      Report(answer.value);
      ghost var x := Value();
      var i: nat, num, step := |sockets|, 0, GoOn;
      while i > 0 && step == GoOn
        invariant Valid() && num == CountReady(log)
        invariant Walk(x, |x.socks|, [], react) == Rest(step, Value(), i, log, react)
        decreases i
      {
        i := i - 1;
        var called;
        log, called, step := Visit(i, log, react);
        num := num + called;
      }
      r := match step case GoOn => Polled(num) case Thrown => CallbackThrew case Outside => OutOfRange;
      if Polite(x, |before.socks|, [], react) {
        ghost var who := PolitePoll(before, answer.value, react);
      }
    }

    method Report(answer: seq<Revents>)
      requires Valid() && |answer| == |sockets|
      modifies this
      ensures Valid() && Value() == Reported(old(Value()), answer)
    {
      pollfds := Reported(Value(), answer).fds;
    }

    // Calls the callback of one socket, if there is something to call it for.
    method Visit(i: nat, log: seq<Event>, react: Reaction) returns (more: seq<Event>, called: nat, step: Step)
      requires Valid()
      modifies this
      ensures Valid() && CountReady(more) == CountReady(log) + called
      ensures Walk(old(Value()), i + 1, log, react) == Rest(step, Value(), i, more, react)
    {
      more, called, step := log, 0, if i < |sockets| then GoOn else Outside;
      if i < |sockets| && Ready(Value(), i) {
        more := log + [CallFor(Value(), i)];
        assert Front(more) == log;
        called := if pollfds[i].revents.pollin then 1 else 0;
        var r := react(more, Value());
        Perform(r.ops);
        step := if r.throws then Thrown else GoOn;
      }
    }
  }

  // How a pass ends for its caller. OutOfRange stands for undefined behaviour.
  datatype PollEnd = Polled(count: nat) | PollFailed | CallbackThrew | OutOfRange

  // What came of visiting one socket.
  datatype Step = GoOn | Thrown | Outside

  // The whole walk, once it has come to index i.
  ghost function Rest(step: Step, x: Set, i: nat, log: seq<Event>, react: Reaction): Option<Walked>
    requires x.Aligned()
  {
    match step
    case GoOn => Walk(x, i, log, react)
    case Thrown => Some(Walked(x, log, true))
    case Outside => None
  }
}
