// How deep calls through one endpoint may nest. Every call holds a packet while it runs,
// and a reply takes one more when the function is done.
module Nesting {
  import opened Bytes
  import opened Results
  import opened Codec
  import opened Pointers
  import opened Rpc

  type Question = (seq<Byte>, seq<Value>) -> bool
  type Measure = (seq<Byte>, seq<Value>) -> nat

  // ---- running out of packets ----

  ghost function RunStarves(f: Function, vals: seq<Value>, hist: seq<Outcome>, call: Calls, starves: Question): bool
    requires |hist| <= f.maxCalls
    decreases f.maxCalls - |hist|
  {
    match Act(f, vals, hist)
    case Nested(name, args) => starves(name, args) || RunStarves(f, vals, hist + [call(name, args)], call, starves)
    case _ => false
  }

  // The call is made: there is a packet, and the arguments fit into it.
  ghost predicate Sent(k: nat, name: seq<Byte>, args: seq<Value>)
    requires 0 !in name && AllWf(args)
  {
    k > 0 && |CallBytes(name, args)| <= MAX_PAYLOAD_SIZE
  }

  // The function's body is entered.
  ghost predicate Entered(env: Env, name: seq<Byte>, args: seq<Value>)
    requires AllWf(args)
  {
    name in env && CheckArgs(env[name], NormAll(args)) == None
  }

  // Somewhere in the call, nested calls included, a packet is asked for and none is left.
  ghost function Starves(env: Env, k: nat, name: seq<Byte>, args: seq<Value>): bool
    requires 0 !in name && AllWf(args)
    decreases k, 0
  {
    k == 0 ||
    (Sent(k, name, args) && Entered(env, name, args) &&
     (RunStarves(env[name], NormAll(args), [], Directly(env, k - 1), StarvesAt(env, k - 1))
      || (k == 1 && Invoke(env, name, NormAll(args), Directly(env, k - 1)).Ok?)))
  }

  ghost function StarvesAt(env: Env, k: nat): Question
    decreases k, 1
  {
    (name, args) => 0 !in name && AllWf(args) && Starves(env, k, name, args)
  }

  // ---- the same on the callee's side, where k packets are free ----

  ghost predicate BodyStarves(f: Function, vals: seq<Value>, env: Env, k: nat) {
    RunStarves(f, vals, [], Remotely(env, k), StarvesAt(env, k))
  }

  ghost predicate InvokeStarves(env: Env, k: nat, name: seq<Byte>, vals: seq<Value>) {
    name in env && CheckArgs(env[name], vals) == None && BodyStarves(env[name], vals, env, k)
  }

  // The function runs out of packets, or it returns and there is none for its reply.
  ghost predicate ServeStarves(env: Env, k: nat, b: seq<Byte>) {
    DecodeCall(b).Ok? &&
    (DecodedCall(b);
     var c := DecodeCall(b).value;
     var vals := DerefAll(b, c.args);
     InvokeStarves(env, k, c.name, vals) || (k == 0 && Invoke(env, c.name, vals, Remotely(env, k)).Ok?))
  }

  lemma {:induction false} SameStarves(f: Function, vals: seq<Value>, hist: seq<Outcome>,
                                       c: Calls, d: Calls, s: Question)
    requires |hist| <= f.maxCalls && forall name, args :: c(name, args) == d(name, args)
    ensures RunStarves(f, vals, hist, c, s) == RunStarves(f, vals, hist, d, s)
    decreases f.maxCalls - |hist|
  {
    match Act(f, vals, hist) {
      case Nested(name, args) => SameStarves(f, vals, hist + [c(name, args)], c, d, s);
      case _ =>
    }
  }

  lemma SameCalls(env: Env, k: nat, c: Calls, d: Calls)
    requires c == Remotely(env, k) && d == Directly(env, k)
    ensures forall n, a :: c(n, a) == d(n, a)
  {
    forall n, a ensures c(n, a) == d(n, a) {
      if 0 !in n && AllWf(a) { LoopbackIsDirect(env, k, n, a); }
    }
  }

  lemma StarvesOnTheWire(env: Env, k: nat, name: seq<Byte>, args: seq<Value>)
    requires 0 !in name && AllWf(args)
    ensures Starves(env, k + 1, name, args)
            <==> |CallBytes(name, args)| <= MAX_PAYLOAD_SIZE && ServeStarves(env, k, CallBytes(name, args))
  {
    var b, places := CallBytes(name, args), ArgsAt(args, 3 + |name|);
    DecodeCallBytes(name, args);
    DecodedCall(b);
    CallLayout(name, args);
    DerefEncoded(args, b, 3 + |name|);
    InvokedStarves(env, k, name, NormAll(args));
  }

  lemma InvokedStarves(env: Env, k: nat, name: seq<Byte>, vals: seq<Value>)
    ensures InvokeStarves(env, k, name, vals) <==>
              name in env && CheckArgs(env[name], vals) == None
              && RunStarves(env[name], vals, [], Directly(env, k), StarvesAt(env, k))
    ensures Invoke(env, name, vals, Remotely(env, k)) == Invoke(env, name, vals, Directly(env, k))
  {
    SameCalls(env, k, Remotely(env, k), Directly(env, k));
    SameInvoke(env, name, vals, Remotely(env, k), Directly(env, k));
    if name in env {
      SameStarves(env[name], vals, [], Remotely(env, k), Directly(env, k), StarvesAt(env, k));
    }
  }

  // ---- more packets change nothing ----

  lemma {:induction false} RunWithMore(f: Function, vals: seq<Value>, hist: seq<Outcome>,
                                       c: Calls, sc: Question, d: Calls, sd: Question)
    requires |hist| <= f.maxCalls
    requires forall n, a {:trigger sc(n, a)} :: !sc(n, a) ==> c(n, a) == d(n, a) && !sd(n, a)
    requires !RunStarves(f, vals, hist, c, sc)
    ensures Run(f, vals, hist, c) == Run(f, vals, hist, d) && !RunStarves(f, vals, hist, d, sd)
    decreases f.maxCalls - |hist|
  {
    match Act(f, vals, hist) {
      case Nested(n, a) => RunWithMore(f, vals, hist + [c(n, a)], c, sc, d, sd);
      case _ =>
    }
  }

  // Past the body, only the last packet makes a difference.
  lemma SameEnding(k: nat, more: nat, args: seq<Value>, r: Result<Done, Error>)
    requires AllWf(args) && k <= more && (r.Ok? ==> k > 0)
    requires r.Ok? ==> Wf(r.value.result) && SameShape(NormAll(args), r.value.after)
    ensures Ending(k, args, r) == Ending(more, args, r)
  {
  }

  lemma {:induction false} CallsAgree(env: Env, k: nat, more: nat, c: Calls, sc: Question, d: Calls, sd: Question)
    requires k <= more && c == Directly(env, k) && sc == StarvesAt(env, k)
    requires d == Directly(env, more) && sd == StarvesAt(env, more)
    ensures forall n, a {:trigger sc(n, a)} :: !sc(n, a) ==> c(n, a) == d(n, a) && !sd(n, a)
    decreases k, 1
  {
    forall n, a {:trigger sc(n, a)} | !sc(n, a) ensures c(n, a) == d(n, a) && !sd(n, a) {
      if 0 !in n && AllWf(a) { PoolInvisible(env, k, more, n, a); }
    }
  }

  // More packets for the nested calls make no difference to a run.
  lemma {:induction false} OneLevel(f: Function, vals: seq<Value>, env: Env, k: nat, more: nat,
                                    c: Calls, sc: Question, d: Calls, sd: Question)
    requires k <= more && c == Directly(env, k) && sc == StarvesAt(env, k)
    requires d == Directly(env, more) && sd == StarvesAt(env, more)
    requires !RunStarves(f, vals, [], c, sc)
    ensures Run(f, vals, [], c) == Run(f, vals, [], d) && !RunStarves(f, vals, [], d, sd)
    decreases k, 2
  {
    CallsAgree(env, k, more, c, sc, d, sd);
    RunWithMore(f, vals, [], c, sc, d, sd);
  }

  // A call that does not run out of packets behaves the same whatever the size of the pool.
  lemma {:induction false} PoolInvisible(env: Env, k: nat, more: nat, name: seq<Byte>, args: seq<Value>)
    requires 0 !in name && AllWf(args) && k <= more && !Starves(env, k, name, args)
    ensures Direct(env, more, name, args) == Direct(env, k, name, args)
    ensures !Starves(env, more, name, args)
    decreases k, 0
  {
    if Sent(k, name, args) && Entered(env, name, args) {
      OneLevel(env[name], NormAll(args), env, k - 1, more - 1, Directly(env, k - 1), StarvesAt(env, k - 1),
               Directly(env, more - 1), StarvesAt(env, more - 1));
      SameEnding(k - 1, more - 1, args, Run(env[name], NormAll(args), [], Directly(env, k - 1)));
    }
  }

  // ---- depth ----

  function Max(a: nat, b: nat): nat {
    if a < b then b else a
  }

  ghost function RunDepth(f: Function, vals: seq<Value>, hist: seq<Outcome>, call: Calls, depth: Measure): nat
    requires |hist| <= f.maxCalls
    decreases f.maxCalls - |hist|
  {
    match Act(f, vals, hist)
    case Nested(name, args) => Max(depth(name, args), RunDepth(f, vals, hist + [call(name, args)], call, depth))
    case _ => 0
  }

  // How many calls were in progress at once, at most.
  ghost function Depth(env: Env, k: nat, name: seq<Byte>, args: seq<Value>): (n: nat)
    requires 0 !in name && AllWf(args)
    ensures n > 0
    decreases k, 0
  {
    if !Sent(k, name, args) || !Entered(env, name, args) then 1
    else 1 + RunDepth(env[name], NormAll(args), [], Directly(env, k - 1), DepthAt(env, k - 1))
  }

  ghost function DepthAt(env: Env, k: nat): Measure
    decreases k, 1
  {
    (name, args) => if 0 !in name && AllWf(args) then Depth(env, k, name, args) else 0
  }

  // How many calls were in progress at once, at most, when a function returned.
  ghost function ReturnDepth(env: Env, k: nat, name: seq<Byte>, args: seq<Value>): nat
    requires 0 !in name && AllWf(args)
    decreases k, 0
  {
    if !Sent(k, name, args) || !Entered(env, name, args) then 0
    else
      var f, vals, call := env[name], NormAll(args), Directly(env, k - 1);
      var inside := RunDepth(f, vals, [], call, ReturnDepthAt(env, k - 1));
      if inside > 0 then 1 + inside else if Run(f, vals, [], call).Ok? then 1 else 0
  }

  ghost function ReturnDepthAt(env: Env, k: nat): Measure
    decreases k, 1
  {
    (name, args) => if 0 !in name && AllWf(args) then ReturnDepth(env, k, name, args) else 0
  }

  // ---- how many packets a call needs ----

  lemma {:induction false} RunCounts(f: Function, vals: seq<Value>, hist: seq<Outcome>, k: nat,
                                     c: Calls, sc: Question, depth: Measure, ret: Measure)
    requires |hist| <= f.maxCalls
    requires forall n, a {:trigger sc(n, a)} | 0 !in n && AllWf(a) ::
               sc(n, a) <==> depth(n, a) > k || (k > 0 && ret(n, a) >= k)
    ensures RunStarves(f, vals, hist, c, sc)
            <==> RunDepth(f, vals, hist, c, depth) > k || (k > 0 && RunDepth(f, vals, hist, c, ret) >= k)
    decreases f.maxCalls - |hist|
  {
    match Act(f, vals, hist) {
      case Nested(n, a) => RunCounts(f, vals, hist + [c(n, a)], k, c, sc, depth, ret);
      case _ =>
    }
  }

  lemma {:induction false} CallsCount(f: Function, vals: seq<Value>, env: Env, k: nat,
                                      c: Calls, sc: Question, depth: Measure, ret: Measure)
    requires c == Directly(env, k) && sc == StarvesAt(env, k)
    requires depth == DepthAt(env, k) && ret == ReturnDepthAt(env, k)
    ensures RunStarves(f, vals, [], c, sc)
            <==> RunDepth(f, vals, [], c, depth) > k || (k > 0 && RunDepth(f, vals, [], c, ret) >= k)
    decreases k, 1
  {
    forall n, a {:trigger sc(n, a)} | 0 !in n && AllWf(a)
      ensures sc(n, a) <==> depth(n, a) > k || (k > 0 && ret(n, a) >= k)
    {
      PacketsNeeded(env, k, n, a);
    }
    RunCounts(f, vals, [], k, c, sc, depth, ret);
  }

  // A call runs out of k packets exactly if more than k calls are in progress at once, or k
  // are when a function returns, since its reply takes one more.
  lemma {:induction false} PacketsNeeded(env: Env, k: nat, name: seq<Byte>, args: seq<Value>)
    requires 0 !in name && AllWf(args)
    ensures Starves(env, k, name, args) <==> Depth(env, k, name, args) > k || ReturnDepth(env, k, name, args) >= k
    decreases k, 0
  {
    if k > 0 && Sent(k, name, args) && Entered(env, name, args) {
      CallsCount(env[name], NormAll(args), env, k - 1, Directly(env, k - 1), StarvesAt(env, k - 1),
                 DepthAt(env, k - 1), ReturnDepthAt(env, k - 1));
      NoCalls(env[name], NormAll(args), [], env, k - 1);
    }
  }

  // In a run that had enough packets, a call would have run out of fewer of them exactly if
  // one of its calls would have; otherwise it comes to the same.
  lemma {:induction false} RunNeeds(f: Function, vals: seq<Value>, hist: seq<Outcome>, k: nat, c: Calls, sc: Question,
                                    d: Calls, sd: Question, depth: Measure, ret: Measure)
    requires |hist| <= f.maxCalls && !RunStarves(f, vals, hist, d, sd)
    requires forall n, a {:trigger sc(n, a)} | 0 !in n && AllWf(a) && !sd(n, a) ::
               && (sc(n, a) <==> depth(n, a) > k || (k > 0 && ret(n, a) >= k))
               && (!sc(n, a) ==> c(n, a) == d(n, a))
    ensures RunStarves(f, vals, hist, c, sc)
            <==> RunDepth(f, vals, hist, d, depth) > k || (k > 0 && RunDepth(f, vals, hist, d, ret) >= k)
    ensures !RunStarves(f, vals, hist, c, sc) ==> Run(f, vals, hist, c) == Run(f, vals, hist, d)
    decreases f.maxCalls - |hist|
  {
    match Act(f, vals, hist) {
      case Nested(n, a) =>
        if !sc(n, a) {
          RunNeeds(f, vals, hist + [c(n, a)], k, c, sc, d, sd, depth, ret);
        }
      case _ =>
    }
  }

  lemma {:induction false} CallsNeed(env: Env, k: nat, most: nat, c: Calls, sc: Question, d: Calls, sd: Question,
                                     depth: Measure, ret: Measure)
    requires k <= most && c == Directly(env, k) && sc == StarvesAt(env, k)
    requires d == Directly(env, most) && sd == StarvesAt(env, most)
    requires depth == DepthAt(env, most) && ret == ReturnDepthAt(env, most)
    ensures forall n, a {:trigger sc(n, a)} | 0 !in n && AllWf(a) && !sd(n, a) ::
              && (sc(n, a) <==> depth(n, a) > k || (k > 0 && ret(n, a) >= k))
              && (!sc(n, a) ==> c(n, a) == d(n, a))
    decreases k, 2
  {
    forall n, a {:trigger sc(n, a)} | 0 !in n && AllWf(a) && !sd(n, a)
      ensures sc(n, a) <==> depth(n, a) > k || (k > 0 && ret(n, a) >= k)
      ensures !sc(n, a) ==> c(n, a) == d(n, a)
    {
      PacketsForetold(env, k, most, n, a);
      if !sc(n, a) { PoolInvisible(env, k, most, n, a); }
    }
  }

  // The deepest nesting, and the deepest return, among the calls that a function makes.
  ghost function DepthInside(env: Env, k: nat, name: seq<Byte>, args: seq<Value>): (nat, nat)
    requires 0 !in name && AllWf(args) && Sent(k, name, args) && Entered(env, name, args)
  {
    var f, vals, call := env[name], NormAll(args), Directly(env, k - 1);
    (RunDepth(f, vals, [], call, DepthAt(env, k - 1)), RunDepth(f, vals, [], call, ReturnDepthAt(env, k - 1)))
  }

  lemma {:induction false} PacketsInside(env: Env, k: nat, most: nat, name: seq<Byte>, args: seq<Value>)
    requires 0 !in name && AllWf(args) && 0 < k <= most && !Starves(env, most, name, args)
    requires Sent(k, name, args) && Entered(env, name, args)
    ensures var f, vals, (deep, returned) := env[name], NormAll(args), DepthInside(env, most, name, args);
            var starves := RunStarves(f, vals, [], Directly(env, k - 1), StarvesAt(env, k - 1));
            && (starves <==> deep > k - 1 || (k > 1 && returned >= k - 1))
            && (!starves ==> Run(f, vals, [], Directly(env, k - 1)) == Run(f, vals, [], Directly(env, most - 1)))
    decreases k, 0
  {
    var c, sc, d, sd := Directly(env, k - 1), StarvesAt(env, k - 1), Directly(env, most - 1), StarvesAt(env, most - 1);
    var depth, ret := DepthAt(env, most - 1), ReturnDepthAt(env, most - 1);
    CallsNeed(env, k - 1, most - 1, c, sc, d, sd, depth, ret);
    RunNeeds(env[name], NormAll(args), [], k - 1, c, sc, d, sd, depth, ret);
  }

  // A call that has enough packets tells how many it needs: it would run out of k packets
  // exactly if more than k calls are in progress at once, or k are when a function returns.
  lemma {:induction false} PacketsForetold(env: Env, k: nat, most: nat, name: seq<Byte>, args: seq<Value>)
    requires 0 !in name && AllWf(args) && k <= most && !Starves(env, most, name, args)
    ensures Starves(env, k, name, args)
            <==> Depth(env, most, name, args) > k || ReturnDepth(env, most, name, args) >= k
    decreases k, 1
  {
    if k > 0 && Sent(k, name, args) && Entered(env, name, args) {
      PacketsInside(env, k, most, name, args);
      NoCalls(env[name], NormAll(args), [], env, most - 1);
    }
  }

  lemma NoCalls(f: Function, vals: seq<Value>, hist: seq<Outcome>, env: Env, k: nat)
    requires |hist| <= f.maxCalls
    ensures RunDepth(f, vals, hist, Directly(env, k), DepthAt(env, k)) == 0 ==>
              RunDepth(f, vals, hist, Directly(env, k), ReturnDepthAt(env, k)) == 0
  {
  }

  lemma {:induction false} ShallowRun(f: Function, vals: seq<Value>, hist: seq<Outcome>, call: Calls,
                                      starves: Question, depth: Measure, k: nat)
    requires |hist| <= f.maxCalls && RunDepth(f, vals, hist, call, depth) < k
    requires forall n, a :: depth(n, a) < k ==> !starves(n, a)
    ensures !RunStarves(f, vals, hist, call, starves)
    decreases f.maxCalls - |hist|
  {
    match Act(f, vals, hist) {
      case Nested(n, a) => ShallowRun(f, vals, hist + [call(n, a)], call, starves, depth, k);
      case _ =>
    }
  }

  // In particular, with k packets calls nested less than k deep never run out of them.
  lemma {:induction false} DepthSuffices(env: Env, k: nat, name: seq<Byte>, args: seq<Value>)
    requires 0 !in name && AllWf(args) && Depth(env, k, name, args) < k
    ensures !Starves(env, k, name, args)
    decreases k, 0
  {
    if Sent(k, name, args) && Entered(env, name, args) {
      ShallowInside(env[name], NormAll(args), env, k - 1, Directly(env, k - 1), StarvesAt(env, k - 1),
                    DepthAt(env, k - 1));
    }
  }

  lemma {:induction false} ShallowInside(f: Function, vals: seq<Value>, env: Env, k: nat, call: Calls,
                                         starves: Question, depth: Measure)
    requires starves == StarvesAt(env, k) && depth == DepthAt(env, k) && RunDepth(f, vals, [], call, depth) < k
    ensures !RunStarves(f, vals, [], call, starves)
    decreases k, 2
  {
    ShallowCalls(env, k, starves, depth);
    ShallowRun(f, vals, [], call, starves, depth, k);
  }

  lemma {:induction false} ShallowCalls(env: Env, k: nat, starves: Question, depth: Measure)
    requires starves == StarvesAt(env, k) && depth == DepthAt(env, k)
    ensures forall n, a :: depth(n, a) < k ==> !starves(n, a)
    decreases k, 1
  {
    forall n, a | depth(n, a) < k ensures !starves(n, a) {
      if 0 !in n && AllWf(a) { DepthSuffices(env, k, n, a); }
    }
  }

  // A pool of 16: a call runs out of packets exactly if calls nest more than 16 deep or a
  // function returns 16 deep. In particular 15 deep always works.
  lemma SixteenPackets(env: Env, name: seq<Byte>, args: seq<Value>)
    requires 0 !in name && AllWf(args)
    ensures Starves(env, 16, name, args)
            <==> Depth(env, 16, name, args) > 16 || ReturnDepth(env, 16, name, args) >= 16
    ensures Depth(env, 16, name, args) <= 15 ==> !Starves(env, 16, name, args)
  {
    PacketsNeeded(env, 16, name, args);
    ReturnsWithin(env, 16, name, args);
  }

  lemma {:induction false} ReturnsWithin(env: Env, k: nat, name: seq<Byte>, args: seq<Value>)
    requires 0 !in name && AllWf(args)
    ensures ReturnDepth(env, k, name, args) <= Depth(env, k, name, args)
    decreases k
  {
    if Sent(k, name, args) && Entered(env, name, args) {
      var depth, ret := DepthAt(env, k - 1), ReturnDepthAt(env, k - 1);
      forall n, a ensures ret(n, a) <= depth(n, a) {
        if 0 !in n && AllWf(a) { ReturnsWithin(env, k - 1, n, a); }
      }
      DeeperRun(env[name], NormAll(args), [], Directly(env, k - 1), ret, depth);
    }
  }

  lemma {:induction false} DeeperRun(f: Function, vals: seq<Value>, hist: seq<Outcome>, call: Calls,
                                     m: Measure, n: Measure)
    requires |hist| <= f.maxCalls && forall name, args :: m(name, args) <= n(name, args)
    ensures RunDepth(f, vals, hist, call, m) <= RunDepth(f, vals, hist, call, n)
    decreases f.maxCalls - |hist|
  {
    match Act(f, vals, hist) {
      case Nested(name, args) => DeeperRun(f, vals, hist + [call(name, args)], call, m, n);
      case _ =>
    }
  }

  // ---- exactly how deep ----

  const CHAIN: seq<Byte> := [0x66]

  // Calls itself with n - 1 until n is 0, and passes exceptions on.
  function ChainBody(vals: seq<Value>, hist: seq<Outcome>): Action {
    if |hist| > 0 then
      (if hist[0].Threw? then Throw(hist[0].error, vals) else Finish(Void, vals))
    else if |vals| != 1 || !vals[0].Num? || vals[0].bits == [] || vals[0].bits[0] == 0 then Finish(Void, vals)
    else Nested(CHAIN, [Num(U8, [vals[0].bits[0] - 1])])
  }

  const Chain := Function([0x01], VOID_ID, 1, ChainBody)
  const ChainEnv: Env := map[CHAIN := Chain]

  lemma ChainSizes(n: Byte)
    ensures AllWf([Num(U8, [n])]) && |CallBytes(CHAIN, [Num(U8, [n])])| <= 6
    ensures NormAll([Num(U8, [n])]) == [Num(U8, [n])]
    ensures |ReplyBytes(Void, [Num(U8, [n])])| == 2
  {
    CallSize(CHAIN, [Num(U8, [n])]);
    assert PtrsOf([Num(U8, [n])]) == [];
  }

  // n + 1 calls nested in each other succeed with n + 2 packets, and with fewer the
  // innermost ones run out of them: with 16 packets, 15 deep works and 16 deep does not.
  lemma {:induction false} ChainDepth(k: nat, n: Byte)
    ensures AllWf([Num(U8, [n])]) && 0 !in CHAIN
    ensures Direct(ChainEnv, k, CHAIN, [Num(U8, [n])])
            == if k >= n + 2 then Returned(Void, [Num(U8, [n])]) else Threw(OutOfPackets, [Num(U8, [n])])
    decreases k
  {
    if k > 0 {
      if n == 0 {
        ChainStop(k);
        ChainEnds(k, n, Ok(Done(Void, [Num(U8, [0])])));
      } else {
        ChainDepth(k - 1, n - 1);
        ChainGoesOn(k, n);
      }
    }
  }

  lemma ChainGoesOn(k: nat, n: Byte)
    requires k > 0 && n > 0 && AllWf([Num(U8, [n - 1])]) && AllWf([Num(U8, [n])]) && 0 !in CHAIN
    requires var o := Direct(ChainEnv, k - 1, CHAIN, [Num(U8, [n - 1])]);
             if k >= n + 2 then o.Returned? else o.Threw? && o.error == OutOfPackets
    ensures Direct(ChainEnv, k, CHAIN, [Num(U8, [n])])
            == if k >= n + 2 then Returned(Void, [Num(U8, [n])]) else Threw(OutOfPackets, [Num(U8, [n])])
  {
    ChainStep(k, n);
    ChainEnds(k, n, if k >= n + 2 then Ok(Done(Void, [Num(U8, [n])])) else Err(OutOfPackets));
  }

  lemma ChainStop(k: nat)
    requires k > 0
    ensures Run(Chain, [Num(U8, [0])], [], Directly(ChainEnv, k - 1)) == Ok(Done(Void, [Num(U8, [0])]))
  {
    var args := [Num(U8, [0])];
    assert SameShape(args, args);
    assert Act(Chain, args, []) == Finish(Void, args);
  }

  lemma ChainEnds(k: nat, n: Byte, r: Result<Done, Error>)
    requires k > 0 && AllWf([Num(U8, [n])]) && 0 !in CHAIN
    requires r == Err(OutOfPackets) || r == Ok(Done(Void, [Num(U8, [n])]))
    requires Run(Chain, [Num(U8, [n])], [], Directly(ChainEnv, k - 1)) == r
    ensures Direct(ChainEnv, k, CHAIN, [Num(U8, [n])])
            == if r.Ok? && k > 1 then Returned(Void, [Num(U8, [n])]) else Threw(OutOfPackets, [Num(U8, [n])])
  {
    var args := [Num(U8, [n])];
    ChainSizes(n);
    assert SameShape(args, args) && Merge(args, args) == args;
    assert Invoke(ChainEnv, CHAIN, args, Directly(ChainEnv, k - 1)) == r;
  }

  lemma ChainStep(k: nat, n: Byte)
    requires k > 0 && n > 0 && AllWf([Num(U8, [n - 1])]) && 0 !in CHAIN
    ensures var args, o := [Num(U8, [n])], Direct(ChainEnv, k - 1, CHAIN, [Num(U8, [n - 1])]);
            Run(Chain, args, [], Directly(ChainEnv, k - 1))
            == if o.Threw? then Err(o.error) else Ok(Done(Void, args))
  {
    var args, call := [Num(U8, [n])], Directly(ChainEnv, k - 1);
    var o := call(CHAIN, [Num(U8, [n - 1])]);
    assert o == Direct(ChainEnv, k - 1, CHAIN, [Num(U8, [n - 1])]);
    assert Act(Chain, args, []) == Nested(CHAIN, [Num(U8, [n - 1])]);
    assert [] + [o] == [o];
    assert Run(Chain, args, [], call) == Run(Chain, args, [o], call);
    assert Act(Chain, args, [o]) == if o.Threw? then Throw(o.error, args) else Finish(Void, args);
  }
}
