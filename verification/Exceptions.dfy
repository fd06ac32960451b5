// A function may have written through its pointers when its call ends with an exception: its
// own, or one about the reply. Called directly, it has changed the caller's memory; through
// the loopback, these writes stay in the call packet.
module Exceptions {
  import opened Bytes
  import opened Results
  import opened Codec
  import opened Pointers
  import opened Rpc
  import opened Nesting

  // The caller's arguments when the call is over and the function left `left`.
  ghost function Kept(o: Outcome, args: seq<Value>, left: seq<Value>): Outcome
    requires |args| == |left|
  {
    match o
    case Returned(_, _) => o
    case Threw(e, _) => Threw(e, Merge(args, left))
  }

  // The direct call: the function works on the caller's memory, nested calls on its own.
  ghost function InPlace(env: Env, k: nat, name: seq<Byte>, args: seq<Value>): Outcome
    requires 0 !in name && AllWf(args)
    decreases k, 0
  {
    if k == 0 then Threw(OutOfPackets, args)
    else if !Sent(k, name, args) then Threw(PacketFull, args)
    else
      var r := Invoke(env, name, NormAll(args), InPlaceAt(env, k - 1));
      if !Entered(env, name, args) then Ending(k - 1, args, r)
      else Kept(Ending(k - 1, args, r), args, Left(env[name], NormAll(args), [], InPlaceAt(env, k - 1)))
  }

  ghost function InPlaceAt(env: Env, k: nat): Calls
    decreases k, 1
  {
    (name, args) => if 0 !in name && AllWf(args) then InPlace(env, k, name, args) else Threw(Thrown, args)
  }

  // ---- when the loopback loses what a function wrote ----

  // The function has run and changed its pointees, but the call ends with an exception: the
  // function's own, or because its reply got no packet or does not fit into one.
  ghost predicate Spoiled(env: Env, k: nat, name: seq<Byte>, args: seq<Value>)
    requires 0 !in name && AllWf(args)
  {
    Sent(k, name, args) && Entered(env, name, args) &&
    var f, vals, calls := env[name], NormAll(args), Directly(env, k - 1);
    var r := Run(f, vals, [], calls);
    && (r.Err? || k == 1 || TooLarge(args, r.value))
    && Merge(args, Left(f, vals, [], calls)) != args
  }

  ghost predicate TooLarge(args: seq<Value>, d: Done)
    requires AllWf(args) && Wf(d.result) && SameShape(NormAll(args), d.after)
  {
    ShapeFits(NormAll(args), d.after);
    |ReplyBytes(d.result, d.after)| > MAX_PAYLOAD_SIZE
  }

  // All calls that a run makes have this property.
  ghost predicate RunAll(f: Function, vals: seq<Value>, hist: seq<Outcome>, call: Calls, good: Question)
    requires |hist| <= f.maxCalls
    decreases f.maxCalls - |hist|
  {
    match Act(f, vals, hist)
    case Nested(name, args) => good(name, args) && RunAll(f, vals, hist + [call(name, args)], call, good)
    case _ => true
  }

  // Neither the call nor any call made in it, through the loopback, is spoiled.
  ghost predicate Clean(env: Env, k: nat, name: seq<Byte>, args: seq<Value>)
    requires 0 !in name && AllWf(args)
    decreases k, 0
  {
    && !Spoiled(env, k, name, args)
    && (Sent(k, name, args) && Entered(env, name, args) ==>
          RunAll(env[name], NormAll(args), [], Directly(env, k - 1), CleanAt(env, k - 1)))
  }

  ghost function CleanAt(env: Env, k: nat): Question
    decreases k, 1
  {
    (name, args) => 0 !in name && AllWf(args) ==> Clean(env, k, name, args)
  }

  // The call and every call made in it end through the loopback as they do in place.
  ghost predicate Alike(env: Env, k: nat, name: seq<Byte>, args: seq<Value>)
    requires 0 !in name && AllWf(args)
    decreases k, 0
  {
    && RemoteCall(env, k, name, args) == InPlace(env, k, name, args)
    && (Sent(k, name, args) && Entered(env, name, args) ==>
          RunAll(env[name], NormAll(args), [], Directly(env, k - 1), AlikeAt(env, k - 1)))
  }

  ghost function AlikeAt(env: Env, k: nat): Question
    decreases k, 1
  {
    (name, args) => 0 !in name && AllWf(args) ==> Alike(env, k, name, args)
  }

  lemma {:induction false} SameAnswers(f: Function, vals: seq<Value>, hist: seq<Outcome>, c: Calls, d: Calls,
                                       good: Question)
    requires |hist| <= f.maxCalls && RunAll(f, vals, hist, d, good)
    requires forall n, a {:trigger good(n, a)} | 0 !in n && AllWf(a) :: good(n, a) ==> c(n, a) == d(n, a)
    ensures Run(f, vals, hist, c) == Run(f, vals, hist, d) && Left(f, vals, hist, c) == Left(f, vals, hist, d)
    decreases f.maxCalls - |hist|
  {
    match Act(f, vals, hist) {
      case Nested(n, a) => SameAnswers(f, vals, hist + [d(n, a)], c, d, good);
      case _ =>
    }
  }

  lemma {:induction false} SameGood(f: Function, vals: seq<Value>, hist: seq<Outcome>, d: Calls,
                                    p: Question, q: Question)
    requires |hist| <= f.maxCalls
    requires forall n, a {:trigger p(n, a)} | 0 !in n && AllWf(a) :: p(n, a) <==> q(n, a)
    ensures RunAll(f, vals, hist, d, p) <==> RunAll(f, vals, hist, d, q)
    decreases f.maxCalls - |hist|
  {
    match Act(f, vals, hist) {
      case Nested(n, a) => SameGood(f, vals, hist + [d(n, a)], d, p, q);
      case _ =>
    }
  }

  // If the calls it makes end alike, so does the call, unless it is spoiled.
  lemma OneCall(env: Env, k: nat, name: seq<Byte>, args: seq<Value>)
    requires 0 !in name && AllWf(args) && Sent(k, name, args) && Entered(env, name, args)
    requires var f, vals, c, d := env[name], NormAll(args), InPlaceAt(env, k - 1), Directly(env, k - 1);
             Run(f, vals, [], c) == Run(f, vals, [], d) && Left(f, vals, [], c) == Left(f, vals, [], d)
    ensures Direct(env, k, name, args) == InPlace(env, k, name, args) <==> !Spoiled(env, k, name, args)
  {
  }

  lemma {:induction false} Inside(f: Function, vals: seq<Value>, env: Env, k: nat, c: Calls, d: Calls,
                                  alike: Question, clean: Question)
    requires c == InPlaceAt(env, k) && d == Directly(env, k) && alike == AlikeAt(env, k) && clean == CleanAt(env, k)
    ensures RunAll(f, vals, [], d, alike) <==> RunAll(f, vals, [], d, clean)
    ensures RunAll(f, vals, [], d, alike) ==>
              Run(f, vals, [], c) == Run(f, vals, [], d) && Left(f, vals, [], c) == Left(f, vals, [], d)
    decreases k, 1
  {
    forall n, a {:trigger alike(n, a)} | 0 !in n && AllWf(a)
      ensures alike(n, a) <==> clean(n, a)
      ensures alike(n, a) ==> c(n, a) == d(n, a)
    {
      LoopbackIsInPlaceIff(env, k, n, a);
      LoopbackIsDirect(env, k, n, a);
    }
    SameGood(f, vals, [], d, alike, clean);
    if RunAll(f, vals, [], d, alike) {
      SameAnswers(f, vals, [], c, d, alike);
    }
  }

  // A call that does not get as far as the function ends alike.
  lemma NotEntered(env: Env, k: nat, name: seq<Byte>, args: seq<Value>)
    requires 0 !in name && AllWf(args) && !(Sent(k, name, args) && Entered(env, name, args))
    ensures Direct(env, k, name, args) == InPlace(env, k, name, args) && !Spoiled(env, k, name, args)
  {
  }

  // A call and every call made in it end through the loopback as they do on the caller's
  // own memory, if and only if none of them is spoiled.
  lemma {:induction false} LoopbackIsInPlaceIff(env: Env, k: nat, name: seq<Byte>, args: seq<Value>)
    requires 0 !in name && AllWf(args)
    ensures Alike(env, k, name, args) <==> Clean(env, k, name, args)
    decreases k, 0
  {
    LoopbackIsDirect(env, k, name, args);
    if Sent(k, name, args) && Entered(env, name, args) {
      EnteredIff(env, k, name, args);
    } else {
      NotEntered(env, k, name, args);
    }
  }

  lemma {:induction false} EnteredIff(env: Env, k: nat, name: seq<Byte>, args: seq<Value>)
    requires 0 !in name && AllWf(args) && Sent(k, name, args) && Entered(env, name, args)
    ensures var f, vals, d := env[name], NormAll(args), Directly(env, k - 1);
            var alike := RunAll(f, vals, [], d, AlikeAt(env, k - 1));
            var clean := RunAll(f, vals, [], d, CleanAt(env, k - 1));
            && (alike <==> clean)
            && (alike ==> (Direct(env, k, name, args) == InPlace(env, k, name, args) <==> !Spoiled(env, k, name, args)))
    decreases k - 1, 2
  {
    Inside(env[name], NormAll(args), env, k - 1, InPlaceAt(env, k - 1), Directly(env, k - 1),
           AlikeAt(env, k - 1), CleanAt(env, k - 1));
    if RunAll(env[name], NormAll(args), [], Directly(env, k - 1), AlikeAt(env, k - 1)) {
      OneCall(env, k, name, args);
    }
  }

  // ---- what a call in place leaves ----

  // A function that throws after these calls, themselves made in place: the caller finds in
  // its memory what the function left there.
  lemma InPlaceThrows(env: Env, k: nat, name: seq<Byte>, args: seq<Value>, hist: seq<Outcome>,
                      e: Error, after: seq<Value>)
    requires Accepted(env, k, name, args) && Made(env[name], NormAll(args), hist, InPlaceAt(env, k - 1))
    requires env[name].body(NormAll(args), hist) == Throw(e, after) && Repointed(NormAll(args), after)
    ensures var o := InPlace(env, k, name, args);
            && o.Threw? && o.error == e && |o.after| == |args|
            && forall i | 0 <= i < |args| :: o.after[i] == if args[i].Ptr? then after[i] else args[i]
  {
    CallSize(name, args);
    SuitsNorm(env[name], args);
    BodyThrows(env[name], NormAll(args), hist, InPlaceAt(env, k - 1), e, after);
    forall i | 0 <= i < |args| ensures Merge(args, after)[i] == if args[i].Ptr? then after[i] else args[i] {
      MergeAt(args, after, i);
    }
  }

  // ---- two spoiled calls ----

  const WRITER: seq<Byte> := [0x77]
  const Before := [Ptr(U8, [0])]
  const After := [Ptr(U8, [1])]

  // Writes 1 through its pointer, and then returns or throws.
  function Writer(throws: bool): Function {
    Function([PTR_MODIFIER + U8.Id()], VOID_ID, 0,
             (vals, hist) => if throws then Throw(Thrown, After) else Finish(Void, After))
  }

  lemma WriterRuns(env: Env, throws: bool, calls: Calls)
    requires env == map[WRITER := Writer(throws)]
    ensures AllWf(Before) && NormAll(Before) == Before && Entered(env, WRITER, Before)
    ensures Run(env[WRITER], Before, [], calls) == if throws then Err(Thrown) else Ok(Done(Void, After))
    ensures Left(env[WRITER], Before, [], calls) == After
    ensures Invoke(env, WRITER, Before, calls) == Run(env[WRITER], Before, [], calls)
  {
    assert SameShape(Before, After);
    assert Act(env[WRITER], Before, []) == if throws then Throw(Thrown, After) else Finish(Void, After);
  }

  lemma WriterFits()
    ensures 0 !in WRITER && AllWf(Before) && |CallBytes(WRITER, Before)| <= MAX_PAYLOAD_SIZE
    ensures Merge(Before, Before) == Before && Merge(Before, After) == After
  {
    CallSize(WRITER, Before);
    assert CostAll(Before[1..]) == 0;
    assert Before[1..] == [] && After[1..] == [];
  }

  // The function throws, or it returns and there is no packet for its reply: either way the
  // caller finds 1 after the call in place, and 0 after the call through the loopback.
  lemma WritesAreLost(throws: bool)
    ensures 0 !in WRITER && AllWf(Before)
    ensures var env, k := map[WRITER := Writer(throws)], if throws then 16 else 1;
            var e := if throws then Thrown else OutOfPackets;
            && RemoteCall(env, k, WRITER, Before) == Threw(e, Before)
            && InPlace(env, k, WRITER, Before) == Threw(e, After)
  {
    var env, k := map[WRITER := Writer(throws)], if throws then 16 else 1;
    WriterFits();
    WriterRuns(env, throws, Directly(env, k - 1));
    WriterRuns(env, throws, InPlaceAt(env, k - 1));
    LoopbackIsDirect(env, k, WRITER, Before);
  }
}
