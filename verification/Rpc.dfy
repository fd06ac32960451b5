// Calls through the loopback endpoint, byte for byte, and the direct calls they stand for.
module Rpc {
  import opened Bytes
  import opened Results
  import opened Codec
  import opened Pointers

  // ---- bound functions ----

  // How a call ends for its caller, and the arguments as they are then.
  datatype Outcome = Returned(result: Value, after: seq<Value>) | Threw(error: Error, after: seq<Value>)

  // What a function does next, given its arguments and the outcomes of the calls that it
  // has made itself through the same endpoint.
  datatype Action =
    | Finish(result: Value, after: seq<Value>)
    | Throw(error: Error, after: seq<Value>)
    | Nested(name: seq<Byte>, args: seq<Value>)

  datatype Function = Function(
    params: seq<Byte>,    // type ids
    result: Byte,
    maxCalls: nat,        // bounds the nested calls of one invocation
    body: (seq<Value>, seq<Outcome>) -> Action)

  type Env = map<seq<Byte>, Function>

  function TypeOf(v: Value): Byte {
    match v
    case Null => NULL_ID
    case Void => VOID_ID
    case Truth(_) => BOOL_ID
    case Text(_) => CSTR_ID
    case Num(t, _) => t.Id()
    case Ptr(t, _) => PTR_MODIFIER + t.Id()
  }

  // The type system of the program: a result of the declared type that is not a pointer,
  // pointees of unchanged size, and well-formed calls. A body that breaks it stands for
  // no function of the program; it is taken to throw.
  predicate Typed(f: Function, vals: seq<Value>, calls: nat, a: Action) {
    match a
    case Finish(r, after) =>
      Wf(r) && TypeOf(r) == f.result && !r.Text? && !r.Ptr? && SameShape(vals, after)
    case Throw(_, after) => after == vals || SameShape(vals, after)
    case Nested(name, args) => calls < f.maxCalls && 0 !in name && AllWf(args)
  }

  function Act(f: Function, vals: seq<Value>, hist: seq<Outcome>): (a: Action)
    ensures Typed(f, vals, |hist|, a)
  {
    var a := f.body(vals, hist);
    if Typed(f, vals, |hist|, a) then a else Throw(Thrown, vals)
  }

  datatype Done = Done(result: Value, after: seq<Value>)

  type Calls = (seq<Byte>, seq<Value>) -> Outcome

  // Runs a body whose nested calls behave as `call` says.
  ghost function Run(f: Function, vals: seq<Value>, hist: seq<Outcome>, call: Calls): (r: Result<Done, Error>)
    requires |hist| <= f.maxCalls
    ensures r.Ok? ==> Typed(f, vals, 0, Finish(r.value.result, r.value.after))
    decreases f.maxCalls - |hist|
  {
    match Act(f, vals, hist)
    case Finish(r, after) => Ok(Done(r, after))
    case Throw(e, _) => Err(e)
    case Nested(name, args) => Run(f, vals, hist + [call(name, args)], call)
  }

  // The arguments as the body leaves them, whether it returns or throws.
  ghost function Left(f: Function, vals: seq<Value>, hist: seq<Outcome>, call: Calls): (after: seq<Value>)
    requires |hist| <= f.maxCalls
    ensures after == vals || SameShape(vals, after)
    ensures var r := Run(f, vals, hist, call); r.Ok? ==> after == r.value.after
    decreases f.maxCalls - |hist|
  {
    match Act(f, vals, hist)
    case Finish(_, after) => after
    case Throw(_, after) => after
    case Nested(name, args) => Left(f, vals, hist + [call(name, args)], call)
  }

  // Number and types of the arguments must be exactly those of the parameters.
  function CheckArgs(f: Function, vals: seq<Value>): Option<Error> {
    if |f.params| != |vals| then Some(ParamNumMismatch)
    else if forall i | 0 <= i < |vals| :: TypeOf(vals[i]) == f.params[i] then None
    else Some(ParamTypeMismatch)
  }

  ghost function Invoke(env: Env, name: seq<Byte>, vals: seq<Value>, call: Calls): (r: Result<Done, Error>)
    ensures r.Ok? ==> Wf(r.value.result) && !r.value.result.Text? && !r.value.result.Ptr?
    ensures r.Ok? ==> SameShape(vals, r.value.after)
  {
    if name !in env then Err(NotFound)
    else match CheckArgs(env[name], vals)
      case Some(e) => Err(e)
      case None => Run(env[name], vals, [], call)
  }

  // ---- replies ----

  predicate CellsFit(vs: seq<Value>) {
    forall i | 0 <= i < |vs| && vs[i].Ptr? :: Wf(vs[i])
  }

  ghost function PtrsOf(vs: seq<Value>): (r: seq<Value>)
    ensures CellsFit(vs) ==> AllWf(r)
  {
    if vs == [] then [] else if vs[0].Ptr? then [vs[0]] + PtrsOf(vs[1..]) else PtrsOf(vs[1..])
  }

  ghost function ReplyBytes(result: Value, vs: seq<Value>): seq<Byte>
    requires Wf(result) && CellsFit(vs)
  {
    [RESULT_PACKET] + Encode(result) + EncodeAll(PtrsOf(vs))
  }

  // One pointee of a reply: its type must be that of the pointer it is for.
  function OutParam(b: seq<Byte>, o: nat, t: Base): Result<seq<Byte>, Error> {
    if o >= |b| then Err(BadPacketAccess)
    else if HeaderType(b[o]) != PTR_MODIFIER + t.Id() then Err(OutparamTypeMismatch)
    else if o + 1 + t.Size() > |b| then Err(BadPacketAccess)
    else Ok(b[o + 1..o + 1 + t.Size()])
  }

  // Copies the pointees of a reply into the caller's pointer arguments, in order.
  function ReadOut(b: seq<Byte>, o: nat, args: seq<Value>): Result<seq<Value>, Error>
    decreases |args|
  {
    if args == [] then Ok([])
    else if !args[0].Ptr? then
      match ReadOut(b, o, args[1..])
      case Ok(vs) => Ok([args[0]] + vs)
      case Err(e) => Err(e)
    else match OutParam(b, o, args[0].t)
      case Err(e) => Err(e)
      case Ok(cell) =>
        match ReadOut(b, o + 1 + args[0].t.Size(), args[1..])
        case Ok(vs) => Ok([Ptr(args[0].t, cell)] + vs)
        case Err(e) => Err(e)
  }

  // What a reply that cannot be read leaves in the caller's memory is not specified.
  function ReadResult(b: seq<Byte>, args: seq<Value>): Outcome {
    if |b| == 0 then Threw(BadPacketAccess, args)
    else if b[0] != RESULT_PACKET then Threw(BadPacket, args)
    else match Decode(b, 1)
      case Err(e) => Threw(e, args)
      case Ok(item) =>
        match ReadOut(b, item.next, args)
        case Err(e) => Threw(e, args)
        case Ok(after) =>
          if InBuffer(item.arg, b) then Returned(Deref(b, item.arg), after) else Threw(BadPacketAccess, args)
  }

  // ---- the call, byte for byte; k is the number of free packets ----

  ghost function RemoteCall(env: Env, k: nat, name: seq<Byte>, args: seq<Value>): Outcome
    requires 0 !in name && AllWf(args)
    decreases k, 0
  {
    if k == 0 then Threw(OutOfPackets, args) else OnTheWire(env, k - 1, name, args)
  }

  // The call once it has a packet.
  ghost function OnTheWire(env: Env, k: nat, name: seq<Byte>, args: seq<Value>): Outcome
    requires 0 !in name && AllWf(args)
    decreases k, 3
  {
    var b := CallBytes(name, args);
    if |b| > MAX_PAYLOAD_SIZE then Threw(PacketFull, args)
    else match Serve(env, k, b)
      case Err(e) => Threw(e, args)
      case Ok(reply) => ReadResult(reply, args)
  }

  ghost function Remotely(env: Env, k: nat): Calls
    decreases k, 1
  {
    (name, args) => if 0 !in name && AllWf(args) then RemoteCall(env, k, name, args) else Threw(Thrown, args)
  }

  // The callee's side: decode, call, write the reply.
  ghost function Serve(env: Env, k: nat, b: seq<Byte>): Result<seq<Byte>, Error>
    decreases k, 2
  {
    match DecodeCall(b)
    case Err(e) => Err(e)
    case Ok(c) =>
      DecodedCall(b);
      match Invoke(env, c.name, DerefAll(b, c.args), Remotely(env, k))
      case Err(e) => Err(e)
      case Ok(d) =>
        Reply(k, b, c.args, d)
  }

  lemma DecodedCall(b: seq<Byte>)
    requires DecodeCall(b).Ok?
    ensures Layout(DecodeCall(b).value.args, b, 0)
    ensures forall a | a in DecodeCall(b).value.args :: InBuffer(a, b)
  {
    var n := NulFrom(b, 2);
    DecodedLayout(b, n + 1);
    var args := DecodeAll(b, n + 1).value;
    forall a | a in args ensures InBuffer(a, b) {
      var i :| 0 <= i < |args| && args[i] == a;
    }
  }

  // The call packet after the function has written through its pointers.
  ghost function Written(b: seq<Byte>, args: seq<Arg>, d: Done): (r: seq<Byte>)
    requires Layout(args, b, 0) && (forall a | a in args :: InBuffer(a, b))
    requires SameShape(DerefAll(b, args), d.after)
    ensures |r| == |b| && (forall a | a in args :: InBuffer(a, r)) && CellsFit(DerefAll(r, args))
  {
    DerefShape(b, args, d.after);
    Poke(b, args, d.after)
  }

  // From there the pointees go into the reply.
  ghost function AnswerBytes(b: seq<Byte>, args: seq<Arg>, d: Done): seq<Byte>
    requires Layout(args, b, 0) && (forall a | a in args :: InBuffer(a, b))
    requires Wf(d.result) && SameShape(DerefAll(b, args), d.after)
  {
    ReplyBytes(d.result, DerefAll(Written(b, args, d), args))
  }

  // The reply needs a packet of its own.
  ghost function Reply(k: nat, b: seq<Byte>, args: seq<Arg>, d: Done): Result<seq<Byte>, Error>
    requires Layout(args, b, 0) && (forall a | a in args :: InBuffer(a, b))
    requires Wf(d.result) && SameShape(DerefAll(b, args), d.after)
  {
    if k == 0 then Err(OutOfPackets)
    else
      var reply := AnswerBytes(b, args, d);
      if |reply| > MAX_PAYLOAD_SIZE then Err(PacketFull) else Ok(reply)
  }

  lemma DerefShape(b: seq<Byte>, args: seq<Arg>, after: seq<Value>)
    requires Layout(args, b, 0) && (forall a | a in args :: InBuffer(a, b))
    requires SameShape(DerefAll(b, args), after)
    ensures Writable(b, args, after)
    ensures var r := Poke(b, args, after);
            (forall a | a in args :: InBuffer(a, r)) && CellsFit(DerefAll(r, args))
  {
    forall i | 0 <= i < |args| && args[i].Ref?
      ensures after[i].Ptr? && |after[i].cell| == args[i].t.Size()
    {
      DerefAllAt(b, args, i);
    }
    var r := Poke(b, args, after);
    forall i | 0 <= i < |args| && DerefAll(r, args)[i].Ptr? ensures Wf(DerefAll(r, args)[i]) {
      DerefAllAt(r, args, i);
    }
  }

  // ---- the direct call ----

  // The caller's arguments after a call: pointees as the function left them.
  ghost function Merge(args: seq<Value>, after: seq<Value>): (r: seq<Value>)
    requires |args| == |after|
    ensures |r| == |args|
  {
    if args == [] then []
    else [if args[0].Ptr? && after[0].Ptr? then after[0] else args[0]] + Merge(args[1..], after[1..])
  }

  // How a call ends once the function has been invoked: the reply needs a packet, and has
  // to fit into it.
  ghost function Ending(k: nat, args: seq<Value>, r: Result<Done, Error>): Outcome
    requires AllWf(args)
    requires r.Ok? ==> Wf(r.value.result) && SameShape(NormAll(args), r.value.after)
  {
    match r
    case Err(e) => Threw(e, args)
    case Ok(d) =>
      ShapeFits(NormAll(args), d.after);
      if k == 0 then Threw(OutOfPackets, args)
      else if |ReplyBytes(d.result, d.after)| > MAX_PAYLOAD_SIZE then Threw(PacketFull, args)
      else Returned(Norm(d.result), Merge(args, d.after))
  }

  // The callee's side of the same.
  ghost function Answer(k: nat, args: seq<Value>, r: Result<Done, Error>): Result<seq<Byte>, Error>
    requires AllWf(args)
    requires r.Ok? ==> Wf(r.value.result) && SameShape(NormAll(args), r.value.after)
  {
    match r
    case Err(e) => Err(e)
    case Ok(d) =>
      ShapeFits(NormAll(args), d.after);
      if k == 0 then Err(OutOfPackets)
      else if |ReplyBytes(d.result, d.after)| > MAX_PAYLOAD_SIZE then Err(PacketFull)
      else Ok(ReplyBytes(d.result, d.after))
  }

  // The function is applied to the arguments themselves, but for lost sign bits. There is
  // a packet for the call and, after the function has run, one for the reply; both fit.
  ghost function Direct(env: Env, k: nat, name: seq<Byte>, args: seq<Value>): Outcome
    requires 0 !in name && AllWf(args)
    decreases k, 0
  {
    if k == 0 then Threw(OutOfPackets, args)
    else if |CallBytes(name, args)| > MAX_PAYLOAD_SIZE then Threw(PacketFull, args)
    else Ending(k - 1, args, Invoke(env, name, NormAll(args), Directly(env, k - 1)))
  }

  ghost function Directly(env: Env, k: nat): Calls
    decreases k, 1
  {
    (name, args) => if 0 !in name && AllWf(args) then Direct(env, k, name, args) else Threw(Thrown, args)
  }

  lemma ShapeFits(vs: seq<Value>, after: seq<Value>)
    requires AllWf(vs) && SameShape(vs, after)
    ensures AllWf(after) && CellsFit(after)
  {
  }

  // ---- the loopback call means the direct call ----

  lemma {:induction false} SameRun(f: Function, vals: seq<Value>, hist: seq<Outcome>, c: Calls, d: Calls)
    requires |hist| <= f.maxCalls && forall name, args :: c(name, args) == d(name, args)
    ensures Run(f, vals, hist, c) == Run(f, vals, hist, d)
    decreases f.maxCalls - |hist|
  {
    match Act(f, vals, hist) {
      case Nested(name, args) => SameRun(f, vals, hist + [c(name, args)], c, d);
      case _ =>
    }
  }

  lemma SameInvoke(env: Env, name: seq<Byte>, vals: seq<Value>, c: Calls, d: Calls)
    requires forall name, args :: c(name, args) == d(name, args)
    ensures Invoke(env, name, vals, c) == Invoke(env, name, vals, d)
  {
    if name in env && CheckArgs(env[name], vals) == None {
      SameRun(env[name], vals, [], c, d);
    }
  }

  // After the writes, the packet holds the arguments as the function left them.
  lemma {:induction false} AnswerIsAfter(b: seq<Byte>, args: seq<Arg>, d: Done)
    requires Layout(args, b, 0) && (forall a | a in args :: InBuffer(a, b))
    requires Wf(d.result) && SameShape(DerefAll(b, args), d.after)
    ensures CellsFit(d.after) && AnswerBytes(b, args, d) == ReplyBytes(d.result, d.after)
  {
    DerefShape(b, args, d.after);
    var r := Poke(b, args, d.after);
    forall i | 0 <= i < |args| ensures DerefAll(r, args)[i] == d.after[i] {
      DerefAllAt(r, args, i);
      DerefAllAt(b, args, i);
      DerefPoked(b, args, d.after, i);
    }
    assert DerefAll(r, args) == d.after;
  }

  // Pointers where the caller passed pointers, and of the same types.
  ghost predicate Matches(args: seq<Value>, after: seq<Value>) {
    |args| == |after| &&
    forall i | 0 <= i < |args| ::
      if args[i].Ptr? then after[i].Ptr? && after[i].t == args[i].t && Wf(after[i]) else !after[i].Ptr?
  }

  lemma PtrAt(t: Base, cell: seq<Byte>, rest: seq<Byte>, b: seq<Byte>, o: nat)
    requires |cell| == t.Size() && o <= |b| && b[o..] == [PTR_MODIFIER + t.Id()] + cell + rest
    ensures o + 1 + t.Size() <= |b| && OutParam(b, o, t) == Ok(cell) && b[o + 1 + t.Size()..] == rest
  {
    var e := [PTR_MODIFIER + t.Id()] + cell + rest;
    PrefixAt(e, b, o);
    assert b[o] == e[0];
    HeaderRoundTrip(t, 0);
    assert b[o + 1..o + 1 + t.Size()] == e[1..1 + t.Size()] == cell;
    assert b[o + 1 + t.Size()..] == b[o..][1 + t.Size()..] == rest;
  }

  lemma EncodeCons(v: Value, vs: seq<Value>)
    requires Wf(v) && AllWf(vs)
    ensures AllWf([v] + vs) && EncodeAll([v] + vs) == Encode(v) + EncodeAll(vs)
  {
    assert ([v] + vs)[1..] == vs;
  }

  lemma FirstPointer(after: seq<Value>)
    requires after != [] && after[0].Ptr? && CellsFit(after)
    ensures EncodeAll(PtrsOf(after))
            == [PTR_MODIFIER + after[0].t.Id()] + after[0].cell + EncodeAll(PtrsOf(after[1..]))
  {
    EncodeCons(after[0], PtrsOf(after[1..]));
  }

  // The caller's pointers receive the pointees in the order in which they were written.
  lemma {:induction false} ReadOutEncoded(b: seq<Byte>, o: nat, args: seq<Value>, after: seq<Value>)
    requires Matches(args, after) && CellsFit(after)
    requires o <= |b| && b[o..] == EncodeAll(PtrsOf(after))
    ensures ReadOut(b, o, args) == Ok(Merge(args, after))
    decreases |args|
  {
    if args != [] {
      if args[0].Ptr? {
        PointerRead(b, o, args, after);
        ReadOutEncoded(b, o + 1 + args[0].t.Size(), args[1..], after[1..]);
      } else {
        ReadOutEncoded(b, o, args[1..], after[1..]);
      }
    }
  }

  lemma PointerRead(b: seq<Byte>, o: nat, args: seq<Value>, after: seq<Value>)
    requires args != [] && args[0].Ptr? && Matches(args, after) && CellsFit(after)
    requires o <= |b| && b[o..] == EncodeAll(PtrsOf(after))
    ensures var t := args[0].t;
            && o + 1 + t.Size() <= |b| && after[0] == Ptr(t, after[0].cell) && OutParam(b, o, t) == Ok(after[0].cell)
            && b[o + 1 + t.Size()..] == EncodeAll(PtrsOf(after[1..]))
  {
    FirstPointer(after);
    PtrAt(after[0].t, after[0].cell, EncodeAll(PtrsOf(after[1..])), b, o);
  }

  // Number of bytes that the pointees for these arguments take in a reply.
  function OutSize(args: seq<Value>): nat {
    if args == [] then 0 else (if args[0].Ptr? then 1 + args[0].t.Size() else 0) + OutSize(args[1..])
  }

  lemma {:induction false} OutSizeEncoded(args: seq<Value>, after: seq<Value>)
    requires Matches(args, after) && CellsFit(after)
    ensures |EncodeAll(PtrsOf(after))| == OutSize(args)
  {
    if args != [] {
      OutSizeEncoded(args[1..], after[1..]);
      if args[0].Ptr? {
        FirstPointer(after);
      }
    }
  }

  // Result and pointees are all there is in a reply: reading it ends at its last byte.
  lemma ReplyReadToTheEnd(result: Value, args: seq<Value>, after: seq<Value>)
    requires Wf(result) && Matches(args, after) && CellsFit(after)
    ensures var b := ReplyBytes(result, after);
            Decode(b, 1).Ok? && Decode(b, 1).value.next + OutSize(args) == |b|
  {
    var b := ReplyBytes(result, after);
    ReplyParts([RESULT_PACKET], Encode(result), EncodeAll(PtrsOf(after)));
    DecodeEncode(result, b, 1);
    OutSizeEncoded(args, after);
  }

  lemma ReadResultReply(result: Value, args: seq<Value>, after: seq<Value>)
    requires Wf(result) && !result.Text? && !result.Ptr?
    requires Matches(args, after) && CellsFit(after)
    ensures ReadResult(ReplyBytes(result, after), args) == Returned(Norm(result), Merge(args, after))
  {
    var b := ReplyBytes(result, after);
    var e, rest := Encode(result), EncodeAll(PtrsOf(after));
    ReplyParts([RESULT_PACKET], e, rest);
    DecodeEncode(result, b, 1);
    assert ArgAt(result, 1) == Imm(Norm(result));
    ReadOutEncoded(b, 1 + |e|, args, after);
  }

  lemma ReplyParts(h: seq<Byte>, e: seq<Byte>, rest: seq<Byte>)
    ensures var b := h + e + rest;
            e <= b[|h|..] && b[|h| + |e|..] == rest && h <= b
  {
    assert (h + e + rest)[|h|..] == e + rest;
  }

  lemma ShapeMatches(args: seq<Value>, after: seq<Value>)
    requires AllWf(args) && SameShape(NormAll(args), after)
    ensures Matches(args, after)
  {
  }

  // What the callee's side makes of an encoded call.
  lemma ServeEncoded(env: Env, k: nat, name: seq<Byte>, args: seq<Value>)
    requires 0 !in name && AllWf(args)
    ensures Serve(env, k, CallBytes(name, args))
            == Answer(k, args, Invoke(env, name, NormAll(args), Remotely(env, k)))
  {
    var b := CallBytes(name, args);
    var places := ArgsAt(args, 3 + |name|);
    DecodeCallBytes(name, args);
    DecodedCall(b);
    assert b[3 + |name|..] == EncodeAll(args);
    DerefEncoded(args, b, 3 + |name|);
    match Invoke(env, name, NormAll(args), Remotely(env, k)) {
      case Err(_) =>
      case Ok(d) => AnswerIsAfter(b, places, d);
    }
  }

  lemma AnswerEnding(k: nat, args: seq<Value>, r: Result<Done, Error>)
    requires AllWf(args)
    requires r.Ok? ==> Wf(r.value.result) && SameShape(NormAll(args), r.value.after)
    requires r.Ok? ==> !r.value.result.Text? && !r.value.result.Ptr?
    ensures Ending(k, args, r) == match Answer(k, args, r) {
              case Err(e) => Threw(e, args)
              case Ok(reply) => ReadResult(reply, args)
            }
  {
    match r {
      case Err(_) =>
      case Ok(d) =>
        ShapeFits(NormAll(args), d.after);
        ShapeMatches(args, d.after);
        ReadResultReply(d.result, args, d.after);
    }
  }

  lemma RemoteEnding(env: Env, k: nat, name: seq<Byte>, args: seq<Value>)
    requires 0 !in name && AllWf(args) && k > 0 && |CallBytes(name, args)| <= MAX_PAYLOAD_SIZE
    ensures RemoteCall(env, k, name, args)
            == Ending(k - 1, args, Invoke(env, name, NormAll(args), Remotely(env, k - 1)))
  {
    ServeEncoded(env, k - 1, name, args);
    AnswerEnding(k - 1, args, Invoke(env, name, NormAll(args), Remotely(env, k - 1)));
  }

  // A reply that was written can be read.
  lemma ReplyIsRead(env: Env, k: nat, name: seq<Byte>, args: seq<Value>)
    requires 0 !in name && AllWf(args)
    ensures var s := Serve(env, k, CallBytes(name, args)); s.Ok? ==> ReadResult(s.value, args).Returned?
  {
    ServeEncoded(env, k, name, args);
    AnswerEnding(k, args, Invoke(env, name, NormAll(args), Remotely(env, k)));
  }

  // Encoding, decoding, calling, writing the reply in place and reading it back amount to
  // the direct call: the same result, the same pointees in the same places, and the same
  // exceptions, for every function, also if it makes calls through the endpoint itself.
  lemma {:induction false} LoopbackIsDirect(env: Env, k: nat, name: seq<Byte>, args: seq<Value>)
    requires 0 !in name && AllWf(args)
    ensures RemoteCall(env, k, name, args) == Direct(env, k, name, args)
    decreases k
  {
    if k > 0 && |CallBytes(name, args)| <= MAX_PAYLOAD_SIZE {
      var c, d := Remotely(env, k - 1), Directly(env, k - 1);
      forall n, a ensures c(n, a) == d(n, a) {
        if 0 !in n && AllWf(a) { LoopbackIsDirect(env, k - 1, n, a); }
      }
      SameInvoke(env, name, NormAll(args), c, d);
      RemoteEnding(env, k, name, args);
    }
  }

  // How a call ends that was answered with a.
  function EndOf(args: seq<Value>, a: Result<seq<Byte>, Error>): Outcome {
    match a
    case Err(e) => Threw(e, args)
    case Ok(reply) => ReadResult(reply, args)
  }

  lemma EndOnTheWire(env: Env, k: nat, name: seq<Byte>, args: seq<Value>, a: Result<seq<Byte>, Error>)
    requires 0 !in name && AllWf(args)
    requires var b := CallBytes(name, args);
             a == if |b| > MAX_PAYLOAD_SIZE then Err(PacketFull) else Serve(env, k, b)
    ensures OnTheWire(env, k, name, args) == EndOf(args, a) && (a.Ok? ==> EndOf(args, a).Returned?)
  {
    ReplyIsRead(env, k, name, args);
  }

  lemma DirectEnd(env: Env, k: nat, name: seq<Byte>, args: seq<Value>)
    requires 0 !in name && AllWf(args)
    ensures Direct(env, k, name, args)
            == if k == 0 then Threw(OutOfPackets, args) else OnTheWire(env, k - 1, name, args)
  {
    LoopbackIsDirect(env, k, name, args);
  }

  // Without floats that lose a sign bit, a caller cannot tell the loopback from calling the
  // function, whatever calls the function makes itself: the result is the function's own,
  // and so is every pointee.
  lemma PlainCall(env: Env, k: nat, name: seq<Byte>, args: seq<Value>, result: Value, after: seq<Value>)
    requires 0 !in name && AllWf(args) && k >= 2 && |CallBytes(name, args)| <= MAX_PAYLOAD_SIZE
    requires name in env && CheckArgs(env[name], args) == None
    requires Run(env[name], args, [], Directly(env, k - 1)) == Ok(Done(result, after))
    requires NormAll(args) == args && Norm(result) == result
    requires CellsFit(after) && |ReplyBytes(result, after)| <= MAX_PAYLOAD_SIZE
    ensures RemoteCall(env, k, name, args) == Returned(result, after)
  {
    LoopbackIsDirect(env, k, name, args);
    MergeShape(args, after);
  }

  lemma {:induction false} MergeShape(args: seq<Value>, after: seq<Value>)
    requires SameShape(args, after)
    ensures Merge(args, after) == after
  {
    if args != [] {
      MergeShape(args[1..], after[1..]);
    }
  }

  // ---- what the function's own body says ----

  // The body has asked for these calls, one after the other, and this is how they ended.
  ghost predicate Made(f: Function, vals: seq<Value>, hist: seq<Outcome>, call: Calls) {
    |hist| <= f.maxCalls &&
    forall i | 0 <= i < |hist| ::
      var a := f.body(vals, hist[..i]);
      a.Nested? && 0 !in a.name && AllWf(a.args) && hist[i] == call(a.name, a.args)
  }

  // The pointers are the ones passed, to pointees of the same size; the rest is the same.
  ghost predicate Repointed(vals: seq<Value>, after: seq<Value>) {
    |after| == |vals| &&
    forall i | 0 <= i < |vals| ::
      if vals[i].Ptr? then after[i].Ptr? && after[i].t == vals[i].t && |after[i].cell| == |vals[i].cell|
      else after[i] == vals[i]
  }

  // A result that a function of this type can return.
  ghost predicate Returnable(f: Function, r: Value) {
    Wf(r) && !r.Text? && !r.Ptr? && TypeOf(r) == f.result
  }

  lemma {:induction false} MadeByRun(f: Function, vals: seq<Value>, hist: seq<Outcome>, call: Calls)
    requires Made(f, vals, hist, call)
    ensures Run(f, vals, [], call) == Run(f, vals, hist, call)
    ensures Left(f, vals, [], call) == Left(f, vals, hist, call)
    decreases |hist|
  {
    if hist != [] {
      var front := hist[..|hist| - 1];
      assert forall i | 0 <= i < |front| :: front[..i] == hist[..i];
      MadeByRun(f, vals, front, call);
      assert front + [hist[|front|]] == hist;
    }
  }

  // Whatever the body finishes with after its calls is what the run comes to.
  lemma BodyFinishes(f: Function, vals: seq<Value>, hist: seq<Outcome>, call: Calls, r: Value, after: seq<Value>)
    requires AllWf(vals) && Made(f, vals, hist, call) && f.body(vals, hist) == Finish(r, after)
    requires Returnable(f, r) && Repointed(vals, after)
    ensures Run(f, vals, [], call) == Ok(Done(r, after))
  {
    MadeByRun(f, vals, hist, call);
  }

  lemma BodyThrows(f: Function, vals: seq<Value>, hist: seq<Outcome>, call: Calls, e: Error, after: seq<Value>)
    requires AllWf(vals) && Made(f, vals, hist, call) && f.body(vals, hist) == Throw(e, after)
    requires Repointed(vals, after)
    ensures Run(f, vals, [], call) == Err(e) && Left(f, vals, [], call) == after
  {
    MadeByRun(f, vals, hist, call);
  }

  // ---- sizes ----

  function Cost(v: Value): nat
    requires Wf(v)
  {
    match v
    case Text(s) => |s| + 2
    case Num(t, bits) => 1 + WireSize(t, bits)
    case Ptr(t, _) => 1 + t.Size()
    case _ => 1
  }

  ghost function CostAll(vs: seq<Value>): nat
    requires AllWf(vs)
  {
    if vs == [] then 0 else Cost(vs[0]) + CostAll(vs[1..])
  }

  lemma {:induction false} EncodedSize(vs: seq<Value>)
    requires AllWf(vs)
    ensures |EncodeAll(vs)| == CostAll(vs)
  {
    if vs != [] {
      EncodedSize(vs[1..]);
    }
  }

  lemma CallSize(name: seq<Byte>, args: seq<Value>)
    requires 0 !in name && AllWf(args)
    ensures |CallBytes(name, args)| == 1 + (|name| + 2) + CostAll(args)
  {
    EncodedSize(args);
  }

  // ---- replies in numbers, and malformed ones ----

  // The result, and then the pointees of the pointers in the order of the arguments.
  lemma ReplyPacket(result: Value, p: Value, v: Value, q: Value)
    requires Wf(result) && Wf(p) && Wf(q) && p.Ptr? && q.Ptr? && !v.Ptr?
    ensures ReplyBytes(result, [p, v, q]) == [0x3C] + Encode(result) + (Encode(p) + Encode(q))
  {
    assert [p, v, q][1..] == [v, q] && [v, q][1..] == [q] && [q][1..] == [];
    assert PtrsOf([q]) == [q] + PtrsOf([]) == [q];
    assert PtrsOf([v, q]) == PtrsOf([q]) && PtrsOf([p, v, q]) == [p] + PtrsOf([v, q]);
    EncodeCons(p, [q]);
    OneEncoded(q);
  }

  lemma OneEncoded(v: Value)
    requires Wf(v)
    ensures EncodeAll([v]) == Encode(v)
  {
    EncodeCons(v, []);
    assert [v] + [] == [v] && Encode(v) + [] == Encode(v);
  }

  // A buffer that is no reply, and a pointee of another type than the caller's pointer.
  lemma RejectedReply(b: seq<Byte>, args: seq<Value>, o: nat, t: Base)
    ensures ReadResult(b, args) == Threw(BadPacket, args) <==> b != [] && b[0] != 0x3C
    ensures b == [] || b == [0x3C] ==> ReadResult(b, args) == Threw(BadPacketAccess, args)
    ensures OutParam(b, o, t) == Err(OutparamTypeMismatch) <==> o < |b| && b[o] != 0xA0 + t.Id()
    ensures o >= |b| || (b[o] == 0xA0 + t.Id() && |b| < o + 1 + t.Size()) ==> OutParam(b, o, t) == Err(BadPacketAccess)
  {
    if b != [] {
      RejectedValue(b, 1);
      if Decode(b, 1).Ok? {
        RejectedOuts(b, Decode(b, 1).value.next, args);
      }
    }
  }

  lemma {:induction false} RejectedOuts(b: seq<Byte>, o: nat, args: seq<Value>)
    ensures var r := ReadOut(b, o, args); r.Err? ==> r.error in [BadPacketAccess, OutparamTypeMismatch]
    decreases |args|
  {
    if args != [] {
      if args[0].Ptr? {
        RejectedOuts(b, o + 1 + args[0].t.Size(), args[1..]);
      } else {
        RejectedOuts(b, o, args[1..]);
      }
    }
  }

  // ---- how calls end ----

  // The type of a value is the one in the header it is sent with.
  lemma TypeInHeader(v: Value)
    requires Wf(v)
    ensures TypeOf(v) == HeaderType(Encode(v)[0]) && TypeOf(Norm(v)) == TypeOf(v)
  {
    match v {
      case Num(t, bits) => HeaderRoundTrip(t, WireSize(t, bits));
      case Ptr(t, _) => HeaderRoundTrip(t, 0);
      case _ =>
    }
  }

  // The types of the arguments are those of the parameters.
  ghost predicate Suits(f: Function, args: seq<Value>) {
    |args| == |f.params| && forall i | 0 <= i < |args| :: TypeOf(args[i]) == f.params[i]
  }

  lemma SuitsNorm(f: Function, args: seq<Value>)
    requires AllWf(args)
    ensures Suits(f, args) <==> CheckArgs(f, NormAll(args)) == None
    ensures |args| != |f.params| ==> CheckArgs(f, NormAll(args)) == Some(ParamNumMismatch)
    ensures |args| == |f.params| && !Suits(f, args) ==> CheckArgs(f, NormAll(args)) == Some(ParamTypeMismatch)
  {
    forall i | 0 <= i < |args| ensures TypeOf(NormAll(args)[i]) == TypeOf(args[i]) {
      TypeInHeader(args[i]);
    }
  }

  // The call's arguments fit into a packet.
  ghost predicate Small(name: seq<Byte>, args: seq<Value>)
    requires AllWf(args)
  {
    1 + (|name| + 2) + CostAll(args) <= 896
  }

  // Calls that do not get as far as the function: there is no packet, the packet is too
  // small, nothing is bound to the name, or number or types of the arguments are wrong.
  lemma RefusedCall(env: Env, k: nat, name: seq<Byte>, args: seq<Value>)
    requires 0 !in name && AllWf(args)
    ensures k == 0 ==> RemoteCall(env, k, name, args) == Threw(OutOfPackets, args)
    ensures k > 0 && !Small(name, args) ==> RemoteCall(env, k, name, args) == Threw(PacketFull, args)
    ensures k > 0 && Small(name, args) ==>
              && (name !in env ==> RemoteCall(env, k, name, args) == Threw(NotFound, args))
              && (name in env && |args| != |env[name].params| ==>
                    RemoteCall(env, k, name, args) == Threw(ParamNumMismatch, args))
              && (name in env && |args| == |env[name].params| && !Suits(env[name], args) ==>
                    RemoteCall(env, k, name, args) == Threw(ParamTypeMismatch, args))
  {
    LoopbackIsDirect(env, k, name, args);
    CallSize(name, args);
    if name in env {
      SuitsNorm(env[name], args);
    }
  }

  // The function is called with values of its parameters' types, and there is room.
  ghost predicate Accepted(env: Env, k: nat, name: seq<Byte>, args: seq<Value>) {
    k > 0 && 0 !in name && AllWf(args) && Small(name, args) && name in env && Suits(env[name], args)
  }

  lemma AcceptedRun(env: Env, k: nat, name: seq<Byte>, args: seq<Value>)
    requires Accepted(env, k, name, args)
    ensures RemoteCall(env, k, name, args)
            == Ending(k - 1, args, Run(env[name], NormAll(args), [], Remotely(env, k - 1)))
  {
    CallSize(name, args);
    SuitsNorm(env[name], args);
    RemoteEnding(env, k, name, args);
  }

  // A function that returns: its caller gets the result and the pointees that the body
  // finished with, if there is a packet for the reply and it is large enough.
  lemma CallReturns(env: Env, k: nat, name: seq<Byte>, args: seq<Value>, hist: seq<Outcome>,
                    result: Value, after: seq<Value>)
    requires Accepted(env, k, name, args) && Made(env[name], NormAll(args), hist, Remotely(env, k - 1))
    requires env[name].body(NormAll(args), hist) == Finish(result, after)
    requires Returnable(env[name], result) && Repointed(NormAll(args), after)
    ensures var o, fits := RemoteCall(env, k, name, args), 1 + Cost(result) + OutSize(args) <= 896;
            if k == 1 then o == Threw(OutOfPackets, args)
            else if !fits then o == Threw(PacketFull, args)
            else
              && o.Returned? && o.result == Norm(result) && |o.after| == |args|
              && forall i | 0 <= i < |args| :: o.after[i] == if args[i].Ptr? then after[i] else args[i]
  {
    AcceptedRun(env, k, name, args);
    BodyFinishes(env[name], NormAll(args), hist, Remotely(env, k - 1), result, after);
    ReplySize(result, args, after);
    forall i | 0 <= i < |args| ensures Merge(args, after)[i] == if args[i].Ptr? then after[i] else args[i] {
      MergeAt(args, after, i);
    }
  }

  // A function that throws: its caller gets the exception.
  lemma CallThrows(env: Env, k: nat, name: seq<Byte>, args: seq<Value>, hist: seq<Outcome>,
                   e: Error, after: seq<Value>)
    requires Accepted(env, k, name, args) && Made(env[name], NormAll(args), hist, Remotely(env, k - 1))
    requires env[name].body(NormAll(args), hist) == Throw(e, after) && Repointed(NormAll(args), after)
    ensures RemoteCall(env, k, name, args) == Threw(e, args)
  {
    AcceptedRun(env, k, name, args);
    BodyThrows(env[name], NormAll(args), hist, Remotely(env, k - 1), e, after);
  }

  lemma ReplySize(result: Value, args: seq<Value>, after: seq<Value>)
    requires Wf(result) && AllWf(args) && Repointed(NormAll(args), after)
    ensures CellsFit(after) && |ReplyBytes(result, after)| == 1 + Cost(result) + OutSize(args)
  {
    EncodedCost(result);
    RepointedMatches(args, after);
    OutSizeEncoded(args, after);
  }

  lemma EncodedCost(v: Value)
    requires Wf(v)
    ensures |Encode(v)| == Cost(v)
  {
  }

  lemma RepointedMatches(args: seq<Value>, after: seq<Value>)
    requires AllWf(args) && Repointed(NormAll(args), after)
    ensures Matches(args, after) && CellsFit(after)
  {
  }

  lemma {:induction false} MergeAt(args: seq<Value>, after: seq<Value>, i: nat)
    requires i < |args| == |after|
    ensures Merge(args, after)[i] == if args[i].Ptr? && after[i].Ptr? then after[i] else args[i]
    decreases |args|
  {
    if i > 0 {
      MergeAt(args[1..], after[1..], i - 1);
    }
  }
}
