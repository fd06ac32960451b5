// The loopback endpoint: calls travel through packets from a pool, are executed on the
// bytes of the call packet, and are answered in another packet.
module RemoteEndpoints {
  import opened Bytes
  import opened Results
  import opened Codec
  import opened Packets
  import opened Pointers
  import opened Rpc
  import opened Nesting
  import opened Formatter
  import opened DynamicCalls
  import opened BinaryWriters
  import opened BinaryReaders

  const PACKET_POOL_SIZE := 16

  class RemoteEndpoint {
    const local: Env           // the functions bound at the local endpoint
    const pool: RecyclingPool
    var received: Packet?      // the reply, between its arrival and its use

    ghost predicate Sane()
      reads this, pool, pool.objects
    {
      pool.Valid() && this !in pool.objects
    }

    ghost predicate Ready()
      reads this, pool, pool.objects
    {
      Sane() && received == null
    }

    // A packet in use: it belongs to this pool and shares nothing with a free packet.
    ghost predicate InUse(p: Packet)
      reads this, pool, p, p.header, p.payload
    {
      p.Contiguous() && p.pool == pool && pool.Apart(p)
    }

    // The pool holds the packets it held before, in the same order.
    twostate predicate PoolKept()
      reads pool
    {
      pool.free == old(pool.free) && pool.objects == old(pool.objects)
    }

    // Whether a packet was asked for in vain, on top of what was before.
    twostate predicate Denied(x: bool)
      reads pool
    {
      pool.exhausted == (old(pool.exhausted) || x)
    }

    constructor (local: Env)
      ensures this.local == local && Ready() && |pool.free| == 16 && !pool.exhausted
      ensures fresh(pool) && fresh(pool.objects)
    {
      this.local := local;
      pool := new RecyclingPool();
      received := null;
      new;
      AllocPackets();
    }

    method AllocPackets()
      requires Sane() && pool.free == [] && pool.objects == {}
      modifies pool
      ensures Sane() && |pool.free| == PACKET_POOL_SIZE && fresh(pool.objects) && Denied(false)
    {
      var i := 0;
      while i < PACKET_POOL_SIZE
        invariant i <= PACKET_POOL_SIZE && |pool.free| == i
        invariant Sane() && fresh(pool.objects) && Denied(false)
      {
        var p := new Packet();
        pool.Add(p);
        i := i + 1;
      }
    }

    method TakePacket() returns (p: Packet?)
      requires Sane()
      modifies pool, pool.objects
      ensures Sane() && (p == null <==> old(pool.free) == []) && Denied(p == null)
      ensures p == null ==> PoolKept()
      ensures p != null ==> InUse(p) && p.Fresh() && Without(p)
    {
      p := pool.Take();
    }

    // The packet at the front has left the pool.
    twostate predicate Without(new p: Packet)
      reads pool
    {
      && old(pool.free) == [p] + pool.free
      && p.Repr() <= old(pool.objects) && pool.objects == old(pool.objects) - p.Repr()
    }

    method Release(p: Packet)
      requires Sane() && InUse(p)
      modifies p, p.header, p.payload, pool
      ensures Sane() && pool.free == [p] + old(pool.free) && pool.objects == old(pool.objects) + p.Repr()
      ensures Denied(false)
    {
      var ok := p.Recycle();
    }

    // Calls a bound function. The end is that of the direct call: the same result, in each
    // caller pointer what the function left there, or the same exception. Whatever happens,
    // the packets are in the pool again, in the same order.
    method Call(name: seq<Byte>, args: seq<CallerArg>) returns (r: Result<Value, Error>)
      requires Ready() && 0 !in name && AllSound(args) && Separate(args) && Cells(args) !! pool.objects
      modifies this`received, pool, pool.objects, Cells(args)
      ensures Ready() && PoolKept()
      ensures Ended(Direct(local, |old(pool.free)|, name, old(CurrentAll(args))), args, r)
      ensures Denied(Starves(local, |old(pool.free)|, name, old(CurrentAll(args))))
      decreases |pool.free|, 0, 1
    {
      ghost var k, before := |pool.free|, CurrentAll(args);
      ghost var end;
      r, end := Transact(name, args);
      DirectEnd(local, k, name, before);
    }

    method Transact(name: seq<Byte>, args: seq<CallerArg>) returns (r: Result<Value, Error>, ghost end: Outcome)
      requires Ready() && 0 !in name && AllSound(args) && Separate(args) && Cells(args) !! pool.objects
      modifies this`received, pool, pool.objects, Cells(args)
      ensures Ready() && PoolKept() && Ended(end, args, r)
      ensures |old(pool.free)| == 0 ==> end == Threw(OutOfPackets, old(CurrentAll(args)))
      ensures |old(pool.free)| > 0 ==> end == OnTheWire(local, |old(pool.free)| - 1, name, old(CurrentAll(args)))
      ensures Denied(Starves(local, |old(pool.free)|, name, old(CurrentAll(args))))
      decreases |pool.free|, 0, 0
    {
      ghost var k := |pool.free|;
      var packet := TakePacketFor(args);
      assert packet != null ==> |pool.free| == k - 1;
      if packet == null {
        r, end := Err(OutOfPackets), Threw(OutOfPackets, CurrentAll(args));
      } else {
        r, end := CallThrough(packet, name, args);
      }
    }

    // The call in packet p, which then returns to the pool.
    method CallThrough(p: Packet, name: seq<Byte>, args: seq<CallerArg>)
      returns (r: Result<Value, Error>, ghost end: Outcome)
      requires Ready() && 0 !in name && AllSound(args) && Separate(args)
      requires InUse(p) && p.Fresh() && Cells(args) !! pool.objects + p.Repr()
      modifies this`received, pool, pool.objects, p, p.header, p.payload, p.memory, Cells(args)
      ensures Ready() && pool.free == [p] + old(pool.free) && pool.objects == old(pool.objects) + p.Repr()
      ensures Ended(end, args, r) && end == OnTheWire(local, |old(pool.free)|, name, old(CurrentAll(args)))
      ensures Denied(Starves(local, |old(pool.free)| + 1, name, old(CurrentAll(args))))
      decreases |pool.free|, 10
    {
      r, end := CallWith(p, name, args);
      ReleaseAfter(p, args);
    }

    // Taking and releasing packets leaves the caller's memory alone.
    method TakePacketFor(ghost args: seq<CallerArg>) returns (p: Packet?)
      requires Sane() && AllSound(args) && Cells(args) !! pool.objects
      modifies pool, pool.objects
      ensures Sane() && CurrentAll(args) == old(CurrentAll(args)) && (p == null <==> old(pool.free) == [])
      ensures Denied(p == null)
      ensures p == null ==> PoolKept()
      ensures p != null ==> InUse(p) && p.Fresh() && Without(p)
    {
      p := TakePacket();
    }

    method ReleaseAfter(p: Packet, ghost args: seq<CallerArg>)
      requires Sane() && InUse(p) && AllSound(args) && Cells(args) !! p.Repr()
      modifies p, p.header, p.payload, pool
      ensures Sane() && CurrentAll(args) == old(CurrentAll(args)) && Denied(false)
      ensures pool.free == [p] + old(pool.free) && pool.objects == old(pool.objects) + p.Repr()
    {
      Release(p);
    }

    // The call came to this end.
    ghost predicate Ended(o: Outcome, args: seq<CallerArg>, r: Result<Value, Error>)
      requires AllSound(args)
      reads Cells(args)
    {
      && CurrentAll(args) == o.after
      && r == match o { case Returned(v, _) => Ok(v) case Threw(e, _) => Err(e) }
    }

    method CallWith(p: Packet, name: seq<Byte>, args: seq<CallerArg>)
      returns (r: Result<Value, Error>, ghost end: Outcome)
      requires Ready() && 0 !in name && AllSound(args) && Separate(args)
      requires InUse(p) && p.Fresh() && Cells(args) !! pool.objects + p.Repr()
      modifies this`received, pool, pool.objects, p.payload, p.memory, Cells(args)
      ensures Ready() && InUse(p) && PoolKept() && Ended(end, args, r)
      ensures end == OnTheWire(local, |old(pool.free)|, name, old(CurrentAll(args)))
      ensures Denied(Starves(local, |old(pool.free)| + 1, name, old(CurrentAll(args))))
      decreases |pool.free|, 9
    {
      ghost var k, before := |pool.free|, CurrentAll(args);
      ghost var a;
      r, a := Exchanged(p, name, args);
      end := EndOf(before, a);
      EndOnTheWire(local, k, name, before, a);
      StarvesOnTheWire(local, k, name, before);
    }

    // The packet is written, if the call fits, and answered.
    method Exchanged(p: Packet, name: seq<Byte>, args: seq<CallerArg>)
      returns (r: Result<Value, Error>, ghost a: Result<seq<Byte>, Error>)
      requires Ready() && 0 !in name && AllSound(args) && Separate(args)
      requires InUse(p) && p.Fresh() && Cells(args) !! pool.objects + p.Repr()
      modifies this`received, pool, pool.objects, p.payload, p.memory, Cells(args)
      ensures Ready() && InUse(p) && PoolKept()
      ensures if |CallBytes(name, old(CurrentAll(args)))| > MAX_PAYLOAD_SIZE then a == Err(PacketFull)
              else a == Serve(local, |old(pool.free)|, CallBytes(name, old(CurrentAll(args))))
      ensures Settled(a, old(CurrentAll(args)), args, r)
      ensures var b := CallBytes(name, old(CurrentAll(args)));
              Denied(|b| <= MAX_PAYLOAD_SIZE && ServeStarves(local, |old(pool.free)|, b))
      decreases |pool.free|, 8, 1
    {
      ghost var k, before := |pool.free|, CurrentAll(args);
      var ok := WriteOut(p, name, args);
      if ok {
        CallIsLogged(name, before);
        r, a := Exchange(p, args);
      } else {
        r, a := Err(PacketFull), Err(PacketFull);
      }
    }

    method WriteOut(p: Packet, name: seq<Byte>, args: seq<CallerArg>) returns (ok: bool)
      requires Ready() && InUse(p) && p.Fresh()
      requires 0 !in name && AllSound(args) && Cells(args) !! p.Repr()
      modifies p.payload, p.memory
      ensures Ready() && InUse(p)
      ensures ok <==> |CallBytes(name, old(CurrentAll(args)))| <= MAX_PAYLOAD_SIZE
      ensures ok ==> p.payload.Contents() == CallBytes(name, old(CurrentAll(args)))
      ensures CurrentAll(args) == old(CurrentAll(args))
    {
      assert p.payload.Contents() == [] && forall s: seq<Byte> :: [] + s == s;
      var writer := new BinaryWriter(p.payload);
      ok := writer.WriteCall(name, args);
    }

    // The call's end for a caller whose packet made the callee answer a.
    ghost predicate Settled(a: Result<seq<Byte>, Error>, before: seq<Value>, args: seq<CallerArg>,
                            r: Result<Value, Error>)
      requires AllSound(args)
      reads Cells(args)
    {
      match a
      case Err(e) => r == Err(e) && CurrentAll(args) == before
      case Ok(reply) => Read(Rpc.ReadResult(reply, before), args, r)
    }

    ghost predicate Read(o: Outcome, args: seq<CallerArg>, r: Result<Value, Error>)
      requires AllSound(args)
      reads Cells(args)
    {
      match o
      case Returned(v, after) => r == Ok(v) && CurrentAll(args) == after
      case Threw(e, _) => r == Err(e)
    }

    method Exchange(p: Packet, args: seq<CallerArg>)
      returns (r: Result<Value, Error>, ghost a: Result<seq<Byte>, Error>)
      requires Ready() && InUse(p) && AllSound(args) && Separate(args)
      requires Cells(args) !! pool.objects + p.Repr()
      requires p.payload.size > 0 && p.payload.Contents()[0] == CALL_PACKET && Logged(p.payload.Contents()) == None
      modifies this`received, pool, pool.objects, p.memory, Cells(args)
      ensures Ready() && InUse(p) && PoolKept()
      ensures a == Serve(local, |old(pool.free)|, old(p.payload.Contents()))
      ensures Settled(a, old(CurrentAll(args)), args, r)
      ensures Denied(ServeStarves(local, |old(pool.free)|, old(p.payload.Contents())))
      decreases |pool.free|, 8, 0
    {
      var e;
      e, a := SendCall(p, args);
      if e.Some? {
        r := Err(e.value);
      } else {
        r := TakeReply(p, args);
      }
    }

    // A call packet is answered; the caller's memory is not touched.
    method SendCall(p: Packet, ghost args: seq<CallerArg>) returns (e: Option<Error>, ghost a: Result<seq<Byte>, Error>)
      requires Ready() && InUse(p) && AllSound(args) && Cells(args) !! pool.objects + p.Repr()
      requires p.payload.size > 0 && p.payload.Contents()[0] == CALL_PACKET && Logged(p.payload.Contents()) == None
      modifies this`received, pool, pool.objects, p.memory
      ensures Sane() && InUse(p) && CurrentAll(args) == old(CurrentAll(args))
      ensures a == Serve(local, |old(pool.free)|, old(p.payload.Contents()))
      ensures e.Some? ==> a == Err(e.value) && received == null && PoolKept()
      ensures e.None? ==>
                && received != null && Without(received) && InUse(received)
                && a == Ok(received.payload.Contents())
      ensures Denied(ServeStarves(local, |old(pool.free)|, old(p.payload.Contents())))
      decreases |pool.free|, 7, 1
    {
      a := Serve(local, |pool.free|, p.payload.Contents());
      e := SendPacket(p);
    }

    method TakeReply(ghost p: Packet, args: seq<CallerArg>) returns (r: Result<Value, Error>)
      requires Sane() && InUse(p) && received != null && InUse(received) && AllSound(args) && Separate(args)
      requires received.Repr() !! p.Repr() && Cells(args) !! pool.objects + received.Repr()
      modifies this`received, pool, received, received.header, received.payload, Cells(args)
      ensures Ready() && pool.free == [old(received)] + old(pool.free)
      ensures pool.objects == old(pool.objects) + old(received).Repr() && Denied(false)
      ensures Read(Rpc.ReadResult(old(received.payload.Contents()), old(CurrentAll(args))), args, r)
    {
      var reply := received;
      received := null;
      r := ReadReply(reply, args);
      ReleaseAfter(reply, args);
    }

    method ReadReply(reply: Packet, args: seq<CallerArg>) returns (r: Result<Value, Error>)
      requires reply.Valid() && AllSound(args) && Separate(args) && reply.memory !in Cells(args)
      modifies Cells(args)
      ensures Read(Rpc.ReadResult(old(reply.payload.Contents()), old(CurrentAll(args))), args, r)
    {
      var reader := new BinaryReader(reply.payload);
      r := reader.ReadResult(args);
    }

    // The callee answered a: with a packet from the pool, or with an exception.
    twostate predicate Delivered(a: Result<seq<Byte>, Error>, new e: Option<Error>)
      reads this, pool
      reads if received == null then {} else {received, received.header, received.payload, received.memory}
    {
      match a
      case Err(error) => e == Some(error) && received == null && PoolKept()
      case Ok(reply) =>
        && e == None && received != null && Without(received)
        && InUse(received) && received.payload.Contents() == reply
    }

    // What comes of a packet that held b, once it has been logged.
    twostate predicate Handled(p: Packet, b: seq<Byte>, new e: Option<Error>)
      reads this, pool, p, p.header, p.payload, p.payload.mem
      reads if received == null then {} else {received, received.header, received.payload, received.memory}
    {
      && InUse(p)
      && Denied(b != [] && b[0] == CALL_PACKET && ServeStarves(local, |old(pool.free)|, b))
      && if b != [] && b[0] == CALL_PACKET then Delivered(Serve(local, |old(pool.free)|, b), e)
         else
           && PoolKept() && p.payload.Contents() == b
           && received == (if b != [] && b[0] == RESULT_PACKET then p else null)
           && e == if b == [] && p.header.size > 0 then Some(BadPacketAccess) else None
    }

    // A packet that cannot be logged is not sent.
    twostate predicate Sent(p: Packet, b: seq<Byte>, new e: Option<Error>)
      reads this, pool, p, p.header, p.payload, p.payload.mem
      reads if received == null then {} else {received, received.header, received.payload, received.memory}
    {
      if Logged(b) == None then Handled(p, b, e)
      else InUse(p) && e == Logged(b) && PoolKept() && Denied(false) && p.payload.Contents() == b && received == null
    }

    // The packet comes back at once.
    method SendPacket(p: Packet) returns (e: Option<Error>)
      requires Ready() && InUse(p)
      modifies this`received, pool, pool.objects, p.memory
      ensures Sane() && Sent(p, old(p.payload.Contents()), e)
      ensures Logged(old(p.payload.Contents())) != None ==>
                e == Logged(old(p.payload.Contents())) && received == null && PoolKept()
      decreases |pool.free|, 7, 0
    {
      e := Log(p);
      if e == None {
        e := ReceivePacket(p);
      }
    }

    method Log(p: Packet) returns (e: Option<Error>)
      requires p.Valid()
      ensures e == Logged(p.payload.Contents())
    {
      var reader := new BinaryReader(p.payload);
      e := reader.ToString();
    }

    method ReceivePacket(p: Packet) returns (e: Option<Error>)
      requires Ready() && InUse(p)
      modifies this`received, pool, pool.objects, p.memory
      ensures Sane() && Sent(p, old(p.payload.Contents()), e)
      decreases |pool.free|, 6
    {
      e := Log(p);
      if e == None {
        e := HandlePacket(p);
      }
    }

    method HandlePacket(p: Packet) returns (e: Option<Error>)
      requires Ready() && InUse(p)
      modifies this`received, pool, pool.objects, p.memory
      ensures Sane() && Handled(p, old(p.payload.Contents()), e)
      ensures old(p.Size()) == 0 ==> e == None && received == null
      ensures old(p.Size()) > 0 && old(p.payload.Contents()) == [] ==> e == Some(BadPacketAccess) && received == null
      ensures old(p.payload.Contents()) != [] && old(p.payload.Contents()[0]) == 0x3C ==> e == None && received == p
      ensures old(p.payload.Contents()) != [] && old(p.payload.Contents()[0]) !in {0x3C, 0x3E} ==>
                e == None && received == null && PoolKept() && p.payload.Contents() == old(p.payload.Contents())
      decreases |pool.free|, 5
    {
      e := None;
      if p.Size() != 0 {
        var reader := new BinaryReader(p.payload);
        var kind := reader.ReadByte();
        if kind.Err? {
          e := Some(kind.error);
        } else if kind.value == CALL_PACKET {
          e := HandleCall(p);
        } else if kind.value == RESULT_PACKET {
          received := p;
        }
      }
    }

    // The arguments lie in the packet.
    ghost predicate Placed(args: seq<Arg>, p: Packet)
      requires p.payload.Valid()
      reads p.payload, p.payload.mem
    {
      var b := p.payload.Contents();
      Layout(args, b, 0) && forall a | a in args :: InBuffer(a, b)
    }

    method HandleCall(p: Packet) returns (e: Option<Error>)
      requires Ready() && InUse(p)
      modifies this`received, pool, pool.objects, p.memory
      ensures Sane() && InUse(p)
      ensures Delivered(Serve(local, |old(pool.free)|, old(p.payload.Contents())), e)
      ensures Denied(ServeStarves(local, |old(pool.free)|, old(p.payload.Contents())))
      decreases |pool.free|, 4
    {
      ghost var b := p.payload.Contents();
      var c := DecodePacket(p);
      if c.Err? {
        e := Some(c.error);
      } else {
        DecodedCall(b);
        e := Execute(c.value, p);
      }
    }

    method DecodePacket(p: Packet) returns (c: Result<Codec.Call, Error>)
      requires p.Valid()
      ensures c == DecodeCall(p.payload.Contents())
    {
      var reader := new BinaryReader(p.payload);
      c := reader.ReadCall();
    }

    method Execute(c: Codec.Call, p: Packet) returns (e: Option<Error>)
      requires Ready() && InUse(p) && Placed(c.args, p)
      requires DecodeCall(p.payload.Contents()) == Ok(c)
      modifies this`received, pool, pool.objects, p.memory
      ensures Sane() && InUse(p)
      ensures Delivered(Serve(local, |old(pool.free)|, old(p.payload.Contents())), e)
      ensures Denied(ServeStarves(local, |old(pool.free)|, old(p.payload.Contents())))
      decreases |pool.free|, 3
    {
      ghost var k, b := |pool.free|, p.payload.Contents();
      ghost var end := Rpc.Invoke(local, c.name, DerefAll(b, c.args), Remotely(local, k));
      var r := Invoke(c.name, c.args, p);
      if r.Err? {
        e := Some(r.error);
      } else {
        e := Respond(p, c.args, r.value, b, end.value);
      }
    }

    // Sends the reply of a function that has run on the arguments in packet p.
    method Respond(p: Packet, args: seq<Arg>, result: Value, ghost b: seq<Byte>, ghost d: Done)
      returns (e: Option<Error>)
      requires Ready() && InUse(p)
      requires Layout(args, b, 0) && (forall a | a in args :: InBuffer(a, b))
      requires Wf(d.result) && SameShape(DerefAll(b, args), d.after)
      requires result == d.result && p.payload.Contents() == Written(b, args, d)
      modifies this`received, pool, pool.objects
      ensures Sane() && InUse(p)
      ensures Delivered(Reply(|old(pool.free)|, b, args, d), e) && Denied(|old(pool.free)| == 0)
      decreases |pool.free|, 2
    {
      var reply := TakePacket();
      if reply == null {
        e := Some(OutOfPackets);
      } else {
        e := SendReply(reply, p, args, result, AnswerBytes(b, args, d));
        if e.Some? {
          Release(reply);
        }
      }
    }

    method SendReply(reply: Packet, p: Packet, args: seq<Arg>, result: Value, ghost bytes: seq<Byte>)
      returns (e: Option<Error>)
      requires Ready() && InUse(reply) && reply.Fresh() && InUse(p) && p.Repr() !! reply.Repr()
      requires Wf(result) && forall a | a in args :: InBuffer(a, p.payload.Contents()) && (a.Imm? ==> !a.v.Ptr?)
      requires CellsFit(DerefAll(p.payload.Contents(), args))
      requires bytes == ReplyBytes(result, DerefAll(p.payload.Contents(), args))
      modifies this`received, pool, pool.objects, reply.payload, reply.memory
      ensures Sane() && InUse(p) && InUse(reply) && PoolKept() && Denied(false)
      ensures if |bytes| <= MAX_PAYLOAD_SIZE
              then e == None && received == reply && reply.payload.Contents() == bytes
              else e == Some(PacketFull) && received == null
      decreases |pool.free|, 8
    {
      ReplyIsLogged(result, DerefAll(p.payload.Contents(), args));
      var ok := WriteReply(reply, result, p, args);
      if ok {
        e := SendPacket(reply);
      } else {
        e := Some(PacketFull);
      }
    }

    method WriteReply(reply: Packet, result: Value, p: Packet, args: seq<Arg>) returns (ok: bool)
      requires Ready() && InUse(reply) && reply.Fresh() && InUse(p) && p.Repr() !! reply.Repr()
      requires Wf(result) && forall a | a in args :: InBuffer(a, p.payload.Contents()) && (a.Imm? ==> !a.v.Ptr?)
      requires CellsFit(DerefAll(p.payload.Contents(), args))
      modifies reply.payload, reply.memory
      ensures Ready() && InUse(reply) && InUse(p)
      ensures var r := ReplyBytes(result, DerefAll(old(p.payload.Contents()), args));
              (ok <==> |r| <= MAX_PAYLOAD_SIZE) && (ok ==> reply.payload.Contents() == r)
    {
      assert reply.payload.Contents() == [] && forall s: seq<Byte> :: [] + s == s;
      var writer := new BinaryWriter(reply.payload);
      ok := writer.WriteResult(result, p.payload, args);
    }

    // The function came to this end, and left its pointees in packet p that held b.
    ghost predicate Executed(o: Result<Done, Error>, b: seq<Byte>, args: seq<Arg>, p: Packet, r: Result<Value, Error>)
      requires Layout(args, b, 0) && (forall a | a in args :: InBuffer(a, b))
      requires o.Ok? ==> SameShape(DerefAll(b, args), o.value.after)
      requires p.payload.Valid()
      reads p.payload, p.payload.mem
    {
      match o
      case Err(e) => r == Err(e)
      case Ok(d) => r == Ok(d.result) && p.payload.Contents() == Written(b, args, d)
    }

    method Invoke(name: seq<Byte>, args: seq<Arg>, p: Packet) returns (r: Result<Value, Error>)
      requires Ready() && InUse(p) && Placed(args, p)
      modifies this`received, pool, pool.objects, p.memory
      ensures Ready() && InUse(p) && PoolKept()
      ensures var b := old(p.payload.Contents());
              Executed(Rpc.Invoke(local, name, DerefAll(b, args), Remotely(local, |old(pool.free)|)), b, args, p, r)
      ensures Denied(InvokeStarves(local, |old(pool.free)|, name, DerefAll(old(p.payload.Contents()), args)))
      decreases |pool.free|, 2
    {
      if name !in local {
        r := Err(NotFound);
      } else {
        var mismatch := DynamicCalls.CheckArgs(local[name], args, p.payload.Contents());
        if mismatch.Some? {
          r := Err(mismatch.value);
        } else {
          r := DynamicCall(local[name], args, p);
        }
      }
    }

    // Runs the function on what the arguments are, and lets it write through its pointers.
    method DynamicCall(f: Function, args: seq<Arg>, p: Packet) returns (r: Result<Value, Error>)
      requires Ready() && InUse(p) && Placed(args, p)
      modifies this`received, pool, pool.objects, p.memory
      ensures Ready() && InUse(p) && PoolKept()
      ensures var b := old(p.payload.Contents());
              Executed(Run(f, DerefAll(b, args), [], Remotely(local, |old(pool.free)|)), b, args, p, r)
      ensures Denied(BodyStarves(f, DerefAll(old(p.payload.Contents()), args), local, |old(pool.free)|))
      decreases |pool.free|, 1, 2
    {
      ghost var b := p.payload.Contents();
      var vals := FetchArgs(args, p.payload);
      var after;
      r, after := RunBody(f, vals);
      assert p.payload.Contents() == b;
      PointeesFit(b, args);
      DerefShape(b, args, after);
      StorePointees(args, after, p.payload);
    }

    // The body of a function, which may make calls itself, and what it leaves in its
    // arguments, whether it returns or throws.
    method RunBody(f: Function, vals: seq<Value>) returns (r: Result<Value, Error>, after: seq<Value>)
      requires Ready()
      modifies this`received, pool, pool.objects
      ensures Ready() && PoolKept()
      ensures var o := Run(f, vals, [], Remotely(local, |old(pool.free)|));
              r == match o { case Ok(d) => Ok(d.result) case Err(e) => Err(e) }
      ensures after == Left(f, vals, [], Remotely(local, |old(pool.free)|))
      ensures Denied(BodyStarves(f, vals, local, |old(pool.free)|))
      decreases |pool.free|, 1, 1
    {
      ghost var calls, starves := Remotely(local, |pool.free|), StarvesAt(local, |pool.free|);
      var hist := [];
      var action := Act(f, vals, hist);
      while action.Nested?
        invariant Ready() && PoolKept() && |hist| <= f.maxCalls && action == Act(f, vals, hist)
        invariant Run(f, vals, hist, calls) == Run(f, vals, [], calls)
        invariant Left(f, vals, hist, calls) == Left(f, vals, [], calls)
        invariant (pool.exhausted || RunStarves(f, vals, hist, calls, starves))
                  == (old(pool.exhausted) || RunStarves(f, vals, [], calls, starves))
        decreases f.maxCalls - |hist|
      {
        var o := NestedCall(action.name, action.args);
        hist := hist + [o];
        action := Act(f, vals, hist);
      }
      r := match action case Finish(v, _) => Ok(v) case Throw(e, _) => Err(e);
      after := action.after;
    }

    // A call made by a function; its pointers are to local variables.
    method NestedCall(name: seq<Byte>, vals: seq<Value>) returns (o: Outcome)
      requires Ready() && 0 !in name && AllWf(vals)
      modifies this`received, pool, pool.objects
      ensures Ready() && PoolKept()
      ensures o == RemoteCall(local, |old(pool.free)|, name, vals)
      ensures Denied(Starves(local, |old(pool.free)|, name, vals))
      decreases |pool.free|, 1, 0
    {
      LoopbackIsDirect(local, |pool.free|, name, vals);
      var args := Locals(vals);
      var r := Call(name, args);
      var after := Values(args);
      o := match r case Err(e) => Threw(e, after) case Ok(v) => Returned(v, after);
    }
  }

  // On a new endpoint, a function that calls itself n times returns with n up to 14, so that
  // 15 calls are in progress at once, and fails beyond.
  method ChainOnNewEndpoint(n: Byte) returns (r: Result<Value, Error>)
    ensures r == if n <= 14 then Ok(Void) else Err(OutOfPackets)
  {
    var endpoint := new RemoteEndpoint(ChainEnv);
    var args := [ByValue(Num(U8, [n]))];
    assert Cells(args) == {};
    ChainDepth(16, n);
    assert CurrentAll(args) == [Num(U8, [n])];
    r := endpoint.Call(CHAIN, args);
  }

  lemma PointeesFit(b: seq<Byte>, args: seq<Arg>)
    requires Layout(args, b, 0) && forall a | a in args :: InBuffer(a, b)
    ensures SameShape(DerefAll(b, args), DerefAll(b, args))
  {
    forall i | 0 <= i < |args| && DerefAll(b, args)[i].Ptr?
      ensures |DerefAll(b, args)[i].cell| == DerefAll(b, args)[i].t.Size()
    {
      DerefAllAt(b, args, i);
    }
  }

  // Local variables with the given values, and what is in them later.
  method Locals(vals: seq<Value>) returns (args: seq<CallerArg>)
    requires AllWf(vals)
    ensures AllSound(args) && Separate(args) && fresh(Cells(args)) && CurrentAll(args) == vals
  {
    args := [];
    for i := 0 to |vals|
      invariant |args| == i && AllSound(args) && Separate(args) && fresh(Cells(args))
      invariant forall j | 0 <= j < i :: args[j].Current() == vals[j]
    {
      var arg := Local(vals[i]);
      assert Cells(args + [arg]) == Cells(args) + if arg.ByPointer? then {arg.cell} else {};
      args := args + [arg];
    }
  }

  method Local(v: Value) returns (arg: CallerArg)
    requires Wf(v)
    ensures arg.Sound() && (arg.ByPointer? ==> fresh(arg.cell)) && arg.Current() == v
  {
    if v.Ptr? {
      var cell := new Byte[|v.cell|](i requires 0 <= i < |v.cell| => v.cell[i]);
      assert cell[..] == v.cell;
      arg := ByPointer(v.t, cell);
    } else {
      arg := ByValue(v);
    }
  }

  method Values(args: seq<CallerArg>) returns (vals: seq<Value>)
    requires AllSound(args)
    ensures vals == CurrentAll(args)
  {
    vals := [];
    for i := 0 to |args|
      invariant |vals| == i && forall j | 0 <= j < i :: vals[j] == args[j].Current()
    {
      vals := vals + [args[i].Current()];
    }
  }
}
