// A TCP channel: framing and partial sends on one side, reassembly on the other.
module TcpChannels {
  import opened Bytes
  import opened Framing
  import opened Packets
  import opened Seqs
  import opened Sockets

  datatype State = Opening | Open | Closing | Closed | ClosedByPeer

  // What one call of the receiver came to. The last three stand for exceptions: a failed
  // read, no packet to read into, and no packet for the bytes behind a complete frame.
  datatype ChunkOutcome = Incomplete | Delivered | Shutdown | SocketError | NoPacket | FrameLost

  // What a call of the receiver may change.
  datatype RxView = RxView(data: RxState, state: State)

  function ClosedState(s: State): State {
    if s == Closing then Closed else ClosedByPeer
  }

  // The call read something, or nothing was there to read.
  predicate HasRead(out: ChunkOutcome) {
    out == Incomplete || out == Delivered || out == FrameLost
  }

  // The effect of a call that read `r.chunk`; `ended` says that the peer had shut down and
  // all it sent was read.
  ghost predicate ChunkStep(v: RxView, out: ChunkOutcome, r: Read, ended: bool, w: RxView) {
    if HasRead(out) then
      && w == v.(data := RxStep(v.data, r))
      && (out == FrameLost <==> Loses(v.data, r))
      && (out == Incomplete <==> FrontSize(v.data.rx + r.chunk) == 0)
    else if out == Shutdown then
      // also taken when the receive buffer was full
      && (ended || |v.data.rx| == MAX_PACKET_SIZE) && r.chunk == []
      && w == RxView(v.data.(rx := []), ClosedState(v.state))
    else
      r.chunk == [] && w == v
  }

  // What that means for the channel: a frame at the front is delivered, and what follows it
  // is kept; without one, the bytes read are kept; a shutdown closes the channel, by the
  // peer unless it was being closed anyway.
  lemma StepMeans(v: RxView, out: ChunkOutcome, r: Read, ended: bool, w: RxView)
    requires ChunkStep(v, out, r, ended, w)
    ensures w.data.delivered == v.data.delivered ||
            (out == Delivered && w.data.delivered == v.data.delivered + [Last(w.data.delivered)]
             && |Last(w.data.delivered)| < TWO_TO_THE_32
             && v.data.rx + r.chunk == Frame(Last(w.data.delivered)) + w.data.rx)
    ensures out == Delivered ==> w.data.delivered != v.data.delivered
    ensures out == Incomplete ==> w.data.rx == v.data.rx + r.chunk
    ensures out == FrameLost || out == Shutdown ==> w.data.rx == []
    ensures out == SocketError || out == NoPacket ==> w == v && r.chunk == []
    ensures out != Shutdown ==> w.state == v.state
    ensures out == Shutdown ==> w.state == if v.state == Closing then Closed else ClosedByPeer
  {
    if out == Delivered {
      FrontFrame(v.data.rx + r.chunk);
    }
  }

  class TcpChannel {
    const socket: Socket
    var state: State
    var rx: Packet?

    // What the channel has done so far.
    ghost var calls: seq<Read>
    ghost var delivered: seq<Payload>
    ghost var sends: seq<Attempt>

    ghost var Repr: set<object>

    ghost predicate RxReady()
      reads this`rx, this`Repr, Repr, rx
    {
      && this !in Repr && socket !in Repr
      && (rx != null ==>
        && rx.memory in Repr && rx.header in Repr && rx.payload in Repr
        && rx.Contiguous()
        && rx.header.data == 0 && rx.header.size == 0
        && rx.payload.data == 0 && rx.payload.capacity == MAX_PACKET_SIZE)
    }

    ghost function Rx(): (s: seq<Byte>)
      requires RxReady()
      reads this`rx, this`Repr, Repr, rx
    {
      if rx == null then [] else rx.payload.Contents()
    }

    ghost function View(): RxView
      requires RxReady()
      reads this, Repr, rx
    {
      RxView(RxState(delivered, Rx()), state)
    }

    // Delivered payloads and receive buffer are those of the calls made. A closed channel
    // has discarded its buffer.
    ghost predicate RxValid()
      reads this, Repr, rx
    {
      && RxReady() && Fits(calls) && delivered == RxRun(calls).delivered
      && Rx() == if IsClosed() then [] else RxRun(calls).rx
    }

    // The socket has taken the frames sent, or what was taken of those that broke off.
    ghost predicate TxValid()
      reads this`sends, socket`outgoing
    {
      AllPossible(sends) && socket.outgoing == Pushed(sends)
    }

    predicate IsClosed()
      reads this
    {
      state == Closed || state == ClosedByPeer
    }

    constructor (socket: Socket)
      requires socket.outgoing == []
      ensures RxValid() && TxValid() && fresh(Repr)
      ensures this.socket == socket && state == Open
      ensures calls == [] && delivered == [] && sends == []
    {
      this.socket := socket;
      state, rx, Repr := Open, null, {};
      calls, delivered, sends := [], [], [];
    }

    // Ensures there is a packet to receive into, if the pool has one.
    method PrepareRxPacket(available: bool) returns (ok: bool)
      requires RxReady()
      modifies this`rx, this`Repr
      ensures RxReady() && Rx() == old(Rx())
      ensures ok <==> old(rx) != null || available
      ensures ok ==> rx != null && (old(rx) == null ==> fresh(rx) && fresh(rx.Repr()))
      ensures !ok || old(rx) != null ==> rx == old(rx)
      ensures fresh(Repr - old(Repr)) && old(Repr) <= Repr
    {
      ok := rx != null || available;
      if ok && rx == null {
        rx := new Packet();
        rx.SetHeaderCapacity(0);
        Repr := Repr + rx.Repr();
      }
    }

    static method DeterminePacketSize(p: Packet) returns (n: nat)
      requires p.Contiguous()
      ensures n == FrontSize(p.Contents())
    {
      if p.Size() >= HEADER_SIZE {
        var d := p.Data();
        var announced := FromLE32(p.memory[d..d + HEADER_SIZE]);
        assert p.memory[d..d + HEADER_SIZE] == p.Contents()[..HEADER_SIZE];
        if announced + HEADER_SIZE <= p.Size() {
          return announced + HEADER_SIZE;
        }
      }
      return 0;
    }

    // Reads into the room left behind the bytes received so far.
    method FillRxPacket() returns (r: IOResult, ghost chunk: seq<Byte>)
      requires RxReady() && rx != null
      modifies socket`incoming, rx.memory, rx.payload
      ensures RxReady() && Rx() == old(Rx()) + chunk
      ensures old(socket.incoming) == chunk + socket.incoming
      ensures r == PeerShutdown ==>
                (old(socket.incoming) == [] && socket.peerClosed) || |old(Rx())| == MAX_PACKET_SIZE
      ensures r == PeerShutdown || r == Failed ==> chunk == []
    {
      var data := rx.Data() + rx.Size();
      var room := MAX_PACKET_SIZE - rx.Size();
      ghost var before := rx.memory[..data];
      var n;
      r, n := socket.Recv(rx.memory, data, room);
      chunk := old(socket.incoming)[..n];
      if r == Success || r == WouldBlock {
        var grown, at := rx.payload.GrowRight(n);
      }
      assert rx.memory[..data + n] == before + chunk;
    }

    // Called when the socket has something to read. The pool's answers to the demands for
    // a packet are given: `first` if there is none to read into, `spare` if bytes stand
    // behind a complete frame.
    method ReceiveChunk(first: bool, spare: bool) returns (out: ChunkOutcome, ghost r: Read)
      requires RxValid() && !IsClosed()
      modifies this`rx, this`state, this`delivered, this`calls, this`Repr, socket`incoming, Repr
      ensures RxValid() && fresh(Repr - old(Repr))
      ensures r.spare == spare && old(socket.incoming) == r.chunk + socket.incoming
      ensures ChunkStep(old(View()), out, r, old(socket.incoming) == [] && socket.peerClosed, View())
      ensures out == NoPacket <==> old(rx) == null && !first
      ensures calls == if HasRead(out) then old(calls) + [r] else old(calls)
      ensures out == Shutdown ==> IsClosed() && (state == Closed <==> old(state) == Closing)
    {
      ghost var s := RxState(delivered, Rx());
      out, r := Reassemble(first, spare);
      if HasRead(out) {
        ExtendRun(s, calls, r);
        calls := calls + [r];
      }
    }

    // The call itself, without the record of earlier calls.
    method Reassemble(first: bool, spare: bool) returns (out: ChunkOutcome, ghost r: Read)
      requires RxReady() && !IsClosed()
      modifies this`rx, this`state, this`delivered, this`Repr, socket`incoming, Repr
      ensures RxReady() && fresh(Repr - old(Repr))
      ensures r.spare == spare && old(socket.incoming) == r.chunk + socket.incoming
      ensures |old(Rx())| + |r.chunk| <= MAX_PACKET_SIZE
      ensures ChunkStep(old(View()), out, r, old(socket.incoming) == [] && socket.peerClosed, View())
      ensures out == NoPacket <==> old(rx) == null && !first
    {
      var ok := PrepareRxPacket(first);
      if ok {
        out, r := ReceiveInto(spare);
      } else {
        out, r := NoPacket, Read([], spare);
      }
    }

    // Reads into the current packet and delivers the front frame if it is complete.
    method ReceiveInto(spare: bool) returns (out: ChunkOutcome, ghost r: Read)
      requires RxReady() && rx != null
      modifies this`rx, this`state, this`delivered, this`Repr, socket`incoming, rx.memory, rx.payload
      ensures RxReady() && fresh(Repr - old(Repr)) && out != NoPacket
      ensures r.spare == spare && old(socket.incoming) == r.chunk + socket.incoming
      ensures |old(Rx())| + |r.chunk| <= MAX_PACKET_SIZE
      ensures ChunkStep(old(View()), out, r, old(socket.incoming) == [] && socket.peerClosed, View())
    {
      var result;
      ghost var chunk;
      result, chunk := FillRxPacket();
      r := Read(chunk, spare);
      if result == Failed {
        out := SocketError;
      } else if result == PeerShutdown {
        if rx.Size() > 0 {
          rx := null;
        }
        ClosedByOther();
        out := Shutdown;
      } else {
        out := CutIfComplete(spare);
      }
    }

    method CutIfComplete(spare: bool) returns (out: ChunkOutcome)
      requires RxReady() && rx != null
      modifies this`rx, this`delivered, this`Repr, rx.payload
      ensures RxReady() && fresh(Repr - old(Repr)) && HasRead(out)
      ensures RxState(delivered, Rx()) == Cut(RxState(old(delivered), old(Rx())), spare)
      ensures out == Incomplete <==> FrontSize(old(Rx())) == 0
      ensures out == FrameLost <==> 0 < FrontSize(old(Rx())) < |old(Rx())| && !spare
    {
      var actual := DeterminePacketSize(rx);
      if actual == 0 {
        out := Incomplete;
      } else {
        var ok := CutFront(actual, spare);
        out := if ok then Delivered else FrameLost;
      }
    }

    // Moves the bytes behind the front frame into a fresh packet and hands the frame on.
    // Without a packet for them, neither the frame nor these bytes are kept.
    method CutFront(actual: nat, spare: bool) returns (ok: bool)
      requires RxReady() && rx != null
      requires actual == FrontSize(Rx()) != 0
      modifies this`rx, this`delivered, this`Repr, rx.payload
      ensures RxReady() && fresh(Repr - old(Repr))
      ensures ok <==> actual == |old(Rx())| || spare
      ensures ok ==> Rx() == old(Rx())[actual..] && delivered == old(delivered) + [old(Rx())[HEADER_SIZE..actual]]
      ensures !ok ==> Rx() == [] && delivered == old(delivered)
    {
      var complete := rx;
      ghost var before := Rx();
      FrontFrame(before);
      rx := null;
      ok := KeepExcess(complete, actual, spare);
      if ok {
        HandOn(complete);
        assert before[..actual][HEADER_SIZE..] == before[HEADER_SIZE..actual];
      }
    }

    // The next packet is not the one that is handed on.
    method HandOn(complete: Packet)
      requires RxReady() && complete.Valid() && HEADER_SIZE <= complete.payload.size
      requires rx != null ==> rx.header != complete.payload && rx.payload != complete.payload
      modifies this`delivered, complete.payload
      ensures RxReady() && Rx() == old(Rx())
      ensures delivered == old(delivered) + [old(complete.payload.Contents())[HEADER_SIZE..]]
    {
      Receive(complete);
    }

    method KeepExcess(complete: Packet, actual: nat, spare: bool) returns (ok: bool)
      requires RxReady() && rx == null && actual <= complete.payload.size
      requires complete.Contiguous() && complete.header.size == 0
      requires complete.header.data == 0 && complete.payload.data == 0
      modifies this`rx, this`Repr, complete.payload
      ensures RxReady() && fresh(Repr - old(Repr)) && complete.Valid()
      ensures rx != null ==> fresh(rx) && fresh(rx.Repr())
      ensures ok <==> actual == old(complete.payload.size) || spare
      ensures ok ==> complete.payload.Contents() == old(complete.payload.Contents())[..actual]
      ensures Rx() == if ok then old(complete.payload.Contents())[actual..] else []
    {
      var excess := complete.Size() - actual;
      ok := true;
      if excess > 0 {
        ok := PrepareRxPacket(spare);
        if ok {
          CopyExcess(complete, actual, excess);
        }
      }
    }

    // Copies what follows the complete frame into the next packet and truncates the frame.
    method CopyExcess(complete: Packet, actual: nat, excess: nat)
      requires RxReady() && rx != null && rx.Repr() !! complete.Repr()
      requires complete.Contiguous() && complete.header.data == 0 && complete.payload.data == 0
      requires complete.payload.size == actual + excess
      modifies rx.memory, rx.payload, complete.payload
      ensures RxReady() && Rx() == old(complete.payload.Contents())[actual..]
      ensures complete.Valid() && complete.payload.Contents() == old(complete.payload.Contents())[..actual]
    {
      rx.payload.SetSize(excess);
      forall i | 0 <= i < excess {
        rx.memory[i] := complete.memory[actual + i];
      }
      complete.payload.SetSize(actual);
    }

    // Drops the framing header and passes the payload to the observer.
    method Receive(p: Packet)
      requires p.Valid() && HEADER_SIZE <= p.payload.size
      modifies this`delivered, p.payload
      ensures p.Valid()
      ensures p.payload.Contents() == old(p.payload.Contents())[HEADER_SIZE..]
      ensures delivered == old(delivered) + [p.payload.Contents()]
    {
      p.DropHeader(HEADER_SIZE);
      delivered := delivered + [p.payload.Contents()];
    }

    // The socket reported that the connection is gone.
    method ClosedByOther()
      modifies this`state
      ensures state == ClosedState(old(state))
    {
      EnterState(ClosedState(state));
    }

    method EnterState(s: State)
      modifies this`state
      ensures state == s
    {
      if s != state {
        state := s;
      }
    }

    // Writes the payload length in front of the payload; false if the header is full.
    static method PrepareToSend(p: Packet) returns (ok: bool)
      requires p.Contiguous()
      modifies p.header, p.memory
      ensures p.Contiguous()
      ensures ok <==> old(p.header.size) + HEADER_SIZE <= old(p.header.capacity)
      ensures ok ==> p.Contents() == LE32(p.payload.size) + old(p.Contents())
      ensures !ok ==> p.Contents() == old(p.Contents())
    {
      var at;
      ok, at := p.header.GrowLeft(HEADER_SIZE);
      if ok {
        var length := LE32(p.payload.size);
        forall i | 0 <= i < HEADER_SIZE {
          p.memory[at + i] := length[i];
        }
      }
    }

    // Pushes the packet out through as many partial sends as it takes; false stands for
    // an exception thrown by the socket after `moved` bytes.
    method DoSend(p: Packet) returns (ok: bool, ghost moved: nat)
      requires p.Contiguous()
      modifies socket
      ensures socket.incoming == old(socket.incoming)
      ensures moved <= |p.Contents()|
      ensures socket.outgoing == old(socket.outgoing) + p.Contents()[..moved]
      ensures ok <==> moved == |p.Contents()|
    {
      var data := p.Data();
      var size := p.Size();
      ghost var start, all := data, size;
      ok, moved := true, 0;
      while size > 0
        invariant data == start + moved && moved + size == all && ok
        invariant socket.outgoing == old(socket.outgoing) + p.memory[start..data]
        invariant socket.incoming == old(socket.incoming)
        decreases size, socket.patience
      {
        var r, n := socket.Send(p.memory, data, size);
        MoreSent(old(socket.outgoing), p.memory, start, data, n);
        data := data + n;
        size := size - n;
        moved := moved + n;
        if r == Failed {
          ok := false;
          break;
        }
      }
      assert p.Contents()[..moved] == p.memory[start..data];
    }

    // Sends the packet; false stands for an exception, after `moved` bytes of the frame, or
    // because the packet has no room for the length.
    method Send(p: Packet) returns (ok: bool, ghost moved: nat)
      requires TxValid() && p.Contiguous() && p.header.size == 0
      modifies this`sends, socket, p.header, p.memory
      ensures TxValid() && socket.incoming == old(socket.incoming)
      ensures p.payload.Contents() == old(p.payload.Contents())
      ensures ok ==> socket.outgoing == old(socket.outgoing) + Frame(p.payload.Contents())
      ensures if old(p.header.capacity) < HEADER_SIZE then !ok && sends == old(sends)
              else var a := Attempt(p.payload.Contents(), moved); sends == old(sends) + [a] && (ok <==> Whole(a))
    {
      ghost var body := p.payload.Contents();
      assert body == p.Contents();
      moved := 0;
      ok := PrepareToSend(p);
      if ok {
        assert p.Contents() == Frame(body);
        ok, moved := SendFrame(p, body);
      }
      PayloadBehind(p, body);
    }

    // The packet holds the frame of the payload p.
    method SendFrame(frame: Packet, ghost p: Payload) returns (ok: bool, ghost moved: nat)
      requires TxValid() && frame.Contiguous() && |p| < TWO_TO_THE_32 && frame.Contents() == Frame(p)
      modifies this`sends, socket
      ensures TxValid() && socket.incoming == old(socket.incoming)
      ensures ok ==> socket.outgoing == old(socket.outgoing) + Frame(p)
      ensures sends == old(sends) + [Attempt(p, moved)] && (ok <==> Whole(Attempt(p, moved)))
    {
      ok, moved := DoSend(frame);
      PushOneMore(sends, Attempt(p, moved));
      sends := sends + [Attempt(p, moved)];
    }
  }

  lemma MoreSent(before: seq<Byte>, mem: array<Byte>, from: nat, to: nat, n: nat)
    requires from <= to && to + n <= mem.Length
    ensures before + mem[from..to] + mem[to..to + n] == before + mem[from..to + n]
  {
    assert mem[from..to + n] == mem[from..to] + mem[to..to + n];
    Assoc(before, mem[from..to], mem[to..to + n]);
  }

  // The payload is what the packet holds behind its header.
  lemma PayloadBehind(p: Packet, body: seq<Byte>)
    requires p.Contiguous() && |body| == p.payload.size
    requires |body| <= |p.Contents()| && p.Contents()[|p.Contents()| - |body|..] == body
    ensures p.payload.Contents() == body
  {
  }

  // Whatever the network has carried so far, if nothing was sent after a send had broken
  // off, and while no call of the receiver had bytes behind a complete frame and no packet
  // for them: the payloads delivered on one side are a prefix of those sent on the other,
  // the buffered bytes are a prefix of the rest, and the next read has room, so that it
  // cannot be mistaken for a shutdown.
  lemma DeliveredArePrefixOfSent(from: TcpChannel, to: TcpChannel)
    requires from.TxValid() && OnlyLastBroken(from.sends) && to.RxValid() && NoLoss(to.calls)
    requires Received(to.calls) <= from.socket.outgoing
    requires forall i | 0 <= i < |from.sends| :: |from.sends[i].p| <= MAX_PAYLOAD_SIZE
    ensures to.delivered <= Sent(from.sends) && to.delivered <= Intended(from.sends)
    ensures Sendable(Intended(from.sends)) && to.Rx() <= Wire(Intended(from.sends)[|to.delivered|..])
    ensures |to.Rx()| + 4 <= MAX_PACKET_SIZE
    ensures !to.IsClosed() ==> Wire(to.delivered) + to.Rx() == Received(to.calls)
  {
    DeliveredDespiteBreak(from.sends, to.calls);
    RoomLeft(Intended(from.sends), to.calls);
    RunConserves(to.calls);
  }
}
