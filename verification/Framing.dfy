// The byte stream of a TCP channel: each payload travels behind its length as a
// 32-bit little-endian number, and the receiver cuts one frame per call.
module Framing {
  import opened Bytes
  import opened Seqs

  type Payload = seq<Byte>

  const HEADER_SIZE := 4

  ghost predicate Sendable(ps: seq<Payload>) {
    forall i | 0 <= i < |ps| :: |ps[i]| < TWO_TO_THE_32
  }

  function Frame(p: Payload): seq<Byte>
    requires |p| < TWO_TO_THE_32
  {
    LE32(|p|) + p
  }

  // Four bytes with the length, least significant first, and then the payload.
  lemma FrameBytes(p: Payload)
    requires |p| < TWO_TO_THE_32
    ensures var f := Frame(p);
            && |f| == 4 + |p| && f[4..] == p
            && var b0: int, b1: int, b2: int, b3: int := f[0], f[1], f[2], f[3];
               b0 + 0x100 * b1 + 0x1_0000 * b2 + 0x100_0000 * b3 == |p|
  {
    LE32RoundTrip(|p|, p);
  }

  // What a sender puts on the wire for a list of payloads.
  ghost function Wire(ps: seq<Payload>): seq<Byte>
    requires Sendable(ps)
  {
    if ps == [] then [] else Frame(ps[0]) + Wire(ps[1..])
  }

  // Size of the complete frame at the front of `b`, or 0 while it is incomplete.
  function FrontSize(b: seq<Byte>): nat {
    if |b| < HEADER_SIZE then 0
    else
      var actual := FromLE32(b) + HEADER_SIZE;
      if actual <= |b| then actual else 0
  }

  datatype RxState = RxState(delivered: seq<Payload>, rx: seq<Byte>)

  // One call of the receiver: what it read from its socket, and whether there is another
  // packet for the bytes behind a complete frame.
  datatype Read = Read(chunk: seq<Byte>, spare: bool)

  // Bytes stand behind the front frame and there is no packet for them. The call throws
  // after the packet was moved out of the channel.
  predicate Loses(s: RxState, r: Read) {
    var b := s.rx + r.chunk;
    0 < FrontSize(b) < |b| && !r.spare
  }

  // Cuts one frame off the front of the buffer if it is complete.
  function Cut(s: RxState, spare: bool): RxState {
    var n := FrontSize(s.rx);
    if n == 0 then s
    else if n < |s.rx| && !spare then RxState(s.delivered, [])
    else RxState(s.delivered + [s.rx[HEADER_SIZE..n]], s.rx[n..])
  }

  function RxStep(s: RxState, r: Read): RxState {
    Cut(RxState(s.delivered, s.rx + r.chunk), r.spare)
  }

  function RxRun(calls: seq<Read>): RxState {
    if calls == [] then RxState([], []) else RxStep(RxRun(Front(calls)), Last(calls))
  }

  function Received(calls: seq<Read>): seq<Byte> {
    if calls == [] then [] else Received(Front(calls)) + Last(calls).chunk
  }

  predicate NoLoss(calls: seq<Read>) {
    calls == [] || (NoLoss(Front(calls)) && !Loses(RxRun(Front(calls)), Last(calls)))
  }

  // ---- conservation ----

  lemma {:induction false} WireAppend(ps: seq<Payload>, qs: seq<Payload>)
    requires Sendable(ps) && Sendable(qs)
    ensures Sendable(ps + qs)
    ensures Wire(ps + qs) == Wire(ps) + Wire(qs)
  {
    if ps == [] {
      assert ps + qs == qs;
    } else {
      WireAppend(ps[1..], qs);
      assert (ps + qs)[1..] == ps[1..] + qs;
      Assoc(Frame(ps[0]), Wire(ps[1..]), Wire(qs));
    }
  }

  lemma FrontFrame(b: seq<Byte>)
    requires FrontSize(b) != 0
    ensures HEADER_SIZE <= FrontSize(b) <= |b|
    ensures var p := b[HEADER_SIZE..FrontSize(b)];
            |p| < TWO_TO_THE_32 && Frame(p) == b[..FrontSize(b)]
  {
    FromLE32RoundTrip(b);
  }

  lemma StepConserves(s: RxState, r: Read)
    requires Sendable(s.delivered)
    ensures var t := RxStep(s, r);
            && Sendable(t.delivered)
            && (!Loses(s, r) ==> Wire(t.delivered) + t.rx == Wire(s.delivered) + s.rx + r.chunk)
            && (Loses(s, r) ==> |Wire(t.delivered)| + |t.rx| + 5 <= |Wire(s.delivered)| + |s.rx| + |r.chunk|)
  {
    var b := s.rx + r.chunk;
    var n := FrontSize(b);
    if n != 0 {
      FrontFrame(b);
      if !Loses(s, r) {
        CutConserves(s.delivered, b);
      }
    }
  }

  lemma CutConserves(delivered: seq<Payload>, b: seq<Byte>)
    requires Sendable(delivered) && FrontSize(b) != 0
    ensures var n := FrontSize(b);
            && HEADER_SIZE <= n <= |b| && Sendable(delivered + [b[HEADER_SIZE..n]])
            && Wire(delivered + [b[HEADER_SIZE..n]]) + b[n..] == Wire(delivered) + b
  {
    FrontFrame(b);
    var n := FrontSize(b);
    var p := b[HEADER_SIZE..n];
    WireAppend(delivered, [p]);
    assert Wire([p]) == b[..n];
    Assoc(Wire(delivered), b[..n], b[n..]);
    assert b == b[..n] + b[n..];
  }

  // The frames handed to the application followed by the bytes still buffered are exactly
  // the bytes received, nothing lost, duplicated or reordered, if and only if no call had
  // bytes behind a complete frame and no packet for them. Otherwise bytes are missing for
  // good.
  lemma {:induction false} RunConserves(calls: seq<Read>)
    ensures var t := RxRun(calls);
            && Sendable(t.delivered)
            && (Wire(t.delivered) + t.rx == Received(calls) <==> NoLoss(calls))
            && |Wire(t.delivered)| + |t.rx| <= |Received(calls)| - (if NoLoss(calls) then 0 else 5)
  {
    if calls != [] {
      var s := RxRun(Front(calls));
      RunConserves(Front(calls));
      StepConserves(s, Last(calls));
      assert Wire(s.delivered) + s.rx + Last(calls).chunk == Wire(s.delivered) + s.rx + Last(calls).chunk;
    }
  }

  lemma RunOneMore(calls: seq<Read>, r: Read)
    ensures RxRun(calls + [r]) == RxStep(RxRun(calls), r)
    ensures Received(calls + [r]) == Received(calls) + r.chunk
    ensures NoLoss(calls + [r]) <==> NoLoss(calls) && !Loses(RxRun(calls), r)
  {
    assert Front(calls + [r]) == calls;
  }

  // A run that loses a frame and then takes bytes from the middle of the next one for a
  // frame: of [7] and [0, 0, 0, 0] neither is delivered, but an empty payload is.
  lemma LosingRun() returns (sent: seq<Payload>, calls: seq<Read>)
    ensures sent == [] + [[7]] + [[0, 0, 0, 0]]
    ensures calls == [] + [Read(Frame([7]) + LE32(4), false)] + [Read([0, 0, 0, 0], true)]
    ensures Sendable(sent) && Received(calls) == Wire(sent)
    ensures RxRun(calls) == RxState([[]], []) && !(RxRun(calls).delivered <= sent)
  {
    var p, q: Payload := [7], [0, 0, 0, 0];
    var first, second := Read(Frame(p) + LE32(4), false), Read(q, true);
    WireOneMore([], p);
    WireOneMore([] + [p], q);
    RunOneMore([], first);
    RunOneMore([] + [first], second);
    Assoc(Frame(p), LE32(4), q);
    assert [] + Frame(p) == Frame(p) && [] + first.chunk == first.chunk;
    LostFrame(p, LE32(4));
    StrayFrame(q);
    sent, calls := [] + [p] + [q], [] + [first] + [second];
    assert RxRun(calls).delivered[0] != sent[0];
  }

  lemma LostFrame(p: Payload, rest: seq<Byte>)
    requires |p| < TWO_TO_THE_32 && rest != []
    ensures RxStep(RxState([], []), Read(Frame(p) + rest, false)) == RxState([], [])
  {
    CutFrame(p, rest);
    assert [] + (Frame(p) + rest) == Frame(p) + rest;
  }

  lemma StrayFrame(q: Payload)
    requires |q| == 4 && FromLE32(q) == 0
    ensures RxStep(RxState([], []), Read(q, true)) == RxState([[]], [])
  {
    assert [] + q == q && q[4..4] == [] && q[4..] == [];
  }

  // ---- the delivered payloads are a prefix of those sent ----

  // The announced length fixes the payload: frames are prefix-free.
  lemma FrameHead(p: Payload, s: seq<Byte>, q: Payload, t: seq<Byte>)
    requires |p| < TWO_TO_THE_32 && |q| < TWO_TO_THE_32
    requires Frame(p) + s <= Frame(q) + t
    ensures p == q && s <= t
  {
    LE32RoundTrip(|p|, []);
    LE32RoundTrip(|q|, []);
    assert LE32(|p|) + [] == LE32(|p|) && LE32(|q|) + [] == LE32(|q|);
    assert LE32(|p|) == (Frame(p) + s)[..4] == (Frame(q) + t)[..4] == LE32(|q|);
    assert p == (Frame(p) + s)[4..4 + |p|] == (Frame(q) + t)[4..4 + |p|] == q;
    assert s == (Frame(p) + s)[4 + |p|..] && t == (Frame(q) + t)[4 + |p|..];
  }

  lemma {:induction false} UniqueParse(delivered: seq<Payload>, rx: seq<Byte>, sent: seq<Payload>)
    requires Sendable(delivered) && Sendable(sent)
    requires Wire(delivered) + rx <= Wire(sent)
    ensures delivered <= sent
    ensures rx <= Wire(sent[|delivered|..])
  {
    if delivered != [] {
      var tail := Wire(delivered[1..]) + rx;
      assert Wire(delivered) + rx == Frame(delivered[0]) + tail;
      assert sent != [];
      FrameHead(delivered[0], tail, sent[0], Wire(sent[1..]));
      UniqueParse(delivered[1..], rx, sent[1..]);
      assert sent[1..][|delivered[1..]|..] == sent[|delivered|..];
    }
  }

  // However the sockets split the stream, what was delivered is a prefix of what was
  // sent and the receive buffer is a prefix of the rest of the stream.
  lemma DeliveredIsPrefix(sent: seq<Payload>, calls: seq<Read>)
    requires Sendable(sent) && Received(calls) <= Wire(sent) && NoLoss(calls)
    ensures var t := RxRun(calls);
            t.delivered <= sent && t.rx <= Wire(sent[|t.delivered|..])
  {
    RunConserves(calls);
    UniqueParse(RxRun(calls).delivered, RxRun(calls).rx, sent);
  }

  // ---- sends that broke off ----

  // A send: its payload, and how many bytes of its frame were taken before an exception
  // ended it, or all of them.
  datatype Attempt = Attempt(p: Payload, moved: nat)

  predicate Possible(a: Attempt) {
    |a.p| < TWO_TO_THE_32 && a.moved <= HEADER_SIZE + |a.p|
  }

  predicate Whole(a: Attempt) {
    a.moved == HEADER_SIZE + |a.p|
  }

  ghost predicate AllPossible(sends: seq<Attempt>) {
    forall i | 0 <= i < |sends| :: Possible(sends[i])
  }

  ghost function Pushed(sends: seq<Attempt>): seq<Byte>
    requires AllPossible(sends)
  {
    if sends == [] then [] else Pushed(Front(sends)) + Frame(Last(sends).p)[..Last(sends).moved]
  }

  // The payloads of the sends that were not broken off.
  ghost function Sent(sends: seq<Attempt>): seq<Payload> {
    if sends == [] then [] else Sent(Front(sends)) + if Whole(Last(sends)) then [Last(sends).p] else []
  }

  ghost function Intended(sends: seq<Attempt>): (ps: seq<Payload>)
    ensures |ps| == |sends| && forall i | 0 <= i < |ps| :: ps[i] == sends[i].p
  {
    if sends == [] then [] else Intended(Front(sends)) + [Last(sends).p]
  }

  // Nothing was sent after a send had broken off.
  ghost predicate OnlyLastBroken(sends: seq<Attempt>) {
    forall i | 0 <= i < |sends| - 1 :: Whole(sends[i])
  }

  lemma {:induction false} AllWhole(sends: seq<Attempt>)
    requires AllPossible(sends) && forall i | 0 <= i < |sends| :: Whole(sends[i])
    ensures Sendable(Intended(sends)) && Pushed(sends) == Wire(Intended(sends)) && Sent(sends) == Intended(sends)
  {
    if sends != [] {
      AllWhole(Front(sends));
      assert Whole(Last(sends));
      WireOneMore(Intended(Front(sends)), Last(sends).p);
    }
  }

  lemma PushedPrefix(sends: seq<Attempt>)
    requires AllPossible(sends) && OnlyLastBroken(sends) && sends != []
    ensures var front, p := Intended(Front(sends)), Last(sends).p;
            && Sendable(front) && Sendable(front + [p]) && front + [p] == Intended(sends)
            && Wire(front + [p]) == Wire(front) + Frame(p)
            && Pushed(sends) == Wire(front) + Frame(p)[..Last(sends).moved]
            && Sent(sends) == front + if Whole(Last(sends)) then [p] else []
  {
    AllWhole(Front(sends));
    WireOneMore(Intended(Front(sends)), Last(sends).p);
  }

  // If nothing was sent after a send had broken off, the payloads delivered are still a
  // prefix of those sent, and what is left of the broken one stays in the buffer.
  lemma DeliveredDespiteBreak(sends: seq<Attempt>, calls: seq<Read>)
    requires AllPossible(sends) && OnlyLastBroken(sends) && Received(calls) <= Pushed(sends) && NoLoss(calls)
    ensures Sendable(Intended(sends)) && Received(calls) <= Wire(Intended(sends))
    ensures var t := RxRun(calls);
            t.delivered <= Sent(sends) && t.delivered <= Intended(sends)
            && t.rx <= Wire(Intended(sends)[|t.delivered|..])
  {
    if sends != [] {
      PushedPrefix(sends);
    }
    DeliveredIsPrefix(Intended(sends), calls);
    RunConserves(calls);
    DeliveredWhole(sends, RxRun(calls).delivered);
  }

  // A broken frame is not delivered: it has not arrived completely.
  lemma DeliveredWhole(sends: seq<Attempt>, delivered: seq<Payload>)
    requires AllPossible(sends) && OnlyLastBroken(sends) && delivered <= Intended(sends)
    requires Sendable(delivered) && |Wire(delivered)| <= |Pushed(sends)|
    ensures delivered <= Sent(sends)
  {
    if sends != [] {
      PushedPrefix(sends);
      if |delivered| == |sends| {
        assert delivered == Intended(sends);
      }
    }
  }

  // Otherwise the frame that was broken off swallows the next one: a payload arrives that
  // nobody sent.
  lemma SentAfterBreak() returns (sends: seq<Attempt>, calls: seq<Read>)
    ensures sends == [] + [Attempt([7], 4)] + [Attempt([], 4)] && AllPossible(sends) && !OnlyLastBroken(sends)
    ensures Received(calls) == Pushed(sends) && NoLoss(calls)
    ensures RxRun(calls).delivered == [[0]]
  {
    var zeros: seq<Byte> := [0, 0, 0];
    sends := BrokenAndNext(zeros);
    calls := OneRead([0], zeros);
  }

  // A frame and what follows it, in one read.
  lemma OneRead(p: Payload, rest: seq<Byte>) returns (calls: seq<Read>)
    requires |p| < TWO_TO_THE_32
    ensures calls == [] + [Read(Frame(p) + rest, true)] && Received(calls) == Frame(p) + rest
    ensures NoLoss(calls) && RxRun(calls) == RxState([p], rest)
  {
    var r := Read(Frame(p) + rest, true);
    calls := [] + [r];
    RunOneMore([], r);
    CutFrame(p, rest);
    assert [] + r.chunk == r.chunk;
  }

  lemma BrokenAndNext(zeros: seq<Byte>) returns (sends: seq<Attempt>)
    requires zeros == [0, 0, 0]
    ensures sends == [] + [Attempt([7], 4)] + [Attempt([], 4)] && AllPossible(sends) && !OnlyLastBroken(sends)
    ensures Pushed(sends) == Frame([0]) + zeros
  {
    var broken, next := Attempt([7], 4), Attempt([], 4);
    PushOneMore([], broken);
    PushOneMore([] + [broken], next);
    assert Frame([7])[..4] == LE32(1) && Frame([])[..4] == LE32(0) == [0] + zeros;
    Assoc(LE32(1), [0], zeros);
    sends := [] + [broken] + [next];
    assert !Whole(sends[0]) && [] + LE32(1) == LE32(1);
  }

  lemma PushOneMore(sends: seq<Attempt>, a: Attempt)
    requires AllPossible(sends) && Possible(a)
    ensures AllPossible(sends + [a]) && Pushed(sends + [a]) == Pushed(sends) + Frame(a.p)[..a.moved]
    ensures Sent(sends + [a]) == Sent(sends) + (if Whole(a) then [a.p] else [])
    ensures Intended(sends + [a]) == Intended(sends) + [a.p]
  {
    assert Front(sends + [a]) == sends;
  }

  // ---- how many frames a call sequence delivers ----

  // Number of complete frames at the front of a byte string.
  ghost function Complete(b: seq<Byte>): nat
    decreases |b|
  {
    var n := FrontSize(b);
    if n == 0 then 0 else 1 + Complete(b[n..])
  }

  // Frames that had arrived completely when the first `j` calls were over.
  ghost function Arrived(calls: seq<Read>, j: nat): nat
    requires j <= |calls|
  {
    Complete(Received(calls[..j]))
  }

  lemma FrontSizeStable(b: seq<Byte>, c: seq<Byte>)
    requires FrontSize(b) != 0
    ensures FrontSize(b + c) == FrontSize(b)
  {
    assert FromLE32(b + c) == FromLE32(b);
  }

  lemma {:induction false} CompleteMonotone(b: seq<Byte>, c: seq<Byte>)
    ensures Complete(b) <= Complete(b + c)
    decreases |b|
  {
    var n := FrontSize(b);
    if n != 0 {
      FrontSizeStable(b, c);
      CompleteMonotone(b[n..], c);
      assert (b + c)[n..] == b[n..] + c;
    }
  }

  // Cutting a frame off the front of a byte string recovers its payload and the rest.
  lemma CutFrame(p: Payload, rest: seq<Byte>)
    requires |p| < TWO_TO_THE_32
    ensures var b := Frame(p) + rest;
            && FrontSize(b) == HEADER_SIZE + |p|
            && b[HEADER_SIZE..FrontSize(b)] == p
            && b[FrontSize(b)..] == rest
  {
    var b := Frame(p) + rest;
    LE32RoundTrip(|p|, p + rest);
    Assoc(LE32(|p|), p, rest);
  }

  lemma {:induction false} CompleteAfterWire(ps: seq<Payload>, rest: seq<Byte>)
    requires Sendable(ps)
    ensures Complete(Wire(ps) + rest) == |ps| + Complete(rest)
  {
    if ps == [] {
      assert Wire(ps) + rest == rest;
    } else {
      var tail := Wire(ps[1..]) + rest;
      Assoc(Frame(ps[0]), Wire(ps[1..]), rest);
      CutFrame(ps[0], tail);
      CompleteAfterWire(ps[1..], rest);
    }
  }

  // Each call delivers at most one frame, and does deliver one while a complete one waits.
  lemma OneFramePerCall(calls: seq<Read>)
    requires calls != [] && NoLoss(calls)
    ensures var before := |RxRun(Front(calls)).delivered|;
            var arrived := Complete(Received(calls));
            |RxRun(calls).delivered| == if before < arrived then before + 1 else arrived
  {
    var s := RxRun(Front(calls));
    var b := s.rx + Last(calls).chunk;
    RunConserves(Front(calls));
    Assoc(Wire(s.delivered), s.rx, Last(calls).chunk);
    CompleteAfterWire(s.delivered, b);
    StepCount(s, Last(calls));
  }

  lemma StepCount(s: RxState, r: Read)
    requires !Loses(s, r)
    ensures |RxStep(s, r).delivered| == |s.delivered| + if Complete(s.rx + r.chunk) == 0 then 0 else 1
  {
  }

  // The exact number of frames delivered by n calls is the minimum over j of
  // (frames complete after j calls) + (calls since then).
  lemma {:induction false} BacklogLaw(calls: seq<Read>) returns (call: nat)
    requires NoLoss(calls)
    ensures forall j | 0 <= j <= |calls| ::
              |RxRun(calls).delivered| <= Arrived(calls, j) + (|calls| - j)
    ensures call <= |calls|
    ensures |RxRun(calls).delivered| == Arrived(calls, call) + (|calls| - call)
  {
    assert calls[..|calls|] == calls;
    if calls == [] {
      call := 0;
    } else {
      var front := Front(calls);
      var k := BacklogLaw(front);
      OneFramePerCall(calls);
      ArrivedBefore(calls);
      call := if |RxRun(front).delivered| < Complete(Received(calls)) then k else |calls|;
    }
  }

  lemma ArrivedBefore(calls: seq<Read>)
    requires calls != []
    ensures forall j | 0 <= j < |calls| :: Arrived(calls, j) == Arrived(Front(calls), j)
  {
    forall j | 0 <= j < |calls| ensures Arrived(calls, j) == Arrived(Front(calls), j) {
      assert calls[..j] == Front(calls)[..j];
    }
  }

  // "Everything received has been delivered" holds exactly when no final stretch of the
  // calls completed more frames than it had calls.
  lemma AllDeliveredIff(calls: seq<Read>)
    requires NoLoss(calls)
    ensures |RxRun(calls).delivered| == Complete(Received(calls))
            <==> forall j | 0 <= j <= |calls| ::
                   Complete(Received(calls)) <= Arrived(calls, j) + (|calls| - j)
  {
    var k := BacklogLaw(calls);
    OneFrameBound(calls);
  }

  lemma OneFrameBound(calls: seq<Read>)
    requires NoLoss(calls)
    ensures |RxRun(calls).delivered| <= Complete(Received(calls))
  {
    if calls != [] {
      OneFramePerCall(calls);
    }
  }

  // Two empty frames in one read: the second one stays behind in the receive buffer.
  lemma FrameHeldBack() returns (calls: seq<Read>)
    ensures calls == [] + [Read(Frame([]) + Frame([]), true)]
    ensures NoLoss(calls) && Complete(Received(calls)) == 2
    ensures RxRun(calls) == RxState([[]], Frame([]))
  {
    calls := OneRead([], Frame([]));
    CutFrame([], Frame([]));
    OneFrame([]);
  }

  lemma OneFrame(p: Payload)
    requires |p| < TWO_TO_THE_32
    ensures Complete(Frame(p)) == 1
  {
    CutFrame(p, []);
    assert Frame(p) + [] == Frame(p);
  }

  // ---- the fixed receive buffer ----

  // Every read went into the room that was left in the buffer.
  ghost predicate Fits(calls: seq<Read>) {
    calls == [] ||
    (Fits(Front(calls)) && |RxRun(Front(calls)).rx| + |Last(calls).chunk| <= MAX_PACKET_SIZE)
  }

  ghost predicate FramesFit(ps: seq<Payload>) {
    forall i | 0 <= i < |ps| :: |ps[i]| + HEADER_SIZE <= MAX_PACKET_SIZE
  }

  // The state is the result of a run whose calls fitted the receive buffer.
  ghost predicate Reached(s: RxState, calls: seq<Read>) {
    Fits(calls) && s == RxRun(calls)
  }

  lemma ExtendRun(s: RxState, calls: seq<Read>, r: Read)
    requires Reached(s, calls) && |s.rx| + |r.chunk| <= MAX_PACKET_SIZE
    ensures Reached(RxStep(s, r), calls + [r])
  {
    RunOneMore(calls, r);
    assert Front(calls + [r]) == calls;
  }

  // An incomplete front is shorter than the frame it belongs to.
  lemma IncompleteFront(b: seq<Byte>, sent: seq<Payload>)
    requires Sendable(sent) && b <= Wire(sent) && FrontSize(b) == 0
    ensures sent == [] ==> b == []
    ensures sent != [] ==> |b| < HEADER_SIZE + |sent[0]|
  {
    if sent != [] && |b| >= HEADER_SIZE {
      var rest := sent[0] + Wire(sent[1..]);
      assert Wire(sent) == LE32(|sent[0]|) + rest;
      LE32RoundTrip(|sent[0]|, rest);
      assert FromLE32(b) == FromLE32(Wire(sent));
    }
  }

  // With frames that fit the buffer, the next read always has room: one byte in general,
  // four when payloads respect the sender's limit.
  lemma RoomLeft(sent: seq<Payload>, calls: seq<Read>)
    requires Sendable(sent) && FramesFit(sent)
    requires Received(calls) <= Wire(sent) && Fits(calls) && NoLoss(calls)
    ensures |RxRun(calls).rx| + 1 <= MAX_PACKET_SIZE
    ensures (forall i | 0 <= i < |sent| :: |sent[i]| <= MAX_PAYLOAD_SIZE)
            ==> |RxRun(calls).rx| + 4 <= MAX_PACKET_SIZE
  {
    if calls != [] {
      var s := RxRun(Front(calls));
      var b := s.rx + Last(calls).chunk;
      DeliveredIsPrefix(sent, calls);
      if FrontSize(b) == 0 {
        IncompleteFront(b, sent[|s.delivered|..]);
      } else {
        FrontFrame(b);
      }
    }
  }

  lemma WholeFrameStep(delivered: seq<Payload>, p: Payload)
    requires |p| < TWO_TO_THE_32
    ensures var s, r := RxState(delivered, []), Read(Frame(p), true);
            !Loses(s, r) && RxStep(s, r) == RxState(delivered + [p], [])
  {
    CutFrame(p, []);
    assert [] + Frame(p) == Frame(p) == Frame(p) + [];
  }

  lemma OneFrameMore(ps: seq<Payload>, calls: seq<Read>, p: Payload)
    requires |p| < TWO_TO_THE_32 && RxRun(calls) == RxState(ps, []) && NoLoss(calls)
    ensures var more := calls + [Read(Frame(p), true)];
            RxRun(more) == RxState(ps + [p], []) && NoLoss(more) && Received(more) == Received(calls) + Frame(p)
  {
    RunOneMore(calls, Read(Frame(p), true));
    WholeFrameStep(ps, p);
  }

  lemma WireOneMore(ps: seq<Payload>, p: Payload)
    requires Sendable(ps) && |p| < TWO_TO_THE_32
    ensures Sendable(ps + [p]) && Wire(ps + [p]) == Wire(ps) + Frame(p)
  {
    WireAppend(ps, [p]);
    assert Wire([p]) == Frame(p);
  }

  // Reading the frames one by one delivers all of them and leaves the buffer empty.
  lemma {:induction false} FrameByFrame(ps: seq<Payload>) returns (calls: seq<Read>)
    requires Sendable(ps) && FramesFit(ps)
    ensures Received(calls) == Wire(ps) && Fits(calls) && NoLoss(calls)
    ensures RxRun(calls) == RxState(ps, [])
  {
    if ps == [] {
      calls := [];
    } else {
      var before := FrameByFrame(Front(ps));
      OneFrameMore(Front(ps), before, Last(ps));
      WireOneMore(Front(ps), Last(ps));
      assert ps == Front(ps) + [Last(ps)];
      calls := before + [Read(Frame(Last(ps)), true)];
    }
  }

  // The receive buffer never fills up, however the stream is split, exactly when every
  // frame fits into it; a full buffer would make the next read ask for zero bytes, which
  // looks like a shutdown of the peer.
  lemma NeverFullIff(sent: seq<Payload>)
    requires Sendable(sent)
    ensures (forall calls: seq<Read> | Received(calls) <= Wire(sent) && Fits(calls) && NoLoss(calls) ::
               |RxRun(calls).rx| < MAX_PACKET_SIZE)
            <==> FramesFit(sent)
  {
    if FramesFit(sent) {
      forall calls: seq<Read> | Received(calls) <= Wire(sent) && Fits(calls) && NoLoss(calls)
        ensures |RxRun(calls).rx| < MAX_PACKET_SIZE
      {
        RoomLeft(sent, calls);
      }
    } else {
      var i :| 0 <= i < |sent| && |sent[i]| + HEADER_SIZE > MAX_PACKET_SIZE;
      var calls := FillingRun(sent, i);
    }
  }

  lemma {:induction false} FillingRun(sent: seq<Payload>, i: nat) returns (calls: seq<Read>)
    requires Sendable(sent) && i < |sent| && |sent[i]| + HEADER_SIZE > MAX_PACKET_SIZE
    ensures Received(calls) <= Wire(sent) && Fits(calls) && NoLoss(calls)
    ensures |RxRun(calls).rx| == MAX_PACKET_SIZE
  {
    if FramesFit(sent[..i]) {
      var before := FrameByFrame(sent[..i]);
      var part := Frame(sent[i])[..MAX_PACKET_SIZE];
      calls := before + [Read(part, true)];
      assert Front(calls) == before;
      WireAround(sent, i);
      IncompletePart(sent[i]);
      assert [] + part == part;
    } else {
      var j :| 0 <= j < i && |sent[..i][j]| + HEADER_SIZE > MAX_PACKET_SIZE;
      calls := FillingRun(sent, j);
    }
  }

  lemma WireAround(sent: seq<Payload>, i: nat)
    requires Sendable(sent) && i < |sent|
    ensures Sendable(sent[..i]) && Wire(sent[..i]) + Frame(sent[i]) <= Wire(sent)
  {
    assert sent == sent[..i] + sent[i..] && sent[i..][1..] == sent[i + 1..];
    WireAppend(sent[..i], sent[i..]);
    Assoc(Wire(sent[..i]), Frame(sent[i]), Wire(sent[i + 1..]));
  }

  // A frame that is larger than the buffer fills it without being complete.
  lemma IncompletePart(p: Payload)
    requires |p| < TWO_TO_THE_32 && |p| + HEADER_SIZE > MAX_PACKET_SIZE
    ensures FrontSize(Frame(p)[..MAX_PACKET_SIZE]) == 0
  {
    var rest := p[..MAX_PACKET_SIZE - HEADER_SIZE];
    assert Frame(p)[..MAX_PACKET_SIZE] == LE32(|p|) + rest;
    LE32RoundTrip(|p|, rest);
  }
}
