// Which bytes the log formatter consumes, next to what the decoder makes of them.
module Formatter {
  import opened Bytes
  import opened Results
  import opened Codec
  import opened Rpc
  import opened Seqs

  function PastScalar(b: seq<Byte>, o: nat, t: Base, n: nat): Result<nat, Error> {
    if n > t.Size() then Err(WireTooWide) else if o + n > |b| then Err(BadPacketAccess) else Ok(o + n)
  }

  // The index behind the value that is printed from index o on. Pointers are printed like
  // scalars of their pointee's size, a pointer to bool like a 64-bit integer; types
  // without a printable value consume their header only.
  function PastValue(b: seq<Byte>, o: nat): (r: Result<nat, Error>)
    ensures r.Ok? ==> o < r.value <= |b|
  {
    if o >= |b| then Err(BadPacketAccess)
    else
      var id, m := HeaderType(b[o]), HeaderModifier(b[o]);
      var base := if id < PTR_MODIFIER then id else if id < PTR_MODIFIER + 16 then id - PTR_MODIFIER else 0xFF;
      if base == CSTR_ID then
        var n := NulFrom(b, o + 1);
        if n == |b| then Err(BadPacketAccess) else Ok(n + 1)
      else if id == BOOL_ID then Ok(o + 1)
      else match BaseOf(base)
        case Some(t) => PastScalar(b, o + 1, if t == Bool then I64 else t, m)
        case None => Ok(o + 1)
  }

  // The loop over the rest of a packet: the number of values printed.
  function PastAll(b: seq<Byte>, o: nat): Result<nat, Error>
    decreases |b| - o
  {
    if o >= |b| then Ok(0)
    else match PastValue(b, o)
      case Err(e) => Err(e)
      case Ok(next) =>
        match PastAll(b, next)
        case Err(e) => Err(e)
        case Ok(n) => Ok(n + 1)
  }

  // A value of a type the decoder does not know: a pointer to a string is printed like the
  // string, and nothing else has more than its header.
  function PastUnknown(b: seq<Byte>, o: nat): Result<nat, Error>
    requires o < |b|
  {
    if b[o] != 0xAC then Ok(o + 1)
    else if 0 !in b[o + 1..] then Err(BadPacketAccess)
    else Ok(NulFrom(b, o + 1) + 1)
  }

  // Formatter and decoder agree on every value of every buffer, well-formed or not: they
  // consume the same bytes and fail alike, except for the types the decoder rejects.
  lemma ConsumesTheSame(b: seq<Byte>, o: nat)
    ensures match Decode(b, o)
            case Ok(item) => PastValue(b, o) == Ok(item.next)
            case Err(e) => PastValue(b, o) == if e == ParamTypeInvalid then PastUnknown(b, o) else Err(e)
  {
    if o < |b| {
      if b[o] / 16 < 0xA {
        SameForScalars(b, o);
      } else {
        SameForPointers(b, o);
      }
    }
  }

  lemma SameForScalars(b: seq<Byte>, o: nat)
    requires o < |b| && b[o] / 16 < 0xA
    ensures match Decode(b, o)
            case Ok(item) => PastValue(b, o) == Ok(item.next)
            case Err(e) => PastValue(b, o) == if e == ParamTypeInvalid then PastUnknown(b, o) else Err(e)
  {
    assert HeaderType(b[o]) == b[o] % 16 < PTR_MODIFIER;
  }

  lemma SameForPointers(b: seq<Byte>, o: nat)
    requires o < |b| && b[o] / 16 >= 0xA
    ensures match Decode(b, o)
            case Ok(item) => PastValue(b, o) == Ok(item.next)
            case Err(e) => PastValue(b, o) == if e == ParamTypeInvalid then PastUnknown(b, o) else Err(e)
  {
    assert HeaderType(b[o]) == b[o] >= PTR_MODIFIER && BaseOf(b[o]) == None;
    FirstNul(b, o + 1);
  }

  // So whatever can be decoded can be logged, to the end and value by value.
  lemma {:induction false} LogsWhatDecodes(b: seq<Byte>, o: nat)
    requires DecodeAll(b, o).Ok?
    ensures PastAll(b, o) == Ok(|DecodeAll(b, o).value|)
    decreases |b| - o
  {
    if o < |b| {
      ConsumesTheSame(b, o);
      LogsWhatDecodes(b, Decode(b, o).value.next);
    }
  }

  // ---- whole packets ----

  function LogRest(b: seq<Byte>, o: nat): Option<Error> {
    match PastAll(b, o) case Ok(_) => None case Err(e) => Some(e)
  }

  // What comes of logging a packet: nothing, or an exception, which would fail the call
  // that the packet is for.
  function Logged(b: seq<Byte>): Option<Error> {
    if |b| == 0 then None
    else if b[0] == CALL_PACKET then
      if |b| == 1 then Some(BadPacketAccess)
      else if HeaderType(b[1]) == CSTR_ID then
        var n := NulFrom(b, 2);
        if n == |b| then Some(BadPacketAccess) else LogRest(b, n + 1)
      else LogRest(b, 2)
    else if b[0] == RESULT_PACKET then
      match PastValue(b, 1) case Err(e) => Some(e) case Ok(next) => LogRest(b, next)
    else None
  }

  // A call packet that can be decoded can be logged.
  lemma DecodableIsLogged(b: seq<Byte>)
    requires DecodeCall(b).Ok?
    ensures Logged(b) == None
  {
    LogsWhatDecodes(b, NulFrom(b, 2) + 1);
  }

  // The loop over encoded values prints each of them and ends at the end of the buffer.
  lemma LogsEncoded(vs: seq<Value>, b: seq<Byte>, o: nat)
    requires AllWf(vs) && o <= |b| && b[o..] == EncodeAll(vs)
    ensures PastAll(b, o) == Ok(|vs|)
  {
    DecodeEncodeAll(vs, b, o);
    LogsWhatDecodes(b, o);
  }

  // Every call that is written can be logged, argument by argument.
  lemma CallIsLogged(name: seq<Byte>, args: seq<Value>)
    requires 0 !in name && AllWf(args)
    ensures PastAll(CallBytes(name, args), 3 + |name|) == Ok(|args|)
    ensures Logged(CallBytes(name, args)) == None
  {
    CallLayout(name, args);
    LogsEncoded(args, CallBytes(name, args), 3 + |name|);
    DecodeCallBytes(name, args);
    DecodableIsLogged(CallBytes(name, args));
  }

  // Every reply that is written can be logged: the result and each pointee.
  lemma ReplyIsLogged(result: Value, vs: seq<Value>)
    requires Wf(result) && CellsFit(vs)
    ensures PastAll(ReplyBytes(result, vs), 1) == Ok(1 + |PtrsOf(vs)|)
    ensures Logged(ReplyBytes(result, vs)) == None
  {
    ReplyRest(result, vs);
    LogsEncoded([result] + PtrsOf(vs), ReplyBytes(result, vs), 1);
    LogsReply(ReplyBytes(result, vs));
  }

  lemma ReplyRest(result: Value, vs: seq<Value>)
    requires Wf(result) && CellsFit(vs)
    ensures AllWf([result] + PtrsOf(vs))
    ensures var b := ReplyBytes(result, vs);
            |b| > 1 && b[0] == RESULT_PACKET && b[1..] == EncodeAll([result] + PtrsOf(vs))
  {
    EncodeCons(result, PtrsOf(vs));
    Assoc([RESULT_PACKET], Encode(result), EncodeAll(PtrsOf(vs)));
  }

  lemma LogsReply(b: seq<Byte>)
    requires |b| > 1 && b[0] == RESULT_PACKET && PastAll(b, 1).Ok?
    ensures Logged(b) == None
  {
  }

  // An empty packet, and one of another type, are logged without looking further.
  lemma LoggedAnyway(b: seq<Byte>)
    ensures b == [] || b[0] !in [0x3C, 0x3E] ==> Logged(b) == None
    ensures b == [0x3C] || b == [0x3E] ==> Logged(b) == Some(BadPacketAccess)
  {
  }
}
