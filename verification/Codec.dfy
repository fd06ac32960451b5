// The wire format of calls and results: what each value is encoded to, and what the
// decoder and the log formatter make of a byte buffer.
module Codec {
  import opened Bytes
  import opened Results

  // The types a scalar or a pointee can have.
  datatype Base = U8 | U16 | U32 | U64 | I8 | I16 | I32 | I64 | F64 | F32 | Bool
  {
    function Id(): Byte {
      match this
      case U8 => 0x01 case U16 => 0x02 case U32 => 0x03 case U64 => 0x04
      case I8 => 0x05 case I16 => 0x06 case I32 => 0x07 case I64 => 0x08
      case Bool => 0x0B case F64 => 0x0D case F32 => 0x0F
    }

    function Size(): nat {
      match this
      case U8 => 1 case U16 => 2 case U32 => 4 case U64 => 8
      case I8 => 1 case I16 => 2 case I32 => 4 case I64 => 8
      case Bool => 1 case F64 => 8 case F32 => 4
    }

    predicate IsFloat() {
      F64? || F32?
    }
  }

  function BaseOf(id: Byte): Option<Base> {
    match id
    case 0x01 => Some(U8) case 0x02 => Some(U16) case 0x03 => Some(U32) case 0x04 => Some(U64)
    case 0x05 => Some(I8) case 0x06 => Some(I16) case 0x07 => Some(I32) case 0x08 => Some(I64)
    case 0x0B => Some(Bool) case 0x0D => Some(F64) case 0x0F => Some(F32)
    case _ => None
  }

  const NULL_ID: Byte := 0x00
  const VOID_ID: Byte := 0x09
  const BOOL_ID: Byte := 0x0B
  const CSTR_ID: Byte := 0x0C
  const PTR_MODIFIER: Byte := 0xA0

  const CALL_PACKET: Byte := 0x3E
  const RESULT_PACKET: Byte := 0x3C

  datatype Error =
    | BadPacketAccess | BadPacket | FuncNameMissing | ParamTypeInvalid | OutparamTypeMismatch
    | WireTooWide          // undefined in the program: a scalar with more bytes than its type has
    | PacketFull | OutOfPackets
    | NotFound | ParamNumMismatch | ParamTypeMismatch
    | Thrown               // by the called function

  // A value as the caller and the called function see it. Scalars and pointees are the
  // bytes of their representation, least significant first.
  datatype Value =
    | Null
    | Void
    | Truth(b: bool)
    | Text(s: seq<Byte>)
    | Num(t: Base, bits: seq<Byte>)
    | Ptr(t: Base, cell: seq<Byte>)

  predicate Wf(v: Value) {
    match v
    case Text(s) => 0 !in s
    case Num(t, bits) => t != Bool && |bits| == t.Size()
    case Ptr(t, cell) => |cell| == t.Size()
    case _ => true
  }

  predicate AllWf(vs: seq<Value>) {
    forall i | 0 <= i < |vs| :: Wf(vs[i])
  }

  // ---- encoding ----

  // The scalar compares equal to zero once its first k bytes have been cleared.
  predicate ZeroFrom(t: Base, bits: seq<Byte>, k: nat)
    requires |bits| == t.Size()
  {
    var n := |bits|;
    || (forall i | k <= i < n :: bits[i] == 0)
    || (t.IsFloat() && k < n && bits[n - 1] == 0x80 && forall i | k <= i < n - 1 :: bits[i] == 0)
  }

  function WireSizeFrom(t: Base, bits: seq<Byte>, k: nat): (n: nat)
    requires |bits| == t.Size() && k <= |bits|
    ensures k <= n <= |bits| && ZeroFrom(t, bits, n) && forall i | k <= i < n :: !ZeroFrom(t, bits, i)
    decreases |bits| - k
  {
    if k == |bits| || ZeroFrom(t, bits, k) then k else WireSizeFrom(t, bits, k + 1)
  }

  function WireSize(t: Base, bits: seq<Byte>): nat
    requires |bits| == t.Size()
  {
    WireSizeFrom(t, bits, 0)
  }

  function Encode(v: Value): (e: seq<Byte>)
    requires Wf(v)
    ensures e != []
  {
    match v
    case Null => [NULL_ID]
    case Void => [VOID_ID]
    case Truth(b) => [(if b then 0x10 else 0) + BOOL_ID]
    case Text(s) => [CSTR_ID] + s + [0]
    case Num(t, bits) =>
      var n := WireSize(t, bits);
      [16 * n + t.Id()] + bits[..n]
    case Ptr(t, cell) => [PTR_MODIFIER + t.Id()] + cell
  }

  function EncodeAll(vs: seq<Value>): seq<Byte>
    requires AllWf(vs)
  {
    if vs == [] then [] else Encode(vs[0]) + EncodeAll(vs[1..])
  }

  function CallBytes(name: seq<Byte>, args: seq<Value>): seq<Byte>
    requires 0 !in name && AllWf(args)
  {
    [CALL_PACKET] + Encode(Text(name)) + EncodeAll(args)
  }

  // ---- decoding ----

  // A decoded argument: a value, or where in the buffer it is. Pointers stay pointers
  // into the packet.
  datatype Arg =
    | Imm(v: Value)
    | Str(off: nat, len: nat)
    | Ref(t: Base, off: nat)

  datatype Item = Item(arg: Arg, next: nat)

  function Zeros(n: nat): (z: seq<Byte>)
    ensures |z| == n && forall i | 0 <= i < n :: z[i] == 0
  {
    seq(n, _ => 0)
  }

  // Index of the first NUL at or after o, or the length of the buffer.
  function NulFrom(b: seq<Byte>, o: nat): (n: nat)
    requires o <= |b|
    ensures o <= n <= |b| && (n < |b| ==> b[n] == 0) && forall i | o <= i < n :: b[i] != 0
    decreases |b| - o
  {
    if o == |b| || b[o] == 0 then o else NulFrom(b, o + 1)
  }

  // Type and modifier of a header byte: below 0xA the modifier is the number of bytes on
  // the wire, otherwise the byte is a pointer type and the modifier its pointee's size.
  function HeaderType(h: Byte): Byte {
    if h / 16 < 0xA then h % 16 else h
  }

  function HeaderModifier(h: Byte): nat {
    if h / 16 < 0xA then h / 16
    else match BaseOf(h % 16) case Some(t) => t.Size() case None => 0
  }

  function PointeeOf(id: Byte): Option<Base> {
    if id < PTR_MODIFIER || id >= PTR_MODIFIER + 16 then None else BaseOf(id - PTR_MODIFIER)
  }

  function DecodeScalar(b: seq<Byte>, o: nat, t: Base, n: nat): Result<seq<Byte>, Error> {
    if n > t.Size() then Err(WireTooWide)
    else if o + n > |b| then Err(BadPacketAccess)
    else Ok(b[o..o + n] + Zeros(t.Size() - n))
  }

  function Decode(b: seq<Byte>, o: nat): (r: Result<Item, Error>)
    ensures r.Ok? ==> o < r.value.next <= |b|
  {
    if o >= |b| then Err(BadPacketAccess)
    else
      var id, m := HeaderType(b[o]), HeaderModifier(b[o]);
      if id == NULL_ID then Ok(Item(Imm(Null), o + 1))
      else if id == VOID_ID then Ok(Item(Imm(Void), o + 1))
      else if id == BOOL_ID then Ok(Item(Imm(Truth(m != 0)), o + 1))
      else if id == CSTR_ID then
        var n := NulFrom(b, o + 1);
        if n == |b| then Err(BadPacketAccess) else Ok(Item(Str(o + 1, n - o - 1), n + 1))
      else match BaseOf(id)
        case Some(t) =>
          (match DecodeScalar(b, o + 1, t, m)
           case Ok(bits) => Ok(Item(Imm(Num(t, bits)), o + 1 + m))
           case Err(e) => Err(e))
        case None =>
          match PointeeOf(id)
          case Some(t) =>
            if o + 1 + t.Size() > |b| then Err(BadPacketAccess) else Ok(Item(Ref(t, o + 1), o + 1 + t.Size()))
          case None => Err(ParamTypeInvalid)
  }

  function DecodeAll(b: seq<Byte>, o: nat): Result<seq<Arg>, Error>
    decreases |b| - o
  {
    if o >= |b| then Ok([])
    else match Decode(b, o)
      case Err(e) => Err(e)
      case Ok(item) =>
        match DecodeAll(b, item.next)
        case Err(e) => Err(e)
        case Ok(args) => Ok([item.arg] + args)
  }

  datatype Call = Call(name: seq<Byte>, args: seq<Arg>)

  function DecodeCall(b: seq<Byte>): Result<Call, Error> {
    if |b| == 0 then Err(BadPacketAccess)
    else if b[0] != CALL_PACKET then Err(BadPacket)
    else if |b| == 1 then Err(BadPacketAccess)
    else if HeaderType(b[1]) != CSTR_ID then Err(FuncNameMissing)
    else
      var n := NulFrom(b, 2);
      if n == |b| then Err(BadPacketAccess)
      else match DecodeAll(b, n + 1)
        case Err(e) => Err(e)
        case Ok(args) => Ok(Call(b[2..n], args))
  }

  // ---- the scalar law ----

  // What decoding gives back: a float whose last byte is 0x80 loses its sign bit.
  function NormBits(t: Base, bits: seq<Byte>): (r: seq<Byte>)
    requires |bits| == t.Size()
    ensures |r| == |bits|
  {
    var n := |bits|;
    if t.IsFloat() && bits[n - 1] == 0x80 then bits[..n - 1] + [0] else bits
  }

  // The shortened scalar decodes to the same bits but for that sign bit.
  lemma ScalarLaw(t: Base, bits: seq<Byte>)
    requires |bits| == t.Size()
    ensures var n := WireSize(t, bits);
            bits[..n] + Zeros(t.Size() - n) == NormBits(t, bits)
  {
    var n, m := WireSize(t, bits), |bits|;
    if t.IsFloat() && bits[m - 1] == 0x80 {
      assert n < m by {
        assert ZeroFrom(t, bits, m - 1);
      }
    }
  }

  lemma SignLost(t: Base, bits: seq<Byte>)
    requires |bits| == t.Size()
    ensures NormBits(t, bits) == bits <==> !(t.IsFloat() && bits[|bits| - 1] == 0x80)
  {
    var n := |bits|;
    assert t.IsFloat() && bits[n - 1] == 0x80 ==> NormBits(t, bits)[n - 1] == 0;
  }

  // The bytes sent are those up to the last one that decoding does not fill in: the last
  // that is not zero, the lost sign bit aside.
  lemma WireSizeIs(t: Base, bits: seq<Byte>, n: nat)
    requires |bits| == t.Size() && n <= |bits|
    ensures WireSize(t, bits) == n <==>
              var r := NormBits(t, bits);
              (forall i | n <= i < |r| :: r[i] == 0) && (n > 0 ==> r[n - 1] != 0)
  {
    ZeroFromNorm(t, bits, n);
    ZeroFromNorm(t, bits, WireSize(t, bits));
    if n > 0 {
      ZeroFromNorm(t, bits, n - 1);
    }
    if WireSize(t, bits) > 0 {
      ZeroFromNorm(t, bits, WireSize(t, bits) - 1);
    }
  }

  lemma ZeroFromNorm(t: Base, bits: seq<Byte>, k: nat)
    requires |bits| == t.Size() && k <= |bits|
    ensures ZeroFrom(t, bits, k) <==> forall i | k <= i < |bits| :: NormBits(t, bits)[i] == 0
  {
    var r, n := NormBits(t, bits), |bits|;
    assert forall i | 0 <= i < n - 1 :: r[i] == bits[i];
  }

  // No scalar could be sent in fewer bytes and be decoded to the same.
  lemma FewestBytes(t: Base, bits: seq<Byte>, k: nat)
    requires |bits| == t.Size() && k < WireSize(t, bits)
    ensures bits[..k] + Zeros(t.Size() - k) != NormBits(t, bits)
  {
    ZeroFromNorm(t, bits, k);
    var i :| k <= i < |bits| && NormBits(t, bits)[i] != 0;
    assert (bits[..k] + Zeros(t.Size() - k))[i] == 0;
  }

  // ---- round trips ----

  function Norm(v: Value): (r: Value)
    requires Wf(v)
    ensures Wf(r)
  {
    match v
    case Num(t, bits) => Num(t, NormBits(t, bits))
    case _ => v
  }

  function NormAll(vs: seq<Value>): (r: seq<Value>)
    requires AllWf(vs)
    ensures |r| == |vs| && AllWf(r) && forall i | 0 <= i < |vs| :: r[i] == Norm(vs[i])
  {
    seq(|vs|, i requires 0 <= i < |vs| => Norm(vs[i]))
  }

  // How an encoded value that starts at index o decodes.
  function ArgAt(v: Value, o: nat): Arg
    requires Wf(v)
  {
    match v
    case Text(s) => Str(o + 1, |s|)
    case Ptr(t, _) => Ref(t, o + 1)
    case _ => Imm(Norm(v))
  }

  function ArgsAt(vs: seq<Value>, o: nat): (r: seq<Arg>)
    requires AllWf(vs)
    ensures |r| == |vs|
  {
    if vs == [] then [] else [ArgAt(vs[0], o)] + ArgsAt(vs[1..], o + |Encode(vs[0])|)
  }

  lemma NulAfter(s: seq<Byte>, b: seq<Byte>, o: nat)
    requires 0 !in s && o + |s| < |b| && b[o..o + |s|] == s && b[o + |s|] == 0
    ensures NulFrom(b, o) == o + |s|
  {
    assert forall i | o <= i < o + |s| :: b[i] == s[i - o];
  }

  lemma HeaderRoundTrip(t: Base, n: nat)
    requires n <= 8
    ensures HeaderType(16 * n + t.Id()) == t.Id() && HeaderModifier(16 * n + t.Id()) == n
    ensures HeaderType(PTR_MODIFIER + t.Id()) == PTR_MODIFIER + t.Id()
    ensures BaseOf(t.Id()) == Some(t) == PointeeOf(PTR_MODIFIER + t.Id()) && BaseOf(PTR_MODIFIER + t.Id()) == None
  {
    assert (16 * n + t.Id()) / 16 == n && (16 * n + t.Id()) % 16 == t.Id();
  }

  lemma DecodeBase(t: Base, m: nat, b: seq<Byte>, o: nat)
    requires t != Bool && o < |b| && HeaderType(b[o]) == t.Id() && HeaderModifier(b[o]) == m
    requires DecodeScalar(b, o + 1, t, m).Ok?
    ensures Decode(b, o) == Ok(Item(Imm(Num(t, DecodeScalar(b, o + 1, t, m).value)), o + 1 + m))
  {
    HeaderRoundTrip(t, 0);
  }

  lemma DecodeNum(t: Base, bits: seq<Byte>, b: seq<Byte>, o: nat)
    requires t != Bool && |bits| == t.Size() && o < |b|
    requires var n := WireSize(t, bits);
             o + 1 + n <= |b| && b[o] == 16 * n + t.Id() && b[o + 1..o + 1 + n] == bits[..n]
    ensures Decode(b, o) == Ok(Item(Imm(Num(t, NormBits(t, bits))), o + 1 + WireSize(t, bits)))
  {
    var n := WireSize(t, bits);
    ScalarLaw(t, bits);
    assert DecodeScalar(b, o + 1, t, n) == Ok(NormBits(t, bits));
    HeaderRoundTrip(t, n);
    DecodeBase(t, n, b, o);
  }

  lemma DecodeText(s: seq<Byte>, b: seq<Byte>, o: nat)
    requires 0 !in s && o + |s| + 1 < |b|
    requires b[o] == CSTR_ID && b[o + 1..o + 1 + |s|] == s && b[o + 1 + |s|] == 0
    ensures Decode(b, o) == Ok(Item(Str(o + 1, |s|), o + |s| + 2))
  {
    NulAfter(s, b, o + 1);
  }

  lemma DecodePtr(t: Base, b: seq<Byte>, o: nat)
    requires o + 1 + t.Size() <= |b| && b[o] == PTR_MODIFIER + t.Id()
    ensures Decode(b, o) == Ok(Item(Ref(t, o + 1), o + 1 + t.Size()))
  {
    HeaderRoundTrip(t, 0);
  }

  lemma PrefixAt(e: seq<Byte>, b: seq<Byte>, o: nat)
    requires o <= |b| && e <= b[o..]
    ensures o + |e| <= |b| && forall i | 0 <= i < |e| :: b[o + i] == e[i]
  {
    assert forall i | 0 <= i < |e| :: b[o..][i] == e[i];
  }

  lemma SliceOf(e: seq<Byte>, b: seq<Byte>, o: nat, i: nat, j: nat)
    requires o <= |b| && e <= b[o..] && i <= j <= |e|
    ensures o + |e| <= |b| && b[o + i..o + j] == e[i..j]
  {
    PrefixAt(e, b, o);
  }

  lemma EncodedHeader(v: Value, b: seq<Byte>, o: nat)
    requires Wf(v) && o <= |b| && Encode(v) <= b[o..]
    ensures o + |Encode(v)| <= |b| && b[o] == Encode(v)[0]
  {
    PrefixAt(Encode(v), b, o);
  }

  // The codec is self-delimiting: wherever an encoding stands in a buffer, it decodes to
  // its value and leaves the decoder exactly behind it.
  lemma DecodeEncode(v: Value, b: seq<Byte>, o: nat)
    requires Wf(v) && o <= |b| && Encode(v) <= b[o..]
    ensures Decode(b, o) == Ok(Item(ArgAt(v, o), o + |Encode(v)|))
  {
    match v {
      case Text(_) => DecodeEncodedText(v, b, o);
      case Num(_, _) => DecodeEncodedNum(v, b, o);
      case Ptr(_, _) => DecodeEncodedPtr(v, b, o);
      case _ => DecodeEncodedHeader(v, b, o);
    }
  }

  lemma DecodeEncodedNum(v: Value, b: seq<Byte>, o: nat)
    requires v.Num? && Wf(v) && o <= |b| && Encode(v) <= b[o..]
    ensures Decode(b, o) == Ok(Item(ArgAt(v, o), o + |Encode(v)|))
  {
    var n, e := WireSize(v.t, v.bits), Encode(v);
    EncodedHeader(v, b, o);
    SliceOf(e, b, o, 1, 1 + n);
    assert e[1..1 + n] == v.bits[..n];
    DecodeNum(v.t, v.bits, b, o);
  }

  lemma DecodeEncodedText(v: Value, b: seq<Byte>, o: nat)
    requires v.Text? && Wf(v) && o <= |b| && Encode(v) <= b[o..]
    ensures Decode(b, o) == Ok(Item(ArgAt(v, o), o + |Encode(v)|))
  {
    var e, n := Encode(v), |v.s|;
    PrefixAt(e, b, o);
    SliceOf(e, b, o, 1, 1 + n);
    assert b[o] == e[0] && b[o + (1 + n)] == e[1 + n] == 0;
    DecodeText(v.s, b, o);
  }

  lemma DecodeEncodedPtr(v: Value, b: seq<Byte>, o: nat)
    requires v.Ptr? && Wf(v) && o <= |b| && Encode(v) <= b[o..]
    ensures Decode(b, o) == Ok(Item(ArgAt(v, o), o + |Encode(v)|))
  {
    EncodedHeader(v, b, o);
    DecodePtr(v.t, b, o);
  }

  // Values that consist of their header.
  lemma DecodeEncodedHeader(v: Value, b: seq<Byte>, o: nat)
    requires (v.Null? || v.Void? || v.Truth?) && o <= |b| && Encode(v) <= b[o..]
    ensures Decode(b, o) == Ok(Item(ArgAt(v, o), o + |Encode(v)|))
  {
    EncodedHeader(v, b, o);
  }

  lemma DecodeOneMore(b: seq<Byte>, o: nat, a: Arg, next: nat, rest: seq<Arg>)
    requires Decode(b, o) == Ok(Item(a, next)) && DecodeAll(b, next) == Ok(rest)
    ensures DecodeAll(b, o) == Ok([a] + rest)
  {
  }

  // The encodings stand in the buffer one behind the other, up to its end.
  ghost predicate Standing(vs: seq<Value>, b: seq<Byte>, o: nat)
    requires AllWf(vs)
  {
    if vs == [] then o == |b|
    else o <= |b| && Encode(vs[0]) <= b[o..] && Standing(vs[1..], b, o + |Encode(vs[0])|)
  }

  lemma {:induction false} EncodedStanding(vs: seq<Value>, b: seq<Byte>, o: nat)
    requires AllWf(vs) && o <= |b| && b[o..] == EncodeAll(vs)
    ensures Standing(vs, b, o)
  {
    if vs != [] {
      var n := |Encode(vs[0])|;
      assert b[o + n..] == b[o..][n..];
      EncodedStanding(vs[1..], b, o + n);
    }
  }

  lemma {:induction false} DecodeStanding(vs: seq<Value>, b: seq<Byte>, o: nat)
    requires AllWf(vs) && Standing(vs, b, o)
    ensures DecodeAll(b, o) == Ok(ArgsAt(vs, o))
    decreases |vs|
  {
    if vs != [] {
      var next := o + |Encode(vs[0])|;
      DecodeStanding(vs[1..], b, next);
      DecodeEncode(vs[0], b, o);
      DecodeOneMore(b, o, ArgAt(vs[0], o), next, ArgsAt(vs[1..], next));
    }
  }

  lemma DecodeEncodeAll(vs: seq<Value>, b: seq<Byte>, o: nat)
    requires AllWf(vs) && o <= |b| && b[o..] == EncodeAll(vs)
    ensures DecodeAll(b, o) == Ok(ArgsAt(vs, o))
  {
    EncodedStanding(vs, b, o);
    DecodeStanding(vs, b, o);
  }

  lemma CallLayout(name: seq<Byte>, args: seq<Value>)
    requires 0 !in name && AllWf(args)
    ensures var b, n := CallBytes(name, args), 2 + |name|;
            && n < |b| && b[0] == CALL_PACKET && b[1] == CSTR_ID && b[2..n] == name
            && NulFrom(b, 2) == n && b[n + 1..] == EncodeAll(args)
  {
    var b := CallBytes(name, args);
    assert b == [CALL_PACKET] + ([CSTR_ID] + name + [0]) + EncodeAll(args);
    assert b[2..2 + |name|] == name && b[2 + |name|] == 0;
    NulAfter(name, b, 2);
  }

  lemma DecodeHead(b: seq<Byte>, n: nat, args: seq<Arg>)
    requires 2 <= n < |b| && b[0] == CALL_PACKET && b[1] == CSTR_ID && NulFrom(b, 2) == n
    requires DecodeAll(b, n + 1) == Ok(args)
    ensures DecodeCall(b) == Ok(Call(b[2..n], args))
  {
  }

  lemma DecodeCallBytes(name: seq<Byte>, args: seq<Value>)
    requires 0 !in name && AllWf(args)
    ensures DecodeCall(CallBytes(name, args)) == Ok(Call(name, ArgsAt(args, 3 + |name|)))
  {
    var b := CallBytes(name, args);
    CallLayout(name, args);
    DecodeEncodeAll(args, b, 3 + |name|);
    DecodeHead(b, 2 + |name|, ArgsAt(args, 3 + |name|));
  }

  // ---- the wire format in numbers ----

  // Type codes and sizes, for U8, U16, U32, U64, I8, I16, I32, I64, Bool, F64, F32.
  lemma TypeCodes()
    ensures [U8.Id(), U16.Id(), U32.Id(), U64.Id()] == [1, 2, 3, 4]
    ensures [I8.Id(), I16.Id(), I32.Id(), I64.Id()] == [5, 6, 7, 8]
    ensures [Bool.Id(), F64.Id(), F32.Id()] == [11, 13, 15]
    ensures [U8.Size(), I8.Size(), Bool.Size(), U16.Size(), I16.Size()] == [1, 1, 1, 2, 2]
    ensures [U32.Size(), I32.Size(), F32.Size(), U64.Size(), I64.Size(), F64.Size()] == [4, 4, 4, 8, 8, 8]
  {
  }

  // A scalar of which only the first n bytes have to be sent.
  lemma ScalarBytes(t: Base, bits: seq<Byte>, n: nat)
    requires t != Bool && |bits| == t.Size() && n <= |bits|
    requires (forall i | n <= i < |bits| :: bits[i] == 0) && (n > 0 ==> bits[n - 1] != 0)
    requires t.IsFloat() ==> bits[|bits| - 1] != 0x80
    ensures Encode(Num(t, bits)) == [16 * n + t.Id()] + bits[..n]
  {
    SignLost(t, bits);
    WireSizeIs(t, bits, n);
  }

  lemma OtherBytes(s: seq<Byte>, t: Base, cell: seq<Byte>)
    requires 0 !in s && |cell| == t.Size()
    ensures Encode(Null) == [0x00] && Encode(Void) == [0x09]
    ensures Encode(Truth(false)) == [0x0B] && Encode(Truth(true)) == [0x1B]
    ensures Encode(Text(s)) == [0x0C] + s + [0] && Encode(Ptr(t, cell)) == [0xA0 + t.Id()] + cell
  {
  }

  // A call packet: the values stand behind the name in the order of the arguments.
  lemma PacketBytes(name: seq<Byte>, x: Value, y: Value)
    requires 0 !in name && Wf(x) && Wf(y)
    ensures CallBytes(name, [x, y]) == [0x3E, 0x0C] + name + [0] + Encode(x) + Encode(y)
  {
    assert [x, y][1..] == [y] && [y][1..] == [];
    assert EncodeAll([y]) == Encode(y) + [] == Encode(y);
    assert [0x3E] + ([0x0C] + name + [0]) == [0x3E, 0x0C] + name + [0];
  }

  // ---- malformed packets ----

  // The types no value can have, and no pointee.
  predicate UnknownType(h: Byte) {
    if h < 0xA0 then h % 16 in [0x0A, 0x0E] else h >= 0xB0 || h in [0xA0, 0xA9, 0xAA, 0xAC, 0xAE]
  }

  // A value is rejected for its type, or because bytes are missing: its header, the NUL of
  // a string, bytes of a scalar or of a pointee.
  lemma RejectedValue(b: seq<Byte>, o: nat)
    ensures o >= |b| ==> Decode(b, o) == Err(BadPacketAccess)
    ensures o < |b| ==> (Decode(b, o) == Err(ParamTypeInvalid) <==> UnknownType(b[o]))
    ensures o < |b| && b[o] < 0xA0 && b[o] % 16 == 0x0C ==>
              (Decode(b, o) == Err(BadPacketAccess) <==> 0 !in b[o + 1..])
    ensures o < |b| && Decode(b, o).Err? ==> Decode(b, o).error in [ParamTypeInvalid, BadPacketAccess, WireTooWide]
  {
    if o < |b| && b[o] < 0xA0 && b[o] % 16 == 0x0C {
      FirstNul(b, o + 1);
    }
  }

  lemma FirstNul(b: seq<Byte>, o: nat)
    requires o <= |b|
    ensures NulFrom(b, o) == |b| <==> 0 !in b[o..]
  {
    var n := NulFrom(b, o);
    if n < |b| {
      assert b[o..][n - o] == 0;
    }
  }

  // A scalar may come with more bytes than it needs; those not sent are zero.
  lemma ScalarRead(b: seq<Byte>, o: nat, t: Base, n: nat)
    requires t != Bool && n <= t.Size() && o < |b| && b[o] == 16 * n + t.Id()
    ensures if o + 1 + n > |b| then Decode(b, o) == Err(BadPacketAccess)
            else
              var r := Decode(b, o);
              && r.Ok? && r.value.next == o + 1 + n && r.value.arg.Imm? && r.value.arg.v.Num? && r.value.arg.v.t == t
              && var bits := r.value.arg.v.bits;
                 |bits| == t.Size() && forall i | 0 <= i < |bits| :: bits[i] == if i < n then b[o + 1 + i] else 0
  {
    HeaderRoundTrip(t, n);
  }

  // So may the values that need none: what counts for a bool is whether there are any.
  lemma HeaderRead(b: seq<Byte>, o: nat)
    requires o < |b| && b[o] < 0xA0
    ensures b[o] % 16 == 0 ==> Decode(b, o) == Ok(Item(Imm(Null), o + 1))
    ensures b[o] % 16 == 9 ==> Decode(b, o) == Ok(Item(Imm(Void), o + 1))
    ensures b[o] % 16 == 11 ==> Decode(b, o) == Ok(Item(Imm(Truth(b[o] >= 16)), o + 1))
  {
  }

  // A buffer that is no call packet, or one without a function's name.
  lemma RejectedCall(b: seq<Byte>)
    ensures DecodeCall(b) == Err(BadPacket) <==> b != [] && b[0] != 0x3E
    ensures DecodeCall(b) == Err(FuncNameMissing)
            <==> |b| > 1 && b[0] == 0x3E && !(b[1] < 0xA0 && b[1] % 16 == 0x0C)
    ensures b == [] || b == [0x3E] ==> DecodeCall(b) == Err(BadPacketAccess)
    ensures |b| > 1 && b[0] == 0x3E && b[1] == 0x0C && 0 !in b[2..] ==> DecodeCall(b) == Err(BadPacketAccess)
  {
    if |b| > 1 {
      FirstNul(b, 2);
      if DecodeAll(b, NulFrom(b, 2)).Err? || NulFrom(b, 2) < |b| {
        RejectedArgs(b, if NulFrom(b, 2) < |b| then NulFrom(b, 2) + 1 else |b|);
      }
    }
  }

  lemma {:induction false} RejectedArgs(b: seq<Byte>, o: nat)
    ensures var r := DecodeAll(b, o); r.Err? ==> r.error in [ParamTypeInvalid, BadPacketAccess, WireTooWide]
    decreases |b| - o
  {
    if o < |b| {
      RejectedValue(b, o);
      if Decode(b, o).Ok? {
        RejectedArgs(b, Decode(b, o).value.next);
      }
    }
  }
}
