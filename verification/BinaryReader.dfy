// Reading values from a packet buffer. Every read moves the offset; a read past the end
// of the buffer throws.
module BinaryReaders {
  import opened Bytes
  import opened Results
  import opened Codec
  import opened Packets
  import opened Pointers
  import opened Rpc
  import opened Formatter
  import opened BinaryWriters

  class BinaryReader {
    const buffer: Buffer
    var offset: nat

    constructor (buffer: Buffer)
      ensures this.buffer == buffer && offset == 0
    {
      this.buffer := buffer;
      offset := 0;
    }

    ghost function Data(): seq<Byte>
      requires buffer.Valid()
      reads buffer, buffer.mem
    {
      buffer.Contents()
    }

    method HasMore() returns (b: bool)
      ensures b <==> offset < buffer.size
    {
      b := offset < buffer.size;
    }

    method ReadByte() returns (r: Result<Byte, Error>)
      requires buffer.Valid()
      modifies this`offset
      ensures if old(offset) < |Data()| then r == Ok(Data()[old(offset)]) && offset == old(offset) + 1
              else r == Err(BadPacketAccess)
    {
      if offset + 1 > buffer.size {
        return Err(BadPacketAccess);
      }
      r := Ok(buffer.mem[buffer.data + offset]);
      offset := offset + 1;
    }

    // A header byte: the type, and the number of bytes on the wire or in the pointee.
    method ReadType() returns (r: Result<(Byte, nat), Error>)
      requires buffer.Valid()
      modifies this`offset
      ensures if old(offset) < |Data()| then
                var h := Data()[old(offset)];
                r == Ok((HeaderType(h), HeaderModifier(h))) && offset == old(offset) + 1
              else r == Err(BadPacketAccess)
    {
      var h := ReadByte();
      r := match h case Ok(x) => Ok((HeaderType(x), HeaderModifier(x))) case Err(e) => Err(e);
    }

    // Fills the low bytes of a value that starts out as zero. More bytes than the value
    // has are undefined behaviour in the program.
    method ReadScalar(t: Base, n: nat) returns (r: Result<seq<Byte>, Error>)
      requires buffer.Valid() && offset <= |Data()|
      modifies this`offset
      ensures r == DecodeScalar(Data(), old(offset), t, n)
      ensures r.Ok? ==> offset == old(offset) + n
    {
      if n > t.Size() {
        return Err(WireTooWide);
      }
      var value := Zeros(t.Size());
      var i := 0;
      while i < n
        invariant i <= n && offset == old(offset) + i <= |Data()|
        invariant |value| == t.Size()
        invariant forall j | 0 <= j < i :: value[j] == Data()[old(offset) + j]
        invariant forall j | i <= j < |value| :: value[j] == 0
      {
        var x := ReadByte();
        match x {
          case Err(e) => return Err(e);
          case Ok(v) => value := value[i := v];
        }
        i := i + 1;
      }
      assert value == Data()[old(offset)..offset] + Zeros(t.Size() - n);
      r := Ok(value);
    }

    // A string stays in the buffer; the reader goes on behind its NUL.
    method ReadCstr() returns (r: Result<Arg, Error>)
      requires buffer.Valid() && offset <= |Data()|
      modifies this`offset
      ensures var n := NulFrom(Data(), old(offset));
              if n == |Data()| then r == Err(BadPacketAccess)
              else r == Ok(Str(old(offset), n - old(offset))) && offset == n + 1
    {
      var start := offset;
      while true
        invariant start <= offset <= |Data()|
        invariant forall i | start <= i < offset :: Data()[i] != 0
        decreases |Data()| - offset
      {
        var x := ReadByte();
        match x {
          case Err(e) => return Err(e);
          case Ok(v) =>
            if v == 0 {
              return Ok(Str(start, offset - 1 - start));
            }
        }
      }
    }

    // A pointer into the packet.
    method ReadPtr(t: Base) returns (r: Result<Arg, Error>)
      requires buffer.Valid()
      modifies this`offset
      ensures if old(offset) + t.Size() > |Data()| then r == Err(BadPacketAccess)
              else r == Ok(Ref(t, old(offset))) && offset == old(offset) + t.Size()
    {
      var ok, at := buffer.Access(offset, t.Size());
      if !ok {
        return Err(BadPacketAccess);
      }
      r := Ok(Ref(t, offset));
      offset := offset + t.Size();
    }

    method ReadTypedValue() returns (r: Result<Arg, Error>)
      requires buffer.Valid()
      modifies this`offset
      ensures match Decode(Data(), old(offset))
              case Ok(item) => r == Ok(item.arg) && offset == item.next
              case Err(e) => r == Err(e)
    {
      var header := ReadType();
      if header.Err? {
        return Err(header.error);
      }
      var (id, m) := header.value;
      if id == NULL_ID {
        r := Ok(Imm(Null));
      } else if id == VOID_ID {
        r := Ok(Imm(Void));
      } else if id == BOOL_ID {
        r := Ok(Imm(Truth(m != 0)));
      } else if id == CSTR_ID {
        r := ReadCstr();
      } else if BaseOf(id).Some? {
        var t := BaseOf(id).value;
        var bits := ReadScalar(t, m);
        r := match bits case Ok(s) => Ok(Imm(Num(t, s))) case Err(e) => Err(e);
      } else if PointeeOf(id).Some? {
        r := ReadPtr(PointeeOf(id).value);
      } else {
        r := Err(ParamTypeInvalid);
      }
    }

    method ReadCall() returns (r: Result<Call, Error>)
      requires buffer.Valid() && offset == 0
      modifies this`offset
      ensures r == DecodeCall(Data())
    {
      var kind := ReadByte();
      if kind.Err? {
        return Err(kind.error);
      }
      if kind.value != CALL_PACKET {
        return Err(BadPacket);
      }
      var header := ReadType();
      if header.Err? {
        return Err(header.error);
      }
      if header.value.0 != CSTR_ID {
        return Err(FuncNameMissing);
      }
      var start := offset;
      var text := ReadCstr();
      if text.Err? {
        return Err(text.error);
      }
      var name := buffer.Read(start, offset - start - 1);
      var args := ReadArgs();
      r := match args case Ok(s) => Ok(Call(name, s)) case Err(e) => Err(e);
    }

    method ReadArgs() returns (r: Result<seq<Arg>, Error>)
      requires buffer.Valid()
      modifies this`offset
      ensures r == DecodeAll(Data(), old(offset))
    {
      var args := [];
      Nothing(DecodeAll(Data(), offset));
      var more := HasMore();
      while more
        invariant more <==> offset < |Data()|
        invariant DecodeAll(Data(), old(offset)) == After(args, DecodeAll(Data(), offset))
        decreases |Data()| - offset
      {
        OneDecoded(Data(), offset, args);
        var arg := ReadTypedValue();
        match arg {
          case Err(e) => return Err(e);
          case Ok(a) => args := args + [a];
        }
        more := HasMore();
      }
      assert args + [] == args;
      r := Ok(args);
    }

    // ---- logging: the same bytes again, made into text ----

    // One value. Pointers are printed like scalars.
    method FormatValue() returns (e: Option<Error>)
      requires buffer.Valid()
      modifies this`offset
      ensures match PastValue(Data(), old(offset))
              case Ok(next) => e == None && offset == next
              case Err(x) => e == Some(x)
    {
      var header := ReadType();
      if header.Err? {
        return Some(header.error);
      }
      var (id, m) := header.value;
      var base := if id < PTR_MODIFIER then id else if id < PTR_MODIFIER + 16 then id - PTR_MODIFIER else 0xFF;
      if base == CSTR_ID {
        var text := ReadCstr();
        e := if text.Ok? then None else Some(text.error);
      } else if id != BOOL_ID && BaseOf(base).Some? {
        var t := if base == BOOL_ID then I64 else BaseOf(base).value;
        var bits := ReadScalar(t, m);
        e := if bits.Ok? then None else Some(bits.error);
      } else {
        e := None;
      }
    }

    method FormatRest() returns (e: Option<Error>)
      requires buffer.Valid() && offset <= |Data()|
      modifies this`offset
      ensures e == LogRest(Data(), old(offset)) && (e == None ==> offset == |Data()|)
    {
      e := None;
      var more := HasMore();
      while more && e == None
        invariant e == None ==> offset <= |Data()| && (more <==> offset < |Data()|)
        invariant LogRest(Data(), old(offset)) == if e == None then LogRest(Data(), offset) else e
        decreases e == None, |Data()| - offset
      {
        e := FormatValue();
        more := HasMore();
      }
    }

    // The whole packet, as it is logged.
    method ToString() returns (e: Option<Error>)
      requires buffer.Valid() && offset == 0
      modifies this`offset
      ensures e == Logged(Data())
    {
      e := None;
      if buffer.size > 0 {
        var kind := ReadByte();
        if kind == Ok(CALL_PACKET) {
          e := FormatCall();
        } else if kind == Ok(RESULT_PACKET) {
          e := FormatValue();
          if e == None {
            e := FormatRest();
          }
        }
      }
    }

    method FormatCall() returns (e: Option<Error>)
      requires buffer.Valid() && offset == 1 <= |Data()| && Data()[0] == CALL_PACKET
      modifies this`offset
      ensures e == Logged(Data())
    {
      var header := ReadType();
      if header.Err? {
        return Some(header.error);
      }
      e := None;
      if header.value.0 == CSTR_ID {
        var text := ReadCstr();
        if text.Err? {
          return Some(text.error);
        }
      }
      e := FormatRest();
    }

    // The result of a call, and the pointees for the caller's pointers in order.
    method ReadResult(args: seq<CallerArg>) returns (r: Result<Value, Error>)
      requires buffer.Valid() && offset == 0 && AllSound(args)
      requires Separate(args) && buffer.mem !in Cells(args)
      modifies this`offset, Cells(args)
      ensures match Rpc.ReadResult(Data(), old(CurrentAll(args)))
              case Returned(result, after) => r == Ok(result) && CurrentAll(args) == after
              case Threw(e, _) => r == Err(e)
      ensures r.Ok? ==> offset == Decode(Data(), 1).value.next + OutSize(old(CurrentAll(args)))
    {
      ghost var b, vs := Data(), CurrentAll(args);
      var kind := ReadByte();
      if kind.Err? {
        return Err(kind.error);
      }
      if kind.value != RESULT_PACKET {
        return Err(BadPacket);
      }
      var value := ReadTypedValue();
      if value.Err? {
        return Err(value.error);
      }
      var outs := ReadOutParams(args);
      if outs.Err? {
        return Err(outs.error);
      }
      r := Immediate(value.value);
    }

    // A result that is a string or pointer stays in the buffer.
    method Immediate(a: Arg) returns (r: Result<Value, Error>)
      requires buffer.Valid()
      ensures r == if InBuffer(a, Data()) then Ok(Deref(Data(), a)) else Err(BadPacketAccess)
    {
      if a.Imm? {
        return Ok(a.v);
      }
      var ok, at := buffer.Access(Start(a), End(a) - Start(a));
      if !ok {
        return Err(BadPacketAccess);
      }
      var s := buffer.mem[at..at + End(a) - Start(a)];
      r := Ok(if a.Str? then Text(s) else Ptr(a.t, s));
    }

    // One pointee: its type must be the pointer's, its bytes are copied one by one.
    method ReadOutParam(t: Base, cell: array<Byte>) returns (r: Result<(), Error>)
      requires buffer.Valid() && cell.Length == t.Size() && cell != buffer.mem
      modifies this`offset, cell
      ensures match OutParam(Data(), old(offset), t)
              case Ok(s) => r == Ok(()) && cell[..] == s && offset == old(offset) + 1 + t.Size()
              case Err(e) => r == Err(e)
    {
      var header := ReadType();
      if header.Err? {
        return Err(header.error);
      }
      if header.value.0 != PTR_MODIFIER + t.Id() {
        return Err(OutparamTypeMismatch);
      }
      var i := 0;
      while i < cell.Length
        invariant i <= cell.Length && offset == old(offset) + 1 + i <= |Data()| && Data() == old(Data())
        invariant forall j | 0 <= j < i :: cell[j] == Data()[old(offset) + 1 + j]
      {
        var x := ReadByte();
        match x {
          case Err(e) => return Err(e);
          case Ok(v) => cell[i] := v;
        }
        i := i + 1;
      }
      r := Ok(());
    }

    // Argument i takes its pointee; the other arguments are left alone.
    method ReadOutParamAt(args: seq<CallerArg>, i: nat) returns (r: Result<(), Error>)
      requires buffer.Valid() && AllSound(args) && Separate(args) && i < |args| && args[i].ByPointer?
      requires args[i].cell != buffer.mem
      modifies this`offset, args[i].cell
      ensures match OutParam(Data(), old(offset), args[i].t)
              case Ok(s) =>
                && r == Ok(()) && args[i].Current() == Ptr(args[i].t, s)
                && offset == old(offset) + 1 + args[i].t.Size()
              case Err(e) => r == Err(e)
      ensures forall j | 0 <= j < |args| && j != i :: args[j].Current() == old(args[j].Current())
    {
      r := ReadOutParam(args[i].t, args[i].cell);
      assert forall j | 0 <= j < |args| && j != i && args[j].ByPointer? :: args[j].cell != args[i].cell;
    }

    method ReadOutParams(args: seq<CallerArg>) returns (r: Result<(), Error>)
      requires buffer.Valid() && AllSound(args) && Separate(args) && buffer.mem !in Cells(args)
      modifies this`offset, Cells(args)
      ensures match ReadOut(Data(), old(offset), old(CurrentAll(args)))
              case Ok(after) => r == Ok(()) && CurrentAll(args) == after
              case Err(e) => r == Err(e)
      ensures r.Ok? ==> offset == old(offset) + OutSize(old(CurrentAll(args)))
    {
      ghost var vs := CurrentAll(args);
      assert vs[0..] == vs && forall after: seq<Value> :: vs[..0] + after == after;
      r := ReadOutParamsFrom(args, 0);
    }

    // The arguments from number i on, one after the other.
    method ReadOutParamsFrom(args: seq<CallerArg>, i: nat) returns (r: Result<(), Error>)
      requires buffer.Valid() && AllSound(args) && Separate(args) && buffer.mem !in Cells(args) && i <= |args|
      modifies this`offset, Cells(args)
      ensures match ReadOut(Data(), old(offset), old(CurrentAll(args))[i..])
              case Ok(after) => r == Ok(()) && CurrentAll(args) == old(CurrentAll(args))[..i] + after
              case Err(e) => r == Err(e)
      ensures r.Ok? ==> offset == old(offset) + OutSize(old(CurrentAll(args))[i..])
      decreases |args| - i
    {
      ghost var vs := CurrentAll(args);
      if i == |args| {
        r := Ok(());
        assert vs[..i] + [] == vs;
      } else {
        OneOut(Data(), offset, vs, i);
        r := ReadOutArg(args, i);
        if r.Ok? {
          Replaced(vs, i, CurrentAll(args)[i]);
          r := ReadOutParamsFrom(args, i + 1);
        }
      }
    }

    // Argument i takes its pointee if it is a pointer; the others are left alone.
    method ReadOutArg(args: seq<CallerArg>, i: nat) returns (r: Result<(), Error>)
      requires buffer.Valid() && AllSound(args) && Separate(args) && buffer.mem !in Cells(args) && i < |args|
      modifies this`offset, Cells(args)
      ensures match OneOutParam(Data(), old(offset), old(CurrentAll(args))[i])
              case Ok((v, next)) =>
                r == Ok(()) && CurrentAll(args) == old(CurrentAll(args))[i := v] && offset == next
              case Err(e) => r == Err(e)
    {
      ghost var vs := CurrentAll(args);
      r := Ok(());
      if args[i].ByPointer? {
        assert args[i].cell in Cells(args);
        r := ReadOutParamAt(args, i);
        assert r.Ok? ==> CurrentAll(args) == vs[i := args[i].Current()];
      } else {
        assert vs[i := vs[i]] == vs;
      }
    }
  }

  lemma Replaced(vs: seq<Value>, i: nat, v: Value)
    requires i < |vs|
    ensures vs[i := v][i + 1..] == vs[i + 1..]
    ensures forall rest: seq<Value> :: vs[i := v][..i + 1] + rest == vs[..i] + ([v] + rest)
  {
    assert vs[i := v][..i + 1] == vs[..i] + [v];
  }

  // What becomes of an argument when the reply is read from index o on.
  function OneOutParam(b: seq<Byte>, o: nat, v: Value): Result<(Value, nat), Error> {
    if !v.Ptr? then Ok((v, o))
    else match OutParam(b, o, v.t)
      case Err(e) => Err(e)
      case Ok(s) => Ok((Ptr(v.t, s), o + 1 + v.t.Size()))
  }

  lemma OneOut(b: seq<Byte>, o: nat, vs: seq<Value>, i: nat)
    requires i < |vs|
    ensures ReadOut(b, o, vs[i..]) == match OneOutParam(b, o, vs[i]) {
              case Err(e) => Err(e)
              case Ok((v, next)) =>
                match ReadOut(b, next, vs[i + 1..])
                case Ok(rest) => Ok([v] + rest)
                case Err(e) => Err(e)
            }
    ensures match OneOutParam(b, o, vs[i])
            case Err(_) => true
            case Ok((_, next)) => o + OutSize(vs[i..]) == next + OutSize(vs[i + 1..])
  {
    assert vs[i..][0] == vs[i] && vs[i..][1..] == vs[i + 1..];
  }

  // The memory behind different pointer arguments is different.
  ghost predicate Separate(args: seq<CallerArg>) {
    forall i, j | 0 <= i < j < |args| && args[i].ByPointer? && args[j].ByPointer? :: args[i].cell != args[j].cell
  }

  // The outcome of decoding when `args` have been decoded and the rest comes to r.
  ghost function After(args: seq<Arg>, r: Result<seq<Arg>, Error>): Result<seq<Arg>, Error> {
    match r
    case Ok(rest) => Ok(args + rest)
    case Err(e) => Err(e)
  }

  lemma Nothing(r: Result<seq<Arg>, Error>)
    ensures After([], r) == r
  {
    assert r.Ok? ==> [] + r.value == r.value;
  }

  lemma OneDecoded(b: seq<Byte>, o: nat, args: seq<Arg>)
    requires o < |b|
    ensures match Decode(b, o)
            case Ok(item) => After(args, DecodeAll(b, o)) == After(args + [item.arg], DecodeAll(b, item.next))
            case Err(e) => After(args, DecodeAll(b, o)) == Err(e)
  {
    match Decode(b, o) {
      case Err(_) =>
      case Ok(item) =>
        var rest := DecodeAll(b, item.next);
        assert rest.Ok? ==> args + ([item.arg] + rest.value) == args + [item.arg] + rest.value;
    }
  }
}
