// Writing values into a packet buffer, byte by byte. A write that finds the buffer full
// throws; what was written before it stays.
module BinaryWriters {
  import opened Bytes
  import opened Codec
  import opened Packets
  import opened Pointers
  import opened Rpc

  // A buffer of n bytes after s was appended as far as it fits.
  function Clip(s: seq<Byte>, n: nat): seq<Byte> {
    if |s| <= n then s else s[..n]
  }

  lemma ClipTwice(s: seq<Byte>, a: seq<Byte>, b: seq<Byte>, n: nat)
    ensures |s + a| <= n ==> Clip(Clip(s + a, n) + b, n) == Clip(s + (a + b), n)
    ensures |s + a| > n ==> Clip(s + a, n) == Clip(s + (a + b), n) && |s + (a + b)| > n
  {
    assert s + a + b == s + (a + b);
  }

  // An argument in the caller's memory: a value, or a pointer to one.
  datatype CallerArg = ByValue(v: Value) | ByPointer(t: Base, cell: array<Byte>)
  {
    function Current(): Value
      reads if ByPointer? then {cell} else {}
    {
      if ByValue? then v else Ptr(t, cell[..])
    }

    // A value that is no pointer, or memory of the right size.
    predicate Sound() {
      if ByValue? then Wf(v) && !v.Ptr? else cell.Length == t.Size()
    }
  }

  ghost function Cells(args: seq<CallerArg>): set<object> {
    set a | a in args && a.ByPointer? :: a.cell
  }

  predicate AllSound(args: seq<CallerArg>) {
    forall i | 0 <= i < |args| :: args[i].Sound()
  }

  ghost function CurrentAll(args: seq<CallerArg>): (vs: seq<Value>)
    requires AllSound(args)
    reads Cells(args)
    ensures |vs| == |args| && AllWf(vs) && forall i | 0 <= i < |args| :: vs[i] == args[i].Current()
  {
    if args == [] then [] else [args[0].Current()] + CurrentAll(args[1..])
  }

  lemma {:induction false} EncodeConcat(vs: seq<Value>, ws: seq<Value>)
    requires AllWf(vs) && AllWf(ws)
    ensures EncodeAll(vs + ws) == EncodeAll(vs) + EncodeAll(ws)
  {
    if vs == [] {
      assert [] + ws == ws;
    } else {
      assert (vs + ws)[1..] == vs[1..] + ws;
      EncodeConcat(vs[1..], ws);
    }
  }

  // Appending value k to a clipped list of values.
  lemma ClipOneMore(s: seq<Byte>, vs: seq<Value>, k: nat, n: nat)
    requires AllWf(vs) && k < |vs| && |s + EncodeAll(vs[..k])| <= n
    ensures var e, more := Encode(vs[k]), EncodeAll(vs[..k + 1]);
            && Clip(Clip(s + EncodeAll(vs[..k]), n) + e, n) == Clip(s + more, n)
            && |s + EncodeAll(vs[..k])| + |e| == |s + more|
            && (|s + more| > n ==> Clip(s + more, n) == Clip(s + EncodeAll(vs), n) && |s + EncodeAll(vs)| > n)
  {
    assert vs[..k + 1] == vs[..k] + [vs[k]] && EncodeAll([vs[k]]) == Encode(vs[k]);
    EncodeConcat(vs[..k], [vs[k]]);
    ClipTwice(s, EncodeAll(vs[..k]), Encode(vs[k]), n);
    assert vs == vs[..k + 1] + vs[k + 1..];
    EncodeConcat(vs[..k + 1], vs[k + 1..]);
    ClipTwice(s, EncodeAll(vs[..k + 1]), EncodeAll(vs[k + 1..]), n);
  }

  lemma {:induction false} PtrsConcat(vs: seq<Value>, ws: seq<Value>)
    ensures PtrsOf(vs + ws) == PtrsOf(vs) + PtrsOf(ws)
  {
    if vs == [] {
      assert [] + ws == ws;
    } else {
      assert (vs + ws)[1..] == vs[1..] + ws;
      PtrsConcat(vs[1..], ws);
    }
  }

  ghost function PtrBytes(vs: seq<Value>): seq<Byte>
    requires CellsFit(vs)
  {
    EncodeAll(PtrsOf(vs))
  }

  lemma PtrBytesConcat(vs: seq<Value>, ws: seq<Value>)
    requires CellsFit(vs) && CellsFit(ws)
    ensures CellsFit(vs + ws) && PtrBytes(vs + ws) == PtrBytes(vs) + PtrBytes(ws)
  {
    PtrsConcat(vs, ws);
    EncodeConcat(PtrsOf(vs), PtrsOf(ws));
  }

  // Going past value k of a list whose pointers are being written.
  lemma NextPointer(vs: seq<Value>, k: nat)
    requires k < |vs| && CellsFit(vs)
    ensures CellsFit(vs[..k]) && CellsFit(vs[..k + 1]) && CellsFit(vs[k + 1..])
    ensures if vs[k].Ptr? then PtrBytes(vs[..k + 1]) == PtrBytes(vs[..k]) + Encode(vs[k])
            else PtrBytes(vs[..k + 1]) == PtrBytes(vs[..k])
    ensures PtrBytes(vs) == PtrBytes(vs[..k + 1]) + PtrBytes(vs[k + 1..])
  {
    assert vs[..k + 1] == vs[..k] + [vs[k]] && vs == vs[..k + 1] + vs[k + 1..];
    PtrBytesConcat(vs[..k], [vs[k]]);
    PtrBytesConcat(vs[..k + 1], vs[k + 1..]);
    assert PtrsOf([vs[k]]) == if vs[k].Ptr? then [vs[k]] else [];
    assert EncodeAll([vs[k]][1..]) == [];
    assert PtrBytes(vs[..k]) + [] == PtrBytes(vs[..k]);
  }

  // The bytes with the first k of them set to zero.
  ghost function Cleared(bits: seq<Byte>, k: nat): (r: seq<Byte>)
    requires k <= |bits|
    ensures |r| == |bits| && forall i | 0 <= i < |r| :: r[i] == if i < k then 0 else bits[i]
  {
    Zeros(k) + bits[k..]
  }

  lemma ZeroOfCleared(t: Base, bits: seq<Byte>, k: nat)
    requires |bits| == t.Size() && k <= |bits|
    ensures ZeroFrom(t, Cleared(bits, k), 0) <==> ZeroFrom(t, bits, k)
  {
    var v := Cleared(bits, k);
    assert forall i | k <= i < |bits| :: bits[i] == v[i];
  }

  // The first k bytes of the copy have been cleared, and each was needed.
  ghost predicate Counted(t: Base, bits: seq<Byte>, value: seq<Byte>, k: nat)
    requires |bits| == t.Size()
  {
    k <= |bits| && value == Cleared(bits, k) && forall i | 0 <= i < k :: !ZeroFrom(t, bits, i)
  }

  lemma StartCounting(t: Base, bits: seq<Byte>)
    requires |bits| == t.Size()
    ensures Counted(t, bits, bits, 0)
  {
  }

  lemma CountOneMore(t: Base, bits: seq<Byte>, value: seq<Byte>, k: nat)
    requires |bits| == t.Size() && Counted(t, bits, value, k) && k < |bits| && !ZeroFrom(t, value, 0)
    ensures Counted(t, bits, value[k := 0], k + 1)
  {
    ZeroOfCleared(t, bits, k);
    assert value[k := 0] == Cleared(bits, k + 1);
  }

  lemma AllCounted(t: Base, bits: seq<Byte>, value: seq<Byte>, k: nat)
    requires |bits| == t.Size() && Counted(t, bits, value, k) && (k == |bits| || ZeroFrom(t, value, 0))
    ensures k == WireSize(t, bits)
  {
    ZeroOfCleared(t, bits, k);
  }

  // Scalars travel without the bytes that are zero from some point on: the loop clears the
  // bytes of a copy one by one until it compares equal to zero.
  method CountBytes(t: Base, bits: seq<Byte>) returns (wireSize: nat)
    requires |bits| == t.Size()
    ensures wireSize <= t.Size() && wireSize == WireSize(t, bits)
  {
    var value := bits;
    wireSize := 0;
    StartCounting(t, bits);
    while wireSize < |bits| && !ZeroFrom(t, value, 0)
      invariant |value| == t.Size() && wireSize <= |bits| && Counted(t, bits, value, wireSize)
    {
      CountOneMore(t, bits, value, wireSize);
      value := value[wireSize := 0];
      wireSize := wireSize + 1;
    }
    AllCounted(t, bits, value, wireSize);
  }

  class BinaryWriter {
    const buffer: Buffer

    constructor (buffer: Buffer)
      ensures this.buffer == buffer
    {
      this.buffer := buffer;
    }

    ghost predicate Ready()
      reads buffer
    {
      buffer.MayGrowRight()
    }

    ghost function Written(): seq<Byte>
      requires Ready()
      reads buffer, buffer.mem
    {
      buffer.Contents()
    }

    // The buffer took e, or as much of it as fitted.
    twostate predicate Took(e: seq<Byte>, ok: bool)
      reads buffer, buffer.mem
    {
      && old(Ready()) && Ready()
      && buffer.data == old(buffer.data) && buffer.capacity == old(buffer.capacity)
      && Written() == Clip(old(Written()) + e, buffer.capacity)
      && (ok <==> |old(Written())| + |e| <= buffer.capacity)
    }

    method Put(x: Byte) returns (ok: bool)
      requires Ready()
      modifies buffer`size, buffer.mem
      ensures Took([x], ok)
    {
      var at;
      ok, at := buffer.GrowRight(1);
      if ok {
        buffer.mem[at] := x;
      }
    }

    method PutAll(s: seq<Byte>) returns (ok: bool)
      requires Ready()
      modifies buffer`size, buffer.mem
      ensures Took(s, ok)
    {
      ok := true;
      var i := 0;
      while i < |s| && ok
        invariant i <= |s| && buffer.data == old(buffer.data) && buffer.capacity == old(buffer.capacity)
        invariant if ok then Took(s[..i], true) else Took(s, false)
        decreases |s| - i, ok
      {
        label before:
        ok := Put(s[i]);
        ClipTwice(old(Written()), s[..i], [s[i]], buffer.capacity);
        assert s[..i] + [s[i]] == s[..i + 1];
        ClipTwice(old(Written()), s[..i + 1], s[i + 1..], buffer.capacity);
        assert s[..i + 1] + s[i + 1..] == s;
        if ok {
          i := i + 1;
        }
      }
      assert s[..|s|] == s;
    }

    // A header byte and the bytes that go with it.
    method PutWithHeader(h: Byte, s: seq<Byte>) returns (ok: bool)
      requires Ready()
      modifies buffer`size, buffer.mem
      ensures Took([h] + s, ok)
    {
      ClipTwice(old(Written()), [h], s, buffer.capacity);
      ok := Put(h);
      if ok {
        ok := PutAll(s);
      }
    }

    method WriteScalar(t: Base, bits: seq<Byte>) returns (ok: bool)
      requires Ready() && t != Bool && |bits| == t.Size()
      modifies buffer`size, buffer.mem
      ensures Took(Encode(Num(t, bits)), ok)
    {
      var wireSize := CountBytes(t, bits);
      assert Encode(Num(t, bits)) == [16 * wireSize + t.Id()] + bits[..wireSize];
      ok := PutWithHeader(16 * wireSize + t.Id(), bits[..wireSize]);
    }

    method WritePointer(t: Base, cell: seq<Byte>) returns (ok: bool)
      requires Ready() && |cell| == t.Size()
      modifies buffer`size, buffer.mem
      ensures Took(Encode(Ptr(t, cell)), ok)
    {
      assert Encode(Ptr(t, cell)) == [PTR_MODIFIER + t.Id()] + cell;
      ok := PutWithHeader(PTR_MODIFIER + t.Id(), cell);
    }

    method WriteText(s: seq<Byte>) returns (ok: bool)
      requires Ready() && 0 !in s
      modifies buffer`size, buffer.mem
      ensures Took(Encode(Text(s)), ok)
    {
      ClipTwice(old(Written()), [CSTR_ID] + s, [0], buffer.capacity);
      assert [CSTR_ID] + s + [0] == [CSTR_ID] + s + [0];
      ok := PutWithHeader(CSTR_ID, s);
      if ok {
        ok := Put(0);
      }
    }

    method WriteValue(v: Value) returns (ok: bool)
      requires Ready() && Wf(v)
      modifies buffer`size, buffer.mem
      ensures Took(Encode(v), ok)
    {
      match v {
        case Null => ok := Put(NULL_ID);
        case Void => ok := Put(VOID_ID);
        case Truth(b) => ok := Put((if b then 0x10 else 0) + BOOL_ID);
        case Text(s) => ok := WriteText(s);
        case Num(t, bits) => ok := WriteScalar(t, bits);
        case Ptr(t, cell) => ok := WritePointer(t, cell);
      }
    }

    // What the buffer holds after e was added to `was`.
    ghost predicate Holds(was: seq<Byte>, e: seq<Byte>, ok: bool)
      reads buffer, buffer.mem
    {
      Ready() && Written() == Clip(was + e, buffer.capacity) && (ok <==> |was| + |e| <= buffer.capacity)
    }

    // Writes the next of several values, of which k have been written behind `was`.
    method WriteNext(v: Value, ghost was: seq<Byte>, ghost vs: seq<Value>, ghost k: nat) returns (ok: bool)
      requires AllWf(vs) && k < |vs| && v == vs[k] && Holds(was, EncodeAll(vs[..k]), true)
      modifies buffer`size, buffer.mem
      ensures if ok then Holds(was, EncodeAll(vs[..k + 1]), true) else Holds(was, EncodeAll(vs), false)
    {
      ClipOneMore(was, vs, k, buffer.capacity);
      ok := WriteValue(v);
    }

    method WriteArgs(args: seq<CallerArg>) returns (ok: bool)
      requires Ready() && AllSound(args) && buffer.mem !in Cells(args)
      modifies buffer`size, buffer.mem
      ensures Took(EncodeAll(old(CurrentAll(args))), ok)
    {
      ghost var was, vs := Written(), CurrentAll(args);
      var i := 0;
      ok := true;
      while i < |args| && ok
        invariant i <= |args| && CurrentAll(args) == vs
        invariant if ok then Holds(was, EncodeAll(vs[..i]), true) else Holds(was, EncodeAll(vs), false)
        decreases |args| - i, ok
      {
        ok := WriteNext(args[i].Current(), was, vs, i);
        i := i + 1;
      }
      assert vs[..|vs|] == vs;
    }

    // A call packet: the type, the function's name, and the arguments in order.
    method WriteCall(name: seq<Byte>, args: seq<CallerArg>) returns (ok: bool)
      requires Ready() && 0 !in name && AllSound(args) && buffer.mem !in Cells(args)
      modifies buffer`size, buffer.mem
      ensures Took(CallBytes(name, old(CurrentAll(args))), ok)
    {
      ghost var was, n := Written(), buffer.capacity;
      ghost var head, rest := Encode(Text(name)), EncodeAll(CurrentAll(args));
      ClipTwice(was, [CALL_PACKET], head, n);
      ClipTwice(was, [CALL_PACKET] + head, rest, n);
      ClipTwice(was, [CALL_PACKET], head + rest, n);
      ok := Put(CALL_PACKET);
      if ok {
        ok := WriteText(name);
        if ok {
          ok := WriteArgs(args);
        }
      }
    }

    // A result packet: the type, the result, and what the pointer arguments point to in
    // the call packet.
    method WriteResult(result: Value, source: Buffer, args: seq<Arg>) returns (ok: bool)
      requires Ready() && Wf(result)
      requires source.Valid() && source.mem != buffer.mem && source != buffer
      requires forall a | a in args :: InBuffer(a, source.Contents()) && (a.Imm? ==> !a.v.Ptr?)
      requires CellsFit(DerefAll(source.Contents(), args))
      modifies buffer`size, buffer.mem
      ensures Took(ReplyBytes(result, DerefAll(source.Contents(), args)), ok)
    {
      ghost var was, n := Written(), buffer.capacity;
      ghost var head, rest := Encode(result), EncodeAll(PtrsOf(DerefAll(source.Contents(), args)));
      ClipTwice(was, [RESULT_PACKET], head, n);
      ClipTwice(was, [RESULT_PACKET] + head, rest, n);
      ClipTwice(was, [RESULT_PACKET], head + rest, n);
      ok := Put(RESULT_PACKET);
      if ok {
        ok := WriteValue(result);
        if ok {
          ok := WriteOutParams(source, args);
        }
      }
    }

    // Value k of a list, a pointer, goes behind those before it.
    method WriteNextPointer(v: Value, ghost was: seq<Byte>, ghost vs: seq<Value>, ghost k: nat) returns (ok: bool)
      requires k < |vs| && v == vs[k] && v.Ptr? && CellsFit(vs) && CellsFit(vs[..k])
      requires Holds(was, PtrBytes(vs[..k]), true)
      modifies buffer`size, buffer.mem
      ensures CellsFit(vs[..k + 1])
      ensures if ok then Holds(was, PtrBytes(vs[..k + 1]), true) else Holds(was, PtrBytes(vs), false)
    {
      NextPointer(vs, k);
      ClipTwice(was, PtrBytes(vs[..k]), Encode(v), buffer.capacity);
      ClipTwice(was, PtrBytes(vs[..k + 1]), PtrBytes(vs[k + 1..]), buffer.capacity);
      ok := WriteValue(v);
    }

    // Argument k, if it is a pointer; the pointees stay in the source buffer.
    method WriteOutParam(source: Buffer, args: seq<Arg>, k: nat, ghost was: seq<Byte>, ghost vs: seq<Value>)
      returns (ok: bool)
      requires source.Valid() && source.mem != buffer.mem && source != buffer && k < |args|
      requires |vs| == |args| && CellsFit(vs) && CellsFit(vs[..k])
      requires args[k].Ref? <==> vs[k].Ptr?
      requires InBuffer(args[k], source.Contents()) && vs[k] == Deref(source.Contents(), args[k])
      requires Holds(was, PtrBytes(vs[..k]), true)
      modifies buffer`size, buffer.mem
      ensures CellsFit(vs[..k + 1])
      ensures if ok then Holds(was, PtrBytes(vs[..k + 1]), true) else Holds(was, PtrBytes(vs), false)
    {
      ok := true;
      if args[k].Ref? {
        var cell := source.Read(args[k].off, args[k].t.Size());
        ok := WriteNextPointer(Ptr(args[k].t, cell), was, vs, k);
      } else {
        NextPointer(vs, k);
      }
    }

    method WriteOutParams(source: Buffer, args: seq<Arg>) returns (ok: bool)
      requires Ready() && source.Valid() && source.mem != buffer.mem && source != buffer
      requires forall a | a in args :: InBuffer(a, source.Contents()) && (a.Imm? ==> !a.v.Ptr?)
      requires CellsFit(DerefAll(source.Contents(), args))
      modifies buffer`size, buffer.mem
      ensures Took(PtrBytes(DerefAll(source.Contents(), args)), ok)
    {
      ghost var was, b := Written(), source.Contents();
      ghost var vs := DerefAll(b, args);
      var i := 0;
      ok := true;
      while i < |args| && ok
        invariant i <= |args| && source.Contents() == b && CellsFit(vs[..i])
        invariant if ok then Holds(was, PtrBytes(vs[..i]), true) else Holds(was, PtrBytes(vs), false)
        decreases |args| - i, ok
      {
        assert args[i] in args;
        DerefAllAt(b, args, i);
        ok := WriteOutParam(source, args, i, was, vs);
        i := i + 1;
      }
      assert vs[..|vs|] == vs;
    }
  }
}
