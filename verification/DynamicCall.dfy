// Calling a function with the arguments found in a call packet.
module DynamicCalls {
  import opened Bytes
  import opened Results
  import opened Codec
  import opened Packets
  import opened Pointers
  import opened Rpc

  ghost predicate AllInBuffer(args: seq<Arg>, b: seq<Byte>) {
    forall a | a in args :: InBuffer(a, b)
  }

  // The type an argument carries in its header.
  function ArgType(a: Arg): Byte {
    match a
    case Imm(v) => TypeOf(v)
    case Str(_, _) => CSTR_ID
    case Ref(t, _) => PTR_MODIFIER + t.Id()
  }

  // The argument types must be those of the parameters, one by one.
  method CheckArgs(f: Function, args: seq<Arg>, ghost b: seq<Byte>) returns (e: Option<Error>)
    requires AllInBuffer(args, b)
    ensures e == Rpc.CheckArgs(f, DerefAll(b, args))
    ensures e == Some(ParamNumMismatch) <==> |args| != |f.params|
    ensures e == None <==> Suits(f, DerefAll(b, args))
  {
    if |f.params| != |args| {
      return Some(ParamNumMismatch);
    }
    var i := 0;
    while i < |f.params|
      invariant i <= |args|
      invariant forall j | 0 <= j < i :: TypeOf(DerefAll(b, args)[j]) == f.params[j]
    {
      assert args[i] in args;
      DerefAllAt(b, args, i);
      if ArgType(args[i]) != f.params[i] {
        return Some(ParamTypeMismatch);
      }
      i := i + 1;
    }
    e := None;
  }

  // Hands out the arguments of a list from its end.
  class ArgListIterator {
    const args: seq<Arg>
    var index: nat

    constructor (args: seq<Arg>)
      ensures this.args == args && index == |args|
    {
      this.args := args;
      index := |args|;
    }

    method Next() returns (a: Arg)
      requires 0 < index <= |args|
      modifies this
      ensures index == old(index) - 1 && a == args[index]
    {
      index := index - 1;
      a := args[index];
    }
  }

  // The parameters are evaluated from right to left, each taking the next argument.
  method FetchArgs(args: seq<Arg>, buffer: Buffer) returns (vals: seq<Value>)
    requires buffer.Valid() && AllInBuffer(args, buffer.Contents())
    ensures vals == DerefAll(buffer.Contents(), args)
  {
    ghost var b := buffer.Contents();
    vals := [];
    var it := new ArgListIterator(args);
    while |vals| < |args|
      invariant |vals| + it.index == |args| && it.args == args
      invariant forall i | it.index <= i < |args| :: vals[i - it.index] == DerefAll(b, args)[i]
    {
      var a := it.Next();
      assert a in args;
      DerefAllAt(b, args, it.index);
      var v := Get(a, buffer);
      vals := [v] + vals;
    }
  }

  method Get(a: Arg, buffer: Buffer) returns (v: Value)
    requires buffer.Valid() && InBuffer(a, buffer.Contents())
    ensures v == Deref(buffer.Contents(), a)
  {
    match a {
      case Imm(x) => v := x;
      case Str(off, len) =>
        var s := buffer.Read(off, len);
        v := Text(s);
      case Ref(t, off) =>
        var s := buffer.Read(off, t.Size());
        v := Ptr(t, s);
    }
  }

  // What the parameters receive when parameter p is evaluated as number turn[p].
  function Received<T>(args: seq<T>, turn: seq<nat>): (r: seq<T>)
    requires |turn| == |args| && forall p | 0 <= p < |turn| :: turn[p] < |args|
    ensures |r| == |args| && forall p | 0 <= p < |r| :: r[p] == args[|args| - 1 - turn[p]]
  {
    seq(|args|, p requires 0 <= p < |args| => args[|args| - 1 - turn[p]])
  }

  // Every parameter gets its own argument, whatever the arguments are, exactly if the
  // compiler evaluates parameters from right to left.
  lemma EvaluationOrder(n: nat, turn: seq<nat>)
    requires |turn| == n && forall p | 0 <= p < n :: turn[p] < n
    ensures (forall args: seq<nat> | |args| == n :: Received(args, turn) == args)
            <==> (forall p | 0 <= p < n :: turn[p] == n - 1 - p)
  {
    var count: seq<nat> := seq(n, p => p);
    if p :| 0 <= p < n && turn[p] != n - 1 - p {
      assert Received(count, turn)[p] != count[p];
    }
  }

  // ---- writing through the pointers ----

  lemma PokeFirst(b: seq<Byte>, args: seq<Arg>, after: seq<Value>)
    requires args != [] && Writable(b, args, after)
    ensures Fits(b, args[0], after[0])
    ensures var b' := PokeOne(b, args[0], after[0]);
            Writable(b', args[1..], after[1..]) && Poke(b, args, after) == Poke(b', args[1..], after[1..])
  {
  }

  predicate Fits(b: seq<Byte>, a: Arg, v: Value) {
    a.Ref? ==> End(a) <= |b| && v.Ptr? && |v.cell| == a.t.Size()
  }

  lemma PokeNext(b: seq<Byte>, args: seq<Arg>, after: seq<Value>, i: nat)
    requires i < |args| == |after| && Writable(b, args[i..], after[i..])
    ensures Fits(b, args[i], after[i])
    ensures var b' := PokeOne(b, args[i], after[i]);
            Writable(b', args[i + 1..], after[i + 1..])
            && Poke(b, args[i..], after[i..]) == Poke(b', args[i + 1..], after[i + 1..])
  {
    var args', after' := args[i..], after[i..];
    assert args'[0] == args[i] && after'[0] == after[i] && args'[1..] == args[i + 1..] && after'[1..] == after[i + 1..];
    PokeFirst(b, args', after');
  }

  ghost function Overwrite(b: seq<Byte>, off: nat, s: seq<Byte>): (r: seq<Byte>)
    requires off + |s| <= |b|
    ensures |r| == |b|
  {
    b[..off] + s + b[off + |s|..]
  }

  lemma OverwriteNext(b: seq<Byte>, off: nat, cell: seq<Byte>, i: nat)
    requires i < |cell| && off + |cell| <= |b|
    ensures Overwrite(b, off, cell[..i])[off + i := cell[i]] == Overwrite(b, off, cell[..i + 1])
  {
  }

  lemma OverwriteEnds(b: seq<Byte>, off: nat, cell: seq<Byte>)
    requires off + |cell| <= |b|
    ensures Overwrite(b, off, cell[..0]) == b && Overwrite(b, off, cell[..|cell|]) == Overwrite(b, off, cell)
  {
    assert cell[..|cell|] == cell;
  }

  method StoreBytes(off: nat, cell: seq<Byte>, buffer: Buffer)
    requires buffer.Valid() && off + |cell| <= buffer.size
    modifies buffer.mem
    ensures buffer.Contents() == Overwrite(old(buffer.Contents()), off, cell)
  {
    ghost var b := buffer.Contents();
    var i := 0;
    OverwriteEnds(b, off, cell);
    while i < |cell|
      invariant i <= |cell|
      invariant buffer.Contents() == Overwrite(b, off, cell[..i])
    {
      OverwriteNext(b, off, cell, i);
      StoreByte(off + i, cell[i], buffer);
      i := i + 1;
    }
  }

  method StoreByte(off: nat, x: Byte, buffer: Buffer)
    requires buffer.Valid() && off < buffer.size
    modifies buffer.mem
    ensures buffer.Contents() == old(buffer.Contents())[off := x]
  {
    buffer.mem[buffer.data + off] := x;
  }

  method StoreOne(a: Arg, v: Value, buffer: Buffer)
    requires buffer.Valid() && Fits(buffer.Contents(), a, v)
    modifies buffer.mem
    ensures buffer.Contents() == PokeOne(old(buffer.Contents()), a, v)
  {
    if a.Ref? {
      StoreBytes(a.off, v.cell, buffer);
    }
  }

  method StorePointees(args: seq<Arg>, after: seq<Value>, buffer: Buffer)
    requires buffer.Valid() && Writable(buffer.Contents(), args, after)
    modifies buffer.mem
    ensures buffer.Contents() == Poke(old(buffer.Contents()), args, after)
  {
    ghost var b := buffer.Contents();
    var i := 0;
    assert args[0..] == args && after[0..] == after;
    while i < |args|
      invariant i <= |args| && Writable(buffer.Contents(), args[i..], after[i..])
      invariant Poke(b, args, after) == Poke(buffer.Contents(), args[i..], after[i..])
    {
      PokeNext(buffer.Contents(), args, after, i);
      StoreOne(args[i], after[i], buffer);
      i := i + 1;
    }
  }
}
