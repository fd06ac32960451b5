// Pointer arguments as places in the call packet: what the called function sees through
// them, and what the packet holds after it has written through them.
module Pointers {
  import opened Bytes
  import opened Codec

  function Start(a: Arg): nat
    requires !a.Imm?
  {
    match a case Str(off, _) => off case Ref(_, off) => off
  }

  function End(a: Arg): nat
    requires !a.Imm?
  {
    match a case Str(off, len) => off + len case Ref(t, off) => off + t.Size()
  }

  // The arguments lie in the buffer one behind the other, from index lo on; those given
  // directly are no pointers.
  ghost predicate Layout(args: seq<Arg>, b: seq<Byte>, lo: nat) {
    && (forall i | 0 <= i < |args| && args[i].Imm? :: !args[i].v.Ptr?)
    && (forall i | 0 <= i < |args| && !args[i].Imm? :: lo <= Start(args[i]) && End(args[i]) <= |b|)
    && (forall i, j | 0 <= i < j < |args| && !args[i].Imm? && !args[j].Imm? :: End(args[i]) <= Start(args[j]))
  }

  // Whatever bytes the decoder accepts, the places it hands out do not overlap.
  lemma {:induction false} DecodedLayout(b: seq<Byte>, o: nat)
    requires DecodeAll(b, o).Ok?
    ensures Layout(DecodeAll(b, o).value, b, o)
    decreases |b| - o
  {
    if o < |b| {
      var item := Decode(b, o).value;
      DecodedLayout(b, item.next);
      var args, rest := DecodeAll(b, o).value, DecodeAll(b, item.next).value;
      assert args == [item.arg] + rest;
      assert !item.arg.Imm? ==> o <= Start(item.arg) && End(item.arg) <= item.next;
    }
  }

  // ---- reading ----

  predicate InBuffer(a: Arg, b: seq<Byte>) {
    a.Imm? || End(a) <= |b|
  }

  function Deref(b: seq<Byte>, a: Arg): Value
    requires InBuffer(a, b)
  {
    match a
    case Imm(v) => v
    case Str(off, len) => Text(b[off..off + len])
    case Ref(t, off) => Ptr(t, b[off..off + t.Size()])
  }

  function DerefAll(b: seq<Byte>, args: seq<Arg>): (vs: seq<Value>)
    requires forall a | a in args :: InBuffer(a, b)
    ensures |vs| == |args|
  {
    if args == [] then [] else [Deref(b, args[0])] + DerefAll(b, args[1..])
  }

  lemma {:induction false} DerefAllAt(b: seq<Byte>, args: seq<Arg>, i: nat)
    requires (forall a | a in args :: InBuffer(a, b)) && i < |args|
    ensures DerefAll(b, args)[i] == Deref(b, args[i])
  {
    if i > 0 {
      DerefAllAt(b, args[1..], i - 1);
    }
  }

  lemma DerefOne(v: Value, b: seq<Byte>, o: nat)
    requires Wf(v) && o <= |b| && Encode(v) <= b[o..]
    ensures InBuffer(ArgAt(v, o), b) && Deref(b, ArgAt(v, o)) == Norm(v)
  {
    var e := Encode(v);
    PrefixAt(e, b, o);
    match v {
      case Text(s) => assert b[o + 1..o + 1 + |s|] == s;
      case Ptr(_, cell) => assert b[o + 1..o + 1 + |cell|] == cell;
      case _ =>
    }
  }

  lemma {:induction false} DerefStanding(vs: seq<Value>, b: seq<Byte>, o: nat)
    requires AllWf(vs) && Standing(vs, b, o)
    ensures forall a | a in ArgsAt(vs, o) :: InBuffer(a, b)
    ensures DerefAll(b, ArgsAt(vs, o)) == NormAll(vs)
    decreases |vs|
  {
    if vs != [] {
      DerefOne(vs[0], b, o);
      DerefStanding(vs[1..], b, o + |Encode(vs[0])|);
    }
  }

  // Through the decoded arguments the function sees the values the caller passed.
  lemma DerefEncoded(vs: seq<Value>, b: seq<Byte>, o: nat)
    requires AllWf(vs) && o <= |b| && b[o..] == EncodeAll(vs)
    ensures forall a | a in ArgsAt(vs, o) :: InBuffer(a, b)
    ensures DerefAll(b, ArgsAt(vs, o)) == NormAll(vs)
  {
    EncodedStanding(vs, b, o);
    DerefStanding(vs, b, o);
  }

  // ---- writing ----

  // `after` gives every argument as the function leaves it; only pointees can change.
  predicate SameShape(vs: seq<Value>, after: seq<Value>) {
    |vs| == |after| &&
    forall i | 0 <= i < |vs| ::
      if vs[i].Ptr? then after[i].Ptr? && after[i].t == vs[i].t && |after[i].cell| == vs[i].t.Size()
      else after[i] == vs[i]
  }

  predicate Writable(b: seq<Byte>, args: seq<Arg>, after: seq<Value>) {
    |args| == |after| &&
    forall i | 0 <= i < |args| && args[i].Ref? ::
      End(args[i]) <= |b| && after[i].Ptr? && |after[i].cell| == args[i].t.Size()
  }

  function PokeOne(b: seq<Byte>, a: Arg, v: Value): (r: seq<Byte>)
    requires a.Ref? ==> End(a) <= |b| && v.Ptr? && |v.cell| == a.t.Size()
    ensures |r| == |b|
  {
    if a.Ref? then b[..a.off] + v.cell + b[End(a)..] else b
  }

  function Poke(b: seq<Byte>, args: seq<Arg>, after: seq<Value>): (r: seq<Byte>)
    requires Writable(b, args, after)
    ensures |r| == |b|
    decreases |args|
  {
    if args == [] then b else Poke(PokeOne(b, args[0], after[0]), args[1..], after[1..])
  }

  ghost predicate Avoids(a: Arg, p: nat, q: nat) {
    a.Ref? ==> q <= a.off || End(a) <= p
  }

  lemma PokeOneOutside(b: seq<Byte>, a: Arg, v: Value, p: nat, q: nat)
    requires a.Ref? ==> End(a) <= |b| && v.Ptr? && |v.cell| == a.t.Size()
    requires p <= q <= |b| && Avoids(a, p, q)
    ensures PokeOne(b, a, v)[p..q] == b[p..q]
  {
  }

  lemma {:induction false} PokeOutside(b: seq<Byte>, args: seq<Arg>, after: seq<Value>, p: nat, q: nat)
    requires Writable(b, args, after) && p <= q <= |b|
    requires forall i | 0 <= i < |args| :: Avoids(args[i], p, q)
    ensures Poke(b, args, after)[p..q] == b[p..q]
    decreases |args|
  {
    if args != [] {
      PokeOneOutside(b, args[0], after[0], p, q);
      PokeOutside(PokeOne(b, args[0], after[0]), args[1..], after[1..], p, q);
    }
  }

  // Reading an argument again after the writes gives what the function left there.
  lemma {:induction false} DerefPoked(b: seq<Byte>, args: seq<Arg>, after: seq<Value>, i: nat)
    requires Layout(args, b, 0) && Writable(b, args, after) && i < |args|
    ensures var r := Poke(b, args, after);
            InBuffer(args[i], r) && (if args[i].Ref? then Deref(r, args[i]).cell == after[i].cell
                                     else Deref(r, args[i]) == Deref(b, args[i]))
    decreases |args|
  {
    var b' := PokeOne(b, args[0], after[0]);
    if i == 0 {
      if !args[0].Imm? {
        PokeOutside(b', args[1..], after[1..], Start(args[0]), End(args[0]));
        assert args[0].Ref? ==> b'[Start(args[0])..End(args[0])] == after[0].cell;
      }
    } else {
      assert args[1..][i - 1] == args[i] && after[1..][i - 1] == after[i];
      DerefPoked(b', args[1..], after[1..], i - 1);
      if args[i].Str? {
        PokeOneOutside(b, args[0], after[0], Start(args[i]), End(args[i]));
      }
    }
  }
}
