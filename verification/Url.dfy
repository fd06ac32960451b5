// Addresses of the form proto.proto://host/path.
module Urls {
  import opened Seqs

  // What an address consists of.
  datatype Address = Address(proto: seq<string>, host: string, path: string)

  const PROTO_DELIM := "://"

  predicate DelimAt(s: string, k: nat) {
    k + 3 <= |s| && s[k] == ':' && s[k + 1] == '/' && s[k + 2] == '/'
  }

  // Index of the first c from l on, or the length of the string.
  function FindChar(c: char, s: string, l: nat): (r: nat)
    requires l <= |s|
    ensures l <= r <= |s| && (r < |s| ==> s[r] == c) && forall k | l <= k < r :: s[k] != c
    decreases |s| - l
  {
    if l == |s| || s[l] == c then l else FindChar(c, s, l + 1)
  }

  // The same for the delimiter.
  function FindDelim(s: string, l: nat): (r: nat)
    requires l <= |s|
    ensures l <= r <= |s| && (r < |s| ==> DelimAt(s, r)) && forall k | l <= k < r :: !DelimAt(s, k)
    decreases |s| - l
  {
    if l == |s| || DelimAt(s, l) then l else FindDelim(s, l + 1)
  }

  predicate Without(c: char, s: string) {
    forall k | 0 <= k < |s| :: s[k] != c
  }

  predicate NoDelim(s: string) {
    forall k | 0 <= k < |s| :: !DelimAt(s, k)
  }

  // ---- the dotted list of protocols ----

  // The parts between the dots in s[l..i].
  function Split(s: string, l: nat, i: nat): (parts: seq<string>)
    requires l <= i <= |s|
    ensures parts != []
    decreases i - l
  {
    var r := FindChar('.', s, l);
    if r >= i then [s[l..i]] else [s[l..r]] + Split(s, r + 1, i)
  }

  // One round of the loop: the part up to the next dot has been split off.
  lemma SplitOff(done: seq<string>, s: string, l: nat, i: nat, r: nat, whole: seq<string>)
    requires l <= i < |s| && s[i] != '.' && done + Split(s, l, i) == whole
    requires r == if FindChar('.', s, l) > i then i else FindChar('.', s, l)
    ensures if r < i then done + [s[l..r]] + Split(s, r + 1, i) == whole else done + [s[l..r]] == whole
  {
    if r < i {
      Assoc(done, [s[l..r]], Split(s, r + 1, i));
    }
  }

  function Join(parts: seq<string>): string {
    if parts == [] then "" else if |parts| == 1 then parts[0] else parts[0] + "." + Join(parts[1..])
  }

  lemma {:induction false} SplitParts(s: string, l: nat, i: nat)
    requires l <= i <= |s|
    ensures forall p | 0 <= p < |Split(s, l, i)| :: Without('.', Split(s, l, i)[p])
    decreases i - l
  {
    var r := FindChar('.', s, l);
    if r < i {
      SplitParts(s, r + 1, i);
    }
  }

  lemma {:induction false} JoinSplit(s: string, l: nat, i: nat)
    requires l <= i <= |s|
    ensures Join(Split(s, l, i)) == s[l..i]
    decreases i - l
  {
    var r := FindChar('.', s, l);
    if r < i {
      JoinSplit(s, r + 1, i);
      JoinFirst(s[l..r], Split(s, r + 1, i));
      DotBetween(s, l, r, i);
    }
  }

  lemma JoinFirst(part: string, parts: seq<string>)
    requires parts != []
    ensures Join([part] + parts) == part + "." + Join(parts)
  {
    assert ([part] + parts)[1..] == parts;
  }

  lemma DotBetween(s: string, l: nat, r: nat, i: nat)
    requires l <= r < i <= |s| && s[r] == '.'
    ensures s[l..r] + "." + s[r + 1..i] == s[l..i]
  {
  }

  lemma {:induction false} SplitJoin(parts: seq<string>, s: string, l: nat, i: nat)
    requires parts != [] && forall p | 0 <= p < |parts| :: Without('.', parts[p])
    requires l <= i <= |s| && s[l..i] == Join(parts)
    ensures Split(s, l, i) == parts
  {
    if |parts| == 1 {
      LastPart(s, l, i, parts[0]);
    } else {
      FirstPart(s, l, i, parts[0], Join(parts[1..]));
      SplitJoin(parts[1..], s, l + |parts[0]| + 1, i);
    }
  }

  lemma FirstPart(s: string, l: nat, i: nat, head: string, tail: string)
    requires l <= i <= |s| && Without('.', head) && s[l..i] == head + "." + tail
    ensures var r := FindChar('.', s, l); r == l + |head| < i && s[l..r] == head && s[r + 1..i] == tail
  {
    assert head + "." + tail == head + ("." + tail);
    Cut(s, l, i, head, "." + tail);
    assert s[l + |head|] == '.' && ("." + tail)[1..] == tail;
  }

  lemma LastPart(s: string, l: nat, i: nat, head: string)
    requires l <= i <= |s| && Without('.', head) && s[l..i] == head
    ensures FindChar('.', s, l) >= i && Split(s, l, i) == [head]
  {
    assert forall k | l <= k < i :: s[k] == head[k - l];
  }

  lemma Cut(s: string, l: nat, i: nat, head: string, tail: string)
    requires l <= i <= |s| && s[l..i] == head + tail
    ensures var r := l + |head|;
            && r <= i && s[l..r] == head && s[r..i] == tail
            && (forall k | l <= k < r :: s[k] == head[k - l]) && (forall k | r <= k < i :: s[k] == tail[k - r])
            && (tail != [] ==> s[r + 1..i] == tail[1..])
  {
    var t, n := s[l..i], |head|;
    Slice(s, l, i, 0, n);
    Slice(s, l, i, n, |t|);
    assert t[0..n] == head && t[n..|t|] == tail;
    assert forall k | l <= k < l + n :: s[k] == s[l..l + n][k - l];
    assert forall k | l + n <= k < i :: s[k] == s[l + n..i][k - (l + n)];
    if tail != [] {
      Slice(s, l + n, i, 1, |tail|);
    }
  }

  lemma {:induction false} JoinOneMore(parts: seq<string>, p: string)
    ensures Join(parts + [p]) == if parts == [] then p else Join(parts) + "." + p
  {
    if parts != [] {
      assert (parts + [p])[1..] == parts[1..] + [p];
      JoinOneMore(parts[1..], p);
    }
  }

  // ---- the whole address ----

  // Index of the host.
  function HostStart(s: string): (l: nat)
    ensures l <= |s|
  {
    var i := FindDelim(s, 0);
    if i < |s| then i + 3 else 0
  }

  function Parse(s: string): Address {
    var i, l := FindDelim(s, 0), HostStart(s);
    var j := FindChar('/', s, l);
    Address(if i < |s| then Split(s, 0, i) else [], s[l..j], s[j..])
  }

  function Scheme(proto: seq<string>): string {
    if proto == [] then "" else Join(proto) + PROTO_DELIM
  }

  function Print(a: Address): string {
    Scheme(a.proto) + a.host + a.path
  }

  // The addresses that are read back as they were written.
  predicate Canonical(a: Address) {
    && (forall p | 0 <= p < |a.proto| :: Without('.', a.proto[p]))
    && NoDelim(if a.proto == [] then a.host + a.path else Join(a.proto))
    && Without('/', a.host)
    && (a.path == "" || a.path[0] == '/')
  }

  lemma SchemeOf(s: string)
    ensures Scheme(Parse(s).proto) == s[..HostStart(s)]
  {
    var i := FindDelim(s, 0);
    if i < |s| {
      JoinSplit(s, 0, i);
      assert s[..i + 3] == s[0..i] + PROTO_DELIM;
    }
  }

  lemma HostPathOf(s: string)
    ensures Parse(s).host + Parse(s).path == s[HostStart(s)..]
  {
  }

  // Printing what was parsed gives the text again, for every text.
  lemma PrintParse(s: string)
    ensures Print(Parse(s)) == s
  {
    SchemeOf(s);
    HostPathOf(s);
    Assoc(Scheme(Parse(s).proto), Parse(s).host, Parse(s).path);
    assert s[..HostStart(s)] + s[HostStart(s)..] == s;
  }

  lemma ParseIsCanonical(s: string)
    ensures Canonical(Parse(s))
  {
    var i := FindDelim(s, 0);
    HostPathOf(s);
    if i < |s| {
      SplitParts(s, 0, i);
      JoinSplit(s, 0, i);
      assert forall k | 0 <= k < i :: DelimAt(s[0..i], k) ==> DelimAt(s, k);
    }
  }

  // The delimiter cannot overlap with itself, so it is found behind the protocols.
  lemma DelimBehind(head: string, rest: string)
    requires NoDelim(head)
    ensures FindDelim(head + PROTO_DELIM + rest, 0) == |head|
  {
    var s := head + PROTO_DELIM + rest;
    assert DelimAt(s, |head|);
    forall k | 0 <= k < |head| ensures !DelimAt(s, k) {
      assert s[k] == head[k] && s[|head|] == ':';
      assert k + 3 <= |head| ==> s[k + 1] == head[k + 1] && s[k + 2] == head[k + 2];
      assert !DelimAt(head, k);
    }
  }

  lemma HostAndPath(s: string, l: nat, host: string, path: string)
    requires l <= |s| && s[l..] == host + path && Without('/', host) && (path == "" || path[0] == '/')
    ensures var j := FindChar('/', s, l); s[l..j] == host && s[j..] == path
  {
    assert s[l..|s|] == s[l..];
    Cut(s, l, |s|, host, path);
    assert s[l + |host|..|s|] == s[l + |host|..];
    assert FindChar('/', s, l) == l + |host|;
  }

  lemma StartsBehindScheme(a: Address)
    requires Canonical(a)
    ensures var s, l := Print(a), |Scheme(a.proto)|;
            HostStart(s) == l && s[l..] == a.host + a.path
  {
    var s, rest := Print(a), a.host + a.path;
    Assoc(Scheme(a.proto), a.host, a.path);
    if a.proto == [] {
      assert s == rest;
    } else {
      DelimBehind(Join(a.proto), rest);
    }
  }

  lemma ParseCanonical(a: Address)
    requires Canonical(a)
    ensures Parse(Print(a)) == a
  {
    var s := Print(a);
    StartsBehindScheme(a);
    HostAndPath(s, |Scheme(a.proto)|, a.host, a.path);
    if a.proto != [] {
      Assoc(Scheme(a.proto), a.host, a.path);
      DelimBehind(Join(a.proto), a.host + a.path);
      assert s[0..|Join(a.proto)|] == Join(a.proto);
      SplitJoin(a.proto, s, 0, |Join(a.proto)|);
    } else {
      assert s == a.host + a.path;
    }
  }

  // Parsing what was printed gives the address again exactly if it is canonical.
  lemma ParsePrint(a: Address)
    ensures Parse(Print(a)) == a <==> Canonical(a)
  {
    if Canonical(a) {
      ParseCanonical(a);
    }
    ParseIsCanonical(Print(a));
  }

  // An address is taken apart at the characters that separate its parts. With two protocols:
  lemma TwoProtocols(a: string, b: string, host: string, rest: string)
    requires Without('.', a) && Without('.', b) && Without(':', a) && Without(':', b) && Without('/', host)
    ensures Parse(a + "." + b + "://" + host + ("/" + rest)) == Address([a, b], host, "/" + rest)
  {
    JoinTwo(a, b);
    NoColon(a + "." + b);
    PartsCanonical([a, b], host, "/" + rest);
  }

  // With one protocol and no path, and with the host alone:
  lemma OneProtocol(a: string, host: string)
    requires Without('.', a) && Without(':', a) && Without('/', host)
    ensures Parse(a + "://" + host + "") == Address([a], host, "")
    ensures Without(':', host) ==> Parse("" + host + "") == Address([], host, "")
  {
    NoColon(a);
    PartsCanonical([a], host, "");
    if Without(':', host) {
      NoColon(host + "");
      PartsCanonical([], host, "");
    }
  }

  lemma JoinTwo(a: string, b: string)
    ensures Join([a, b]) == a + "." + b
  {
    assert [a, b][1..] == [b];
  }

  lemma PartsCanonical(proto: seq<string>, host: string, path: string)
    requires forall p | 0 <= p < |proto| :: Without('.', proto[p])
    requires NoDelim(if proto == [] then host + path else Join(proto))
    requires Without('/', host) && (path == "" || path[0] == '/')
    ensures Parse((if proto == [] then "" else Join(proto) + "://") + host + path) == Address(proto, host, path)
  {
    ParsePrint(Address(proto, host, path));
  }

  lemma NoColon(s: string)
    ensures Without(':', s) ==> NoDelim(s)
  {
  }

  // ---- the loops ----

  class Url {
    var proto: seq<string>
    var host: string
    var path: string

    ghost function Value(): Address
      reads this
    {
      Address(proto, host, path)
    }

    constructor (s: string)
      ensures Value() == Parse(s)
    {
      proto, host, path := [], "", "";
      new;
      FromString(s);
    }

    method FromString(s: string)
      modifies this
      ensures Value() == Parse(s)
    {
      proto := [];
      var i := FindDelim(s, 0);
      if i < |s| {
        SplitProto(s, i);
        i := i + |PROTO_DELIM|;
      } else {
        i := 0;
      }
      var j := FindChar('/', s, i);
      host := s[i..j];
      path := s[j..];
    }

    // The parts between the dots in front of index i.
    method SplitProto(s: string, i: nat)
      requires i < |s| && proto == [] && s[i] != '.'
      modifies this`proto
      ensures proto == Split(s, 0, i)
    {
      var l, more := 0, true;
      ghost var whole := Split(s, 0, i);
      while more
        invariant if more then l <= i && proto + Split(s, l, i) == whole else proto == whole
        decreases if more then i + 1 - l else 0
      {
        var r := FindChar('.', s, l);
        if r > i {
          r := i;
        }
        SplitOff(proto, s, l, i, r, whole);
        proto := proto + [s[l..r]];
        l := r + 1;
        more := r < i;
      }
    }

    method ToString() returns (s: string)
      ensures s == Print(Value())
    {
      s := "";
      if |proto| > 0 {
        s := JoinProto();
        s := s + PROTO_DELIM;
      }
      s := s + host + path;
    }

    method JoinProto() returns (s: string)
      requires proto != []
      ensures s == Join(proto)
    {
      s := "";
      var i := 0;
      while i < |proto|
        invariant i <= |proto| && s == Join(proto[..i])
      {
        JoinOneMore(proto[..i], proto[i]);
        assert proto[..i + 1] == proto[..i] + [proto[i]];
        if i > 0 {
          s := s + ".";
        }
        s := s + proto[i];
        i := i + 1;
      }
      assert proto[..i] == proto;
    }
  }
}
