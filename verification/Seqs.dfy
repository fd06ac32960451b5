// Small helpers on sequences.
module Seqs {
  function Front<T>(s: seq<T>): seq<T>
    requires s != []
  {
    s[..|s| - 1]
  }

  function Last<T>(s: seq<T>): T
    requires s != []
  {
    s[|s| - 1]
  }

  ghost predicate Distinct<T>(s: seq<T>) {
    forall i, j | 0 <= i < j < |s| :: s[i] != s[j]
  }

  function RemoveAt<T>(s: seq<T>, k: nat): seq<T>
    requires k < |s|
  {
    s[..k] + s[k + 1..]
  }

  function MoveToBack<T>(s: seq<T>, k: nat): seq<T>
    requires k < |s|
  {
    RemoveAt(s, k) + [s[k]]
  }

  // Position of the first x in s.
  ghost function IndexOf<T>(s: seq<T>, x: T): (k: nat)
    requires x in s
    ensures k < |s| && s[k] == x && forall i | 0 <= i < k :: s[i] != x
  {
    FirstIndex(s, x);
    var k: nat :| k < |s| && s[k] == x && forall i | 0 <= i < k :: s[i] != x;
    k
  }

  lemma {:induction false} FirstIndex<T>(s: seq<T>, x: T)
    requires x in s
    ensures exists k: nat :: k < |s| && s[k] == x && forall i | 0 <= i < k :: s[i] != x
  {
    if x in Front(s) {
      FirstIndex(Front(s), x);
      var k: nat :| k < |Front(s)| && Front(s)[k] == x && forall i | 0 <= i < k :: Front(s)[i] != x;
      assert s[k] == x && forall i | 0 <= i < k :: s[i] == Front(s)[i];
    } else {
      assert s[|s| - 1] == x && forall i | 0 <= i < |s| - 1 :: s[i] == Front(s)[i];
    }
  }

  lemma RemoveAtSubset<T>(s: seq<T>, k: nat)
    requires k < |s| && Distinct(s)
    ensures Distinct(RemoveAt(s, k)) && s[k] !in RemoveAt(s, k)
    ensures forall x | x in RemoveAt(s, k) :: x in s
    ensures forall x | x in s && x != s[k] :: x in RemoveAt(s, k)
    ensures forall i | 0 <= i < |s| - 1 :: RemoveAt(s, k)[i] == if i < k then s[i] else s[i + 1]
  {
    var r := RemoveAt(s, k);
    forall x | x in s && x != s[k] ensures x in r {
      var i :| 0 <= i < |s| && s[i] == x;
      assert if i < k then r[i] == x else r[i - 1] == x;
    }
  }

  lemma MoveToBackSame<T>(s: seq<T>, k: nat)
    requires k < |s| && Distinct(s)
    ensures Distinct(MoveToBack(s, k)) && Last(MoveToBack(s, k)) == s[k]
    ensures forall x :: x in s <==> x in MoveToBack(s, k)
  {
    var r := MoveToBack(s, k);
    forall x | x in s ensures x in r {
      var i :| 0 <= i < |s| && s[i] == x;
      assert if i < k then r[i] == x else if i == k then r[|r| - 1] == x else r[i - 1] == x;
    }
  }

  lemma Slice<T>(s: seq<T>, lo: nat, hi: nat, i: nat, j: nat)
    requires lo <= hi <= |s| && i <= j <= hi - lo
    ensures s[lo..hi][i..j] == s[lo + i..lo + j]
  {
    forall k | 0 <= k < j - i ensures s[lo..hi][i..j][k] == s[lo + i..lo + j][k] {
      assert s[lo..hi][i + k] == s[lo + i + k];
    }
  }

  lemma Assoc<T>(a: seq<T>, b: seq<T>, c: seq<T>)
    ensures a + b + c == a + (b + c)
  {
  }
}
