// The intrusive doubly linked list that holds the timers.
module IntrusiveList {
  import opened Seqs

  // A timer is a list item: the links, and the two times the timer thread reads.
  class ListItem {
    var list: List?
    var prev: ListItem?
    var next: ListItem?

    const interval: int
    var trigger: int
    ghost const id: nat   // tells timers apart

    constructor (interval: int, trigger: int, ghost id: nat)
      ensures list == null && prev == null && next == null
      ensures this.interval == interval && this.trigger == trigger && this.id == id
    {
      this.interval, this.trigger, this.id := interval, trigger, id;
      list, prev, next := null, null, null;
    }
  }

  class List {
    var first: ListItem?
    var last: ListItem?
    var count: nat

    ghost var items: seq<ListItem>   // what the list holds, front to back
    ghost var known: set<ListItem>   // the items that may be asked about

    // The ends of the list and the links of the items spell s.
    ghost predicate Spells(s: seq<ListItem>)
      reads this`first, this`last, s`prev, s`next
    {
      && (s == [] ==> first == null && last == null)
      && (s != [] ==> first == s[0] && s[0].prev == null && last == s[|s| - 1] && last.next == null)
      && (forall i {:trigger s[i].next} | 0 <= i < |s| - 1 :: s[i].next == s[i + 1])
      && (forall i {:trigger s[i].prev} | 0 < i < |s| :: s[i].prev == s[i - 1])
    }

    ghost predicate Valid()
      reads this, items`prev, items`next, known`list, known`prev, known`next
    {
      && count == |items| && Distinct(items) && Spells(items)
      && (forall x | x in items :: x in known)
      && (forall x | x in known :: x.list == this <==> x in items)
      && (forall x | x in known && x.list == null :: x.prev == null && x.next == null)
    }

    constructor ()
      ensures Valid() && items == [] && known == {}
    {
      first, last, count := null, null, 0;
      items, known := [], {};
    }

    ghost method Meet(x: ListItem)
      requires Valid() && x.list == null && x.prev == null && x.next == null
      modifies this`known
      ensures Valid() && known == old(known) + {x}
    {
      known := known + {x};
    }

    method Contains(x: ListItem) returns (b: bool)
      requires Valid() && x in known
      ensures b <==> x in items
    {
      b := x.list == this;
    }

    method PushFront(x: ListItem)
      requires Valid() && x in known && x.list == null
      modifies this, x`list, x`next, {first}`prev
      ensures Valid() && items == [x] + old(items) && known == old(known)
    {
      x.list := this;
      x.next := first;
      if count == 0 {
        first := x;
        last := x;
      } else {
        first.prev := x;
      }
      first := x;
      count := count + 1;
      items := [x] + items;
    }

    method PushBack(x: ListItem)
      requires Valid() && x in known && x.list == null
      modifies this, x`list, x`prev, {last}`next
      ensures Valid() && items == old(items) + [x] && known == old(known)
    {
      x.list := this;
      x.prev := last;
      if count == 0 {
        first := x;
        last := x;
      } else {
        last.next := x;
      }
      last := x;
      count := count + 1;
      items := items + [x];
    }

    method Remove(x: ListItem)
      requires Valid() && x in known && x.list == this
      modifies this, x`list, x`prev, x`next, {x.prev}`next, {x.next}`prev
      ensures Valid() && known == old(known)
      ensures x in old(items) && items == RemoveAt(old(items), IndexOf(old(items), x))
      ensures x.list == null && x.prev == null && x.next == null
    {
      ghost var k := IndexOf(items, x);
      RemoveAtSubset(items, k);
      Unlink(x, k, RemoveAt(items, k));
      Detach(x, RemoveAt(items, k));
    }

    // The item is no longer linked to by the others.
    method Detach(x: ListItem, ghost rest: seq<ListItem>)
      requires Spells(rest) && Distinct(rest) && x !in rest && count == |rest| + 1
      requires forall y | y in rest :: y in known
      requires forall y | y in known && y != x :: y.list == this <==> y in rest
      requires forall y | y in known && y.list == null :: y.prev == null && y.next == null
      modifies this`count, this`items, x`list, x`prev, x`next
      ensures Valid() && items == rest && x.list == null && x.prev == null && x.next == null
    {
      count := count - 1;
      x.prev := null;
      x.next := null;
      x.list := null;
      items := rest;
    }

    // Makes the neighbours of the k-th item, or the ends of the list, bypass it.
    method Unlink(x: ListItem, ghost k: nat, ghost rest: seq<ListItem>)
      requires Spells(items) && Distinct(items) && k < |items| && items[k] == x
      requires |rest| == |items| - 1
      requires forall i {:trigger rest[i]} | 0 <= i < |rest| :: rest[i] == if i < k then items[i] else items[i + 1]
      modifies this`first, this`last, {x.prev}`next, {x.next}`prev
      ensures Spells(rest)
    {
      ghost var was := items;
      assert forall i {:trigger rest[i]} | 0 <= i < |rest| :: rest[i] == if i < k then was[i] else was[i + 1];
      assert k > 0 ==> x.prev == was[k - 1];
      assert k < |was| - 1 ==> x.next == was[k + 1];
      if first == x {
        first := x.next;
      } else {
        x.prev.next := x.next;
      }
      if last == x {
        last := x.prev;
      } else {
        x.next.prev := x.prev;
      }
      assert k == 0 && |was| > 1 ==> rest[0] == was[1];
      forall i | 0 <= i < |rest| - 1 ensures rest[i].next == rest[i + 1] {
        var j := if i < k then i else i + 1;
        assert rest[i] == was[j] && old(was[j].next) == was[j + 1];
      }
      forall i | 0 < i < |rest| ensures rest[i].prev == rest[i - 1] {
        var j := if i < k then i else i + 1;
        assert rest[i] == was[j] && old(was[j].prev) == was[j - 1];
      }
    }

    method MoveToBack(x: ListItem)
      requires Valid() && x in known && x.list == this
      modifies this, items`next, items`prev, x`list
      ensures Valid() && known == old(known)
      ensures x in old(items) && items == Seqs.MoveToBack(old(items), IndexOf(old(items), x))
    {
      Remove(x);
      PushBack(x);
    }

    method MoveToFront(x: ListItem)
      requires Valid() && x in known && x.list == this
      modifies this, items`next, items`prev, x`list
      ensures Valid() && known == old(known)
      ensures x in old(items) && items == [x] + RemoveAt(old(items), IndexOf(old(items), x))
    {
      Remove(x);
      PushFront(x);
    }
  }

  // Item k is the first of the items with the smallest trigger time.
  ghost predicate FirstMin(s: seq<ListItem>, k: nat)
    requires k < |s|
    reads s`trigger
  {
    && (forall i | 0 <= i < |s| :: s[k].trigger <= s[i].trigger)
    && (forall i | 0 <= i < k :: s[k].trigger < s[i].trigger)
  }
}
