/** The doubly linked list of db_generator/dlist.cc as a refinement of a sequence. The other
    modules treat the lists of filter indices as such sequences. */
module DList {

  class Item {
    var key: int
    var prev: Item?
    var next: Item?

    constructor (key: int)
      ensures this.key == key && prev == null && next == null
    {
      this.key, prev, next := key, null, null;
    }
  }

  class List {
    var first: Item?
    var last: Item?
    var num: nat
    /** The items from first on. */
    ghost var items: seq<Item>

    /** The links run through the items in order. The fields prev, and last on an empty list, may
        point to items that were removed; nothing depends on them. */
    ghost predicate Valid()
      reads this, items
    {
      && num == |items|
      && (forall i, j :: 0 <= i < j < |items| ==> items[i] != items[j])
      && first == ItemAt(0)
      && (items != [] ==> last == items[|items| - 1])
      && (forall i :: 0 <= i < |items| ==> items[i].next == ItemAt(i + 1))
    }

    ghost function ItemAt(i: nat): Item?
      reads this
    {
      if i < |items| then items[i] else null
    }

    /** The keys in order: what the list stands for. */
    ghost function Contents(): (s: seq<int>)
      reads this, items
      ensures |s| == |items|
    {
      seq(|items|, i requires 0 <= i < |items| reads this, items => items[i].key)
    }

    constructor ()
      ensures Valid() && Contents() == []
    {
      first, last, num, items := null, null, 0, [];
    }

    /** operator&=. */
    method Append(key: int)
      requires Valid()
      modifies this, items
      ensures Valid() && Contents() == old(Contents()) + [key]
      ensures items[..|items| - 1] == old(items) && fresh(items[|items| - 1])
    {
      var temp := new Item(key);
      temp.prev := last;
      if num == 0 {
        first := temp;
      } else {
        last.next := temp;
      }
      last := temp;
      num := num + 1;
      items := items + [temp];
    }

    /** One turn of the loop of operator<<=. */
    method RemoveOne()
      requires Valid() && first != null
      modifies this
      ensures Valid() && items == old(items)[1..] && Contents() == old(Contents())[1..]
    {
      first := first.next;
      num := num - 1;
      items := items[1..];
    }

    /** operator<<=: the first n items, or as many as there are, are removed. */
    method RemoveFirst(n: nat)
      requires Valid()
      modifies this
      ensures Valid()
      ensures var m := if n <= |old(items)| then n else |old(items)|;
              items == old(items)[m..] && Contents() == old(Contents())[m..]
    {
      hide List.Valid, List.Contents;
      ghost var was, keys := items, Contents();
      var i: nat := n;
      ghost var k: nat := 0;
      EmptyIffNull();
      while first != null && i != 0
        invariant Valid() && k + i == n && k <= |was| == |keys|
        invariant items == was[k..] && Contents() == keys[k..]
        invariant first == null <==> items == []
        decreases i
      {
        RemoveOne();
        EmptyIffNull();
        assert was[k..][1..] == was[k + 1..] && keys[k..][1..] == keys[k + 1..];
        i := i - 1;
        k := k + 1;
      }
    }

    lemma {:induction false} EmptyIffNull()
      requires Valid()
      ensures first == null <==> items == []
    {
    }

    /** frst. */
    method Frst() returns (key: int)
      requires Valid()
      ensures key == if Contents() != [] then Contents()[0] else 0
    {
      key := if first != null then first.key else 0;
    }

    /** size. */
    method Size() returns (n: nat)
      requires Valid()
      ensures n == |Contents()|
    {
      n := num;
    }

    /** operator(): the i-th item, counted from 1. The source exits where i is out of range, except
        that an empty list yields a null pointer for the first item. */
    method At(i: nat) returns (temp: Item?)
      requires Valid() && i > 0 && (i <= num || i == 1)
      ensures if i <= num then temp != null && temp == items[i - 1] && temp.key == Contents()[i - 1] else temp == null
    {
      temp := first;
      var n := i - 1;
      while n != 0
        invariant 0 <= n < i && temp == ItemAt(i - 1 - n)
      {
        temp := temp.next;
        n := n - 1;
      }
    }
  }

  /** The turn that the tries take with a list: the first key is removed and appended again. */
  method Rotate(l: List)
    requires l.Valid() && l.Contents() != []
    modifies l, l.items
    ensures l.Valid() && l.Contents() == old(l.Contents()[1..] + [l.Contents()[0]])
  {
    var key := l.Frst();
    l.RemoveFirst(1);
    l.Append(key);
  }
}
