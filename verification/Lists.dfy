/** The intrusive circular doubly linked list of sb_list.h. */
module Lists {
  import opened Common

  /** sb_list_item_t, together with the structure it is embedded in
      (SB_LIST_ENTRY); the head of a list is embedded in nothing. */
  class Item<T> {
    var next: Item?<T>
    var prev: Item?<T>
    const entry: Option<T>

    constructor (entry: Option<T>)
      ensures this.entry == entry && next == null && prev == null
    {
      this.entry := entry;
      next, prev := null, null;
    }
  }

  /** The position after i on a ring of n items. */
  function Succ(i: nat, n: nat): nat {
    if i + 1 == n then 0 else i + 1
  }

  /** The i-th item and the one after it point at each other. */
  ghost predicate LinkedAt<T>(ns: seq<Item<T>>, i: nat)
    requires i < |ns|
    reads ns
  {
    ns[i].next == ns[Succ(i, |ns|)] && ns[Succ(i, |ns|)].prev == ns[i]
  }

  /** The items, in this order, are linked into a ring both ways. */
  ghost predicate Ring<T>(ns: seq<Item<T>>)
    reads ns
  {
    && |ns| >= 1
    && (forall i, j :: 0 <= i < j < |ns| ==> ns[i] != ns[j])
    && (forall i :: 0 <= i < |ns| ==> LinkedAt(ns, i))
  }

  /** The structures the items are embedded in. */
  ghost function Entries<T>(ns: seq<Item<T>>): (s: seq<T>)
    requires forall i :: 0 <= i < |ns| ==> ns[i].entry.Some?
    ensures |s| == |ns| && forall i :: 0 <= i < |ns| ==> s[i] == ns[i].entry.value
  {
    if ns == [] then [] else Entries(ns[..|ns| - 1]) + [ns[|ns| - 1].entry.value]
  }

  /** A list: its head and, as ghost, the items behind the head and every
      item the list has had. */
  class List<T> {
    const head: Item<T>
    ghost var nodes: seq<Item<T>>
    ghost var repr: set<Item<T>>

    ghost function Items(): seq<Item<T>>
      reads this
    {
      [head] + nodes
    }

    ghost predicate Valid()
      reads this, repr
    {
      && (forall i :: 0 <= i < |Items()| ==> Items()[i] in repr)
      && Ring(Items())
      && head.entry.None?
      && forall i :: 0 <= i < |nodes| ==> nodes[i].entry.Some?
    }

    /** What a loop over the list finds at its k-th item. */
    lemma LinkFrom(k: nat)
      requires Valid() && k <= |nodes|
      ensures Items()[k] in repr && Items()[k].next == Items()[Succ(k, |nodes| + 1)]
      ensures k < |nodes| ==> Items()[k + 1] == nodes[k] && nodes[k] != head
    {
      assert LinkedAt(Items(), k);
    }

    /** SB_LIST_INIT. */
    constructor ()
      ensures Valid() && nodes == [] && fresh(repr)
    {
      head := new Item<T>(None);
      nodes := [];
      repr := {head};
      new;
      head.next := head;
      head.prev := head;
    }

    /** SB_LIST_IS_EMPTY. */
    method IsEmpty() returns (b: bool)
      requires Valid()
      ensures b <==> nodes == []
    {
      b := head.next == head;
      assert LinkedAt(Items(), 0);
    }

    /** SB_LIST_ADD_TAIL of the item of a new structure. */
    method AddTail(item: Item<T>)
      requires Valid() && item !in repr && item.entry.Some?
      modifies this, repr, item
      ensures Valid() && nodes == old(nodes) + [item] && repr == old(repr) + {item}
    {
      ghost var ns := Items();
      ghost var last := |ns| - 1;
      assert LinkedAt(ns, last);
      item.prev := head.prev;
      item.next := head;
      head.prev := item;
      item.prev.next := item;
      nodes := nodes + [item];
      repr := repr + {item};
      assert Items() == ns + [item];
      forall i | 0 <= i < |Items()|
        ensures LinkedAt(Items(), i)
      {
        if i < last {
          assert old(LinkedAt(ns, i));
        }
      }
    }

    /** SB_LIST_DELETE of the k-th item. */
    method Delete(item: Item<T>, ghost k: nat)
      requires Valid() && k < |nodes| && nodes[k] == item
      modifies this`nodes, repr
      ensures Valid() && nodes == old(nodes[..k] + nodes[k + 1..])
    {
      ghost var ns := Items();
      assert LinkedAt(ns, k) && LinkedAt(ns, k + 1);
      item.next.prev := item.prev;
      item.prev.next := item.next;
      nodes := nodes[..k] + nodes[k + 1..];
      ghost var ms := Items();
      assert forall i :: 0 <= i < |ms| ==> ms[i] == ns[Skip(i, k)];
      forall i | 0 <= i < |ms|
        ensures LinkedAt(ms, i)
      {
        assert old(LinkedAt(ns, Skip(i, k)));
      }
    }
  }

  /** Where the item at position i was before position k + 1 was cut out. */
  ghost function Skip(i: nat, k: nat): nat {
    if i <= k then i else i + 1
  }
}
