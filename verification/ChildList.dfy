// The children of a cJSON array or object: a doubly linked list whose first element's prev, where it
// is set, is meant to be the last element, so that appending need not walk.
module ChildList {
  import opened Bytes

  class Item {
    var next: Item?
    var prev: Item?
    var child: Item?

    constructor ()
      ensures next == null && prev == null && child == null
    {
      next, prev, child := null, null, null;
    }
  }

  ghost predicate Linked(a: Item, b: Item)
    reads a, b
  {
    a.next == b && b.prev == a
  }

  ghost predicate Apart(parent: Item, items: seq<Item>) {
    parent !in items && forall i, j | 0 <= i < j < |items| :: items[i] != items[j]
  }

  // The chain from the child pointer to the end, in both directions. What the prev of the first
  // element is does not matter here.
  ghost predicate Children(parent: Item, items: seq<Item>)
    reads parent, items
  {
    && Apart(parent, items)
    && (if items == [] then parent.child == null
        else parent.child == items[0] && items[|items| - 1].next == null)
    && forall i | 0 <= i < |items| - 1 :: Linked(items[i], items[i + 1])
  }

  // The prev of the first element is unset or true.
  ghost predicate TailKnown(items: seq<Item>)
    reads items
  {
    items != [] ==> items[0].prev == null || items[0].prev == items[|items| - 1]
  }

  // get_array_item
  method GetArrayItem(parent: Item, index: nat, ghost items: seq<Item>) returns (item: Item?)
    requires Children(parent, items)
    ensures item == if index < |items| then items[index] else null
  {
    item := parent.child;
    var left: nat := index;
    ghost var i := 0;
    while item != null && left > 0
      invariant i <= |items| && left + i == index
      invariant item == if i < |items| then items[i] else null
      decreases left
    {
      assert i < |items| - 1 ==> Linked(items[i], items[i + 1]);
      left := left - 1;
      item := item.next;
      i := i + 1;
    }
  }

  method SuffixObject(prev: Item, item: Item)
    modifies prev`next, item`prev
    ensures prev.next == item && item.prev == prev
  {
    prev.next := item;
    item.prev := prev;
  }

  ghost function FirstPrev(items: seq<Item>): set<Item>
    reads items
  {
    if items != [] && items[0].prev != null then {items[0].prev} else {}
  }

  // add_item_to_array. With the tail known, appending through it is appending at the end; but the
  // next of the item is cleared only for an empty list, and otherwise left as it was. If the prev of
  // the first element is an element that was detached, the new one is lost: it hangs behind the
  // detached one, and the list is as before.
  method AddItemToArray(parent: Item, item: Item, ghost items: seq<Item>) returns (ok: bool)
    requires Children(parent, items)
    requires TailKnown(items) || (items[0].prev !in items && items[0].prev != item && items[0].prev != parent)
    requires item !in items
    modifies parent`child, items`next, items`prev, item`next, item`prev, FirstPrev(items)`next
    ensures ok <==> item != parent
    ensures ok && old(TailKnown(items)) ==>
      && (Children(parent, items + [item]) <==> items == [] || old(item.next) == null)
      && (items + [item])[0].prev == item && TailKnown(items + [item])
    ensures ok && !old(TailKnown(items)) ==>
      && Children(parent, items) && !TailKnown(items)
      && old(items[0].prev).next == item && item.prev == old(items[0].prev) && item.next == old(item.next)
    ensures !ok ==> Children(parent, items) && TailKnown(items) == old(TailKnown(items))
  {
    if parent == item {
      return false;
    }
    var child := parent.child;
    if child == null {
      parent.child := item;
      item.prev := item;
      item.next := null;
    } else {
      if child.prev != null {
        SuffixObject(child.prev, item);
        parent.child.prev := item;
      } else {
        ghost var i := 0;
        while child.next != null
          invariant i < |items| && child == items[i]
          decreases |items| - i
        {
          assert i < |items| - 1 ==> Linked(items[i], items[i + 1]);
          child := child.next;
          i := i + 1;
        }
        assert i < |items| - 1 ==> Linked(items[i], items[i + 1]);
        SuffixObject(child, item);
        parent.child.prev := item;
      }
    }
    ok := true;
    ghost var all := if old(TailKnown(items)) then items + [item] else items;
    forall i | 0 <= i < |all| - 1 ensures Linked(all[i], all[i + 1]) {
      if i < |items| - 1 {
        assert old(Linked(items[i], items[i + 1]));
      }
    }
  }

  function Inserted<T>(items: seq<T>, which: int, x: T): seq<T> {
    if 0 <= which < |items| then items[..which] + [x] + items[which..] else items + [x]
  }

  // The new element has the index, or is the last; the others keep their order.
  lemma InsertedAt<T>(items: seq<T>, which: int, x: T)
    ensures var all, at := Inserted(items, which, x), if 0 <= which < |items| then which else |items|;
      && |all| == |items| + 1 && all[at] == x
      && (forall i | 0 <= i < at :: all[i] == items[i]) && (forall i | at <= i < |items| :: all[i + 1] == items[i])
  {
  }

  // cJSON_InsertItemInArray
  method InsertItemInArray(parent: Item, which: int, newItem: Item, ghost items: seq<Item>) returns (ok: bool)
    requires Children(parent, items) && TailKnown(items)
    requires newItem !in items && newItem != parent
    modifies parent`child, items`next, items`prev, newItem`next, newItem`prev, FirstPrev(items)`next
    ensures ok <==> which >= 0
    ensures ok ==>
      && TailKnown(Inserted(items, which, newItem))
      && (Children(parent, Inserted(items, which, newItem))
          <==> which < |items| || items == [] || old(newItem.next) == null)
    ensures !ok ==> Children(parent, items) && TailKnown(items)
  {
    if which < 0 {
      return false;
    }
    var afterInserted := GetArrayItem(parent, which, items);
    if afterInserted == null {
      ok := AddItemToArray(parent, newItem, items);
      return;
    }
    InsertBefore(parent, afterInserted, newItem, which, items);
    ok := true;
  }

  // The part of cJSON_InsertItemInArray for an element in front of another.
  method InsertBefore(parent: Item, afterInserted: Item, newItem: Item, ghost which: nat, ghost items: seq<Item>)
    requires Children(parent, items) && TailKnown(items) && which < |items| && afterInserted == items[which]
    requires newItem !in items && newItem != parent
    modifies parent`child, items`next, items`prev, newItem`next, newItem`prev
    ensures Children(parent, Inserted(items, which, newItem)) && TailKnown(Inserted(items, which, newItem))
  {
    ghost var all := Inserted(items, which, newItem);
    assert all == items[..which] + [newItem] + items[which..];
    hide Inserted;
    assert which > 0 ==> Linked(items[which - 1], items[which]);
    newItem.next := afterInserted;
    newItem.prev := afterInserted.prev;
    afterInserted.prev := newItem;
    if afterInserted == parent.child {
      parent.child := newItem;
    } else {
      newItem.prev.next := newItem;
    }
    forall i | 0 <= i < |items| ensures Linked(all[i], all[i + 1]) {
      if i < which - 1 {
        assert all[i] == items[i] && all[i + 1] == items[i + 1];
        assert old(Linked(items[i], items[i + 1]));
      } else if i > which {
        assert all[i] == items[i - 1] && all[i + 1] == items[i];
        assert old(Linked(items[i - 1], items[i]));
      }
    }
  }

  // cJSON_DetachItemViaPointer. The list is what it should be; but the tail is known afterwards in
  // all cases but one: the last of several elements was detached while the first one pointed to it.
  method DetachItemViaPointer(parent: Item, item: Item, ghost items: seq<Item>, ghost at: nat)
    requires Children(parent, items) && TailKnown(items) && at < |items| && items[at] == item
    modifies parent`child, items`next, items`prev
    ensures Children(parent, Without(items, at)) && item.next == null && item.prev == null
    ensures TailKnown(Without(items, at)) <==> !(at > 0 && at == |items| - 1 && old(items[0].prev) == item)
    ensures !TailKnown(Without(items, at)) ==> Without(items, at)[0].prev == item
  {
    ghost var rest := Without(items, at);
    assert at > 0 ==> Linked(items[at - 1], items[at]);
    assert at < |items| - 1 ==> Linked(items[at], items[at + 1]);
    if item != parent.child {
      item.prev.next := item.next;
    }
    if item.next != null {
      item.next.prev := item.prev;
    }
    if item == parent.child {
      parent.child := item.next;
    }
    item.prev := null;
    item.next := null;
    forall i | 0 <= i < |rest| - 1 ensures Linked(rest[i], rest[i + 1]) {
      if i < at - 1 {
        assert rest[i] == items[i] && rest[i + 1] == items[i + 1];
        assert old(Linked(items[i], items[i + 1]));
      } else if i >= at {
        assert rest[i] == items[i + 1] && rest[i + 1] == items[i + 2];
        assert old(Linked(items[i + 1], items[i + 2]));
      }
    }
  }

  // Detaching the last of several elements while the first one points to it, and appending: the new
  // item hangs behind the detached one and is not in the list.
  method DetachLastThenAppend(parent: Item, item: Item, newItem: Item, ghost items: seq<Item>)
    requires Children(parent, items) && |items| > 1 && items[|items| - 1] == item && items[0].prev == item
    requires newItem !in items && newItem != parent
    modifies parent`child, items`next, items`prev, newItem`next, newItem`prev
    ensures Children(parent, items[..|items| - 1]) && item !in items[..|items| - 1]
    ensures item.next == newItem && newItem.prev == item
  {
    ghost var rest := Without(items, |items| - 1);
    assert rest == items[..|items| - 1];
    DetachItemViaPointer(parent, item, items, |items| - 1);
    var _ := AddItemToArray(parent, newItem, rest);
  }

  // The list as parse_array and parse_object build it: the first element's prev stays unset.
  method AttachParsed(parent: Item, newItems: seq<Item>)
    requires Apart(parent, newItems)
    requires forall i | 0 <= i < |newItems| :: newItems[i].next == null && newItems[i].prev == null
    modifies parent`child, newItems`next, newItems`prev
    ensures Children(parent, newItems) && TailKnown(newItems)
  {
    var head: Item? := null;
    var currentItem: Item? := null;
    for i := 0 to |newItems|
      invariant i == 0 ==> head == null && currentItem == null
      invariant i > 0 ==> head == newItems[0] && currentItem == newItems[i - 1] && head.prev == null
      invariant forall k | 0 <= k < i - 1 :: Linked(newItems[k], newItems[k + 1])
      invariant forall k | i <= k < |newItems| :: newItems[k].prev == null
      invariant forall k | 0 <= k < |newItems| && i - 1 <= k :: newItems[k].next == null
    {
      var newItem := newItems[i];
      if head == null {
        currentItem, head := newItem, newItem;
      } else {
        currentItem.next := newItem;
        newItem.prev := currentItem;
        currentItem := newItem;
      }
    }
    parent.child := head;
  }
}
