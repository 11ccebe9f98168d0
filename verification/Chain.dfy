/** Singly linked items, as the lease pool and the lists of the scheduler are made of. */
module Chain {

  class Item<T> {
    var next: Item?<T>
    var value: T

    constructor (value: T)
      ensures next == null && this.value == value
    {
      next, this.value := null, value;
    }
  }

  /** The `k`th item, if there is one. */
  ghost function At<T>(items: seq<Item<T>>, k: int): Item?<T> {
    if 0 <= k < |items| then items[k] else null
  }

  /** The items are linked in this order, from `first` on. */
  ghost predicate Chained<T>(items: seq<Item<T>>, first: Item?<T>)
    reads items`next
  {
    first == At(items, 0) && forall i :: 0 <= i < |items| ==> items[i].next == At(items, i + 1)
  }

  ghost predicate Distinct<T>(items: seq<Item<T>>) {
    forall i, j :: 0 <= i < j < |items| ==> items[i] != items[j]
  }

  ghost function Values<T>(items: seq<Item<T>>): (values: seq<T>)
    reads items`value
    ensures |values| == |items| && forall i :: 0 <= i < |items| ==> values[i] == items[i].value
  {
    if items == [] then [] else Values(items[..|items| - 1]) + [items[|items| - 1].value]
  }

  lemma ValuesWith<T>(items: seq<Item<T>>, item: Item<T>)
    ensures Values(items + [item]) == Values(items) + [item.value]
  {
    assert (items + [item])[..|items|] == items;
  }

  /** `item` put in before the `k`th. */
  ghost function With<T>(items: seq<Item<T>>, k: nat, item: Item<T>): (r: seq<Item<T>>)
    requires k <= |items|
    ensures |r| == |items| + 1
  {
    items[..k] + [item] + items[k..]
  }

  /** The `k`th taken out. */
  ghost function Without<T>(items: seq<Item<T>>, k: nat): (r: seq<Item<T>>)
    requires k < |items|
    ensures |r| == |items| - 1
  {
    items[..k] + items[k + 1..]
  }

  lemma WithAt<T>(items: seq<Item<T>>, k: nat, item: Item<T>, i: int)
    requires k <= |items| && 0 <= i <= |items| + 1
    ensures At(With(items, k, item), i) == if i < k then items[i] else if i == k then item else At(items, i - 1)
  {
  }

  lemma WithoutAt<T>(items: seq<Item<T>>, k: nat, i: int)
    requires k < |items|
    ensures At(Without(items, k), i) == if i < k then At(items, i) else At(items, i + 1)
  {
  }

  lemma WithDistinct<T>(items: seq<Item<T>>, k: nat, item: Item<T>)
    requires Distinct(items) && k <= |items| && item !in items
    ensures Distinct(With(items, k, item)) && forall n :: n in With(items, k, item) ==> n in items || n == item
  {
    var r := With(items, k, item);
    forall i, j | 0 <= i < j < |r|
      ensures r[i] != r[j]
    {
      WithAt(items, k, item, i);
      WithAt(items, k, item, j);
    }
  }

  lemma WithoutDistinct<T>(items: seq<Item<T>>, k: nat)
    requires Distinct(items) && k < |items|
    ensures Distinct(Without(items, k)) && items[k] !in Without(items, k)
    ensures forall n :: n in Without(items, k) ==> n in items
  {
    var r := Without(items, k);
    forall i, j | 0 <= i < j < |r|
      ensures r[i] != r[j]
    {
      WithoutAt(items, k, i);
      WithoutAt(items, k, j);
    }
    forall i | 0 <= i < |r|
      ensures r[i] != items[k]
    {
      WithoutAt(items, k, i);
    }
  }

  lemma ValuesOfWith<T>(items: seq<Item<T>>, k: nat, item: Item<T>)
    requires k <= |items|
    ensures Values(With(items, k, item)) == Values(items)[..k] + [item.value] + Values(items)[k..]
  {
    hide Values;
    hide With;
    var r, s := With(items, k, item), Values(items)[..k] + [item.value] + Values(items)[k..];
    forall i | 0 <= i < |r|
      ensures Values(r)[i] == s[i]
    {
      WithAt(items, k, item, i);
    }
  }

  lemma ValuesOfWithout<T>(items: seq<Item<T>>, k: nat)
    requires k < |items|
    ensures Values(Without(items, k)) == Values(items)[..k] + Values(items)[k + 1..]
  {
    hide Values;
    hide Without;
    var r, values := Without(items, k), Values(items);
    forall i | 0 <= i < |r|
      ensures Values(r)[i] == (values[..k] + values[k + 1..])[i]
    {
      WithoutAt(items, k, i);
      LeftOutAt(values, k, i);
    }
  }

  lemma LeftOutAt<T>(s: seq<T>, k: nat, i: nat)
    requires k < |s| && i < |s| - 1
    ensures (s[..k] + s[k + 1..])[i] == if i < k then s[i] else s[i + 1]
  {
  }

  lemma EndsOf<T>(items: seq<Item<T>>, first: Item?<T>, item: Item<T>)
    requires Chained(items, first)
    ensures first == null <==> items == []
    ensures items == [] && item.next == null ==> Chained(items + [item], item)
  {
  }

  lemma Apart<T>(items: seq<Item<T>>, i: nat, j: nat)
    requires Distinct(items) && i < |items| && j < |items| && i != j
    ensures items[i] != items[j]
  {
  }

  /** Put `item` in at the head. */
  method LinkFirst<T>(first: Item?<T>, item: Item<T>, ghost items: seq<Item<T>>)
    requires Chained(items, first) && item !in items
    modifies item`next
    ensures Chained(With(items, 0, item), item)
  {
    hide With;
    ghost var r := With(items, 0, item);
    item.next := first;
    WithAt(items, 0, item, 0);
    forall i | 0 <= i < |r|
      ensures r[i].next == At(r, i + 1)
    {
      WithAt(items, 0, item, i);
      WithAt(items, 0, item, i + 1);
    }
  }

  /** Put `item` in behind `prev`, the item before the `k`th. */
  method LinkBehind<T>(prev: Item<T>, item: Item<T>, ghost first: Item?<T>, ghost items: seq<Item<T>>, ghost k: nat)
    requires Chained(items, first) && Distinct(items) && item !in items && 0 < k <= |items| && prev == items[k - 1]
    modifies item`next, prev`next
    ensures Chained(With(items, k, item), first)
  {
    hide Distinct;
    hide With;
    ghost var r := With(items, k, item);
    item.next := prev.next;
    prev.next := item;
    WithAt(items, k, item, 0);
    forall i | 0 <= i < |r|
      ensures r[i].next == At(r, i + 1)
    {
      WithAt(items, k, item, i);
      WithAt(items, k, item, i + 1);
      if i < k - 1 {
        Apart(items, i, k - 1);
        assert items[i] != item;
      } else if k < i {
        Apart(items, i - 1, k - 1);
        assert items[i - 1] != item;
      }
    }
  }

  /** Put `item` in behind `prev`, the item before the `k`th, or at the head; the result is the head. */
  method Link<T>(first: Item?<T>, prev: Item?<T>, item: Item<T>, ghost items: seq<Item<T>>, ghost k: nat)
    returns (head: Item?<T>)
    requires Chained(items, first) && Distinct(items) && item !in items && k <= |items| && prev == At(items, k - 1)
    modifies item`next, items`next
    ensures Chained(With(items, k, item), head)
  {
    hide Distinct;
    hide With;
    if prev == null {
      LinkFirst(first, item, items);
      head := item;
    } else {
      LinkBehind(prev, item, first, items, k);
      head := first;
    }
  }

  /** Put `item` in behind the last one. */
  method LinkLast<T>(last: Item<T>, item: Item<T>, ghost items: seq<Item<T>>, ghost first: Item?<T>)
    requires Chained(items, first) && Distinct(items) && last == At(items, |items| - 1)
    requires item.next == null && item !in items
    modifies last`next
    ensures Chained(items + [item], first)
  {
    last.next := item;
  }

  /**
    Take out the `k`th item, which lies behind `prev` or is the head; the results are the head and the item behind it.
  */
  method Unlink<T>(first: Item?<T>, prev: Item?<T>, item: Item<T>, ghost items: seq<Item<T>>, ghost k: nat)
    returns (head: Item?<T>, next: Item?<T>)
    requires Chained(items, first) && Distinct(items) && k < |items| && items[k] == item && prev == At(items, k - 1)
    modifies items`next
    ensures Chained(Without(items, k), head) && next == At(Without(items, k), k) && item.next == old(item.next)
  {
    hide Distinct;
    hide Without;
    ghost var r := Without(items, k);
    next := item.next;
    if prev != null {
      Apart(items, k - 1, k);
      prev.next := next;
      head := first;
    } else {
      head := next;
    }
    WithoutAt(items, k, 0);
    WithoutAt(items, k, k);
    forall i | 0 <= i < |r|
      ensures r[i].next == At(r, i + 1)
    {
      WithoutAt(items, k, i);
      WithoutAt(items, k, i + 1);
      if i < k - 1 {
        Apart(items, i, k - 1);
      } else if k <= i && 0 < k {
        Apart(items, i + 1, k - 1);
      }
    }
  }
}
