/** The timeline item record of the `timeline_items` table, as the live
    view and the jump-to route see it. Timestamps are integer milliseconds. */
module Items {
  import opened Wrappers

  /** The `timeline_item_category` enumeration. */
  datatype Category = Setup | Performance | Catering | Breakdown | General

  /** The `status` column of a timeline item. */
  datatype ItemStatus = Pending | InProgress | Completed | Skipped

  /** One row of `timeline_items`. `end` is the nullable `end_time`. */
  datatype Item = Item(
    id: string,
    eventId: string,
    title: string,
    category: Category,
    start: int,
    end: Option<int>,
    status: ItemStatus,
    orderIndex: int)

  /** The sort key of the canonical order. */
  function OrderIndexOf(item: Item): int
  {
    item.orderIndex
  }

  /** True iff no two rows share an id (the table's primary key). */
  predicate UniqueIds(items: seq<Item>)
  {
    forall i, j :: 0 <= i < j < |items| ==> items[i].id != items[j].id
  }

  /** With unique ids, no row occurs twice. */
  lemma {:induction false} UniqueIdsOnce(items: seq<Item>, x: Item)
    requires UniqueIds(items)
    ensures multiset(items)[x] <= 1
  {
    if |items| > 0 {
      var front := items[..|items| - 1];
      assert forall k :: 0 <= k < |front| ==> front[k] == items[k];
      UniqueIdsOnce(front, x);
      assert items == front + [items[|items| - 1]];
      if items[|items| - 1] == x {
        assert x !in front;
      }
    }
  }

  /** An element at two positions occurs twice. */
  lemma CountTwo(items: seq<Item>, i: nat, j: nat)
    requires i < j < |items| && items[i] == items[j]
    ensures multiset(items)[items[i]] >= 2
  {
    assert items == items[..j] + items[j..];
    assert items[..j][i] == items[i];
    assert items[j..][0] == items[j];
  }

  /** Any selection of the rows of a table with unique ids has unique ids. */
  lemma UniqueIdsSub(sub: seq<Item>, items: seq<Item>)
    requires multiset(sub) <= multiset(items) && UniqueIds(items)
    ensures UniqueIds(sub)
  {
    forall i, j | 0 <= i < j < |sub|
      ensures sub[i].id != sub[j].id
    {
      if sub[i] == sub[j] {
        CountTwo(sub, i, j);
        UniqueIdsOnce(items, sub[i]);
        assert false;
      }
      assert sub[i] in multiset(items) && sub[j] in multiset(items);
      var p :| 0 <= p < |items| && items[p] == sub[i];
      var q :| 0 <= q < |items| && items[q] == sub[j];
      assert p != q;
    }
  }
}
