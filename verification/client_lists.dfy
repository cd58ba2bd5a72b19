/**
 * The list transforms the two table components (wishpage-app/src/Table.tsx,
 * wishpage-app/src/AdminTable.tsx) apply to the item list, and the rows they
 * render. Both components filter the same way, so the filter is defined once.
 */
module ItemLists {
  import opened Wrappers
  import opened Items
  import opened ItemView

  /** `Array.prototype.filter`: the items satisfying `p`, in their original order. */
  function Keep(items: seq<Item>, p: Item -> bool): (r: seq<Item>)
    ensures |r| <= |items|
    ensures forall x :: x in r <==> x in items && p(x)
  {
    if items == [] then [] else (if p(items[0]) then [items[0]] else []) + Keep(items[1..], p)
  }

  /** Filtering distributes over concatenation, so the kept items stay in their order. */
  lemma {:induction false} KeepConcat(a: seq<Item>, b: seq<Item>, p: Item -> bool)
    ensures Keep(a + b, p) == Keep(a, p) + Keep(b, p)
  {
    if a == [] {
      assert a + b == b;
    } else {
      assert (a + b)[1..] == a[1..] + b;
      KeepConcat(a[1..], b, p);
    }
  }

  /** A list whose every element satisfies `p` is kept whole. */
  lemma {:induction false} KeepAll(items: seq<Item>, p: Item -> bool)
    requires forall i :: 0 <= i < |items| ==> p(items[i])
    ensures Keep(items, p) == items
  {
    if items != [] {
      KeepAll(items[1..], p);
    }
  }

  predicate Matches(item: Item, person: string, category: string)
  {
    item.category == category && item.person == person
  }

  /** The rows of one person's table in one category. */
  function FilterFor(items: seq<Item>, person: string, category: string): (r: seq<Item>)
    ensures |r| <= |items|
    ensures forall x :: x in r <==> x in items && x.category == category && x.person == person
  {
    Keep(items, (x: Item) => Matches(x, person, category))
  }

  /** The filter keeps a single item exactly when it matches, and respects concatenation. */
  lemma FilterForInOrder(a: seq<Item>, b: seq<Item>, x: Item, person: string, category: string)
    ensures FilterFor(a + b, person, category) == FilterFor(a, person, category) + FilterFor(b, person, category)
    ensures FilterFor([x], person, category) == if Matches(x, person, category) then [x] else []
  {
    KeepConcat(a, b, (x: Item) => Matches(x, person, category));
    assert [x][1..] == [];
  }

  /** `items.filter(item => item.id != id)`: the local removal after a delete. */
  function RemoveById(items: seq<Item>, id: int): (r: seq<Item>)
    ensures forall x :: x in r <==> x in items && x.id != id
  {
    Keep(items, (x: Item) => x.id != id)
  }

  /** Removal keeps the order of the surviving items. */
  lemma RemoveByIdInOrder(a: seq<Item>, b: seq<Item>, id: int)
    ensures RemoveById(a + b, id) == RemoveById(a, id) + RemoveById(b, id)
  {
    KeepConcat(a, b, (x: Item) => x.id != id);
  }

  /** Removing an id that no item carries leaves the list as it was. */
  lemma RemoveAbsentId(items: seq<Item>, id: int)
    requires forall i :: 0 <= i < |items| ==> items[i].id != id
    ensures RemoveById(items, id) == items
  {
    KeepAll(items, (x: Item) => x.id != id);
  }

  /**
   * The local patch after a reserve: the count of each item with that id
   * drops by one; the length, the order and every other field stay.
   */
  function DecrementById(items: seq<Item>, id: int): (r: seq<Item>)
    ensures |r| == |items|
    ensures forall i :: 0 <= i < |items| ==>
      r[i] == if items[i].id == id then items[i].(count := items[i].count - 1) else items[i]
  {
    if items == [] then []
    else
      [if items[0].id == id then items[0].(count := items[0].count - 1) else items[0]]
      + DecrementById(items[1..], id)
  }

  /** The local patch after an admin count edit: only the items with that id get the new count. */
  function SetCountById(items: seq<Item>, id: int, count: int): (r: seq<Item>)
    ensures |r| == |items|
    ensures forall i :: 0 <= i < |items| ==>
      r[i] == if items[i].id == id then items[i].(count := count) else items[i]
  {
    if items == [] then []
    else [if items[0].id == id then items[0].(count := count) else items[0]] + SetCountById(items[1..], id, count)
  }

  /**
   * One rendered row: label and count, struck through when nothing is left;
   * the visitor table offers "Reserve 1", the admin table a count input and a
   * delete button.
   */
  datatype Row = Row(id: int, caption: Label, count: int, struckThrough: bool, reserveButton: bool, deleteButton: bool)

  function RowFor(item: Item, admin: bool): Row
  {
    Row(item.id, LabelForItem(item), item.count, item.count == 0, !admin && item.count > 0, admin)
  }

  /** A table for one person and category; nothing at all when no item matches. */
  function RenderTable(items: seq<Item>, person: string, category: string, admin: bool): (r: Option<seq<Row>>)
    ensures r.None? <==> FilterFor(items, person, category) == []
    ensures r.Some? ==>
      var filtered := FilterFor(items, person, category);
      |r.value| == |filtered| &&
      forall i :: 0 <= i < |filtered| ==>
        r.value[i].id == filtered[i].id && r.value[i].caption == LabelForItem(filtered[i]) &&
        r.value[i].count == filtered[i].count &&
        (r.value[i].struckThrough <==> filtered[i].count == 0) &&
        (r.value[i].reserveButton <==> !admin && filtered[i].count > 0) &&
        r.value[i].deleteButton == admin
  {
    var filtered := FilterFor(items, person, category);
    if |filtered| == 0 then None
    else Some(seq(|filtered|, i requires 0 <= i < |filtered| => RowFor(filtered[i], admin)))
  }
}
