/**
 * The server's `items` table (wishpage-server/main.go): a map from the
 * auto-incremented id to the stored row, with insert, reserve, partial update,
 * delete and the ordered listing. SQL statements are not modelled; a
 * transaction that rolls back is an operation that leaves the map as it was.
 */
module ItemStore {
  import opened Wrappers
  import opened Text
  import opened Items

  const NullString := "NULL"
  const NullUint := -1

  /** The update body's prefilled value: a field still holding its sentinel was not sent. */
  const NullItem := Item(NullUint, NullString, NullString, NullString, NullUint, NullUint, NullString)

  /** The insert body's prefilled value, `Item{Count: 1}`: only the count has a default. */
  const InsertDefault := Item(0, "", "", "", 0, 1, "")

  datatype StoreError =
    | NoRows           // the SELECT found no row with that id
    | AlreadyReserved  // "this item has already been reserved"
    | NothingReserved  // "not item with id ... was reserved": the guarded UPDATE changed no row
    | NotFound         // "couldn't find an item with id ..."

  /** The result of a store operation together with the table after it. */
  datatype Outcome<T> = Outcome(result: Result<T, StoreError>, rows: map<int, Item>)

  /** Every stored row carries its own key as its id. */
  ghost predicate WellKeyed(rows: map<int, Item>)
  {
    forall k :: k in rows ==> rows[k].id == k
  }

  /** The row an id taken from a URL path selects in `WHERE id = ?`, if any. */
  function RowKey(rows: map<int, Item>, id: string): (k: Option<int>)
    ensures k.Some? <==> ParseInteger(id).Some? && ParseInteger(id).value in rows
    ensures k.Some? ==> k.value in rows && ParseInteger(id) == Some(k.value)
  {
    match ParseInteger(id)
    case Some(n) => if n in rows then Some(n) else None
    case None => None
  }

  // ---------------------------------------------------------------------
  // Partial update
  // ---------------------------------------------------------------------

  /**
   * The merge of `updateItem`: each body field holding its sentinel keeps the
   * stored value, any other value replaces it; the stored id is kept and the
   * body's id is never used.
   */
  function Merge(stored: Item, body: Item): (r: Item)
    ensures r.id == stored.id
    ensures body == NullItem ==> r == stored
  {
    Item(stored.id,
         if body.name != NullString then body.name else stored.name,
         if body.person != NullString then body.person else stored.person,
         if body.link != NullString then body.link else stored.link,
         if body.price != NullUint then body.price else stored.price,
         if body.count != NullUint then body.count else stored.count,
         if body.category != NullString then body.category else stored.category)
  }

  /** A merged field holds the sentinel only if the stored row already held it. */
  lemma MergeNeverWritesSentinel(stored: Item, body: Item)
    ensures Merge(stored, body).name == NullString ==> stored.name == NullString
    ensures Merge(stored, body).person == NullString ==> stored.person == NullString
    ensures Merge(stored, body).link == NullString ==> stored.link == NullString
    ensures Merge(stored, body).price == NullUint ==> stored.price == NullUint
    ensures Merge(stored, body).count == NullUint ==> stored.count == NullUint
    ensures Merge(stored, body).category == NullString ==> stored.category == NullString
  {
  }

  /** A body without sentinels replaces every field but the id. */
  lemma MergeFullBody(stored: Item, body: Item)
    requires body.name != NullString && body.person != NullString && body.link != NullString
    requires body.price != NullUint && body.count != NullUint && body.category != NullString
    ensures Merge(stored, body) == body.(id := stored.id)
  {
  }

  /** Sending the same update twice has the effect of sending it once. */
  lemma MergeIdempotent(stored: Item, body: Item)
    ensures Merge(Merge(stored, body), body) == Merge(stored, body)
  {
  }

  /**
   * Merging a body whose fields are all sentinels except the count changes
   * only the count: the shape of the admin table's `{id, count}` payload.
   */
  lemma MergeCountOnly(stored: Item, count: int)
    requires count != NullUint
    ensures Merge(stored, NullItem.(count := count)) == stored.(count := count)
  {
  }

  function Updating(rows: map<int, Item>, id: string, body: Item): (o: Outcome<()>)
    ensures o.result.Success? <==> RowKey(rows, id).Some?
    ensures o.result.Failure? ==> o.result.error == NoRows && o.rows == rows
    ensures o.result.Success? ==>
      var k := RowKey(rows, id).value;
      o.rows.Keys == rows.Keys && o.rows[k] == Merge(rows[k], body) &&
      forall j :: j in rows && j != k ==> o.rows[j] == rows[j]
  {
    match RowKey(rows, id)
    case None => Outcome(Failure(NoRows), rows)
    case Some(k) => Outcome(Success(()), rows[k := Merge(rows[k], body)])
  }

  // ---------------------------------------------------------------------
  // Reserve
  // ---------------------------------------------------------------------

  /**
   * `decreaseAmount`: succeeds exactly when the row exists with a positive
   * count, lowers that count by one and returns the new count; every failure
   * rolls back.
   */
  function Reserving(rows: map<int, Item>, id: string): (o: Outcome<int>)
    ensures o.result.Success? <==> RowKey(rows, id).Some? && rows[RowKey(rows, id).value].count > 0
    ensures o.result.Failure? ==> o.rows == rows
    ensures RowKey(rows, id).None? ==> o.result == Failure(NoRows)
    ensures RowKey(rows, id).Some? && rows[RowKey(rows, id).value].count == 0 ==>
      o.result == Failure(AlreadyReserved)
    ensures RowKey(rows, id).Some? && rows[RowKey(rows, id).value].count < 0 ==>
      o.result == Failure(NothingReserved)
    ensures o.result.Success? ==>
      var k := RowKey(rows, id).value;
      o.result.value == rows[k].count - 1 && o.result.value >= 0 &&
      o.rows.Keys == rows.Keys && o.rows[k] == rows[k].(count := rows[k].count - 1) &&
      forall j :: j in rows && j != k ==> o.rows[j] == rows[j]
  {
    match RowKey(rows, id)
    case None => Outcome(Failure(NoRows), rows)
    case Some(k) =>
      if rows[k].count == 0 then Outcome(Failure(AlreadyReserved), rows)
      else if rows[k].count < 0 then Outcome(Failure(NothingReserved), rows)
      else Outcome(Success(rows[k].count - 1), rows[k := rows[k].(count := rows[k].count - 1)])
  }

  // ---------------------------------------------------------------------
  // Delete
  // ---------------------------------------------------------------------

  function Deleting(rows: map<int, Item>, id: string): (o: Outcome<()>)
    ensures o.result.Success? <==> RowKey(rows, id).Some?
    ensures o.result.Failure? ==> o.result.error == NotFound && o.rows == rows
    ensures o.result.Success? ==>
      o.rows.Keys == rows.Keys - {RowKey(rows, id).value} &&
      forall j :: j in o.rows ==> o.rows[j] == rows[j]
  {
    match RowKey(rows, id)
    case None => Outcome(Failure(NotFound), rows)
    case Some(k) => Outcome(Success(()), rows - {k})
  }

  // ---------------------------------------------------------------------
  // Listing order
  // ---------------------------------------------------------------------

  /** `ORDER BY price ASC, name ASC`: `a` may come before `b`. */
  predicate PriceNameBefore(a: Item, b: Item)
  {
    a.price < b.price || (a.price == b.price && !Less(b.name, a.name))
  }

  /** The listing order refined by id, which makes it strict and total on distinct rows. */
  predicate ListedBefore(a: Item, b: Item)
  {
    a.price < b.price ||
    (a.price == b.price && (Less(a.name, b.name) || (a.name == b.name && a.id < b.id)))
  }

  ghost predicate StrictlyListed(s: seq<Item>)
  {
    forall i, j :: 0 <= i < j < |s| ==> ListedBefore(s[i], s[j])
  }

  lemma ListedBeforeIrreflexive(a: Item)
    ensures !ListedBefore(a, a)
  {
    LessIrreflexive(a.name);
  }

  lemma ListedBeforeTransitive(a: Item, b: Item, c: Item)
    requires ListedBefore(a, b) && ListedBefore(b, c)
    ensures ListedBefore(a, c)
  {
    if a.price == b.price == c.price {
      if Less(a.name, b.name) && Less(b.name, c.name) {
        LessTransitive(a.name, b.name, c.name);
      }
    }
  }

  lemma ListedBeforeTotal(a: Item, b: Item)
    requires a.id != b.id
    ensures ListedBefore(a, b) || ListedBefore(b, a)
  {
    LessTotal(a.name, b.name);
  }

  lemma ListedBeforeIsPriceName(a: Item, b: Item)
    requires ListedBefore(a, b)
    ensures PriceNameBefore(a, b)
  {
    if a.price == b.price && Less(a.name, b.name) {
      LessAsymmetric(a.name, b.name);
    } else if a.price == b.price {
      LessIrreflexive(a.name);
    }
  }

  /** Places one row into a listing at its position. */
  function InsertListed(s: seq<Item>, x: Item): (r: seq<Item>)
    ensures |r| == |s| + 1
    ensures multiset(r) == multiset(s) + multiset{x}
    ensures forall y :: y in r <==> y == x || y in s
  {
    if s == [] || ListedBefore(x, s[0]) then [x] + s
    else
      assert s == [s[0]] + s[1..];
      [s[0]] + InsertListed(s[1..], x)
  }

  lemma {:induction false} InsertListedKeepsOrder(s: seq<Item>, x: Item)
    requires StrictlyListed(s)
    requires forall y :: y in s ==> y.id != x.id
    ensures StrictlyListed(InsertListed(s, x))
  {
    var r := InsertListed(s, x);
    if s == [] {
    } else if ListedBefore(x, s[0]) {
      forall i, j | 0 <= i < j < |r| ensures ListedBefore(r[i], r[j]) {
        if i == 0 && j > 1 {
          ListedBeforeTransitive(x, s[0], s[j - 1]);
        }
      }
    } else {
      ListedBeforeTotal(x, s[0]);
      InsertListedKeepsOrder(s[1..], x);
      var t := InsertListed(s[1..], x);
      assert r == [s[0]] + t;
      forall j | 0 <= j < |t| ensures ListedBefore(s[0], t[j]) {
        assert t[j] in t;
        if t[j] != x {
          assert t[j] in s[1..];
          var m :| 0 <= m < |s[1..]| && s[1..][m] == t[j];
          assert s[m + 1] == t[j];
        }
      }
    }
  }

  // ---------------------------------------------------------------------
  // The table
  // ---------------------------------------------------------------------

  class ItemTable {
    /** The rows of the `items` table, by id. */
    var rows: map<int, Item>
    /** The id AUTOINCREMENT hands out next; ids are never reused. */
    var nextId: int

    ghost predicate Valid()
      reads this
    {
      1 <= nextId && WellKeyed(rows) && forall k :: k in rows ==> 1 <= k < nextId
    }

    /** `CREATE TABLE IF NOT EXISTS` on a fresh database. */
    constructor ()
      ensures Valid() && rows == map[] && nextId == 1
    {
      rows := map[];
      nextId := 1;
    }

    /**
     * `insertItem`: adds one row under a fresh id; the body's id is not a
     * column of the INSERT and is ignored; existing rows are untouched.
     */
    method Insert(item: Item)
      requires Valid()
      modifies this
      ensures Valid()
      ensures old(nextId) !in old(rows) && nextId == old(nextId) + 1
      ensures rows == old(rows)[old(nextId) := item.(id := old(nextId))]
    {
      rows := rows[nextId := item.(id := nextId)];
      nextId := nextId + 1;
    }

    /** `decreaseAmount`: select the count, refuse zero, decrement where positive, commit. */
    method Reserve(id: string) returns (r: Result<int, StoreError>)
      requires Valid()
      modifies this
      ensures Valid() && nextId == old(nextId)
      ensures r == Reserving(old(rows), id).result && rows == Reserving(old(rows), id).rows
    {
      var key := RowKey(rows, id);
      if key.None? {
        return Failure(NoRows);
      }
      var k := key.value;
      var finalValue := rows[k].count;
      if finalValue == 0 {
        return Failure(AlreadyReserved);
      }
      if !(rows[k].count > 0) {
        return Failure(NothingReserved);
      }
      rows := rows[k := rows[k].(count := rows[k].count - 1)];
      r := Success(finalValue - 1);
    }

    /** `updateItem`: read the stored row, overwrite it field by field, write it back. */
    method Update(id: string, body: Item) returns (r: Result<(), StoreError>)
      requires Valid()
      modifies this
      ensures Valid() && nextId == old(nextId)
      ensures r == Updating(old(rows), id, body).result && rows == Updating(old(rows), id, body).rows
    {
      var key := RowKey(rows, id);
      if key.None? {
        return Failure(NoRows);
      }
      var oldItem := rows[key.value];
      if body.name != NullString {
        oldItem := oldItem.(name := body.name);
      }
      if body.person != NullString {
        oldItem := oldItem.(person := body.person);
      }
      if body.link != NullString {
        oldItem := oldItem.(link := body.link);
      }
      if body.price != NullUint {
        oldItem := oldItem.(price := body.price);
      }
      if body.count != NullUint {
        oldItem := oldItem.(count := body.count);
      }
      if body.category != NullString {
        oldItem := oldItem.(category := body.category);
      }
      rows := rows[oldItem.id := oldItem];
      r := Success(());
    }

    /** `deleteItem`: remove the row, or report that none had that id. */
    method Delete(id: string) returns (r: Result<(), StoreError>)
      requires Valid()
      modifies this
      ensures Valid() && nextId == old(nextId)
      ensures r == Deleting(old(rows), id).result && rows == Deleting(old(rows), id).rows
    {
      var key := RowKey(rows, id);
      if key.None? {
        return Failure(NotFound);
      }
      rows := rows - {key.value};
      r := Success(());
    }

    /**
     * `getItems`: every row exactly once, in `ORDER BY price, name` order. The
     * rows come out of the table in no particular order and each is placed at
     * its position in the listing.
     */
    method GetItems() returns (items: seq<Item>)
      requires Valid()
      ensures forall i :: 0 <= i < |items| ==> items[i].id in rows && rows[items[i].id] == items[i]
      ensures forall k :: k in rows ==> rows[k] in items
      ensures forall i, j :: 0 <= i < j < |items| ==>
        PriceNameBefore(items[i], items[j]) && items[i].id != items[j].id
    {
      items := [];
      var pending := rows.Keys;
      while pending != {}
        invariant pending <= rows.Keys
        invariant StrictlyListed(items)
        invariant forall y :: y in items ==> y.id in rows && rows[y.id] == y && y.id !in pending
        invariant forall key :: key in rows && key !in pending ==> rows[key] in items
        decreases pending
      {
        assert (forall key :: key !in pending) ==> pending == {};
        var k :| k in pending;
        InsertListedKeepsOrder(items, rows[k]);
        items := InsertListed(items, rows[k]);
        pending := pending - {k};
      }
      forall i, j | 0 <= i < j < |items|
        ensures PriceNameBefore(items[i], items[j]) && items[i].id != items[j].id
      {
        ListedBeforeIsPriceName(items[i], items[j]);
        if items[i].id == items[j].id {
          ListedBeforeIrreflexive(items[i]);
        }
      }
    }
  }
}
