/**
 * How the client's local patches relate to the server's changes. After a
 * fetch, every item the client holds is the server's row with that id; each
 * patch the client applies after a successful request keeps that so, except
 * for the one count value the server refuses to store.
 */
module Sync {
  import opened Wrappers
  import opened Text
  import opened Items
  import opened Hex
  import opened ItemStore
  import opened ServerHttp
  import opened ItemView
  import opened ItemLists
  import opened VisitorTableView
  import opened AdminTableView
  import opened LoginView

  /** Every item of the client's list is the server's row under its id. */
  predicate Mirrors(list: seq<Item>, rows: map<int, Item>)
  {
    forall i :: 0 <= i < |list| ==> list[i].id in rows && rows[list[i].id] == list[i]
  }

  /** Both sides use the same sentinel item. */
  lemma NullItemsAgree()
    ensures ClientNullItem == ItemStore.NullItem
  {
  }

  /** An id as the client writes it into a path is read back whole, negative ids included. */
  lemma IdTextRoundTrip(id: int)
    ensures ShowInt(id) != "" && !HasSuffix(ShowInt(id), "/")
    ensures ParseInteger(ShowInt(id)) == Some(id)
  {
    ParseShowInt(id);
    var s := ShowInt(id);
    assert s[|s| - 1..] == [s[|s| - 1]];
  }

  /** A client route `route + id` becomes the server path `prefix + id` once `fetch` adds '/'. */
  lemma RouteReadsBack(route: string, prefix: string, id: int)
    requires "/" + route == prefix
    ensures PathId("/" + (route + ShowInt(id)), prefix) == Success(ShowInt(id))
  {
    IdTextRoundTrip(id);
    assert "/" + (route + ShowInt(id)) == prefix + ShowInt(id);
    PathIdOfRoute(prefix, ShowInt(id));
  }

  /** A request whose path is `route + id` reaches the handler for `prefix` with the id intact. */
  lemma RequestReadsBack(q: Request, route: string, prefix: string, id: int)
    requires q.path == route + ShowInt(id) && "/" + route == prefix
    ensures PathId("/" + q.path, prefix) == Success(ShowInt(id))
  {
    RouteReadsBack(route, prefix, id);
  }

  /** The visitor table's reserve request reaches the reserve handler with the id intact. */
  lemma ReservePathReadsBack(id: int)
    ensures PathId("/" + ReserveRequest(id).path, ReservePrefix) == Success(ShowInt(id))
  {
    RequestReadsBack(ReserveRequest(id), "reserve/", ReservePrefix, id);
  }

  /** The admin table's count edit reaches the update handler with the id intact. */
  lemma UpdatePathReadsBack(id: int, count: int, token: string)
    ensures PathId("/" + CountRequest(id, count, token).path, UpdatePrefix) == Success(ShowInt(id))
  {
    RequestReadsBack(CountRequest(id, count, token), "admin/update/", UpdatePrefix, id);
  }

  /** The admin table's delete request reaches the delete handler with the id intact. */
  lemma DeletePathReadsBack(id: int, token: string)
    ensures PathId("/" + DeleteRequest(id, token).path, DeletePrefix) == Success(ShowInt(id))
  {
    RequestReadsBack(DeleteRequest(id, token), "admin/delete/", DeletePrefix, id);
  }

  /**
   * The ids the table hands out start at 1, so a negative id (the sentinel's
   * -1 among them) names no row: reserving or deleting it fails.
   */
  lemma NegativeIdNamesNoRow(rows: map<int, Item>, id: int)
    requires forall k :: k in rows ==> k >= 1
    requires id < 0
    ensures Reserving(rows, ShowInt(id)) == Outcome(Failure(NoRows), rows)
    ensures Deleting(rows, ShowInt(id)) == Outcome(Failure(NotFound), rows)
  {
  }

  /**
   * A successful reserve and the visitor table's local decrement agree: the
   * patched list mirrors the server's new rows, and the item's count is the
   * one the server reports.
   */
  lemma {:induction false} ReserveKeepsMirror(list: seq<Item>, rows: map<int, Item>, id: int)
    requires Mirrors(list, rows)
    requires Reserving(rows, ShowInt(id)).result.Success?
    ensures id in rows
    ensures Mirrors(DecrementById(list, id), Reserving(rows, ShowInt(id)).rows)
    ensures forall i :: 0 <= i < |list| && list[i].id == id ==>
      DecrementById(list, id)[i].count == Reserving(rows, ShowInt(id)).result.value
  {
    ParseShowInt(id);
    var o := Reserving(rows, ShowInt(id));
    var patched := DecrementById(list, id);
    forall i | 0 <= i < |patched|
      ensures patched[i].id in o.rows && o.rows[patched[i].id] == patched[i]
    {
      assert list[i].id in rows && rows[list[i].id] == list[i];
    }
  }

  /**
   * A successful count edit and the admin table's local patch agree, as long
   * as the new count is not the sentinel: the server decodes `{id, count}`
   * over its `NullItem`, merges only the count, and the patched list mirrors
   * the new rows.
   */
  lemma CountEditKeepsMirror(list: seq<Item>, rows: map<int, Item>, id: int, count: int)
    requires Mirrors(list, rows)
    requires count != NullUint
    requires Updating(rows, ShowInt(id), DecodeInto(ItemStore.NullItem, CountPatch(id, count))).result.Success?
    ensures id in rows
    ensures
      var o := Updating(rows, ShowInt(id), DecodeInto(ItemStore.NullItem, CountPatch(id, count)));
      o.rows == rows[id := rows[id].(count := count)] &&
      Mirrors(SetCountById(list, id, count), o.rows)
  {
    ParseShowInt(id);
    var body := DecodeInto(ItemStore.NullItem, CountPatch(id, count));
    assert body == ItemStore.NullItem.(id := id, count := count);
    MergeCountOnly(rows[id], count);
    var o := Updating(rows, ShowInt(id), body);
    assert o.rows == rows[id := rows[id].(count := count)];
    var patched := SetCountById(list, id, count);
    forall i | 0 <= i < |patched|
      ensures patched[i].id in o.rows && o.rows[patched[i].id] == patched[i]
    {
      assert list[i].id in rows && rows[list[i].id] == list[i];
    }
  }

  /**
   * Setting a count to -1 succeeds on the server but stores nothing, since
   * -1 is the "absent" sentinel; the admin table still shows -1, so the
   * client's list stops mirroring the server whenever the row's count was
   * something else.
   */
  lemma SentinelCountEditDiverges(list: seq<Item>, rows: map<int, Item>, id: int)
    requires Mirrors(list, rows)
    requires Updating(rows, ShowInt(id), DecodeInto(ItemStore.NullItem, CountPatch(id, NullUint))).result.Success?
    ensures id in rows
    ensures Updating(rows, ShowInt(id), DecodeInto(ItemStore.NullItem, CountPatch(id, NullUint))).rows == rows
    ensures (exists i :: 0 <= i < |list| && list[i].id == id) && rows[id].count != NullUint ==>
      !Mirrors(SetCountById(list, id, NullUint), rows)
  {
    ParseShowInt(id);
    var body := DecodeInto(ItemStore.NullItem, CountPatch(id, NullUint));
    assert body == ItemStore.NullItem.(id := id);
    assert Merge(rows[id], body) == rows[id];
    assert rows[id := rows[id]] == rows;
    if (exists i :: 0 <= i < |list| && list[i].id == id) && rows[id].count != NullUint {
      var i :| 0 <= i < |list| && list[i].id == id;
      assert SetCountById(list, id, NullUint)[i].count == NullUint;
    }
  }

  /** A successful delete and the admin table's local removal agree. */
  lemma DeleteKeepsMirror(list: seq<Item>, rows: map<int, Item>, id: int)
    requires Mirrors(list, rows)
    requires Deleting(rows, ShowInt(id)).result.Success?
    ensures id in rows
    ensures Deleting(rows, ShowInt(id)).rows == rows - {id}
    ensures Mirrors(RemoveById(list, id), Deleting(rows, ShowInt(id)).rows)
    ensures forall x :: x in RemoveById(list, id) ==> x.id != id
  {
    ParseShowInt(id);
    var o := Deleting(rows, ShowInt(id));
    var kept := RemoveById(list, id);
    forall i | 0 <= i < |kept|
      ensures kept[i].id in o.rows && o.rows[kept[i].id] == kept[i]
    {
      assert kept[i] in kept;
      var j :| 0 <= j < |list| && list[j] == kept[i];
      assert list[j].id in rows && rows[list[j].id] == list[j];
    }
  }

  /**
   * The client's hex digest is exactly Go's `%x` of the same bytes, so the
   * server accepts the login exactly when the client hashed the same
   * password bytes as the administrator's.
   */
  lemma LoginAcceptedIffSameDigest(server: Server, digest: seq<byte>)
    requires server.adminPasswordHash == GoHex(server.adminDigest)
    ensures server.PasswordAccepted(LoginRequest(digest).body.password) <==> server.adminDigest == digest
  {
  }
}
