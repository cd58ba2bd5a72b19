/**
 * The admin table (wishpage-app/src/AdminTable.tsx): the same rows as the
 * visitor table with a count input and a delete button; the delete flow
 * (choose, then confirm or cancel) and the count edit both need the token.
 */
module AdminTableView {
  import opened Wrappers
  import opened Text
  import opened Items
  import opened ItemView
  import opened ItemLists

  /** The `{id, count}` body of a count edit: every other key is absent. */
  function CountPatch(id: int, count: int): (j: ItemJson)
    ensures j.id == Some(id) && j.count == Some(count)
    ensures j.name.None? && j.person.None? && j.link.None? && j.price.None? && j.category.None?
  {
    ItemJson(Some(id), None, None, None, None, Some(count), None)
  }

  /** `DELETE admin/delete/${id}` with the token. */
  function DeleteRequest(id: int, token: string): (q: Request)
    ensures q.verb == Delete && q.body == NoBody && q.token == token
  {
    Request(Delete, "admin/delete/" + ShowInt(id), NoBody, token)
  }

  /** The text after the route is the id, and it parses back to that id. */
  lemma DeleteRequestNamesId(id: int, token: string)
    ensures HasPrefix(DeleteRequest(id, token).path, "admin/delete/")
    ensures ParseInteger(DeleteRequest(id, token).path[|"admin/delete/"|..]) == Some(id)
  {
    ParseShowInt(id);
    assert DeleteRequest(id, token).path[|"admin/delete/"|..] == ShowInt(id);
  }

  /** `PUT admin/update/${id}` with the `{id, count}` patch and the token. */
  function CountRequest(id: int, count: int, token: string): (q: Request)
    ensures q.verb == Put && q.token == token
    ensures q.body.ItemBody? && q.body.json.id == Some(id) && q.body.json.count == Some(count)
  {
    Request(Put, "admin/update/" + ShowInt(id), ItemBody(CountPatch(id, count)), token)
  }

  /** The path names the same id as the patch: the text after the route parses back to it. */
  lemma CountRequestNamesId(id: int, count: int, token: string)
    ensures HasPrefix(CountRequest(id, count, token).path, "admin/update/")
    ensures ParseInteger(CountRequest(id, count, token).path[|"admin/update/"|..]) == Some(id)
  {
    ParseShowInt(id);
    assert CountRequest(id, count, token).path[|"admin/update/"|..] == ShowInt(id);
  }

  class AdminTable {
    const person: string
    const category: string
    /** The item list the table was rendered with; the handlers patch this copy. */
    var items: seq<Item>
    var isDialogOpen: bool
    var chosenItem: Item
    /** The requests the table has issued, oldest first. */
    var requests: seq<Request>

    constructor (items: seq<Item>, person: string, category: string)
      ensures this.items == items && this.person == person && this.category == category
      ensures !isDialogOpen && chosenItem == ClientNullItem && requests == []
    {
      this.items := items;
      this.person := person;
      this.category := category;
      isDialogOpen := false;
      chosenItem := ClientNullItem;
      requests := [];
    }

    /** What the table shows: `None` when no item matches. */
    function Render(): (r: Option<seq<Row>>)
      reads this
      ensures r.None? <==> FilterFor(items, person, category) == []
    {
      RenderTable(items, person, category, true)
    }

    /** `handleDelete`: remember the chosen item and open the dialog; nothing else changes. */
    method HandleDelete(item: Item)
      modifies this
      ensures chosenItem == item && isDialogOpen
      ensures items == old(items) && requests == old(requests)
    {
      chosenItem := item;
      isDialogOpen := true;
    }

    /**
     * `handleDeleteConfirm`: without a token it throws before any request or
     * change; otherwise it issues the delete and, once that succeeds, removes
     * the chosen id locally and closes the dialog.
     */
    method HandleDeleteConfirm(token: Option<string>, reply: Reply<()>) returns (r: Result<(), ClientError>)
      modifies this
      ensures chosenItem == old(chosenItem)
      ensures !TokenPresent(token) ==>
        r == Failure(MissingToken) && items == old(items) &&
        isDialogOpen == old(isDialogOpen) && requests == old(requests)
      ensures TokenPresent(token) ==> requests == old(requests) + [DeleteRequest(chosenItem.id, token.value)]
      ensures TokenPresent(token) && reply.Threw? ==>
        r == Failure(RequestFailed) && items == old(items) && isDialogOpen == old(isDialogOpen)
      ensures TokenPresent(token) && reply.Resolved? ==>
        r == Success(()) && !isDialogOpen && items == RemoveById(old(items), chosenItem.id)
    {
      if !TokenPresent(token) {
        return Failure(MissingToken);
      }
      requests := requests + [DeleteRequest(chosenItem.id, token.value)];
      if reply.Threw? {
        return Failure(RequestFailed);
      }
      items := RemoveById(items, chosenItem.id);
      isDialogOpen := false;
      r := Success(());
    }

    /** `handleDeleteCancel`: close the dialog; no request, no change to the items. */
    method HandleDeleteCancel()
      modifies this
      ensures !isDialogOpen
      ensures items == old(items) && requests == old(requests) && chosenItem == old(chosenItem)
    {
      isDialogOpen := false;
    }

    /**
     * `handleChangeCount`: without a token it throws before any request;
     * otherwise it sends `{id, count}` and, once that succeeds, sets the count
     * of the items with that id locally.
     */
    method HandleChangeCount(itemId: int, count: int, token: Option<string>, reply: Reply<()>)
      returns (r: Result<(), ClientError>)
      modifies this
      ensures isDialogOpen == old(isDialogOpen) && chosenItem == old(chosenItem)
      ensures !TokenPresent(token) ==>
        r == Failure(MissingToken) && items == old(items) && requests == old(requests)
      ensures TokenPresent(token) ==> requests == old(requests) + [CountRequest(itemId, count, token.value)]
      ensures TokenPresent(token) && reply.Threw? ==> r == Failure(RequestFailed) && items == old(items)
      ensures TokenPresent(token) && reply.Resolved? ==>
        r == Success(()) && items == SetCountById(old(items), itemId, count)
    {
      if !TokenPresent(token) {
        return Failure(MissingToken);
      }
      requests := requests + [CountRequest(itemId, count, token.value)];
      if reply.Threw? {
        return Failure(RequestFailed);
      }
      items := SetCountById(items, itemId, count);
      r := Success(());
    }
  }
}
