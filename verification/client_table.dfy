/**
 * The visitor table (wishpage-app/src/Table.tsx): one person's items in the
 * chosen category, and the reserve flow choose, then confirm or cancel.
 */
module VisitorTableView {
  import opened Wrappers
  import opened Text
  import opened Items
  import opened ItemView
  import opened ItemLists

  /** `PUT reserve/${id}`, without a body or a token. */
  function ReserveRequest(id: int): (q: Request)
    ensures q.verb == Put && q.body == NoBody && q.token == ""
  {
    Request(Put, "reserve/" + ShowInt(id), NoBody, "")
  }

  /** The text after the route is the id, and it parses back to that id. */
  lemma ReserveRequestNamesId(id: int)
    ensures HasPrefix(ReserveRequest(id).path, "reserve/")
    ensures ParseInteger(ReserveRequest(id).path[|"reserve/"|..]) == Some(id)
  {
    ParseShowInt(id);
    assert ReserveRequest(id).path[|"reserve/"|..] == ShowInt(id);
  }

  class VisitorTable {
    const person: string
    const category: string
    /** The item list the table was rendered with; the handlers patch this copy. */
    var items: seq<Item>
    var isDialogOpen: bool
    var chosenItem: Item
    /** The requests the table has issued, oldest first. */
    var requests: seq<Request>

    constructor (items: seq<Item>, person: string, category: string)
      ensures this.items == items && this.person == person && this.category == category
      ensures !isDialogOpen && chosenItem == ClientNullItem && requests == []
    {
      this.items := items;
      this.person := person;
      this.category := category;
      isDialogOpen := false;
      chosenItem := ClientNullItem;
      requests := [];
    }

    /** What the table shows: `None` when no item matches. */
    function Render(): (r: Option<seq<Row>>)
      reads this
      ensures r.None? <==> FilterFor(items, person, category) == []
    {
      RenderTable(items, person, category, false)
    }

    /** `handleReserve`: remember the chosen item and open the dialog; nothing else changes. */
    method HandleReserve(item: Item)
      modifies this
      ensures chosenItem == item && isDialogOpen
      ensures items == old(items) && requests == old(requests)
    {
      chosenItem := item;
      isDialogOpen := true;
    }

    /**
     * `handleReserveConfirm`: issue the reserve request; if it throws, nothing
     * else happens; once it resolves, a defined count decrements the chosen
     * item locally, and the dialog closes. The request parses the reply, and
     * the server always answers a number, so `Resolved(None)` (an undefined
     * count) does not arise against this server; the branch is kept because
     * the component tests for it.
     */
    method HandleReserveConfirm(reply: Reply<Option<int>>) returns (r: Result<(), ClientError>)
      modifies this
      ensures chosenItem == old(chosenItem)
      ensures requests == old(requests) + [ReserveRequest(chosenItem.id)]
      ensures reply.Threw? ==>
        r == Failure(RequestFailed) && items == old(items) && isDialogOpen == old(isDialogOpen)
      ensures reply.Resolved? ==>
        r == Success(()) && !isDialogOpen &&
        items == if reply.value.Some? then DecrementById(old(items), chosenItem.id) else old(items)
    {
      requests := requests + [ReserveRequest(chosenItem.id)];
      if reply.Threw? {
        return Failure(RequestFailed);
      }
      if reply.value.Some? {
        items := DecrementById(items, chosenItem.id);
      }
      isDialogOpen := false;
      r := Success(());
    }

    /** `handleReserveCancel`: close the dialog; no request, no change to the items. */
    method HandleReserveCancel()
      modifies this
      ensures !isDialogOpen
      ensures items == old(items) && requests == old(requests) && chosenItem == old(chosenItem)
    {
      isDialogOpen := false;
    }
  }
}
