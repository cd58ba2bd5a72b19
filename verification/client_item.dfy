/**
 * The client's item definitions and creation form (wishpage-app/src/Item.tsx):
 * the `NullItem` sentinels, the fixed categories, the row label, and the
 * `ItemForm` state with its change and submit handlers.
 */
module ItemView {
  import opened Wrappers
  import opened Text
  import opened Items

  /** The client's `NullItem`; it must agree with the server's sentinels. */
  const ClientNullItem := Item(-1, "NULL", "NULL", "NULL", -1, -1, "NULL")

  datatype Category = Category(name: string, symbol: string)

  const ExistingCategories: seq<Category> := [
    Category("Shared Experience", "\U{1F37A}"),
    Category("Specific Item", "\U{1F381}"),
    Category("Buyer's Choice", "\U{1F4A1}")
  ]

  /** There are three categories and no two share a name. */
  lemma CategoriesDistinct()
    ensures |ExistingCategories| == 3
    ensures forall i, j :: 0 <= i < j < |ExistingCategories| ==>
      ExistingCategories[i].name != ExistingCategories[j].name
  {
  }

  /** The visible text of a row: the name, then " (price€)" when the price is positive. */
  function LabelText(item: Item): (t: string)
    ensures HasPrefix(t, item.name)
    ensures t == item.name <==> item.price <= 0
    ensures item.price > 0 ==> t[|item.name|..] == " (" + ShowNat(item.price) + "\U{20AC})"
  {
    var text := item.name;
    if item.price > 0 then
      var suffix := " (" + ShowNat(item.price) + "\U{20AC})";
      assert (text + suffix)[|text|..] == suffix;
      text + suffix
    else text
  }

  /** What `labelForItem` renders: a link when the item has one, plain text otherwise. */
  datatype Label = Plain(text: string) | Anchor(href: string, text: string)

  function LabelForItem(item: Item): (l: Label)
    ensures l.text == LabelText(item)
    ensures l.Anchor? <==> |item.link| > 0
    ensures l.Anchor? ==> l.href == item.link
  {
    var text := LabelText(item);
    if |item.link| > 0 then Anchor(item.link, text) else Plain(text)
  }

  /** The last option of the person selector, which reveals the new-person input. */
  const OtherPerson := "> New Person..."

  /** The form's item before any input. */
  const InitialFormItem := Item(-1, "", "", "", 0, 1, "")

  /** `[...people, otherPerson]`: the known people in order, then the new-person option. */
  function PeopleOptions(people: seq<string>): (r: seq<string>)
    ensures |r| == |people| + 1
    ensures r[..|people|] == people && r[|people|] == OtherPerson
  {
    people + [OtherPerson]
  }

  /**
   * `{...prevItem, [name]: value}` for the form's inputs: count and price take
   * the parsed integer `number`, the other fields the text `value`. Names that
   * are not form fields leave the item as it is.
   */
  function WithField(item: Item, name: string, value: string, number: int): (r: Item)
    ensures r.id == item.id
    ensures name == "name" ==> r == item.(name := value)
    ensures name == "person" ==> r == item.(person := value)
    ensures name == "link" ==> r == item.(link := value)
    ensures name == "category" ==> r == item.(category := value)
    ensures name == "price" ==> r == item.(price := number)
    ensures name == "count" ==> r == item.(count := number)
    ensures name !in {"name", "person", "link", "category", "price", "count"} ==> r == item
  {
    match name
    case "name" => item.(name := value)
    case "person" => item.(person := value)
    case "link" => item.(link := value)
    case "category" => item.(category := value)
    case "price" => item.(price := number)
    case "count" => item.(count := number)
    case _ => item
  }

  /** The state of the creation form. */
  class ItemForm {
    var item: Item
    /** The value of the person selector. */
    var person: string
    var isConfirmDialogOpen: bool
    /** The requests the form has issued, oldest first. */
    var requests: seq<Request>

    constructor ()
      ensures item == InitialFormItem && person == "" && !isConfirmDialogOpen && requests == []
    {
      item := InitialFormItem;
      person := "";
      isConfirmDialogOpen := false;
      requests := [];
    }

    /**
     * `handleChange`: "person" sets the selector and the item's person,
     * "other" sets only the item's person, any other input sets its own field.
     */
    method HandleChange(name: string, value: string, number: int)
      modifies this
      ensures person == if name == "person" then value else old(person)
      ensures item == if name == "other" then old(item).(person := value) else WithField(old(item), name, value, number)
      ensures isConfirmDialogOpen == old(isConfirmDialogOpen) && requests == old(requests)
    {
      if name == "person" {
        person := value;
      }
      if name == "other" {
        item := item.(person := value);
      } else {
        item := WithField(item, name, value, number);
      }
    }

    /**
     * `handleSubmit`: without a token it throws before any request; otherwise
     * it posts the item with the token and, once that succeeds, opens the
     * success message. On success the caller refetches the items.
     */
    method HandleSubmit(token: Option<string>, reply: Reply<()>) returns (r: Result<(), ClientError>)
      modifies this
      ensures item == old(item) && person == old(person)
      ensures !TokenPresent(token) ==>
        r == Failure(MissingToken) && requests == old(requests) &&
        isConfirmDialogOpen == old(isConfirmDialogOpen)
      ensures TokenPresent(token) ==>
        requests == old(requests) + [Request(Post, "admin/insert", ItemBody(ItemToJson(item)), token.value)]
      ensures TokenPresent(token) && reply.Threw? ==>
        r == Failure(RequestFailed) && isConfirmDialogOpen == old(isConfirmDialogOpen)
      ensures TokenPresent(token) && reply.Resolved? ==> r == Success(()) && isConfirmDialogOpen
    {
      if !TokenPresent(token) {
        return Failure(MissingToken);
      }
      requests := requests + [Request(Post, "admin/insert", ItemBody(ItemToJson(item)), token.value)];
      if reply.Threw? {
        return Failure(RequestFailed);
      }
      isConfirmDialogOpen := true;
      r := Success(());
    }

    /** The success message's acknowledge button. */
    method CloseMessage()
      modifies this
      ensures !isConfirmDialogOpen
      ensures item == old(item) && person == old(person) && requests == old(requests)
    {
      isConfirmDialogOpen := false;
    }
  }
}
