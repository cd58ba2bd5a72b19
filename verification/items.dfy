/**
 * The wishlist item as both sides see it, and the JSON traffic between them.
 * The Go `Item` struct and the TypeScript `Item` interface have the same seven
 * fields; integers are unbounded here (see README, "Left out").
 */
module Items {
  import opened Wrappers

  datatype Item = Item(
    id: int,
    name: string,
    person: string,
    link: string,
    price: int,
    count: int,
    category: string)

  /**
   * A JSON object sent as an item body: each of the seven keys is present
   * with a value, or absent.
   */
  datatype ItemJson = ItemJson(
    id: Option<int>,
    name: Option<string>,
    person: Option<string>,
    link: Option<string>,
    price: Option<int>,
    count: Option<int>,
    category: Option<string>)

  /** `JSON.stringify` of a complete client item: every key present. */
  function ItemToJson(item: Item): (j: ItemJson)
    ensures j.id.Some? && j.name.Some? && j.person.Some? && j.link.Some?
    ensures j.price.Some? && j.count.Some? && j.category.Some?
  {
    ItemJson(Some(item.id), Some(item.name), Some(item.person), Some(item.link),
             Some(item.price), Some(item.count), Some(item.category))
  }

  /**
   * `json.NewDecoder(body).Decode(&target)` on a struct that was filled in
   * beforehand: every key present in the body overwrites its field, every
   * absent key leaves the prefilled value.
   */
  function DecodeInto(target: Item, body: ItemJson): (r: Item)
    ensures body.id.Some? ==> r.id == body.id.value
    ensures body.id.None? ==> r.id == target.id
    ensures body.name.Some? ==> r.name == body.name.value
    ensures body.name.None? ==> r.name == target.name
    ensures body.person.Some? ==> r.person == body.person.value
    ensures body.person.None? ==> r.person == target.person
    ensures body.link.Some? ==> r.link == body.link.value
    ensures body.link.None? ==> r.link == target.link
    ensures body.price.Some? ==> r.price == body.price.value
    ensures body.price.None? ==> r.price == target.price
    ensures body.count.Some? ==> r.count == body.count.value
    ensures body.count.None? ==> r.count == target.count
    ensures body.category.Some? ==> r.category == body.category.value
    ensures body.category.None? ==> r.category == target.category
  {
    Item(body.id.GetOr(target.id), body.name.GetOr(target.name),
         body.person.GetOr(target.person), body.link.GetOr(target.link),
         body.price.GetOr(target.price), body.count.GetOr(target.count),
         body.category.GetOr(target.category))
  }

  /** Decoding what the client serialized gives back the client's item, whatever was prefilled. */
  lemma DecodeItemToJson(target: Item, item: Item)
    ensures DecodeInto(target, ItemToJson(item)) == item
  {
  }

  // HTTP requests the client issues, recorded in order by the client state
  // machines; whether a request succeeds is an input of each handler.

  datatype Verb = Get | Post | Put | Delete

  datatype Payload = NoBody | ItemBody(json: ItemJson) | LoginBody(password: string)

  /** One call of the request helper; `token` is '' when no bearer token is sent. */
  datatype Request = Request(verb: Verb, path: string, body: Payload, token: string)

  /** How an awaited request ends: it throws, or it resolves to a value. */
  datatype Reply<+T> = Threw | Resolved(value: T)

  /** Why a client handler throws: no token in local storage, or a failed request. */
  datatype ClientError = MissingToken | RequestFailed

  /**
   * `if (!token)` on the value read from local storage: both a missing entry
   * and the empty string count as no token.
   */
  function TokenPresent(token: Option<string>): (present: bool)
    ensures token.None? ==> !present
    ensures token == Some("") ==> !present
    ensures token.Some? && token.value != "" ==> present
  {
    token.Some? && token.value != ""
  }
}
