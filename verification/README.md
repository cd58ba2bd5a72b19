# wishpage in Dafny

wishpage is a small shared wishlist. A Go server keeps the items in one
SQLite table. A React client shows one table per person, filtered by
category. Visitors reserve items one at a time. An administrator logs in with
a password and can then create, re-count and delete items.

This project models the stateful core of both sides:

- **The server's item store** (`ItemStore`). The `items` table is a map from
  the auto-incremented id to the row. The model covers insert, reserve
  (`decreaseAmount`), the partial update with its `NullItem` sentinels, delete
  and the `ORDER BY price, name` listing. A rolled-back transaction is an
  operation that leaves the map as it was.
- **The server's handlers** (`ServerHttp`). This covers the id taken from the
  URL path, the bearer-token gate, the login limiter map keyed by remote address, the client IP for
  the logs, and the admin password check.
- **The client** (`ItemView`, `ItemLists`, `VisitorTableView`,
  `AdminTableView`, `AppView`, `LoginView`). This covers the person/category
  filter, the local patches after a reserve, a count edit or a delete, the
  `people` list, the row label, the creation form, the confirm-dialog flows
  and the login/admin-mode flow.
- **The hex rendering of the password digest** (`Hex`). The client renders
  each byte with `toString(16)` and `padStart`; the server uses Go's `%x`.
- **Client/server agreement** (`Sync`). After a successful request, the
  client's local patch leaves its list mirroring the server's rows. The ids
  the client writes into paths reach the row they name. A login is accepted
  exactly when the digests agree.

State that the source changes in place is modelled as classes:

- `ItemTable` holds the rows and the next id.
- `Server` holds the limiter map.
- `ItemForm`, `VisitorTable`, `AdminTable`, `App` and `Login` hold the React
  state of each component.

Each method states its new state through a pure specification function
(`Reserving`, `Updating`, `Deleting`, `DecrementById`, `SetCountById`,
`RemoveById`, ...). The properties are proved about those functions.

Inputs the code cannot compute are parameters:

- **Request outcomes.** Whether a request resolves or throws is a `Reply`
  value passed to the handler that awaits it. Every client component keeps
  the requests it issued, in order, in a `requests` field. For the app this
  is the `GET items` of `fetchItems`.
- **Local storage.** The token read from local storage is an `Option<string>`.
- **Hashing.** The SHA-256 digest of a password is an abstract byte sequence.
- **JWT.** Token validation is an opaque predicate `isValid`.
- **Host parsing.** The result of `net.SplitHostPort` is an `Option<string>`.

Files: `wrappers.dfy`, `text.dfy`, `items.dfy`, `hex.dfy`,
`server_store.dfy`, `server_http.dfy`, `client_item.dfy`, `client_lists.dfy`,
`client_table.dfy`, `client_admin.dfy`, `client_app.dfy`, `client_login.dfy`
and `sync.dfy`.

Two behaviours of the code worth knowing:

- **A -1 count from the admin table.** The server ignores it, because -1 is
  the "not sent" sentinel, but the client still shows it.
  `Sync.SentinelCountEditDiverges` states this.
- **The login limiter is keyed by the remote address, not the IP.** The
  login handler looks up its limiter under `RemoteAddr`, which is
  "host:port". A client that reconnects from a new port gets a fresh bucket
  of 10 attempts per minute. `Server.GetIPLimiter` takes the key as given.
- **A visitor reserve that the server refuses.** The reply is an HTTP error,
  so the request throws. The dialog therefore stays open and the list stays
  as it was.

## Model

| member | source | states |
|---|---|---|
| Text.LessIrreflexive | wishpage-app/src/App.tsx:27 | no string sorts before itself |
| Text.LessTransitive | wishpage-app/src/App.tsx:27 | the string order used for sorting is transitive |
| Text.LessTotal | wishpage-app/src/App.tsx:27 | any two different strings are ordered one way or the other |
| Text.LessAsymmetric | wishpage-server/main.go:488 | two strings are never each before the other |
| Text.TrimPrefix | wishpage-server/main.go:146 | a string with the prefix is the prefix followed by the result; a string without it is returned unchanged |
| Text.TrimSuffix | wishpage-server/main.go:207 | a string with the suffix is the result followed by the suffix; a string without it is returned unchanged |
| Text.FirstField | wishpage-server/main.go:166 | the first element of a split is a prefix of the string, holds no separator, and ends where the string ends or at a separator |
| Text.ShowNat | wishpage-app/src/Item.tsx:42 | the decimal text of a price is non-empty, all digits and has no leading zero |
| Text.ShowInt | wishpage-app/src/Table.tsx:27 | the decimal text of an id is non-empty and consists of digits only exactly when the id is non-negative |
| Text.ParseDecimal | wishpage-server/main.go:518-520 | an id text names a number exactly when it is a non-empty string of digits |
| Text.ParseInteger | wishpage-server/main.go:518-520 | an id text names an integer exactly when it is digits, optionally after one '-'; digits give their value and '-' then digits give its negation |
| Text.ParseShowInt | wishpage-server/main.go:518-520 | the text of every id, negative ones included, reads back as that id |
| Hex.PadStart | wishpage-app/src/Login.tsx:22 | padding yields the wider of the two lengths, ends with the original string and is filled in front with the fill character |
| Hex.ToRadix16 | wishpage-app/src/Login.tsx:22 | `toString(16)` is lowercase hex digits whose value is the number; it is one digit exactly below 16 and has no leading zero |
| Hex.ByteHex | wishpage-app/src/Login.tsx:22 | every byte renders as exactly its high and low lowercase hex digit, zero-padded, and those digits read back as the byte |
| Hex.DigestHex | wishpage-app/src/Login.tsx:19-22 | the client's joined rendering is twice as long as the digest and lowercase hex throughout |
| Hex.GoHex | wishpage-server/main.go:55 | `%x` of a digest has two characters per byte, all lowercase hex digits |
| Hex.DigestHexIsGoHex | wishpage-app/src/Login.tsx:19-22 | the client's joined rendering equals Go's `%x` of the same bytes, for every digest |
| Hex.DigestHexMatchesGoHex | wishpage-server/main.go:115 | the client's rendering of a digest equals `%x` of another exactly when the two digests are equal |
| Hex.HexDecodeGoHex | wishpage-server/main.go:55 | the `%x` rendering decodes back to the digest |
| Hex.GoHexInjective | wishpage-server/main.go:115 | two renderings are equal exactly when the digests are equal |
| Items.DecodeItemToJson | wishpage-server/main.go:266-267 | decoding a complete client item over any prefilled struct yields that item |
| Items.ItemToJson | wishpage-app/src/Item.tsx:93 | serializing a complete client item sends every one of the seven keys |
| Items.DecodeInto | wishpage-server/main.go:242-243 | each key present in the body overwrites its field; each absent key keeps the prefilled value |
| Items.TokenPresent | wishpage-app/src/Item.tsx:89 | a missing entry and the empty string both count as no token; any other stored string is a token |
| ItemStore.RowKey | wishpage-server/main.go:518-520 | an id text selects a row exactly when it parses to a key present in the table |
| ItemStore.Merge | wishpage-server/main.go:571-593 | the merged row keeps the stored id, and merging the all-sentinel body leaves the row as stored |
| ItemStore.MergeNeverWritesSentinel | wishpage-server/main.go:571-593 | no merged field holds its sentinel unless the stored row already did: an update can never set a field to "NULL" or -1 |
| ItemStore.MergeFullBody | wishpage-server/main.go:571-600 | a body without sentinels replaces every field except the id |
| ItemStore.MergeIdempotent | wishpage-server/main.go:571-593 | applying the same update twice gives the same row as applying it once |
| ItemStore.MergeCountOnly | wishpage-server/main.go:587-589 | a body that carries only a non-sentinel count changes only the count |
| ItemStore.Updating | wishpage-server/main.go:554-618 | an update succeeds exactly when the id names a row; on failure the table is unchanged; on success only that row changes, to the merge, and the key set is kept |
| ItemStore.Reserving | wishpage-server/main.go:509-552 | a reserve succeeds exactly when the row exists with a positive count; a missing row, count 0 and a negative count each fail with their own error and leave the table unchanged; success returns the old count minus one and changes only that row's count |
| ItemStore.Deleting | wishpage-server/main.go:448-465 | a delete succeeds exactly when the id names a row, then removes that key only; otherwise it fails with "not found" and changes nothing |
| ItemStore.ListedBeforeIrreflexive | wishpage-server/main.go:488 | no row is listed before itself |
| ItemStore.ListedBeforeTransitive | wishpage-server/main.go:488 | the listing order is transitive |
| ItemStore.ListedBeforeTotal | wishpage-server/main.go:488 | any two rows with different ids are ordered one way or the other |
| ItemStore.ListedBeforeIsPriceName | wishpage-server/main.go:488 | the listing order refines "price ascending, then name ascending" |
| ItemStore.InsertListed | wishpage-server/main.go:495-504 | placing a row into the listing adds exactly that row: the result is the old listing plus that one row, as a multiset |
| ItemStore.InsertListedKeepsOrder | wishpage-server/main.go:488 | placing a row with a new id into a sorted listing keeps it sorted |
| ItemStore.ItemTable.constructor | wishpage-server/main.go:467-485 | a new table is empty and hands out id 1 first |
| ItemStore.ItemTable.Insert | wishpage-server/main.go:438-446 | an insert adds exactly one row, under a fresh id, and leaves existing rows untouched |
| ItemStore.ItemTable.Reserve | wishpage-server/main.go:509-552 | the step-by-step transaction has exactly the effect and result of `Reserving` |
| ItemStore.ItemTable.Update | wishpage-server/main.go:554-618 | the field-by-field overwrite has exactly the effect and result of `Updating` |
| ItemStore.ItemTable.Delete | wishpage-server/main.go:448-465 | the delete has exactly the effect and result of `Deleting` |
| ItemStore.ItemTable.GetItems | wishpage-server/main.go:487-507 | the listing holds every row exactly once, each as stored, in non-decreasing (price, name) order |
| ServerHttp.PathId | wishpage-server/main.go:205-212 | the id is the path without the route prefix and at most one trailing '/'; it is never empty |
| ServerHttp.PathIdOfRoute | wishpage-server/main.go:206-207 | an id without a trailing '/' is read back from its route, with or without one slash after it |
| ServerHttp.PathIdMissing | wishpage-server/main.go:209-212 | the bare route and the route with one slash are refused as a missing id |
| ServerHttp.Authorize | wishpage-server/main.go:138-159 | an admin request passes exactly when the header is non-empty and the token after "Bearer " is valid; otherwise it fails with "no token" or "invalid token" |
| ServerHttp.HandleReserve | wishpage-server/main.go:198-224 | a missing id is refused before the store is touched; otherwise the table changes as `Reserving` says and its error or count is returned; the next id is never changed |
| ServerHttp.HandleUpdate | wishpage-server/main.go:226-257 | an unauthorized request or a missing id changes nothing; otherwise the body decoded over `NullItem` is merged as `Updating` says; the next id is never changed |
| ServerHttp.HandleInsert | wishpage-server/main.go:259-281 | an unauthorized request changes nothing, the next id included; otherwise the body decoded over `Item{Count: 1}` is inserted under the next id, which was unused, and the next id goes up by one |
| ServerHttp.InsertCountDefaultsToOne | wishpage-server/main.go:266 | an insert body without a count stores count 1; a body with one stores that count |
| ServerHttp.HandleDelete | wishpage-server/main.go:283-306 | an unauthorized request or a missing id changes nothing; otherwise the table changes as `Deleting` says; the next id is never changed |
| ServerHttp.ClientIP | wishpage-server/main.go:161-175 | a non-empty X-Forwarded-For gives its first comma-separated entry; otherwise the split host, or the remote address when it cannot be split |
| ServerHttp.RateLimiter.constructor | wishpage-server/main.go:74 | a limiter keeps the refill period and the burst it was made with |
| ServerHttp.Server.constructor | wishpage-server/main.go:54-55 | the server remembers the admin password's digest, the stored password hash is `%x` of it, and there are no limiters yet |
| ServerHttp.Server.GetIPLimiter | wishpage-server/main.go:68-79 | a known key gets its own limiter and the map is unchanged; an unknown one gets a new 10-per-minute limiter as the only new entry |
| ServerHttp.Server.PasswordAccepted | wishpage-server/main.go:115 | a login password is accepted exactly when it equals the stored hash as a string; a password rendered the client's way from a digest is accepted exactly when that digest is the administrator's |
| ItemView.CategoriesDistinct | wishpage-app/src/Item.tsx:32-36 | there are exactly three categories and their names are distinct |
| ItemView.LabelText | wishpage-app/src/Item.tsx:40-43 | the label starts with the name, equals the name exactly when the price is not positive, and otherwise continues with " (price€)" |
| ItemView.LabelForItem | wishpage-app/src/Item.tsx:39-48 | the label is a link, to the item's link, exactly when the link is non-empty |
| ItemView.PeopleOptions | wishpage-app/src/Item.tsx:68-69 | the person options are the known people in order, followed by the new-person option last |
| ItemView.WithField | wishpage-app/src/Item.tsx:78-83 | an input changes only its own field, count and price as integers; other names change nothing |
| ItemView.ItemForm.constructor | wishpage-app/src/Item.tsx:56-66 | the form starts with id -1, empty texts, price 0, count 1, no selected person and the message closed |
| ItemView.ItemForm.HandleChange | wishpage-app/src/Item.tsx:71-84 | "other" changes only the item's person; "person" also sets the selector; any other input changes only its own field |
| ItemView.ItemForm.HandleSubmit | wishpage-app/src/Item.tsx:86-94 | without a token nothing is sent and nothing changes; otherwise the whole item is posted with the token, and a success opens the message |
| ItemView.ItemForm.CloseMessage | wishpage-app/src/Item.tsx:198-202 | acknowledging the message closes it and changes nothing else |
| ItemLists.FilterFor | wishpage-app/src/Table.tsx:14 | an item is kept exactly when both its category and its person match |
| ItemLists.FilterForInOrder | wishpage-app/src/AdminTable.tsx:14 | the filter keeps one item exactly when it matches and distributes over concatenation, so the order is kept |
| ItemLists.RemoveById | wishpage-app/src/AdminTable.tsx:32 | an item survives a local delete exactly when its id differs from the deleted one |
| ItemLists.RemoveByIdInOrder | wishpage-app/src/AdminTable.tsx:32 | removal distributes over concatenation, so the survivors keep their order |
| ItemLists.RemoveAbsentId | wishpage-app/src/AdminTable.tsx:32 | removing an id no item has leaves the list as it was |
| ItemLists.DecrementById | wishpage-app/src/Table.tsx:29 | after a reserve, only items with the chosen id lose exactly one from their count; length, order and every other field stay |
| ItemLists.SetCountById | wishpage-app/src/AdminTable.tsx:50 | after a count edit, only items with that id get the new count; everything else stays |
| ItemLists.RenderTable | wishpage-app/src/Table.tsx:57-72 | nothing is rendered when no item matches; otherwise one row per matching item in order, struck through exactly when its count is 0, with "Reserve 1" exactly for a visitor and a positive count |
| VisitorTableView.ReserveRequest | wishpage-app/src/Table.tsx:27 | the reserve request is a PUT without a body and without a token |
| VisitorTableView.ReserveRequestNamesId | wishpage-app/src/Table.tsx:27 | the reserve path is `reserve/` followed by text that parses back to the chosen id |
| VisitorTableView.VisitorTable.constructor | wishpage-app/src/Table.tsx:13-16 | the table starts with the dialog closed and the null item chosen |
| VisitorTableView.VisitorTable.Render | wishpage-app/src/Table.tsx:17-19 | the table renders nothing exactly when no item matches |
| VisitorTableView.VisitorTable.HandleReserve | wishpage-app/src/Table.tsx:21-24 | choosing an item records it and opens the dialog; items and requests are untouched |
| VisitorTableView.VisitorTable.HandleReserveConfirm | wishpage-app/src/Table.tsx:26-34 | the reserve request for the chosen id is sent; if it throws nothing else changes; once it resolves with a count the chosen id is decremented locally, and the dialog closes |
| VisitorTableView.VisitorTable.HandleReserveCancel | wishpage-app/src/Table.tsx:36-39 | cancelling closes the dialog, sends nothing and leaves the items |
| AdminTableView.CountPatch | wishpage-app/src/AdminTable.tsx:48 | the count-edit body carries the id and the count and no other key |
| AdminTableView.DeleteRequest | wishpage-app/src/AdminTable.tsx:31 | the delete request is a DELETE without a body, sent with the token |
| AdminTableView.DeleteRequestNamesId | wishpage-app/src/AdminTable.tsx:31 | the delete path is `admin/delete/` followed by text that parses back to the chosen id |
| AdminTableView.CountRequest | wishpage-app/src/AdminTable.tsx:48-49 | the count edit is a PUT with the token whose body carries the id and the new count |
| AdminTableView.CountRequestNamesId | wishpage-app/src/AdminTable.tsx:49 | the update path is `admin/update/` followed by text that parses back to the id of the patch |
| AdminTableView.AdminTable.constructor | wishpage-app/src/AdminTable.tsx:13-16 | the table starts with the dialog closed and the null item chosen |
| AdminTableView.AdminTable.Render | wishpage-app/src/AdminTable.tsx:17-19 | the table renders nothing exactly when no item matches |
| AdminTableView.AdminTable.HandleDelete | wishpage-app/src/AdminTable.tsx:21-24 | choosing an item records it and opens the dialog; items and requests are untouched |
| AdminTableView.AdminTable.HandleDeleteConfirm | wishpage-app/src/AdminTable.tsx:26-36 | without a token nothing is sent and nothing changes; otherwise the delete is sent, and once it succeeds the chosen id is removed locally and the dialog closes |
| AdminTableView.AdminTable.HandleDeleteCancel | wishpage-app/src/AdminTable.tsx:38-41 | cancelling closes the dialog, sends nothing and leaves the items |
| AdminTableView.AdminTable.HandleChangeCount | wishpage-app/src/AdminTable.tsx:43-51 | without a token nothing is sent and nothing changes; otherwise `{id, count}` is sent, and once it succeeds that id's count is set locally |
| AppView.Distinct | wishpage-app/src/App.tsx:27 | the distinct persons have no duplicates and hold exactly the persons of the list |
| AppView.InsertString | wishpage-app/src/App.tsx:27 | inserting a string adds exactly that string: the result is the old list plus it, as a multiset |
| AppView.SortStrings | wishpage-app/src/App.tsx:27 | sorting is a permutation: the result has the same strings with the same multiplicities |
| AppView.InsertStringSorted | wishpage-app/src/App.tsx:27 | inserting into an ascending list keeps it ascending |
| AppView.SortStringsSorted | wishpage-app/src/App.tsx:27 | the sorted list is ascending: no string comes after one it sorts before |
| AppView.InsertStringAscending | wishpage-app/src/App.tsx:27 | inserting a new string into a strictly ascending list keeps it strictly ascending |
| AppView.SortDistinctAscending | wishpage-app/src/App.tsx:27 | sorting strings without duplicates gives a strictly ascending list |
| AppView.People | wishpage-app/src/App.tsx:27 | `people` is strictly ascending, and a name is in it exactly when some item has that person |
| AppView.RenderApp | wishpage-app/src/App.tsx:28-52 | the creation form is shown exactly in admin mode; there is one table per person in order, an admin table exactly in admin mode; the edit button is enabled exactly when a category is chosen |
| AppView.ItemsRequest | wishpage-app/src/App.tsx:19 | `fetchItems` sends a GET without a body and without a token |
| AppView.App.constructor | wishpage-app/src/App.tsx:10-26 | the app starts in visitor mode with no items, no category and no requests sent |
| AppView.App.FetchItems | wishpage-app/src/App.tsx:17-24 | the `GET items` request is recorded; a successful fetch replaces the items, a failed one leaves them |
| AppView.App.SelectCategory | wishpage-app/src/App.tsx:37 | a category button selects that category and changes nothing else, and sends nothing |
| AppView.App.SubmitNewItem | wishpage-app/src/Item.tsx:86-96 | the form's item and person are kept; without a token nothing is sent and the form's message is untouched; with one exactly the insert of the form's item is sent, and if it throws the form's message stays as it was; the items are refetched, with one `GET items` recorded, only after a successful insert, and a refused or failed submit leaves them |
| LoginView.LoginRequest | wishpage-app/src/Login.tsx:19-33 | the login is a POST to `login` without a token whose password is Go's `%x` of the digest |
| LoginView.LoginButtons | wishpage-app/src/Login.tsx:46-49 | "Edit" shows only with the edit button enabled outside admin mode, "Edit Complete" only in admin mode, never both, and one of them whenever the edit button is enabled |
| LoginView.Login.constructor | wishpage-app/src/Login.tsx:28 | the dialog starts closed |
| LoginView.Login.OpenDialog | wishpage-app/src/Login.tsx:47 | "Edit" opens the dialog and changes nothing else |
| LoginView.Login.CancelDialog | wishpage-app/src/Login.tsx:55 | cancelling closes the dialog and changes nothing else |
| LoginView.Login.EditComplete | wishpage-app/src/Login.tsx:48 | "Edit Complete" leaves admin mode and keeps the stored token, the app's items and its requests |
| LoginView.Login.HandleSubmit | wishpage-app/src/Login.tsx:30-42 | the hex digest is posted; a failure answers false and changes neither mode, dialog nor token; a success stores the token, closes the dialog, enters admin mode and answers true; the app's items and requests are untouched |
| Sync.NullItemsAgree | wishpage-app/src/Item.tsx:16-24 | the client's null item equals the server's |
| Sync.IdTextRoundTrip | wishpage-app/src/Table.tsx:27 | the decimal text of any id is non-empty, has no trailing '/' and reads back as the id |
| Sync.RouteReadsBack | wishpage-server/main.go:205-212 | a client route followed by an id becomes a server path from which the handler reads exactly the id's text |
| Sync.RequestReadsBack | wishpage-server/main.go:205-212 | a request whose path is a route followed by an id reaches the matching handler with exactly the id's text |
| Sync.ReservePathReadsBack | wishpage-app/src/Table.tsx:27 | the reserve handler reads the chosen id's text back from the client's path |
| Sync.UpdatePathReadsBack | wishpage-app/src/AdminTable.tsx:49 | the update handler reads the edited id's text back from the client's path |
| Sync.DeletePathReadsBack | wishpage-app/src/AdminTable.tsx:31 | the delete handler reads the chosen id's text back from the client's path |
| Sync.NegativeIdNamesNoRow | wishpage-server/main.go:518-523 | in a table whose keys start at 1, a negative id such as the null item's -1 names no row: reserve and delete fail and change nothing |
| Sync.ReserveKeepsMirror | wishpage-app/src/Table.tsx:27-29 | after a successful reserve, the client's decremented list still mirrors the server's rows, with the count the server returned |
| Sync.CountEditKeepsMirror | wishpage-app/src/AdminTable.tsx:48-50 | after a successful count edit to any count but -1, the server changes only that row's count and the client's patched list still mirrors it |
| Sync.SentinelCountEditDiverges | wishpage-server/main.go:587-589 | a count edit to -1 succeeds but leaves the server's table unchanged, so the client's patched list no longer mirrors it |
| Sync.DeleteKeepsMirror | wishpage-app/src/AdminTable.tsx:31-32 | after a successful delete, the server has lost exactly that key and the client's filtered list still mirrors it |
| Sync.LoginAcceptedIffSameDigest | wishpage-server/main.go:115 | the server accepts the client's login exactly when the client's digest equals the administrator's |

## Left out

- Integer widths: ids are `int64` and price and count are `int32` in Go, and JavaScript numbers are doubles. The model uses unbounded integers, so overflow is not modelled.
- SQLite's numeric affinity: the model reads the id text from the path as an integer only when it is a string of digits, optionally after one '-'. SQLite also matches forms such as "+5", " 5" or "5.0" against the integer key; the model leaves those out.
- JSON decoding errors (400 responses), malformed bodies, and a JSON `null` for a field are not modelled. A body is a set of present or absent keys.
- Database errors: a failing `Begin`, `Exec`, `Scan`, `RowsAffected` or `Commit` is not modelled. Neither is `getItems` answering an empty list when the query fails.
- HTTP method checks, response encoding, the file server and `main` are HTTP plumbing outside the item store.
- JWT signing and validation: validity is the parameter `isValid`.
- SHA-256, `crypto.subtle` and the random JWT secret: the digest is an abstract byte sequence.
- The rate limiters' token buckets, the global login limiter and the mutex: they are time-based and about concurrency. Only the get-or-create map of `getIPLimiter` is modelled.
- The login handler beyond the password comparison: the rate-limit rejections and the token response are not modelled.
- `ItemStore.ItemTable.GetItems`: SQL promises only the (price, name) order. The model breaks ties by id, so its ensures states only the (price, name) order and not the tie-break.
- AppView.SortStrings: JavaScript's default sort compares UTF-16 code units, while the model compares code points. The two differ only for characters outside the Basic Multilingual Plane.
- `parseInt` and `NaN`: the count and price inputs reach the model as integers.
- React's asynchronous state updates and stale closures: each handler sees the state current when it runs.
- VisitorTableView.VisitorTable.HandleReserveConfirm, AdminTableView.AdminTable.HandleDeleteConfirm, AdminTableView.AdminTable.HandleChangeCount: each table holds the item list it was rendered with and patches that copy. The write-back through `setItems` to the app's list, which the other tables and `people` then read, is not modelled; `Sync` relates the patched list to the server's rows instead.
- `request.tsx`: a request only resolves or throws. `ConfirmDialog.tsx` is presentational and not modelled.
- The dev-mode dummy data and the database path are a fixed fixture and configuration.
- ItemView.WithField: input names other than the six item fields and "other" leave the item unchanged. JavaScript would add a new key.
