/**
 * The root component (wishpage-app/src/App.tsx): the item list and the admin
 * flag, the derived list of people, and which tables and controls the page
 * shows.
 */
module AppView {
  import opened Wrappers
  import opened Text
  import opened Items
  import opened ItemView

  predicate NoDuplicates(xs: seq<string>)
  {
    forall i, j :: 0 <= i < j < |xs| ==> xs[i] != xs[j]
  }

  predicate StrictlyAscending(xs: seq<string>)
  {
    forall i, j :: 0 <= i < j < |xs| ==> Less(xs[i], xs[j])
  }

  /** `[...new Set(xs)]`: the first occurrence of each string, in order of appearance. */
  function Distinct(xs: seq<string>): (r: seq<string>)
    ensures NoDuplicates(r)
    ensures forall x :: x in r <==> x in xs
  {
    if xs == [] then []
    else
      var d := Distinct(xs[..|xs| - 1]);
      assert xs == xs[..|xs| - 1] + [xs[|xs| - 1]];
      if xs[|xs| - 1] in d then d else d + [xs[|xs| - 1]]
  }

  /** No later string is `Less` than an earlier one: ascending, duplicates allowed. */
  predicate Sorted(xs: seq<string>)
  {
    forall i, j :: 0 <= i < j < |xs| ==> !Less(xs[j], xs[i])
  }

  /** Places one string into a list at its position in the order `Less`. */
  function InsertString(s: seq<string>, x: string): (r: seq<string>)
    ensures |r| == |s| + 1
    ensures multiset(r) == multiset(s) + multiset{x}
    ensures forall y :: y in r <==> y == x || y in s
  {
    if s == [] || !Less(s[0], x) then [x] + s
    else
      assert s == [s[0]] + s[1..];
      [s[0]] + InsertString(s[1..], x)
  }

  /** `Array.prototype.sort()` without a comparator, as an insertion sort. */
  function SortStrings(xs: seq<string>): (r: seq<string>)
    ensures |r| == |xs|
    ensures multiset(r) == multiset(xs)
    ensures forall y :: y in r <==> y in xs
  {
    if xs == [] then []
    else
      assert xs == [xs[0]] + xs[1..];
      InsertString(SortStrings(xs[1..]), xs[0])
  }

  lemma {:induction false} InsertStringSorted(s: seq<string>, x: string)
    requires Sorted(s)
    ensures Sorted(InsertString(s, x))
  {
    var r := InsertString(s, x);
    if s == [] {
    } else if !Less(s[0], x) {
      forall i, j | 0 <= i < j < |r| ensures !Less(r[j], r[i]) {
        if i == 0 {
          // r[j] is s[j - 1], which is not below s[0], which is not below x
          if Less(s[j - 1], x) {
            LessTotal(s[0], s[j - 1]);
            if Less(s[0], s[j - 1]) {
              LessTransitive(s[0], s[j - 1], x);
            }
          }
        }
      }
    } else {
      InsertStringSorted(s[1..], x);
      var t := InsertString(s[1..], x);
      assert r == [s[0]] + t;
      forall j | 0 <= j < |t| ensures !Less(t[j], s[0]) {
        assert t[j] in t;
        if t[j] == x {
          LessAsymmetric(s[0], x);
        } else {
          assert t[j] in s[1..];
          var m :| 0 <= m < |s[1..]| && s[1..][m] == t[j];
          assert s[m + 1] == t[j];
        }
      }
    }
  }

  /** The sort's result is in order whatever its input. */
  lemma {:induction false} SortStringsSorted(xs: seq<string>)
    ensures Sorted(SortStrings(xs))
  {
    if xs != [] {
      SortStringsSorted(xs[1..]);
      InsertStringSorted(SortStrings(xs[1..]), xs[0]);
    }
  }

  lemma {:induction false} InsertStringAscending(s: seq<string>, x: string)
    requires StrictlyAscending(s) && x !in s
    ensures StrictlyAscending(InsertString(s, x))
  {
    var r := InsertString(s, x);
    if s == [] {
    } else if !Less(s[0], x) {
      LessTotal(s[0], x);
      forall i, j | 0 <= i < j < |r| ensures Less(r[i], r[j]) {
        if i == 0 && j > 1 {
          LessTransitive(x, s[0], s[j - 1]);
        }
      }
    } else {
      InsertStringAscending(s[1..], x);
      var t := InsertString(s[1..], x);
      assert r == [s[0]] + t;
      forall j | 0 <= j < |t| ensures Less(s[0], t[j]) {
        assert t[j] in t;
        if t[j] != x {
          assert t[j] in s[1..];
          var m :| 0 <= m < |s[1..]| && s[1..][m] == t[j];
          assert s[m + 1] == t[j];
        }
      }
    }
  }

  lemma {:induction false} SortDistinctAscending(xs: seq<string>)
    requires NoDuplicates(xs)
    ensures StrictlyAscending(SortStrings(xs))
  {
    if xs != [] {
      assert NoDuplicates(xs[1..]) by {
        forall i, j | 0 <= i < j < |xs[1..]| ensures xs[1..][i] != xs[1..][j] {
          assert xs[1..][i] == xs[i + 1] && xs[1..][j] == xs[j + 1];
        }
      }
      SortDistinctAscending(xs[1..]);
      assert xs[0] !in xs[1..] by {
        forall m | 0 <= m < |xs[1..]| ensures xs[1..][m] != xs[0] {
          assert xs[1..][m] == xs[m + 1];
        }
      }
      InsertStringAscending(SortStrings(xs[1..]), xs[0]);
    }
  }

  /**
   * `people`: the distinct persons of the items, sorted. It is strictly
   * ascending, so no name appears twice, and it holds exactly the persons
   * that some item has.
   */
  function People(items: seq<Item>): (r: seq<string>)
    ensures StrictlyAscending(r)
    ensures forall name :: name in r <==> exists i :: 0 <= i < |items| && items[i].person == name
  {
    var persons := seq(|items|, i requires 0 <= i < |items| => items[i].person);
    var r := SortStrings(Distinct(persons));
    SortDistinctAscending(Distinct(persons));
    forall name ensures name in persons <==> exists i :: 0 <= i < |items| && items[i].person == name {
      if name in persons {
        var k :| 0 <= k < |persons| && persons[k] == name;
        assert items[k].person == name;
      }
      if exists i :: 0 <= i < |items| && items[i].person == name {
        var k :| 0 <= k < |items| && items[k].person == name;
        assert persons[k] == name;
      }
    }
    r
  }

  /** A table the page shows for one person. */
  datatype TableView = VisitorView(person: string) | AdminView(person: string)

  /** What the root component renders. */
  datatype Page = Page(
    itemForm: Option<seq<string>>,  // the creation form and its person options
    tables: seq<TableView>,
    displayEditButton: bool)

  function RenderApp(isAdminMode: bool, items: seq<Item>, category: string): (p: Page)
    ensures p.itemForm.Some? <==> isAdminMode
    ensures p.itemForm.Some? ==> p.itemForm.value == PeopleOptions(People(items))
    ensures |p.tables| == |People(items)|
    ensures forall i :: 0 <= i < |p.tables| ==>
      p.tables[i].person == People(items)[i] && (p.tables[i].AdminView? <==> isAdminMode)
    ensures p.displayEditButton <==> category != ""
  {
    var people := People(items);
    Page(
      if isAdminMode then Some(PeopleOptions(people)) else None,
      seq(|people|, i requires 0 <= i < |people| => if isAdminMode then AdminView(people[i]) else VisitorView(people[i])),
      |category| > 0)
  }

  /** The request `fetchItems` issues. */
  function ItemsRequest(): (q: Request)
    ensures q.verb == Get && q.body == NoBody && q.token == ""
  {
    Request(Get, "items", NoBody, "")
  }

  class App {
    var isAdminMode: bool
    var items: seq<Item>
    var category: string
    /** The requests the component has issued, oldest first. */
    var requests: seq<Request>

    constructor ()
      ensures !isAdminMode && items == [] && category == "" && requests == []
    {
      isAdminMode := false;
      items := [];
      category := "";
      requests := [];
    }

    /** `fetchItems`: a successful fetch replaces the items, a failed one keeps them. */
    method FetchItems(reply: Reply<seq<Item>>)
      modifies this
      ensures requests == old(requests) + [ItemsRequest()]
      ensures items == if reply.Resolved? then reply.value else old(items)
      ensures isAdminMode == old(isAdminMode) && category == old(category)
    {
      requests := requests + [ItemsRequest()];
      if reply.Resolved? {
        items := reply.value;
      }
    }

    /** A category button. */
    method SelectCategory(name: string)
      modifies this
      ensures category == name && items == old(items) && isAdminMode == old(isAdminMode)
      ensures requests == old(requests)
    {
      category := name;
    }

    /**
     * The creation form's submit followed by the `fetchItems` it was given:
     * the form posts the insert only when a token is stored, and the list is
     * refetched only after a successful insert.
     */
    method SubmitNewItem(form: ItemForm, token: Option<string>, inserted: Reply<()>, fetched: Reply<seq<Item>>)
      returns (r: Result<(), ClientError>)
      modifies this, form
      ensures isAdminMode == old(isAdminMode) && category == old(category)
      ensures form.item == old(form.item) && form.person == old(form.person)
      ensures !TokenPresent(token) ==>
        r == Failure(MissingToken) && form.requests == old(form.requests) &&
        form.isConfirmDialogOpen == old(form.isConfirmDialogOpen)
      ensures TokenPresent(token) ==>
        form.requests == old(form.requests) + [Request(Post, "admin/insert", ItemBody(ItemToJson(old(form.item))), token.value)]
      ensures TokenPresent(token) && inserted.Threw? ==>
        r == Failure(RequestFailed) && form.isConfirmDialogOpen == old(form.isConfirmDialogOpen)
      ensures r.Failure? ==> items == old(items) && requests == old(requests)
      ensures r.Success? <==> TokenPresent(token) && inserted.Resolved?
      ensures r.Success? ==>
        form.isConfirmDialogOpen && requests == old(requests) + [ItemsRequest()] &&
        items == if fetched.Resolved? then fetched.value else old(items)
    {
      r := form.HandleSubmit(token, inserted);
      if r.Success? {
        FetchItems(fetched);
      }
    }
  }
}
