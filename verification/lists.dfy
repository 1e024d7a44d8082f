/** The two updates every list page makes to the records it shows: removing
    the records with an `_id` after a delete, and rewriting one flag on the
    records with an `_id` after a status change. */
module ListUpdates {
  import opened Common
  import opened JsValue
  import Sequences

  /** `record?._id` */
  function RecordId(v: Value): Value {
    Field(v, "_id")
  }

  datatype Removal<T> = Removal(list: seq<T>, requested: bool)

  /** `handleDelete(id)` of a list page that asks the server first: nothing
      without confirmation; the records with that id leave the list only when
      the response says `success`. */
  function DeleteOnServer<T(==,!new)>(xs: seq<T>, key: T -> Value, id: Value, confirmed: bool, reply: Reply<Value>): (r: Removal<T>)
    ensures r.requested <==> confirmed
    ensures !(confirmed && reply.Ok?) ==> r.list == xs
    ensures confirmed && reply.Ok? ==> Sequences.IsSubsequence(r.list, xs)
    ensures confirmed && reply.Ok? ==> forall x :: x in r.list <==> x in xs && key(x) != id
    ensures confirmed && reply.Ok? ==> |r.list| == |xs| - Sequences.CountKey(xs, key, id)
  {
    if confirmed && reply.Ok? then
      Sequences.WithoutKeySpec(xs, key, id);
      Removal(Sequences.WithoutKey(xs, key, id), true)
    else Removal(xs, confirmed)
  }

  /** `handleDelete(id)` of a page that only removes locally: after
      confirmation the records with that id leave the list; no request. */
  function DeleteLocally<T(==,!new)>(xs: seq<T>, key: T -> Value, id: Value, confirmed: bool): (r: seq<T>)
    ensures !confirmed ==> r == xs
    ensures confirmed ==> Sequences.IsSubsequence(r, xs)
    ensures confirmed ==> forall x :: x in r <==> x in xs && key(x) != id
    ensures confirmed ==> |r| == |xs| - Sequences.CountKey(xs, key, id)
  {
    if confirmed then
      Sequences.WithoutKeySpec(xs, key, id);
      Sequences.WithoutKey(xs, key, id)
    else xs
  }

  /** A second successful delete of the same id changes nothing more. */
  lemma DeleteTwice<T(!new)>(xs: seq<T>, key: T -> Value, id: Value, reply: Reply<Value>)
    requires reply.Ok?
    ensures var once := DeleteOnServer(xs, key, id, true, reply).list;
            DeleteOnServer(once, key, id, true, reply).list == once
  {
    var once := DeleteOnServer(xs, key, id, true, reply).list;
    Sequences.WithoutAbsentKey(once, key, id);
  }

  /** `prev.map(r => r._id === id ? { ...r, [flag]: on } : r)` */
  function SetFlag(xs: seq<Value>, id: Value, flag: string, on: bool): (r: seq<Value>)
    ensures |r| == |xs|
    ensures forall k :: 0 <= k < |xs| && RecordId(xs[k]) != id ==> r[k] == xs[k]
    ensures forall k :: 0 <= k < |xs| && RecordId(xs[k]) == id ==>
              r[k].Obj? && Field(r[k], flag) == Bool(on)
    ensures forall k, f :: 0 <= k < |xs| && RecordId(xs[k]) == id && f != flag ==>
              Field(r[k], f) == Field(xs[k], f)
  {
    Sequences.MapWhereKey(xs, RecordId, id, (v: Value) => Obj(With(Spread(v), flag, Bool(on))))
  }

  /** Setting the same flag to the same value twice is setting it once. */
  lemma SetFlagTwice(xs: seq<Value>, id: Value, flag: string, on: bool)
    requires flag != "_id"
    ensures SetFlag(SetFlag(xs, id, flag, on), id, flag, on) == SetFlag(xs, id, flag, on)
  {
    var once := SetFlag(xs, id, flag, on);
    var twice := SetFlag(once, id, flag, on);
    forall k | 0 <= k < |xs|
      ensures twice[k] == once[k]
    {
      if RecordId(xs[k]) == id {
        assert RecordId(once[k]) == id;
        assert once[k].fields == Spread(xs[k])[flag := Bool(on)];
      }
    }
  }

  /** The status a block or archive button asks for: the opposite of the
      flag it shows. */
  function Opposite(flag: Value, onName: string, offName: string): (s: string)
    ensures Truthy(flag) ==> s == offName
    ensures !Truthy(flag) ==> s == onName
  {
    if Truthy(flag) then offName else onName
  }

  /** A status change that succeeds updates the flag of the records with that
      id from `newStatus`; any other outcome leaves the list as it was. */
  function StatusChange(xs: seq<Value>, id: Value, flag: string, onName: string, newStatus: string,
                        reply: Reply<Value>): (r: seq<Value>)
    ensures |r| == |xs|
    ensures !reply.Ok? ==> r == xs
    ensures reply.Ok? ==> forall k :: 0 <= k < |xs| && RecordId(xs[k]) == id ==>
              Field(r[k], flag) == Bool(newStatus == onName)
    ensures forall k :: 0 <= k < |xs| && RecordId(xs[k]) != id ==> r[k] == xs[k]
  {
    if reply.Ok? then SetFlag(xs, id, flag, newStatus == onName) else xs
  }

  /** Pressing the button of a record and getting `success` flips the flag
      that record shows, and only for the records with its id. */
  lemma ButtonFlipsFlag(xs: seq<Value>, i: nat, flag: string, onName: string, offName: string, reply: Reply<Value>)
    requires i < |xs| && reply.Ok? && onName != offName
    ensures var r := StatusChange(xs, RecordId(xs[i]), flag, onName,
                                  Opposite(Field(xs[i], flag), onName, offName), reply);
            Truthy(Field(r[i], flag)) <==> !Truthy(Field(xs[i], flag))
  {
  }
}

/** The draft and applied filters of the products, orders and users pages:
    the panel edits a draft; only "apply" or "reset" changes what the list
    is fetched with. */
module FilterPanel {
  import opened JsValue

  datatype Panel = Panel(draft: Object, applied: Object, page: int)

  /** `updateFilters(e)`: `setFilters(prev => ({ ...prev, [name]: value }))` */
  function UpdateFilter(p: Panel, name: string, value: Value): (r: Panel)
    ensures Get(r.draft, name) == value
    ensures forall k :: k != name ==> Get(r.draft, k) == Get(p.draft, k)
    ensures r.applied == p.applied && r.page == p.page
  {
    p.(draft := With(p.draft, name, value))
  }

  /** `applyFilters()`: `setAppliedFilters({ ...filters })` */
  function Apply(p: Panel): (r: Panel)
    ensures r.applied == p.draft && r.draft == p.draft && r.page == p.page
  {
    p.(applied := p.draft)
  }

  /** `resetFilters()`: both draft and applied become the defaults and the
      list goes back to page 1. */
  function Reset(p: Panel, defaults: Object): (r: Panel)
    ensures r.draft == defaults && r.applied == defaults && r.page == 1
  {
    Panel(defaults, defaults, 1)
  }

  /** `{ page, entries, search, ..., ...appliedFilters }`: the applied
      filters are spread last, so they win over the fixed parameters. */
  function Query(fixed: Object, p: Panel): (q: Object)
    ensures forall k :: k in p.applied ==> Get(q, k) == p.applied[k]
    ensures forall k :: k !in p.applied ==> Get(q, k) == Get(fixed, k)
  {
    map k | k in fixed.Keys + p.applied.Keys :: if k in p.applied then p.applied[k] else fixed[k]
  }

  /** Editing the draft does not change what the list is fetched with. */
  lemma DraftEditsDoNotReachQuery(fixed: Object, p: Panel, name: string, value: Value)
    ensures Query(fixed, UpdateFilter(p, name, value)) == Query(fixed, p)
  {
  }

  /** After "apply", the fetch carries every draft filter. */
  lemma AppliedDraftReachesQuery(fixed: Object, p: Panel)
    ensures forall k :: k in p.draft ==> Get(Query(fixed, Apply(p)), k) == p.draft[k]
  {
  }

  /** After "reset", the fetch no longer depends on anything the user
      typed into the panel. */
  lemma ResetForgetsFilters(fixed: Object, p: Panel, p': Panel, defaults: Object)
    ensures Query(fixed, Reset(p, defaults)) == Query(fixed, Reset(p', defaults))
  {
  }

  /** The defaults of the products page: four filters, all `null`. */
  const ProductDefaults: Object := map k | k in {"minPrice", "maxPrice", "stock", "isFeatured"} :: Null

  /** `initialfilters` of the orders page: five filters, all `null`. */
  const OrderDefaults: Object := map k | k in {"fromDate", "toDate", "minAmount", "maxAmount", "payMode"} :: Null

  /** The defaults of the users page: six filters, all empty text. */
  const UserDefaults: Object :=
    map k | k in {"fromDate", "toDate", "minOrders", "maxOrders", "minSpent", "maxSpent"} :: Str("")

  /** Resetting the users page clears every filter to empty text, and the
      products and orders pages clear theirs to `null`. */
  lemma ResetClears(p: Panel)
    ensures forall k :: k in Reset(p, UserDefaults).draft ==> Reset(p, UserDefaults).draft[k] == Str("")
    ensures forall k :: k in Reset(p, ProductDefaults).applied ==> Reset(p, ProductDefaults).applied[k] == Null
    ensures forall k :: k in Reset(p, OrderDefaults).applied ==> Reset(p, OrderDefaults).applied[k] == Null
  {
  }
}

/** The sort drop-down of the products and orders pages: its value is
    `${sortBy}-${sortOrder}` and a choice is split back on '-'. */
module SortSelect {
  import opened JsValue
  import Text

  /** `${sortBy}-${sortOrder}` */
  function SortValue(sortBy: string, sortOrder: string): string {
    sortBy + "-" + sortOrder
  }

  /** `const [newSortBy, newSortOrder] = value.split('-')`: a missing second
      piece is `undefined`. */
  function ParseSort(value: string): (r: (Value, Value))
    ensures r.0.Str? && '-' !in r.0.s
  {
    var parts := Text.Split(value, '-');
    (Str(parts[0]), if |parts| > 1 then Str(parts[1]) else Undefined)
  }

  /** A value without '-' is all field and no order. */
  lemma ParseSortWithoutDash(value: string)
    requires '-' !in value
    ensures ParseSort(value) == (Str(value), Undefined)
  {
    Text.SplitWithoutSep(value, '-');
  }

  /** Every option of the drop-down splits back into the field and the order
      it was written from. */
  lemma ParseSortValue(sortBy: string, sortOrder: string)
    requires '-' !in sortBy && '-' !in sortOrder
    ensures ParseSort(SortValue(sortBy, sortOrder)) == (Str(sortBy), Str(sortOrder))
  {
    Text.SplitAtFirst(sortBy, '-', sortOrder);
    Text.SplitWithoutSep(sortOrder, '-');
    assert SortValue(sortBy, sortOrder) == sortBy + ['-'] + sortOrder;
  }

  /** A value with more than one '-' keeps only the first two pieces. */
  lemma ParseSortDropsExtraPieces(a: string, b: string, c: string)
    requires '-' !in a && '-' !in b
    ensures ParseSort(a + "-" + b + "-" + c) == (Str(a), Str(b))
  {
    Text.SplitAtFirst(b, '-', c);
    Text.SplitAtFirst(a, '-', b + "-" + c);
    assert a + "-" + b + "-" + c == a + ['-'] + (b + ['-'] + c);
  }
}

/** The products list: status change, local delete and stock label. */
module ProductsPage {
  import opened Common
  import opened JsValue
  import Text
  import Sequences
  import ListUpdates

  /** `handleStatusChange(productId, newStatus)` */
  function HandleStatusChange(products: seq<Value>, productId: Value, newStatus: string, reply: Reply<Value>): (r: seq<Value>)
    ensures |r| == |products|
    ensures !reply.Ok? ==> r == products
    ensures reply.Ok? ==> forall k :: 0 <= k < |products| && ListUpdates.RecordId(products[k]) == productId ==>
              Field(r[k], "isArchived") == Bool(newStatus == "archived")
    ensures forall k :: 0 <= k < |products| && ListUpdates.RecordId(products[k]) != productId ==> r[k] == products[k]
  {
    ListUpdates.StatusChange(products, productId, "isArchived", "archived", newStatus, reply)
  }

  /** `handleDelete(id)`: local only, no request. */
  function HandleDelete(products: seq<Value>, id: Value, confirmed: bool): (r: seq<Value>)
    ensures !confirmed ==> r == products
    ensures confirmed ==> Sequences.IsSubsequence(r, products)
    ensures confirmed ==> forall p :: p in r <==> p in products && ListUpdates.RecordId(p) != id
    ensures confirmed ==> |r| == |products| - Sequences.CountKey(products, ListUpdates.RecordId, id)
  {
    ListUpdates.DeleteLocally(products, ListUpdates.RecordId, id, confirmed)
  }

  datatype StockLabel = InStock | LowOnStock | OutOfStock

  /** `stock > 5 ? 'In Stock' : stock > 0 ? 'Low on stock' : 'Out of Stock'`,
      with JavaScript's numeric comparison. */
  function StockLabelOf(stock: Value): (l: StockLabel)
    ensures l == InStock <==> Above(stock, 5)
    ensures l == LowOnStock <==> Above(stock, 0) && !Above(stock, 5)
    ensures l == OutOfStock <==> !Above(stock, 0)
  {
    if Above(stock, 5) then InStock else if Above(stock, 0) then LowOnStock else OutOfStock
  }

  /** For a whole-number stock: above 5 is in stock, 1 to 5 is low, and
      anything else, negative counts included, is out of stock. */
  lemma StockLabelOfCount(n: int)
    ensures StockLabelOf(Num(n)) == InStock <==> n > 5
    ensures StockLabelOf(Num(n)) == LowOnStock <==> 1 <= n <= 5
    ensures StockLabelOf(Num(n)) == OutOfStock <==> n <= 0
  {
  }

  /** A stock that is missing or not a number reads as out of stock. */
  lemma MissingStockIsOut()
    ensures StockLabelOf(Undefined) == OutOfStock
    ensures StockLabelOf(Null) == OutOfStock
    ensures StockLabelOf(Str("many")) == OutOfStock
  {
    assert Text.Trim("many") == "many";
  }
}

/** The users list: the status change after block or unblock. */
module UsersPage {
  import opened Common
  import opened JsValue
  import ListUpdates

  /** The status the row button sends: `isBlocked ? 'unblocked' : 'blocked'`. */
  function BlockTarget(isBlocked: Value): (s: string)
    ensures Truthy(isBlocked) ==> s == "unblocked"
    ensures !Truthy(isBlocked) ==> s == "blocked"
  {
    ListUpdates.Opposite(isBlocked, "blocked", "unblocked")
  }

  /** `handleStatusChange(userId, newStatus)` */
  function HandleStatusChange(users: seq<Value>, userId: Value, newStatus: string, reply: Reply<Value>): (r: seq<Value>)
    ensures |r| == |users|
    ensures !reply.Ok? ==> r == users
    ensures reply.Ok? ==> forall k :: 0 <= k < |users| && ListUpdates.RecordId(users[k]) == userId ==>
              Field(r[k], "isBlocked") == Bool(newStatus == "blocked")
    ensures forall k :: 0 <= k < |users| && ListUpdates.RecordId(users[k]) != userId ==> r[k] == users[k]
  {
    ListUpdates.StatusChange(users, userId, "isBlocked", "blocked", newStatus, reply)
  }

  /** Pressing a user's button and getting `success` shows that user with
      the opposite state. */
  lemma ButtonTogglesUser(users: seq<Value>, i: nat, reply: Reply<Value>)
    requires i < |users| && reply.Ok?
    ensures var r := HandleStatusChange(users, ListUpdates.RecordId(users[i]), BlockTarget(Field(users[i], "isBlocked")), reply);
            Truthy(Field(r[i], "isBlocked")) <==> !Truthy(Field(users[i], "isBlocked"))
  {
    ListUpdates.ButtonFlipsFlag(users, i, "isBlocked", "blocked", "unblocked", reply);
  }
}

/** The user page: order count, total spent and the block toggle. */
module UserDetailsPage {
  import opened Common
  import opened JsValue

  /** The amounts added up by recursion on the list. */
  function Sum(amounts: seq<int>): int {
    if |amounts| == 0 then 0 else amounts[0] + Sum(amounts[1..])
  }

  /** `reduce((total, order) => total + order.amount, acc)`: the running
      total, from the left. */
  function Reduce(amounts: seq<int>, acc: int): int
    decreases |amounts|
  {
    if |amounts| == 0 then acc else Reduce(amounts[1..], acc + amounts[0])
  }

  /** `orderHistory?.length > 0 ? orderHistory.reduce(..., 0) : 0` */
  function TotalSpent(amounts: seq<int>): (t: int)
    ensures |amounts| == 0 ==> t == 0
  {
    if |amounts| > 0 then Reduce(amounts, 0) else 0
  }

  lemma {:induction false} ReduceAdds(amounts: seq<int>, acc: int)
    ensures Reduce(amounts, acc) == acc + Sum(amounts)
    decreases |amounts|
  {
    if |amounts| > 0 {
      ReduceAdds(amounts[1..], acc + amounts[0]);
    }
  }

  /** The total shown is the sum of the order amounts. */
  lemma TotalSpentIsSum(amounts: seq<int>)
    ensures TotalSpent(amounts) == Sum(amounts)
  {
    ReduceAdds(amounts, 0);
  }

  /** The total of two histories is the total of each. */
  lemma {:induction false} TotalSpentAppend(a: seq<int>, b: seq<int>)
    ensures TotalSpent(a + b) == TotalSpent(a) + TotalSpent(b)
    decreases |a|
  {
    TotalSpentIsSum(a);
    TotalSpentIsSum(b);
    TotalSpentIsSum(a + b);
    SumAppend(a, b);
  }

  lemma {:induction false} SumAppend(a: seq<int>, b: seq<int>)
    ensures Sum(a + b) == Sum(a) + Sum(b)
    decreases |a|
  {
    if |a| == 0 {
      assert a + b == b;
    } else {
      assert (a + b)[1..] == a[1..] + b;
      SumAppend(a[1..], b);
    }
  }

  /** The button's status: `isBlocked ? 'unblocked' : 'blocked'`. */
  function BlockTarget(user: Value): (s: string)
    ensures Truthy(Field(user, "isBlocked")) <==> s == "unblocked"
    ensures s == "unblocked" || s == "blocked"
  {
    if Truthy(Field(user, "isBlocked")) then "unblocked" else "blocked"
  }

  /** `handleStatusChange(userId, newStatus)`: `{ ...prev, isBlocked }` on
      success; the user as it was otherwise. */
  function HandleStatusChange(user: Value, newStatus: string, reply: Reply<Value>): (r: Value)
    ensures !reply.Ok? ==> r == user
    ensures reply.Ok? ==> Field(r, "isBlocked") == Bool(newStatus == "blocked")
    ensures reply.Ok? ==> forall f :: f != "isBlocked" ==> Field(r, f) == Field(user, f)
  {
    if reply.Ok? then Obj(With(Spread(user), "isBlocked", Bool(newStatus == "blocked"))) else user
  }

  /** Two successful presses of the button bring the shown state back. */
  lemma ToggleTwice(user: Value, reply: Reply<Value>)
    requires reply.Ok?
    ensures var once := HandleStatusChange(user, BlockTarget(user), reply);
            var twice := HandleStatusChange(once, BlockTarget(once), reply);
            Truthy(Field(twice, "isBlocked")) == Truthy(Field(user, "isBlocked"))
  {
  }
}

/** The discounts list: search and status filter, and delete. */
module DiscountsPage {
  import opened Common
  import opened JsValue
  import Text
  import Sequences

  /** A discount as the list holds it. `recordId` is the `_id` the server
      assigns and the row's delete button passes; `id` is the `id` property,
      which server records do not carry (`undefined`). */
  datatype Discount = Discount(recordId: string, id: Value, code: string, description: string, isActive: Value)

  /** `code` or `description` contains the search term, ignoring case. */
  predicate MatchesSearch(d: Discount, searchTerm: string) {
    var t := Text.Lower(searchTerm);
    Text.Contains(Text.Lower(d.code), t) || Text.Contains(Text.Lower(d.description), t)
  }

  /** '' keeps all, 'active' the active ones, 'inactive' the others, and any
      other value none. */
  predicate MatchesStatus(d: Discount, statusFilter: string) {
    statusFilter == ""
    || (statusFilter == "active" && Truthy(d.isActive))
    || (statusFilter == "inactive" && !Truthy(d.isActive))
  }

  /** `filteredDiscounts` */
  function Filtered(discounts: seq<Discount>, searchTerm: string, statusFilter: string): (r: seq<Discount>)
    ensures Sequences.IsSubsequence(r, discounts)
    ensures forall d :: d in r <==> d in discounts && MatchesSearch(d, searchTerm) && MatchesStatus(d, statusFilter)
    ensures |r| == Sequences.CountWhere(discounts, (d: Discount) => MatchesSearch(d, searchTerm) && MatchesStatus(d, statusFilter))
  {
    var keep := (d: Discount) => MatchesSearch(d, searchTerm) && MatchesStatus(d, statusFilter);
    Sequences.KeepSpec(discounts, keep);
    Sequences.Keep(discounts, keep)
  }

  /** With no search and no status, every discount is shown. */
  lemma NoFilterShowsAll(discounts: seq<Discount>)
    ensures Filtered(discounts, "", "") == discounts
  {
    forall k | 0 <= k < |discounts|
      ensures MatchesSearch(discounts[k], "")
    {
      Text.ContainsEmpty(Text.Lower(discounts[k].code));
    }
    Sequences.KeepAll(discounts, (d: Discount) => MatchesSearch(d, "") && MatchesStatus(d, ""));
  }

  /** The 'active' and 'inactive' choices split the discounts found by a
      search between them. */
  lemma StatusChoicesPartition(discounts: seq<Discount>, searchTerm: string)
    ensures forall d :: d in Filtered(discounts, searchTerm, "") <==>
              d in Filtered(discounts, searchTerm, "active") || d in Filtered(discounts, searchTerm, "inactive")
    ensures forall d :: !(d in Filtered(discounts, searchTerm, "active") && d in Filtered(discounts, searchTerm, "inactive"))
  {
  }

  /** The local removal as written: `discounts.filter(d => d.id !== id)`,
      where `id` is the `_id` the button passed. */
  function RemoveAsWritten(discounts: seq<Discount>, id: string): (r: seq<Discount>)
    ensures Sequences.IsSubsequence(r, discounts)
    ensures forall d :: d in r <==> d in discounts && d.id != Str(id)
    ensures |r| == |discounts| - Sequences.CountKey(discounts, PropertyId, Str(id))
  {
    Sequences.WithoutKeySpec(discounts, PropertyId, Str(id));
    Sequences.WithoutKey(discounts, PropertyId, Str(id))
  }

  function PropertyId(d: Discount): Value {
    d.id
  }

  /** Records without an `id` property are never removed by it: the deleted
      discount stays on the page until the list is fetched again. */
  lemma RemoveAsWrittenKeepsDeleted(discounts: seq<Discount>, id: string)
    requires forall k :: 0 <= k < |discounts| ==> discounts[k].id == Undefined
    ensures RemoveAsWritten(discounts, id) == discounts
  {
    Sequences.WithoutAbsentKey(discounts, PropertyId, Str(id));
  }

  function RecordKey(d: Discount): string {
    d.recordId
  }

  /** The removal by `_id`, as the other list pages do it. */
  function Remove(discounts: seq<Discount>, id: string): (r: seq<Discount>)
    ensures Sequences.IsSubsequence(r, discounts)
    ensures forall d :: d in r <==> d in discounts && d.recordId != id
    ensures |r| == |discounts| - Sequences.CountKey(discounts, RecordKey, id)
  {
    Sequences.WithoutKeySpec(discounts, RecordKey, id);
    Sequences.WithoutKey(discounts, RecordKey, id)
  }

  /** Removing by `_id` takes the deleted discount off the page: unlike the
      removal as written, the list changes whenever the id is on it. */
  lemma RemoveDropsDeleted(discounts: seq<Discount>, id: string)
    requires exists k :: 0 <= k < |discounts| && discounts[k].recordId == id
    ensures Remove(discounts, id) != discounts
    ensures forall k :: 0 <= k < |Remove(discounts, id)| ==> Remove(discounts, id)[k].recordId != id
  {
    var k :| 0 <= k < |discounts| && discounts[k].recordId == id;
    assert discounts[k] in discounts;
    assert discounts[k] !in Remove(discounts, id);
  }

  datatype Deletion = Deletion(list: seq<Discount>, requested: bool)

  /** `handleDelete(id)` as written: after confirmation and a `success`
      response the discounts whose `id` property differs from the `_id` are
      kept and the list is fetched again; when that fetch succeeds its
      result replaces the list. */
  function HandleDelete(discounts: seq<Discount>, id: string, confirmed: bool, reply: Reply<Value>,
                        refetch: Reply<seq<Discount>>): (r: Deletion)
    ensures r.requested <==> confirmed
    ensures !(confirmed && reply.Ok?) ==> r.list == discounts
    ensures confirmed && reply.Ok? && refetch.Ok? ==> r.list == refetch.data
    ensures confirmed && reply.Ok? && !refetch.Ok? ==>
              Sequences.IsSubsequence(r.list, discounts)
              && (forall d :: d in r.list <==> d in discounts && d.id != Str(id))
              && |r.list| == |discounts| - Sequences.CountKey(discounts, PropertyId, Str(id))
  {
    if !confirmed then Deletion(discounts, false)
    else if !reply.Ok? then Deletion(discounts, true)
    else if refetch.Ok? then Deletion(refetch.data, true)
    else Deletion(RemoveAsWritten(discounts, id), true)
  }

  /** When the fetch after a delete fails, the handler as written leaves
      every server record (none carries `id`) on the page, the deleted one
      included. */
  lemma HandleDeleteKeepsDeleted(discounts: seq<Discount>, id: string, reply: Reply<Value>,
                                 refetch: Reply<seq<Discount>>)
    requires forall k :: 0 <= k < |discounts| ==> discounts[k].id == Undefined
    requires reply.Ok? && !refetch.Ok?
    ensures HandleDelete(discounts, id, true, reply, refetch).list == discounts
  {
    RemoveAsWrittenKeepsDeleted(discounts, id);
  }

  /** `handleDelete(id)` with the removal by `_id`. */
  function HandleDeleteFixed(discounts: seq<Discount>, id: string, confirmed: bool, reply: Reply<Value>,
                             refetch: Reply<seq<Discount>>): (r: Deletion)
    ensures r.requested <==> confirmed
    ensures !(confirmed && reply.Ok?) ==> r.list == discounts
    ensures confirmed && reply.Ok? && refetch.Ok? ==> r.list == refetch.data
    ensures confirmed && reply.Ok? && !refetch.Ok? ==>
              Sequences.IsSubsequence(r.list, discounts)
              && (forall d :: d in r.list <==> d in discounts && d.recordId != id)
              && |r.list| == |discounts| - Sequences.CountKey(discounts, RecordKey, id)
  {
    if !confirmed then Deletion(discounts, false)
    else if !reply.Ok? then Deletion(discounts, true)
    else if refetch.Ok? then Deletion(refetch.data, true)
    else Deletion(Remove(discounts, id), true)
  }

  /** With the removal by `_id`, a deleted discount is off the page even
      when the fetch after the delete fails. */
  lemma HandleDeleteFixedDropsDeleted(discounts: seq<Discount>, id: string, reply: Reply<Value>,
                                      refetch: Reply<seq<Discount>>)
    requires exists k :: 0 <= k < |discounts| && discounts[k].recordId == id
    requires reply.Ok? && !refetch.Ok?
    ensures var shown := HandleDeleteFixed(discounts, id, true, reply, refetch).list;
            shown != discounts && forall k :: 0 <= k < |shown| ==> shown[k].recordId != id
  {
    RemoveDropsDeleted(discounts, id);
  }
}

/** The banners list: search and screen filter, delete, subtitle preview. */
module BannersPage {
  import opened Common
  import opened JsValue
  import Text
  import Sequences
  import ListUpdates

  datatype Banner = Banner(recordId: Value, title: string, subtitle: string, screenType: Value)

  predicate MatchesSearch(b: Banner, searchTerm: string) {
    var t := Text.Lower(searchTerm);
    Text.Contains(Text.Lower(b.title), t) || Text.Contains(Text.Lower(b.subtitle), t)
  }

  /** `statusFilter === "" || banner.screenType === statusFilter` */
  predicate MatchesScreen(b: Banner, statusFilter: string) {
    statusFilter == "" || b.screenType == Str(statusFilter)
  }

  /** `filteredBanners` */
  function Filtered(banners: seq<Banner>, searchTerm: string, statusFilter: string): (r: seq<Banner>)
    ensures Sequences.IsSubsequence(r, banners)
    ensures forall b :: b in r <==> b in banners && MatchesSearch(b, searchTerm) && MatchesScreen(b, statusFilter)
    ensures |r| == Sequences.CountWhere(banners, (b: Banner) => MatchesSearch(b, searchTerm) && MatchesScreen(b, statusFilter))
  {
    var keep := (b: Banner) => MatchesSearch(b, searchTerm) && MatchesScreen(b, statusFilter);
    Sequences.KeepSpec(banners, keep);
    Sequences.Keep(banners, keep)
  }

  /** With no search and no screen chosen, every banner is shown. */
  lemma NoFilterShowsAll(banners: seq<Banner>)
    ensures Filtered(banners, "", "") == banners
  {
    forall k | 0 <= k < |banners|
      ensures MatchesSearch(banners[k], "")
    {
      Text.ContainsEmpty(Text.Lower(banners[k].title));
    }
    Sequences.KeepAll(banners, (b: Banner) => MatchesSearch(b, "") && MatchesScreen(b, ""));
  }

  function BannerId(b: Banner): Value {
    b.recordId
  }

  /** `handleDelete(id)` */
  function HandleDelete(banners: seq<Banner>, id: Value, confirmed: bool, reply: Reply<Value>): (r: ListUpdates.Removal<Banner>)
    ensures r.requested <==> confirmed
    ensures !(confirmed && reply.Ok?) ==> r.list == banners
    ensures confirmed && reply.Ok? ==> Sequences.IsSubsequence(r.list, banners)
    ensures confirmed && reply.Ok? ==> forall b :: b in r.list <==> b in banners && b.recordId != id
    ensures confirmed && reply.Ok? ==> |r.list| == |banners| - Sequences.CountKey(banners, BannerId, id)
  {
    ListUpdates.DeleteOnServer(banners, BannerId, id, confirmed, reply)
  }
}

/** The variations, options and categories lists. */
module CatalogLists {
  import opened Common
  import opened JsValue
  import Sequences
  import ListUpdates
  import Forms
  import CategoryForm

  /** `handleDelete(id)` of the variations page. */
  function DeleteVariation(variations: seq<Value>, id: Value, confirmed: bool, reply: Reply<Value>): (r: ListUpdates.Removal<Value>)
    ensures r.requested <==> confirmed
    ensures !(confirmed && reply.Ok?) ==> r.list == variations
    ensures confirmed && reply.Ok? ==> Sequences.IsSubsequence(r.list, variations)
    ensures confirmed && reply.Ok? ==> forall v :: v in r.list <==> v in variations && ListUpdates.RecordId(v) != id
    ensures confirmed && reply.Ok? ==> |r.list| == |variations| - Sequences.CountKey(variations, ListUpdates.RecordId, id)
  {
    ListUpdates.DeleteOnServer(variations, ListUpdates.RecordId, id, confirmed, reply)
  }

  /** `handleDelete(id)` of the options page. */
  function DeleteOption(options: seq<Value>, id: Value, confirmed: bool, reply: Reply<Value>): (r: ListUpdates.Removal<Value>)
    ensures r.requested <==> confirmed
    ensures !(confirmed && reply.Ok?) ==> r.list == options
    ensures confirmed && reply.Ok? ==> Sequences.IsSubsequence(r.list, options)
    ensures confirmed && reply.Ok? ==> forall v :: v in r.list <==> v in options && ListUpdates.RecordId(v) != id
    ensures confirmed && reply.Ok? ==> |r.list| == |options| - Sequences.CountKey(options, ListUpdates.RecordId, id)
  {
    ListUpdates.DeleteOnServer(options, ListUpdates.RecordId, id, confirmed, reply)
  }

  /** `handleDelete(id)` of the categories page: local only, no request. */
  function DeleteCategory(categories: seq<Value>, id: Value, confirmed: bool): (r: seq<Value>)
    ensures !confirmed ==> r == categories
    ensures confirmed ==> Sequences.IsSubsequence(r, categories)
    ensures confirmed ==> forall c :: c in r <==> c in categories && ListUpdates.RecordId(c) != id
    ensures confirmed ==> |r| == |categories| - Sequences.CountKey(categories, ListUpdates.RecordId, id)
  {
    ListUpdates.DeleteLocally(categories, ListUpdates.RecordId, id, confirmed)
  }

  /** `category?.productIds?.length`: the number of ids of a list, the
      number of characters of a text, an object's own `length`, and
      `undefined` (nothing shown) for anything else. */
  function ProductCount(category: Value): (n: Value)
    ensures var ids := Field(category, "productIds");
            ids.Arr? ==> n == Num(|ids.items|)
    ensures var ids := Field(category, "productIds");
            ids.Str? ==> n == Num(|ids.s|)
    ensures var ids := Field(category, "productIds");
            ids.Obj? ==> n == Field(ids, "length")
    ensures var ids := Field(category, "productIds");
            !(ids.Arr? || ids.Str? || ids.Obj?) ==> n == Undefined
  {
    match Field(category, "productIds")
    case Arr(items) => Num(|items|)
    case Str(s) => Num(|s|)
    case Obj(fields) => Get(fields, "length")
    case _ => Undefined
  }

  /** A category saved with `k` products chosen in its form shows `k`
      products in the list. */
  lemma SavedSelectionCounted(form: Object, selected: seq<Forms.SelectOption>)
    ensures ProductCount(Obj(CategoryForm.SelectProducts(form, selected))) == Num(|selected|)
  {
  }
}

/** The site and shipping settings page. */
module SettingsPage {
  import opened Common
  import opened JsValue

  /** `handleChange(section, field, value)`: `{ ...settings, [section]:
      { ...settings[section], [field]: value } }` */
  function HandleChange(settings: Object, section: string, field: string, value: Value): (r: Object)
    ensures Field(Get(r, section), field) == value
    ensures forall f :: f != field ==> Field(Get(r, section), f) == Field(Get(settings, section), f)
    ensures forall s :: s != section ==> Get(r, s) == Get(settings, s)
  {
    With(settings, section, Obj(With(Spread(Get(settings, section)), field, value)))
  }

  /** `handleShippingMethodChange(index, field, value)`. The page calls it
      from the rows it draws for `settings.shipping`, so there is a list and
      the index is one of its positions. */
  function HandleShippingMethodChange(settings: Object, index: nat, field: string, value: Value): (r: Object)
    requires Get(settings, "shipping").Arr? && index < |Get(settings, "shipping").items|
    ensures Get(r, "shipping").Arr?
    ensures |Get(r, "shipping").items| == |Get(settings, "shipping").items|
    ensures Field(Get(r, "shipping").items[index], field) == value
    ensures forall f :: f != field ==>
              Field(Get(r, "shipping").items[index], f) == Field(Get(settings, "shipping").items[index], f)
    ensures forall k :: 0 <= k < |Get(settings, "shipping").items| && k != index ==>
              Get(r, "shipping").items[k] == Get(settings, "shipping").items[k]
    ensures forall s :: s != "shipping" ==> Get(r, s) == Get(settings, s)
  {
    var methods := Get(settings, "shipping").items;
    With(settings, "shipping", Arr(methods[index := Obj(With(Spread(methods[index]), field, value))]))
  }

  /** Edits in one section never touch another. */
  lemma EditsCommute(settings: Object, s1: string, f1: string, v1: Value, s2: string, f2: string, v2: Value)
    requires s1 != s2
    ensures HandleChange(HandleChange(settings, s1, f1, v1), s2, f2, v2)
         == HandleChange(HandleChange(settings, s2, f2, v2), s1, f1, v1)
  {
  }

  datatype Request = UpdateSite | UpdateShipping

  datatype Saved = Saved(requests: seq<Request>, settings: Object, saved: bool, isSubmitting: bool)

  /** `handleSubmit`: the site update is awaited first, then the shipping
      update; their results are stored only when both say `success`. A
      thrown site update stops before the shipping request. */
  function HandleSubmit(settings: Object, site: Reply<Value>, shipping: Reply<Value>): (r: Saved)
    ensures !r.isSubmitting
    ensures |r.requests| >= 1 && r.requests[0] == UpdateSite
    ensures r.requests == if site.Threw? then [UpdateSite] else [UpdateSite, UpdateShipping]
    ensures r.saved <==> site.Ok? && shipping.Ok?
    ensures r.saved ==> Get(r.settings, "site") == site.data && Get(r.settings, "shipping") == shipping.data
    ensures r.saved ==> forall s :: s != "site" && s != "shipping" ==> Get(r.settings, s) == Get(settings, s)
    ensures !r.saved ==> r.settings == settings
  {
    var requests := if site.Threw? then [UpdateSite] else [UpdateSite, UpdateShipping];
    if site.Ok? && shipping.Ok? then
      Saved(requests, With(With(settings, "site", site.data), "shipping", shipping.data), true, false)
    else Saved(requests, settings, false, false)
  }
}

/** The product image list. */
module ImageUploader {
  import opened Common
  import opened JsValue
  import Sequences

  /** `handleImageAdd`: `[...images, ...uploaded]` when the upload says
      `success`. */
  function AddImages(images: seq<Value>, reply: Reply<seq<Value>>): (r: seq<Value>)
    ensures !reply.Ok? ==> r == images
    ensures reply.Ok? ==> |r| == |images| + |reply.data| && r[..|images|] == images && r[|images|..] == reply.data
  {
    if reply.Ok? then images + reply.data else images
  }

  /** `handleImageRemove(index)`: `images.filter((_, i) => i !== index)` */
  function RemoveImage(images: seq<Value>, index: int): (r: seq<Value>)
    ensures 0 <= index < |images| ==> |r| == |images| - 1
    ensures 0 <= index < |images| ==> forall k :: 0 <= k < |r| ==> r[k] == images[if k < index then k else k + 1]
    ensures !(0 <= index < |images|) ==> r == images
  {
    Sequences.WithoutIndex(images, index)
  }

  /** Removing the images just uploaded, last first, gives back the list. */
  lemma {:induction false} RemoveUploaded(images: seq<Value>, uploaded: seq<Value>)
    ensures RemoveLast(AddImages(images, Ok(uploaded)), |uploaded|) == images
    decreases |uploaded|
  {
    if |uploaded| > 0 {
      var n := |uploaded|;
      var all := images + uploaded;
      var fewer := uploaded[..n - 1];
      assert RemoveImage(all, |all| - 1) == images + fewer;
      RemoveUploaded(images, fewer);
    }
  }

  /** `count` presses of the remove button on the last image. */
  function RemoveLast(images: seq<Value>, count: nat): (r: seq<Value>)
    ensures |r| == if count <= |images| then |images| - count else 0
    decreases count
  {
    if count == 0 || |images| == 0 then images else RemoveLast(RemoveImage(images, |images| - 1), count - 1)
  }

  /** Removing the primary image makes the next one primary. */
  lemma RemovingPrimaryPromotesNext(images: seq<Value>)
    requires |images| >= 2
    ensures RemoveImage(images, 0)[0] == images[1]
  {
  }
}

/** `StatusIndicator`: the badge of an archivable record. */
module StatusIndicator {
  import opened JsValue

  datatype Badge = Archived | Active | Unknown
  datatype Colour = Red | Green | Gray

  /** `kind === 'archive' ? (value ? 'Archived' : 'Active') : 'Unknown'` */
  function BadgeOf(kind: string, value: Value): (b: Badge)
    ensures b == Archived <==> kind == "archive" && Truthy(value)
    ensures b == Active <==> kind == "archive" && !Truthy(value)
    ensures b == Unknown <==> kind != "archive"
  {
    if kind == "archive" then (if Truthy(value) then Archived else Active) else Unknown
  }

  /** The colour classes chosen by the same two tests. */
  function ColourOf(kind: string, value: Value): (c: Colour) {
    if kind == "archive" then (if Truthy(value) then Red else Green) else Gray
  }

  /** Colour and label always agree, and each label has its own colour. */
  lemma ColourMatchesBadge(k1: string, v1: Value, k2: string, v2: Value)
    ensures BadgeOf(k1, v1) == BadgeOf(k2, v2) <==> ColourOf(k1, v1) == ColourOf(k2, v2)
    ensures BadgeOf(k1, v1) == Archived <==> ColourOf(k1, v1) == Red
    ensures BadgeOf(k1, v1) == Unknown <==> ColourOf(k1, v1) == Gray
  {
  }
}

/** The rows `exportOrdersToExcel` writes to the spreadsheet. */
module OrderExport {
  import opened JsValue
  import Text

  datatype Customer = Customer(firstName: Value, lastName: Value, email: Value, mobile: Value)
  datatype Item = Item(name: Value, quantity: Value)
  datatype Order = Order(merchantOrderId: Value, customer: Customer, payMode: Value, payStatus: Value,
                         status: Value, deliveryType: Value, orderDate: Value, expectedDelivery: Value,
                         amount: Value, items: seq<Item>)

  datatype Row = Row(orderId: Value, customerName: string, email: Value, mobile: Value,
                     paymentMethod: Value, paymentStatus: Value, orderStatus: Value, deliveryType: Value,
                     orderDate: string, expectedDelivery: string, amount: Value, items: string)

  /** `${item.name} (x${item.quantity})` */
  function ItemText(item: Item): string {
    ToText(item.name) + " (x" + ToText(item.quantity) + ")"
  }

  /** `items.map(...).join(", ")` */
  function ItemsText(items: seq<Item>): string {
    Text.Join(seq(|items|, k requires 0 <= k < |items| => ItemText(items[k])), ", ")
  }

  /** One order's row; `localeDate` stands for
      `new Date(v).toLocaleString()`. */
  function RowOf(order: Order, localeDate: Value -> string): (r: Row)
    ensures r.customerName == ToText(order.customer.firstName) + " " + ToText(order.customer.lastName)
    ensures r.orderId == order.merchantOrderId && r.amount == order.amount
    ensures r.paymentMethod == order.payMode && r.paymentStatus == order.payStatus
    ensures r.orderStatus == order.status && r.deliveryType == order.deliveryType
    ensures r.email == order.customer.email && r.mobile == order.customer.mobile
    ensures r.orderDate == localeDate(order.orderDate)
    ensures r.expectedDelivery == localeDate(order.expectedDelivery)
    ensures r.items == ItemsText(order.items)
  {
    Row(order.merchantOrderId,
        ToText(order.customer.firstName) + " " + ToText(order.customer.lastName),
        order.customer.email, order.customer.mobile, order.payMode, order.payStatus, order.status,
        order.deliveryType, localeDate(order.orderDate), localeDate(order.expectedDelivery),
        order.amount, ItemsText(order.items))
  }

  /** `result.map(order => ...)` */
  function Rows(orders: seq<Order>, localeDate: Value -> string): (r: seq<Row>)
    ensures |r| == |orders|
    ensures forall k :: 0 <= k < |orders| ==> r[k] == RowOf(orders[k], localeDate)
  {
    seq(|orders|, k requires 0 <= k < |orders| => RowOf(orders[k], localeDate))
  }

  /** Exporting two lists of orders one after the other writes the rows of
      the first, then those of the second. */
  lemma RowsAppend(a: seq<Order>, b: seq<Order>, localeDate: Value -> string)
    ensures Rows(a + b, localeDate) == Rows(a, localeDate) + Rows(b, localeDate)
  {
  }

  /** No items give an empty cell, one item its own text, and more items
      are separated by exactly ", ". */
  lemma ItemsTextShape(items: seq<Item>, more: seq<Item>)
    requires |items| > 0 && |more| > 0
    ensures ItemsText([]) == ""
    ensures ItemsText([items[0]]) == ItemText(items[0])
    ensures ItemsText(items + more) == ItemsText(items) + ", " + ItemsText(more)
  {
    var xs := seq(|items|, k requires 0 <= k < |items| => ItemText(items[k]));
    var ys := seq(|more|, k requires 0 <= k < |more| => ItemText(more[k]));
    assert seq(|items + more|, k requires 0 <= k < |items + more| => ItemText((items + more)[k])) == xs + ys;
    Text.JoinAppend(xs, ys, ", ");
  }
}
