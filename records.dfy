/**
 * The two document collections the table controller works on, Table and Order, the
 * responses of its handlers, and the consistency conditions between the collections
 * (apps/pos/controllers/tableController.js). Everything here is a value; the handlers
 * that change the collections are in module TableController.
 */
module Records {
  import opened Options
  import opened OrderItems

  /** A document identifier. */
  type Id = nat

  datatype Status = Pending | Completed

  /** A Table document; `hasOrders` is the stored flag. */
  datatype Table = Table(id: Id, name: string, tableNumber: int, hasOrders: bool)

  /** An Order document; `waiterId` is optional. */
  datatype Order = Order(id: Id, tableId: Id, items: seq<OrderItem>, total: int, status: Status, waiterId: Option<Id>)

  /**
   * The table view several handlers answer with: the table's fields, the items of its
   * pending order and the waiter summary (the waiter's id), when the response has one.
   */
  datatype TableDetail = TableDetail(table: Table, orders: seq<OrderItem>, waiter: Option<Id>)

  /** A handler's answer: a 2xx body, or a 400 or 404 with its message. */
  datatype Response<T> = Ok(value: T) | BadRequest(message: string) | NotFound(message: string)

  const MSG_NAME_AND_NUMBER_REQUIRED := "Table name and number are required"
  const MSG_NAME_OR_NUMBER_REQUIRED := "At least name or table number must be provided"
  const MSG_NUMBER_EXISTS := "Table number already exists"
  const MSG_TABLE_NOT_FOUND := "Table not found"
  const MSG_WAITER_NOT_FOUND := "Waiter not found"
  const MSG_ORDERS_REQUIRED := "Orders must be a non-empty array"
  const MSG_TABLE_DELETED := "Table and all associated orders deleted successfully"

  // ---------------------------------------------------------------------------
  // Queries over the collections

  predicate HasTable(ts: seq<Table>, id: Id) {
    exists t :: t in ts && t.id == id
  }

  /** Some table other than `self` (when given) already holds `n`. */
  predicate NumberTaken(ts: seq<Table>, n: int, self: Option<Id>) {
    exists t :: t in ts && t.tableNumber == n && self != Some(t.id)
  }

  predicate IsPendingFor(o: Order, id: Id) {
    o.tableId == id && o.status == Pending
  }

  predicate HasPending(os: seq<Order>, id: Id) {
    exists o :: o in os && IsPendingFor(o, id)
  }

  /** The table as the list endpoint reports it: `hasOrders` recomputed from the orders. */
  function Listed(t: Table, os: seq<Order>): Table {
    t.(hasOrders := HasPending(os, t.id))
  }

  /** The waiter summary of an order: populated only when the waiter document exists. */
  function WaiterSummary(w: Option<Id>, waiters: set<Id>): Option<Id> {
    if w.Some? && w.value in waiters then w else None
  }

  /** The fields `updateTable` writes: only those supplied (truthy) replace the stored ones. */
  function Edited(t: Table, name: string, tableNumber: int): Table {
    t.(name := if name != "" then name else t.name,
       tableNumber := if tableNumber != 0 then tableNumber else t.tableNumber)
  }

  /**
   * The pending order after `placeOrder` rewrites it in place: items and total are
   * replaced, and the waiter only when one is supplied.
   */
  function Replaced(o: Order, items: seq<OrderItem>, waiterId: Option<Id>): Order {
    o.(items := items, total := Total(items), waiterId := if waiterId.Some? then waiterId else o.waiterId)
  }

  /** The order `placeOrder` creates when the table has no pending order. */
  function NewPending(id: Id, tableId: Id, items: seq<OrderItem>, waiterId: Option<Id>): Order {
    Order(id, tableId, items, Total(items), Pending, waiterId)
  }

  /** `d` reports the pending order's items of table `id`, or none when there is no pending order. */
  predicate ReportsItems(d: TableDetail, os: seq<Order>, id: Id) {
    && (!HasPending(os, id) ==> d.orders == [])
    && (forall o :: o in os && IsPendingFor(o, id) ==> d.orders == o.items)
  }

  /** `d` reports the pending order's waiter summary of table `id`, or none. */
  predicate ReportsWaiter(d: TableDetail, os: seq<Order>, id: Id, waiters: set<Id>) {
    && (!HasPending(os, id) ==> d.waiter == None)
    && (forall o :: o in os && IsPendingFor(o, id) ==> d.waiter == WaiterSummary(o.waiterId, waiters))
  }

  // ---------------------------------------------------------------------------
  // The store invariant

  predicate UniqueTableIds(ts: seq<Table>) {
    forall i, j :: 0 <= i < j < |ts| ==> ts[i].id != ts[j].id
  }

  /** `tableNumber` is unique across tables. */
  predicate UniqueNumbers(ts: seq<Table>) {
    forall i, j :: 0 <= i < j < |ts| ==> ts[i].tableNumber != ts[j].tableNumber
  }

  predicate UniqueOrderIds(os: seq<Order>) {
    forall i, j :: 0 <= i < j < |os| ==> os[i].id != os[j].id
  }

  /** Every stored table has a name and a table number, as `createTable` demands. */
  predicate FieldsPresent(ts: seq<Table>) {
    forall t :: t in ts ==> t.name != "" && t.tableNumber != 0
  }

  /** Every order's `tableId` names an existing table. */
  predicate OrdersReferenceTables(ts: seq<Table>, os: seq<Order>) {
    forall o :: o in os ==> HasTable(ts, o.tableId)
  }

  /** At most one pending order per table. */
  predicate AtMostOnePending(os: seq<Order>) {
    forall i, j :: 0 <= i < j < |os| && os[i].status == Pending && os[j].status == Pending ==>
      os[i].tableId != os[j].tableId
  }

  /** The stored `hasOrders` flag agrees with the existence of a pending order. */
  predicate FlagsAgree(ts: seq<Table>, os: seq<Order>) {
    forall t :: t in ts ==> t.hasOrders == HasPending(os, t.id)
  }

  /** Every order's total is the sum of price times quantity over its items. */
  predicate TotalsConsistent(os: seq<Order>) {
    forall o :: o in os ==> o.total == LineSum(o.items)
  }

  /** Every identifier in use was handed out before `next`. */
  predicate IdsBelow(ts: seq<Table>, os: seq<Order>, next: nat) {
    && (forall t :: t in ts ==> t.id < next)
    && (forall o :: o in os ==> o.id < next)
  }

  predicate StoreInvariant(ts: seq<Table>, os: seq<Order>, next: nat) {
    && UniqueTableIds(ts)
    && UniqueNumbers(ts)
    && FieldsPresent(ts)
    && UniqueOrderIds(os)
    && IdsBelow(ts, os, next)
    && OrdersReferenceTables(ts, os)
    && AtMostOnePending(os)
    && FlagsAgree(ts, os)
    && TotalsConsistent(os)
  }

  /** Order status moves one way: an order that was completed is never reopened or edited. */
  predicate NoReopen(before: seq<Order>, after: seq<Order>) {
    forall o, p :: o in before && p in after && o.id == p.id && o.status == Completed ==> p == o
  }

  // ---------------------------------------------------------------------------
  // Sorting by table number: the `sort({ tableNumber: 1 })` the store performs

  predicate StrictlyAscending(ts: seq<Table>) {
    forall i, j :: 0 <= i < j < |ts| ==> ts[i].tableNumber < ts[j].tableNumber
  }

  function InsertByNumber(t: Table, ts: seq<Table>): (r: seq<Table>)
    requires StrictlyAscending(ts)
    requires forall u :: u in ts ==> u.tableNumber != t.tableNumber
    ensures StrictlyAscending(r)
    ensures multiset(r) == multiset(ts) + multiset{t}
  {
    if ts == [] then [t]
    else if t.tableNumber < ts[0].tableNumber then [t] + ts
    else
      var rest := InsertByNumber(t, ts[1..]);
      InsertBehindHead(t, ts, rest);
      [ts[0]] + rest
  }

  /** The recursive case of `InsertByNumber`: the head stays in front of the insertion into the tail. */
  lemma InsertBehindHead(t: Table, ts: seq<Table>, rest: seq<Table>)
    requires StrictlyAscending(ts) && ts != [] && ts[0].tableNumber < t.tableNumber
    requires StrictlyAscending(rest) && multiset(rest) == multiset(ts[1..]) + multiset{t}
    ensures StrictlyAscending([ts[0]] + rest)
    ensures multiset([ts[0]] + rest) == multiset(ts) + multiset{t}
  {
    assert ts == [ts[0]] + ts[1..];
    HeadBelowTail(ts);
    forall u | u in rest ensures ts[0].tableNumber < u.tableNumber {
      assert u in multiset(rest);
    }
    LeadingSmallest(ts[0], rest);
  }

  lemma HeadBelowTail(ts: seq<Table>)
    requires StrictlyAscending(ts) && ts != []
    ensures forall u :: u in ts[1..] ==> ts[0].tableNumber < u.tableNumber
  {
    forall u | u in ts[1..] ensures ts[0].tableNumber < u.tableNumber {
      var k :| 0 <= k < |ts[1..]| && ts[1..][k] == u;
      assert ts[k + 1] == u;
    }
  }

  lemma LeadingSmallest(head: Table, rest: seq<Table>)
    requires StrictlyAscending(rest)
    requires forall u :: u in rest ==> head.tableNumber < u.tableNumber
    ensures StrictlyAscending([head] + rest)
  {
    var r := [head] + rest;
    forall i, j | 0 <= i < j < |r| ensures r[i].tableNumber < r[j].tableNumber {
      assert r[j] == rest[j - 1];
      if i > 0 {
        assert r[i] == rest[i - 1];
      } else {
        assert rest[j - 1] in rest;
      }
    }
  }

  function SortByNumber(ts: seq<Table>): (r: seq<Table>)
    requires UniqueNumbers(ts)
    ensures StrictlyAscending(r)
    ensures multiset(r) == multiset(ts)
  {
    if ts == [] then []
    else
      assert ts == [ts[0]] + ts[1..];
      TailNumbersDiffer(ts);
      var rest := SortByNumber(ts[1..]);
      assert forall u :: u in rest ==> u.tableNumber != ts[0].tableNumber by {
        forall u | u in rest ensures u.tableNumber != ts[0].tableNumber {
          assert u in multiset(rest);
        }
      }
      InsertByNumber(ts[0], rest)
  }

  lemma TailNumbersDiffer(ts: seq<Table>)
    requires UniqueNumbers(ts) && ts != []
    ensures UniqueNumbers(ts[1..])
    ensures forall u :: u in ts[1..] ==> u.tableNumber != ts[0].tableNumber
  {
    var tail := ts[1..];
    forall a, b | 0 <= a < b < |tail| ensures tail[a].tableNumber != tail[b].tableNumber {
      assert tail[a] == ts[a + 1] && tail[b] == ts[b + 1];
    }
    forall u | u in tail ensures u.tableNumber != ts[0].tableNumber {
      var k :| 0 <= k < |tail| && tail[k] == u;
      assert ts[k + 1] == u;
    }
  }

  // ---------------------------------------------------------------------------
  // The bulk updates: `Order.deleteMany` and `Order.updateMany`

  /** The orders left by `Order.deleteMany({ tableId: id })`, in their stored order. */
  function OrdersNotOf(os: seq<Order>, id: Id): (r: seq<Order>)
    ensures forall o :: o in r <==> o in os && o.tableId != id
    ensures |r| <= |os|
  {
    if os == [] then []
    else
      var last := os[|os| - 1];
      assert os == os[..|os| - 1] + [last];
      OrdersNotOf(os[..|os| - 1], id) + (if last.tableId != id then [last] else [])
  }

  /** One order after `Order.updateMany({ tableId: id, status: 'pending' }, { status: 'completed' })`. */
  function Cleared(o: Order, id: Id): Order {
    if IsPendingFor(o, id) then o.(status := Completed) else o
  }

  function ClearedOrders(os: seq<Order>, id: Id): seq<Order> {
    seq(|os|, k requires 0 <= k < |os| => Cleared(os[k], id))
  }

  /** What clearing does: table `id` has no pending order left, and nothing else changes. */
  lemma ClearedOrdersEffect(os: seq<Order>, id: Id)
    ensures |ClearedOrders(os, id)| == |os|
    ensures !HasPending(ClearedOrders(os, id), id)
    ensures forall k :: 0 <= k < |os| && IsPendingFor(os[k], id) ==>
      ClearedOrders(os, id)[k] == os[k].(status := Completed)
    ensures forall k :: 0 <= k < |os| && !IsPendingFor(os[k], id) ==> ClearedOrders(os, id)[k] == os[k]
    ensures forall other :: other != id ==> (HasPending(ClearedOrders(os, id), other) <==> HasPending(os, other))
  {
    var r := ClearedOrders(os, id);
    forall other | other != id
      ensures HasPending(r, other) <==> HasPending(os, other)
    {
      if HasPending(os, other) {
        var o :| o in os && IsPendingFor(o, other);
        var k :| 0 <= k < |os| && os[k] == o;
        assert r[k] == o;
      }
      if HasPending(r, other) {
        var o :| o in r && IsPendingFor(o, other);
        var k :| 0 <= k < |r| && r[k] == o;
        assert os[k] == o;
      }
    }
  }

  // ---------------------------------------------------------------------------
  // The hasOrders flag

  /**
   * As long as the invariant holds, the flag the list endpoint recomputes agrees with
   * the stored one, so the two sources of `hasOrders` never disagree in this model.
   */
  lemma StoredFlagIsLive(ts: seq<Table>, os: seq<Order>, next: nat)
    requires StoreInvariant(ts, os, next)
    ensures forall t :: t in ts ==> Listed(t, os) == t
  {
  }

  /**
   * Under the invariant, no order belongs to a table that does not exist, so the
   * unconditional `deleteMany` of `deleteTable` removes nothing when the table is missing.
   */
  lemma DeleteOfMissingTableKeepsOrders(ts: seq<Table>, os: seq<Order>, id: Id)
    requires OrdersReferenceTables(ts, os)
    requires !HasTable(ts, id)
    ensures OrdersNotOf(os, id) == os
  {
    if os != [] {
      var init := os[..|os| - 1];
      assert os == init + [os[|os| - 1]];
      assert os[|os| - 1] in os;
      assert OrdersReferenceTables(ts, init) by {
        forall o | o in init ensures HasTable(ts, o.tableId) {
          assert o in os;
        }
      }
      DeleteOfMissingTableKeepsOrders(ts, init, id);
    }
  }

  // ---------------------------------------------------------------------------
  // Each handler's change keeps the store invariant

  /** `createTable`: appending a placed table with an unused number. */
  lemma AddTableKeepsInvariant(ts: seq<Table>, os: seq<Order>, next: nat, t: Table)
    requires StoreInvariant(ts, os, next)
    requires t.id == next && t.name != "" && t.tableNumber != 0 && !t.hasOrders
    requires !NumberTaken(ts, t.tableNumber, None)
    ensures StoreInvariant(ts + [t], os, next + 1)
  {
    var ts' := ts + [t];
    forall o | o in os ensures o.tableId != t.id {
      var w :| w in ts && w.id == o.tableId;
    }
    assert !HasPending(os, t.id);
    forall u | u in ts' ensures u == t || u in ts { }
    forall o | o in os ensures HasTable(ts', o.tableId) {
      var w :| w in ts && w.id == o.tableId;
      assert w in ts';
    }
    forall i, j | 0 <= i < j < |ts'| ensures ts'[i].tableNumber != ts'[j].tableNumber && ts'[i].id != ts'[j].id {
      assert ts'[i] in ts;
    }
  }

  /** `updateTable`: rewriting the supplied fields of table `i` with a number no other table holds. */
  lemma EditTableKeepsInvariant(ts: seq<Table>, os: seq<Order>, next: nat, i: nat, name: string, n: int)
    requires StoreInvariant(ts, os, next)
    requires i < |ts|
    requires n != 0 ==> !NumberTaken(ts, n, Some(ts[i].id))
    ensures StoreInvariant(ts[i := Edited(ts[i], name, n)], os, next)
  {
    var ts' := ts[i := Edited(ts[i], name, n)];
    forall a, b | 0 <= a < b < |ts'| ensures ts'[a].tableNumber != ts'[b].tableNumber {
      if a == i && n != 0 {
        assert ts[b] in ts;
      } else if b == i && n != 0 {
        assert ts[a] in ts;
      }
    }
    forall u | u in ts' ensures u.id < next && u.name != "" && u.tableNumber != 0 && u.hasOrders == HasPending(os, u.id) {
      var k :| 0 <= k < |ts'| && ts'[k] == u;
      assert ts[k] in ts;
    }
    forall o | o in os ensures HasTable(ts', o.tableId) {
      var w :| w in ts && w.id == o.tableId;
      var k :| 0 <= k < |ts| && ts[k] == w;
      assert ts'[k] in ts';
    }
  }

  /** `deleteTable`: dropping table `i` together with its orders. */
  lemma RemoveTableKeepsInvariant(ts: seq<Table>, os: seq<Order>, next: nat, i: nat)
    requires StoreInvariant(ts, os, next)
    requires i < |ts|
    ensures StoreInvariant(ts[..i] + ts[i + 1..], OrdersNotOf(os, ts[i].id), next)
    ensures NoReopen(os, OrdersNotOf(os, ts[i].id))
  {
    var id := ts[i].id;
    var ts' := ts[..i] + ts[i + 1..];
    var os' := OrdersNotOf(os, id);
    RemoveAtKeepsTables(ts, i);
    OrdersNotOfKeepsOrderInvariants(os, id);
    forall o | o in os' ensures HasTable(ts', o.tableId) {
      var w :| w in ts && w.id == o.tableId;
      assert w in ts';
    }
    forall u | u in ts' ensures HasPending(os', u.id) == HasPending(os, u.id) {
      if HasPending(os, u.id) {
        var o :| o in os && IsPendingFor(o, u.id);
        assert o in os';
      }
    }
    forall o, p | o in os && p in os' && o.id == p.id ensures p == o {
      var x :| 0 <= x < |os| && os[x] == o;
      var y :| 0 <= y < |os| && os[y] == p;
      assert x == y;
    }
  }

  /** Removing the table at `i` keeps the other tables and their uniqueness. */
  lemma RemoveAtKeepsTables(ts: seq<Table>, i: nat)
    requires UniqueTableIds(ts) && UniqueNumbers(ts)
    requires i < |ts|
    ensures UniqueTableIds(ts[..i] + ts[i + 1..]) && UniqueNumbers(ts[..i] + ts[i + 1..])
    ensures forall u :: u in ts[..i] + ts[i + 1..] <==> u in ts && u.id != ts[i].id
  {
    RemoveAtKeepsUniqueness(ts, i);
    RemoveAtKeepsOthers(ts, i);
  }

  lemma RemoveAtKeepsUniqueness(ts: seq<Table>, i: nat)
    requires UniqueTableIds(ts) && UniqueNumbers(ts)
    requires i < |ts|
    ensures UniqueTableIds(ts[..i] + ts[i + 1..]) && UniqueNumbers(ts[..i] + ts[i + 1..])
  {
    var ts' := ts[..i] + ts[i + 1..];
    forall a, b | 0 <= a < b < |ts'|
      ensures ts'[a].id != ts'[b].id && ts'[a].tableNumber != ts'[b].tableNumber
    {
      var a', b' := if a < i then a else a + 1, if b < i then b else b + 1;
      assert ts'[a] == ts[a'] && ts'[b] == ts[b'];
    }
  }

  lemma RemoveAtKeepsOthers(ts: seq<Table>, i: nat)
    requires UniqueTableIds(ts)
    requires i < |ts|
    ensures forall u :: u in ts[..i] + ts[i + 1..] <==> u in ts && u.id != ts[i].id
  {
    TableIdPins(ts, i);
    forall u ensures u in ts[..i] + ts[i + 1..] <==> u in ts && u.id != ts[i].id {
      if u in ts && u.id != ts[i].id {
        var k :| 0 <= k < |ts| && ts[k] == u;
        if k < i {
          assert ts[..i][k] == u;
        } else {
          assert ts[i + 1..][k - i - 1] == u;
        }
      }
      if u in ts[..i] {
        var k :| 0 <= k < i && ts[..i][k] == u;
        assert ts[k] == u;
      }
      if u in ts[i + 1..] {
        var k :| 0 <= k < |ts| - i - 1 && ts[i + 1..][k] == u;
        assert ts[k + i + 1] == u;
      }
    }
  }

  /** `Order.deleteMany` keeps order ids unique and at most one pending order per table. */
  lemma {:induction false} OrdersNotOfKeepsOrderInvariants(os: seq<Order>, id: Id)
    requires UniqueOrderIds(os) && AtMostOnePending(os)
    ensures UniqueOrderIds(OrdersNotOf(os, id)) && AtMostOnePending(OrdersNotOf(os, id))
  {
    if os != [] {
      var n := |os| - 1;
      var init, last := os[..n], os[n];
      PrefixKeepsOrderInvariants(os, n);
      OrdersNotOfKeepsOrderInvariants(init, id);
      var kept := OrdersNotOf(init, id);
      assert OrdersNotOf(os, id) == kept + (if last.tableId != id then [last] else []);
      if last.tableId != id {
        forall o | o in kept ensures o.id != last.id && (o.status == Pending && last.status == Pending ==> o.tableId != last.tableId) {
          assert o in init;
          var x :| 0 <= x < n && init[x] == o;
          assert os[x] == o;
        }
        AppendUnclashing(kept, last);
      }
    }
  }

  lemma PrefixKeepsOrderInvariants(os: seq<Order>, n: nat)
    requires UniqueOrderIds(os) && AtMostOnePending(os) && n <= |os|
    ensures UniqueOrderIds(os[..n]) && AtMostOnePending(os[..n])
  {
    assert forall x :: 0 <= x < n ==> os[..n][x] == os[x];
  }

  /** Appending an order that shares no id, and no table as a pending order, with the others keeps both order invariants. */
  lemma AppendUnclashing(os: seq<Order>, o': Order)
    requires UniqueOrderIds(os) && AtMostOnePending(os)
    requires forall o :: o in os ==> o.id != o'.id && (o.status == Pending && o'.status == Pending ==> o.tableId != o'.tableId)
    ensures UniqueOrderIds(os + [o']) && AtMostOnePending(os + [o'])
  {
    var r := os + [o'];
    forall a, b | 0 <= a < b < |r|
      ensures r[a].id != r[b].id
      ensures r[a].status == Pending && r[b].status == Pending ==> r[a].tableId != r[b].tableId
    {
      assert r[a] == os[a] && os[a] in os;
      if b < |os| {
        assert r[b] == os[b];
      }
    }
  }

  /** Setting the stored flag of table `i` keeps every identifying field of every table. */
  lemma SetFlagKeepsTables(ts: seq<Table>, i: nat, flag: bool)
    requires UniqueTableIds(ts) && UniqueNumbers(ts) && FieldsPresent(ts)
    requires i < |ts|
    ensures UniqueTableIds(ts[i := ts[i].(hasOrders := flag)])
    ensures UniqueNumbers(ts[i := ts[i].(hasOrders := flag)])
    ensures FieldsPresent(ts[i := ts[i].(hasOrders := flag)])
    ensures forall id :: HasTable(ts[i := ts[i].(hasOrders := flag)], id) <==> HasTable(ts, id)
    ensures forall u :: u in ts[i := ts[i].(hasOrders := flag)] ==>
      u == ts[i].(hasOrders := flag) || (u in ts && u.id != ts[i].id)
  {
    var ts' := ts[i := ts[i].(hasOrders := flag)];
    forall u | u in ts' ensures u == ts[i].(hasOrders := flag) || (u in ts && u.id != ts[i].id) {
      var k :| 0 <= k < |ts'| && ts'[k] == u;
    }
    forall u | u in ts' ensures u.name != "" && u.tableNumber != 0 {
      var k :| 0 <= k < |ts'| && ts'[k] == u;
      assert ts[k] in ts;
    }
    forall id | HasTable(ts, id) ensures HasTable(ts', id) {
      var w :| w in ts && w.id == id;
      var k :| 0 <= k < |ts| && ts[k] == w;
      assert ts'[k] in ts';
    }
    forall id | HasTable(ts', id) ensures HasTable(ts, id) {
      var w :| w in ts' && w.id == id;
      var k :| 0 <= k < |ts'| && ts'[k] == w;
      assert ts[k] in ts;
    }
  }

  /**
   * Rewriting pending order `k` in place with a record that keeps its id, table and status
   * keeps both order invariants and which tables have a pending order, and reopens nothing.
   */
  lemma RewritePendingKeepsOrders(os: seq<Order>, k: nat, o': Order)
    requires UniqueOrderIds(os) && AtMostOnePending(os)
    requires k < |os| && os[k].status == Pending
    requires o'.id == os[k].id && o'.tableId == os[k].tableId && o'.status == Pending
    ensures UniqueOrderIds(os[k := o']) && AtMostOnePending(os[k := o'])
    ensures forall o :: o in os[k := o'] ==> o == o' || o in os
    ensures forall id :: HasPending(os[k := o'], id) <==> HasPending(os, id)
    ensures NoReopen(os, os[k := o'])
  {
    var os' := os[k := o'];
    assert forall x :: 0 <= x < |os'| ==>
      os'[x].id == os[x].id && os'[x].tableId == os[x].tableId && os'[x].status == os[x].status;
    forall o | o in os' ensures o == o' || o in os {
      var x :| 0 <= x < |os'| && os'[x] == o;
    }
    forall id ensures HasPending(os', id) <==> HasPending(os, id) {
      if HasPending(os, id) {
        var o :| o in os && IsPendingFor(o, id);
        var x :| 0 <= x < |os| && os[x] == o;
        assert os'[x] in os';
      }
      if HasPending(os', id) {
        var o :| o in os' && IsPendingFor(o, id);
        var x :| 0 <= x < |os'| && os'[x] == o;
        assert os[x] in os;
      }
    }
    forall o, p | o in os && p in os' && o.id == p.id && o.status == Completed ensures p == o {
      var x :| 0 <= x < |os| && os[x] == o;
      var y :| 0 <= y < |os'| && os'[y] == p;
      assert os[y].id == p.id;
    }
  }

  /** `placeOrder` with a pending order: its items, total and waiter are rewritten in place. */
  lemma ReplacePendingKeepsInvariant(ts: seq<Table>, os: seq<Order>, next: nat, i: nat, k: nat,
                                     items: seq<OrderItem>, w: Option<Id>)
    requires StoreInvariant(ts, os, next)
    requires i < |ts| && k < |os| && IsPendingFor(os[k], ts[i].id)
    ensures StoreInvariant(ts[i := ts[i].(hasOrders := true)], os[k := Replaced(os[k], items, w)], next)
    ensures NoReopen(os, os[k := Replaced(os[k], items, w)])
  {
    var o' := Replaced(os[k], items, w);
    var ts' := ts[i := ts[i].(hasOrders := true)];
    var os' := os[k := o'];
    SetFlagKeepsTables(ts, i, true);
    RewritePendingKeepsOrders(os, k, o');
    assert os[k] in os;
    assert IdsBelow(ts', os', next);
    assert OrdersReferenceTables(ts', os');
    assert TotalsConsistent(os');
    forall u | u in ts' ensures u.hasOrders == HasPending(os', u.id) {
      if u == ts[i].(hasOrders := true) {
        assert IsPendingFor(os[k], u.id);
      }
    }
  }

  /** `placeOrder` without a pending order: one new pending order is appended. */
  lemma AppendPendingKeepsInvariant(ts: seq<Table>, os: seq<Order>, next: nat, i: nat,
                                    items: seq<OrderItem>, w: Option<Id>)
    requires StoreInvariant(ts, os, next)
    requires i < |ts| && !HasPending(os, ts[i].id)
    ensures StoreInvariant(ts[i := ts[i].(hasOrders := true)], os + [NewPending(next, ts[i].id, items, w)], next + 1)
    ensures NoReopen(os, os + [NewPending(next, ts[i].id, items, w)])
  {
    var placed := NewPending(next, ts[i].id, items, w);
    var ts' := ts[i := ts[i].(hasOrders := true)];
    var os' := os + [placed];
    SetFlagKeepsTables(ts, i, true);
    assert ts[i] in ts;
    assert placed == os'[|os|] && placed in os';
    forall o | o in os' ensures o == placed || o in os { }
    forall o | o in os ensures o.id != placed.id { }
    assert UniqueOrderIds(os') && AtMostOnePending(os') by {
      forall a, b | 0 <= a < b < |os'|
        ensures os'[a].id != os'[b].id
        ensures os'[a].status == Pending && os'[b].status == Pending ==> os'[a].tableId != os'[b].tableId
      {
        assert os'[a] == os[a] && os[a] in os;
        if b < |os| {
          assert os'[b] == os[b];
        }
      }
    }
    assert IdsBelow(ts', os', next + 1);
    assert OrdersReferenceTables(ts', os') by {
      forall o | o in os' ensures HasTable(ts', o.tableId) {
        assert HasTable(ts, ts[i].id);
      }
    }
    assert TotalsConsistent(os');
    forall id | id != ts[i].id ensures HasPending(os', id) == HasPending(os, id) {
      if HasPending(os', id) {
        var o :| o in os' && IsPendingFor(o, id);
        assert o in os;
      }
    }
    assert FlagsAgree(ts', os');
    assert NoReopen(os, os');
  }

  /**
   * Completing the pending orders of table `id` keeps order ids unique, keeps at most one
   * pending order per table, changes no order's id, table, items or total, and reopens nothing.
   */
  lemma ClearedKeepsOrders(os: seq<Order>, id: Id)
    requires UniqueOrderIds(os) && AtMostOnePending(os)
    ensures UniqueOrderIds(ClearedOrders(os, id)) && AtMostOnePending(ClearedOrders(os, id))
    ensures forall o :: o in ClearedOrders(os, id) ==> exists x :: 0 <= x < |os| && o == Cleared(os[x], id)
    ensures NoReopen(os, ClearedOrders(os, id))
  {
    var os' := ClearedOrders(os, id);
    assert forall x :: 0 <= x < |os'| ==>
      os'[x].id == os[x].id && os'[x].tableId == os[x].tableId && (os'[x].status == Pending ==> os[x].status == Pending);
    forall o | o in os' ensures exists x :: 0 <= x < |os| && o == Cleared(os[x], id) {
      var x :| 0 <= x < |os'| && os'[x] == o;
    }
    forall o, p | o in os && p in os' && o.id == p.id && o.status == Completed ensures p == o {
      var x :| 0 <= x < |os| && os[x] == o;
      var y :| 0 <= y < |os'| && os'[y] == p;
      assert os[y].id == p.id;
    }
  }

  /** `clearOrders`: the table's pending orders complete and its stored flag is reset. */
  lemma ClearKeepsInvariant(ts: seq<Table>, os: seq<Order>, next: nat, i: nat)
    requires StoreInvariant(ts, os, next)
    requires i < |ts|
    ensures StoreInvariant(ts[i := ts[i].(hasOrders := false)], ClearedOrders(os, ts[i].id), next)
    ensures NoReopen(os, ClearedOrders(os, ts[i].id))
  {
    var id := ts[i].id;
    var ts' := ts[i := ts[i].(hasOrders := false)];
    var os' := ClearedOrders(os, id);
    SetFlagKeepsTables(ts, i, false);
    ClearedOrdersEffect(os, id);
    ClearedKeepsOrders(os, id);
    forall o | o in os' ensures o.id < next && HasTable(ts', o.tableId) && o.total == LineSum(o.items) {
      var x :| 0 <= x < |os| && o == Cleared(os[x], id);
      assert os[x] in os;
    }
    assert FlagsAgree(ts', os');
  }

  /** With unique order ids, leaving the orders as they are reopens nothing. */
  lemma UnchangedReopensNothing(os: seq<Order>)
    requires UniqueOrderIds(os)
    ensures NoReopen(os, os)
  {
    forall o, p | o in os && p in os && o.id == p.id ensures p == o {
      var x :| 0 <= x < |os| && os[x] == o;
      var y :| 0 <= y < |os| && os[y] == p;
      assert x == y;
    }
  }

  // ---------------------------------------------------------------------------
  // Consequences of uniqueness the handlers rely on

  /** Under unique ids, the table at `i` is the only one with its id. */
  lemma TableIdPins(ts: seq<Table>, i: nat)
    requires UniqueTableIds(ts) && i < |ts|
    ensures forall k :: 0 <= k < |ts| && ts[k].id == ts[i].id ==> k == i
  {
  }

  /** Under the one-pending-order invariant, pending order `p` is the only pending order of its table. */
  lemma PendingPins(os: seq<Order>, p: nat)
    requires AtMostOnePending(os) && p < |os| && os[p].status == Pending
    ensures forall x :: 0 <= x < |os| && IsPendingFor(os[x], os[p].tableId) ==> x == p
  {
  }

  /**
   * The list endpoint's answer: the sorted tables, each with its flag recomputed, is a
   * listing of every table exactly once, still strictly ascending by number.
   */
  lemma ListingIsPermutation(ts: seq<Table>, os: seq<Order>, sorted: seq<Table>, r: seq<Table>)
    requires multiset(sorted) == multiset(ts) && StrictlyAscending(sorted)
    requires |r| == |sorted| && forall k :: 0 <= k < |r| ==> r[k] == Listed(sorted[k], os)
    ensures |r| == |ts| && StrictlyAscending(r)
    ensures forall t :: t in ts ==> Listed(t, os) in r
    ensures forall v :: v in r ==> exists t :: t in ts && v == Listed(t, os)
  {
    assert |sorted| == |ts| by {
      assert |multiset(sorted)| == |multiset(ts)|;
    }
    forall t | t in ts ensures Listed(t, os) in r {
      assert t in multiset(sorted);
      var k :| 0 <= k < |sorted| && sorted[k] == t;
      assert r[k] == Listed(t, os);
    }
    forall v | v in r ensures exists t :: t in ts && v == Listed(t, os) {
      var k :| 0 <= k < |r| && r[k] == v;
      assert sorted[k] in multiset(ts);
    }
  }
}
