/**
 * The handlers of the table controller (apps/pos/controllers/tableController.js) as
 * methods of a store that holds the Table and Order collections. Each handler runs as
 * one sequential step and answers with a `Response` in place of an HTTP status.
 */
module TableController {
  import opened Options
  import opened OrderItems
  import opened Records

  class Store {
    /** The Table collection, in its stored order. */
    var tables: seq<Table>
    /** The Order collection, in its stored order. */
    var orders: seq<Order>
    /** The next identifier the store hands out: stands for ObjectId generation. */
    var nextId: nat
    /** The ids of the Waiter documents; the table controller never changes them. */
    const waiters: set<Id>

    ghost predicate Valid()
      reads this
    {
      StoreInvariant(tables, orders, nextId)
    }

    constructor (waiters: set<Id>)
      ensures Valid()
      ensures tables == [] && orders == [] && this.waiters == waiters
    {
      tables := [];
      orders := [];
      nextId := 0;
      this.waiters := waiters;
    }

    // -------------------------------------------------------------------------
    // Queries the handlers issue

    /** `Table.findById(id)`: the position of the table, or -1. */
    method FindTable(id: Id) returns (i: int)
      ensures -1 <= i < |tables|
      ensures 0 <= i ==> tables[i].id == id
      ensures i < 0 <==> !HasTable(tables, id)
    {
      i := 0;
      while i < |tables|
        invariant 0 <= i <= |tables|
        invariant forall k :: 0 <= k < i ==> tables[k].id != id
      {
        if tables[i].id == id {
          return;
        }
        i := i + 1;
      }
      i := -1;
    }

    /** `Table.findOne({ tableNumber })`, excluding table `self` when given: a table holding `n`, or -1. */
    method FindNumberHolder(n: int, self: Option<Id>) returns (i: int)
      ensures -1 <= i < |tables|
      ensures 0 <= i ==> tables[i].tableNumber == n && self != Some(tables[i].id)
      ensures i < 0 <==> !NumberTaken(tables, n, self)
    {
      i := 0;
      while i < |tables|
        invariant 0 <= i <= |tables|
        invariant forall k :: 0 <= k < i ==> tables[k].tableNumber != n || self == Some(tables[k].id)
      {
        if tables[i].tableNumber == n && self != Some(tables[i].id) {
          return;
        }
        i := i + 1;
      }
      i := -1;
    }

    /** `Order.findOne({ tableId, status: 'pending' })`: the position of the first pending order, or -1. */
    method FindPending(tableId: Id) returns (i: int)
      ensures -1 <= i < |orders|
      ensures 0 <= i ==> IsPendingFor(orders[i], tableId)
      ensures 0 <= i ==> forall k :: 0 <= k < i ==> !IsPendingFor(orders[k], tableId)
      ensures i < 0 <==> !HasPending(orders, tableId)
    {
      i := 0;
      while i < |orders|
        invariant 0 <= i <= |orders|
        invariant forall k :: 0 <= k < i ==> !IsPendingFor(orders[k], tableId)
      {
        if IsPendingFor(orders[i], tableId) {
          return;
        }
        i := i + 1;
      }
      i := -1;
    }

    /** `Order.deleteMany({ tableId })`. */
    method DeleteOrdersOf(tableId: Id)
      modifies this`orders
      ensures orders == OrdersNotOf(old(orders), tableId)
    {
      var kept: seq<Order> := [];
      var i := 0;
      while i < |orders|
        invariant 0 <= i <= |orders|
        invariant kept == OrdersNotOf(orders[..i], tableId)
      {
        assert orders[..i + 1][..i] == orders[..i];
        if orders[i].tableId != tableId {
          kept := kept + [orders[i]];
        }
        i := i + 1;
      }
      assert orders[..i] == orders;
      orders := kept;
    }

    /** `Order.updateMany({ tableId, status: 'pending' }, { status: 'completed' })`. */
    method CompletePendingOf(tableId: Id)
      modifies this`orders
      ensures orders == ClearedOrders(old(orders), tableId)
    {
      var i := 0;
      while i < |orders|
        invariant 0 <= i <= |orders| && |orders| == |old(orders)|
        invariant forall k :: 0 <= k < i ==> orders[k] == Cleared(old(orders)[k], tableId)
        invariant forall k :: i <= k < |orders| ==> orders[k] == old(orders)[k]
      {
        if IsPendingFor(orders[i], tableId) {
          orders := orders[i := orders[i].(status := Completed)];
        }
        i := i + 1;
      }
    }

    /** `table.hasOrders = flag; await table.save()` for the table at position `i`, whose id is `id`. */
    method SetHasOrders(i: nat, id: Id, flag: bool)
      requires i < |tables| && tables[i].id == id
      modifies this`tables
      ensures tables == old(tables)[i := old(tables)[i].(hasOrders := flag)]
    {
      tables := tables[i := tables[i].(hasOrders := flag)];
    }

    // -------------------------------------------------------------------------
    // The handlers

    /** `getAllTables`: every table, ascending by number, with `hasOrders` recomputed. */
    method GetAllTables() returns (r: seq<Table>)
      requires Valid()
      ensures |r| == |tables|
      ensures StrictlyAscending(r)
      ensures forall t :: t in tables ==> Listed(t, orders) in r
      ensures forall v :: v in r ==> exists t :: t in tables && v == Listed(t, orders)
    {
      var sorted := SortByNumber(tables);
      r := [];
      var i := 0;
      while i < |sorted|
        invariant 0 <= i <= |sorted| && |r| == i
        invariant forall k :: 0 <= k < i ==> r[k] == Listed(sorted[k], orders)
      {
        var p := FindPending(sorted[i].id);
        r := r + [sorted[i].(hasOrders := p >= 0)];
        i := i + 1;
      }
      ListingIsPermutation(tables, orders, sorted, r);
    }

    /** `createTable`. */
    method CreateTable(name: string, tableNumber: int) returns (r: Response<Table>)
      requires Valid()
      modifies this
      ensures Valid()
      ensures name == "" || tableNumber == 0 ==> r == BadRequest(MSG_NAME_AND_NUMBER_REQUIRED)
      ensures name != "" && tableNumber != 0 && NumberTaken(old(tables), tableNumber, None) ==>
        r == BadRequest(MSG_NUMBER_EXISTS)
      ensures r.Ok? <==> name != "" && tableNumber != 0 && !NumberTaken(old(tables), tableNumber, None)
      ensures !r.Ok? ==> tables == old(tables) && nextId == old(nextId)
      ensures r.Ok? ==> r.value == Table(old(nextId), name, tableNumber, false) && !HasTable(old(tables), r.value.id)
      ensures r.Ok? ==> tables == old(tables) + [r.value] && nextId == old(nextId) + 1
      ensures orders == old(orders)
      ensures NoReopen(old(orders), orders)
    {
      UnchangedReopensNothing(orders);
      if name == "" || tableNumber == 0 {
        return BadRequest(MSG_NAME_AND_NUMBER_REQUIRED);
      }
      var holder := FindNumberHolder(tableNumber, None);
      if holder >= 0 {
        return BadRequest(MSG_NUMBER_EXISTS);
      }
      var t := Table(nextId, name, tableNumber, false);
      AddTableKeepsInvariant(tables, orders, nextId, t);
      assert !HasTable(tables, t.id);
      tables := tables + [t];
      nextId := nextId + 1;
      r := Ok(t);
    }

    /** `updateTable`: the number check comes before the lookup of the table itself. */
    method UpdateTable(id: Id, name: string, tableNumber: int) returns (r: Response<TableDetail>)
      requires Valid()
      modifies this
      ensures Valid()
      ensures name == "" && tableNumber == 0 ==> r == BadRequest(MSG_NAME_OR_NUMBER_REQUIRED)
      ensures (name != "" || tableNumber != 0) && tableNumber != 0 && NumberTaken(old(tables), tableNumber, Some(id)) ==>
        r == BadRequest(MSG_NUMBER_EXISTS)
      ensures ((name != "" || tableNumber != 0) && !(tableNumber != 0 && NumberTaken(old(tables), tableNumber, Some(id)))
               && !HasTable(old(tables), id)) ==> r == NotFound(MSG_TABLE_NOT_FOUND)
      ensures r.Ok? <==> ((name != "" || tableNumber != 0)
                          && !(tableNumber != 0 && NumberTaken(old(tables), tableNumber, Some(id))) && HasTable(old(tables), id))
      ensures !r.Ok? ==> tables == old(tables)
      ensures r.Ok? ==> |tables| == |old(tables)| && forall k :: 0 <= k < |tables| ==>
        tables[k] == if old(tables)[k].id == id then Edited(old(tables)[k], name, tableNumber) else old(tables)[k]
      ensures r.Ok? ==> r.value.table in tables && r.value.table.id == id
      ensures r.Ok? ==> r.value.table.hasOrders == HasPending(orders, id) && r.value.waiter == None
      ensures r.Ok? ==> ReportsItems(r.value, orders, id)
      ensures orders == old(orders) && nextId == old(nextId)
      ensures NoReopen(old(orders), orders)
    {
      UnchangedReopensNothing(orders);
      if name == "" && tableNumber == 0 {
        return BadRequest(MSG_NAME_OR_NUMBER_REQUIRED);
      }
      if tableNumber != 0 {
        var holder := FindNumberHolder(tableNumber, Some(id));
        if holder >= 0 {
          return BadRequest(MSG_NUMBER_EXISTS);
        }
      }
      var i := FindTable(id);
      if i < 0 {
        return NotFound(MSG_TABLE_NOT_FOUND);
      }
      EditTableKeepsInvariant(tables, orders, nextId, i, name, tableNumber);
      ghost var before := tables;
      tables := tables[i := Edited(tables[i], name, tableNumber)];
      TableIdPins(before, i);
      var p := FindPending(id);
      var items := if p >= 0 then orders[p].items else [];
      PendingIsUnique(id, p);
      r := Ok(TableDetail(tables[i].(hasOrders := p >= 0), items, None));
      assert Listed(tables[i], orders) == tables[i] by {
        assert tables[i] in tables;
      }
    }

    /** Under the invariant, the pending order at `p` is the only one of its table. */
    lemma PendingIsUnique(id: Id, p: int)
      requires Valid()
      requires -1 <= p < |orders| && (0 <= p ==> IsPendingFor(orders[p], id))
      requires p < 0 <==> !HasPending(orders, id)
      ensures forall o :: o in orders && IsPendingFor(o, id) ==> 0 <= p && o == orders[p]
    {
      if 0 <= p {
        PendingPins(orders, p);
      }
      forall o | o in orders && IsPendingFor(o, id) ensures 0 <= p && o == orders[p] {
        var x :| 0 <= x < |orders| && orders[x] == o;
      }
    }

    /** `deleteTable`: the table's orders are removed first, whether the table exists or not. */
    method DeleteTable(id: Id) returns (r: Response<string>)
      requires Valid()
      modifies this
      ensures Valid()
      ensures orders == OrdersNotOf(old(orders), id)
      ensures r.NotFound? <==> !HasTable(old(tables), id)
      ensures r.NotFound? ==> r.message == MSG_TABLE_NOT_FOUND && tables == old(tables)
      ensures r.Ok? ==> r.value == MSG_TABLE_DELETED
      ensures r.Ok? ==> exists k :: (0 <= k < |old(tables)| && old(tables)[k].id == id &&
                                     tables == old(tables)[..k] + old(tables)[k + 1..])
      ensures !r.BadRequest?
      ensures !HasTable(tables, id) && forall o :: o in orders ==> o.tableId != id
      ensures NoReopen(old(orders), orders)
      ensures nextId == old(nextId)
    {
      ghost var before := orders;
      var i := FindTable(id);
      if i >= 0 {
        RemoveTableKeepsInvariant(tables, orders, nextId, i);
        RemoveAtKeepsTables(tables, i);
      } else {
        DeleteOfMissingTableKeepsOrders(tables, orders, id);
      }
      DeleteOrdersOf(id);
      if i < 0 {
        UnchangedReopensNothing(before);
        return NotFound(MSG_TABLE_NOT_FOUND);
      }
      ghost var oldTables := tables;
      tables := tables[..i] + tables[i + 1..];
      assert oldTables[i].id == id && tables == oldTables[..i] + oldTables[i + 1..];
      r := Ok(MSG_TABLE_DELETED);
    }

    /** The pending-order upsert of `placeOrder` and the table's flag update that follows it. */
    method UpsertPending(i: nat, id: Id, validated: seq<OrderItem>, waiterId: Option<Id>) returns (placed: Order)
      requires Valid() && i < |tables| && tables[i].id == id
      modifies this
      ensures Valid()
      ensures |tables| == |old(tables)| && forall k :: 0 <= k < |tables| ==>
                tables[k] == if old(tables)[k].id == id then old(tables)[k].(hasOrders := true) else old(tables)[k]
      ensures tables[i] == old(tables)[i].(hasOrders := true)
      ensures forall k :: 0 <= k < |old(orders)| && IsPendingFor(old(orders)[k], id) ==>
                (nextId == old(nextId) && placed == Replaced(old(orders)[k], validated, waiterId) &&
                 orders == old(orders)[k := placed])
      ensures !HasPending(old(orders), id) ==>
                (nextId == old(nextId) + 1 && placed == NewPending(old(nextId), id, validated, waiterId) &&
                 orders == old(orders) + [placed])
      ensures placed in orders && forall o :: o in orders && IsPendingFor(o, id) ==> o == placed
      ensures NoReopen(old(orders), orders)
    {
      var p := FindPending(id);
      if p >= 0 {
        PendingIsUnique(id, p);
        ReplacePendingKeepsInvariant(tables, orders, nextId, i, p, validated, waiterId);
        placed := Replaced(orders[p], validated, waiterId);
        orders := orders[p := placed];
        assert orders[p] == placed;
      } else {
        AppendPendingKeepsInvariant(tables, orders, nextId, i, validated, waiterId);
        placed := NewPending(nextId, id, validated, waiterId);
        orders := orders + [placed];
        nextId := nextId + 1;
        assert orders[|orders| - 1] == placed;
      }
      SetHasOrders(i, id, true);
      PendingIsUnique(id, if p >= 0 then p else |orders| - 1);
    }

    /** `placeOrder`: validation, item normalisation and total, then the pending-order upsert. */
    method PlaceOrder(id: Id, items: seq<ItemInput>, waiterId: Option<Id>) returns (r: Response<TableDetail>)
      requires Valid()
      modifies this
      ensures Valid()
      ensures |items| == 0 ==> r == BadRequest(MSG_ORDERS_REQUIRED)
      ensures |items| > 0 && !HasTable(old(tables), id) ==> r == NotFound(MSG_TABLE_NOT_FOUND)
      ensures |items| > 0 && HasTable(old(tables), id) && waiterId.Some? && waiterId.value !in waiters ==>
                r == NotFound(MSG_WAITER_NOT_FOUND)
      ensures r.Ok? <==> |items| > 0 && HasTable(old(tables), id) && (waiterId.Some? ==> waiterId.value in waiters)
      ensures !r.Ok? ==> tables == old(tables) && orders == old(orders) && nextId == old(nextId)
      ensures r.Ok? ==> |tables| == |old(tables)| && forall k :: 0 <= k < |tables| ==>
                tables[k] == if old(tables)[k].id == id then old(tables)[k].(hasOrders := true) else old(tables)[k]
      ensures r.Ok? ==> forall k :: 0 <= k < |old(orders)| && IsPendingFor(old(orders)[k], id) ==>
                (nextId == old(nextId) && orders == old(orders)[k := Replaced(old(orders)[k], NormalizeAll(items), waiterId)])
      ensures r.Ok? && !HasPending(old(orders), id) ==>
                (nextId == old(nextId) + 1 && orders == old(orders) + [NewPending(old(nextId), id, NormalizeAll(items), waiterId)])
      ensures r.Ok? ==> r.value.table in tables && r.value.table.id == id && r.value.table.hasOrders
      ensures r.Ok? ==> r.value.orders == NormalizeAll(items) && HasPending(orders, id)
      ensures r.Ok? ==> ReportsItems(r.value, orders, id) && ReportsWaiter(r.value, orders, id, waiters)
      ensures NoReopen(old(orders), orders)
    {
      if |items| == 0 {
        return BadRequest(MSG_ORDERS_REQUIRED);
      }
      var i := FindTable(id);
      if i < 0 {
        return NotFound(MSG_TABLE_NOT_FOUND);
      }
      if waiterId.Some? && waiterId.value !in waiters {
        return NotFound(MSG_WAITER_NOT_FOUND);
      }
      var validated := NormalizeAll(items);
      var placed := UpsertPending(i, id, validated, waiterId);
      r := Ok(TableDetail(tables[i], placed.items, WaiterSummary(placed.waiterId, waiters)));
    }

    /** `getTableById`: the table with its pending order's items and waiter summary. */
    method GetTableById(id: Id) returns (r: Response<TableDetail>)
      requires Valid()
      ensures r.NotFound? <==> !HasTable(tables, id)
      ensures r.NotFound? ==> r.message == MSG_TABLE_NOT_FOUND
      ensures !r.BadRequest?
      ensures forall t :: t in tables && t.id == id ==> r.Ok? && r.value.table == Listed(t, orders)
      ensures r.Ok? ==> ReportsItems(r.value, orders, id) && ReportsWaiter(r.value, orders, id, waiters)
    {
      var i := FindTable(id);
      if i < 0 {
        return NotFound(MSG_TABLE_NOT_FOUND);
      }
      var p := FindPending(id);
      PendingIsUnique(id, p);
      var items := if p >= 0 then orders[p].items else [];
      var waiter := if p >= 0 then WaiterSummary(orders[p].waiterId, waiters) else None;
      r := Ok(TableDetail(tables[i].(hasOrders := p >= 0), items, waiter));
      TableIdPins(tables, i);
      forall t | t in tables && t.id == id ensures t == tables[i] {
        var k :| 0 <= k < |tables| && tables[k] == t;
      }
    }

    /** `clearOrders`: every pending order of the table completes and its flag is reset. */
    method ClearOrders(id: Id) returns (r: Response<TableDetail>)
      requires Valid()
      modifies this
      ensures Valid()
      ensures r.NotFound? <==> !HasTable(old(tables), id)
      ensures !r.Ok? ==> r == NotFound(MSG_TABLE_NOT_FOUND) && tables == old(tables) && orders == old(orders)
      ensures r.Ok? ==> orders == ClearedOrders(old(orders), id) && !HasPending(orders, id)
      ensures r.Ok? ==> |tables| == |old(tables)| && forall k :: 0 <= k < |tables| ==>
        tables[k] == if old(tables)[k].id == id then old(tables)[k].(hasOrders := false) else old(tables)[k]
      ensures r.Ok? ==> r.value.table in tables && r.value.table.id == id && !r.value.table.hasOrders
      ensures r.Ok? ==> r.value.orders == [] && r.value.waiter == None
      ensures NoReopen(old(orders), orders)
      ensures nextId == old(nextId)
    {
      var i := FindTable(id);
      if i < 0 {
        UnchangedReopensNothing(orders);
        return NotFound(MSG_TABLE_NOT_FOUND);
      }
      ClearKeepsInvariant(tables, orders, nextId, i);
      ClearedOrdersEffect(orders, id);
      CompletePendingOf(id);
      SetHasOrders(i, id, false);
      r := Ok(TableDetail(tables[i], [], None));
    }
  }
}
