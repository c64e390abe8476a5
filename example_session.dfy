/**
 * Clients of the store, each on a store of its own, with what each step's contract
 * lets a caller conclude: ordering and replacing an order, rejecting an unknown
 * waiter, and clearing a table and opening a fresh order.
 */
module ExampleSession {
  import opened Options
  import opened OrderItems
  import opened Records
  import opened TableController

  method SoupSession() {
    var store := new Store({7});
    var created := store.CreateTable("T1", 1);
    assert created.Ok?;
    var id := created.value.id;
    assert store.tables[0].id == id;

    var duplicate := store.CreateTable("T2", 1);
    assert store.tables[0].tableNumber == 1;
    assert duplicate == BadRequest(MSG_NUMBER_EXISTS);

    var soup := ItemInput("Soup", 5, 2, "", "");
    var first := store.PlaceOrder(id, [soup], None);
    assert first.Ok? && first.value.table.hasOrders;
    assert NormalizeAll([soup]) == [Normalize(soup)];
    assert LineSum([Normalize(soup)]) == 10;
    assert |store.orders| == 1 && store.orders[0].total == 10;

    var tea := ItemInput("Tea", 3, 0, "", "");
    var second := store.PlaceOrder(id, [tea], Some(7));
    assert NormalizeAll([tea]) == [Normalize(tea)];
    assert LineSum([Normalize(tea)]) == 3;
    assert IsPendingFor(store.orders[0], id);
    assert |store.orders| == 1 && store.orders[0].total == 3 && store.orders[0].items == [Normalize(tea)];
    assert store.orders[0].waiterId == Some(7);

  }

  method UnknownWaiterSession() {
    var store := new Store({7});
    var created := store.CreateTable("T1", 1);
    assert created.Ok?;
    var id := created.value.id;
    assert store.tables[0].id == id;

    var soup := ItemInput("Soup", 5, 2, "", "");
    var unknownWaiter := store.PlaceOrder(id, [soup], Some(8));
    assert unknownWaiter == NotFound(MSG_WAITER_NOT_FOUND) && store.orders == [];

    var first := store.PlaceOrder(id, [soup], None);
    assert first.Ok? && |store.orders| == 1;
  }

  method ReopenSession() {
    var store := new Store({});
    var created := store.CreateTable("T1", 1);
    assert created.Ok?;
    var id := created.value.id;
    assert store.tables[0].id == id;

    var soup := ItemInput("Soup", 5, 2, "", "");
    var first := store.PlaceOrder(id, [soup], None);
    assert first.Ok? && |store.orders| == 1;

    var cleared := store.ClearOrders(id);
    assert cleared.Ok? && !cleared.value.table.hasOrders && cleared.value.orders == [];
    assert store.orders[0].status == Completed;

    var third := store.PlaceOrder(id, [soup], None);
    assert third.Ok? && |store.orders| == 2;
    assert store.orders[0].status == Completed && store.orders[1].status == Pending;
  }
}
