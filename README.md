# Restaurant tables and their orders, modelled in Dafny

This project models the table and order bookkeeping of a restaurant point-of-sale
backend, the handlers of `apps/pos/controllers/tableController.js`. The backend keeps
two document collections:

- **Table**: id, name, table number, and a stored `hasOrders` flag.
- **Order**: id, the table it belongs to, line items, total, status (`pending` or
  `completed`) and an optional waiter.

Each HTTP handler becomes one method of a `Store` class that holds both collections
and answers with `Ok(view)`, `BadRequest(message)` or `NotFound(message)` in place of a
status code. The error messages are the source's own strings.

Files:

- `options.dfy`: the `Option` type.
- `order_items.dfy`: what `placeOrder` does to the submitted items. It fills in the
  defaults and computes the total. The `reduce` is a left fold, proved equal to the plain
  sum of price × quantity.
- `records.dfy`: the records and the responses. It also holds the store invariant, the
  store's sort by table number, and the bulk `deleteMany`/`updateMany` as functions. For
  each kind of change a handler makes, a lemma proves the invariant still holds.
- `table_store.dfy`: the `Store` class. The store queries are loops with their
  invariants: `findById`, `findOne`, `deleteMany`, `updateMany`. Each handler is a method
  whose `ensures` gives the full new state, the response and the error order.
- `example_session.dfy`: three clients, each on a store of its own. The first creates a
  table, is refused a duplicate number, orders and replaces the order; the second is
  refused an unknown waiter; the third orders, clears the table and orders again. Each
  asserts what the contracts guarantee at each step.

The store invariant (`Records.StoreInvariant`), kept by every handler:

- table ids and table numbers are unique;
- every table has a name and a non-zero number;
- order ids are unique;
- every order's `tableId` names an existing table;
- each table has at most one pending order;
- each table's stored `hasOrders` flag equals "a pending order exists for this table";
- each order's total is the sum of price × quantity over its items;
- every table id and order id in use is below the store's id counter `nextId`, so the
  next id handed out is fresh.

Every handler that changes the store ensures `NoReopen`: an order that was completed is
never edited or reopened. `GetAllTables` and `GetTableById` change nothing, so the
property holds for them trivially.

JavaScript truthiness is written out:

- A table number or quantity of `0` stands for a value that is missing or falsy. So
  `!tableNumber` and `Number(q) || 1` treat 0 exactly as the code does.
- The empty string stands for a missing name, category or item id.
- A missing or falsy `waiterId` is `None`.
- Prices are integers, for example cents.

Points where the code's behaviour is easy to misread:

- `updateTable` checks for a number conflict before it looks the table up. An unknown
  id whose new number is held by another table therefore gets `BadRequest`, not
  `NotFound`.
- `deleteTable` deletes the orders before it checks that the table exists.
  `Records.DeleteOfMissingTableKeepsOrders` shows that, under the invariant, this
  removes nothing when the table is missing.
- The list endpoint recomputes `hasOrders`, while `createTable`, `placeOrder` and
  `clearOrders` maintain a stored flag. In this sequential model the two always agree
  (`Records.StoredFlagIsLive`).

## Model

| member | source | states |
|---|---|---|
| `OrderItems.Normalize` | apps/pos/controllers/tableController.js:142-148 | name and price are kept; quantity 0 becomes 1 and any other quantity is kept, so the quantity is never 0; an empty category becomes "Uncategorized"; an empty item id becomes null |
| `OrderItems.NormalizeAll` | apps/pos/controllers/tableController.js:142-148 | the normalised items keep the length and order of the request's items, each normalised on its own |
| `OrderItems.SumFromIsLineSum` | apps/pos/controllers/tableController.js:150 | the `reduce` from an accumulator equals the accumulator plus the sum of price × quantity |
| `OrderItems.Total` | apps/pos/controllers/tableController.js:150 | the stored total is the sum of price × quantity over the items |
| `Records.InsertByNumber` | apps/pos/controllers/tableController.js:7 | inserting a table whose number is new into a strictly ascending list keeps it strictly ascending and adds exactly that table |
| `Records.SortByNumber` | apps/pos/controllers/tableController.js:7 | `sort({ tableNumber: 1 })` gives a permutation of the tables, strictly ascending by number |
| `Records.OrdersNotOf` | apps/pos/controllers/tableController.js:109 | after `deleteMany({ tableId })` an order remains exactly when it was there and belongs to another table |
| `Records.OrdersNotOfKeepsOrderInvariants` | apps/pos/controllers/tableController.js:109 | deleting a table's orders keeps order ids unique and at most one pending order per table |
| `Records.ClearedOrdersEffect` | apps/pos/controllers/tableController.js:251 | `updateMany` completes exactly the table's pending orders: afterwards the table has no pending order, every other order is unchanged, and other tables' pending state is unchanged |
| `Records.StoredFlagIsLive` | apps/pos/controllers/tableController.js:16-23 | under the invariant, the `hasOrders` the list endpoint recomputes equals the stored flag |
| `Records.DeleteOfMissingTableKeepsOrders` | apps/pos/controllers/tableController.js:109-112 | when the table does not exist, the unconditional order deletion removes nothing, because every order belongs to an existing table |
| `Records.AddTableKeepsInvariant` | apps/pos/controllers/tableController.js:43-49 | appending a fresh table with a name, an unused non-zero number and `hasOrders = false` keeps the store invariant |
| `Records.EditTableKeepsInvariant` | apps/pos/controllers/tableController.js:67-83 | rewriting the supplied fields of one table with a number no other table holds keeps the store invariant, so numbers stay unique |
| `Records.RemoveTableKeepsInvariant` | apps/pos/controllers/tableController.js:109-111 | removing a table and all its orders keeps the store invariant (every remaining order still names an existing table) and reopens no order |
| `Records.RemoveAtKeepsTables` | apps/pos/controllers/tableController.js:111 | `findByIdAndDelete` keeps exactly the tables with other ids, with unique ids and numbers |
| `Records.SetFlagKeepsTables` | apps/pos/controllers/tableController.js:181-182 | setting one table's `hasOrders` changes no id, number or name and keeps uniqueness |
| `Records.RewritePendingKeepsOrders` | apps/pos/controllers/tableController.js:154-163 | rewriting a pending order in place keeps order ids unique, keeps at most one pending order per table and the set of tables with a pending order, and reopens no completed order |
| `Records.ReplacePendingKeepsInvariant` | apps/pos/controllers/tableController.js:152-182 | replacing the pending order's items, total and waiter and setting the flag keeps the store invariant |
| `Records.AppendPendingKeepsInvariant` | apps/pos/controllers/tableController.js:164-182 | adding a new pending order for a table that has none, and setting its flag, keeps the store invariant, including at most one pending order per table |
| `Records.ClearedKeepsOrders` | apps/pos/controllers/tableController.js:251 | the bulk status change keeps order ids unique, keeps at most one pending order per table, and leaves every completed order as it was |
| `Records.ClearKeepsInvariant` | apps/pos/controllers/tableController.js:251-254 | completing a table's pending orders and clearing its flag keeps the store invariant and reopens nothing |
| `Records.ListingIsPermutation` | apps/pos/controllers/tableController.js:7-25 | the listing has one entry per table, each the table with `hasOrders` recomputed, and every entry comes from a table, strictly ascending by number |
| `TableController.Store.FindTable` | apps/pos/controllers/tableController.js:131 | `findById`: returns the position of the table with that id, or -1 exactly when there is none |
| `TableController.Store.FindNumberHolder` | apps/pos/controllers/tableController.js:71-74 | `findOne({ tableNumber, _id: { $ne } })`: returns a table holding the number other than the excluded one, or -1 exactly when no such table exists |
| `TableController.Store.FindPending` | apps/pos/controllers/tableController.js:152 | `findOne({ tableId, status: 'pending' })`: returns the first pending order of the table, or -1 exactly when it has none |
| `TableController.Store.DeleteOrdersOf` | apps/pos/controllers/tableController.js:109 | `deleteMany` leaves exactly the orders of the other tables, in their order |
| `TableController.Store.CompletePendingOf` | apps/pos/controllers/tableController.js:251 | `updateMany` completes the table's pending orders in place and changes nothing else |
| `TableController.Store.PendingIsUnique` | apps/pos/controllers/tableController.js:215-218 | under the invariant, the order `findOne` finds is the only pending order of the table, so the `createdAt` sort cannot change the answer |
| `TableController.Store.GetAllTables` | apps/pos/controllers/tableController.js:5-27 | returns every table once, strictly ascending by number; each entry's `hasOrders` is recomputed as "a pending order exists" and the stored flag is ignored |
| `TableController.Store.CreateTable` | apps/pos/controllers/tableController.js:35-51 | an empty name or a 0 number gives BadRequest; otherwise a number already in use gives BadRequest; in both cases nothing changes. Otherwise exactly one new table is appended, with a fresh id and `hasOrders = false`; orders are untouched, so none is reopened, and the invariant is kept |
| `TableController.Store.UpdateTable` | apps/pos/controllers/tableController.js:59-99 | BadRequest when both fields are absent; BadRequest when another table holds the new number (keeping your own number is allowed); NotFound for an unknown id. Otherwise only the supplied fields of that one table change, and the answer carries the live `hasOrders` and the pending order's items; orders are untouched, so none is reopened |
| `TableController.Store.DeleteTable` | apps/pos/controllers/tableController.js:107-114 | always removes every order of the id first; NotFound when there is no such table, otherwise removes exactly that table; afterwards no table and no order carries the id |
| `TableController.Store.SetHasOrders` | apps/pos/controllers/tableController.js:181-182 | saving the flag on the table with the given id changes that table's `hasOrders` and nothing else |
| `TableController.Store.UpsertPending` | apps/pos/controllers/tableController.js:152-182 | with a pending order, only that order changes: its items and total are replaced and its waiter changes only when one is supplied; without one, exactly one new pending order with a fresh id is appended; the table's flag becomes true and afterwards the returned order is the table's only pending order |
| `TableController.Store.PlaceOrder` | apps/pos/controllers/tableController.js:122-202 | error order: BadRequest for no items, then NotFound for an unknown table, then NotFound for a supplied unknown waiter; on error nothing changes. Otherwise an existing pending order gets its items and total replaced (not appended) and its waiter overwritten only when one is supplied; with no pending order exactly one new pending order is created. The table's `hasOrders` becomes true, the invariant is kept and no completed order changes |
| `TableController.Store.GetTableById` | apps/pos/controllers/tableController.js:210-238 | NotFound for an unknown id; otherwise the table with the live `hasOrders`, the pending order's items (or none) and its waiter summary (or null) |
| `TableController.Store.ClearOrders` | apps/pos/controllers/tableController.js:246-264 | NotFound for an unknown table, with nothing changed; otherwise every pending order of the table becomes completed and every other order is unchanged; the table's flag becomes false, no pending order remains, and the answer has no items |

## Left out

- The Express application, routing, middleware, the database connection and the order
  router (`server.js`, `apps/pos/routes/orderRoutes.js`): wiring and I/O without logic.
- The `try/catch` paths that answer 500 "Server error", and the console logging: store
  failures are not modelled. Every handler is one atomic sequential step. So the
  check-then-act races between concurrent requests, and the `Promise.all` in
  `getAllTables`, are not modelled.
- Timestamps (`createdAt`, `updatedAt`), response fields beyond those listed, and HTTP
  status codes such as 201. The `sort({ createdAt: -1 })` on the pending-order lookup is
  also left out: under the invariant there is at most one pending order, so it cannot
  change the answer (`Store.PendingIsUnique`).
- `Number(...)` coercion of strings, NaN and floating-point prices: prices and
  quantities are integers. A quantity that is not a number is covered only through its
  sentinel 0, which is falsy.
- The Waiter collection is a set of waiter ids that these handlers never change. A
  populated waiter is represented by its id.
- TableController.Store.PlaceOrder: the waiter summary is the waiter's id only. The name
  and phone number that `populate` adds are not modelled.
- TableController.Store.GetTableById: the waiter summary is the waiter's id only, as for
  `PlaceOrder`.
- TableController.Store.UpdateTable: the answer has no waiter field; the view's `waiter`
  is always `None`. The same holds for `ClearOrders`.
- Ids are natural numbers handed out by a counter in the store. This stands for ObjectId
  generation, which guarantees fresh ids.
- `Records.SortByNumber` requires unique table numbers, which the store invariant
  guarantees. Sorting tables with duplicate numbers is not modelled.
