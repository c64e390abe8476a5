/**
 * Line items of an order: how `placeOrder` normalises the items of a request
 * (apps/pos/controllers/tableController.js:142-148) and how it totals them (:150).
 *
 * JavaScript truthiness is modelled by sentinel values: a quantity of 0 stands for a
 * quantity that is missing, zero or not a number, and the empty string for a missing
 * or empty category or item id. Prices are integers (for instance cents), so that the
 * total is exact.
 */
module OrderItems {
  import opened Options

  /** A line item as it arrives in the request body. */
  datatype ItemInput = ItemInput(name: string, price: int, quantity: int, categoryName: string, itemId: string)

  /** A line item as it is stored on an order. */
  datatype OrderItem = OrderItem(name: string, price: int, quantity: int, categoryName: string, itemId: Option<string>)

  const DEFAULT_CATEGORY := "Uncategorized"

  /** One step of the `orders.map(...)`: defaults for the quantity, the category and the item id. */
  function Normalize(item: ItemInput): (r: OrderItem)
    ensures r.name == item.name && r.price == item.price
    ensures r.quantity != 0
    ensures item.quantity != 0 ==> r.quantity == item.quantity
    ensures item.quantity == 0 ==> r.quantity == 1
    ensures r.categoryName != ""
    ensures item.categoryName != "" ==> r.categoryName == item.categoryName
    ensures item.categoryName == "" ==> r.categoryName == DEFAULT_CATEGORY
    ensures r.itemId.Some? <==> item.itemId != ""
    ensures r.itemId.Some? ==> r.itemId.value == item.itemId
  {
    OrderItem(
      item.name,
      item.price,
      if item.quantity == 0 then 1 else item.quantity,
      if item.categoryName == "" then DEFAULT_CATEGORY else item.categoryName,
      if item.itemId == "" then None else Some(item.itemId))
  }

  /** The whole `orders.map(...)`: keeps the length and the order of the items. */
  function NormalizeAll(items: seq<ItemInput>): (r: seq<OrderItem>)
    ensures |r| == |items|
    ensures forall k :: 0 <= k < |items| ==> r[k] == Normalize(items[k])
  {
    if items == [] then [] else [Normalize(items[0])] + NormalizeAll(items[1..])
  }

  /** What one line contributes to the total. */
  function LineTotal(item: OrderItem): int {
    item.price * item.quantity
  }

  /** The sum of price times quantity over the items: the reference definition of a total. */
  function LineSum(items: seq<OrderItem>): int {
    if items == [] then 0 else LineTotal(items[0]) + LineSum(items[1..])
  }

  /** The `reduce` at :150, a left fold that starts from the accumulator `acc`. */
  function SumFrom(acc: int, items: seq<OrderItem>): int
    decreases items
  {
    if items == [] then acc else SumFrom(acc + LineTotal(items[0]), items[1..])
  }

  lemma {:induction false} SumFromIsLineSum(acc: int, items: seq<OrderItem>)
    ensures SumFrom(acc, items) == acc + LineSum(items)
    decreases items
  {
    if items != [] {
      SumFromIsLineSum(acc + LineTotal(items[0]), items[1..]);
    }
  }

  /** The total `placeOrder` stores: the fold started at 0, which is the sum over the items. */
  function Total(items: seq<OrderItem>): (r: int)
    ensures r == LineSum(items)
  {
    SumFromIsLineSum(0, items);
    SumFrom(0, items)
  }
}
