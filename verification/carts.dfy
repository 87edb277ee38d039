/** The shopping cart (`CartEntity`): a set of books, keyed by book id because
    book equality is by id, and the total value of its items. */
module Carts {
  import opened Ids
  import opened Catalog

  /** Cart items as the hash set sees them: at most one book per id. */
  type Items = map<Uuid, Book>

  /** Every item is filed under its own id. */
  ghost predicate WellKeyed(items: Items) {
    forall k :: k in items ==> items[k].id == k
  }

  datatype Cart = Cart(id: Uuid, items: Items)

  /** A new cart has no items. */
  function NewCart(id: Uuid): (c: Cart)
    ensures c.id == id && |c.items| == 0
    ensures Sum(c.items) == 0
  {
    Cart(id, map[])
  }

  /** Sum of the prices of the items, in cents: the reference definition of the total. */
  ghost function Sum(items: Items): (r: nat)
    ensures |items| == 0 ==> r == 0
    ensures forall k :: k in items ==> items[k].price <= r
    decreases |items|
  {
    if |items| == 0 then 0
    else
      var k :| k in items;
      var rest := items - {k};
      assert forall j :: j in items && j != k ==> j in rest && rest[j] == items[j];
      items[k].price + Sum(rest)
  }

  /** The sum does not depend on which item is taken first: any item's price
      plus the sum of the others gives the total. */
  lemma {:induction false} SumWithout(items: Items, k: Uuid)
    requires k in items
    ensures Sum(items) == items[k].price + Sum(items - {k})
    decreases |items|
  {
    var j :| j in items && Sum(items) == items[j].price + Sum(items - {j});
    if j != k {
      assert items - {j} - {k} == items - {k} - {j};
      SumWithout(items - {j}, k);
      SumWithout(items - {k}, j);
    }
  }

  /** The cart total: zero for an empty cart, otherwise the sum of the item
      prices, accumulated over the items in whatever order the set yields them. */
  method TotalValue(cart: Cart) returns (total: nat)
    ensures total == Sum(cart.items)
    ensures |cart.items| == 0 ==> total == 0
  {
    if |cart.items| == 0 {
      return 0;
    }
    total := 0;
    var rest := cart.items;
    while |rest| > 0
      invariant rest.Keys <= cart.items.Keys
      invariant forall k :: k in rest ==> rest[k] == cart.items[k]
      invariant total + Sum(rest) == Sum(cart.items)
      decreases |rest|
    {
      var k :| k in rest;
      SumWithout(rest, k);
      total := total + rest[k].price;
      rest := rest - {k};
    }
  }

  /** Adding a book: a book whose id is already in the cart is not added again
      (the existing element is kept); otherwise it joins the items. */
  function AddItem(cart: Cart, item: Book): (r: Cart)
    ensures r.id == cart.id
    ensures r.items.Keys == cart.items.Keys + {item.id}
    ensures item.id in cart.items ==> r == cart
    ensures item.id !in cart.items ==> r.items[item.id] == item
    ensures forall k :: k in cart.items ==> r.items[k] == cart.items[k]
    ensures WellKeyed(cart.items) ==> WellKeyed(r.items)
  {
    if item.id in cart.items then cart else cart.(items := cart.items[item.id := item])
  }

  /** Removing a book drops the item with its id; an absent book changes nothing. */
  function RemoveItem(cart: Cart, item: Book): (r: Cart)
    ensures r.id == cart.id
    ensures r.items.Keys == cart.items.Keys - {item.id}
    ensures forall k :: k in r.items ==> r.items[k] == cart.items[k]
    ensures item.id !in cart.items ==> r == cart
  {
    cart.(items := cart.items - {item.id})
  }

  /** Emptying the cart. */
  function Clear(cart: Cart): (r: Cart)
    ensures r.id == cart.id && |r.items| == 0
    ensures Sum(r.items) == 0
  {
    cart.(items := map[])
  }

  /** Adding is idempotent. */
  lemma AddItemIdempotent(cart: Cart, item: Book)
    ensures AddItem(AddItem(cart, item), item) == AddItem(cart, item)
  {
  }

  /** Books are equal by id alone: adding a second copy of a book, one that
      differs in any other field, leaves the cart and its total as they were. */
  lemma SameIdCountsOnce(cart: Cart, a: Book, b: Book)
    requires a.id == b.id
    ensures AddItem(AddItem(cart, a), b) == AddItem(cart, a)
    ensures Sum(AddItem(AddItem(cart, a), b).items) == Sum(AddItem(cart, a).items)
  {
  }

  /** Adding a new book raises the total by exactly its price; adding a book
      already present leaves it unchanged. */
  lemma AddItemTotal(cart: Cart, item: Book)
    ensures item.id !in cart.items ==> Sum(AddItem(cart, item).items) == Sum(cart.items) + item.price
    ensures item.id in cart.items ==> Sum(AddItem(cart, item).items) == Sum(cart.items)
  {
    if item.id !in cart.items {
      var items := cart.items[item.id := item];
      SumWithout(items, item.id);
      assert items - {item.id} == cart.items;
    }
  }

  /** Removing a present book lowers the total by exactly its price. */
  lemma RemoveItemTotal(cart: Cart, item: Book)
    requires item.id in cart.items
    ensures Sum(RemoveItem(cart, item).items) + cart.items[item.id].price == Sum(cart.items)
  {
    SumWithout(cart.items, item.id);
  }

  /** Removing a freshly added book restores the cart. */
  lemma RemoveAfterAdd(cart: Cart, item: Book)
    requires item.id !in cart.items
    ensures RemoveItem(AddItem(cart, item), item) == cart
  {
    assert cart.items[item.id := item] - {item.id} == cart.items;
  }

  /** A cart holding one book priced 44.90 totals 44.90. */
  lemma SingleBookTotal(book: Book)
    requires book.price == 4490
    ensures Sum(AddItem(NewCart(1), book).items) == 4490
  {
    AddItemTotal(NewCart(1), book);
  }
}
