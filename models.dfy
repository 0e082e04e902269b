/**
 * The storefront's persistent entities: the catalogue, customers, orders and
 * order items, held as finite maps. The Django models themselves are not part
 * of this model; only the fields the cart logic reads or writes appear here.
 */
module Models {

  datatype Option<T> = None | Some(value: T)

  /** Any integer reaches the lookup; a negative one simply names no product. */
  type ProductId = int
  type UserId = nat
  type OrderId = nat

  /** A catalogue entry; prices are whole cents. */
  datatype Product = Product(price: int, digital: bool)

  type Catalogue = map<ProductId, Product>

  /**
   * A product id as the client sends it (a cookie key or the `productId` of a
   * JSON body): either a number the product lookup accepts, or text it
   * rejects before reaching the table.
   */
  datatype ProductKey = Numeric(id: ProductId) | Malformed(text: string)

  /** Whether looking `key` up in the catalogue finds a product. */
  predicate Resolves(key: ProductKey, catalogue: Catalogue)
  {
    key.Numeric? && key.id in catalogue
  }

  /**
   * Who sent the request: no user attribute at all, the framework's
   * anonymous user, or a logged-in user (always authenticated).
   */
  datatype Requester = NoUser | Anonymous | Member(id: UserId, username: string, email: string)

  /** A customer profile, one per user, so the table is keyed by user id. */
  datatype Customer = Customer(name: string, email: string)

  /** An order; `complete == false` marks the cart in progress. */
  datatype Order = Order(customer: UserId, complete: bool)

  /** An order item is identified by its order and its product. */
  type LineKey = (OrderId, ProductId)

  /** The value of every table the cart logic touches. */
  datatype Tables = Tables(
    products: Catalogue,
    customers: map<UserId, Customer>,
    orders: map<OrderId, Order>,
    nextOrder: OrderId,
    lines: map<LineKey, int>)

  /** The order `o` is `c`'s incomplete order. */
  predicate IsOpenOrder(orders: map<OrderId, Order>, c: UserId, o: OrderId)
  {
    o in orders && orders[o] == Order(c, false)
  }

  ghost predicate HasOpenOrder(orders: map<OrderId, Order>, c: UserId)
  {
    exists o :: IsOpenOrder(orders, c, o)
  }

  /** Each customer has at most one incomplete order. */
  ghost predicate AtMostOneOpen(orders: map<OrderId, Order>)
  {
    forall c, o1, o2 :: IsOpenOrder(orders, c, o1) && IsOpenOrder(orders, c, o2) ==> o1 == o2
  }

  /**
   * Referential integrity of the tables (every order belongs to a customer,
   * every order item to an order and a product), fresh ids lie above every
   * order id in use, and the one-incomplete-order-per-customer invariant.
   */
  ghost predicate WellFormed(t: Tables)
  {
    && (forall o :: o in t.orders ==> o < t.nextOrder && t.orders[o].customer in t.customers)
    && (forall k :: k in t.lines ==> k.0 in t.orders && k.1 in t.products)
    && AtMostOneOpen(t.orders)
  }

  /** Every order item has a positive quantity. */
  ghost predicate PositiveLines(lines: map<LineKey, int>)
  {
    forall k :: k in lines ==> lines[k] >= 1
  }

  /** The database: one mutable field per table. */
  class Database {
    var products: Catalogue
    var customers: map<UserId, Customer>
    var orders: map<OrderId, Order>
    var nextOrder: OrderId
    var lines: map<LineKey, int>

    function Snapshot(): Tables
      reads this
    {
      Tables(products, customers, orders, nextOrder, lines)
    }

    ghost predicate Valid()
      reads this
    {
      WellFormed(Snapshot())
    }

    /** A database holding the given catalogue and nothing else. */
    constructor (catalogue: Catalogue)
      ensures Valid()
      ensures Snapshot() == Tables(catalogue, map[], map[], 0, map[])
    {
      products := catalogue;
      customers := map[];
      orders := map[];
      nextOrder := 0;
      lines := map[];
    }
  }
}
