/**
 * The request helpers: find or create the customer of a logged-in user, find
 * or create that customer's incomplete order, and `cartData`, which serves the
 * cart from that order or, for everyone else, from the cookie.
 */
module Utils {
  import opened Models
  import opened AnonymousCart

  // ---------------------------------------------------------------------------
  // get_or_create_customer

  /** The customer a request resolves to: the member's own, nobody otherwise. */
  function CustomerOf(r: Requester): Option<UserId>
  {
    if r.Member? then Some(r.id) else None
  }

  /** The customer table after `get_or_create_customer`. */
  function CustomersAfter(customers: map<UserId, Customer>, r: Requester): map<UserId, Customer>
  {
    if r.Member? && r.id !in customers then customers[r.id := Customer(r.username, r.email)] else customers
  }

  method GetOrCreateCustomer(db: Database, r: Requester) returns (c: Option<UserId>)
    requires db.Valid()
    modifies db`customers
    ensures db.Valid()
    ensures c == CustomerOf(r)
    ensures db.customers == CustomersAfter(old(db.customers), r)
  {
    CustomersAfterKeepsWellFormed(db.Snapshot(), r);
    if !r.Member? {
      return None;
    }
    if r.id !in db.customers {
      db.customers := db.customers[r.id := Customer(r.username, r.email)];
    }
    c := Some(r.id);
  }

  /**
   * Without a logged-in user nothing is found and nothing is inserted; a
   * member gets their existing customer, or exactly one new customer named
   * after the username and email; a second call finds it and inserts nothing.
   */
  lemma CustomerFindOrInsert(customers: map<UserId, Customer>, r: Requester)
    ensures !r.Member? ==> CustomerOf(r) == None && CustomersAfter(customers, r) == customers
    ensures r.Member? ==> CustomerOf(r) == Some(r.id) && r.id in CustomersAfter(customers, r)
    ensures r.Member? && r.id in customers ==> CustomersAfter(customers, r) == customers
    ensures r.Member? && r.id !in customers ==>
              && CustomersAfter(customers, r).Keys == customers.Keys + {r.id}
              && |CustomersAfter(customers, r)| == |customers| + 1
              && CustomersAfter(customers, r)[r.id] == Customer(r.username, r.email)
    ensures CustomersAfter(CustomersAfter(customers, r), r) == CustomersAfter(customers, r)
  {
  }

  lemma CustomersAfterKeepsWellFormed(t: Tables, r: Requester)
    requires WellFormed(t)
    ensures WellFormed(t.(customers := CustomersAfter(t.customers, r)))
  {
  }

  // ---------------------------------------------------------------------------
  // Order.objects.get_or_create(customer=customer, complete=False)

  /** The order get-or-create returns and the tables after it. */
  ghost function OrderAfter(t: Tables, c: UserId): (OrderId, Tables)
  {
    if HasOpenOrder(t.orders, c) then
      var o :| IsOpenOrder(t.orders, c, o); (o, t)
    else
      (t.nextOrder, t.(orders := t.orders[t.nextOrder := Order(c, false)], nextOrder := t.nextOrder + 1))
  }

  method GetOrCreateOrder(db: Database, c: UserId) returns (o: OrderId)
    requires db.Valid() && c in db.customers
    modifies db`orders, db`nextOrder
    ensures db.Valid() && IsOpenOrder(db.orders, c, o)
    ensures (o, db.Snapshot()) == OrderAfter(old(db.Snapshot()), c)
  {
    if exists k :: k in db.orders && db.orders[k] == Order(c, false) {
      o :| o in db.orders && db.orders[o] == Order(c, false);
      assert IsOpenOrder(db.orders, c, o);
    } else {
      o := db.nextOrder;
      db.orders := db.orders[o := Order(c, false)];
      db.nextOrder := db.nextOrder + 1;
      OrderAfterOpensExactlyOne(old(db.Snapshot()), c);
    }
  }

  /**
   * Afterwards the customer has exactly one incomplete order, the one
   * returned; an existing one is returned with nothing changed, otherwise one
   * new order with a fresh id is added; no other order, no order item, no
   * customer changes; and the tables stay well formed.
   */
  lemma OrderAfterOpensExactlyOne(t: Tables, c: UserId)
    requires WellFormed(t) && c in t.customers
    ensures var (o, t') := OrderAfter(t, c);
            && WellFormed(t')
            && IsOpenOrder(t'.orders, c, o)
            && (forall o' :: IsOpenOrder(t'.orders, c, o') ==> o' == o)
            && (HasOpenOrder(t.orders, c) ==> t' == t)
            && (!HasOpenOrder(t.orders, c) ==>
                  o !in t.orders && t'.orders.Keys == t.orders.Keys + {o})
            && (forall x :: x in t.orders ==> x in t'.orders && t'.orders[x] == t.orders[x])
            && t'.products == t.products && t'.customers == t.customers && t'.lines == t.lines
  {
    if !HasOpenOrder(t.orders, c) {
      var (o, t') := OrderAfter(t, c);
      forall c', o1, o2 | IsOpenOrder(t'.orders, c', o1) && IsOpenOrder(t'.orders, c', o2)
        ensures o1 == o2
      {
        if o1 != o && o2 != o {
          assert IsOpenOrder(t.orders, c', o1) && IsOpenOrder(t.orders, c', o2);
        } else if o1 != o || o2 != o {
          var x := if o1 == o then o2 else o1;
          assert IsOpenOrder(t.orders, c, x);
        }
      }
      forall o' | o' != o ensures !IsOpenOrder(t'.orders, c, o') {
        assert !IsOpenOrder(t.orders, c, o');
      }
    }
  }

  /** A second get-or-create finds the order the first one returned. */
  lemma OrderAfterIdempotent(t: Tables, c: UserId)
    requires WellFormed(t) && c in t.customers
    ensures OrderAfter(OrderAfter(t, c).1, c) == OrderAfter(t, c)
  {
    OrderAfterOpensExactlyOne(t, c);
    var (o, t') := OrderAfter(t, c);
    assert HasOpenOrder(t'.orders, c);
  }

  // ---------------------------------------------------------------------------
  // cartData

  /**
   * What the cart pages show: a member's incomplete order with its lines
   * (product -> quantity), or the anonymous cookie cart.
   */
  datatype CartView = OrderCart(order: OrderId, lines: map<ProductId, int>) | GuestCart(data: CookieData)

  /** The lines of order `o`, by product. */
  function OrderLines(lines: map<LineKey, int>, o: OrderId): map<ProductId, int>
  {
    map k | k in lines && k.0 == o :: k.1 := lines[k]
  }

  /** A member's customer and incomplete order, each found or created. */
  ghost function MemberOrder(t: Tables, r: Requester): (OrderId, Tables)
    requires r.Member?
  {
    OrderAfter(t.(customers := CustomersAfter(t.customers, r)), r.id)
  }

  ghost function CartDataSpec(t: Tables, r: Requester, cookie: Option<Cookie>): (CartView, Tables)
  {
    if r.Member? then
      var (o, t') := MemberOrder(t, r);
      (OrderCart(o, OrderLines(t'.lines, o)), t')
    else
      (GuestCart(CartOf(cookie, t.products)), t)
  }

  method CartData(db: Database, r: Requester, cookie: Option<Cookie>) returns (view: CartView)
    requires db.Valid()
    modifies db
    ensures db.Valid()
    ensures (view, db.Snapshot()) == CartDataSpec(old(db.Snapshot()), r, cookie)
  {
    var customer := GetOrCreateCustomer(db, r);
    if customer.Some? {
      var order := GetOrCreateOrder(db, customer.value);
      view := OrderCart(order, OrderLines(db.lines, order));
    } else {
      var data := CookieCart(cookie, db.products);
      view := GuestCart(data);
    }
  }

  /**
   * Without a logged-in user the cookie cart is returned unchanged and no
   * table changes. A member sees the lines of their unique incomplete order,
   * which exists afterwards; only the customer and order tables may grow.
   */
  lemma CartDataServesOrderOrCookie(t: Tables, r: Requester, cookie: Option<Cookie>)
    requires WellFormed(t)
    ensures var (view, t') := CartDataSpec(t, r, cookie);
            && WellFormed(t')
            && (!r.Member? ==> view == GuestCart(CartOf(cookie, t.products)) && t' == t)
            && (r.Member? ==>
                  && view.OrderCart?
                  && IsOpenOrder(t'.orders, r.id, view.order)
                  && (forall o :: IsOpenOrder(t'.orders, r.id, o) ==> o == view.order)
                  && (forall p :: p in view.lines <==> (view.order, p) in t.lines)
                  && (forall p :: p in view.lines ==> view.lines[p] == t.lines[(view.order, p)])
                  && t'.lines == t.lines && t'.products == t.products
                  && t'.customers == CustomersAfter(t.customers, r))
  {
    if r.Member? {
      var t1 := t.(customers := CustomersAfter(t.customers, r));
      CustomersAfterKeepsWellFormed(t, r);
      OrderAfterOpensExactlyOne(t1, r.id);
      var (o, t') := OrderAfter(t1, r.id);
      forall p ensures p in OrderLines(t'.lines, o) <==> (o, p) in t.lines {
        if (o, p) in t.lines {
          assert (o, p).1 == p;
        }
      }
    }
  }
}
