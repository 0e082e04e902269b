/**
 * The views that touch the cart tables: the store page (its anonymous
 * default), `updateItem` (add or remove one unit of a product in the member's
 * incomplete order) and `clearCart` (delete every order item).
 */
module Views {
  import opened Models
  import opened AnonymousCart
  import opened Utils

  const StatusOk := 200
  const StatusBadRequest := 400
  const StatusUnauthorized := 401
  const StatusNotFound := 404

  /** A fresh order item's quantity, before `add` or `remove` touches it. */
  const DefaultQuantity := 0

  // ---------------------------------------------------------------------------
  // store

  /**
   * The cart part of the store page: a member's incomplete order with its
   * lines, the fixed anonymous summary, or the server error raised when the
   * request carries no user at all.
   */
  datatype StoreView =
    | MemberStore(order: OrderId, lines: map<ProductId, int>)
    | GuestStore(getCartTotal: int, getCartItems: int, items: seq<Item>)
    | ServerError

  ghost function StoreSpec(t: Tables, r: Requester): (StoreView, Tables)
  {
    match r
    case NoUser => (ServerError, t)
    case Anonymous => (GuestStore(0, 0, []), t)
    case Member(_, _, _) =>
      var (o, t') := MemberOrder(t, r);
      (MemberStore(o, OrderLines(t'.lines, o)), t')
  }

  method StorePage(db: Database, r: Requester) returns (view: StoreView)
    requires db.Valid()
    modifies db
    ensures db.Valid()
    ensures (view, db.Snapshot()) == StoreSpec(old(db.Snapshot()), r)
  {
    match r
    case NoUser =>
      view := ServerError;
    case Anonymous =>
      view := GuestStore(0, 0, []);
    case Member(id, username, email) =>
      if id !in db.customers {
        db.customers := db.customers[id := Customer(username, email)];
      }
      CustomersAfterKeepsWellFormed(old(db.Snapshot()), r);
      var order := GetOrCreateOrder(db, id);
      view := MemberStore(order, OrderLines(db.lines, order));
  }

  /**
   * An anonymous visitor's store page shows a zero total, zero items and no
   * lines, the same figures as the cookie cart of a visitor without a cookie,
   * and changes no table; a member's page shows the same order as `cartData`.
   */
  lemma StorePageDefaults(t: Tables, r: Requester, cookie: Option<Cookie>)
    ensures r.Anonymous? ==>
              && StoreSpec(t, r) == (GuestStore(0, 0, []), t)
              && CartOf(None, t.products).order.getCartTotal == 0
              && CartOf(None, t.products).order.getCartItems == 0
              && CartOf(None, t.products).items == []
    ensures r.Member? ==>
              && StoreSpec(t, r).1 == CartDataSpec(t, r, cookie).1
              && StoreSpec(t, r).0.order == CartDataSpec(t, r, cookie).0.order
  {
  }

  // ---------------------------------------------------------------------------
  // updateItem

  /**
   * The decoded JSON body; `None` for a field the body lacks. An undecodable
   * body is `None` as a whole.
   */
  datatype UpdateBody = UpdateBody(productId: Option<ProductKey>, action: Option<string>)

  predicate CompleteBody(body: Option<UpdateBody>)
  {
    body.Some? && body.value.productId.Some? && body.value.action.Some?
  }

  /**
   * The order-item table after one `updateItem` on line `key`: the line is
   * fetched or created with the default quantity, `add` adds one, `remove`
   * takes one away, any other action keeps it, and a line at zero or below is
   * deleted.
   */
  function LineAfter(lines: map<LineKey, int>, key: LineKey, action: string): map<LineKey, int>
  {
    var q := if key in lines then lines[key] else DefaultQuantity;
    var q' := if action == "add" then q + 1 else if action == "remove" then q - 1 else q;
    if q' <= 0 then lines - {key} else lines[key := q']
  }

  ghost function UpdateItemSpec(t: Tables, r: Requester, body: Option<UpdateBody>): (int, Tables)
  {
    if !CompleteBody(body) then (StatusBadRequest, t)
    else if r.NoUser? then (StatusBadRequest, t)
    else if r.Anonymous? then (StatusUnauthorized, t)
    else
      var t1 := t.(customers := CustomersAfter(t.customers, r));
      var key := body.value.productId.value;
      if key.Malformed? then (StatusBadRequest, t1)
      else if key.id !in t.products then (StatusNotFound, t1)
      else
        var (o, t2) := OrderAfter(t1, r.id);
        (StatusOk, t2.(lines := LineAfter(t2.lines, (o, key.id), body.value.action.value)))
  }

  /**
   * `updateItem`: decode the body, check the user, get or create the
   * customer, look the product up, get or create the incomplete order and the
   * order item, change its quantity, save it, and delete it if it fell to zero.
   */
  method UpdateItem(db: Database, r: Requester, body: Option<UpdateBody>) returns (status: int)
    requires db.Valid()
    modifies db
    ensures db.Valid()
    ensures (status, db.Snapshot()) == UpdateItemSpec(old(db.Snapshot()), r, body)
  {
    if !CompleteBody(body) {
      return StatusBadRequest;
    }
    var productId, action := body.value.productId.value, body.value.action.value;
    if r.NoUser? {
      // reading the missing user's `is_authenticated` raises; the generic handler answers
      return StatusBadRequest;
    }
    if r.Anonymous? {
      return StatusUnauthorized;
    }
    var customer := GetOrCreateCustomer(db, r);
    if customer.None? {
      return StatusBadRequest;
    }
    if productId.Malformed? {
      // the id is rejected before the table is read: the generic handler answers
      return StatusBadRequest;
    }
    if productId.id !in db.products {
      return StatusNotFound;
    }
    var order := GetOrCreateOrder(db, customer.value);
    SaveLine(db, (order, productId.id), action);
    status := StatusOk;
  }

  /**
   * The order-item part of `updateItem`: get or create the line with the
   * default quantity, apply the action, save, and delete the line when its
   * quantity is not positive.
   */
  method SaveLine(db: Database, key: LineKey, action: string)
    requires db.Valid() && key.0 in db.orders && key.1 in db.products
    modifies db`lines
    ensures db.Valid()
    ensures db.lines == LineAfter(old(db.lines), key, action)
  {
    ghost var before := db.lines;
    if key !in db.lines {
      db.lines := db.lines[key := DefaultQuantity];
    }
    var quantity := db.lines[key];
    if action == "add" {
      quantity := quantity + 1;
    } else if action == "remove" {
      quantity := quantity - 1;
    }
    db.lines := db.lines[key := quantity];
    assert db.lines == before[key := quantity];
    if quantity <= 0 {
      db.lines := db.lines - {key};
      assert db.lines == before - {key};
    }
  }

  /**
   * The quantity arithmetic of one update: `add` gives the previous quantity
   * plus one (one on a fresh line), `remove` the previous minus one, any other
   * action keeps a positive quantity; the touched line ends absent or at one
   * or more, it is absent exactly when its new quantity is not positive, and
   * no other line changes.
   */
  lemma LineAfterArithmetic(lines: map<LineKey, int>, key: LineKey, action: string)
    ensures key !in lines && action == "add" ==> key in LineAfter(lines, key, action) && LineAfter(lines, key, action)[key] == 1
    ensures key in lines && action == "add" && lines[key] >= 0 ==>
              key in LineAfter(lines, key, action) && LineAfter(lines, key, action)[key] == lines[key] + 1
    ensures key in lines && action == "remove" ==>
              (key in LineAfter(lines, key, action) <==> lines[key] - 1 >= 1)
              && (key in LineAfter(lines, key, action) ==> LineAfter(lines, key, action)[key] == lines[key] - 1)
    ensures key in lines && lines[key] >= 1 && action != "add" && action != "remove" ==>
              LineAfter(lines, key, action) == lines
    ensures key in LineAfter(lines, key, action) ==> LineAfter(lines, key, action)[key] >= 1
    ensures forall k :: k != key ==>
              (k in LineAfter(lines, key, action) <==> k in lines)
              && (k in lines ==> LineAfter(lines, key, action)[k] == lines[k])
  {
  }

  /** Malformed bodies are refused with 400 before any table is touched. */
  lemma UpdateItemRejectsIncompleteBody(t: Tables, r: Requester, body: Option<UpdateBody>)
    requires !CompleteBody(body)
    ensures UpdateItemSpec(t, r, body) == (StatusBadRequest, t)
  {
  }

  /** A well-formed request from an anonymous visitor gets 401 and changes nothing. */
  lemma UpdateItemUnauthenticated(t: Tables, body: Option<UpdateBody>)
    requires CompleteBody(body)
    ensures UpdateItemSpec(t, Anonymous, body) == (StatusUnauthorized, t)
  {
  }

  /**
   * An unknown product gets 404: no order and no order item is created; only
   * the member's customer may have been.
   */
  lemma UpdateItemUnknownProduct(t: Tables, r: Requester, id: ProductId, action: string)
    requires r.Member? && id !in t.products
    ensures var (status, t') := UpdateItemSpec(t, r, Some(UpdateBody(Some(Numeric(id)), Some(action))));
            && status == StatusNotFound
            && t'.orders == t.orders && t'.nextOrder == t.nextOrder && t'.lines == t.lines
            && t'.customers == CustomersAfter(t.customers, r)
  {
  }

  /**
   * A successful update changes the line of (the member's incomplete order,
   * this product) and no other line: that order is the member's unique
   * incomplete one, the line ends absent or positive, other orders are kept,
   * the tables stay well formed and all-positive lines stay all positive.
   */
  lemma UpdateItemTouchesOneLine(t: Tables, r: Requester, id: ProductId, action: string)
    requires WellFormed(t) && r.Member? && id in t.products
    ensures var (status, t') := UpdateItemSpec(t, r, Some(UpdateBody(Some(Numeric(id)), Some(action))));
            var o := MemberOrder(t, r).0;
            && status == StatusOk
            && WellFormed(t')
            && IsOpenOrder(t'.orders, r.id, o)
            && (forall o' :: IsOpenOrder(t'.orders, r.id, o') ==> o' == o)
            && (forall x :: x in t.orders ==> x in t'.orders && t'.orders[x] == t.orders[x])
            && ((o, id) in t'.lines ==> t'.lines[(o, id)] >= 1)
            && (forall k :: k != (o, id) ==> (k in t'.lines <==> k in t.lines))
            && (forall k :: k != (o, id) && k in t.lines ==> t'.lines[k] == t.lines[k])
            && (PositiveLines(t.lines) ==> PositiveLines(t'.lines))
  {
    var t1 := t.(customers := CustomersAfter(t.customers, r));
    CustomersAfterKeepsWellFormed(t, r);
    OrderAfterOpensExactlyOne(t1, r.id);
    var (o, t2) := OrderAfter(t1, r.id);
    LineAfterArithmetic(t2.lines, (o, id), action);
  }

  /**
   * On a product the member's cart does not hold yet, a first `add` gives
   * quantity 1, a second gives 2, and a `remove` after the first deletes the
   * line again.
   */
  lemma AddAddRemove(t: Tables, r: Requester, id: ProductId)
    requires WellFormed(t) && r.Member? && id in t.products
    requires forall o: OrderId :: IsOpenOrder(t.orders, r.id, o) ==> (o, id) !in t.lines
    ensures var add := Some(UpdateBody(Some(Numeric(id)), Some("add")));
            var remove := Some(UpdateBody(Some(Numeric(id)), Some("remove")));
            var o := MemberOrder(t, r).0;
            var once := UpdateItemSpec(t, r, add).1;
            && (o, id) in once.lines && once.lines[(o, id)] == 1
            && (o, id) in UpdateItemSpec(once, r, add).1.lines
            && UpdateItemSpec(once, r, add).1.lines[(o, id)] == 2
            && (o, id) !in UpdateItemSpec(once, r, remove).1.lines
  {
    var add := Some(UpdateBody(Some(Numeric(id)), Some("add")));
    var t1 := t.(customers := CustomersAfter(t.customers, r));
    CustomersAfterKeepsWellFormed(t, r);
    OrderAfterOpensExactlyOne(t1, r.id);
    var (o, t2) := OrderAfter(t1, r.id);
    if HasOpenOrder(t1.orders, r.id) {
      assert IsOpenOrder(t.orders, r.id, o);
    }
    assert (o, id) !in t2.lines;
    LineAfterArithmetic(t2.lines, (o, id), "add");
    var once := UpdateItemSpec(t, r, add).1;
    UpdateItemTouchesOneLine(t, r, id, "add");
    assert CustomersAfter(once.customers, r) == once.customers;
    OrderAfterOpensExactlyOne(once, r.id);
    assert HasOpenOrder(once.orders, r.id);
    assert OrderAfter(once, r.id).0 == o;
    LineAfterArithmetic(once.lines, (o, id), "add");
    LineAfterArithmetic(once.lines, (o, id), "remove");
  }

  // ---------------------------------------------------------------------------
  // clearCart

  ghost function ClearCartSpec(t: Tables, r: Requester, cookie: Option<Cookie>): (CartView, Tables)
  {
    CartDataSpec(t.(lines := map[]), r, cookie)
  }

  /** `clearCart`: delete every order item, then read the cart as `cartData` does. */
  method ClearCart(db: Database, r: Requester, cookie: Option<Cookie>) returns (view: CartView)
    requires db.Valid()
    modifies db
    ensures db.Valid()
    ensures (view, db.Snapshot()) == ClearCartSpec(old(db.Snapshot()), r, cookie)
  {
    db.lines := map[];
    view := CartData(db, r, cookie);
  }

  /**
   * After `clearCart` no order of any customer has an order item left, even
   * when the caller is anonymous; a member's cart shows no lines; an
   * anonymous caller's cookie cart is untouched.
   */
  lemma ClearCartEmptiesEveryOrder(t: Tables, r: Requester, cookie: Option<Cookie>)
    requires WellFormed(t)
    ensures var (view, t') := ClearCartSpec(t, r, cookie);
            && t'.lines == map[]
            && WellFormed(t')
            && (r.Member? ==> view.OrderCart? && view.lines == map[])
            && (!r.Member? ==> view == GuestCart(CartOf(cookie, t.products)) && t'.orders == t.orders)
  {
    CartDataServesOrderOrCookie(t.(lines := map[]), r, cookie);
  }
}
