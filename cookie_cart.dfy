/**
 * The anonymous cart: `cookieCart` folds the decoded `cart` cookie (product id
 * -> {quantity, checked}) into an item count, an order summary and a list of
 * line items, skipping every entry whose processing raises.
 */
module AnonymousCart {
  import opened Models

  /**
   * A decoded cookie value: either its `quantity` reads as an integer, or
   * reading it raises (the value is not an object, has no `quantity`, or the
   * quantity is not a number).
   */
  datatype CookieEntry = Entry(quantity: int) | Unreadable

  /** The decoded cookie, in its iteration order. */
  type Cookie = seq<(ProductKey, CookieEntry)>

  /** One line of the anonymous cart; `total` is the source's `get_total`. */
  datatype Item = Item(product: ProductId, price: int, quantity: int, total: int)

  /** The `order` dictionary: `get_cart_total`, `get_cart_items`, `shipping`. */
  datatype Summary = Summary(getCartTotal: int, getCartItems: int, shipping: bool)

  /** What `cookieCart` returns. */
  datatype CookieData = CookieData(cartItems: int, order: Summary, items: seq<Item>)

  const EmptyCart := CookieData(0, Summary(0, 0, false), [])

  /** A missing cookie reads as the empty mapping. */
  function Entries(cookie: Option<Cookie>): Cookie
  {
    if cookie.Some? then cookie.value else []
  }

  /** The entry's quantity reads, so it reaches `cartItems`. */
  predicate Readable(e: (ProductKey, CookieEntry))
  {
    e.1.Entry?
  }

  /** The entry is processed to the end: its quantity reads and its product exists. */
  predicate Processed(e: (ProductKey, CookieEntry), catalogue: Catalogue)
  {
    e.1.Entry? && Resolves(e.0, catalogue)
  }

  /** A processed entry whose product is physical. */
  predicate Ships(e: (ProductKey, CookieEntry), catalogue: Catalogue)
  {
    Processed(e, catalogue) && !catalogue[e.0.id].digital
  }

  /** The line item a processed entry produces. */
  function ItemOf(e: (ProductKey, CookieEntry), catalogue: Catalogue): Item
    requires Processed(e, catalogue)
  {
    var p := catalogue[e.0.id];
    Item(e.0.id, p.price, e.1.quantity, p.price * e.1.quantity)
  }

  /** The items of the processed entries, in cookie order. */
  function Items(es: Cookie, catalogue: Catalogue): seq<Item>
  {
    if es == [] then []
    else (if Processed(es[0], catalogue) then [ItemOf(es[0], catalogue)] else []) + Items(es[1..], catalogue)
  }

  /** The sum of the quantities of the readable entries. */
  function ReadableQuantity(es: Cookie): int
  {
    if es == [] then 0
    else (if Readable(es[0]) then es[0].1.quantity else 0) + ReadableQuantity(es[1..])
  }

  /** The sum of the quantities of the readable entries whose product is missing. */
  function MissingQuantity(es: Cookie, catalogue: Catalogue): int
  {
    if es == [] then 0
    else (if Readable(es[0]) && !Processed(es[0], catalogue) then es[0].1.quantity else 0)
         + MissingQuantity(es[1..], catalogue)
  }

  function SumQuantities(items: seq<Item>): int
  {
    if items == [] then 0 else items[0].quantity + SumQuantities(items[1..])
  }

  function SumTotals(items: seq<Item>): int
  {
    if items == [] then 0 else items[0].total + SumTotals(items[1..])
  }

  /**
   * What the anonymous cart is, stated entry by entry: `cartItems` counts every
   * readable quantity, the summary and the items cover exactly the processed
   * entries, and shipping is needed iff some processed entry is physical.
   */
  function CartOf(cookie: Option<Cookie>, catalogue: Catalogue): CookieData
  {
    var es := Entries(cookie);
    var items := Items(es, catalogue);
    CookieData(
      ReadableQuantity(es),
      Summary(SumTotals(items), SumQuantities(items), exists j | 0 <= j < |es| :: Ships(es[j], catalogue)),
      items)
  }

  /**
   * The accumulation loop of `cookieCart`. Per entry: read the quantity into
   * `cartItems`, then look up the product, then add to the totals, append the
   * item and raise the shipping flag; the first step that fails skips the rest.
   */
  method CookieCart(cookie: Option<Cookie>, catalogue: Catalogue) returns (data: CookieData)
    ensures data == CartOf(cookie, catalogue)
  {
    var cart := Entries(cookie);
    var items: seq<Item> := [];
    var order := Summary(0, 0, false);
    var cartItems := order.getCartItems;
    var i := 0;
    while i < |cart|
      invariant 0 <= i <= |cart|
      invariant cartItems == ReadableQuantity(cart[..i])
      invariant items == Items(cart[..i], catalogue)
      invariant order.getCartItems == SumQuantities(items)
      invariant order.getCartTotal == SumTotals(items)
      invariant order.shipping <==> exists j | 0 <= j < i :: Ships(cart[j], catalogue)
    {
      var (key, entry) := cart[i];
      SnocStep(cart, i, catalogue);
      if entry.Entry? {
        cartItems := cartItems + entry.quantity;
        if key.Numeric? && key.id in catalogue {
          var product := catalogue[key.id];
          var total := product.price * entry.quantity;
          order := order.(getCartTotal := order.getCartTotal + total,
                          getCartItems := order.getCartItems + entry.quantity);
          items := items + [Item(key.id, product.price, entry.quantity, total)];
          SumsAppend(Items(cart[..i], catalogue), [Item(key.id, product.price, entry.quantity, total)]);
          if !product.digital {
            order := order.(shipping := true);
          }
        }
      }
      i := i + 1;
    }
    assert cart[..i] == cart;
    data := CookieData(cartItems, order, items);
  }

  // ---------------------------------------------------------------------------
  // Concatenation lemmas: the reference definitions distribute over `+`.

  lemma {:induction false} ItemsAppend(a: Cookie, b: Cookie, catalogue: Catalogue)
    ensures Items(a + b, catalogue) == Items(a, catalogue) + Items(b, catalogue)
  {
    if a == [] {
      assert a + b == b;
    } else {
      assert (a + b)[1..] == a[1..] + b;
      ItemsAppend(a[1..], b, catalogue);
    }
  }

  lemma {:induction false} QuantitiesAppend(a: Cookie, b: Cookie, catalogue: Catalogue)
    ensures ReadableQuantity(a + b) == ReadableQuantity(a) + ReadableQuantity(b)
    ensures MissingQuantity(a + b, catalogue) == MissingQuantity(a, catalogue) + MissingQuantity(b, catalogue)
  {
    if a == [] {
      assert a + b == b;
    } else {
      assert (a + b)[1..] == a[1..] + b;
      QuantitiesAppend(a[1..], b, catalogue);
    }
  }

  lemma {:induction false} SumsAppend(a: seq<Item>, b: seq<Item>)
    ensures SumQuantities(a + b) == SumQuantities(a) + SumQuantities(b)
    ensures SumTotals(a + b) == SumTotals(a) + SumTotals(b)
  {
    if a == [] {
      assert a + b == b;
    } else {
      assert (a + b)[1..] == a[1..] + b;
      SumsAppend(a[1..], b);
    }
  }

  /** One more entry extends each reference definition by that entry alone. */
  lemma SnocStep(es: Cookie, i: nat, catalogue: Catalogue)
    requires i < |es|
    ensures Items(es[..i + 1], catalogue)
            == Items(es[..i], catalogue) + (if Processed(es[i], catalogue) then [ItemOf(es[i], catalogue)] else [])
    ensures ReadableQuantity(es[..i + 1]) == ReadableQuantity(es[..i]) + (if Readable(es[i]) then es[i].1.quantity else 0)
  {
    assert es[..i + 1] == es[..i] + [es[i]];
    ItemsAppend(es[..i], [es[i]], catalogue);
    QuantitiesAppend(es[..i], [es[i]], catalogue);
  }

  // ---------------------------------------------------------------------------
  // What the anonymous cart promises.

  /** A missing cookie, or an empty one, gives the all-zero cart. */
  lemma MissingCookieIsEmpty(catalogue: Catalogue)
    ensures CartOf(None, catalogue) == EmptyCart
    ensures CartOf(Some([]), catalogue) == EmptyCart
  {
  }

  /**
   * `cartItems` is `get_cart_items` plus the quantities of the entries whose
   * quantity was counted before their product lookup failed.
   */
  lemma {:induction false} CartItemsSplit(es: Cookie, catalogue: Catalogue)
    ensures ReadableQuantity(es) == SumQuantities(Items(es, catalogue)) + MissingQuantity(es, catalogue)
  {
    if es != [] {
      CartItemsSplit(es[1..], catalogue);
      var head := if Processed(es[0], catalogue) then [ItemOf(es[0], catalogue)] else [];
      SumsAppend(head, Items(es[1..], catalogue));
    }
  }

  /**
   * Every item carries its product's catalogue price and `get_total` is price
   * times quantity; there are never more items than cookie entries.
   */
  lemma {:induction false} ItemsWellPriced(es: Cookie, catalogue: Catalogue)
    ensures |Items(es, catalogue)| <= |es|
    ensures forall it :: it in Items(es, catalogue) ==>
              it.product in catalogue && it.price == catalogue[it.product].price
              && it.total == it.price * it.quantity
  {
    if es != [] {
      ItemsWellPriced(es[1..], catalogue);
    }
  }

  /**
   * The items are exactly the processed entries: each processed entry yields
   * its item, and each item comes from a processed entry.
   */
  lemma {:induction false} ItemsAreProcessedEntries(es: Cookie, catalogue: Catalogue)
    ensures forall j :: 0 <= j < |es| && Processed(es[j], catalogue) ==> ItemOf(es[j], catalogue) in Items(es, catalogue)
    ensures forall it :: it in Items(es, catalogue) ==>
              exists j :: 0 <= j < |es| && Processed(es[j], catalogue) && it == ItemOf(es[j], catalogue)
  {
    if es != [] {
      ItemsAreProcessedEntries(es[1..], catalogue);
      forall it | it in Items(es, catalogue)
        ensures exists j :: 0 <= j < |es| && Processed(es[j], catalogue) && it == ItemOf(es[j], catalogue)
      {
        if !(Processed(es[0], catalogue) && it == ItemOf(es[0], catalogue)) {
          assert it in Items(es[1..], catalogue);
          var j :| 0 <= j < |es[1..]| && Processed(es[1..][j], catalogue) && it == ItemOf(es[1..][j], catalogue);
          assert es[j + 1] == es[1..][j];
        }
      }
      forall j | 0 <= j < |es| && Processed(es[j], catalogue)
        ensures ItemOf(es[j], catalogue) in Items(es, catalogue)
      {
        if j > 0 {
          assert es[1..][j - 1] == es[j];
        }
      }
    }
  }

  /** `shipping` is set iff some line item's product is not digital. */
  lemma ShippingIffPhysicalItem(cookie: Option<Cookie>, catalogue: Catalogue)
    ensures CartOf(cookie, catalogue).order.shipping <==>
            exists it :: it in CartOf(cookie, catalogue).items && it.product in catalogue
                          && !catalogue[it.product].digital
  {
    var es := Entries(cookie);
    ItemsAreProcessedEntries(es, catalogue);
    ItemsWellPriced(es, catalogue);
    if exists j | 0 <= j < |es| :: Ships(es[j], catalogue) {
      var j :| 0 <= j < |es| && Ships(es[j], catalogue);
      assert ItemOf(es[j], catalogue) in Items(es, catalogue);
    }
  }

  /**
   * An entry whose quantity reads but whose product is missing raises only
   * `cartItems`: the summary and the items are as without it.
   */
  lemma MissingProductOnlyCounts(es: Cookie, key: ProductKey, q: int, catalogue: Catalogue)
    requires !Resolves(key, catalogue)
    ensures CartOf(Some(es + [(key, Entry(q))]), catalogue)
            == CartOf(Some(es), catalogue).(cartItems := ReadableQuantity(es) + q)
  {
    var es' := es + [(key, Entry(q))];
    ItemsAppend(es, [(key, Entry(q))], catalogue);
    QuantitiesAppend(es, [(key, Entry(q))], catalogue);
    assert Items(es', catalogue) == Items(es, catalogue);
    assert (exists j | 0 <= j < |es'| :: Ships(es'[j], catalogue))
       <==> (exists j | 0 <= j < |es| :: Ships(es[j], catalogue)) by {
      if exists j | 0 <= j < |es'| :: Ships(es'[j], catalogue) {
        var j :| 0 <= j < |es'| && Ships(es'[j], catalogue);
        assert j < |es| && es[j] == es'[j];
      }
      if exists j | 0 <= j < |es| :: Ships(es[j], catalogue) {
        var j :| 0 <= j < |es| && Ships(es[j], catalogue);
        assert es'[j] == es[j];
      }
    }
  }

  // ---------------------------------------------------------------------------
  // The cookie as the code actually receives it.

  /**
   * The raw cookie is a string and is iterated without being decoded: every
   * key is one character and `cart[i]` raises, so every entry is unreadable.
   */
  function RawIteration(raw: string): (es: Cookie)
    ensures |es| == |raw|
  {
    seq(|raw|, i requires 0 <= i < |raw| => (Malformed([raw[i]]), Unreadable))
  }

  lemma {:induction false} UnreadableEntriesAddNothing(es: Cookie, catalogue: Catalogue)
    requires forall j :: 0 <= j < |es| ==> !Readable(es[j])
    ensures CartOf(Some(es), catalogue) == EmptyCart
  {
    if es != [] {
      UnreadableEntriesAddNothing(es[1..], catalogue);
      assert !Readable(es[0]);
    }
  }

  /** `cookieCart` as written: the loop over the undecoded cookie string. */
  method CookieCartAsWritten(raw: Option<string>, catalogue: Catalogue) returns (data: CookieData)
    ensures data == EmptyCart
  {
    var cookie := if raw.Some? then Some(RawIteration(raw.value)) else None;
    data := CookieCart(cookie, catalogue);
    UnreadableEntriesAddNothing(Entries(cookie), catalogue);
  }

  /** The `cart` cookie a browser sends for two of product 1. */
  const TwoOfProductOne: string := "{\"1\":{\"quantity\":2,\"checked\":true}}"

  /**
   * That cookie against a catalogue where product 1 is physical and costs 500:
   * decoded, it is a cart of two costing 1000 that needs shipping; as the code
   * reads it, it is the empty cart.
   */
  lemma UndecodedCookieLosesCart(catalogue: Catalogue)
    requires catalogue == map[1 := Product(500, false)]
    ensures CartOf(Some(RawIteration(TwoOfProductOne)), catalogue) == EmptyCart
    ensures CartOf(Some([(Numeric(1), Entry(2))]), catalogue)
            == CookieData(2, Summary(1000, 2, true), [Item(1, 500, 2, 1000)])
  {
    var undecoded := RawIteration(TwoOfProductOne);
    assert forall j :: 0 <= j < |undecoded| ==> !Readable(undecoded[j]);
    UnreadableEntriesAddNothing(undecoded, catalogue);
    var es: Cookie := [(Numeric(1), Entry(2))];
    assert es[1..] == [];
    assert Ships(es[0], catalogue);
    assert Items(es, catalogue) == [Item(1, 500, 2, 1000)];
  }
}
