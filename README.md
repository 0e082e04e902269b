# Storefront cart logic in Dafny

A model of the cart logic of a small Django storefront. It has two pieces.

- The **anonymous cart** (`cookieCart`, `store/utils.py`). It folds the `cart` cookie (product id → `{quantity, checked}`) into an item count `cartItems`, an order summary (`get_cart_total`, `get_cart_items`, `shipping`) and a list of line items. Entries whose processing raises are skipped. Around it sit `get_or_create_customer` and `cartData`, which serves the cart either from a member's incomplete order or from the cookie.
- The **member cart update** (`updateItem`, `store/views.py`). It adds or removes one unit of a product in the member's single incomplete order and deletes a line whose quantity falls to zero. It answers 401, 404 or 400 on its error paths. Beside it are `clearCart`, which deletes every order item, and the store page's anonymous default.

The database is a class `Models.Database`, with one field per table:

- catalogue: product id → price in cents and digital flag;
- customers: keyed by user id;
- orders: with a fresh-id counter;
- order items: keyed by (order, product).

`Snapshot()` reads all the fields into one `Tables` value. `WellFormed` states the tables' invariants:

- referential integrity;
- fresh ids above every order id in use;
- at most one incomplete order per customer.

Each operation that changes tables is a method. Its `ensures` ties the new snapshot and its result to a specification function of the old snapshot (`OrderAfter`, `CartDataSpec`, `UpdateItemSpec`, `ClearCartSpec`, `StoreSpec`). What the source promises is then proved as lemmas about those functions. `cookieCart` is a loop. It is proved equal to `CartOf`, a definition stated entry by entry: `cartItems` is the sum of every readable quantity; the summary and the items cover exactly the processed entries; shipping holds iff some processed entry is physical.

Files:

- `models.dfy`: the entities and the database.
- `cookie_cart.dfy`: module `AnonymousCart`.
- `utils.dfy`: module `Utils`.
- `views.dfy`: module `Views`.

## Model

| member | source | states |
|---|---|---|
| AnonymousCart.CookieCart | store/utils.py:34-75 | The loop's result is `CartOf`. `cartItems` is the sum of every readable quantity. `get_cart_items` and `get_cart_total` are the sums of quantity and of `get_total` over the items. The items are those of the entries whose quantity reads and whose product exists, in cookie order. `shipping` is true iff such an entry's product is physical. |
| AnonymousCart.MissingCookieIsEmpty | store/utils.py:38-46 | A missing or empty cookie gives `cartItems = 0`, total 0, item count 0, no shipping and no items. |
| AnonymousCart.CartItemsSplit | store/utils.py:50-56 | `cartItems` equals `get_cart_items` plus the quantities of entries whose quantity was counted but whose product lookup failed. |
| AnonymousCart.MissingProductOnlyCounts | store/utils.py:50-52 | Appending an entry with a readable quantity and a missing product raises `cartItems` by that quantity. It changes nothing else. |
| AnonymousCart.ItemsWellPriced | store/utils.py:53-68 | Every item carries its product's catalogue price. Its `get_total` is price × quantity. There are never more items than cookie entries. |
| AnonymousCart.ItemsAreProcessedEntries | store/utils.py:48-68 | Both directions: every processed entry yields its item, and every item comes from a processed entry. |
| AnonymousCart.ItemsAppend | store/utils.py:48-68 | Items follow iteration order: the items of a concatenated cookie are the first part's items followed by the second's. |
| AnonymousCart.ShippingIffPhysicalItem | store/utils.py:70-71 | `shipping` is true iff some line item's product is not digital. |
| AnonymousCart.UnreadableEntriesAddNothing | store/utils.py:49-74 | A cookie whose every entry raises on the quantity read gives the all-zero cart. |
| AnonymousCart.CookieCartAsWritten | store/utils.py:38-50 | As written, the loop iterates the raw cookie string. Each `cart[i]` raises, so the result is always the all-zero cart. |
| AnonymousCart.UndecodedCookieLosesCart | store/utils.py:38-50 | For the cookie `{"1":{"quantity":2,"checked":true}}` with product 1 physical at 500: decoded, the cart holds 2 items costing 1000 and needs shipping. As the code reads it, the cart is empty. |
| Utils.GetOrCreateCustomer | store/utils.py:9-31 | Returns the member's customer id, or none for a missing or anonymous user. The customer table becomes `CustomersAfter` of the old one, and the tables stay well formed. |
| Utils.CustomerFindOrInsert | store/utils.py:18-31 | Without a logged-in user: none, and nothing inserted. A member gets their existing customer, or exactly one new customer named after the username and email. A second call inserts nothing. |
| Utils.GetOrCreateOrder | store/utils.py:81 | The incomplete-order get-or-create: the returned order is the customer's incomplete order, the tables become `OrderAfter`, and they stay well formed. |
| Utils.OrderAfterOpensExactlyOne | store/utils.py:81 | Afterwards the customer has exactly one incomplete order, the one returned. An existing one is returned with nothing changed. Otherwise exactly one order with a fresh id is added. No other order, item or customer changes. The tables stay well formed. |
| Utils.OrderAfterIdempotent | store/utils.py:81 | A second get-or-create returns the same order and changes nothing. |
| Utils.CartData | store/utils.py:77-89 | The result and the new tables are `CartDataSpec` of the old tables. The tables stay well formed. |
| Utils.CartDataServesOrderOrCookie | store/utils.py:79-89 | Without a customer, the result is `cookieCart`'s output unchanged and no table changes. A member gets the lines of their unique incomplete order, created if absent, and the order-item table is unchanged. |
| Views.StorePage | store/views.py:17-30 | The cart part of the store page equals `StoreSpec`: a member's incomplete order (customer and order found or created), the anonymous default, or the error raised without a user. |
| Views.StorePageDefaults | store/views.py:28-30 | An anonymous store page shows total 0, item count 0 and no items, the same as the cookie cart of a missing cookie, and changes no table. A member's page shows the same order as `cartData`. |
| Views.UpdateItem | store/views.py:72-122 | The status and the new tables equal `UpdateItemSpec`, with the guards in the source's order: body fields, user, customer, product id, product lookup, order, order item. |
| Views.SaveLine | store/views.py:100-112 | The line is fetched or created with the default quantity, changed by the action, saved, then deleted when not positive. The table becomes `LineAfter`, and the tables stay well formed. |
| Views.LineAfterArithmetic | store/views.py:100-112 | A first `add` gives 1. On a line whose previous quantity is 0 or more, `add` gives that quantity + 1. `remove` gives the previous − 1, and the line is deleted iff that is below 1. Any other action keeps a positive quantity. The touched line ends absent or ≥ 1, and no other line changes. |
| Views.UpdateItemRejectsIncompleteBody | store/views.py:83-85 | A body missing `productId` or `action`, or an undecodable one, gets 400 and touches no table. |
| Views.UpdateItemUnauthenticated | store/views.py:90-91 | An anonymous request with a complete body gets 401 and changes no table. |
| Views.UpdateItemUnknownProduct | store/views.py:94-98 | An unknown product gets 404. No order and no order item is created. Only the member's customer may be. |
| Views.UpdateItemTouchesOneLine | store/views.py:97-112 | On success, only the line for (the member's unique incomplete order, this product) changes, and it ends absent or ≥ 1. Other orders are kept. The tables stay well formed, and all-positive lines stay all positive. |
| Views.AddAddRemove | store/views.py:100-112 | On a product not yet in the member's cart: a first `add` gives quantity 1 and a second gives 2. A `remove` after the first deletes the line. |
| Views.ClearCart | store/views.py:133-138 | Every order item is deleted, then the cart is read as `cartData` does. |
| Views.ClearCartEmptiesEveryOrder | store/views.py:133-138 | Afterwards no order of any customer has an item, even when the caller is anonymous. A member's cart shows no lines. An anonymous caller's cookie cart is untouched. |

## Findings

| source | as written | input that shows it | evidently intended | confidence | as-written member | corrected member |
|---|---|---|---|---|---|---|
| store/utils.py:38-50 | The `cart` cookie is a string and is never JSON-decoded. The loop iterates its characters, and each `cart[i]` raises and is skipped, so the cart is always empty. | cookie `{"1":{"quantity":2,"checked":true}}` with product 1 physical at price 500 | decode the cookie into a product id → entry mapping before the loop | high; not executed | AnonymousCart.CookieCartAsWritten | AnonymousCart.CookieCart |

The source itself shows that a decoded cookie was intended. `import json` (store/utils.py:1) is never used in the file. The loop body indexes `cart[i]['quantity']` (store/utils.py:50), which only makes sense on a mapping. The handler's comment (store/utils.py:73) expects only malformed entries to be skipped, not every entry. The model follows the code in `CookieCartAsWritten`. `cartData` uses the corrected `CookieCart`, which takes the decoded cookie.

## Left out

- Cookie decoding (JSON parsing): `CookieCart` takes the decoded cookie, a sequence of (key, entry) pairs in iteration order. Keys are not required to be distinct.
- Entry quantities are integers or unreadable. A float quantity, which Python would add, is not modelled. The `checked` field is ignored, as in the source.
- Product ids from the client are either integers (`Numeric`) or text the lookup rejects (`Malformed`). A negative integer is a `Numeric` id that names no product: 404 in `updateItem`, and in `cookieCart` its quantity is counted but the entry is not processed. In `updateItem`, a rejected id raises an error other than "does not exist", so it gets 400, not 404.
- Prices are integers (cents). The source's decimal or float price arithmetic is not modelled.
- Item fields `name` and `imageURL` are not modelled. `imageURL`, a model property, is assumed not to raise.
- `store/models.py` is not part of this model. `order.get_cart_total` and `order.get_cart_items` of a database order are not modelled, so a member's cart view gives the order's lines rather than `cartItems`. The order-item default quantity is taken to be 0, so that a first `add` yields 1.
- `processOrder`: its completion test compares a float total with `==`, and it uses a wall-clock timestamp as transaction id. `ShippingAddress` creation goes with it.
- `register`, `login_view`, `logout_view`, `profile` and `store/forms.py`: thin wrappers over the authentication subsystem.
- The `cart`, `checkout` and `productDetail` views are not modelled. `cart` calls `cartData` and renders. `checkout` first redirects an unauthenticated user to the login page, then calls `cartData`. `productDetail` calls `cartData`, then looks the product up, which raises on an unknown id. The product listing of the store page is not modelled either.
- Rendering, JSON responses, sessions and logging.
- Concurrency: each request is atomic. "At most one incomplete order per customer" is part of `WellFormed`, so the source's error path for several incomplete orders (`MultipleObjectsReturned`, a 400 in `updateItem`) cannot arise in the model.
- Customers are keyed by user id, since the relation is one-to-one; the customer's own primary key is not modelled.
- The 400 for "Customer profile unavailable" (store/views.py:95-96) is kept in `UpdateItem`, but no request reaches it: a user who passed the authentication check always gets a customer.
