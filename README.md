# Storefront cart-to-order ledger, in Dafny

This project models the core of a Django REST storefront: carts and their
items, checkout into orders, product price updates, product reviews and
images, and the delete rules that protect order history. Each database table
is a sequence of rows in table order. The whole database is one value `Db`,
and `Models.Valid` states which states of it are consistent. Some of its
conditions the database schema enforces:

- unique primary keys;
- every foreign key resolves;
- one customer per user (`Customer.user` is a `OneToOneField`);
- cart quantities fit the 32-bit integer column.

The others are application invariants. The schema does not declare them, and
the lemmas show which operations keep them:

- At most one cart item per (cart, product). `CartItem` declares no unique
  constraint on the pair. The corrected upsert keeps it
  (`Serializers.AddCartItemPreservesValid`). The upsert as written can break it
  (see Findings).
- The product field validators hold: price 1.00 to 9999.99 and stock at least 1.
  Django runs `MinValueValidator` only during validation, never on save, so the
  database does not enforce it. The corrected price update keeps it. The
  update as written can break it (see Findings). No modelled operation creates
  products or changes stock.

Each serializer and view operation is a function from a `Db` to a new `Db` and
a result. Lemmas prove what the code promises and that every operation keeps
`Valid`. The class `Storefront.Store` holds the same tables as mutable fields.
Its methods perform the writes in place, and each is proved to produce exactly
the state its transition function describes. Checkout's loop, which builds the
order items, lives in `Storefront.SnapshotItems`.

Modules, one per file:

- `Wrappers`: Option, Result and Outcome.
- `Tables`: a table as a `seq`. Filtering in table order (`Keep`, `Drop`), lookup by key (`IndexOf`, `Find`), unique keys (`Distinct`), foreign keys (`RefsIn`) and a fresh key for a new row (`NextId`: one more than the largest key in use).
- `Models`: the records, the two enumerations and their default values, `Db`, `Valid`, and the CASCADE / PROTECT / SET_NULL delete rules.
- `Validators`: the 500 KB upload limit.
- `Serializers`: cart totals, the product price update, review and image creation, the cart-item upsert, and checkout.
- `Views`: the filtered querysets, the order endpoint's permissions and ownership filter, the guarded product and collection deletes, `me` and order creation.
- `Storefront`: the stateful `Store` class.

Four behaviours of the code are easy to misread from its comments and names.
The model follows the code:

- A cart item quantity of 0 is accepted. The field is a `PositiveIntegerField`, and that field allows 0.
- The `order_created` signal is sent inside the checkout transaction, not after it commits. `Store.PlaceOrder` records the announced order in `orderCreated` as part of the same step.
- A product PATCH without a price does not leave the price alone. `validated_data.get('unit_price')` gives `None`, the save violates NOT NULL, and the model returns `PriceRequired` with no change.
- The checkout endpoint as written never creates an order (see Findings). The rest of the model uses the intended `Views.CreateOrder`, which runs `CreateOrderSerializer.save`.

Money is counted in integer hundredths (`Cents`). `PriceOf` reads a product's
current price, so a cart total is always computed at current prices. An
order item keeps the price copied when the order was placed.

## Transition functions

These functions model an operation of the source and carry no contract of
their own. The lemmas listed with them in the table below specify them:

- `Models.Valid` (storefront/store/models.py:18-154): its conditions are listed above. Every `...PreservesValid` lemma states that an operation keeps it.
- `Models.DeleteCart`, `Models.DeleteProduct`, `Models.DeleteCollection`, `Models.DeleteCustomer` and `Models.DeleteOrder` model the `on_delete` rules of storefront/store/models.py. They are specified by `DeleteCartCascades`, `DeleteProductProtected`, `DeleteProductCascades`, `DeleteCollectionRule`, `DeleteCustomerRule` and `DeleteOrderRule`, and by the matching `...PreservesValid` lemmas.
- `Serializers.ItemTotal` (storefront/store/serializers.py:84-85): specified by `CartPricesAreLive`.
- `Serializers.CartTotal` (storefront/store/serializers.py:99-100): specified by `LinesTotal`, `LinesTotalAppend`, `CartPricesAreLive` and `AddCartItemRaisesTotal`.
- `Serializers.UpdateUnitPrice` and `Serializers.UpdateUnitPriceAsWritten` (storefront/store/serializers.py:35-56): specified by the four `UpdateUnitPrice...` lemmas. `Views.UpdateProduct` uses the corrected `UpdateUnitPrice` only.
- `Serializers.CreateReview` and `Serializers.CreateImage` (storefront/store/serializers.py:18-66): specified by `CreateReviewAttaches` and `CreateImageAttaches` and their `...PreservesValid` lemmas.
- `Serializers.AddCartItem` and `Serializers.AddCartItemAsWritten` (storefront/store/serializers.py:117-131): specified by the `AddCartItem...` lemmas.
- `Serializers.Snapshot` and `Serializers.PlaceOrder` (storefront/store/serializers.py:178-206): specified by the `PlaceOrder...` lemmas. `Storefront.SnapshotItems` is the loop that computes `Snapshot`.
- `Views.UpdateProduct`, `Views.CreateOrder`, `Views.CreateOrderAsWritten`, `Views.DestroyProduct`, `Views.DestroyCollection`, `Views.Me` and `Views.CreateCart` (storefront/store/views.py): specified by the `...Outcome`, `...Places`, `...NeverPlaces`, `Me...` and `CreateCart...` lemmas next to them.

## Model

| member | source | states |
|---|---|---|
| Models.ParsePaymentStatus | storefront/store/models.py:108-121 | exactly 'P', 'C' and 'F' parse; parsing inverts `PaymentStatusCode`; any other character is refused |
| Models.ParseMembership | storefront/store/models.py:60-75 | exactly 'B', 'S' and 'G' parse; parsing inverts `MembershipCode`; any other character is refused |
| Models.NewOrder | storefront/store/models.py:118-122 | a new order starts Pending and belongs to the given customer |
| Models.NewCustomer | storefront/store/models.py:70-75 | a new customer belongs to the given user and starts at Bronze membership |
| Models.ClearFeatured | storefront/store/models.py:20-24 | SET_NULL: a collection featuring the product now features nothing; every other collection is unchanged, position by position |
| Models.DeleteCartCascades | storefront/store/models.py:100-102 | deleting a cart removes it and exactly its items; every other cart keeps its items; the other tables are untouched |
| Models.DeleteCartPreservesValid | storefront/store/models.py:100-104 | deleting a cart keeps every constraint |
| Models.DeleteProductProtected | storefront/store/models.py:125-127 | deleting a product is refused exactly when an order item refers to it (PROTECT) |
| Models.DeleteProductCascades | storefront/store/models.py:100-154 | a product delete removes the product and exactly its cart items, reviews and images, and clears it as a featured product |
| Models.DeleteProductPreservesValid | storefront/store/models.py:100-154 | a product delete keeps every constraint (no dangling foreign key) |
| Models.DeleteCollectionRule | storefront/store/models.py:45-46 | deleting a collection is refused exactly while a product belongs to it; otherwise only the collection goes |
| Models.DeleteCollectionPreservesValid | storefront/store/models.py:45-46 | a collection delete keeps every constraint |
| Models.DeleteCustomerRule | storefront/store/models.py:122-148 | deleting a customer is refused exactly while an order refers to it; otherwise it goes with exactly its addresses |
| Models.DeleteCustomerPreservesValid | storefront/store/models.py:122-148 | a customer delete keeps every constraint |
| Models.DeleteOrderRule | storefront/store/models.py:125-126 | deleting an order is refused exactly while it has items; otherwise only the order goes |
| Models.DeleteOrderPreservesValid | storefront/store/models.py:125-126 | an order delete keeps every constraint |
| Validators.ValidateFileSize | storefront/store/validators.py:3-7 | a file passes exactly when its size is at most 500 × 1024 = 512000 bytes; otherwise the error names the 500 KB limit |
| Validators.ValidateFileSizeIgnoresContent | storefront/store/validators.py:3-7 | the verdict depends on the size alone |
| Serializers.LinesTotal | storefront/store/serializers.py:99-100 | with valid product prices, a total is never negative |
| Serializers.LinesTotalAppend | storefront/store/serializers.py:99-100 | the total of joined item lists is the sum of their totals |
| Serializers.UpdateUnitPriceErrors | storefront/store/serializers.py:53-56 | corrected (the declared field has no minimum, see Findings): the update fails for a missing product, a missing price or a price outside 1.00..9999.99, each exactly in its case, and then changes nothing |
| Serializers.UpdateUnitPriceOnlyChangesPrice | storefront/store/serializers.py:53-56 | a successful update changes the unit price of that one row and nothing else in the database |
| Serializers.UpdateUnitPricePreservesValid | storefront/store/serializers.py:53-56 | the price update keeps every constraint |
| Serializers.UpdateUnitPriceAsWrittenAcceptsCents | storefront/store/serializers.py:35-36 | with the price field as declared, a price of 0.50 is accepted and leaves the product below MinValueValidator(1) |
| Serializers.CartPricesAreLive | storefront/store/serializers.py:84-85 | after a price change, every cart item of that product is totalled at the new price |
| Serializers.CreateReviewAttaches | storefront/store/serializers.py:59-66 | an empty name, a name over 255 characters (`Review.name`, models.py:137) or an empty description is refused first; otherwise the review is added as one new row with a fresh key, holding exactly the submitted name and description and the supplied date (`auto_now_add`, so read-only for the client), for exactly the URL's product, or refused with no change when that product does not exist |
| Serializers.CreateReviewPreservesValid | storefront/store/serializers.py:64-66 | creating a review keeps every constraint |
| Serializers.CreateImageAttaches | storefront/store/serializers.py:18-25 | an image is refused, in this order: for a file without a name, with a name over 100 characters, of size 0 or that Pillow cannot open (the ImageField checks); then for a file over 512000 bytes; then for a missing product; otherwise it is added as one new row with a fresh key, storing the uploaded file's name, for exactly the URL's product |
| Serializers.CreateImagePreservesValid | storefront/store/serializers.py:19-21 | creating an image keeps every constraint |
| Serializers.ValidateProductId | storefront/store/serializers.py:112-115 | passes exactly for the key of an existing product |
| Serializers.AddCartItemValidation | storefront/store/serializers.py:108-120 | an unknown product, or a quantity outside 0..2147483647, is refused exactly in its case, with no change |
| Serializers.AddCartItemMerges | storefront/store/serializers.py:122-127 | when the (cart, product) item exists, its quantity is raised in place; no row is added and nothing else changes |
| Serializers.AddCartItemCreates | storefront/store/serializers.py:128-129 | when no such item exists, exactly one new row with a fresh key and the given quantity is appended; it fails only when the cart is missing |
| Serializers.AddCartItemOverflowRefused | storefront/store/serializers.py:122-129 | corrected: an increment past the column's range is refused with no change |
| Serializers.AddCartItemPreservesValid | storefront/store/serializers.py:117-131 | the upsert keeps every constraint, in particular one item per (cart, product) |
| Serializers.AddCartItemRaisesTotal | storefront/store/serializers.py:117-131 | a successful upsert raises the cart total by the added quantity times the product's price |
| Serializers.AddCartItemTwiceMerges | storefront/store/serializers.py:122-131 | adding a product twice leaves one row for it holding both quantities |
| Serializers.AddCartItemAsWrittenDuplicates | storefront/store/serializers.py:122-129 | as written, a failing increment falls into the bare `except:` and inserts a second row for the same (cart, product) |
| Serializers.ValidateCartId | storefront/store/serializers.py:178-183 | an unknown cart and an empty cart are refused, in that order; a cart that exists and has items passes |
| Serializers.PlaceOrderOutcome | storefront/store/serializers.py:178-206 | checkout fails exactly for an unknown cart, an empty cart, or a user without a customer, in that order; any failure leaves the database unchanged |
| Serializers.PlaceOrderCreatesOneOrder | storefront/store/serializers.py:189-190 | a successful checkout appends exactly one order, with a fresh key, Pending, placed now, and owned by the user's customer |
| Serializers.PlaceOrderSnapshotsItems | storefront/store/serializers.py:192-201 | the new order's items are one per cart item, in order, with the same product and quantity, and the price read at checkout; the multisets of (product, quantity) are equal |
| Serializers.PlaceOrderConsumesCart | storefront/store/serializers.py:202 | the cart and exactly its items are gone; other carts keep their items; apart from the new order and its items, no other table changes |
| Serializers.PlaceOrderRetryFails | storefront/store/serializers.py:179-180 | repeating checkout with the same cart is refused as an unknown cart, so there is no second order |
| Serializers.PlaceOrderPreservesValid | storefront/store/serializers.py:186-206 | checkout keeps every constraint |
| Serializers.PlaceOrderKeepsTotal | storefront/store/serializers.py:194-199 | the order's total at its copied prices equals the cart's total at checkout |
| Serializers.PriceFrozenAfterCheckout | storefront/store/models.py:129-131 | a later price change leaves a placed order's items, their copied prices and the order total unchanged |
| Views.ProductList | storefront/store/views.py:290-295 | without `collection_id`, all products; with it, exactly the products of that collection |
| Views.UpdateProductOutcome | storefront/store/views.py:290-295 | corrected price field (see Findings): a PATCH gets 404 exactly when the product is not in the `collection_id`-filtered queryset, then 500 exactly without a price and 400 exactly for a price outside 1.00..9999.99; otherwise it has the serializer update's effect; refusals change nothing |
| Views.UpdateProductPreservesValid | storefront/store/serializers.py:53-56 | the PATCH keeps every constraint |
| Views.CartItemList | storefront/store/views.py:360-361 | exactly the items of the URL's cart |
| Views.CartItemListLinesDistinct | storefront/store/views.py:360-361 | in a valid database, a cart's list names each product once |
| Views.ReviewList | storefront/store/views.py:328-329 | exactly the reviews of the URL's product |
| Views.OrderAccess | storefront/store/views.py:396-401 | anonymous requests get 401; non-staff PATCH or DELETE get 403; PUT gets 405; everything else is allowed, each exactly in its case |
| Views.OrderList | storefront/store/views.py:419-427 | staff see every order; other users fail exactly when they have no customer row |
| Views.OrderListOwnership | storefront/store/views.py:419-427 | a non-staff user's list is exactly the orders of that user's customer |
| Views.OrderListsDisjoint | storefront/store/views.py:425-427 | two different non-staff users never see the same order |
| Views.CreateOrderAsWrittenNeverPlaces | storefront/store/views.py:403-409 | as written, order creation never changes the database; an authenticated request with a valid cart ends in a server error |
| Views.CreateOrderPlaces | storefront/store/views.py:403-409 | corrected: an authenticated request succeeds exactly when checkout does, with checkout's effect; a 400 comes exactly from cart validation; failures change nothing |
| Views.CreateOrderPreservesValid | storefront/store/views.py:403-409 | order creation keeps every constraint |
| Views.DestroyProductOutcome | storefront/store/views.py:300-304 | 405 exactly when an order item refers to the product; otherwise 404 exactly when the product is not in the filtered queryset; otherwise the cascading delete |
| Views.OrderedProductSurvives | storefront/store/views.py:301-303 | a product that appears in an order is never destroyed |
| Views.DestroyProductPreservesValid | storefront/store/views.py:300-304 | product destroy keeps every constraint |
| Views.DestroyCollectionOutcome | storefront/store/views.py:315-320 | 405 exactly while a product belongs to the collection; otherwise 404 for a missing collection; otherwise only that collection goes |
| Views.DestroyCollectionPreservesValid | storefront/store/views.py:315-320 | collection destroy keeps every constraint |
| Views.MeFindsOrCreates | storefront/store/views.py:376-380 | returns the user's existing customer with no change; otherwise appends exactly one default customer with a fresh key |
| Views.MeIdempotent | storefront/store/views.py:377-380 | a second `me` request returns the same customer and changes nothing |
| Views.MePreservesValid | storefront/store/views.py:376-380 | `me` keeps every constraint, one customer per user included |
| Views.CreateCartIsEmpty | storefront/store/views.py:341-343 | a new cart is empty and is added as one row; a taken key changes nothing |
| Views.CreateCartPreservesValid | storefront/store/views.py:341-343 | creating a cart keeps every constraint |
| Storefront.SnapshotItems | storefront/store/serializers.py:194-199 | the loop builds exactly the snapshot of the cart's items |
| Storefront.Store.PlaceOrder | storefront/store/serializers.py:186-206 | the in-place checkout leaves exactly the tables `Serializers.PlaceOrder` describes, announces exactly the placed order, and keeps the database consistent |
| Storefront.Store.Commit | storefront/store/serializers.py:190-204 | the transaction's writes: the order, its items, the cart delete and the signal |
| Storefront.Store.SetCartItems | storefront/store/serializers.py:125-129 | the save of the cart-item table: only that table changes |
| Storefront.Store.AddCartItem | storefront/store/serializers.py:117-131 | the in-place upsert matches `Serializers.AddCartItem` and keeps the database consistent |
| Storefront.Store.UpdateProduct | storefront/store/serializers.py:53-56 | corrected price field (see Findings): the in-place price update, behind the filtered lookup, matches `Views.UpdateProduct` and keeps the database consistent |
| Storefront.Store.CreateReview | storefront/store/serializers.py:64-66 | the in-place review insert matches `Serializers.CreateReview` |
| Storefront.Store.CreateImage | storefront/store/serializers.py:18-25 | the in-place image insert, behind the image field and size checks, matches `Serializers.CreateImage` |
| Storefront.Store.DestroyProduct | storefront/store/views.py:300-304 | the in-place product destroy matches `Views.DestroyProduct` |
| Storefront.Store.DeleteProductRows | storefront/store/models.py:100-154 | the row deletes and SET_NULL update of a product delete, equal to `Models.DeleteProduct` |
| Storefront.Store.DestroyCollection | storefront/store/views.py:315-320 | the in-place collection destroy matches `Views.DestroyCollection` |
| Storefront.Store.Me | storefront/store/views.py:376-380 | the in-place get-or-create matches `Views.Me` |
| Storefront.Store.CreateCart | storefront/store/views.py:341-343 | the in-place cart insert matches `Views.CreateCart` |

## Left out

- `ProductSerializer.calculate_tax`: it uses floating-point `Decimal(1.1)` and rounding, which the model does not represent.
- Concurrency: two checkouts of the same cart racing each other are not modelled. Each operation is one atomic step here.
- I/O and the clock: UUID generation for carts, `auto_now_add` times and image storage. The caller supplies keys and timestamps (`now`), and an uploaded file is given as its name, size and content. The stored image path is modelled as the uploaded name, without the `upload_to` prefix.
- HTTP parsing, pagination, search and ordering filters, and response serialisation: a view's result is the `Db` and a result value, not a JSON body.
- `IsAdminOrReadOnly` (store/permissions.py) is not part of this model. Product and collection destroys are modelled without the admin check.
- `order_created` receivers: the signal is modelled only as the log `Store.orderCreated`.
- Promotions (a many-to-many field), the admin site, `UpdateCartItemSerializer` and the cart-item PATCH/DELETE endpoints, cart retrieval, and `me` with PUT: none of these is among the modelled operations.
- The user table: `Customer.user` is a plain key, and deleting a user cascading to customers is not modelled.
- Serializers.AddCartItemValidation: when the product and the quantity are both invalid, the framework reports both errors together. The model returns the product error.
- Views.OrderList, Views.CreateOrder: a missing customer row raises `Customer.DoesNotExist`, which the model reports as `ServerError`, without the framework's exception handling.
- Views.UpdateProduct: the PATCH applies the corrected price field, which refuses a price below 1.00. As written the source accepts any price from -9999.99 to 9999.99 (see Findings).
- Views.UpdateProduct: the PATCH is modelled for `price` alone. The source also validates the other writable ProductSerializer fields and returns 400 for an invalid one, although `update` saves only `unit_price`.
- Serializers.CreateImage: whether Pillow can open the file is not modelled. It is the caller-supplied `opens` flag.
- Tables.NextId: generated ids are modelled as one more than the largest key in use. After the row with the largest key is deleted, the model can issue that key again, which a database sequence never does. The contracts promise only that the key is fresh, which both satisfy.
- Views.ProductList: the list keeps table order. The model does not apply `Product.Meta.ordering = ['title']`, so its contract speaks of membership only, not of order.
- Serializers.CreateReview: DRF strips leading and trailing whitespace from `name` and `description` before it checks them. The model checks the strings as given, so a name of spaces alone is accepted here but refused by the source.
- Serializers.AddCartItem: the increment is checked against the 32-bit column range in Python before saving. The source leaves that check to the database.

## Findings

| source | as written | input that shows it | evidently intended | confidence | as-written member | corrected member |
|---|---|---|---|---|---|---|
| storefront/store/views.py:407 | `order = self.save()` calls a method no view set has, after the cart was validated | an authenticated POST /orders/ with an existing, non-empty cart | `order = serializer.save()`, which places the order | high, not executed | Views.CreateOrderAsWrittenNeverPlaces | Views.CreateOrderPlaces |
| storefront/store/serializers.py:35-36 | the declared `price` field has no minimum, so it overrides the model field's MinValueValidator(1) | PATCH /products/1/ with price 0.50 | prices below 1.00 are refused, as the model field demands | medium, not executed | Serializers.UpdateUnitPriceAsWrittenAcceptsCents | Serializers.UpdateUnitPricePreservesValid |
| storefront/store/serializers.py:122-129 | the bare `except:` turns any failure of the increment into an insert | adding quantity 2147483647 to an item that already holds 1 | only a missing item leads to an insert; a failed increment is an error | low (depends on the database raising on overflow), not executed | Serializers.AddCartItemAsWrittenDuplicates | Serializers.AddCartItemOverflowRefused |
