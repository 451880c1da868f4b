/**
 * The store's records, their enumerations and defaults, the database as one
 * value (`Db`) with its consistency conditions (the constraints the schema
 * declares, plus one item per (cart, product) and the product field
 * validators, which only the application keeps), and the ORM's
 * on_delete rules: CASCADE removes dependent rows, PROTECT refuses the delete,
 * SET_NULL clears the reference.
 */
module Models {
  import opened Wrappers
  import opened Tables

  /** A DecimalField with two decimal places, counted in hundredths (cents). */
  type Cents = int
  /** `auto_now_add` timestamps and dates: opaque, supplied by the caller. */
  type Timestamp = int
  type Date = int

  /** MinValueValidator(1) on a two-decimal price: 1.00. */
  const MinUnitPrice: Cents := 100
  /** max_digits=6, decimal_places=2: at most 9999.99. */
  const MaxUnitPrice: Cents := 999999
  /** The largest value a PositiveIntegerField holds on every supported database. */
  const MaxQuantity: nat := 2147483647

  /** Product.unit_price as the model field and its validator allow it. */
  predicate ValidUnitPrice(p: Cents) {
    MinUnitPrice <= p <= MaxUnitPrice
  }

  datatype PaymentStatus = Pending | Complete | Failed

  /** The one-character code stored in Order.payment_status. */
  function PaymentStatusCode(s: PaymentStatus): char {
    match s
    case Pending => 'P'
    case Complete => 'C'
    case Failed => 'F'
  }

  /** Reads a stored payment-status code; only the three choices are accepted. */
  function ParsePaymentStatus(c: char): (r: Option<PaymentStatus>)
    ensures r.Some? ==> PaymentStatusCode(r.value) == c
    ensures forall s :: PaymentStatusCode(s) == c ==> r == Some(s)
    ensures r.None? <==> c !in {'P', 'C', 'F'}
  {
    if c == 'P' then Some(Pending)
    else if c == 'C' then Some(Complete)
    else if c == 'F' then Some(Failed)
    else None
  }

  const DefaultPaymentStatus: PaymentStatus := Pending

  datatype Membership = Bronze | Silver | Gold

  /** The one-character code stored in Customer.membership. */
  function MembershipCode(m: Membership): char {
    match m
    case Bronze => 'B'
    case Silver => 'S'
    case Gold => 'G'
  }

  /** Reads a stored membership code; only the three choices are accepted. */
  function ParseMembership(c: char): (r: Option<Membership>)
    ensures r.Some? ==> MembershipCode(r.value) == c
    ensures forall m :: MembershipCode(m) == c ==> r == Some(m)
    ensures r.None? <==> c !in {'B', 'S', 'G'}
  {
    if c == 'B' then Some(Bronze)
    else if c == 'S' then Some(Silver)
    else if c == 'G' then Some(Gold)
    else None
  }

  const DefaultMembership: Membership := Bronze

  datatype Collection = Collection(id: Id, title: string, featuredProduct: Option<Id>)

  datatype Product = Product(id: Id, title: string, slug: string, description: Option<string>,
                             unitPrice: Cents, inventory: int, lastUpdate: Timestamp, collection: Id)

  datatype Customer = Customer(id: Id, user: Id, phone: string, birthDate: Option<Date>,
                               membership: Membership)

  datatype Address = Address(id: Id, street: string, city: string, customer: Id)

  /** A cart's UUID primary key is modelled as an opaque Id chosen fresh by the caller. */
  datatype Cart = Cart(id: Id, createdAt: Timestamp)

  datatype CartItem = CartItem(id: Id, cart: Id, product: Id, quantity: nat)

  datatype Order = Order(id: Id, placedAt: Timestamp, paymentStatus: PaymentStatus, customer: Id)

  /** `unitPrice` is the price copied when the order was placed, not a reference to the product's price. */
  datatype OrderItem = OrderItem(id: Id, order: Id, product: Id, quantity: nat, unitPrice: Cents)

  datatype Review = Review(id: Id, product: Id, name: string, description: string, date: Date)

  datatype ProductImage = ProductImage(id: Id, product: Id, image: string)

  function CollectionKey(c: Collection): Id { c.id }
  function ProductKey(p: Product): Id { p.id }
  function ProductCollection(p: Product): Id { p.collection }
  function CustomerKey(c: Customer): Id { c.id }
  function CustomerUser(c: Customer): Id { c.user }
  function AddressKey(a: Address): Id { a.id }
  function AddressCustomer(a: Address): Id { a.customer }
  function CartKey(c: Cart): Id { c.id }
  function CartItemKey(i: CartItem): Id { i.id }
  function CartItemCart(i: CartItem): Id { i.cart }
  function CartItemProduct(i: CartItem): Id { i.product }
  function CartItemLine(i: CartItem): (Id, Id) { (i.cart, i.product) }
  function OrderKey(o: Order): Id { o.id }
  function OrderCustomer(o: Order): Id { o.customer }
  function OrderItemKey(i: OrderItem): Id { i.id }
  function OrderItemOrder(i: OrderItem): Id { i.order }
  function OrderItemProduct(i: OrderItem): Id { i.product }
  function ReviewKey(r: Review): Id { r.id }
  function ReviewProduct(r: Review): Id { r.product }
  function ImageKey(i: ProductImage): Id { i.id }
  function ImageProduct(i: ProductImage): Id { i.product }

  /** A new Order row: payment status takes its default. */
  function NewOrder(id: Id, placedAt: Timestamp, customer: Id): (o: Order)
    ensures o.paymentStatus == Pending && o.customer == customer
  {
    Order(id, placedAt, DefaultPaymentStatus, customer)
  }

  /** A new Customer row for a user: empty phone, no birth date, default membership. */
  function NewCustomer(id: Id, user: Id): (c: Customer)
    ensures c.membership == Bronze && c.user == user
  {
    Customer(id, user, "", None, DefaultMembership)
  }

  /** The whole database: one sequence of rows per table. */
  datatype Db = Db(collections: seq<Collection>, products: seq<Product>,
                   customers: seq<Customer>, addresses: seq<Address>,
                   carts: seq<Cart>, cartItems: seq<CartItem>,
                   orders: seq<Order>, orderItems: seq<OrderItem>,
                   reviews: seq<Review>, images: seq<ProductImage>)

  /** Primary keys are unique in every table. */
  ghost predicate KeysDistinct(db: Db) {
    && Distinct(db.collections, CollectionKey)
    && Distinct(db.products, ProductKey)
    && Distinct(db.customers, CustomerKey)
    && Distinct(db.addresses, AddressKey)
    && Distinct(db.carts, CartKey)
    && Distinct(db.cartItems, CartItemKey)
    && Distinct(db.orders, OrderKey)
    && Distinct(db.orderItems, OrderItemKey)
    && Distinct(db.reviews, ReviewKey)
    && Distinct(db.images, ImageKey)
  }

  /** Collection.featured_product is empty or names an existing product. */
  ghost predicate FeaturedResolve(collections: seq<Collection>, products: seq<Product>) {
    forall c :: c in collections && c.featuredProduct.Some? ==>
      HasKey(products, ProductKey, c.featuredProduct.value)
  }

  /** Every foreign key names an existing row. */
  ghost predicate ReferencesResolve(db: Db) {
    && RefsIn(db.products, ProductCollection, db.collections, CollectionKey)
    && FeaturedResolve(db.collections, db.products)
    && RefsIn(db.addresses, AddressCustomer, db.customers, CustomerKey)
    && RefsIn(db.cartItems, CartItemCart, db.carts, CartKey)
    && RefsIn(db.cartItems, CartItemProduct, db.products, ProductKey)
    && RefsIn(db.orders, OrderCustomer, db.customers, CustomerKey)
    && RefsIn(db.orderItems, OrderItemOrder, db.orders, OrderKey)
    && RefsIn(db.orderItems, OrderItemProduct, db.products, ProductKey)
    && RefsIn(db.reviews, ReviewProduct, db.products, ProductKey)
    && RefsIn(db.images, ImageProduct, db.products, ProductKey)
  }

  /** Field validators on Product: price within the decimal field and at least 1.00, stock at least 1. */
  ghost predicate ProductsValid(products: seq<Product>) {
    forall p :: p in products ==> ValidUnitPrice(p.unitPrice) && p.inventory >= 1
  }

  /** Cart-item quantities fit the PositiveIntegerField column. */
  ghost predicate QuantitiesInRange(items: seq<CartItem>) {
    forall i :: i in items ==> i.quantity <= MaxQuantity
  }

  /** The consistent states of the database. */
  ghost predicate Valid(db: Db) {
    && KeysDistinct(db)
    && ReferencesResolve(db)
    && Distinct(db.cartItems, CartItemLine)   // at most one item per (cart, product)
    && Distinct(db.customers, CustomerUser)   // Customer.user is a OneToOneField
    && ProductsValid(db.products)
    && QuantitiesInRange(db.cartItems)
  }

  /** The current unit price of a product (0 for a product that does not exist). */
  function PriceOf(products: seq<Product>, p: Id): Cents {
    match Find(products, ProductKey, p)
    case Some(prod) => prod.unitPrice
    case None => 0
  }

  /** In a valid database, PriceOf reads the price of the row with that key. */
  lemma PriceOfRow(products: seq<Product>, x: Product)
    requires Distinct(products, ProductKey) && x in products
    ensures PriceOf(products, x.id) == x.unitPrice
  {
    FindDistinct(products, ProductKey, x);
  }

  /** The items of a cart, in table order (`cart.items.all()`). */
  function CartItemsOf(db: Db, cart: Id): seq<CartItem> {
    Keep(db.cartItems, CartItemCart, cart)
  }

  /** The items of an order, in table order. */
  function OrderItemsOf(db: Db, order: Id): seq<OrderItem> {
    Keep(db.orderItems, OrderItemOrder, order)
  }

  /** Why a delete was refused: a PROTECT foreign key still points at the row. */
  datatype ProtectedError = ProtectedError

  /** Deleting carts with key `c` (a queryset delete, a no-op when none exists); CASCADE removes their items. */
  function DeleteCart(db: Db, c: Id): Db {
    db.(carts := Drop(db.carts, CartKey, c), cartItems := Drop(db.cartItems, CartItemCart, c))
  }

  /** Collection.featured_product uses SET_NULL: clear every reference to `p`. */
  function ClearFeatured(collections: seq<Collection>, p: Id): (r: seq<Collection>)
    ensures |r| == |collections|
    ensures forall i :: 0 <= i < |r| ==>
      r[i] == if collections[i].featuredProduct == Some(p)
              then collections[i].(featuredProduct := None) else collections[i]
  {
    if |collections| == 0 then []
    else
      var c := collections[0];
      [if c.featuredProduct == Some(p) then c.(featuredProduct := None) else c]
        + ClearFeatured(collections[1..], p)
  }

  /**
   * Deleting product `p`: PROTECT from OrderItem refuses it while any order item
   * refers to it; otherwise CASCADE removes its cart items, reviews and images,
   * and SET_NULL clears it as a featured product.
   */
  function DeleteProduct(db: Db, p: Id): Result<Db, ProtectedError> {
    if HasKey(db.orderItems, OrderItemProduct, p) then Failure(ProtectedError)
    else Success(db.(products := Drop(db.products, ProductKey, p),
                     collections := ClearFeatured(db.collections, p),
                     cartItems := Drop(db.cartItems, CartItemProduct, p),
                     reviews := Drop(db.reviews, ReviewProduct, p),
                     images := Drop(db.images, ImageProduct, p)))
  }

  /** Deleting collection `k`: PROTECT from Product refuses it while it holds products. */
  function DeleteCollection(db: Db, k: Id): Result<Db, ProtectedError> {
    if HasKey(db.products, ProductCollection, k) then Failure(ProtectedError)
    else Success(db.(collections := Drop(db.collections, CollectionKey, k)))
  }

  /** Deleting customer `k`: PROTECT from Order refuses it while it has orders; CASCADE removes its addresses. */
  function DeleteCustomer(db: Db, k: Id): Result<Db, ProtectedError> {
    if HasKey(db.orders, OrderCustomer, k) then Failure(ProtectedError)
    else Success(db.(customers := Drop(db.customers, CustomerKey, k),
                     addresses := Drop(db.addresses, AddressCustomer, k)))
  }

  /** Deleting order `k`: PROTECT from OrderItem refuses it while it has items. */
  function DeleteOrder(db: Db, k: Id): Result<Db, ProtectedError> {
    if HasKey(db.orderItems, OrderItemOrder, k) then Failure(ProtectedError)
    else Success(db.(orders := Drop(db.orders, OrderKey, k)))
  }

  /** Deleting a cart removes it and exactly its own items; every other table is untouched. */
  lemma DeleteCartCascades(db: Db, c: Id)
    ensures !HasKey(DeleteCart(db, c).carts, CartKey, c)
    ensures CartItemsOf(DeleteCart(db, c), c) == []
    ensures forall x :: x in DeleteCart(db, c).cartItems <==> x in db.cartItems && x.cart != c
    ensures forall c' :: c' != c ==> CartItemsOf(DeleteCart(db, c), c') == CartItemsOf(db, c')
    ensures DeleteCart(db, c).(carts := db.carts, cartItems := db.cartItems) == db
  {
    var r := DeleteCart(db, c);
    KeepNone(r.cartItems, CartItemCart, c);
    forall c' | c' != c ensures CartItemsOf(r, c') == CartItemsOf(db, c') {
      KeepOfDrop(db.cartItems, c', c);
    }
  }

  /** Keeping one cart's items after dropping another cart's items is the same as keeping them before. */
  lemma {:induction false} KeepOfDrop(s: seq<CartItem>, keep: Id, drop: Id)
    requires keep != drop
    ensures Keep(Drop(s, CartItemCart, drop), CartItemCart, keep) == Keep(s, CartItemCart, keep)
  {
    if |s| > 0 {
      KeepOfDrop(s[1..], keep, drop);
    }
  }

  lemma DeleteCartPreservesValid(db: Db, c: Id)
    requires Valid(db)
    ensures Valid(DeleteCart(db, c))
  {
    var r := DeleteCart(db, c);
    DropDistinct(db.carts, CartKey, CartKey, c);
    DropDistinct(db.cartItems, CartItemKey, CartItemCart, c);
    DropDistinct(db.cartItems, CartItemLine, CartItemCart, c);
    RefsAfterDrop(r.cartItems, CartItemCart, db.carts, CartKey, c);
  }

  /** A product is protected exactly while an order item refers to it. */
  lemma DeleteProductProtected(db: Db, p: Id)
    ensures DeleteProduct(db, p).Failure? <==> exists i :: i in db.orderItems && i.product == p
  {
  }

  /**
   * A permitted product delete removes the product, exactly its cart items,
   * reviews and images, clears it as a featured product, and keeps everything else.
   */
  lemma DeleteProductCascades(db: Db, p: Id)
    requires DeleteProduct(db, p).Success?
    ensures var r := DeleteProduct(db, p).value;
      && !HasKey(r.products, ProductKey, p)
      && (forall x :: x in r.products <==> x in db.products && x.id != p)
      && (forall x :: x in r.cartItems <==> x in db.cartItems && x.product != p)
      && (forall x :: x in r.reviews <==> x in db.reviews && x.product != p)
      && (forall x :: x in r.images <==> x in db.images && x.product != p)
      && (forall c :: c in r.collections ==> c.featuredProduct != Some(p))
      && r.orderItems == db.orderItems && r.orders == db.orders && r.carts == db.carts
      && r.customers == db.customers && r.addresses == db.addresses
  {
    var r := DeleteProduct(db, p).value;
    forall c | c in r.collections ensures c.featuredProduct != Some(p) {
      var i :| 0 <= i < |r.collections| && r.collections[i] == c;
    }
  }

  lemma DeleteProductPreservesValid(db: Db, p: Id)
    requires Valid(db) && DeleteProduct(db, p).Success?
    ensures Valid(DeleteProduct(db, p).value)
  {
    DeleteProductKeepsKeys(db, p);
    DeleteProductKeepsFeatured(db, p);
    DeleteProductKeepsRefs(db, p);
  }

  lemma DeleteProductKeepsKeys(db: Db, p: Id)
    requires KeysDistinct(db) && Distinct(db.cartItems, CartItemLine)
    requires DeleteProduct(db, p).Success?
    ensures KeysDistinct(DeleteProduct(db, p).value)
    ensures Distinct(DeleteProduct(db, p).value.cartItems, CartItemLine)
  {
    ClearFeaturedKeys(db.collections, p);
    DropDistinct(db.products, ProductKey, ProductKey, p);
    DropDistinct(db.cartItems, CartItemKey, CartItemProduct, p);
    DropDistinct(db.reviews, ReviewKey, ReviewProduct, p);
    DropDistinct(db.images, ImageKey, ImageProduct, p);
    DropDistinct(db.cartItems, CartItemLine, CartItemProduct, p);
  }

  /** SET_NULL leaves no featured product dangling, and the collections products point to remain. */
  lemma DeleteProductKeepsFeatured(db: Db, p: Id)
    requires ReferencesResolve(db) && DeleteProduct(db, p).Success?
    ensures var r := DeleteProduct(db, p).value;
      && FeaturedResolve(r.collections, r.products)
      && RefsIn(r.products, ProductCollection, r.collections, CollectionKey)
  {
    var r := DeleteProduct(db, p).value;
    ClearFeaturedKeys(db.collections, p);
    forall c | c in r.collections && c.featuredProduct.Some?
      ensures HasKey(r.products, ProductKey, c.featuredProduct.value)
    {
      var i :| 0 <= i < |r.collections| && r.collections[i] == c;
      assert db.collections[i] in db.collections;
      var y :| y in db.products && y.id == c.featuredProduct.value;
      assert y in r.products;
    }
  }

  /** No remaining row refers to the deleted product. */
  lemma DeleteProductKeepsRefs(db: Db, p: Id)
    requires ReferencesResolve(db) && DeleteProduct(db, p).Success?
    ensures var r := DeleteProduct(db, p).value;
      && RefsIn(r.cartItems, CartItemProduct, r.products, ProductKey)
      && RefsIn(r.orderItems, OrderItemProduct, r.products, ProductKey)
      && RefsIn(r.reviews, ReviewProduct, r.products, ProductKey)
      && RefsIn(r.images, ImageProduct, r.products, ProductKey)
  {
    var r := DeleteProduct(db, p).value;
    RefsAfterDrop(r.cartItems, CartItemProduct, db.products, ProductKey, p);
    RefsAfterDrop(r.orderItems, OrderItemProduct, db.products, ProductKey, p);
    RefsAfterDrop(r.reviews, ReviewProduct, db.products, ProductKey, p);
    RefsAfterDrop(r.images, ImageProduct, db.products, ProductKey, p);
  }

  /** Clearing featured products changes no collection's key. */
  lemma ClearFeaturedKeys(collections: seq<Collection>, p: Id)
    ensures Distinct(collections, CollectionKey) ==> Distinct(ClearFeatured(collections, p), CollectionKey)
    ensures forall k :: HasKey(ClearFeatured(collections, p), CollectionKey, k) <==> HasKey(collections, CollectionKey, k)
  {
    var r := ClearFeatured(collections, p);
    if Distinct(collections, CollectionKey) {
      SameKeysDistinct(collections, r, CollectionKey, CollectionKey);
    }
    forall k ensures HasKey(r, CollectionKey, k) <==> HasKey(collections, CollectionKey, k) {
      SameKeysHasKey(collections, r, CollectionKey, CollectionKey, k);
    }
  }

  /** A collection is protected exactly while a product belongs to it; otherwise only the collection goes. */
  lemma DeleteCollectionRule(db: Db, k: Id)
    ensures DeleteCollection(db, k).Failure? <==> exists p :: p in db.products && p.collection == k
    ensures DeleteCollection(db, k).Success? ==>
      var r := DeleteCollection(db, k).value;
      (forall c :: c in r.collections <==> c in db.collections && c.id != k)
      && r.(collections := db.collections) == db
  {
  }

  lemma DeleteCollectionPreservesValid(db: Db, k: Id)
    requires Valid(db) && DeleteCollection(db, k).Success?
    ensures Valid(DeleteCollection(db, k).value)
  {
    var r := DeleteCollection(db, k).value;
    DropDistinct(db.collections, CollectionKey, CollectionKey, k);
    RefsAfterDrop(r.products, ProductCollection, db.collections, CollectionKey, k);
  }

  /** A customer is protected exactly while an order refers to it; otherwise it goes with exactly its addresses. */
  lemma DeleteCustomerRule(db: Db, k: Id)
    ensures DeleteCustomer(db, k).Failure? <==> exists o :: o in db.orders && o.customer == k
    ensures DeleteCustomer(db, k).Success? ==>
      var r := DeleteCustomer(db, k).value;
      (forall c :: c in r.customers <==> c in db.customers && c.id != k)
      && (forall a :: a in r.addresses <==> a in db.addresses && a.customer != k)
      && r.(customers := db.customers, addresses := db.addresses) == db
  {
  }

  lemma DeleteCustomerPreservesValid(db: Db, k: Id)
    requires Valid(db) && DeleteCustomer(db, k).Success?
    ensures Valid(DeleteCustomer(db, k).value)
  {
    var r := DeleteCustomer(db, k).value;
    DropDistinct(db.customers, CustomerKey, CustomerKey, k);
    DropDistinct(db.customers, CustomerUser, CustomerKey, k);
    DropDistinct(db.addresses, AddressKey, AddressCustomer, k);
    RefsAfterDrop(r.orders, OrderCustomer, db.customers, CustomerKey, k);
    RefsAfterDrop(r.addresses, AddressCustomer, db.customers, CustomerKey, k);
  }

  /** An order is protected exactly while it has items; otherwise only the order goes. */
  lemma DeleteOrderRule(db: Db, k: Id)
    ensures DeleteOrder(db, k).Failure? <==> exists i :: i in db.orderItems && i.order == k
    ensures DeleteOrder(db, k).Success? ==>
      var r := DeleteOrder(db, k).value;
      (forall o :: o in r.orders <==> o in db.orders && o.id != k)
      && r.(orders := db.orders) == db
  {
  }

  lemma DeleteOrderPreservesValid(db: Db, k: Id)
    requires Valid(db) && DeleteOrder(db, k).Success?
    ensures Valid(DeleteOrder(db, k).value)
  {
    var r := DeleteOrder(db, k).value;
    DropDistinct(db.orders, OrderKey, OrderKey, k);
    RefsAfterDrop(r.orderItems, OrderItemOrder, db.orders, OrderKey, k);
  }
}
