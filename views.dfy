/**
 * The view sets' logic on the database value: the filtered querysets, the
 * order endpoint's permissions and ownership filter, the guarded deletes of
 * products and collections, the customer's get-or-create `me` endpoint and
 * order creation.
 */
module Views {
  import opened Wrappers
  import opened Tables
  import opened Models
  import opened Serializers

  /** The HTTP outcomes the views produce besides success. */
  datatype ViewError =
    | BadRequest          // 400: a serializer validation error
    | NotAuthenticated    // 401
    | PermissionDenied    // 403
    | NotFound            // 404: the object is not in the view's queryset
    | MethodNotAllowed    // 405: a method outside http_method_names, or a refused delete
    | ServerError         // 500: an exception the view does not handle

  datatype HttpMethod = GET | POST | PUT | PATCH | DELETE | HEAD | OPTIONS

  /** The requesting user: anonymous, or an authenticated user with its staff flag. */
  datatype Principal = Anonymous | User(id: Id, isStaff: bool)

  // --------------------------------------------------------------- querysets

  /**
   * ProductViewSet.get_queryset: all products, narrowed to one collection when
   * the `collection_id` query parameter is present. The rows stay in table
   * order; Product's `Meta.ordering` by title is not applied.
   */
  function ProductList(db: Db, collectionId: Option<int>): (r: seq<Product>)
    ensures collectionId.None? ==> r == db.products
    ensures collectionId.Some? ==>
      && (forall x :: x in r ==> x in db.products && x.collection == collectionId.value)
      && (forall x :: x in db.products && x.collection == collectionId.value ==> x in r)
  {
    match collectionId
    case None => db.products
    case Some(c) => if c < 0 then [] else Keep(db.products, ProductCollection, c as Id)
  }

  /** CartItemViewSet.get_queryset: the items of the cart in the URL. */
  function CartItemList(db: Db, cart: Id): (r: seq<CartItem>)
    ensures forall x :: x in r ==> x in db.cartItems && x.cart == cart
    ensures forall x :: x in db.cartItems && x.cart == cart ==> x in r
  {
    CartItemsOf(db, cart)
  }

  /** ReviewViewSet.get_queryset: the reviews of the product in the URL. */
  function ReviewList(db: Db, product: Id): (r: seq<Review>)
    ensures forall x :: x in r ==> x in db.reviews && x.product == product
    ensures forall x :: x in db.reviews && x.product == product ==> x in r
  {
    Keep(db.reviews, ReviewProduct, product)
  }

  /** The cart-item list contains each line at most once, in a valid database. */
  lemma CartItemListLinesDistinct(db: Db, cart: Id)
    requires Valid(db)
    ensures forall i, j :: 0 <= i < j < |CartItemList(db, cart)| ==>
      CartItemList(db, cart)[i].product != CartItemList(db, cart)[j].product
  {
    var s := CartItemList(db, cart);
    forall i, j | 0 <= i < j < |s| ensures s[i].product != s[j].product {
      KeepDistinctAt(db.cartItems, cart, i, j);
    }
  }

  /** Items kept from one cart with distinct (cart, product) lines have distinct products. */
  lemma {:induction false} KeepDistinctAt(s: seq<CartItem>, cart: Id, i: nat, j: nat)
    requires Distinct(s, CartItemLine)
    requires i < j < |Keep(s, CartItemCart, cart)|
    ensures Keep(s, CartItemCart, cart)[i].product != Keep(s, CartItemCart, cart)[j].product
  {
    var k := Keep(s, CartItemCart, cart);
    if s[0].cart == cart {
      assert k == [s[0]] + Keep(s[1..], CartItemCart, cart);
      if i == 0 {
        var y := k[j];
        assert y in Keep(s[1..], CartItemCart, cart);
        assert y in s[1..] && y.cart == cart;
        assert CartItemLine(y) != CartItemLine(s[0]);
      } else {
        KeepDistinctAt(s[1..], cart, i - 1, j - 1);
      }
    } else {
      assert k == Keep(s[1..], CartItemCart, cart);
      KeepDistinctAt(s[1..], cart, i, j);
    }
  }

  // ------------------------------------------------------------------ orders

  /**
   * OrderViewSet's permission check and method list, in the order DRF applies
   * them: PATCH and DELETE need a staff user, every other method an
   * authenticated one (an anonymous request is answered 401, a non-staff one
   * 403), and only then is a method outside http_method_names refused with 405.
   */
  function OrderAccess(m: HttpMethod, p: Principal): (r: Outcome<ViewError>)
    ensures r == Fail(NotAuthenticated) <==> p.Anonymous?
    ensures r == Fail(PermissionDenied) <==> p.User? && !p.isStaff && (m == PATCH || m == DELETE)
    ensures r == Fail(MethodNotAllowed) <==> p.User? && m == PUT
    ensures r == Pass <==> p.User? && m != PUT && (p.isStaff || (m != PATCH && m != DELETE))
  {
    if p.Anonymous? then Fail(NotAuthenticated)
    else if (m == PATCH || m == DELETE) && !p.isStaff then Fail(PermissionDenied)
    else if m == PUT then Fail(MethodNotAllowed)
    else Pass
  }

  /**
   * OrderViewSet.get_queryset: a staff user sees every order; any other user
   * sees only the orders of its own customer, and a user without a customer
   * row makes `Customer.objects.get` raise.
   */
  function OrderList(db: Db, p: Principal): (r: Result<seq<Order>, ViewError>)
    ensures p.User? && p.isStaff ==> r == Success(db.orders)
    ensures (p.Anonymous? || !p.isStaff) ==>
      (r.Failure? <==> p.Anonymous? || !HasKey(db.customers, CustomerUser, p.id))
    ensures r.Failure? ==> r.error == ServerError
  {
    if p.Anonymous? then Failure(ServerError)
    else if p.isStaff then Success(db.orders)
    else
      match Find(db.customers, CustomerUser, p.id)
      case None => Failure(ServerError)
      case Some(c) => Success(Keep(db.orders, OrderCustomer, c.id))
  }

  /**
   * A non-staff user's list is exactly the orders of the customer that belongs
   * to that user: none of another user's orders, and none of its own missing.
   */
  lemma OrderListOwnership(db: Db, uid: Id, c: Customer)
    requires Valid(db) && c in db.customers && c.user == uid
    ensures OrderList(db, User(uid, false)).Success?
    ensures var r := OrderList(db, User(uid, false)).value;
      && (forall o :: o in r ==> o in db.orders && o.customer == c.id)
      && (forall o :: o in db.orders && o.customer == c.id ==> o in r)
  {
    FindDistinct(db.customers, CustomerUser, c);
  }

  /** Under a unique customer-per-user constraint, two users' order lists never share an order. */
  lemma OrderListsDisjoint(db: Db, u1: Id, u2: Id)
    requires Valid(db) && u1 != u2
    requires OrderList(db, User(u1, false)).Success? && OrderList(db, User(u2, false)).Success?
    ensures forall o :: o in OrderList(db, User(u1, false)).value ==> o !in OrderList(db, User(u2, false)).value
  {
    var c1 := Find(db.customers, CustomerUser, u1).value;
    var c2 := Find(db.customers, CustomerUser, u2).value;
    CustomerKeysDiffer(db.customers, c1, c2);
  }

  /** Two different customer rows have different keys. */
  lemma CustomerKeysDiffer(s: seq<Customer>, x: Customer, y: Customer)
    requires Distinct(s, CustomerKey) && x in s && y in s && x != y
    ensures x.id != y.id
  {
    FindDistinct(s, CustomerKey, x);
    FindDistinct(s, CustomerKey, y);
  }

  /**
   * OrderViewSet.create as written: after validation the view calls
   * `self.save()`, which a view set does not have, so an authenticated request
   * with a valid cart ends in a server error and no order is created.
   */
  function CreateOrderAsWritten(db: Db, p: Principal, cart: Id): (Db, Result<Order, ViewError>) {
    match OrderAccess(POST, p)
    case Fail(e) => (db, Failure(e))
    case Pass =>
      if ValidateCartId(db, cart).Fail? then (db, Failure(BadRequest))
      else (db, Failure(ServerError))
  }

  /** As written, order creation never creates an order and never changes the database. */
  lemma CreateOrderAsWrittenNeverPlaces(db: Db, p: Principal, cart: Id)
    ensures CreateOrderAsWritten(db, p, cart).0 == db
    ensures CreateOrderAsWritten(db, p, cart).1.Failure?
    ensures p.User? && ValidateCartId(db, cart) == Pass ==>
      CreateOrderAsWritten(db, p, cart).1 == Failure(ServerError)
  {
  }

  /**
   * OrderViewSet.create as intended: the permission check, then
   * CreateOrderSerializer's validation (400), then its save, where a user
   * without a customer row makes `Customer.objects.get` raise (500).
   */
  function CreateOrder(db: Db, p: Principal, cart: Id, now: Timestamp): (Db, Result<Order, ViewError>) {
    match OrderAccess(POST, p)
    case Fail(e) => (db, Failure(e))
    case Pass =>
      var r := PlaceOrder(db, cart, p.id, now);
      match r.1
      case Success(o) => (r.0, Success(o))
      case Failure(CustomerNotFound) => (db, Failure(ServerError))
      case Failure(_) => (db, Failure(BadRequest))
  }

  /**
   * The corrected endpoint places exactly the order checkout places, for any
   * authenticated user whose cart validates and who has a customer row; an
   * authenticated user's request fails only for those reasons.
   */
  lemma CreateOrderPlaces(db: Db, uid: Id, staff: bool, cart: Id, now: Timestamp)
    ensures var r := CreateOrder(db, User(uid, staff), cart, now);
      var q := PlaceOrder(db, cart, uid, now);
      && (r.1.Success? <==> q.1.Success?)
      && (q.1.Success? ==> r == (q.0, Success(q.1.value)))
      && (r.1 == Failure(BadRequest) <==> ValidateCartId(db, cart).Fail?)
      && (r.1.Failure? ==> r.0 == db)
  {
    PlaceOrderOutcome(db, cart, uid, now);
  }

  lemma CreateOrderPreservesValid(db: Db, p: Principal, cart: Id, now: Timestamp)
    requires Valid(db)
    ensures Valid(CreateOrder(db, p, cart, now).0)
  {
    if p.User? {
      PlaceOrderPreservesValid(db, cart, p.id, now);
    }
  }

  // ---------------------------------------------------------- product update

  /**
   * PATCH /products/{pk}/: get_object looks `pk` up in the filtered queryset
   * (404), the serializer validates the price (400), and update saves it; a
   * request without a price makes the save violate NOT NULL (500).
   */
  function UpdateProduct(db: Db, pk: Id, collectionId: Option<int>, price: Option<Cents>)
    : (Db, Result<Product, ViewError>)
  {
    if !HasKey(ProductList(db, collectionId), ProductKey, pk) then (db, Failure(NotFound))
    else
      var r := UpdateUnitPrice(db, pk, price);
      match r.1
      case Success(p) => (r.0, Success(p))
      case Failure(ProductMissing) => (db, Failure(NotFound))
      case Failure(PriceRequired) => (db, Failure(ServerError))
      case Failure(InvalidPrice) => (db, Failure(BadRequest))
  }

  /**
   * The update outcomes: 404 exactly when no product `pk` is in the (filtered)
   * list; otherwise 500 exactly without a price and 400 exactly for a price
   * outside 1.00..9999.99; otherwise the serializer's update. Refusals change nothing.
   */
  lemma UpdateProductOutcome(db: Db, pk: Id, collectionId: Option<int>, price: Option<Cents>)
    ensures var r := UpdateProduct(db, pk, collectionId, price);
      var listed := exists x :: x in db.products && x.id == pk
                                && (collectionId.None? || x.collection == collectionId.value);
      && (r.1 == Failure(NotFound) <==> !listed)
      && (r.1 == Failure(ServerError) <==> listed && price.None?)
      && (r.1 == Failure(BadRequest) <==> listed && price.Some? && !ValidUnitPrice(price.value))
      && (r.1.Failure? ==> r.0 == db)
      && (r.1.Success? ==> UpdateUnitPrice(db, pk, price) == (r.0, Success(r.1.value)))
  {
    var l := ProductList(db, collectionId);
    if exists x :: x in db.products && x.id == pk && (collectionId.None? || x.collection == collectionId.value) {
      var x :| x in db.products && x.id == pk && (collectionId.None? || x.collection == collectionId.value);
      assert x in l;
    }
  }

  lemma UpdateProductPreservesValid(db: Db, pk: Id, collectionId: Option<int>, price: Option<Cents>)
    requires Valid(db)
    ensures Valid(UpdateProduct(db, pk, collectionId, price).0)
  {
    UpdateUnitPricePreservesValid(db, pk, price);
  }

  // ----------------------------------------------------------------- deletes

  /**
   * ProductViewSet.destroy: refused with 405 while any order item refers to the
   * product (checked first, on the raw key); otherwise the product must be in
   * the filtered queryset (404) and is deleted with its cascades.
   */
  function DestroyProduct(db: Db, pk: Id, collectionId: Option<int>): (Db, Outcome<ViewError>) {
    if HasKey(db.orderItems, OrderItemProduct, pk) then (db, Fail(MethodNotAllowed))
    else if !HasKey(ProductList(db, collectionId), ProductKey, pk) then (db, Fail(NotFound))
    else
      match DeleteProduct(db, pk)
      case Success(d) => (d, Pass)
      case Failure(_) => (db, Fail(ServerError))
  }

  /**
   * The destroy outcomes: 405 exactly when an order item refers to the product,
   * otherwise 404 exactly when the product is not in the (filtered) list,
   * otherwise the delete with its cascades; refusals change nothing.
   */
  lemma DestroyProductOutcome(db: Db, pk: Id, collectionId: Option<int>)
    ensures var r := DestroyProduct(db, pk, collectionId);
      && (r.1 == Fail(MethodNotAllowed) <==> exists x :: x in db.orderItems && x.product == pk)
      && (r.1 == Fail(NotFound) <==>
            (forall x :: x in db.orderItems ==> x.product != pk)
            && (forall x :: x in db.products && x.id == pk ==>
                  collectionId.Some? && x.collection != collectionId.value))
      && (r.1 != Pass ==> r.0 == db)
      && (r.1 == Pass ==> DeleteProduct(db, pk) == Success(r.0))
      && r.1 != Fail(ServerError)
  {
    var l := ProductList(db, collectionId);
    if !HasKey(db.orderItems, OrderItemProduct, pk) && HasKey(db.products, ProductKey, pk) {
      var x :| x in db.products && x.id == pk;
      if collectionId.None? || x.collection == collectionId.value {
        assert x in l;
      }
    }
  }

  lemma DestroyProductPreservesValid(db: Db, pk: Id, collectionId: Option<int>)
    requires Valid(db)
    ensures Valid(DestroyProduct(db, pk, collectionId).0)
  {
    if DeleteProduct(db, pk).Success? {
      DeleteProductPreservesValid(db, pk);
    }
  }

  /** A product that appears in an order can never be destroyed: it and its order items stay. */
  lemma OrderedProductSurvives(db: Db, pk: Id, collectionId: Option<int>, o: OrderItem)
    requires o in db.orderItems && o.product == pk
    ensures DestroyProduct(db, pk, collectionId) == (db, Fail(MethodNotAllowed))
  {
  }

  /**
   * CollectionViewSet.destroy: refused with 405 while any product belongs to the
   * collection; otherwise 404 for a missing collection, else the delete.
   */
  function DestroyCollection(db: Db, pk: Id): (Db, Outcome<ViewError>) {
    if HasKey(db.products, ProductCollection, pk) then (db, Fail(MethodNotAllowed))
    else if !HasKey(db.collections, CollectionKey, pk) then (db, Fail(NotFound))
    else
      match DeleteCollection(db, pk)
      case Success(d) => (d, Pass)
      case Failure(_) => (db, Fail(ServerError))
  }

  lemma DestroyCollectionOutcome(db: Db, pk: Id)
    ensures var r := DestroyCollection(db, pk);
      && (r.1 == Fail(MethodNotAllowed) <==> exists x :: x in db.products && x.collection == pk)
      && (r.1 == Fail(NotFound) <==>
            (forall x :: x in db.products ==> x.collection != pk)
            && (forall x :: x in db.collections ==> x.id != pk))
      && (r.1 != Pass ==> r.0 == db)
      && (r.1 == Pass ==> r.0 == db.(collections := Drop(db.collections, CollectionKey, pk)))
      && r.1 != Fail(ServerError)
  {
  }

  lemma DestroyCollectionPreservesValid(db: Db, pk: Id)
    requires Valid(db)
    ensures Valid(DestroyCollection(db, pk).0)
  {
    if DeleteCollection(db, pk).Success? {
      DeleteCollectionPreservesValid(db, pk);
    }
  }

  // --------------------------------------------------------------- customers

  /**
   * CustomerViewSet.me: the customer of the requesting user, created with the
   * model's defaults (empty phone, no birth date, Bronze) when it has none.
   */
  function Me(db: Db, user: Id): (Db, Customer) {
    match Find(db.customers, CustomerUser, user)
    case Some(c) => (db, c)
    case None =>
      var c := NewCustomer(NextId(db.customers, CustomerKey), user);
      (db.(customers := db.customers + [c]), c)
  }

  /**
   * The returned customer belongs to the user; an existing one is returned with
   * no change, otherwise exactly one default customer with a fresh key is added.
   */
  lemma MeFindsOrCreates(db: Db, user: Id)
    requires Valid(db)
    ensures var r := Me(db, user);
      && r.1.user == user && r.1 in r.0.customers
      && (forall c :: c in db.customers && c.user == user ==> r == (db, c))
      && (!HasKey(db.customers, CustomerUser, user) ==>
            && r.0 == db.(customers := db.customers + [r.1])
            && !HasKey(db.customers, CustomerKey, r.1.id)
            && r.1.membership == DefaultMembership && r.1.birthDate.None? && r.1.phone == "")
  {
    forall c | c in db.customers && c.user == user ensures Me(db, user) == (db, c) {
      FindDistinct(db.customers, CustomerUser, c);
    }
  }

  /** A second `me` request returns the same customer and changes nothing. */
  lemma MeIdempotent(db: Db, user: Id)
    requires Valid(db)
    ensures var r := Me(db, user); Me(r.0, user) == r
  {
    var r := Me(db, user);
    MeFindsOrCreates(db, user);
    MePreservesValid(db, user);
    FindDistinct(r.0.customers, CustomerUser, r.1);
  }

  lemma MePreservesValid(db: Db, user: Id)
    requires Valid(db)
    ensures Valid(Me(db, user).0)
  {
    var r := Me(db, user);
    if !HasKey(db.customers, CustomerUser, user) {
      SnocDistinct(db.customers, r.1, CustomerKey);
      SnocDistinct(db.customers, r.1, CustomerUser);
      RefsAfterGrow(db.orders, OrderCustomer, db.customers, CustomerKey, [r.1]);
      RefsAfterGrow(db.addresses, AddressCustomer, db.customers, CustomerKey, [r.1]);
    }
  }

  // ------------------------------------------------------------------- carts

  /**
   * CartViewSet's create: a new, empty cart under the given (generated) UUID,
   * refused when that key is already taken.
   */
  function CreateCart(db: Db, id: Id, now: Timestamp): (Db, Result<Cart, ViewError>) {
    if HasKey(db.carts, CartKey, id) then (db, Failure(ServerError))
    else
      var c := Cart(id, now);
      (db.(carts := db.carts + [c]), Success(c))
  }

  /** A created cart is new and empty; a taken key changes nothing. */
  lemma CreateCartIsEmpty(db: Db, id: Id, now: Timestamp)
    requires Valid(db)
    ensures var r := CreateCart(db, id, now);
      && (r.1.Failure? <==> HasKey(db.carts, CartKey, id))
      && (r.1.Failure? ==> r.0 == db)
      && (r.1.Success? ==> r.1.value.id == id && CartItemsOf(r.0, id) == []
                           && r.0 == db.(carts := db.carts + [r.1.value]))
  {
    forall x | x in db.cartItems ensures x.cart != id || HasKey(db.carts, CartKey, id) {
    }
    if !HasKey(db.carts, CartKey, id) {
      KeepNone(db.cartItems, CartItemCart, id);
    }
  }

  lemma CreateCartPreservesValid(db: Db, id: Id, now: Timestamp)
    requires Valid(db)
    ensures Valid(CreateCart(db, id, now).0)
  {
    var r := CreateCart(db, id, now);
    if r.1.Success? {
      SnocDistinct(db.carts, r.1.value, CartKey);
      RefsAfterGrow(db.cartItems, CartItemCart, db.carts, CartKey, [r.1.value]);
    }
  }
}
