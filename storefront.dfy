/**
 * The storefront database as mutable state: one field per table, updated in
 * place by the operations the serializers and views perform. Every method is
 * proved to leave the tables exactly as the corresponding transition function
 * on the database value does, and to keep the database consistent.
 */
module Storefront {
  import opened Wrappers
  import opened Tables
  import opened Models
  import opened Validators
  import Serializers
  import Views

  class Store {
    var collections: seq<Collection>
    var products: seq<Product>
    var customers: seq<Customer>
    var addresses: seq<Address>
    var carts: seq<Cart>
    var cartItems: seq<CartItem>
    var orders: seq<Order>
    var orderItems: seq<OrderItem>
    var reviews: seq<Review>
    var images: seq<ProductImage>
    /** The orders announced through the `order_created` signal, in order. */
    var orderCreated: seq<Id>

    /** The tables as one database value. */
    function State(): Db
      reads this
    {
      Db(collections, products, customers, addresses, carts, cartItems, orders, orderItems, reviews, images)
    }

    ghost predicate Consistent()
      reads this
    {
      Valid(State())
    }

    /** A store over an existing consistent database, with no signal sent yet. */
    constructor(db: Db)
      requires Valid(db)
      ensures State() == db && orderCreated == [] && Consistent()
    {
      collections := db.collections;
      products := db.products;
      customers := db.customers;
      addresses := db.addresses;
      carts := db.carts;
      cartItems := db.cartItems;
      orders := db.orders;
      orderItems := db.orderItems;
      reviews := db.reviews;
      images := db.images;
      orderCreated := [];
    }

    /**
     * POST /orders/ (CreateOrderSerializer.save): validate the cart, create the
     * order, build the order items one by one from the cart's items at the
     * current prices, bulk-create them, delete the cart and send `order_created`.
     */
    method PlaceOrder(cart: Id, user: Id, now: Timestamp) returns (r: Result<Order, Serializers.CheckoutError>)
      requires Consistent()
      modifies this
      ensures (State(), r) == Serializers.PlaceOrder(old(State()), cart, user, now)
      ensures orderCreated == old(orderCreated) + (if r.Success? then [r.value.id] else [])
      ensures Consistent()
    {
      ghost var before := State();
      ghost var spec := Serializers.PlaceOrder(before, cart, user, now);
      Serializers.PlaceOrderPreservesValid(before, cart, user, now);
      var v := Serializers.ValidateCartId(State(), cart);
      if v.Fail? {
        return Failure(v.error);
      }
      var customer := Find(customers, CustomerUser, user);
      if customer.None? {
        return Failure(Serializers.CustomerNotFound);
      }
      var order := NewOrder(NextId(orders, OrderKey), now, customer.value.id);
      var items := Keep(cartItems, CartItemCart, cart);
      var batch := SnapshotItems(items, products, order.id, NextId(orderItems, OrderItemKey));
      ghost var placed := before.(orders := orders + [order], orderItems := orderItems + batch);
      assert spec == (DeleteCart(placed, cart), Success(order));
      Commit(order, batch, cart);
      r := Success(order);
    }

    /** The writes of a checkout, inside its transaction: the order, its items, the cart's deletion, the signal. */
    method Commit(order: Order, batch: seq<OrderItem>, cart: Id)
      modifies this
      ensures State() == DeleteCart(old(State()).(orders := old(orders) + [order],
                                                  orderItems := old(orderItems) + batch), cart)
      ensures orderCreated == old(orderCreated) + [order.id]
    {
      var os, lines, cs, items := orders + [order], orderItems + batch,
        Drop(carts, CartKey, cart), Drop(cartItems, CartItemCart, cart);
      orders, orderItems, carts, cartItems := os, lines, cs, items;
      orderCreated := orderCreated + [order.id];
    }

    /**
     * POST /carts/{cart}/items/ (AddCartItemSerializer.save): increment the
     * existing (cart, product) item in place, or insert a new one.
     */
    method AddCartItem(cart: Id, product: int, quantity: int) returns (r: Result<CartItem, Serializers.AddItemError>)
      requires Consistent()
      modifies this
      ensures (State(), r) == Serializers.AddCartItem(old(State()), cart, product, quantity)
      ensures orderCreated == old(orderCreated)
      ensures Consistent()
    {
      ghost var before := State();
      ghost var spec := Serializers.AddCartItem(before, cart, product, quantity);
      Serializers.AddCartItemPreservesValid(before, cart, product, quantity);
      if Serializers.ValidateProductId(State(), product).Fail? {
        return Failure(Serializers.UnknownProduct);
      }
      if !Serializers.ValidQuantity(quantity) {
        return Failure(Serializers.InvalidQuantity);
      }
      var i := IndexOf(cartItems, CartItemLine, (cart, product as Id));
      if i.Some? {
        var item := cartItems[i.value];
        if item.quantity + quantity > MaxQuantity {
          return Failure(Serializers.QuantityOverflow);
        }
        var updated := item.(quantity := item.quantity + quantity);
        assert spec == (before.(cartItems := cartItems[i.value := updated]), Success(updated));
        SetCartItems(cartItems[i.value := updated]);
        r := Success(updated);
      } else if !HasKey(carts, CartKey, cart) {
        r := Failure(Serializers.MissingCart);
      } else {
        var created := CartItem(NextId(cartItems, CartItemKey), cart, product as Id, quantity);
        assert spec == (before.(cartItems := cartItems + [created]), Success(created));
        SetCartItems(cartItems + [created]);
        r := Success(created);
      }
    }

    /** Saving the cart-item table. */
    method SetCartItems(items: seq<CartItem>)
      modifies this
      ensures State() == old(State()).(cartItems := items)
      ensures orderCreated == old(orderCreated)
    {
      cartItems := items;
    }

    /**
     * PATCH /products/{pk}/ (ProductViewSet with ProductSerializer.update): the
     * lookup in the filtered queryset, the price check, then the one row's new price.
     */
    method UpdateProduct(pk: Id, collectionId: Option<int>, price: Option<Cents>)
      returns (r: Result<Product, Views.ViewError>)
      requires Consistent()
      modifies this
      ensures (State(), r) == Views.UpdateProduct(old(State()), pk, collectionId, price)
      ensures orderCreated == old(orderCreated)
      ensures Consistent()
    {
      Views.UpdateProductPreservesValid(State(), pk, collectionId, price);
      if !HasKey(Views.ProductList(State(), collectionId), ProductKey, pk) {
        return Failure(Views.NotFound);
      }
      var i := IndexOf(products, ProductKey, pk);
      if i.None? {
        return Failure(Views.NotFound);
      }
      if price.None? {
        return Failure(Views.ServerError);
      }
      if !Serializers.PriceField(price.value) {
        return Failure(Views.BadRequest);
      }
      var updated := products[i.value].(unitPrice := price.value);
      products := products[i.value := updated];
      r := Success(updated);
    }

    /** POST /products/{product}/reviews/: field validation, then the new review row. */
    method CreateReview(product: Id, name: string, description: string, date: Date)
      returns (r: Result<Review, Serializers.AttachError>)
      requires Consistent()
      modifies this
      ensures (State(), r) == Serializers.CreateReview(old(State()), product, name, description, date)
      ensures orderCreated == old(orderCreated)
      ensures Consistent()
    {
      Serializers.CreateReviewPreservesValid(State(), product, name, description, date);
      if !Serializers.ReviewFields(name, description) {
        return Failure(Serializers.InvalidReview);
      }
      if !HasKey(products, ProductKey, product) {
        return Failure(Serializers.NoSuchProduct);
      }
      var rv := Review(NextId(reviews, ReviewKey), product, name, description, date);
      reviews := reviews + [rv];
      r := Success(rv);
    }

    /** ProductImageSerializer: the image field's checks, the size validator, then the new row; no route registers it. */
    method CreateImage(product: Id, file: UploadedFile, opens: bool)
      returns (r: Result<ProductImage, Serializers.AttachError>)
      requires Consistent()
      modifies this
      ensures (State(), r) == Serializers.CreateImage(old(State()), product, file, opens)
      ensures orderCreated == old(orderCreated)
      ensures Consistent()
    {
      Serializers.CreateImagePreservesValid(State(), product, file, opens);
      if !Serializers.ImageFieldAccepts(file, opens) {
        return Failure(Serializers.InvalidImage);
      }
      var check := ValidateFileSize(file);
      if check.Fail? {
        return Failure(Serializers.FileRejected(check.error));
      }
      if !HasKey(products, ProductKey, product) {
        return Failure(Serializers.NoSuchProduct);
      }
      var im := ProductImage(NextId(images, ImageKey), product, file.name);
      images := images + [im];
      r := Success(im);
    }

    /** DELETE /products/{pk}/ (ProductViewSet.destroy) with the cascades of its delete. */
    method DestroyProduct(pk: Id, collectionId: Option<int>) returns (r: Outcome<Views.ViewError>)
      requires Consistent()
      modifies this
      ensures (State(), r) == Views.DestroyProduct(old(State()), pk, collectionId)
      ensures orderCreated == old(orderCreated)
      ensures Consistent()
    {
      ghost var before := State();
      ghost var spec := Views.DestroyProduct(before, pk, collectionId);
      Views.DestroyProductPreservesValid(before, pk, collectionId);
      if HasKey(orderItems, OrderItemProduct, pk) {
        return Fail(Views.MethodNotAllowed);
      }
      if !HasKey(Views.ProductList(State(), collectionId), ProductKey, pk) {
        return Fail(Views.NotFound);
      }
      assert spec == (DeleteProduct(before, pk).value, Pass);
      DeleteProductRows(pk);
      r := Pass;
    }

    /** `instance.delete()` on a product no order item refers to: the row, its CASCADE and SET_NULL effects. */
    method DeleteProductRows(pk: Id)
      requires !HasKey(orderItems, OrderItemProduct, pk)
      modifies this
      ensures DeleteProduct(old(State()), pk) == Success(State())
      ensures orderCreated == old(orderCreated)
    {
      var ps, cs, items, rs, ims := Drop(products, ProductKey, pk), ClearFeatured(collections, pk),
        Drop(cartItems, CartItemProduct, pk), Drop(reviews, ReviewProduct, pk), Drop(images, ImageProduct, pk);
      products, collections, cartItems, reviews, images := ps, cs, items, rs, ims;
    }

    /** DELETE /collections/{pk}/ (CollectionViewSet.destroy). */
    method DestroyCollection(pk: Id) returns (r: Outcome<Views.ViewError>)
      requires Consistent()
      modifies this
      ensures (State(), r) == Views.DestroyCollection(old(State()), pk)
      ensures orderCreated == old(orderCreated)
      ensures Consistent()
    {
      Views.DestroyCollectionPreservesValid(State(), pk);
      if HasKey(products, ProductCollection, pk) {
        return Fail(Views.MethodNotAllowed);
      }
      if !HasKey(collections, CollectionKey, pk) {
        return Fail(Views.NotFound);
      }
      collections := Drop(collections, CollectionKey, pk);
      r := Pass;
    }

    /** GET /customers/me/: the user's customer, created on first use. */
    method Me(user: Id) returns (c: Customer)
      requires Consistent()
      modifies this
      ensures (State(), c) == Views.Me(old(State()), user)
      ensures orderCreated == old(orderCreated)
      ensures Consistent()
    {
      Views.MePreservesValid(State(), user);
      var found := Find(customers, CustomerUser, user);
      if found.Some? {
        return found.value;
      }
      c := NewCustomer(NextId(customers, CustomerKey), user);
      customers := customers + [c];
    }

    /** POST /carts/: a new empty cart under the generated key. */
    method CreateCart(id: Id, now: Timestamp) returns (r: Result<Cart, Views.ViewError>)
      requires Consistent()
      modifies this
      ensures (State(), r) == Views.CreateCart(old(State()), id, now)
      ensures orderCreated == old(orderCreated)
      ensures Consistent()
    {
      Views.CreateCartPreservesValid(State(), id, now);
      if HasKey(carts, CartKey, id) {
        return Failure(Views.ServerError);
      }
      var c := Cart(id, now);
      carts := carts + [c];
      r := Success(c);
    }
  }

  /**
   * The list comprehension in CreateOrderSerializer.save: one order item per
   * cart item, in order, numbered from `first`, with the price read now.
   */
  method SnapshotItems(items: seq<CartItem>, products: seq<Product>, order: Id, first: Id)
    returns (batch: seq<OrderItem>)
    ensures batch == Serializers.Snapshot(items, products, order, first)
  {
    batch := [];
    var k := 0;
    while k < |items|
      invariant 0 <= k <= |items| && |batch| == k
      invariant forall j :: 0 <= j < k ==>
        batch[j] == OrderItem(first + j, order, items[j].product, items[j].quantity,
                              PriceOf(products, items[j].product))
    {
      var item := items[k];
      batch := batch + [OrderItem(first + k, order, item.product, item.quantity, PriceOf(products, item.product))];
      k := k + 1;
    }
  }
}
