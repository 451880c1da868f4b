/**
 * The serializers' logic on the database value: cart and item totals, the
 * product-price update, review and image creation, the cart-item upsert and
 * checkout (validate the cart, create the order, snapshot the items with their
 * current prices, delete the cart, all or nothing).
 */
module Serializers {
  import opened Wrappers
  import opened Tables
  import opened Models
  import opened Validators

  // ---------------------------------------------------------------- totals

  /** CartItemSerializer.get_total_price: quantity times the product's current price. */
  function ItemTotal(products: seq<Product>, item: CartItem): Cents {
    item.quantity * PriceOf(products, item.product)
  }

  /** The sum of the items' totals. */
  function LinesTotal(products: seq<Product>, items: seq<CartItem>): (r: Cents)
    ensures ProductsValid(products) ==> r >= 0
  {
    if |items| == 0 then 0
    else
      assert ProductsValid(products) ==> PriceOf(products, items[0].product) >= 0;
      ItemTotal(products, items[0]) + LinesTotal(products, items[1..])
  }

  /** CartSerializer.get_total_price: the cart's items priced at the products' current prices. */
  function CartTotal(db: Db, cart: Id): Cents {
    LinesTotal(db.products, CartItemsOf(db, cart))
  }

  /** The sum of quantity times the frozen unit price over order items. */
  function OrderLinesTotal(items: seq<OrderItem>): Cents {
    if |items| == 0 then 0 else items[0].quantity * items[0].unitPrice + OrderLinesTotal(items[1..])
  }

  lemma {:induction false} LinesTotalAppend(products: seq<Product>, a: seq<CartItem>, b: seq<CartItem>)
    ensures LinesTotal(products, a + b) == LinesTotal(products, a) + LinesTotal(products, b)
  {
    if |a| == 0 {
      assert a + b == b;
    } else {
      assert (a + b)[1..] == a[1..] + b;
      LinesTotalAppend(products, a[1..], b);
    }
  }

  // -------------------------------------------------------- product update

  datatype UpdateError = ProductMissing | PriceRequired | InvalidPrice

  /**
   * The declared `price` DecimalField(max_digits=6, decimal_places=2) as written:
   * any value of at most four integer digits, negative ones included.
   */
  predicate PriceFieldAsWritten(price: Cents) {
    -MaxUnitPrice <= price <= MaxUnitPrice
  }

  /** The price field with the model's MinValueValidator(1) applied as well. */
  predicate PriceField(price: Cents) {
    ValidUnitPrice(price)
  }

  /**
   * Updating product `pk` (ProductSerializer.update): the view looks the product up,
   * the `price` field is validated by `accepts`, and only unit_price is assigned.
   * A request without a price leaves `validated_data.get('unit_price')` empty and the
   * save fails.
   */
  function UpdateUnitPriceWith(db: Db, pk: Id, price: Option<Cents>, accepts: Cents -> bool)
    : (Db, Result<Product, UpdateError>)
  {
    match IndexOf(db.products, ProductKey, pk)
    case None => (db, Failure(ProductMissing))
    case Some(i) =>
      if price.None? then (db, Failure(PriceRequired))
      else if !accepts(price.value) then (db, Failure(InvalidPrice))
      else
        var updated := db.products[i].(unitPrice := price.value);
        (db.(products := db.products[i := updated]), Success(updated))
  }

  /** The product update with the corrected price field; the rest of the model uses this one. */
  function UpdateUnitPrice(db: Db, pk: Id, price: Option<Cents>): (Db, Result<Product, UpdateError>) {
    UpdateUnitPriceWith(db, pk, price, PriceField)
  }

  /** ProductSerializer.update with the `price` field exactly as declared. */
  function UpdateUnitPriceAsWritten(db: Db, pk: Id, price: Option<Cents>): (Db, Result<Product, UpdateError>) {
    UpdateUnitPriceWith(db, pk, price, PriceFieldAsWritten)
  }

  /**
   * As declared, the price field lets 0.50 through: the update succeeds and the
   * product then violates the model's MinValueValidator(1).
   */
  lemma UpdateUnitPriceAsWrittenAcceptsCents(db: Db, pk: Id)
    requires Valid(db) && HasKey(db.products, ProductKey, pk)
    ensures var r := UpdateUnitPriceAsWritten(db, pk, Some(50));
      r.1.Success? && r.1.value.unitPrice == 50 && !Valid(r.0)
  {
    var r := UpdateUnitPriceAsWritten(db, pk, Some(50));
    var i := IndexOf(db.products, ProductKey, pk).value;
    assert r.0.products[i] == r.1.value;
    assert r.1.value in r.0.products;
  }

  /** The update fails on a missing product, a missing price or a rejected price, and then changes nothing. */
  lemma UpdateUnitPriceErrors(db: Db, pk: Id, price: Option<Cents>)
    ensures var r := UpdateUnitPrice(db, pk, price);
      && (r.1 == Failure(ProductMissing) <==> !HasKey(db.products, ProductKey, pk))
      && (r.1 == Failure(PriceRequired) <==> HasKey(db.products, ProductKey, pk) && price.None?)
      && (r.1 == Failure(InvalidPrice) <==>
            HasKey(db.products, ProductKey, pk) && price.Some? && !ValidUnitPrice(price.value))
      && (r.1.Failure? ==> r.0 == db)
  {
  }

  /**
   * A successful update changes the unit price of the one product `pk` and
   * nothing else: every other field of that row, every other row and every other table stay.
   */
  lemma UpdateUnitPriceOnlyChangesPrice(db: Db, pk: Id, price: Option<Cents>)
    requires Distinct(db.products, ProductKey)
    requires UpdateUnitPrice(db, pk, price).1.Success?
    ensures var r := UpdateUnitPrice(db, pk, price);
      && price.Some? && r.1.value.id == pk && r.1.value.unitPrice == price.value
      && |r.0.products| == |db.products|
      && (forall j :: 0 <= j < |db.products| ==>
            r.0.products[j] == if db.products[j].id == pk
                               then db.products[j].(unitPrice := price.value) else db.products[j])
      && r.0.(products := db.products) == db
  {
    var i := IndexOf(db.products, ProductKey, pk).value;
    forall j | 0 <= j < |db.products| && j != i ensures db.products[j].id != pk {
      if db.products[j].id == pk {
        IndexOfDistinct(db.products, ProductKey, j);
      }
    }
  }

  lemma UpdateUnitPricePreservesValid(db: Db, pk: Id, price: Option<Cents>)
    requires Valid(db)
    ensures Valid(UpdateUnitPrice(db, pk, price).0)
  {
    var r := UpdateUnitPrice(db, pk, price);
    if r.1.Success? {
      var i := IndexOf(db.products, ProductKey, pk).value;
      var ps := r.0.products;
      assert ps == db.products[i := r.1.value];
      SameKeysDistinct(db.products, ps, ProductKey, ProductKey);
      forall k ensures HasKey(ps, ProductKey, k) <==> HasKey(db.products, ProductKey, k) {
        SameKeysHasKey(db.products, ps, ProductKey, ProductKey, k);
      }
      forall x | x in ps
        ensures ValidUnitPrice(x.unitPrice) && x.inventory >= 1
        ensures HasKey(r.0.collections, CollectionKey, x.collection)
      {
        var j :| 0 <= j < |ps| && ps[j] == x;
        assert db.products[j] in db.products;
      }
      assert RefsIn(ps, ProductCollection, r.0.collections, CollectionKey);
    }
  }

  /** After a successful update, every item of that product in any cart is priced at the new price. */
  lemma CartPricesAreLive(db: Db, pk: Id, price: Cents, item: CartItem)
    requires Valid(db) && UpdateUnitPrice(db, pk, Some(price)).1.Success?
    requires item.product == pk
    ensures ItemTotal(UpdateUnitPrice(db, pk, Some(price)).0.products, item) == item.quantity * price
  {
    var r := UpdateUnitPrice(db, pk, Some(price));
    UpdateUnitPricePreservesValid(db, pk, Some(price));
    var i := IndexOf(db.products, ProductKey, pk).value;
    assert r.0.products[i] == r.1.value;
    PriceOfRow(r.0.products, r.1.value);
  }

  // ---------------------------------------------------- reviews and images

  datatype AttachError = InvalidReview | InvalidImage | NoSuchProduct | FileRejected(reason: FileSizeError)

  /** The longest review name: Review.name is a CharField(max_length=255). */
  const MaxReviewName := 255

  /**
   * The fields ReviewSerializer generates from Review: `name` and `description`
   * are required and may not be blank, and `name` holds at most 255 characters.
   */
  predicate ReviewFields(name: string, description: string) {
    0 < |name| <= MaxReviewName && |description| > 0
  }

  /**
   * POST /products/{product}/reviews/: the serializer's field validation (400),
   * then ReviewSerializer.create, a review for the product named in the URL,
   * whose foreign key must resolve.
   */
  function CreateReview(db: Db, product: Id, name: string, description: string, date: Date)
    : (Db, Result<Review, AttachError>)
  {
    if !ReviewFields(name, description) then (db, Failure(InvalidReview))
    else if !HasKey(db.products, ProductKey, product) then (db, Failure(NoSuchProduct))
    else
      var rv := Review(NextId(db.reviews, ReviewKey), product, name, description, date);
      (db.(reviews := db.reviews + [rv]), Success(rv))
  }

  /** The longest image file name: ImageField's default max_length. */
  const MaxImageName := 100

  /**
   * The `image` serializer field generated from models.ImageField: the file
   * needs a name of at most 100 characters and a non-zero size, and Pillow
   * must be able to open it. Image decoding is not modelled: `opens` is its
   * verdict, supplied by the caller.
   */
  predicate ImageFieldAccepts(file: UploadedFile, opens: bool) {
    0 < |file.name| <= MaxImageName && file.size > 0 && opens
  }

  /**
   * ProductImageSerializer: the image field's own checks (400), then the
   * file-size validator, then `create` attaches the image to the URL's product.
   */
  function CreateImage(db: Db, product: Id, file: UploadedFile, opens: bool)
    : (Db, Result<ProductImage, AttachError>)
  {
    if !ImageFieldAccepts(file, opens) then (db, Failure(InvalidImage))
    else
    match ValidateFileSize(file)
    case Fail(e) => (db, Failure(FileRejected(e)))
    case Pass =>
      if !HasKey(db.products, ProductKey, product) then (db, Failure(NoSuchProduct))
      else
        var im := ProductImage(NextId(db.images, ImageKey), product, file.name);
        (db.(images := db.images + [im]), Success(im))
  }

  /**
   * A review with invalid fields is refused first; otherwise it is attached to
   * exactly the context product, as one new row holding the submitted fields,
   * or not at all.
   */
  lemma CreateReviewAttaches(db: Db, product: Id, name: string, description: string, date: Date)
    ensures var r := CreateReview(db, product, name, description, date);
      && (r.1 == Failure(InvalidReview) <==> |name| == 0 || |name| > 255 || |description| == 0)
      && (r.1 == Failure(NoSuchProduct) <==>
            ReviewFields(name, description) && !HasKey(db.products, ProductKey, product))
      && (r.1.Failure? ==> r.0 == db)
      && (r.1.Success? ==>
            && r.1.value.product == product && r.1.value.name == name
            && r.1.value.description == description && r.1.value.date == date
            && r.0.reviews == db.reviews + [r.1.value]
            && !HasKey(db.reviews, ReviewKey, r.1.value.id)
            && r.0.(reviews := db.reviews) == db)
  {
  }

  /**
   * An image is attached to the context product only when the file is a
   * named, non-empty image, passes the size check, and the product exists;
   * the checks apply in that order.
   */
  lemma CreateImageAttaches(db: Db, product: Id, file: UploadedFile, opens: bool)
    ensures var r := CreateImage(db, product, file, opens);
      && (r.1 == Failure(InvalidImage) <==> |file.name| == 0 || |file.name| > 100 || file.size == 0 || !opens)
      && (r.1 == Failure(FileRejected(FileTooLarge(500))) <==> ImageFieldAccepts(file, opens) && file.size > 512000)
      && (r.1 == Failure(NoSuchProduct) <==>
            ImageFieldAccepts(file, opens) && file.size <= 512000 && !HasKey(db.products, ProductKey, product))
      && (r.1.Failure? ==> r.0 == db)
      && (r.1.Success? ==>
            && r.1.value.product == product && r.1.value.image == file.name
            && r.0.images == db.images + [r.1.value]
            && !HasKey(db.images, ImageKey, r.1.value.id)
            && r.0.(images := db.images) == db)
  {
  }

  lemma CreateReviewPreservesValid(db: Db, product: Id, name: string, description: string, date: Date)
    requires Valid(db)
    ensures Valid(CreateReview(db, product, name, description, date).0)
  {
    var r := CreateReview(db, product, name, description, date);
    if r.1.Success? {
      SnocDistinct(db.reviews, r.1.value, ReviewKey);
    }
  }

  lemma CreateImagePreservesValid(db: Db, product: Id, file: UploadedFile, opens: bool)
    requires Valid(db)
    ensures Valid(CreateImage(db, product, file, opens).0)
  {
    var r := CreateImage(db, product, file, opens);
    if r.1.Success? {
      SnocDistinct(db.images, r.1.value, ImageKey);
    }
  }

  // ------------------------------------------------------ cart-item upsert

  datatype AddItemError = UnknownProduct | InvalidQuantity | QuantityOverflow | MissingCart

  /** AddCartItemSerializer.validate_product_id: the product must exist. */
  function ValidateProductId(db: Db, product: int): (r: Outcome<AddItemError>)
    ensures r == Pass <==> product >= 0 && HasKey(db.products, ProductKey, product as Id)
  {
    if product < 0 || !HasKey(db.products, ProductKey, product as Id) then Fail(UnknownProduct) else Pass
  }

  /** The quantity field generated from PositiveIntegerField: 0 through 2147483647. */
  predicate ValidQuantity(quantity: int) {
    0 <= quantity <= MaxQuantity
  }

  /** `CartItem.objects.create(cart_id=..., **validated_data)`: the cart foreign key must resolve. */
  function InsertCartItem(db: Db, cart: Id, product: Id, quantity: nat): (Db, Result<CartItem, AddItemError>) {
    if !HasKey(db.carts, CartKey, cart) then (db, Failure(MissingCart))
    else
      var item := CartItem(NextId(db.cartItems, CartItemKey), cart, product, quantity);
      (db.(cartItems := db.cartItems + [item]), Success(item))
  }

  /**
   * AddCartItemSerializer.save, as the model corrects it: only a genuinely absent
   * (cart, product) item leads to a new row; an existing item's quantity is
   * incremented, and an increment that does not fit the column fails with no change.
   */
  function AddCartItem(db: Db, cart: Id, product: int, quantity: int): (Db, Result<CartItem, AddItemError>) {
    if ValidateProductId(db, product).Fail? then (db, Failure(UnknownProduct))
    else if !ValidQuantity(quantity) then (db, Failure(InvalidQuantity))
    else
      match IndexOf(db.cartItems, CartItemLine, (cart, product as Id))
      case Some(i) =>
        var item := db.cartItems[i];
        if item.quantity + quantity > MaxQuantity then (db, Failure(QuantityOverflow))
        else
          var updated := item.(quantity := item.quantity + quantity);
          (db.(cartItems := db.cartItems[i := updated]), Success(updated))
      case None => InsertCartItem(db, cart, product as Id, quantity)
  }

  /**
   * AddCartItemSerializer.save as written: `objects.get` must find exactly one row,
   * and ANY exception in the lookup-increment-save block (no row, several rows, or
   * a quantity the column cannot hold) falls through to creating a new row.
   */
  function AddCartItemAsWritten(db: Db, cart: Id, product: int, quantity: int): (Db, Result<CartItem, AddItemError>) {
    if ValidateProductId(db, product).Fail? then (db, Failure(UnknownProduct))
    else if !ValidQuantity(quantity) then (db, Failure(InvalidQuantity))
    else
      var found := Keep(db.cartItems, CartItemLine, (cart, product as Id));
      match IndexOf(db.cartItems, CartItemLine, (cart, product as Id))
      case Some(i) =>
        if |found| == 1 && db.cartItems[i].quantity + quantity <= MaxQuantity then
          var updated := db.cartItems[i].(quantity := db.cartItems[i].quantity + quantity);
          (db.(cartItems := db.cartItems[i := updated]), Success(updated))
        else InsertCartItem(db, cart, product as Id, quantity)
      case None => InsertCartItem(db, cart, product as Id, quantity)
  }

  /** The upsert is refused, with no change, for an unknown product or an out-of-range quantity, in that order. */
  lemma AddCartItemValidation(db: Db, cart: Id, product: int, quantity: int)
    ensures var r := AddCartItem(db, cart, product, quantity);
      && (r.1 == Failure(UnknownProduct) <==> product < 0 || !HasKey(db.products, ProductKey, product as Id))
      && (r.1 == Failure(InvalidQuantity) <==>
            product >= 0 && HasKey(db.products, ProductKey, product as Id) && !ValidQuantity(quantity))
      && (r.1.Failure? ==> r.0 == db)
  {
  }

  /** An existing (cart, product) item has its quantity incremented in place: no row is added. */
  lemma AddCartItemMerges(db: Db, cart: Id, product: Id, quantity: nat, i: nat)
    requires Distinct(db.cartItems, CartItemLine) && HasKey(db.products, ProductKey, product) && ValidQuantity(quantity)
    requires i < |db.cartItems| && db.cartItems[i].cart == cart && db.cartItems[i].product == product
    requires db.cartItems[i].quantity + quantity <= MaxQuantity
    ensures var r := AddCartItem(db, cart, product, quantity);
      var updated := db.cartItems[i].(quantity := db.cartItems[i].quantity + quantity);
      && r.1 == Success(updated)
      && r.0.cartItems == db.cartItems[i := updated]
      && r.0.(cartItems := db.cartItems) == db
  {
    IndexOfDistinct(db.cartItems, CartItemLine, i);
  }

  /** A (cart, product) pair without an item gets exactly one new row with the given quantity. */
  lemma AddCartItemCreates(db: Db, cart: Id, product: Id, quantity: nat)
    requires HasKey(db.products, ProductKey, product) && ValidQuantity(quantity)
    requires !HasKey(db.cartItems, CartItemLine, (cart, product))
    ensures var r := AddCartItem(db, cart, product, quantity);
      && (r.1.Failure? <==> !HasKey(db.carts, CartKey, cart))
      && (r.1.Failure? ==> r.0 == db)
      && (r.1.Success? ==>
            && r.1.value.cart == cart && r.1.value.product == product && r.1.value.quantity == quantity
            && !HasKey(db.cartItems, CartItemKey, r.1.value.id)
            && r.0.cartItems == db.cartItems + [r.1.value]
            && r.0.(cartItems := db.cartItems) == db)
  {
  }

  /** An increment that would not fit the quantity column is refused and changes nothing. */
  lemma AddCartItemOverflowRefused(db: Db, cart: Id, product: Id, quantity: nat, i: nat)
    requires Distinct(db.cartItems, CartItemLine) && HasKey(db.products, ProductKey, product) && ValidQuantity(quantity)
    requires i < |db.cartItems| && db.cartItems[i].cart == cart && db.cartItems[i].product == product
    requires db.cartItems[i].quantity + quantity > MaxQuantity
    ensures AddCartItem(db, cart, product, quantity) == (db, Failure(QuantityOverflow))
  {
    IndexOfDistinct(db.cartItems, CartItemLine, i);
  }

  /** The upsert keeps every constraint, in particular at most one item per (cart, product). */
  lemma AddCartItemPreservesValid(db: Db, cart: Id, product: int, quantity: int)
    requires Valid(db)
    ensures Valid(AddCartItem(db, cart, product, quantity).0)
  {
    var r := AddCartItem(db, cart, product, quantity);
    if r.1.Success? {
      match IndexOf(db.cartItems, CartItemLine, (cart, product as Id))
      case Some(i) => ReplaceItemPreservesValid(db, i, r.1.value);
      case None =>
        SnocDistinct(db.cartItems, r.1.value, CartItemKey);
        SnocDistinct(db.cartItems, r.1.value, CartItemLine);
    }
  }

  /** Changing the quantity of one cart item, within the column's range, keeps the database valid. */
  lemma ReplaceItemPreservesValid(db: Db, i: nat, u: CartItem)
    requires Valid(db) && i < |db.cartItems|
    requires u == db.cartItems[i].(quantity := u.quantity) && u.quantity <= MaxQuantity
    ensures Valid(db.(cartItems := db.cartItems[i := u]))
  {
    var s := db.cartItems[i := u];
    SameKeysDistinct(db.cartItems, s, CartItemKey, CartItemKey);
    SameKeysDistinct(db.cartItems, s, CartItemLine, CartItemLine);
    forall x | x in s
      ensures HasKey(db.carts, CartKey, x.cart) && HasKey(db.products, ProductKey, x.product)
      ensures x.quantity <= MaxQuantity
    {
      var j :| 0 <= j < |s| && s[j] == x;
      assert db.cartItems[j] in db.cartItems;
    }
  }

  /** Replacing one item of a cart by one with a different quantity moves the cart total by the difference. */
  lemma LinesTotalUpdate(products: seq<Product>, s: seq<CartItem>, i: nat, u: CartItem, cart: Id)
    requires i < |s| && s[i].cart == cart && u.cart == cart && u.product == s[i].product
    ensures LinesTotal(products, Keep(s[i := u], CartItemCart, cart))
         == LinesTotal(products, Keep(s, CartItemCart, cart))
            + (u.quantity - s[i].quantity) * PriceOf(products, u.product)
  {
    LinesTotalReplace(products, s, i, u, cart);
    MulSubDistributes(u.quantity, s[i].quantity, PriceOf(products, u.product));
  }

  lemma MulSubDistributes(a: int, b: int, c: int)
    ensures a * c - b * c == (a - b) * c
  {
  }

  /** The same, in terms of the two items' totals. */
  lemma {:induction false} LinesTotalReplace(products: seq<Product>, s: seq<CartItem>, i: nat, u: CartItem, cart: Id)
    requires i < |s| && s[i].cart == cart && u.cart == cart
    ensures LinesTotal(products, Keep(s[i := u], CartItemCart, cart))
         == LinesTotal(products, Keep(s, CartItemCart, cart)) + ItemTotal(products, u) - ItemTotal(products, s[i])
  {
    var t := s[i := u];
    if i == 0 {
      assert t[1..] == s[1..];
      var rest := Keep(s[1..], CartItemCart, cart);
      LinesTotalCons(products, u, rest);
      LinesTotalCons(products, s[0], rest);
    } else {
      assert t[1..] == s[1..][i - 1 := u];
      LinesTotalReplace(products, s[1..], i - 1, u, cart);
      if s[0].cart == cart {
        LinesTotalCons(products, s[0], Keep(t[1..], CartItemCart, cart));
        LinesTotalCons(products, s[0], Keep(s[1..], CartItemCart, cart));
      }
    }
  }

  /** The total of a list is its first item's total plus the rest's. */
  lemma LinesTotalCons(products: seq<Product>, x: CartItem, rest: seq<CartItem>)
    ensures LinesTotal(products, [x] + rest) == ItemTotal(products, x) + LinesTotal(products, rest)
  {
    assert ([x] + rest)[1..] == rest;
  }

  /** A successful upsert raises the cart's total by the added quantity at the product's current price. */
  lemma AddCartItemRaisesTotal(db: Db, cart: Id, product: int, quantity: int)
    requires AddCartItem(db, cart, product, quantity).1.Success?
    ensures product >= 0 && quantity >= 0
    ensures CartTotal(AddCartItem(db, cart, product, quantity).0, cart)
         == CartTotal(db, cart) + quantity * PriceOf(db.products, product)
  {
    var r := AddCartItem(db, cart, product, quantity);
    match IndexOf(db.cartItems, CartItemLine, (cart, product as Id))
    case Some(i) =>
      LinesTotalUpdate(db.products, db.cartItems, i, r.1.value, cart);
    case None =>
      KeepAppend(db.cartItems, [r.1.value], CartItemCart, cart);
      assert Keep([r.1.value], CartItemCart, cart) == [r.1.value];
      LinesTotalAppend(db.products, CartItemsOf(db, cart), [r.1.value]);
  }

  /** Adding the same product twice to a cart that lacks it leaves one row holding both quantities. */
  lemma AddCartItemTwiceMerges(db: Db, cart: Id, product: Id, q1: nat, q2: nat)
    requires Distinct(db.cartItems, CartItemLine)
    requires HasKey(db.carts, CartKey, cart) && HasKey(db.products, ProductKey, product)
    requires !HasKey(db.cartItems, CartItemLine, (cart, product))
    requires q1 + q2 <= MaxQuantity
    ensures var r1 := AddCartItem(db, cart, product, q1);
      var r2 := AddCartItem(r1.0, cart, product, q2);
      && r1.1.Success? && r2.1.Success?
      && r2.1.value == r1.1.value.(quantity := q1 + q2)
      && |r2.0.cartItems| == |db.cartItems| + 1
      && Keep(r2.0.cartItems, CartItemLine, (cart, product)) == [r2.1.value]
  {
    var r1 := AddCartItem(db, cart, product, q1);
    AddCartItemCreates(db, cart, product, q1);
    var n := |db.cartItems|;
    assert r1.0.cartItems == db.cartItems + [r1.1.value];
    assert Distinct(r1.0.cartItems, CartItemLine) by {
      SnocDistinct(db.cartItems, r1.1.value, CartItemLine);
    }
    assert r1.0.cartItems[n] == r1.1.value;
    AddCartItemMerges(r1.0, cart, product, q2, n);
    var r2 := AddCartItem(r1.0, cart, product, q2);
    assert r2.0.cartItems == db.cartItems + [r2.1.value];
    assert Keep(r2.0.cartItems, CartItemLine, (cart, product)) == [r2.1.value] by {
      KeepAppend(db.cartItems, [r2.1.value], CartItemLine, (cart, product));
      KeepNone(db.cartItems, CartItemLine, (cart, product));
      assert Keep([r2.1.value], CartItemLine, (cart, product)) == [r2.1.value];
    }
  }

  /**
   * As written, an increment that fails (here: past the quantity column's range)
   * falls into the bare `except:` and inserts a second row for the same
   * (cart, product), breaking the one-item-per-product invariant.
   */
  lemma AddCartItemAsWrittenDuplicates(db: Db, cart: Id, product: Id, quantity: nat, i: nat)
    requires Valid(db) && HasKey(db.products, ProductKey, product) && ValidQuantity(quantity)
    requires i < |db.cartItems| && db.cartItems[i].cart == cart && db.cartItems[i].product == product
    requires db.cartItems[i].quantity + quantity > MaxQuantity
    ensures var r := AddCartItemAsWritten(db, cart, product, quantity);
      && r.1.Success?
      && r.0.cartItems == db.cartItems + [r.1.value]
      && !Distinct(r.0.cartItems, CartItemLine)
  {
    assert db.cartItems[i] in db.cartItems;
    AsWrittenOverflowInserts(db, cart, product, quantity, i);
  }

  /** The step behind the finding: the failed increment takes the `except:` branch. */
  lemma AsWrittenOverflowInserts(db: Db, cart: Id, product: Id, quantity: nat, i: nat)
    requires HasKey(db.carts, CartKey, cart) && HasKey(db.products, ProductKey, product) && ValidQuantity(quantity)
    requires i < |db.cartItems| && db.cartItems[i].cart == cart && db.cartItems[i].product == product
    requires db.cartItems[i].quantity + quantity > MaxQuantity
    ensures var r := AddCartItemAsWritten(db, cart, product, quantity);
      && r.1.Success?
      && r.0.cartItems == db.cartItems + [r.1.value]
      && !Distinct(r.0.cartItems, CartItemLine)
  {
    var x := db.cartItems[i];
    var found := Keep(db.cartItems, CartItemLine, (cart, product));
    assert x in found;
    var j := IndexOf(db.cartItems, CartItemLine, (cart, product)).value;
    assert db.cartItems[j] in found;
    if |found| == 1 {
      assert found[0] == x && found[0] == db.cartItems[j];
    }
    var r := AddCartItemAsWritten(db, cart, product, quantity);
    assert r == InsertCartItem(db, cart, product, quantity);
    assert CartItemLine(x) == CartItemLine(r.1.value);
    RepeatedKeyNotDistinct(db.cartItems, r.1.value, CartItemLine);
  }

  /** A last row whose key already occurs earlier breaks a unique constraint. */
  lemma {:induction false} RepeatedKeyNotDistinct(s: seq<CartItem>, x: CartItem, key: CartItem -> (Id, Id))
    requires HasKey(s, key, key(x))
    ensures !Distinct(s + [x], key)
  {
    assert (s + [x])[1..] == s[1..] + [x];
    if key(s[0]) == key(x) {
      assert x in (s + [x])[1..];
    } else {
      var y :| y in s && key(y) == key(x);
      assert y in s[1..] by { assert y == s[0] || y in s[1..]; }
      RepeatedKeyNotDistinct(s[1..], x, key);
    }
  }

  // --------------------------------------------------------------- checkout

  datatype CheckoutError = CartNotFound | EmptyCart | CustomerNotFound

  /** CreateOrderSerializer.validate_cart_id: the cart must exist (checked first) and hold an item. */
  function ValidateCartId(db: Db, cart: Id): (r: Outcome<CheckoutError>)
    ensures r == Fail(CartNotFound) <==> !HasKey(db.carts, CartKey, cart)
    ensures r == Fail(EmptyCart) <==> HasKey(db.carts, CartKey, cart) && CartItemsOf(db, cart) == []
    ensures r == Pass <==> HasKey(db.carts, CartKey, cart) && CartItemsOf(db, cart) != []
  {
    if !HasKey(db.carts, CartKey, cart) then Fail(CartNotFound)
    else if |Keep(db.cartItems, CartItemCart, cart)| == 0 then Fail(EmptyCart)
    else Pass
  }

  /** One order item per cart item, in the cart's order, with the product's current price copied in. */
  function Snapshot(items: seq<CartItem>, products: seq<Product>, order: Id, firstId: Id): seq<OrderItem> {
    seq(|items|, k requires 0 <= k < |items| =>
      OrderItem(firstId + k, order, items[k].product, items[k].quantity, PriceOf(products, items[k].product)))
  }

  /** (product, quantity) of each line, for comparing an order's content with a cart's. */
  function CartLines(items: seq<CartItem>): seq<(Id, nat)> {
    seq(|items|, k requires 0 <= k < |items| => (items[k].product, items[k].quantity))
  }

  function OrderLines(items: seq<OrderItem>): seq<(Id, nat)> {
    seq(|items|, k requires 0 <= k < |items| => (items[k].product, items[k].quantity))
  }

  /**
   * CreateOrderSerializer.save after validation, inside transaction.atomic():
   * resolve the customer from the user, create a Pending order, bulk-create the
   * snapshot of the cart's items, delete the cart (and by CASCADE its items).
   * Any failure returns the database unchanged.
   */
  function PlaceOrder(db: Db, cart: Id, user: Id, now: Timestamp): (Db, Result<Order, CheckoutError>) {
    match ValidateCartId(db, cart)
    case Fail(e) => (db, Failure(e))
    case Pass =>
      match Find(db.customers, CustomerUser, user)
      case None => (db, Failure(CustomerNotFound))
      case Some(customer) =>
        var order := NewOrder(NextId(db.orders, OrderKey), now, customer.id);
        var lines := Snapshot(CartItemsOf(db, cart), db.products, order.id, NextId(db.orderItems, OrderItemKey));
        var placed := db.(orders := db.orders + [order], orderItems := db.orderItems + lines);
        (DeleteCart(placed, cart), Success(order))
  }

  /**
   * The errors, in the order they are checked: unknown cart, empty cart, no
   * customer for the user. Every failure leaves the whole database unchanged.
   */
  lemma PlaceOrderOutcome(db: Db, cart: Id, user: Id, now: Timestamp)
    ensures var r := PlaceOrder(db, cart, user, now);
      && (r.1 == Failure(CartNotFound) <==> !HasKey(db.carts, CartKey, cart))
      && (r.1 == Failure(EmptyCart) <==> HasKey(db.carts, CartKey, cart) && CartItemsOf(db, cart) == [])
      && (r.1 == Failure(CustomerNotFound) <==>
            HasKey(db.carts, CartKey, cart) && CartItemsOf(db, cart) != []
            && !HasKey(db.customers, CustomerUser, user))
      && (r.1.Failure? ==> r.0 == db)
  {
  }

  /** Success adds exactly one order: new key, Pending, placed now, owned by the user's customer. */
  lemma PlaceOrderCreatesOneOrder(db: Db, cart: Id, user: Id, now: Timestamp)
    requires Valid(db) && PlaceOrder(db, cart, user, now).1.Success?
    ensures var r := PlaceOrder(db, cart, user, now); var o := r.1.value;
      && r.0.orders == db.orders + [o]
      && !HasKey(db.orders, OrderKey, o.id)
      && o.paymentStatus == Pending && o.placedAt == now
      && (forall c :: c in db.customers && c.user == user ==> o.customer == c.id)
      && (exists c :: c in db.customers && c.user == user && o.customer == c.id)
  {
    var o := PlaceOrder(db, cart, user, now).1.value;
    var customer := Find(db.customers, CustomerUser, user).value;
    forall c | c in db.customers && c.user == user ensures o.customer == c.id {
      FindDistinct(db.customers, CustomerUser, c);
    }
  }

  /** No order item refers to a key that no order has. */
  lemma NoItemsForFreshOrder(db: Db)
    requires RefsIn(db.orderItems, OrderItemOrder, db.orders, OrderKey)
    ensures OrderItemsOf(db, NextId(db.orders, OrderKey)) == []
  {
    var id := NextId(db.orders, OrderKey);
    forall x | x in db.orderItems ensures x.order != id {
      var y :| y in db.orders && y.id == x.order;
    }
    KeepNone(db.orderItems, OrderItemOrder, id);
  }

  /**
   * The new order's items are the snapshot of the cart: one per cart item, same
   * product and quantity, the unit price read at checkout; so the (product,
   * quantity) lines, and their multisets, are equal.
   */
  lemma PlaceOrderSnapshotsItems(db: Db, cart: Id, user: Id, now: Timestamp)
    requires RefsIn(db.orderItems, OrderItemOrder, db.orders, OrderKey)
    requires PlaceOrder(db, cart, user, now).1.Success?
    ensures var r := PlaceOrder(db, cart, user, now); var o := r.1.value;
      var items := CartItemsOf(db, cart); var lines := OrderItemsOf(r.0, o.id);
      && r.0.orderItems == db.orderItems + lines
      && |lines| == |items|
      && (forall k :: 0 <= k < |items| ==>
            && lines[k].order == o.id
            && lines[k].product == items[k].product
            && lines[k].quantity == items[k].quantity
            && lines[k].unitPrice == PriceOf(db.products, items[k].product))
      && OrderLines(lines) == CartLines(items)
      && multiset(OrderLines(lines)) == multiset(CartLines(items))
  {
    var r := PlaceOrder(db, cart, user, now);
    var o := r.1.value;
    var snap := Snapshot(CartItemsOf(db, cart), db.products, o.id, NextId(db.orderItems, OrderItemKey));
    assert OrderItemsOf(r.0, o.id) == snap by {
      assert r.0.orderItems == db.orderItems + snap;
      KeepAppend(db.orderItems, snap, OrderItemOrder, o.id);
      NoItemsForFreshOrder(db);
      KeepAll(snap, OrderItemOrder, o.id);
    }
    SnapshotLines(CartItemsOf(db, cart), db.products, o.id, NextId(db.orderItems, OrderItemKey));
  }

  /** A snapshot has one line per cart item with its product and quantity, for the given order. */
  lemma SnapshotLines(items: seq<CartItem>, products: seq<Product>, order: Id, first: Id)
    ensures var lines := Snapshot(items, products, order, first);
      && |lines| == |items|
      && (forall k :: 0 <= k < |items| ==>
            && lines[k].order == order
            && lines[k].product == items[k].product
            && lines[k].quantity == items[k].quantity
            && lines[k].unitPrice == PriceOf(products, items[k].product))
      && OrderLines(lines) == CartLines(items)
      && multiset(OrderLines(lines)) == multiset(CartLines(items))
  {
  }

  /**
   * The cart and exactly its items are gone; every other cart keeps its items;
   * besides the new order and its items, no other table changes.
   */
  lemma PlaceOrderConsumesCart(db: Db, cart: Id, user: Id, now: Timestamp)
    requires PlaceOrder(db, cart, user, now).1.Success?
    ensures var r := PlaceOrder(db, cart, user, now);
      && !HasKey(r.0.carts, CartKey, cart)
      && CartItemsOf(r.0, cart) == []
      && (forall c :: c != cart ==> CartItemsOf(r.0, c) == CartItemsOf(db, c))
      && (forall c :: c in r.0.carts <==> c in db.carts && c.id != cart)
      && r.0.products == db.products && r.0.customers == db.customers
      && r.0.(carts := db.carts, cartItems := db.cartItems, orders := db.orders, orderItems := db.orderItems) == db
  {
    var r := PlaceOrder(db, cart, user, now);
    var o := r.1.value;
    var snap := Snapshot(CartItemsOf(db, cart), db.products, o.id, NextId(db.orderItems, OrderItemKey));
    var placed := db.(orders := db.orders + [o], orderItems := db.orderItems + snap);
    DeleteCartCascades(placed, cart);
  }

  /** A retry with the same cart after a successful checkout is refused as an unknown cart: no second order. */
  lemma PlaceOrderRetryFails(db: Db, cart: Id, user: Id, now: Timestamp, user': Id, now': Timestamp)
    requires PlaceOrder(db, cart, user, now).1.Success?
    ensures var after := PlaceOrder(db, cart, user, now).0;
      PlaceOrder(after, cart, user', now') == (after, Failure(CartNotFound))
  {
    PlaceOrderConsumesCart(db, cart, user, now);
  }

  /** Checkout keeps every constraint of the database. */
  lemma PlaceOrderPreservesValid(db: Db, cart: Id, user: Id, now: Timestamp)
    requires Valid(db)
    ensures Valid(PlaceOrder(db, cart, user, now).0)
  {
    var r := PlaceOrder(db, cart, user, now);
    if r.1.Success? {
      var o := r.1.value;
      var snap := Snapshot(CartItemsOf(db, cart), db.products, o.id, NextId(db.orderItems, OrderItemKey));
      assert HasKey(db.customers, CustomerKey, o.customer) by {
        assert Find(db.customers, CustomerUser, user).value in db.customers;
      }
      SnapshotRows(db, cart, o.id);
      AppendOrderPreservesValid(db, o, snap);
      DeleteCartPreservesValid(db.(orders := db.orders + [o], orderItems := db.orderItems + snap), cart);
    }
  }

  /** The snapshot's rows have fresh, distinct keys and refer to the order and to existing products. */
  lemma SnapshotRows(db: Db, cart: Id, order: Id)
    requires RefsIn(db.cartItems, CartItemProduct, db.products, ProductKey)
    ensures var snap := Snapshot(CartItemsOf(db, cart), db.products, order, NextId(db.orderItems, OrderItemKey));
      && Distinct(snap, OrderItemKey)
      && (forall y :: y in snap ==> !HasKey(db.orderItems, OrderItemKey, y.id))
      && (forall y :: y in snap ==> y.order == order && HasKey(db.products, ProductKey, y.product))
  {
    var items := CartItemsOf(db, cart);
    var snap := Snapshot(items, db.products, order, NextId(db.orderItems, OrderItemKey));
    IncreasingDistinct(snap, OrderItemKey);
    forall y | y in snap
      ensures !HasKey(db.orderItems, OrderItemKey, y.id)
      ensures y.order == order && HasKey(db.products, ProductKey, y.product)
    {
      var k :| 0 <= k < |snap| && snap[k] == y;
      assert items[k] in items;
    }
  }

  /** Adding a new order for an existing customer, with fresh items for existing products, keeps the database valid. */
  lemma AppendOrderPreservesValid(db: Db, o: Order, snap: seq<OrderItem>)
    requires Valid(db)
    requires !HasKey(db.orders, OrderKey, o.id) && HasKey(db.customers, CustomerKey, o.customer)
    requires Distinct(snap, OrderItemKey) && forall y :: y in snap ==> !HasKey(db.orderItems, OrderItemKey, y.id)
    requires forall y :: y in snap ==> y.order == o.id && HasKey(db.products, ProductKey, y.product)
    ensures Valid(db.(orders := db.orders + [o], orderItems := db.orderItems + snap))
  {
    var placed := db.(orders := db.orders + [o], orderItems := db.orderItems + snap);
    SnocDistinct(db.orders, o, OrderKey);
    AppendDistinct(db.orderItems, snap, OrderItemKey);
    assert RefsIn(placed.orders, OrderCustomer, placed.customers, CustomerKey);
    assert RefsIn(placed.orderItems, OrderItemOrder, placed.orders, OrderKey) by {
      RefsAfterGrow(db.orderItems, OrderItemOrder, db.orders, OrderKey, [o]);
      assert o in placed.orders;
    }
  }

  /** The order's total at its frozen prices equals the cart's total at checkout. */
  lemma PlaceOrderKeepsTotal(db: Db, cart: Id, user: Id, now: Timestamp)
    requires Valid(db) && PlaceOrder(db, cart, user, now).1.Success?
    ensures var r := PlaceOrder(db, cart, user, now);
      OrderLinesTotal(OrderItemsOf(r.0, r.1.value.id)) == CartTotal(db, cart)
  {
    var r := PlaceOrder(db, cart, user, now);
    PlaceOrderSnapshotsItems(db, cart, user, now);
    SnapshotTotal(CartItemsOf(db, cart), OrderItemsOf(r.0, r.1.value.id), db.products);
  }

  lemma {:induction false} SnapshotTotal(items: seq<CartItem>, lines: seq<OrderItem>, products: seq<Product>)
    requires |lines| == |items|
    requires forall k :: 0 <= k < |items| ==>
      lines[k].quantity == items[k].quantity && lines[k].unitPrice == PriceOf(products, items[k].product)
    ensures OrderLinesTotal(lines) == LinesTotal(products, items)
  {
    if |items| > 0 {
      SnapshotTotal(items[1..], lines[1..], products);
    }
  }

  /**
   * Prices are frozen: changing any product's price after checkout leaves the
   * order's items, their unit prices (those read at checkout) and its total unchanged.
   */
  lemma PriceFrozenAfterCheckout(db: Db, cart: Id, user: Id, now: Timestamp, pk: Id, price: Option<Cents>)
    requires Valid(db) && PlaceOrder(db, cart, user, now).1.Success?
    ensures var r := PlaceOrder(db, cart, user, now); var o := r.1.value;
      var later := UpdateUnitPrice(r.0, pk, price).0;
      && OrderItemsOf(later, o.id) == OrderItemsOf(r.0, o.id)
      && (forall x :: x in OrderItemsOf(later, o.id) ==> x.unitPrice == PriceOf(db.products, x.product))
      && OrderLinesTotal(OrderItemsOf(later, o.id)) == CartTotal(db, cart)
  {
    var r := PlaceOrder(db, cart, user, now);
    var o := r.1.value;
    PlaceOrderSnapshotsItems(db, cart, user, now);
    PlaceOrderKeepsTotal(db, cart, user, now);
    var lines := OrderItemsOf(r.0, o.id);
    forall x | x in lines ensures x.unitPrice == PriceOf(db.products, x.product) {
      var k :| 0 <= k < |lines| && lines[k] == x;
    }
  }
}
