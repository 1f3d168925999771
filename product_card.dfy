/**
 * The rules of one product card: which price is shown, whether a discount
 * badge appears, how much stock is available, and the card's local state
 * (the selected variation and the quantity stepper) with the add-to-cart
 * action it emits.
 */
module ProductCard {
  import opened Common
  import opened Catalog

  // ---------------------------------------------------------------------
  // Derived values
  // ---------------------------------------------------------------------

  /**
   * The price rule applied to one priced item (a variation or the product
   * itself): the discount price when the discount is active and the
   * discount price is truthy (present and non-zero), otherwise the item's
   * own price.
   */
  function EffectivePrice(price: int, discountActive: bool, discountPrice: Option<int>): (r: int)
    ensures discountActive && discountPrice.Some? && discountPrice.value != 0 ==> r == discountPrice.value
    ensures r == price || (discountActive && discountPrice == Some(r) && r != 0)
  {
    if discountActive && discountPrice.Some? && discountPrice.value != 0 then discountPrice.value else price
  }

  /** The price shown on the card: the selected variation's, or the product's when none is selected. */
  function CurrentPrice(p: Product, selected: Option<Variation>): (r: int)
    ensures selected.Some? ==>
      r == EffectivePrice(selected.value.price, selected.value.discountActive, selected.value.discountPrice)
    ensures selected.None? ==> r == EffectivePrice(p.basePrice, p.discountActive, p.discountPrice)
  {
    match selected
    case Some(v) => EffectivePrice(v.price, v.discountActive, v.discountPrice)
    case None => EffectivePrice(p.basePrice, p.discountActive, p.discountPrice)
  }

  /** The discount badge and the struck-through price appear when a discount is active and its price is not null. */
  predicate HasDiscount(p: Product, selected: Option<Variation>)
  {
    match selected
    case Some(v) => v.discountActive && v.discountPrice.Some?
    case None => p.discountActive && p.discountPrice.Some?
  }

  /** The price shown struck through. */
  function OriginalPrice(p: Product, selected: Option<Variation>): (r: int)
    ensures selected.Some? ==> r == selected.value.price
    ensures selected.None? ==> r == p.basePrice
  {
    if selected.Some? then selected.value.price else p.basePrice
  }

  function AvailableStock(p: Product, selected: Option<Variation>): (r: nat)
    ensures selected.Some? ==> r == selected.value.stockQuantity
    ensures selected.None? ==> r == p.stockQuantity
  {
    if selected.Some? then selected.value.stockQuantity else p.stockQuantity
  }

  /** `vs.some(v => v.stock_quantity > 0)` */
  function AnyInStock(vs: seq<Variation>): (r: bool)
    ensures r <==> exists i :: 0 <= i < |vs| && vs[i].stockQuantity > 0
  {
    if vs == [] then false
    else if vs[0].stockQuantity > 0 then true
    else
      assert forall i :: 1 <= i < |vs| ==> vs[i] == vs[1..][i - 1];
      AnyInStock(vs[1..])
  }

  /** Whether anything of the product can be bought: some variation in stock, or the product itself when it has none. */
  function HasAnyStock(p: Product): (r: bool)
    ensures |p.variations| > 0 ==> (r <==> exists i :: 0 <= i < |p.variations| && p.variations[i].stockQuantity > 0)
    ensures |p.variations| == 0 ==> (r <==> p.stockQuantity > 0)
  {
    if |p.variations| > 0 then AnyInStock(p.variations) else p.stockQuantity > 0
  }

  /** A price that differs from the struck-through one is always announced by the discount badge. */
  lemma ReducedPriceHasBadge(p: Product, selected: Option<Variation>)
    ensures CurrentPrice(p, selected) != OriginalPrice(p, selected) ==> HasDiscount(p, selected)
  {
  }

  /**
   * A discount price of 0 is falsy for the price rule but not null for the
   * badge rule: on a variation or on a product without a selection, the
   * badge shows while the price stays the original one.
   */
  lemma ZeroDiscountShowsBadgeAtFullPrice(p: Product, selected: Option<Variation>)
    requires selected.Some? ==> selected.value.discountActive && selected.value.discountPrice == Some(0)
    requires selected.None? ==> p.discountActive && p.discountPrice == Some(0)
    ensures HasDiscount(p, selected)
    ensures CurrentPrice(p, selected) == OriginalPrice(p, selected)
    ensures CurrentPrice(p, selected) == if selected.Some? then selected.value.price else p.basePrice
  {
  }

  // ---------------------------------------------------------------------
  // Card state transitions, as pure rules
  // ---------------------------------------------------------------------

  /** The first variation is selected when the card appears, whatever its stock. */
  function InitialSelection(p: Product): (r: Option<Variation>)
    ensures |p.variations| > 0 ==> r == Some(p.variations[0])
    ensures |p.variations| == 0 ==> r == None
  {
    if |p.variations| > 0 then Some(p.variations[0]) else None
  }

  /** Only the first three variations get a button. */
  function ShownVariationCount(p: Product): (r: nat)
    ensures r <= 3 && r <= |p.variations|
    ensures r == 3 || r == |p.variations|
  {
    if |p.variations| < 3 then |p.variations| else 3
  }

  /** The stepper's `+`: one more, unless the quantity already reaches the stock. */
  function IncrementedQuantity(q: int, stock: nat): (r: int)
    ensures r == q || r == q + 1
    ensures r == q + 1 <==> q < stock
    ensures q <= stock ==> r <= stock
  {
    if q >= stock then q else q + 1
  }

  /** The stepper's `-`: one less, never below 1. */
  function DecrementedQuantity(q: int): (r: int)
    ensures r >= 1
    ensures q > 1 ==> r == q - 1
    ensures q <= 1 ==> r == 1
  {
    if q > 1 then q - 1 else 1
  }

  predicate IncrementEnabled(p: Product, selected: Option<Variation>, q: int)
  {
    !(q >= AvailableStock(p, selected) || !HasAnyStock(p) || !p.available)
  }

  predicate DecrementEnabled(p: Product)
  {
    HasAnyStock(p) && p.available
  }

  predicate AddEnabled(p: Product, selected: Option<Variation>)
  {
    HasAnyStock(p) && AvailableStock(p, selected) != 0 && p.available
  }

  /** What a click on "Add" produces: the emitted cart line, if any, and the new quantity. */
  datatype AddResult = AddResult(emitted: Option<CartItem>, quantity: int)

  /**
   * A click on the Add button. A disabled button does nothing; a quantity
   * above the stock is clamped to it and nothing is emitted; otherwise the
   * product, the selected variation and the quantity are emitted and the
   * quantity goes back to 1.
   */
  function AddToCart(p: Product, selected: Option<Variation>, q: int): (r: AddResult)
    ensures r.emitted.Some? <==> AddEnabled(p, selected) && q <= AvailableStock(p, selected)
    ensures r.emitted.Some? ==> r.emitted.value == CartItem(p, selected, q) && r.quantity == 1
    ensures r.emitted.None? && AddEnabled(p, selected) ==> r.quantity == AvailableStock(p, selected) < q
    ensures !AddEnabled(p, selected) ==> r.quantity == q
  {
    if !AddEnabled(p, selected) then AddResult(None, q)
    else if q > AvailableStock(p, selected) then AddResult(None, AvailableStock(p, selected))
    else AddResult(Some(CartItem(p, selected, q)), 1)
  }

  /** Whatever the card emits has a quantity between 1 and the available stock, and the stepper stays at 1 or more. */
  lemma AddToCartBounds(p: Product, selected: Option<Variation>, q: int)
    requires q >= 1
    ensures var r := AddToCart(p, selected, q);
      && (r.emitted.Some? ==> 1 <= r.emitted.value.quantity <= AvailableStock(p, selected))
      && r.quantity >= 1
  {
  }

  // ---------------------------------------------------------------------
  // The card's local state
  // ---------------------------------------------------------------------

  /** One rendered product card with its `selectedVariation` and `quantity` state. */
  class Card {
    const product: Product
    var selectedVariation: Option<Variation>
    var quantity: int

    /** The quantity never drops below 1 and the selection is one of the product's variations. */
    ghost predicate Valid()
      reads this
    {
      && quantity >= 1
      && (selectedVariation.Some? ==> selectedVariation.value in product.variations)
    }

    function Available(): nat
      reads this
    {
      AvailableStock(product, selectedVariation)
    }

    constructor (p: Product)
      ensures Valid()
      ensures product == p && selectedVariation == InitialSelection(p) && quantity == 1
    {
      product := p;
      selectedVariation := InitialSelection(p);
      quantity := 1;
    }

    method Increment()
      requires Valid()
      modifies this
      ensures Valid()
      ensures selectedVariation == old(selectedVariation)
      ensures quantity ==
        if IncrementEnabled(product, selectedVariation, old(quantity))
        then IncrementedQuantity(old(quantity), Available())
        else old(quantity)
      ensures old(quantity) <= Available() ==> quantity <= Available()
    {
      if IncrementEnabled(product, selectedVariation, quantity) {
        quantity := IncrementedQuantity(quantity, Available());
      }
    }

    method Decrement()
      requires Valid()
      modifies this
      ensures Valid()
      ensures selectedVariation == old(selectedVariation)
      ensures quantity == if DecrementEnabled(product) then DecrementedQuantity(old(quantity)) else old(quantity)
    {
      if DecrementEnabled(product) {
        quantity := DecrementedQuantity(quantity);
      }
    }

    /** A click on the button of the i-th shown variation; an out-of-stock one is disabled. */
    method SelectVariation(i: nat)
      requires Valid()
      requires i < ShownVariationCount(product)
      modifies this
      ensures Valid()
      ensures quantity == old(quantity)
      ensures selectedVariation ==
        if product.variations[i].stockQuantity == 0 then old(selectedVariation) else Some(product.variations[i])
    {
      var v := product.variations[i];
      if v.stockQuantity != 0 {
        selectedVariation := Some(v);
      }
    }

    /** A click on the Add button; `emitted` is the call to `onAddToCart`, if one is made. */
    method AddToCartClick() returns (emitted: Option<CartItem>)
      requires Valid()
      modifies this
      ensures Valid()
      ensures selectedVariation == old(selectedVariation)
      ensures AddResult(emitted, quantity) == AddToCart(product, selectedVariation, old(quantity))
      ensures emitted.Some? ==> 1 <= emitted.value.quantity <= Available()
    {
      var r := AddToCart(product, selectedVariation, quantity);
      AddToCartBounds(product, selectedVariation, quantity);
      emitted, quantity := r.emitted, r.quantity;
    }
  }
}
