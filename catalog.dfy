/**
 * The product records the storefront receives from the backend. Prices are
 * whole centavos; purity is in hundredths of a percent; stock is a count.
 */
module Catalog {
  import opened Common

  type Id = string

  /** A purchasable size or strength of a product. */
  datatype Variation = Variation(
    id: Id,
    name: string,
    price: int,
    discountPrice: Option<int>,
    discountActive: bool,
    stockQuantity: nat)

  datatype Product = Product(
    id: Id,
    name: string,
    description: string,
    basePrice: int,
    discountPrice: Option<int>,
    discountActive: bool,
    stockQuantity: nat,
    variations: seq<Variation>,
    available: bool,
    purityPercentage: int)

  /** One line of the shopping cart; `variation` is absent for a plain product. */
  datatype CartItem = CartItem(product: Product, variation: Option<Variation>, quantity: int)
}
