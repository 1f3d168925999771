# Storefront catalogue and testimonials, modelled in Dafny

This project models four React components of a peptide storefront. The
first two make up the product menu:

- **Product card** (`src/components/MenuItemCard.tsx`). The card shows a
  product or its selected variation. It decides which price is shown and
  when the discount badge appears. It also computes how much stock is
  available. It keeps its own quantity stepper, which stays at 1 or more.
  Its "Add" button emits a cart line when the quantity is within the
  stock. A quantity above the stock is clamped to it, and that click emits
  nothing.
- **Menu** (`src/components/Menu.tsx`). The menu searches name and
  description case-insensitively. It sorts a copy of the result by name, by
  ascending price or by descending purity. For each card it counts the
  units in the cart lines of that product that name no variation; the grid
  asks without a variation id, so lines for a variation are not counted.

The other two read and write the backend's `testimonials` table:

- **Testimonials admin** (`src/components/TestimonialsManager.tsx`). The
  admin screen inserts and edits rows through a form. It also deletes rows,
  toggles whether a row is shown, and moves a row up or down. After each
  write it selects all rows again, by display order.
- **Testimonials page** (`src/components/Testimonials.tsx`). The public
  page selects the active rows by display order. It shows their images in
  a lightbox whose arrows step through the list and wrap around at both
  ends.

Modules:

- `common.dfy` (`Common`): `Option` stands for a value that may be null
  (or undefined, where the source treats both alike).
  `Truthy` is JavaScript truthiness of a string.
- `sorting.dfy` (`Sorting`): a stable insertion sort over a comparator. It
  is proved to be a permutation, sorted and id-preserving. It stands for
  `Array.prototype.sort` on a copy and for the backend's `ORDER BY`.
- `catalog.dfy` (`Catalog`): products, variations and cart lines.
- `product_card.dfy` (`ProductCard`): the card's derived values as
  functions, and the card's state as the class `Card`.
- `menu.dfy` (`Menu`): search, sort and the cart quantity.
- `testimonial_table.dfy` (`TestimonialTable`): rows and the two ordered
  selections.
- `testimonials_page.dfy` (`TestimonialsPage`): the gallery list,
  lightbox navigation, and the page state as the class `Gallery`.
- `testimonials_admin.dfy` (`TestimonialsAdmin`): the table rewrites as
  functions, and the admin state as the class `Manager`.

In `Manager`, the field `table` is the backend table and `testimonials` is
the list last fetched from it. The invariant `Valid()` says that ids are
unique and that `testimonials` is `table` in display order. Every write
method keeps that invariant.

Prices are whole numbers of the currency's smallest unit. Stock
quantities are natural numbers. A cart line's quantity and a product's
purity are integers.

## Model

| member | source | states |
|---|---|---|
| Sorting.Insert | src/components/Menu.tsx:28-39 | inserting an element adds exactly that element to the multiset |
| Sorting.SortBy | src/components/Menu.tsx:28-39 | sorting a copy keeps the same elements with the same multiplicities |
| Sorting.InsertKeepsSorted | src/components/Menu.tsx:28-39 | under a total preorder, insertion into a sorted sequence leaves it sorted |
| Sorting.SortByIsSorted | src/components/Menu.tsx:28-39 | under a total preorder, the sorted copy is ordered for every pair of positions |
| Sorting.InsertKeepsInjective | src/components/TestimonialsManager.tsx:36-39 | inserting an element with a fresh key keeps keys distinct |
| Sorting.SortByKeepsInjective | src/components/TestimonialsManager.tsx:36-39 | sorting never makes two positions share a key |
| ProductCard.EffectivePrice | src/components/MenuItemCard.tsx:25-31 | the discount price wins exactly when the discount is active and its price is truthy (present and non-zero); otherwise the item's own price |
| ProductCard.CurrentPrice | src/components/MenuItemCard.tsx:25-31 | the selected variation's price rule applies when one is selected, else the product's |
| ProductCard.OriginalPrice | src/components/MenuItemCard.tsx:39 | the struck-through price is the variation's price or the product's base price |
| ProductCard.AvailableStock | src/components/MenuItemCard.tsx:46 | stock is the selected variation's, else the product's |
| ProductCard.AnyInStock | src/components/MenuItemCard.tsx:50 | true exactly when some variation has positive stock |
| ProductCard.HasAnyStock | src/components/MenuItemCard.tsx:49-51 | with variations: some variation in stock; without: the product's own stock is positive |
| ProductCard.ReducedPriceHasBadge | src/components/MenuItemCard.tsx:25-39 | whenever the shown price differs from the struck-through price, the discount badge is shown |
| ProductCard.HasDiscount | src/components/MenuItemCard.tsx:34-36 | defines the badge condition: the selected variation's discount (or, with no selection, the product's) is active and its price is not null |
| ProductCard.ZeroDiscountShowsBadgeAtFullPrice | src/components/MenuItemCard.tsx:25-36 | on a selected variation or on the product itself, an active discount priced 0 shows the badge while the shown price stays the original one |
| ProductCard.InitialSelection | src/components/MenuItemCard.tsx:19-21 | the first variation is selected initially, or none when there are none |
| ProductCard.ShownVariationCount | src/components/MenuItemCard.tsx:155 | at most three variations get buttons, and all of them when there are fewer |
| ProductCard.IncrementedQuantity | src/components/MenuItemCard.tsx:53-61 | "+" adds one exactly when the quantity is below the stock, and never lifts a quantity within the stock above it |
| ProductCard.DecrementedQuantity | src/components/MenuItemCard.tsx:63 | "-" subtracts one above 1 and otherwise gives 1; the result is never below 1 |
| ProductCard.IncrementEnabled | src/components/MenuItemCard.tsx:270 | defines when "+" is enabled: the quantity is below the available stock, something is in stock and the product is available |
| ProductCard.DecrementEnabled | src/components/MenuItemCard.tsx:257 | defines when "-" is enabled: something is in stock and the product is available |
| ProductCard.AddEnabled | src/components/MenuItemCard.tsx:287 | defines when "Add" is enabled: something is in stock, the available stock is not 0 and the product is available |
| ProductCard.AddToCart | src/components/MenuItemCard.tsx:277-287 | a line is emitted exactly when the button is enabled and the quantity is within the stock; emitting resets the quantity to 1; an enabled over-stock click clamps to the stock; a disabled click changes nothing |
| ProductCard.AddToCartBounds | src/components/MenuItemCard.tsx:41-46 | from a quantity of at least 1, an emitted line holds between 1 and the available stock, and the stepper stays at 1 or more |
| ProductCard.Card.constructor | src/components/MenuItemCard.tsx:19-22 | a new card selects the first variation, holds quantity 1 and satisfies the card invariant |
| ProductCard.Card.Increment | src/components/MenuItemCard.tsx:264-271 | an enabled "+" applies the increment rule; a disabled one changes nothing; the selection is kept |
| ProductCard.Card.Decrement | src/components/MenuItemCard.tsx:251-258 | an enabled "-" applies the decrement rule; the quantity stays at 1 or more |
| ProductCard.Card.SelectVariation | src/components/MenuItemCard.tsx:155-167 | clicking one of the shown variations selects it unless its stock is 0; the quantity is kept |
| ProductCard.Card.AddToCartClick | src/components/MenuItemCard.tsx:277-287 | the click's emitted line and new quantity are those of the add rule, and an emitted quantity is within the stock |
| Menu.LowerChar | src/components/Menu.tsx:22-25 | upper-case ASCII letters map to lower case, all else is unchanged, and no upper-case letter remains |
| Menu.Lower | src/components/Menu.tsx:22-25 | lowering keeps the length and lowers every character |
| Menu.Includes | src/components/Menu.tsx:23-24 | defines `includes` as a left-to-right search over start positions; characterised by IncludesIffSubstring |
| Menu.Matches | src/components/Menu.tsx:22-25 | defines the search test: the lowered query is included in the lowered name or in the lowered description |
| Menu.IncludesIffSubstring | src/components/Menu.tsx:22-25 | the left-to-right `includes` search succeeds exactly when the query occurs at some position |
| Menu.FilterProducts | src/components/Menu.tsx:22-25 | a product is kept exactly when it is in the menu and its lowered name or description contains the lowered query; nothing is added or duplicated |
| Menu.FilterKeepsMultiplicities | src/components/Menu.tsx:22-25 | every matching product is kept as often as the menu holds it, and every other product not at all |
| Menu.FilterProductsAppend | src/components/Menu.tsx:22-25 | the filter keeps the menu's order: filtering a menu with one more product appends that product exactly when it matches |
| Menu.KeptIffSubstring | src/components/Menu.tsx:22-25 | a product is kept exactly when the lowered query is a substring of its lowered name or description |
| Menu.EmptyQueryKeepsAll | src/components/Menu.tsx:22-25 | an empty search shows the whole menu in its original order |
| Menu.NameLe | src/components/Menu.tsx:31 | defines the name order as lexicographic order on code points, the stand-in for `localeCompare` |
| Menu.KeyOrder | src/components/Menu.tsx:28-39 | defines the three comparators: names ascending, base price ascending, purity descending; proved total preorders by KeyOrderIsTotalPreorder |
| Menu.NameLeTotal | src/components/Menu.tsx:30-31 | any two names are comparable |
| Menu.NameLeTransitive | src/components/Menu.tsx:30-31 | the name order is transitive |
| Menu.KeyOrderIsTotalPreorder | src/components/Menu.tsx:28-39 | each of the three comparators is a total preorder |
| Menu.SortProducts | src/components/Menu.tsx:28-39 | the sorted copy is a permutation of the filtered list and is ordered by the chosen key |
| Menu.Catalogue | src/components/Menu.tsx:21-39 | the grid shows exactly the matching products, each as often as the menu holds it, sorted by the chosen key's comparator |
| Menu.PriceSortIsAscending | src/components/Menu.tsx:32-33 | sorting by price gives ascending base prices |
| Menu.PuritySortIsDescending | src/components/Menu.tsx:34-35 | sorting by purity gives descending purity |
| Menu.NameSortIsOrdered | src/components/Menu.tsx:30-31 | sorting by name orders neighbouring names |
| Menu.CountsToward | src/components/Menu.tsx:43-46 | defines the cart filter: same product id, and the given variation when a truthy variation id is passed, else no variation |
| Menu.SumQuantities | src/components/Menu.tsx:47 | defines the `reduce` over quantities from an accumulator; characterised by SumQuantitiesAppend |
| Menu.CartQuantity | src/components/Menu.tsx:41-48 | defines `getCartQuantity`; CartQuantityOfEmptyCart and CartQuantityAppend determine it on every cart |
| Menu.MatchingItems | src/components/Menu.tsx:41-46 | a cart line is counted exactly when it is in the cart and has the product id, and either the given truthy variation or no variation |
| Menu.MatchingItemsAppend | src/components/Menu.tsx:41-46 | the filter distributes over appending a line |
| Menu.SumQuantitiesAppend | src/components/Menu.tsx:47 | the fold adds an appended line's quantity |
| Menu.CartQuantityOfEmptyCart | src/components/Menu.tsx:41-48 | an empty cart counts 0 |
| Menu.CartQuantityAppend | src/components/Menu.tsx:41-48 | appending a line raises the count by its quantity when it matches, and by nothing otherwise |
| Menu.PlainQueryIgnoresVariationLines | src/components/Menu.tsx:167 | the grid's query without a variation counts 0 when all of that product's lines name a variation |
| Menu.EmptyVariationIdActsAsAbsent | src/components/Menu.tsx:45 | an empty variation id is falsy and selects the same lines as no id |
| TestimonialTable.ByDisplayOrder | src/components/TestimonialsManager.tsx:36-39 | the select returns every row exactly once, in ascending display order |
| TestimonialTable.ByDisplayOrderKeepsIdsUnique | src/components/TestimonialsManager.tsx:36-39 | ordering keeps ids unique |
| TestimonialTable.PositionsHaveDistinctIds | src/components/TestimonialsManager.tsx:165-173 | two different positions of the ordered list hold different ids |
| TestimonialTable.ActiveOnly | src/components/Testimonials.tsx:29 | a row is selected exactly when it is in the table and active |
| TestimonialTable.ActiveKeepsMultiplicities | src/components/Testimonials.tsx:29 | every active row is kept as often as the table holds it, and no inactive row is kept |
| TestimonialTable.ActiveOnlyAppend | src/components/Testimonials.tsx:29 | the selection keeps the table's order: one more row is appended exactly when it is active |
| TestimonialTable.StrictMaximumComesLast | src/components/TestimonialsManager.tsx:76-84 | a row above every other display order comes last in the ordered list |
| TestimonialsPage.GalleryList | src/components/Testimonials.tsx:26-30 | the page shows exactly the active rows, each once, in ascending display order |
| TestimonialsPage.FindIndex | src/components/Testimonials.tsx:43 | -1 exactly when no row has the image, otherwise the first row that has it |
| TestimonialsPage.PrevIndex | src/components/Testimonials.tsx:44-45 | "previous" steps back by one, and wraps from the first position (or from "not found") to the last |
| TestimonialsPage.NextIndex | src/components/Testimonials.tsx:47-48 | "next" steps forward by one and wraps from the last position to the first |
| TestimonialsPage.PrevUndoesNext | src/components/Testimonials.tsx:44-49 | "previous" after "next" returns to the same position |
| TestimonialsPage.NextUndoesPrev | src/components/Testimonials.tsx:44-49 | "next" after "previous" returns to the same position |
| TestimonialsPage.NavigateTarget | src/components/Testimonials.tsx:41-51 | with no image open (null or empty) or an empty list nothing changes; otherwise the new image is one of the list's images |
| TestimonialsPage.StepFromFoundImage | src/components/Testimonials.tsx:43-49 | from the first row showing an image, the arrows step to the neighbouring row with wrap-around |
| TestimonialsPage.UnknownImageWrapsToEnds | src/components/Testimonials.tsx:43-49 | an image not in the list makes "previous" show the last row and "next" the first |
| TestimonialsPage.FindIndexOfDistinct | src/components/Testimonials.tsx:43 | with distinct images, the search finds each row's own position |
| TestimonialsPage.NavigationRoundTrip | src/components/Testimonials.tsx:41-51 | with distinct non-empty images, "next" then "previous", and "previous" then "next", return to the image shown |
| TestimonialsPage.EmptyImageBreaksRoundTrip | src/components/Testimonials.tsx:42 | a neighbour with an empty image URL leaves the lightbox on "" and the way back does nothing |
| TestimonialsPage.Gallery.constructor | src/components/Testimonials.tsx:24-39 | the page starts with the gallery list and no open image |
| TestimonialsPage.Gallery.Open | src/components/Testimonials.tsx:114 | clicking a card opens its image and keeps the list |
| TestimonialsPage.Gallery.Close | src/components/Testimonials.tsx:147-151 | closing the lightbox clears the image and keeps the list |
| TestimonialsPage.Gallery.Navigate | src/components/Testimonials.tsx:41-51 | an arrow moves the open image as the navigation rule says, and any change lands on an image of the list |
| TestimonialsAdmin.EmptyForm | src/components/TestimonialsManager.tsx:142-149 | the reset form is empty, active and in the customer-reviews category |
| TestimonialsAdmin.FormOf | src/components/TestimonialsManager.tsx:132-138 | editing copies the row's fields into the form; a missing category reads as customer reviews |
| TestimonialsAdmin.MaxOrder | src/components/TestimonialsManager.tsx:76 | the maximum is at least 0 and at least every display order |
| TestimonialsAdmin.MaxOrderAttained | src/components/TestimonialsManager.tsx:76 | the maximum is 0 or the display order of some row, so it is the least such bound |
| TestimonialsAdmin.FormComplete | src/components/TestimonialsManager.tsx:56-59 | defines the validation: title and description are both non-empty |
| TestimonialsAdmin.NewRow | src/components/TestimonialsManager.tsx:77-86 | the inserted row carries the form's title, description, image, visibility and category, the new display order and the backend's id and time |
| TestimonialsAdmin.NewRowRoundTrip | src/components/TestimonialsManager.tsx:77-86 | opening an inserted row for editing shows exactly the form it was inserted from |
| TestimonialsAdmin.Edited | src/components/TestimonialsManager.tsx:62-72 | the update writes the form's fields, including the form's category, into the row with the id and nothing else: ids, display orders, creation times and other rows stay |
| TestimonialsAdmin.Deleted | src/components/TestimonialsManager.tsx:103-106 | exactly the rows with other ids remain, none added or duplicated |
| TestimonialsAdmin.DeletedKeepsIdsUnique | src/components/TestimonialsManager.tsx:103-106 | deleting keeps ids unique |
| TestimonialsAdmin.Toggled | src/components/TestimonialsManager.tsx:118-121 | the row with the id gets the opposite of the given state and every other row stays |
| TestimonialsAdmin.ToggledKeepsIdsUnique | src/components/TestimonialsManager.tsx:118-121 | toggling keeps ids unique |
| TestimonialsAdmin.WithOrder | src/components/TestimonialsManager.tsx:166-169 | the row with the id gets the display order and every other row stays |
| TestimonialsAdmin.MoveIsNoOp | src/components/TestimonialsManager.tsx:155-157 | defines the moves that do nothing: the first row up and the last row down |
| TestimonialsAdmin.MoveTarget | src/components/TestimonialsManager.tsx:159 | defines the neighbour's index: one less for up, one more for down |
| TestimonialsAdmin.Reordered | src/components/TestimonialsManager.tsx:165-174 | the moved row takes the new index, its neighbour the old index, and all other rows and fields stay |
| TestimonialsAdmin.MoveCanDuplicateOrders | src/components/TestimonialsManager.tsx:165-174 | orders 1, 2, 3: moving the third row up gives two rows display order 1 |
| TestimonialsAdmin.MoveOrdersAdjacent | src/components/TestimonialsManager.tsx:159-174 | after a move up the moved row's order is below its neighbour's, after a move down above it |
| TestimonialsAdmin.MoveKeepsIdsUnique | src/components/TestimonialsManager.tsx:159-174 | a move's two rows have different ids, the new index is in range, and ids stay unique |
| TestimonialsAdmin.NewOrderAboveAll | src/components/TestimonialsManager.tsx:76-84 | the inserted order is at least 1 and above every existing row's |
| TestimonialsAdmin.InsertedRowGoesLast | src/components/TestimonialsManager.tsx:76-92 | a row with a fresh id and the order one past the maximum shown is above every existing order, keeps ids unique and is listed last after the refetch |
| TestimonialsAdmin.Manager.constructor | src/components/TestimonialsManager.tsx:17-49 | the screen starts with the fetched list, an empty form, no edit and a closed form |
| TestimonialsAdmin.Manager.Fetch | src/components/TestimonialsManager.tsx:35-49 | the list becomes the table in display order |
| TestimonialsAdmin.Manager.ResetForm | src/components/TestimonialsManager.tsx:142-152 | the form is emptied, the edit cleared and the form closed; table and list stay |
| TestimonialsAdmin.Manager.Edit | src/components/TestimonialsManager.tsx:130-140 | the form holds the row's fields, the edit id is the row's and the form is open |
| TestimonialsAdmin.Manager.Submit | src/components/TestimonialsManager.tsx:53-97 | a form without title or description changes nothing; otherwise the edited row is updated, or a row is inserted above every order and listed last; the form is then reset |
| TestimonialsAdmin.Manager.SaveEdit | src/components/TestimonialsManager.tsx:62-74 | the table becomes the edited table and the invariant holds |
| TestimonialsAdmin.Manager.SaveNew | src/components/TestimonialsManager.tsx:76-88 | the new row is appended with the order one past the maximum shown, and it comes last in the refetched list |
| TestimonialsAdmin.Manager.Delete | src/components/TestimonialsManager.tsx:99-114 | a declined confirmation changes nothing; a confirmed one deletes the row with the id |
| TestimonialsAdmin.Manager.ToggleActive | src/components/TestimonialsManager.tsx:116-128 | the table becomes the toggled table, the list is that table in display order, and the frame leaves the form and edit state alone |
| TestimonialsAdmin.Manager.Move | src/components/TestimonialsManager.tsx:154-179 | the first row up and the last row down change nothing; otherwise the two rows' display orders become each other's list index |

## Left out

- Rendering, styling, images, icons and the layout components around the
  menu and the pages are not modelled. Of the rendered output, only the
  enabled/disabled conditions and click handlers are kept.
- Every backend call is taken to succeed. Error branches that only log or
  alert leave the model's state as it was before the call. Loading flags
  are not modelled.
- The backend assigns ids and creation times. `Submit` and `SaveNew` take
  them as parameters, and the id is required to be fresh.
- The two updates of a move run concurrently in the source (`Promise.all`).
  The model applies both as one step.
- After each write the source calls `fetchTestimonials()` without waiting
  for it. The model applies the write and the refetch as one step. A second
  click before the refetch lands acts, in the source, on a stale list; that
  interleaving is not modelled.
- ProductCard.HasDiscount: a discount price that is `undefined` is
  treated as null. In the source `undefined !== null` holds, so an active
  discount whose price field is missing shows the badge; the model hides
  it.
- `moveTestimonial` builds a swapped copy of the list and never uses it, so
  the copy is not modelled.
- `alert` messages are not modelled. The confirmation dialog of a delete is
  the parameter `confirmed`.
- Sorting.SortBy: equal keys keep their input order, but no contract
  states it. The model thereby fixes one tie order. `Array.prototype.sort`
  is stable, so for the menu this is the source's order. The backend does
  not specify its tie order, so for the testimonial lists the model picks
  the table's order where the backend may return another.
- Menu.NameSortIsOrdered: `localeCompare` is modelled as lexicographic
  order on code points. Locale collation is not modelled.
- Menu.LowerChar: `toLowerCase` lowers ASCII letters only. Other scripts
  and special cases are not modelled.
- ProductCard.EffectivePrice: prices are integers. Floating-point prices,
  the discount percentage and currency formatting are not modelled.
- Stock quantities are natural numbers. A negative stock from the backend
  is outside the model.
- The cart quantity the card displays, the product detail modal, image
  upload and the cart hooks are not part of this model.
- ProductCard.Card.SelectVariation: only clicks on the first three
  variations are possible, and the model requires the index to be among
  them.
- TestimonialsAdmin.Manager.Move: the index must be a position of the
  fetched list, as the rendered buttons guarantee.
