# Product wishlist button: decision core

A model of the decision logic inside ScandiPWA's `ProductWishlistButton`
container (`src/app/component/ProductWishlistButton/ProductWishlistButton.container.js`).
The container turns a product and the index of the variant the customer has
selected into the item the wishlist talks about, derives the button's
`isDisabled` and `isInWishlist` flags, and decides what a click on "add to
wishlist" or "remove from wishlist" does.

The model is pure, as the container is: every container method reads props and
computes by early returns, so each becomes a Dafny function.

- `wrappers.dfy`, module `Wrappers`: `Option`, standing for a property that may
  be `undefined`.
- `wishlist_button.dfy`, module `ProductWishlistButton`:
  - the data (product, variant, `product_option`, wishlist entry, props);
  - the default props (`quantity = 1`, `configurableVariantIndex = -2`);
  - variant resolution (`Resolve`, which is `_getProductVariant`);
  - the two flags (`IsDisabled`, `IsInWishlist`);
  - the toggle (`Toggle`, which is `toggleProductInWishlist`).
- `wishlist_button_properties.dfy`, module `ProductWishlistButtonProperties`:
  lemmas that relate these operations to each other.
- `wishlist_button_scenarios.dfy`, module `ProductWishlistButtonScenarios`: two
  concrete uses, one per kind of product.

The container's inputs come from outside it, so they are parameters:

- the props, including the wishlist store's `isLoading` flag and its
  `productsInWishlist` map, are a `Props` value;
- `isSignedIn()` from the auth utility is a `signedIn: bool` argument;
- `getExtensionAttributes` from the product utility is an arbitrary function
  `ext: (Product, int) -> Attributes` of the product and the index.

The container's effects are `showNotification('error', …)`,
`addProductToWishlist({ sku, product_option, quantity })` and
`removeProductFromWishlist({ item_id, sku })`. Each becomes a constructor of
`Command`, and the toggle returns one `Command`. The early `return null` while
loading is `NoAction`.

Two behaviours of the source are kept as they are:

- An add sends the parent product's `sku`. A remove sends the resolved
  variant's `sku`, and `isInWishlist` checks that same variant sku. See
  `AddPayload` and `RemovePayload`.
- A remove dereferences `productsInWishlist[variantSku]` without checking that
  the key exists. `Toggle` therefore requires `ToggleDefined`, which demands
  that key only on the path that reaches the lookup. `RemoveDefinedIffInWishlist`
  shows that on an enabled button this is exactly `IsInWishlist`.

## Model

| member | source | states |
|---|---|---|
| `ProductWishlistButton.WithDefaults` | src/app/component/ProductWishlistButton/ProductWishlistButton.container.js:47-50 | a left-out quantity becomes 1 and a left-out variant index becomes -2; given values and all other props pass through unchanged |
| `ProductWishlistButton.Resolve` | src/app/component/ProductWishlistButton/ProductWishlistButton.container.js:109-126 | resolution fails exactly for a configurable product with a negative index; a non-configurable product resolves to itself whatever the index; a configurable one with index i resolves to a variant with the sku and other fields of `variants[i]` and a `product_option` holding the extension attributes computed for (product, i) |
| `ProductWishlistButton.IsDisabled` | src/app/component/ProductWishlistButton/ProductWishlistButton.container.js:91-97 | disabled exactly when the wishlist is loading or a configurable product has no variant selected |
| `ProductWishlistButton.IsInWishlist` | src/app/component/ProductWishlistButton/ProductWishlistButton.container.js:99-107 | false while no variant is selected; otherwise true exactly when the selected variant's sku (configurable) or the product's own sku (otherwise) is a key of the wishlist |
| `ProductWishlistButton.Toggle` | src/app/component/ProductWishlistButton/ProductWishlistButton.container.js:62-89 | loading gives no action even when signed out; otherwise signed out gives the one "login" error notification; otherwise an unselected variant gives the one "select variant" error notification; otherwise an add or a remove, as asked; an add carries the parent sku, the quantity and the resolved item's `product_option` (the extension attributes for (product, index) on a configurable product, the product's own otherwise); a remove carries the resolved item's sku (the selected variant's, or the product's own), which is a wishlist key, and that key's item id |
| `ProductWishlistButtonProperties.DefaultIndexSelectsNothing` | src/app/component/ProductWishlistButton/ProductWishlistButton.container.js:109-117 | under the default index a configurable product fails to resolve, the button is disabled and not wishlisted, and a toggle gives no action, the login error or the select-variant error, in guard order |
| `ProductWishlistButtonProperties.DefaultQuantityIsOne` | src/app/component/ProductWishlistButton/ProductWishlistButton.container.js:47-48 | with the quantity left out, an enabled signed-in add sends quantity 1 and the parent sku |
| `ProductWishlistButtonProperties.SomeSelectionEnables` | src/app/component/ProductWishlistButton/ProductWishlistButton.container.js:91-97 | some in-range index (`ValidSelection`) leaves the button enabled if and only if the wishlist is not loading and the product is not configurable or has at least one variant |
| `ProductWishlistButtonProperties.SomeSelectionInWishlist` | src/app/component/ProductWishlistButton/ProductWishlistButton.container.js:99-107 | a configurable product shows as wishlisted under some in-range index (`ValidSelection`) if and only if some variant's sku is a wishlist key |
| `ProductWishlistButtonProperties.ToggleActsIffEnabled` | src/app/component/ProductWishlistButton/ProductWishlistButton.container.js:73-97 | a toggle dispatches an add or a remove if and only if the customer is signed in and `IsDisabled` is false; otherwise it is no action or one of the two error notifications |
| `ProductWishlistButtonProperties.RemoveDefinedIffInWishlist` | src/app/component/ProductWishlistButton/ProductWishlistButton.container.js:84-107 | on an enabled button with a signed-in customer, the lookup the remove path makes succeeds if and only if `IsInWishlist` is true |
| `ProductWishlistButtonProperties.AddPayload` | src/app/component/ProductWishlistButton/ProductWishlistButton.container.js:62-85 | every enabled add by a signed-in customer sends the parent sku, the quantity, and the resolved `product_option`: the extension attributes computed for (product, index) on a configurable product, the product's own `product_option` otherwise |
| `ProductWishlistButtonProperties.RemovePayload` | src/app/component/ProductWishlistButton/ProductWishlistButton.container.js:84-88 | an enabled, wishlisted remove by a signed-in customer sends the selected variant's sku (configurable) or the product's own sku (otherwise), which is a wishlist key, with that key's item id |
| `ProductWishlistButtonScenarios.SimpleProductAdd` | src/app/component/ProductWishlistButton/ProductWishlistButton.container.js:62-126 | simple product "A1", empty wishlist, default props: enabled, not wishlisted, and an add sends sku "A1" with quantity 1 |
| `ProductWishlistButtonScenarios.ConfigurableVariantRemove` | src/app/component/ProductWishlistButton/ProductWishlistButton.container.js:62-126 | configurable product with wishlisted variant "A1-red" (item 9) selected: wishlisted, enabled, and a remove sends item 9 with sku "A1-red" |

## Left out

- React rendering: `render`, the `containerProps`/`containerFunctions` binding and the PropTypes. This is UI framework plumbing. The bound `addToWishlist`/`removeFromWishlist` are `Toggle` with `add` true or false.
- The Redux wiring: `connect`, `mapStateToProps` and `mapDispatchToProps`. The store values they map are plain inputs in `Props`.
- `isSignedIn`, `getExtensionAttributes`, `showNotification` and the two `WishlistDispatcher` calls. These are foreign or asynchronous calls. The first two are parameters; the rest are the returned `Command`. What the store's reducers then do is not modelled.
- The translated message texts and the translation helper. The two messages are the tags `LoginRequired` and `SelectVariantFirst`.
- A configurable product's index at or past the end of `variants`. The source reads an undefined variant there and builds an item without a sku. `Resolve`, `IsDisabled` and `IsInWishlist` require `ValidSelection` instead. `Toggle` requires it only past the loading and sign-in guards, because resolution happens after them.
- IsDisabled: requires `ValidSelection` although the source, given an index past the end, still returns `isLoading`. This follows from the item without a sku not being modelled.
- The default `add = true` of `toggleProductInWishlist`: `Toggle` takes `add` as a required argument, since the container always passes it when binding the two handlers.
- JavaScript's `in` operator and property lookup also see inherited keys such as `"constructor"`. Wishlist membership here is only the map's own keys.
- The index and quantity are integers. Fractional or `NaN` JavaScript numbers are not modelled.
- The return value of the dispatcher calls (a promise) is not modelled. Only which command is issued is.
