/**
  The decision core of the product wishlist button container: which item a
  product and a selected variant index stand for, the two flags the button is
  rendered with, and what a click on "add" or "remove" asks the store to do.

  Everything the container gets from outside is an input here: the props (the
  product, the quantity, the selected variant index, the wishlist store's
  loading flag and its map of wishlisted products), whether the customer is
  signed in, and the product utility that computes a variant's extension
  attributes. The notification and the two wishlist dispatchers are not
  called; the decision returns the `Command` that the container would issue.
 */
module ProductWishlistButton {

  import opened Wrappers

  type Sku = string

  /** A property bag whose contents the container never inspects. */
  type Attributes = map<string, string>

  /** The `type_id` that makes a product configurable. */
  const CONFIGURABLE: string := "configurable"

  /** Default props: the quantity sent with an add, and the "no variant selected" index. */
  const DEFAULT_QUANTITY: int := 1
  const DEFAULT_VARIANT_INDEX: int := -2

  /** The notification type both refusals are shown with. */
  const NOTIFICATION_ERROR: string := "error"

  /** `product_option`: the option data sent along with an added item. */
  datatype ProductOption = ProductOption(extensionAttributes: Attributes)

  /** One entry of `product.variants`; `fields` are all its other properties. */
  datatype Variant = Variant(sku: Sku, productOption: Option<ProductOption>, fields: Attributes)

  /** A catalog product; `variants` is empty when the product has none. */
  datatype Product = Product(
    sku: Sku,
    typeId: string,
    variants: seq<Variant>,
    productOption: Option<ProductOption>,
    fields: Attributes)

  /** What the wishlist store keeps per wishlisted sku; removal needs its `item_id`. */
  datatype WishlistEntry = WishlistEntry(itemId: int)

  /** `productsInWishlist`, keyed by sku. */
  type Wishlist = map<Sku, WishlistEntry>

  /** The container's props once the store has been mapped into them. */
  datatype Props = Props(
    product: Product,
    quantity: int,
    configurableVariantIndex: int,
    isLoading: bool,
    productsInWishlist: Wishlist)

  /** The product utility that computes extension attributes for a product and a variant index. */
  type ExtensionAttributesOf = (Product, int) -> Attributes

  /** What resolution hands back when it succeeds: the product itself, or a variant merged with option data. */
  datatype Item = ProductItem(product: Product) | VariantItem(variant: Variant) {

    function ItemSku(): Sku {
      match this
      case ProductItem(p) => p.sku
      case VariantItem(v) => v.sku
    }

    function ItemOption(): Option<ProductOption> {
      match this
      case ProductItem(p) => p.productOption
      case VariantItem(v) => v.productOption
    }
  }

  /** The result of resolution: `ERROR_CONFIGURABLE_NOT_PROVIDED`, or an item. */
  datatype Resolution = ErrorConfigurableNotProvided | Resolved(item: Item)

  /** The two refusals the customer is told about. */
  datatype Message = LoginRequired | SelectVariantFirst

  /** The one effect a toggle has. */
  datatype Command =
    | NoAction
    | ShowNotification(kind: string, message: Message)
    | AddToWishlist(sku: Sku, productOption: Option<ProductOption>, quantity: int)
    | RemoveFromWishlist(itemId: int, sku: Sku)
  {
    /** True for the two commands that change the wishlist. */
    predicate IsWishlistAction() {
      AddToWishlist? || RemoveFromWishlist?
    }
  }

  predicate IsConfigurable(product: Product) {
    product.typeId == CONFIGURABLE
  }

  /**
    The selection is one the container can resolve: a configurable product's
    index must not point past its variants (the container never checks this
    and would read an undefined variant).
   */
  predicate ValidSelection(product: Product, index: int) {
    !IsConfigurable(product) || index < |product.variants|
  }

  /**
    The props the container sees when the parent leaves `quantity` or
    `configurableVariantIndex` out.
   */
  function WithDefaults(
    product: Product,
    isLoading: bool,
    productsInWishlist: Wishlist,
    quantity: Option<int>,
    configurableVariantIndex: Option<int>): (props: Props)
    ensures props.product == product && props.isLoading == isLoading
    ensures props.productsInWishlist == productsInWishlist
    ensures quantity.Some? ==> props.quantity == quantity.value
    ensures quantity.None? ==> props.quantity == 1
    ensures configurableVariantIndex.Some? ==> props.configurableVariantIndex == configurableVariantIndex.value
    ensures configurableVariantIndex.None? ==> props.configurableVariantIndex == -2
  {
    Props(
      product,
      match quantity case Some(q) => q case None => DEFAULT_QUANTITY,
      match configurableVariantIndex case Some(i) => i case None => DEFAULT_VARIANT_INDEX,
      isLoading,
      productsInWishlist)
  }

  /**
    `_getProductVariant`: a product that is not configurable stands for
    itself whatever the index; a configurable one fails while no variant is
    selected (a negative index), and otherwise stands for the selected
    variant with its `product_option` replaced by the extension attributes
    computed for the product and that index.
   */
  function Resolve(product: Product, index: int, ext: ExtensionAttributesOf): (r: Resolution)
    requires ValidSelection(product, index)
    ensures r.ErrorConfigurableNotProvided? <==> IsConfigurable(product) && index < 0
    ensures !IsConfigurable(product) ==> r == Resolved(ProductItem(product))
    ensures IsConfigurable(product) && 0 <= index ==>
      r.Resolved? && r.item.VariantItem? &&
      r.item.ItemSku() == product.variants[index].sku &&
      r.item.variant.fields == product.variants[index].fields &&
      r.item.ItemOption() == Some(ProductOption(ext(product, index)))
  {
    if IsConfigurable(product) then
      if index < 0 then ErrorConfigurableNotProvided
      else
        var extensionAttributes := ext(product, index);
        var variant := product.variants[index];
        Resolved(VariantItem(variant.(productOption := Some(ProductOption(extensionAttributes)))))
    else
      Resolved(ProductItem(product))
  }

  /** `isDisabled`: the button is disabled while no variant is selected or the wishlist is loading. */
  function IsDisabled(props: Props, ext: ExtensionAttributesOf): (disabled: bool)
    requires ValidSelection(props.product, props.configurableVariantIndex)
    ensures disabled <==>
      props.isLoading ||
      (IsConfigurable(props.product) && props.configurableVariantIndex < 0)
  {
    var resolution := Resolve(props.product, props.configurableVariantIndex, ext);
    if resolution.ErrorConfigurableNotProvided? then true
    else props.isLoading
  }

  /**
    `isInWishlist`: false while no variant is selected; otherwise whether the
    sku of the resolved item (the selected variant's, or the product's own)
    is a key of the wishlist.
   */
  function IsInWishlist(props: Props, ext: ExtensionAttributesOf): (inWishlist: bool)
    requires ValidSelection(props.product, props.configurableVariantIndex)
    ensures IsConfigurable(props.product) && props.configurableVariantIndex < 0 ==> !inWishlist
    ensures !IsConfigurable(props.product) ==>
      (inWishlist <==> props.product.sku in props.productsInWishlist)
    ensures IsConfigurable(props.product) && 0 <= props.configurableVariantIndex ==>
      (inWishlist <==> props.product.variants[props.configurableVariantIndex].sku in props.productsInWishlist)
  {
    var resolution := Resolve(props.product, props.configurableVariantIndex, ext);
    if resolution.ErrorConfigurableNotProvided? then false
    else resolution.item.ItemSku() in props.productsInWishlist
  }

  /**
    What `toggleProductInWishlist` needs of its inputs. Past the loading and
    sign-in guards the selection must be resolvable, and a removal of a
    resolved item dereferences the wishlist entry of the item's sku without
    checking that it exists.
   */
  predicate ToggleDefined(props: Props, signedIn: bool, ext: ExtensionAttributesOf, add: bool) {
    props.isLoading || !signedIn ||
    (ValidSelection(props.product, props.configurableVariantIndex) &&
     (add ||
      var resolution := Resolve(props.product, props.configurableVariantIndex, ext);
      resolution.ErrorConfigurableNotProvided? || resolution.item.ItemSku() in props.productsInWishlist))
  }

  /**
    `toggleProductInWishlist(add)`: the guards are tried in order (loading,
    then sign-in, then variant resolution) and the first that trips decides
    the outcome. An add sends the parent product's sku with the resolved
    item's `product_option` and the quantity; a remove sends the resolved
    item's sku with the `item_id` the wishlist holds for it.
   */
  function Toggle(props: Props, signedIn: bool, ext: ExtensionAttributesOf, add: bool): (c: Command)
    requires ToggleDefined(props, signedIn, ext, add)
    ensures props.isLoading ==> c == NoAction
    ensures !props.isLoading && !signedIn ==> c == ShowNotification(NOTIFICATION_ERROR, LoginRequired)
    ensures !props.isLoading && signedIn && IsConfigurable(props.product) && props.configurableVariantIndex < 0
      ==> c == ShowNotification(NOTIFICATION_ERROR, SelectVariantFirst)
    ensures !props.isLoading && signedIn && !(IsConfigurable(props.product) && props.configurableVariantIndex < 0)
      ==> (if add then c.AddToWishlist? else c.RemoveFromWishlist?)
    ensures c.AddToWishlist? ==> add && c.sku == props.product.sku && c.quantity == props.quantity
    ensures c.AddToWishlist? ==>
      c.productOption ==
        if IsConfigurable(props.product)
        then Some(ProductOption(ext(props.product, props.configurableVariantIndex)))
        else props.product.productOption
    ensures c.RemoveFromWishlist? ==>
      !add && c.sku in props.productsInWishlist && c.itemId == props.productsInWishlist[c.sku].itemId
    ensures c.RemoveFromWishlist? ==>
      c.sku ==
        if IsConfigurable(props.product)
        then props.product.variants[props.configurableVariantIndex].sku
        else props.product.sku
    ensures c.IsWishlistAction() || c.NoAction? || c.kind == NOTIFICATION_ERROR
  {
    if props.isLoading then NoAction
    else if !signedIn then ShowNotification(NOTIFICATION_ERROR, LoginRequired)
    else
      var resolution := Resolve(props.product, props.configurableVariantIndex, ext);
      if resolution.ErrorConfigurableNotProvided? then
        ShowNotification(NOTIFICATION_ERROR, SelectVariantFirst)
      else
        var variantSku := resolution.item.ItemSku();
        if add then AddToWishlist(props.product.sku, resolution.item.ItemOption(), props.quantity)
        else RemoveFromWishlist(props.productsInWishlist[variantSku].itemId, variantSku)
  }
}
