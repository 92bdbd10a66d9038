/**
  Properties that relate the operations of the wishlist button to each other:
  what the default props mean, when some selection enables the button, and
  how a toggle agrees with the two flags the button is rendered with.
 */
module ProductWishlistButtonProperties {

  import opened Wrappers
  import opened ProductWishlistButton

  /**
    With the default index a configurable product is unresolved: the button
    is disabled, the product is never in the wishlist, and a signed-in click
    that is not held back by loading asks the customer to pick a variant.
   */
  lemma DefaultIndexSelectsNothing(
    product: Product, isLoading: bool, wishlist: Wishlist, quantity: Option<int>,
    signedIn: bool, ext: ExtensionAttributesOf, add: bool)
    requires IsConfigurable(product)
    ensures var props := WithDefaults(product, isLoading, wishlist, quantity, None);
      ValidSelection(product, props.configurableVariantIndex) &&
      Resolve(product, props.configurableVariantIndex, ext) == ErrorConfigurableNotProvided &&
      IsDisabled(props, ext) && !IsInWishlist(props, ext) &&
      Toggle(props, signedIn, ext, add) ==
        (if isLoading then NoAction
         else if !signedIn then ShowNotification(NOTIFICATION_ERROR, LoginRequired)
         else ShowNotification(NOTIFICATION_ERROR, SelectVariantFirst))
  {
  }

  /** With the default quantity an enabled, signed-in add sends one unit. */
  lemma DefaultQuantityIsOne(
    product: Product, wishlist: Wishlist, index: Option<int>, ext: ExtensionAttributesOf)
    requires var props := WithDefaults(product, false, wishlist, None, index);
      ValidSelection(product, props.configurableVariantIndex) && !IsDisabled(props, ext)
    ensures var props := WithDefaults(product, false, wishlist, None, index);
      var c := Toggle(props, true, ext, true);
      c.AddToWishlist? && c.quantity == 1 && c.sku == product.sku
  {
  }

  /**
    Some in-range selection (`ValidSelection`) leaves the button enabled
    exactly when the wishlist is not loading and the product is either not
    configurable or has a variant to select.
   */
  lemma SomeSelectionEnables(props: Props, ext: ExtensionAttributesOf)
    ensures (exists i :: ValidSelection(props.product, i) &&
               !IsDisabled(props.(configurableVariantIndex := i), ext))
      <==> !props.isLoading && (!IsConfigurable(props.product) || |props.product.variants| > 0)
  {
    if !props.isLoading && (!IsConfigurable(props.product) || |props.product.variants| > 0) {
      var selected := props.(configurableVariantIndex := 0);
      assert ValidSelection(props.product, 0) && !IsDisabled(selected, ext);
    }
  }

  /**
    A configurable product shows as wishlisted under some in-range selection
    (`ValidSelection`) exactly when one of its variants' skus is a key of the
    wishlist; its own sku plays no part.
   */
  lemma SomeSelectionInWishlist(props: Props, ext: ExtensionAttributesOf)
    requires IsConfigurable(props.product)
    ensures (exists i :: ValidSelection(props.product, i) &&
               IsInWishlist(props.(configurableVariantIndex := i), ext))
      <==> (exists j :: 0 <= j < |props.product.variants| &&
              props.product.variants[j].sku in props.productsInWishlist)
  {
    var variants := props.product.variants;
    if j :| 0 <= j < |variants| && variants[j].sku in props.productsInWishlist {
      var selected := props.(configurableVariantIndex := j);
      assert ValidSelection(props.product, j) && IsInWishlist(selected, ext);
    }
    if i :| ValidSelection(props.product, i) && IsInWishlist(props.(configurableVariantIndex := i), ext) {
      assert 0 <= i < |variants| && variants[i].sku in props.productsInWishlist;
    }
  }

  /**
    A toggle changes the wishlist exactly when the customer is signed in and
    the button is enabled; otherwise it does nothing or shows one error.
   */
  lemma ToggleActsIffEnabled(props: Props, signedIn: bool, ext: ExtensionAttributesOf, add: bool)
    requires ValidSelection(props.product, props.configurableVariantIndex)
    requires ToggleDefined(props, signedIn, ext, add)
    ensures Toggle(props, signedIn, ext, add).IsWishlistAction() <==> signedIn && !IsDisabled(props, ext)
    ensures IsDisabled(props, ext) || !signedIn ==>
      Toggle(props, signedIn, ext, add) in
        {NoAction, ShowNotification(NOTIFICATION_ERROR, LoginRequired),
         ShowNotification(NOTIFICATION_ERROR, SelectVariantFirst)}
  {
  }

  /**
    On an enabled button a signed-in removal can be carried out exactly when
    the button shows the item as wishlisted: the entry it dereferences is the
    one `IsInWishlist` looks for.
   */
  lemma RemoveDefinedIffInWishlist(props: Props, signedIn: bool, ext: ExtensionAttributesOf)
    requires ValidSelection(props.product, props.configurableVariantIndex)
    requires signedIn && !IsDisabled(props, ext)
    ensures ToggleDefined(props, signedIn, ext, false) <==> IsInWishlist(props, ext)
  {
  }

  /**
    Every enabled, signed-in add sends the parent product's sku, the
    quantity, and the resolved item's `product_option`: the option data
    computed for the selected variant, or the product's own.
   */
  lemma AddPayload(props: Props, ext: ExtensionAttributesOf)
    requires ValidSelection(props.product, props.configurableVariantIndex)
    requires !IsDisabled(props, ext)
    ensures var added := Toggle(props, true, ext, true);
      added == AddToWishlist(
        props.product.sku,
        if IsConfigurable(props.product)
        then Some(ProductOption(ext(props.product, props.configurableVariantIndex)))
        else props.product.productOption,
        props.quantity)
  {
  }

  /**
    An enabled, signed-in remove of a wishlisted item sends the sku that
    `IsInWishlist` checks (the selected variant's for a configurable
    product, so not the parent sku an add sends) with its item id.
   */
  lemma RemovePayload(props: Props, ext: ExtensionAttributesOf)
    requires ValidSelection(props.product, props.configurableVariantIndex)
    requires !IsDisabled(props, ext) && IsInWishlist(props, ext)
    ensures var sku :=
        if IsConfigurable(props.product)
        then props.product.variants[props.configurableVariantIndex].sku
        else props.product.sku;
      sku in props.productsInWishlist &&
      Toggle(props, true, ext, false) == RemoveFromWishlist(props.productsInWishlist[sku].itemId, sku)
  {
  }
}
