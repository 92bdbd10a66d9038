/** Two concrete uses of the wishlist button, one per kind of product. */
module ProductWishlistButtonScenarios {

  import opened Wrappers
  import opened ProductWishlistButton

  /**
    A simple product "A1" that is not wishlisted, with the default props:
    the button is enabled, shows "not in wishlist", and an add by a signed-in
    customer sends sku "A1" with quantity 1.
   */
  lemma SimpleProductAdd(ext: ExtensionAttributesOf)
    ensures var product := Product("A1", "simple", [], None, map[]);
      var props := WithDefaults(product, false, map[], None, None);
      !IsInWishlist(props, ext) && !IsDisabled(props, ext) &&
      Toggle(props, true, ext, true) == AddToWishlist("A1", None, 1)
  {
  }

  /**
    A configurable product whose only variant "A1-red" is wishlisted under
    item 9, with that variant selected: the button shows "in wishlist" and a
    removal sends item 9 with sku "A1-red".
   */
  lemma ConfigurableVariantRemove(ext: ExtensionAttributesOf)
    ensures var product := Product("A1", CONFIGURABLE, [Variant("A1-red", None, map[])], None, map[]);
      var props := Props(product, 1, 0, false, map["A1-red" := WishlistEntry(9)]);
      IsInWishlist(props, ext) && !IsDisabled(props, ext) &&
      Toggle(props, true, ext, false) == RemoveFromWishlist(9, "A1-red")
  {
  }
}
