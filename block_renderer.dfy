/**
 * What a content block renders as (src/app/components/blog/CustomBlockRenderer.tsx):
 * a switch on the block's name, and for the product blocks the products of the
 * catalogue whose SKU the block lists. The markup is left out; the result
 * says which elements are shown and with what.
 */
module BlockRenderer {
  import opened Wrappers
  import opened JsText
  import opened Seqs
  import opened Types

  /** The product area of a product block: a grid of cards, or the "no products" message. */
  datatype ProductSection = Grid(products: seq<Product>) | NoProducts

  datatype BlockView =
    | ProductsBlock(heading: string, image: Option<AttrValue>, section: ProductSection)
    | ImageShowcase(image: Option<AttrValue>)
    | UnknownBlock(name: string)

  /** `block[key]`, absent when the block has no such attribute. */
  function Property(block: CustomBlock, key: string): (v: Option<AttrValue>)
    ensures v.Some? <==> key in block.attributes
    ensures v.Some? ==> v.value == block.attributes[key]
  {
    if key in block.attributes then Some(block.attributes[key]) else None
  }

  /** JavaScript truthiness of a property: absent and `""` are false, an array is true. */
  predicate Truthy(v: Option<AttrValue>) {
    match v
    case None => false
    case Some(Str(s)) => s != ""
    case Some(List(_)) => true
  }

  /** `value.includes(sku)`: a substring test on a string, an element test on an array. */
  predicate Includes(value: AttrValue, sku: string) {
    match value
    case Str(s) => IndexOf(s, sku, 0).Some?
    case List(items) => sku in items
  }

  /** `block.products ? MOCK_PRODUCTS.filter(p => block.products.includes(p.sku)) : []`. */
  function SelectProducts(products: Option<AttrValue>): seq<Product> {
    if Truthy(products) then Filter(MockProducts, (p: Product) => Includes(products.value, p.sku)) else []
  }

  /** The product is in the catalogue and the block lists its SKU. */
  predicate Listed(products: Option<AttrValue>, p: Product) {
    p in MockProducts && Truthy(products) && Includes(products.value, p.sku)
  }

  /** The image is shown only when `block.image` is truthy. */
  function ShownImage(block: CustomBlock): (img: Option<AttrValue>)
    ensures img.Some? <==> Truthy(Property(block, "image"))
    ensures img.Some? ==> img.value == block.attributes["image"]
  {
    var v := Property(block, "image");
    if Truthy(v) then v else None
  }

  function Render(block: CustomBlock): BlockView {
    match block.name
    case "Top Picks" => RenderProducts(block)
    case "Product List" => RenderProducts(block)
    case "Image Showcase" => ImageShowcase(ShownImage(block))
    case _ => UnknownBlock(block.name)
  }

  /** The shared path of 'Top Picks' and 'Product List'. */
  function RenderProducts(block: CustomBlock): BlockView {
    var selected := SelectProducts(Property(block, "products"));
    ProductsBlock(block.name, ShownImage(block), if |selected| > 0 then Grid(selected) else NoProducts)
  }

  /** The catalogue holds each SKU once. */
  lemma CatalogueSkusDistinct()
    ensures forall i, j :: 0 <= i < j < |MockProducts| ==> MockProducts[i].sku != MockProducts[j].sku
  {
  }

  /**
   * The products shown are exactly the catalogue products the block lists, in
   * catalogue order, each once, however often the block lists its SKU.
   */
  lemma SelectedProducts(products: Option<AttrValue>)
    ensures forall p :: p in SelectProducts(products) <==> Listed(products, p)
    ensures IsSubsequence(SelectProducts(products), MockProducts)
    ensures Distinct(SelectProducts(products))
  {
    if Truthy(products) {
      var keep := (p: Product) => Includes(products.value, p.sku);
      FilterMembers(MockProducts, keep);
      FilterOrder(MockProducts, keep);
      CatalogueSkusDistinct();
      FilterDistinct(MockProducts, keep);
    }
  }

  /** 'Top Picks' and 'Product List' render the same way: only the heading, which is the name, differs. */
  lemma ProductBlocksAlike(attributes: map<string, AttrValue>)
    ensures var top := Render(CustomBlock("Top Picks", attributes));
            var list := Render(CustomBlock("Product List", attributes));
            && top.ProductsBlock? && list.ProductsBlock?
            && top.heading == "Top Picks" && list.heading == "Product List"
            && top.image == list.image && top.section == list.section
  {
  }

  /**
   * Which view a block gets: the product view for 'Top Picks' and 'Product
   * List', the showcase for 'Image Showcase', and for any other name the
   * "Unknown block" notice naming it.
   */
  lemma RenderDispatch(block: CustomBlock)
    ensures Render(block).ProductsBlock? <==> block.name == "Top Picks" || block.name == "Product List"
    ensures Render(block).ImageShowcase? <==> block.name == "Image Showcase"
    ensures Render(block).UnknownBlock? <==>
              block.name != "Top Picks" && block.name != "Product List" && block.name != "Image Showcase"
    ensures Render(block).UnknownBlock? ==> Render(block).name == block.name
    ensures !Render(block).UnknownBlock? ==> Render(block).image == ShownImage(block)
  {
  }

  /** A product block shows the "no products" message exactly when the block lists no catalogue SKU. */
  lemma NoProductsMessage(block: CustomBlock)
    requires block.name == "Top Picks" || block.name == "Product List"
    ensures Render(block).section.NoProducts? <==> forall p :: !Listed(Property(block, "products"), p)
    ensures Render(block).section.Grid? ==> Render(block).section.products == SelectProducts(Property(block, "products"))
  {
    var v := Property(block, "products");
    SelectedProducts(v);
    if SelectProducts(v) != [] {
      assert SelectProducts(v)[0] in SelectProducts(v);
    }
  }
}
