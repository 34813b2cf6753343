/** The records of the blog (src/lib/types.ts) and the product catalogue (src/data/products.ts). */
module Types {
  import opened Wrappers

  /** An attribute value of a content block: a plain string, or the SKU list of `products`. */
  datatype AttrValue = Str(s: string) | List(items: seq<string>)

  /**
   * A block found in post content. `attributes` holds every attribute of the
   * tag, `name` included; `name` repeats the `name` attribute.
   */
  datatype CustomBlock = CustomBlock(name: string, attributes: map<string, AttrValue>)

  datatype BlogPost = BlogPost(
    id: string,
    title: string,
    author: string,
    shortSnippet: string,
    coverImage: Option<string>,
    publishedDate: string,
    content: string,
    slug: string)

  datatype Comment = Comment(id: string, postId: string, author: string, content: string, createdAt: string)

  datatype Product = Product(sku: string, name: string, price: string, image: string)

  /** The fixed catalogue the product blocks choose from. */
  const MockProducts: seq<Product> := [
    Product("SKU123", "Mechanical Keyboard", "$99", "/keyboard.jpg"),
    Product("SKU456", "Gaming Mouse", "$49", "/mouse.png"),
    Product("SKU789", "Monitor", "$199", "/monitor.jpg")
  ]
}
