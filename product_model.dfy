/** The `products` row as the inventory service uses it. */
module ProductModel {
  import opened Wrappers
  import opened Store

  /**
   * A row of `products`. Its key `product_id` is what inventory rows refer to;
   * the floating-point price is not part of this model.
   */
  datatype Product = Product(
    productId: i32,
    productName: string,
    productDesc: Option<string>,
    productCategory: string)

  /** The ids of a product list. */
  function ProductIds(products: seq<Product>): (ids: set<i32>)
    ensures forall p :: p in products ==> p.productId in ids
    ensures forall id :: id in ids ==> exists p :: p in products && p.productId == id
  {
    set p | p in products :: p.productId
  }

  /** The list was read from `products`, whose key is `product_id`: no id repeats. */
  predicate DistinctProductIds(products: seq<Product>) {
    forall i, j :: 0 <= i < j < |products| ==> products[i].productId != products[j].productId
  }
}
