/** The product record as the filter and sort stages see it. */
module Products {

  /** A catalog entry. Only the fields the pipeline reads are kept; the price
      is an integer (see README). */
  datatype Product = Product(id: int, title: string, category: string, price: int)
}
