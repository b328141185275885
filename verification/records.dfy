/** The book record shared by both scripts (the `Book` dataclass). */
module Records {

  datatype Option<T> = None | Some(value: T)

  /** A book scraped from the wish list. `rating` is a float in the scripts;
      nothing here computes with it, so it is carried as a `real`. */
  datatype Book = Book(
    title: string,
    doubanUrl: string,
    coverImage: Option<string>,
    authors: seq<string>,
    publisher: Option<string>,
    publishDate: Option<string>,
    rating: Option<real>,
    ratingCount: Option<int>,
    summary: Option<string>,
    rawPub: Option<string>,
    bookId: Option<string>,
    addedAt: Option<string>)

  /** Python truthiness of an optional string: present and non-empty. */
  predicate Truthy(o: Option<string>)
  {
    o.Some? && o.value != ""
  }

  /** `o or ""`. */
  function OrEmpty(o: Option<string>): (r: string)
    ensures r != "" <==> Truthy(o)
    ensures Truthy(o) ==> r == o.value
  {
    if o.Some? then o.value else ""
  }

  /** Two books agree on every field except the cover reference. */
  predicate SameExceptCover(a: Book, b: Book)
  {
    a.(coverImage := b.coverImage) == b
  }
}
