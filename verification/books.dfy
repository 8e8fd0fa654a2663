/** The record shapes of the `books` table: a stored row, the fields a new row
    is inserted with, and the partial updates the views send. */
module Books {
  import opened JsValues

  /** One stored row. `id` and `createdAt` are assigned by the store; every
      other field may be null. `rating` is conceptually 0..5 but unchecked. */
  datatype Book = Book(
    id: string,
    isbn: Option<string>,
    title: string,
    coverUrl: Option<string>,
    tags: Option<seq<string>>,
    rating: Option<int>,
    comment: Option<string>,
    createdAt: string)

  /** The fields of an insert: no `id`, no `createdAt`; absent optional fields
      are simply not sent. */
  datatype NewBook = NewBook(
    isbn: Option<string>,
    title: string,
    coverUrl: Option<string>,
    tags: Option<seq<string>>,
    rating: Option<int>,
    comment: Option<string>)

  /** A `Partial<Book>` restricted to the two fields the views ever update;
      `None` means the field is not part of the update. */
  datatype Patch = Patch(rating: Option<int>, comment: Option<string>)

  /** The row the store holds after applying `p` to `b`: present fields
      overwrite, absent ones are kept. */
  function ApplyPatch(b: Book, p: Patch): Book {
    b.(rating := if p.rating.Some? then p.rating else b.rating,
       comment := if p.comment.Some? then p.comment else b.comment)
  }
}
