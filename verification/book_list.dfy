/** The library grid: the optional tag filter and the empty-shelf state. */
module BookList {
  import opened JsValues
  import opened Books
  import Seqs
  import UseBooks

  function HasTag(tag: string): Book -> bool {
    (b: Book) => b.tags.Some? && tag in b.tags.value
  }

  /** `filteredBooks`: no filter (null or empty tag) shows every book;
      otherwise the books whose tags include the tag, in order. Books with no
      tags never match a tag. */
  function FilteredBooks(books: seq<Book>, filterTag: Option<string>): (r: seq<Book>)
    ensures |r| <= |books|
    ensures filterTag.None? || filterTag.value == "" ==> r == books
    ensures filterTag.Some? && filterTag.value != "" ==>
      forall i :: 0 <= i < |r| ==> r[i] in books && r[i].tags.Some? && filterTag.value in r[i].tags.value
    ensures filterTag.Some? && filterTag.value != "" ==>
      forall i :: 0 <= i < |books| && books[i].tags.Some? && filterTag.value in books[i].tags.value ==> books[i] in r
  {
    if filterTag.None? || filterTag.value == "" then books
    else Seqs.Filter(books, HasTag(filterTag.value))
  }

  /** The filter keeps relative order: it distributes over concatenation. */
  lemma FilteredKeepsOrder(a: seq<Book>, b: seq<Book>, filterTag: Option<string>)
    ensures FilteredBooks(a + b, filterTag) == FilteredBooks(a, filterTag) + FilteredBooks(b, filterTag)
  {
    if filterTag.Some? && filterTag.value != "" {
      Seqs.FilterConcat(a, b, HasTag(filterTag.value));
    }
  }

  /** Filtering the shelf and a realtime delete may happen in either order. */
  lemma FilterCommutesWithDelete(books: seq<Book>, filterTag: Option<string>, id: string)
    ensures FilteredBooks(UseBooks.RemoveById(books, id), filterTag)
         == UseBooks.RemoveById(FilteredBooks(books, filterTag), id)
  {
    if filterTag.Some? && filterTag.value != "" {
      Seqs.FilterCommutes(books, UseBooks.LacksId(id), HasTag(filterTag.value));
    }
  }

  datatype ListView = EmptyShelf | Grid(cards: seq<Book>)

  /** The empty state depends on the unfiltered books only: a filter that
      matches nothing still renders an (empty) grid. */
  function View(books: seq<Book>, filterTag: Option<string>): (v: ListView)
    ensures v.EmptyShelf? <==> |books| == 0
    ensures v.Grid? ==> v.cards == FilteredBooks(books, filterTag)
  {
    if |books| == 0 then EmptyShelf else Grid(FilteredBooks(books, filterTag))
  }

  /** A non-empty shelf whose only book lacks the tag shows an empty grid,
      not the empty-shelf message. */
  lemma NoMatchIsNotEmptyShelf(b: Book, tag: string)
    requires tag != "" && b.tags.None?
    ensures View([b], Some(tag)) == Grid([])
  {
    assert [b][1..] == [];
  }
}
