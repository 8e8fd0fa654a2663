/** A book card and its detail sheet: star and heart display, the update
    requests sent by star clicks and comment edits, and the confirmed delete. */
module BookCard {
  import opened JsValues
  import opened Books
  import UseBooks
  import Seqs

  /** Stars rendered per card. */
  const StarCount := 5

  /** `rating || 0`: a null (or zero) rating counts as 0. */
  function RatingOrZero(rating: Option<int>): int {
    OrElse(rating, 0)
  }

  function Clamp(x: int, lo: int, hi: int): int
    requires lo <= hi
  {
    if x < lo then lo else if x > hi then hi else x
  }

  /** Star `i` (from 0) is drawn filled. */
  predicate StarFilled(rating: Option<int>, i: int) {
    i < RatingOrZero(rating)
  }

  /** How many of stars `0 .. k-1` are filled. */
  function FilledAmong(rating: Option<int>, k: nat): (n: nat)
    ensures n == Clamp(RatingOrZero(rating), 0, k)
  {
    if k == 0 then 0
    else FilledAmong(rating, k - 1) + (if StarFilled(rating, k - 1) then 1 else 0)
  }

  /** The filled stars of a card: the rating clamped into 0..5. */
  function FilledStars(rating: Option<int>): (n: nat)
    ensures n <= StarCount
    ensures n == Clamp(RatingOrZero(rating), 0, StarCount)
  {
    FilledAmong(rating, StarCount)
  }

  /** The favourite heart. */
  predicate ShowsHeart(rating: Option<int>) {
    RatingOrZero(rating) >= 4
  }

  /** The heart shows exactly when at least four stars are filled; a null
      rating shows neither. */
  lemma HeartIffFourStars(rating: Option<int>)
    ensures ShowsHeart(rating) <==> FilledStars(rating) >= 4
    ensures rating.None? ==> !ShowsHeart(rating) && FilledStars(rating) == 0
  {
  }

  /** Clicking star `i` updates only the rating, to `i + 1`. */
  function ClickStar(b: Book, i: nat): (req: UseBooks.Request)
    requires i < StarCount
    ensures req.UpdateWhereId? && req.id == b.id
    ensures req.patch.comment.None?
    ensures req.patch.rating.Some? && 1 <= req.patch.rating.value <= StarCount
    ensures req.patch.rating.value == i + 1
  {
    UseBooks.UpdateWhereId(b.id, Patch(Some(i + 1), None))
  }

  /** Leaving the comment box updates only the comment, to the text typed. */
  function BlurComment(b: Book, text: string): (req: UseBooks.Request)
    ensures req.UpdateWhereId? && req.id == b.id
    ensures req.patch.rating.None? && req.patch.comment == Some(text)
  {
    UseBooks.UpdateWhereId(b.id, Patch(None, Some(text)))
  }

  /** Once the store has applied a star click and its update event has reached
      the collection, the book in that position shows exactly `i + 1` filled
      stars, the heart exactly from the fourth star on, and its comment is kept. */
  lemma StarClickRoundTrip(books: seq<Book>, k: nat, i: nat)
    requires k < |books| && i < StarCount
    ensures var row := ApplyPatch(books[k], ClickStar(books[k], i).patch);
      var after := UseBooks.ApplyEvent(books, UseBooks.Update(row));
      && FilledStars(after[k].rating) == i + 1
      && (ShowsHeart(after[k].rating) <==> i >= 3)
      && after[k].comment == books[k].comment
      && |after| == |books|
  {
  }

  /** Once the store has applied a comment edit, the book keeps its rating,
      and with it its stars and heart. */
  lemma CommentEditKeepsRating(b: Book, text: string)
    ensures ApplyPatch(b, BlurComment(b, text).patch) == b.(comment := Some(text))
    ensures FilledStars(ApplyPatch(b, BlurComment(b, text).patch).rating) == FilledStars(b.rating)
  {
  }

  /** The card's own state: whether the detail sheet is open. */
  datatype Card = Card(detailOpen: bool)

  datatype DeleteStep = DeleteStep(card: Card, request: Option<UseBooks.Request>)

  /** The delete button: only a confirmed prompt sends the delete, and then
      the sheet closes; a declined prompt changes nothing. */
  function PressDelete(card: Card, b: Book, confirmed: bool): (r: DeleteStep)
    ensures r.request.Some? <==> confirmed
    ensures confirmed ==> r.request == Some(UseBooks.DeleteWhereId(b.id)) && !r.card.detailOpen
    ensures !confirmed ==> r.card == card
  {
    if confirmed then DeleteStep(Card(false), Some(UseBooks.DeleteWhereId(b.id)))
    else DeleteStep(card, None)
  }

  /** A confirmed delete, once the store's DELETE event arrives, removes
      every copy of the book and nothing else. */
  lemma ConfirmedDeleteRemovesBook(card: Card, books: seq<Book>, k: nat)
    requires k < |books|
    ensures var step := PressDelete(card, books[k], true);
      var after := UseBooks.ApplyEvent(books, UseBooks.Delete(step.request.value.id));
      && UseBooks.CountId(after, books[k].id) == 0
      && |after| == |books| - UseBooks.CountId(books, books[k].id)
      && forall i :: 0 <= i < |books| && books[i].id != books[k].id ==> books[i] in after
  {
    var after := UseBooks.RemoveById(books, books[k].id);
    Seqs.FilterDropsAll(after, UseBooks.HasId(books[k].id));
  }
}
