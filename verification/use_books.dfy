/** The books data hook: the in-memory collection mirrored from the store,
    the realtime change handler that updates it, the initial fetch, and the
    insert/delete/update wrappers around the remote client. Remote replies
    and realtime payloads are inputs; events are applied one at a time in
    arrival order. */
module UseBooks {
  import opened JsValues
  import opened Books
  import Seqs

  /** A realtime payload, by its `eventType`. Any other event type is kept as
      `Unhandled` so that the handler's fall-through can be stated. */
  datatype ChangeEvent =
    | Insert(row: Book)
    | Delete(oldId: string)
    | Update(row: Book)
    | Unhandled(eventType: string)

  function IdOf(b: Book): string {
    b.id
  }

  /** The ids of a collection, position by position. */
  function Ids(books: seq<Book>): seq<string> {
    Seqs.Map(books, IdOf)
  }

  function HasId(id: string): Book -> bool {
    (b: Book) => b.id == id
  }

  function LacksId(id: string): Book -> bool {
    (b: Book) => b.id != id
  }

  /** How many copies of `id` the collection holds. */
  function CountId(books: seq<Book>, id: string): nat {
    |Seqs.Filter(books, HasId(id))|
  }

  /** The DELETE handler: `prev.filter(book => book.id !== old.id)`. */
  function RemoveById(books: seq<Book>, id: string): (r: seq<Book>)
    ensures forall i :: 0 <= i < |r| ==> r[i].id != id && r[i] in books
    ensures forall i :: 0 <= i < |books| && books[i].id != id ==> books[i] in r
    ensures |r| == |books| - CountId(books, id)
    ensures CountId(books, id) == 0 ==> r == books
  {
    Seqs.FilterPartition(books, LacksId(id), HasId(id));
    assert CountId(books, id) == 0 ==> Seqs.Filter(books, LacksId(id)) == books by {
      if CountId(books, id) == 0 {
        AbsentIdKeepsAll(books, id);
      }
    }
    Seqs.Filter(books, LacksId(id))
  }

  lemma AbsentIdKeepsAll(books: seq<Book>, id: string)
    requires CountId(books, id) == 0
    ensures Seqs.Filter(books, LacksId(id)) == books
  {
    assert forall i :: 0 <= i < |books| ==> LacksId(id)(books[i]);
    Seqs.FilterKeepsAll(books, LacksId(id));
  }

  /** The DELETE handler keeps the survivors' relative order: it distributes
      over concatenation. */
  lemma RemoveByIdKeepsOrder(a: seq<Book>, b: seq<Book>, id: string)
    ensures RemoveById(a + b, id) == RemoveById(a, id) + RemoveById(b, id)
  {
    Seqs.FilterConcat(a, b, LacksId(id));
  }

  function Refresh(row: Book): Book -> Book {
    (b: Book) => if b.id == row.id then row else b
  }

  /** The UPDATE handler: `prev.map(book => book.id === new.id ? new : book)`. */
  function ReplaceById(books: seq<Book>, row: Book): (r: seq<Book>)
    ensures |r| == |books|
    ensures forall i :: 0 <= i < |books| && books[i].id == row.id ==> r[i] == row
    ensures forall i :: 0 <= i < |books| && books[i].id != row.id ==> r[i] == books[i]
  {
    Seqs.Map(books, Refresh(row))
  }

  /** The realtime handler applied to the previous collection. */
  function ApplyEvent(books: seq<Book>, e: ChangeEvent): (r: seq<Book>)
    ensures e.Insert? ==> |r| == |books| + 1 && r[0] == e.row && r[1..] == books
    ensures e.Unhandled? ==> r == books
  {
    match e
    case Insert(row) => [row] + books
    case Delete(id) => RemoveById(books, id)
    case Update(row) => ReplaceById(books, row)
    case Unhandled(_) => books
  }

  /** Events applied in arrival order. */
  function ApplyAll(books: seq<Book>, events: seq<ChangeEvent>): seq<Book>
    decreases |events|
  {
    if |events| == 0 then books
    else ApplyAll(ApplyEvent(books, events[0]), events[1..])
  }

  /** An insert never deduplicates: a row whose id is already present is
      added as a further copy. */
  lemma InsertKeepsDuplicates(books: seq<Book>, row: Book)
    ensures CountId(ApplyEvent(books, Insert(row)), row.id) == CountId(books, row.id) + 1
  {
    assert ([row] + books)[1..] == books;
  }

  /** Applying two batches in turn is applying their concatenation. */
  lemma {:induction false} ApplyAllConcat(books: seq<Book>, first: seq<ChangeEvent>, second: seq<ChangeEvent>)
    ensures ApplyAll(books, first + second) == ApplyAll(ApplyAll(books, first), second)
    decreases |first|
  {
    if |first| == 0 {
      assert first + second == second;
    } else {
      assert (first + second)[0] == first[0];
      assert (first + second)[1..] == first[1..] + second;
      ApplyAllConcat(ApplyEvent(books, first[0]), first[1..], second);
    }
  }

  /** The effect of one event on the multiset of ids held: the id-keyed view
      of the collection, independent of positions. */
  function BagAfter(ids: multiset<string>, e: ChangeEvent): multiset<string> {
    match e
    case Insert(row) => ids + multiset{row.id}
    case Delete(id) => ids[id := 0]
    case Update(_) => ids
    case Unhandled(_) => ids
  }

  function BagAfterAll(ids: multiset<string>, events: seq<ChangeEvent>): multiset<string>
    decreases |events|
  {
    if |events| == 0 then ids else BagAfterAll(BagAfter(ids, events[0]), events[1..])
  }

  lemma {:induction false} RemoveByIdBag(books: seq<Book>, id: string)
    ensures multiset(Ids(RemoveById(books, id))) == multiset(Ids(books))[id := 0]
  {
    if |books| == 0 {
      assert Ids(books) == [];
    } else {
      var tail := books[1..];
      RemoveByIdBag(tail, id);
      assert Ids(books) == [books[0].id] + Ids(tail);
      if books[0].id == id {
        assert RemoveById(books, id) == RemoveById(tail, id);
      } else {
        assert RemoveById(books, id) == [books[0]] + RemoveById(tail, id);
        assert Ids([books[0]] + RemoveById(tail, id)) == [books[0].id] + Ids(RemoveById(tail, id));
      }
    }
  }

  /** Each event changes the ids held exactly as `BagAfter` says: an insert
      adds one copy, a delete removes every copy, an update keeps them. */
  lemma ApplyEventBag(books: seq<Book>, e: ChangeEvent)
    ensures multiset(Ids(ApplyEvent(books, e))) == BagAfter(multiset(Ids(books)), e)
  {
    match e
    case Insert(row) =>
      assert Ids([row] + books) == [row.id] + Ids(books);
    case Delete(id) =>
      RemoveByIdBag(books, id);
    case Update(row) =>
      assert Ids(ReplaceById(books, row)) == Ids(books);
    case Unhandled(_) =>
  }

  /** Over any event stream the ids held follow the multiset abstraction. */
  lemma {:induction false} ApplyAllBag(books: seq<Book>, events: seq<ChangeEvent>)
    ensures multiset(Ids(ApplyAll(books, events))) == BagAfterAll(multiset(Ids(books)), events)
    decreases |events|
  {
    if |events| > 0 {
      ApplyEventBag(books, events[0]);
      ApplyAllBag(ApplyEvent(books, events[0]), events[1..]);
    }
  }

  /** A delete and an update commute, whatever their ids: when the ids agree
      both orders remove every copy. */
  lemma {:induction false} DeleteUpdateCommute(books: seq<Book>, id: string, row: Book)
    ensures ApplyEvent(ApplyEvent(books, Delete(id)), Update(row))
         == ApplyEvent(ApplyEvent(books, Update(row)), Delete(id))
  {
    if |books| > 0 {
      var tail := books[1..];
      DeleteUpdateCommute(tail, id, row);
      var b := books[0];
      var b' := Refresh(row)(b);
      assert ReplaceById(books, row) == [b'] + ReplaceById(tail, row);
      assert ([b'] + ReplaceById(tail, row))[1..] == ReplaceById(tail, row);
      if b.id == id {
        assert RemoveById(books, id) == RemoveById(tail, id);
        assert RemoveById(ReplaceById(books, row), id) == RemoveById(ReplaceById(tail, row), id);
      } else {
        assert RemoveById(books, id) == [b] + RemoveById(tail, id);
        assert ([b] + RemoveById(tail, id))[1..] == RemoveById(tail, id);
        assert ReplaceById([b] + RemoveById(tail, id), row) == [b'] + ReplaceById(RemoveById(tail, id), row);
        assert RemoveById(ReplaceById(books, row), id) == [b'] + RemoveById(ReplaceById(tail, row), id);
      }
    }
  }

  /** Two updates of the same id: the later payload wins. */
  lemma UpdateLastWins(books: seq<Book>, first: Book, second: Book)
    requires first.id == second.id
    ensures ApplyEvent(ApplyEvent(books, Update(first)), Update(second)) == ApplyEvent(books, Update(second))
  {
  }

  /** The hook's state: the mirrored collection, the loading flag and the
      user-visible error message. */
  datatype HookState = HookState(books: seq<Book>, loading: bool, error: Option<string>)

  /** Before the first fetch settles: no books, loading, no error. */
  const Mounted := HookState([], true, None)

  /** How the initial `select` settled: rows (possibly `null`) or a thrown
      value, which carries a message when it is an `Error`. */
  datatype FetchResult = Fetched(data: Option<seq<Book>>) | FetchFailed(message: Option<string>)

  /** The message shown when the thrown value is not an `Error`. */
  const FetchFallbackMessage := "書籍の取得に失敗しました"

  /** `fetchBooks`: success replaces the collection (`data || []`) and leaves
      the error as it was; failure keeps the collection and records an error;
      loading is cleared either way. */
  function FetchBooks(s: HookState, result: FetchResult): (r: HookState)
    ensures !r.loading
    ensures result.Fetched? && result.data.Some? ==> r.books == result.data.value
    ensures result.Fetched? && result.data.None? ==> r.books == []
    ensures result.Fetched? ==> r.error == s.error
    ensures result.FetchFailed? ==> r.books == s.books && r.error.Some?
    ensures result.FetchFailed? && result.message.Some? ==> r.error == result.message
    ensures result.FetchFailed? && result.message.None? ==> r.error == Some(FetchFallbackMessage)
  {
    match result
    case Fetched(data) => s.(books := OrElse(data, []), loading := false)
    case FetchFailed(message) => s.(error := Some(OrElse(message, FetchFallbackMessage)), loading := false)
  }

  /** A request the hook sends to the store: `addBook`, `deleteBook`, `updateBook`. */
  datatype Request =
    | InsertRow(row: NewBook)
    | DeleteWhereId(id: string)
    | UpdateWhereId(id: string, patch: Patch)

  /** The store's reply to a request. */
  datatype Reply = Done | Rejected(cause: string)

  /** What the wrapper hands its caller: `addBook` resolves to `true`, the other
      two resolve to nothing (`false` here), and every rejection is re-thrown
      unchanged. */
  function Settle(req: Request, reply: Reply): (r: Settled<bool>)
    ensures r.Threw? <==> reply.Rejected?
    ensures r.Threw? ==> r.message == reply.cause
    ensures r.Returned? ==> (r.value <==> req.InsertRow?)
  {
    match reply
    case Done => Returned(req.InsertRow?)
    case Rejected(cause) => Threw(cause)
  }

  /** Everything that can reach the hook: a realtime event, the settled
      initial fetch, or a local request with its reply. */
  datatype HookInput =
    | Event(event: ChangeEvent)
    | FetchSettled(result: FetchResult)
    | Call(request: Request, reply: Reply)

  function Step(s: HookState, input: HookInput): HookState {
    match input
    case Event(e) => s.(books := ApplyEvent(s.books, e))
    case FetchSettled(result) => FetchBooks(s, result)
    case Call(_, _) => s
  }

  function Run(s: HookState, inputs: seq<HookInput>): HookState
    decreases |inputs|
  {
    if |inputs| == 0 then s else Run(Step(s, inputs[0]), inputs[1..])
  }

  /** Running two input sequences one after the other is running their concatenation. */
  lemma {:induction false} RunConcat(s: HookState, a: seq<HookInput>, b: seq<HookInput>)
    ensures Run(s, a + b) == Run(Run(s, a), b)
    decreases |a|
  {
    if |a| > 0 {
      assert (a + b)[0] == a[0];
      assert (a + b)[1..] == a[1..] + b;
      RunConcat(Step(s, a[0]), a[1..], b);
    } else {
      assert a + b == b;
    }
  }

  /** The realtime events among the inputs, in order. */
  function EventsOf(inputs: seq<HookInput>): (r: seq<ChangeEvent>)
    ensures |r| <= |inputs|
  {
    if |inputs| == 0 then []
    else if inputs[0].Event? then [inputs[0].event] + EventsOf(inputs[1..])
    else EventsOf(inputs[1..])
  }

  /** Local requests never touch the collection: once the fetch has settled,
      the books are exactly the realtime events applied in order, and the
      loading flag and error stay as they were. */
  lemma {:induction false} OnlyEventsMoveBooks(s: HookState, inputs: seq<HookInput>)
    requires forall i :: 0 <= i < |inputs| ==> !inputs[i].FetchSettled?
    ensures Run(s, inputs) == s.(books := ApplyAll(s.books, EventsOf(inputs)))
    decreases |inputs|
  {
    if |inputs| > 0 {
      OnlyEventsMoveBooks(Step(s, inputs[0]), inputs[1..]);
    }
  }

  /** The fetch replaces the collection wholesale: realtime events delivered
      before it settles are discarded, and afterwards the books are the
      fetched rows with the later events applied in order. */
  lemma FetchDiscardsEarlierEvents(s: HookState, pre: seq<HookInput>, data: Option<seq<Book>>, post: seq<HookInput>)
    requires forall i :: 0 <= i < |post| ==> !post[i].FetchSettled?
    ensures Run(s, pre + [FetchSettled(Fetched(data))] + post).books
      == ApplyAll(if data.Some? then data.value else [], EventsOf(post))
  {
    var fetch := [FetchSettled(Fetched(data))];
    RunConcat(s, pre + fetch, post);
    RunConcat(s, pre, fetch);
    var settled := Run(s, pre + fetch);
    assert settled == Step(Run(s, pre), fetch[0]);
    OnlyEventsMoveBooks(settled, post);
  }
}
