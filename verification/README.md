# Flash Shelf core, modelled in Dafny

Flash Shelf is a personal book-shelf web app. It is locked behind one shared
passcode. Books are added by hand or by barcode scan with an ISBN lookup, and
they are kept in a hosted table that pushes realtime change events. This
project models the app's deterministic logic as pure Dafny functions over
immutable values, and proves properties of them:

- `UseBooks` (`src/hooks/useBooks.ts`): the realtime reducer over `seq<Book>`,
  the initial fetch's effect on `books` / `loading` / `error`, and the
  insert/delete/update wrappers, which re-throw and never touch local state.
- `AddBookModal` (`src/components/AddBookModal.tsx`): the form's fields, the
  submit guard, record assembly and tag parsing, reset or retention on the
  `onAdd` outcome, how an openBD or Google Books result is applied, barcode
  detections, and the mode/scanner controls.
- `AuthGate` (`src/components/AuthGate.tsx`): restoring the unlock flag, the
  exact-secret comparison, the transient error, and the prompt toggles.
- `App` (`src/App.tsx`): tab switching, the add sheet's open flag, render
  priority (spinner, then error, then tab content), logout, and the `onAdd`
  wrapper.
- `BookList` and `BookCard`: the tag filter and empty state, star and heart
  display, the update payloads of star clicks and comment edits, and the
  confirmed delete.
- `Books` (`src/types/index.ts`) holds the record shapes. `JsValues`, `Seqs` and
  `Text` hold nullable fields and settled promises, order-preserving
  `filter`/`map`, and JavaScript's `trim`, `split(',')` and `join`.

Every outside effect is an input. This covers the store's replies, realtime
payloads, the two metadata services (as functions from ISBN to a response),
the result of the delete confirmation prompt, the barcode decoder's detections
and the gate's error timer. Local storage is a `map<string, string>`. Realtime
events are applied one at a time, in arrival order.

Some behaviours of the code are easy to miss, and the model keeps them:
- Barcode detections are not filtered. `onDetected` takes any truthy code as
  the ISBN, with no prefix or length check
  (`AddBookModal.NonBookBarcodeAccepted`).
- A successful fetch does not clear an earlier error.
- Google Books' `categories: []` is truthy. It therefore clears the tag field to
  `""` instead of leaving the field alone.
- `App` shows the error only when its message is non-empty. A fetch error with
  an empty message falls through to the tab content.

## Model

| member | source | states |
|---|---|---|
| `Text.Trim` | src/components/AddBookModal.tsx:113 | The result has no white space at either end. It is an infix of the input, and every character removed before or after it is white space. It is empty only when the input is all white space. |
| `Text.TrimUnique` | src/components/AddBookModal.tsx:113 | Any infix with no white space at either end and only white space around it is the result of `trim`, so the contract above determines `trim` completely. |
| `Text.TrimIgnoresPadding` | src/components/AddBookModal.tsx:113 | White space added before or after a string does not change its `trim`. |
| `Text.SplitAtSeparator` | src/components/AddBookModal.tsx:113 | Splitting `a + sep + b` gives the pieces of `a` followed by the pieces of `b`. |
| `Text.JoinSplit` | src/components/AddBookModal.tsx:113 | Joining the pieces of `split(sep)` back with `sep` restores the original string. |
| `Text.SplitJoin` | src/components/AddBookModal.tsx:48 | Joining separator-free parts and splitting again gives back exactly those parts. |
| `Text.ParseTags` | src/components/AddBookModal.tsx:113 | Every parsed tag is non-empty, trimmed and comma-free, and there are no more tags than comma-separated pieces. |
| `Text.ParseTagsOfPiece` | src/components/AddBookModal.tsx:113 | A comma-free field parses to its trimmed text as the one tag, or to no tags when that is empty. |
| `Text.ParseTagsAtComma` | src/components/AddBookModal.tsx:113 | The tags of `a,b` are the tags of `a` followed by the tags of `b`. With the previous row, this fixes the parse of every field. |
| `Text.BlankFieldHasNoTags` | src/components/AddBookModal.tsx:113 | A tag field of only white space and commas, including the empty field, parses to no tags. |
| `Text.CategoriesRoundTrip` | src/components/AddBookModal.tsx:48 | Categories joined with `", "` parse back to the same list when each one is non-empty, trimmed and comma-free. |
| `Text.CommaInCategorySplits` | src/components/AddBookModal.tsx:48 | That premise is needed: a single category made of two tags joined by a comma comes back as those two separate tags. |
| `UseBooks.RemoveById` | src/hooks/useBooks.ts:21-22 | No survivor has the deleted id. Every book with another id survives. Exactly the copies of that id are removed. A missing id leaves the list unchanged. |
| `UseBooks.RemoveByIdKeepsOrder` | src/hooks/useBooks.ts:21-22 | The DELETE handler distributes over concatenation, so survivors keep their relative order. |
| `UseBooks.ReplaceById` | src/hooks/useBooks.ts:23-28 | The length is kept. Every position holding the updated id now holds the new row, and every other position is unchanged. |
| `UseBooks.ApplyEvent` | src/hooks/useBooks.ts:18-30 | INSERT gives one more book, with the new row at the head and the previous list as the tail. An unhandled event type leaves the list unchanged. |
| `UseBooks.InsertKeepsDuplicates` | src/hooks/useBooks.ts:19-20 | An INSERT of an id already present adds a further copy of it. |
| `UseBooks.ApplyAllConcat` | src/hooks/useBooks.ts:18-30 | Applying two event batches one after the other equals applying their concatenation. |
| `UseBooks.ApplyEventBag` | src/hooks/useBooks.ts:18-30 | The multiset of ids changes as follows: an insert adds one copy, a delete removes all copies, and an update or unhandled event changes nothing. |
| `UseBooks.ApplyAllBag` | src/hooks/useBooks.ts:18-30 | Over any event stream, the multiset of ids follows that abstraction. |
| `UseBooks.DeleteUpdateCommute` | src/hooks/useBooks.ts:21-28 | A DELETE and an UPDATE give the same list in either order, whether or not their ids agree. |
| `UseBooks.UpdateLastWins` | src/hooks/useBooks.ts:23-28 | Of two UPDATEs with the same id, the later payload alone decides the result. |
| `UseBooks.FetchBooks` | src/hooks/useBooks.ts:39-55 | Loading ends false. Success replaces the books with `data`, or `[]` when it is null, and keeps the error. Failure keeps the books and sets the error to the thrown message or to the fallback text. |
| `UseBooks.Settle` | src/hooks/useBooks.ts:57-86 | A wrapper rejects exactly when the store rejects, with the same cause. Only `addBook` resolves to true. |
| `UseBooks.OnlyEventsMoveBooks` | src/hooks/useBooks.ts:18-86 | Without a fetch, any mix of events and local requests leaves the books equal to the events alone applied in order. Loading and error do not change. |
| `UseBooks.RunConcat` | src/hooks/useBooks.ts:18-86 | Feeding the hook two input sequences one after the other equals feeding it their concatenation. |
| `UseBooks.FetchDiscardsEarlierEvents` | src/hooks/useBooks.ts:18-55 | Realtime events that arrive before the fetch settles are lost. Afterwards the books are the fetched rows (or `[]`) with only the later events applied, in order. |
| `AddBookModal.Record` | src/components/AddBookModal.tsx:109-114 | The record carries the title, the ISBN and cover fields as typed, and no rating or comment. Its tags are exactly the parse of the tag field, and each is well formed. |
| `AddBookModal.Submit` | src/components/AddBookModal.tsx:103-126 | An empty title changes nothing and sends nothing. Otherwise the record is sent and loading ends false. On success the four text fields are cleared, the mode is manual and the sheet closes. On failure the fields and mode are kept and the save-failed alert is raised. |
| `AddBookModal.ManualAddOfTitleOnly` | src/components/AddBookModal.tsx:103-120 | A bare title is sent with empty ISBN and cover and no tags. On success the form is back to its initial state. |
| `AddBookModal.FetchBookInfo` | src/components/AddBookModal.tsx:23-59 | There is no alert exactly on an openBD hit, or on an openBD miss followed by a Google hit. Not-found is raised exactly when both services answer with nothing. An alert leaves the text fields unchanged. An openBD hit sets the title, sets the cover (or `""`) and clears the tags. A Google hit sets the title and thumbnail, and changes the tags only when categories are present. Loading ends false. The ISBN, mode and scanner are never touched. |
| `AddBookModal.OpenBdHitIgnoresGoogleBooks` | src/components/AddBookModal.tsx:30-37 | After an openBD hit, the outcome does not depend on Google Books at all. |
| `AddBookModal.LookupThenSubmitSendsCategories` | src/components/AddBookModal.tsx:43-49 | Well-formed Google categories are exactly the tags that a following submit sends. |
| `AddBookModal.OnDetected` | src/components/AddBookModal.tsx:85-93 | A non-empty code becomes the ISBN, switches to manual, stops the scanner and runs the lookup on that code. A missing or empty code changes nothing. |
| `AddBookModal.NonBookBarcodeAccepted` | src/components/AddBookModal.tsx:85-93 | Codes that are not 978/979 ISBNs, or not 13 digits long, are accepted as the ISBN. |
| `AddBookModal.Press` | src/components/AddBookModal.tsx:61-166 | The mode tabs and scanner controls change only the mode and scanner flag. The manual tab also stops the scanner. A failed camera initialisation leaves the scanner off. |
| `AuthGate.Restore` | src/components/AuthGate.tsx:19-24 | The gate is unlocked exactly when the stored value under `flash_shelf_auth` is the string `"true"`. It starts with the prompt hidden, empty input and no error. |
| `AuthGate.Step` | src/components/AuthGate.tsx:26-94 | Submitting the exact secret unlocks the gate and stores `"true"`. Any other input sets the error, clears the input and leaves storage alone. The start and back buttons, typing and the timer never change the lock state or storage. The timer clears the error. |
| `AuthGate.RunKeepsConsistent` | src/components/AuthGate.tsx:19-36 | Over any event sequence the gate agrees with what a reload would restore. It never re-locks, and no other storage key changes. |
| `AuthGate.ExactlyOneLayer` | src/components/AuthGate.tsx:41-108 | The overlay and the children are never shown together. After a restore, the children show exactly when the flag is stored. |
| `AuthGate.UnlockNeedsPassword` | src/components/AuthGate.tsx:26-36 | From a locked gate whose input is not the secret, no event sequence shows the children unless it types the exact secret. |
| `AuthGate.UnlockSurvivesReload` | src/components/AuthGate.tsx:26-30 | A first visit shows the gate. Start, typing the secret and submitting unlocks it, and a reload keeps it unlocked. |
| `App.HandleTabChange` | src/App.tsx:15-21 | The scan tab opens the add sheet and keeps the active tab. Any other tab becomes active and keeps the sheet's state. |
| `App.ScanNeverActive` | src/App.tsx:10-21 | No sequence of tab presses and sheet closes makes the scan tab active. |
| `App.Main` | src/App.tsx:28-60 | The spinner shows exactly while loading. The error shows exactly when not loading and the message is non-empty, so never while loading. Otherwise the active tab decides, and the library is unfiltered. |
| `App.FailedFirstLoadShowsError` | src/App.tsx:28-35 | When the first fetch fails, the error is shown over an empty shelf. |
| `App.Logout` | src/App.tsx:50-51 | Only the unlock flag is removed, so the next restore is locked. |
| `App.LogoutAfterUnlockLocks` | src/App.tsx:50-51 | Unlock, then logout, then reload gives a locked gate. |
| `App.OnAdd` | src/App.tsx:74-77 | The wrapper resolves to true exactly when `addBook` succeeds. Otherwise it rejects with `addBook`'s cause. |
| `App.SubmitThroughOnAdd` | src/App.tsx:74-77 | One insert is sent exactly when the title is non-empty. The sheet closes exactly when the store also accepts it. The save-failed alert is raised exactly when the store rejects it. |
| `BookList.FilteredBooks` | src/components/BookList.tsx:14-17 | The result is never longer than the books. A null or empty tag gives the books themselves. A tag keeps exactly the books whose tags contain it, so untagged books are excluded. |
| `BookList.FilteredKeepsOrder` | src/components/BookList.tsx:16 | The filter distributes over concatenation, so survivors keep their relative order. |
| `BookList.FilterCommutesWithDelete` | src/components/BookList.tsx:16 | Filtering and a realtime DELETE give the same list in either order. |
| `BookList.View` | src/components/BookList.tsx:19-30 | The empty state shows exactly when the unfiltered books are empty. Otherwise the grid holds the filtered books. |
| `BookList.NoMatchIsNotEmptyShelf` | src/components/BookList.tsx:14-30 | A non-empty shelf with no match shows an empty grid, not the empty state. |
| `BookCard.FilledAmong` | src/components/BookCard.tsx:51-57 | Of stars 0..k-1, the number filled is the rating (null counts as 0) clamped to 0..k. |
| `BookCard.FilledStars` | src/components/BookCard.tsx:55 | A card fills the rating clamped to 0..5 stars. |
| `BookCard.HeartIffFourStars` | src/components/BookCard.tsx:37 | The heart shows exactly when at least four stars are filled. A null rating shows neither. |
| `BookCard.ClickStar` | src/components/BookCard.tsx:76 | Clicking star `i` sends an update for this book's id that carries only the rating `i + 1`, which lies in 1..5. |
| `BookCard.BlurComment` | src/components/BookCard.tsx:94 | Leaving the comment box sends an update for this book's id that carries only the comment text. |
| `BookCard.StarClickRoundTrip` | src/components/BookCard.tsx:76-80 | Once the UPDATE event carrying the patched row has been applied, that book shows exactly `i + 1` stars, shows the heart iff `i >= 3`, and keeps its comment. |
| `BookCard.CommentEditKeepsRating` | src/components/BookCard.tsx:94 | Once the store applies a comment edit, only the comment changes. The rating, and so the stars, are kept. |
| `BookCard.PressDelete` | src/components/BookCard.tsx:101-105 | The delete is sent exactly when the prompt is confirmed, and then the sheet closes. A declined prompt changes nothing. |
| `BookCard.ConfirmedDeleteRemovesBook` | src/components/BookCard.tsx:101-105 | After a confirmed delete and the DELETE event that follows it, no copy of the book is left, every other book remains, and the length drops by the number of copies. |

## Left out

- Supabase client and configuration (`src/lib/supabase.ts`): remote I/O. Each insert, update, delete and select is a `Reply` or `FetchResult` input. The row the store writes for an update is `Books.ApplyPatch`, which is an assumption about the store, not code of this app.
- The two metadata HTTP calls and their JSON parsing: each service is a function from ISBN to `Failed | Answered(hit)`. A response the code throws on before applying anything counts as `Failed`. One case is not covered: a Google Books hit whose `categories` is present but not an array. The code sets the title and cover (lines 45-46 of `src/components/AddBookModal.tsx`) before `categories.join` throws (line 48), and that partial update is not modelled.
- Quagga camera start, stop and decoding: each detection is an input. `StartScanner(initOk)` stands for the initialisation callback.
- Timers and asynchrony: the 100 ms scanner delay, the 800 ms error reset (an explicit `ErrorTimerFired` event) and the interleaving of in-flight requests with events. Events are applied one at a time. The transient `loading = true` states between a request and its reply are not observed.
- `localStorage` and `window.location.reload`: storage is a map, and a reload is `AuthGate.Restore`. The gate's first render, before the restoring effect runs, is not modelled.
- Alert, `console.error` and `window.confirm` side effects: alerts are values, and the confirmation is a boolean input.
- Presentation components (`Sheet`, `Button`, `WoodButton`, `WoodInput`, `TabBar`, `tailwind.config.js`): styling and animation only.
- Ratings are integers. A non-integer JavaScript rating, such as 2.5, which would fill three stars, is not modelled.
- `Partial<Book>` is limited to `rating` and `comment`, the only fields the views send.
- `err instanceof Error` is abstracted: a thrown value either carries a message or does not.
