/** The add-book form: its fields, submission (guard, record assembly, tag
    parsing, reset or retain), the application of an ISBN lookup's outcome,
    barcode detections, and the manual/scan mode controls. The two metadata
    services and the promise returned by `onAdd` are inputs. */
module AddBookModal {
  import opened JsValues
  import opened Books
  import Text

  datatype Mode = Manual | Scan

  /** The component's state, one field per `useState`. */
  datatype Form = Form(
    mode: Mode,
    isbnInput: string,
    title: string,
    loading: bool,
    scannerActive: bool,
    coverUrl: string,
    tags: string)

  /** The state on first mount. */
  const Fresh := Form(Manual, "", "", false, false, "", "")

  /** The four text fields a user fills in, which lookups and submissions
      write and which the mode controls must leave alone. */
  datatype Entries = Entries(isbnInput: string, title: string, coverUrl: string, tags: string)

  function EntriesOf(f: Form): Entries {
    Entries(f.isbnInput, f.title, f.coverUrl, f.tags)
  }

  /** The blocking alerts the form raises: nothing found (本が見つかりませんでした),
      lookup failed (検索に失敗しました), save failed (保存に失敗しました). */
  datatype Alert = NotFound | SearchFailed | SaveFailed

  /** The record `handleSubmit` passes to `onAdd`: the ISBN and cover fields as
      typed (possibly empty), and the tag field parsed. */
  function Record(f: Form): (r: NewBook)
    ensures r.title == f.title
    ensures r.isbn == Some(f.isbnInput) && r.coverUrl == Some(f.coverUrl)
    ensures r.tags == Some(Text.ParseTags(f.tags))
    ensures r.tags.Some? && forall i :: 0 <= i < |r.tags.value| ==> Text.IsTag(r.tags.value[i])
    ensures r.rating.None? && r.comment.None?
  {
    NewBook(Some(f.isbnInput), f.title, Some(f.coverUrl), Some(Text.ParseTags(f.tags)), None, None)
  }

  /** What a submission did: the resulting form, the record handed to
      `onAdd` (if any), whether the sheet was asked to close, and the alert. */
  datatype SubmitStep = SubmitStep(form: Form, sent: Option<NewBook>, closed: bool, alert: Option<Alert>)

  /** `handleSubmit`, with `added` the settled promise of `onAdd(Record(f))`. */
  function Submit(f: Form, added: Settled<bool>): (r: SubmitStep)
    ensures f.title == "" ==> r == SubmitStep(f, None, false, None)
    ensures f.title != "" ==> r.sent == Some(Record(f)) && !r.form.loading
    ensures f.title != "" ==> r.form.scannerActive == f.scannerActive
    ensures f.title != "" && added.Returned? ==>
      && r.closed && r.alert.None? && r.form.mode == Manual
      && EntriesOf(r.form) == Entries("", "", "", "")
    ensures f.title != "" && added.Threw? ==>
      && !r.closed && r.alert == Some(SaveFailed)
      && r.form.mode == f.mode && EntriesOf(r.form) == EntriesOf(f)
  {
    if f.title == "" then SubmitStep(f, None, false, None)
    else
      var sent := Some(Record(f));
      match added
      case Returned(_) =>
        var cleared := f.(title := "", isbnInput := "", coverUrl := "", tags := "", mode := Manual, loading := false);
        SubmitStep(cleared, sent, true, None)
      case Threw(_) =>
        SubmitStep(f.(loading := false), sent, false, Some(SaveFailed))
  }

  /** The openBD summary of a hit. */
  datatype OpenBdSummary = OpenBdSummary(title: string, cover: Option<string>)

  /** The Google Books `volumeInfo` of the first item. */
  datatype VolumeInfo = VolumeInfo(title: string, thumbnail: Option<string>, categories: Option<seq<string>>)

  /** One service's answer: the request or its parsing threw, or it answered
      with a hit or with nothing. */
  datatype Response<T> = Failed | Answered(hit: Option<T>)

  /** The two metadata services, as functions of the ISBN queried. */
  datatype Catalog = Catalog(
    openBd: string -> Response<OpenBdSummary>,
    googleBooks: string -> Response<VolumeInfo>)

  datatype LookupStep = LookupStep(form: Form, alert: Option<Alert>)

  /** The service answered with a hit. */
  predicate Hit<T>(resp: Response<T>) {
    resp.Answered? && resp.hit.Some?
  }

  /** `fetchBookInfo(isbn)`: openBD first; Google Books only when openBD
      answered with nothing; an alert when neither has the book or a request
      fails, and then the text fields are left as they were. Loading is
      cleared on every path; the ISBN field, mode and scanner are never
      touched. */
  function FetchBookInfo(f: Form, isbn: string, catalog: Catalog): (r: LookupStep)
    ensures !r.form.loading
    ensures r.form.mode == f.mode && r.form.scannerActive == f.scannerActive
    ensures r.form.isbnInput == f.isbnInput
    ensures r.alert.None? <==> Hit(catalog.openBd(isbn)) || (catalog.openBd(isbn) == Answered(None) && Hit(catalog.googleBooks(isbn)))
    ensures r.alert == Some(NotFound) <==> catalog.openBd(isbn) == Answered(None) && catalog.googleBooks(isbn) == Answered(None)
    ensures r.alert != Some(SaveFailed)
    ensures r.alert.Some? ==> EntriesOf(r.form) == EntriesOf(f)
    ensures Hit(catalog.openBd(isbn)) ==>
      var summary := catalog.openBd(isbn).hit.value;
      r.form.title == summary.title && r.form.coverUrl == OrElse(summary.cover, "") && r.form.tags == ""
    ensures catalog.openBd(isbn) == Answered(None) && Hit(catalog.googleBooks(isbn)) ==>
      var info := catalog.googleBooks(isbn).hit.value;
      && r.form.title == info.title && r.form.coverUrl == OrElse(info.thumbnail, "")
      && (info.categories.None? ==> r.form.tags == f.tags)
      && (info.categories.Some? ==> r.form.tags == Text.Join(info.categories.value, ", "))
  {
    match catalog.openBd(isbn)
    case Failed => LookupStep(f.(loading := false), Some(SearchFailed))
    case Answered(Some(summary)) =>
      LookupStep(f.(title := summary.title, coverUrl := OrElse(summary.cover, ""), tags := "", loading := false), None)
    case Answered(None) =>
      match catalog.googleBooks(isbn)
      case Failed => LookupStep(f.(loading := false), Some(SearchFailed))
      case Answered(None) => LookupStep(f.(loading := false), Some(NotFound))
      case Answered(Some(info)) =>
        var tags := if info.categories.Some? then Text.Join(info.categories.value, ", ") else f.tags;
        LookupStep(f.(title := info.title, coverUrl := OrElse(info.thumbnail, ""), tags := tags, loading := false), None)
  }

  /** An openBD hit settles the lookup on its own: Google Books is not
      consulted, so its answer cannot matter. */
  lemma OpenBdHitIgnoresGoogleBooks(f: Form, isbn: string, c1: Catalog, c2: Catalog)
    requires c1.openBd(isbn) == c2.openBd(isbn)
    requires c1.openBd(isbn).Answered? && c1.openBd(isbn).hit.Some?
    ensures FetchBookInfo(f, isbn, c1) == FetchBookInfo(f, isbn, c2)
  {
  }

  /** The lookup and the submission agree on tags: categories found by Google
      Books are exactly the tags a following submission sends, provided each
      category is non-empty, trimmed and comma-free. */
  lemma LookupThenSubmitSendsCategories(f: Form, isbn: string, catalog: Catalog, added: Settled<bool>)
    requires catalog.openBd(isbn) == Answered(None)
    requires catalog.googleBooks(isbn).Answered? && catalog.googleBooks(isbn).hit.Some?
    requires catalog.googleBooks(isbn).hit.value.title != ""
    requires catalog.googleBooks(isbn).hit.value.categories.Some?
    requires forall i :: 0 <= i < |catalog.googleBooks(isbn).hit.value.categories.value|
               ==> Text.IsTag(catalog.googleBooks(isbn).hit.value.categories.value[i])
    ensures Submit(FetchBookInfo(f, isbn, catalog).form, added).sent.Some?
    ensures Submit(FetchBookInfo(f, isbn, catalog).form, added).sent.value.tags
         == catalog.googleBooks(isbn).hit.value.categories
  {
    Text.CategoriesRoundTrip(catalog.googleBooks(isbn).hit.value.categories.value);
  }

  /** `onDetected`: any truthy code is taken as the ISBN, the scanner stops,
      the form returns to manual mode and the lookup runs on that code. A
      missing or empty code changes nothing. */
  function OnDetected(f: Form, code: Option<string>, catalog: Catalog): (r: LookupStep)
    ensures code.None? || code.value == "" ==> r == LookupStep(f, None)
    ensures code.Some? && code.value != "" ==>
      && r.form.isbnInput == code.value && r.form.mode == Manual && !r.form.scannerActive
      && r == FetchBookInfo(f.(isbnInput := code.value, mode := Manual, scannerActive := false), code.value, catalog)
  {
    if code.Some? && code.value != "" then
      FetchBookInfo(f.(isbnInput := code.value, mode := Manual, scannerActive := false), code.value, catalog)
    else
      LookupStep(f, None)
  }

  /** No ISBN filter is applied to detections: a 13-digit EAN without the
      978/979 book prefix is taken as the ISBN like any other code. */
  lemma NonBookBarcodeAccepted(f: Form, catalog: Catalog)
    ensures OnDetected(f, Some("4901234567894"), catalog).form.isbnInput == "4901234567894"
    ensures OnDetected(f, Some("978410101001"), catalog).form.isbnInput == "978410101001"
  {
  }

  /** The mode tabs and the scanner controls. */
  datatype Control =
    | ChooseManual            // manual tab: manual mode, scanner stopped
    | ChooseScan              // barcode tab
    | StartScanner(initOk: bool)  // camera start; a failed initialisation turns it back off
    | StopScanner

  /** A control changes only the mode and the scanner flag. */
  function Press(f: Form, c: Control): (r: Form)
    ensures EntriesOf(r) == EntriesOf(f) && r.loading == f.loading
    ensures c == ChooseManual ==> r.mode == Manual && !r.scannerActive
    ensures c == ChooseScan ==> r.mode == Scan && r.scannerActive == f.scannerActive
    ensures c.StartScanner? ==> r.mode == f.mode && (r.scannerActive <==> c.initOk)
    ensures c == StopScanner ==> r.mode == f.mode && !r.scannerActive
  {
    match c
    case ChooseManual => f.(mode := Manual, scannerActive := false)
    case ChooseScan => f.(mode := Scan)
    case StartScanner(ok) => f.(scannerActive := ok)
    case StopScanner => f.(scannerActive := false)
  }

  /** A manual add of a bare title sends exactly that title with empty ISBN
      and cover and no tags, and on success leaves a cleared form. */
  lemma ManualAddOfTitleOnly(title: string)
    requires title != ""
    ensures Submit(Fresh.(title := title), Returned(true)).sent
         == Some(NewBook(Some(""), title, Some(""), Some([]), None, None))
    ensures Submit(Fresh.(title := title), Returned(true)).form == Fresh
  {
    Text.BlankFieldHasNoTags("");
  }
}
