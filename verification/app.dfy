/** The application shell: tab switching, the add-book sheet's open flag,
    what the main area renders, logout, and the `onAdd` wrapper handed to the
    add-book form. */
module App {
  import opened JsValues
  import opened Books
  import UseBooks
  import AuthGate
  import BookList
  import AddBookModal

  datatype Tab = Library | ScanTab | Settings

  datatype Shell = Shell(activeTab: Tab, addModalOpen: bool)

  /** The shell on first render. */
  const Launch := Shell(Library, false)

  /** `handleTabChange`: the scan tab opens the add-book sheet without
      becoming the active tab; any other tab becomes active and leaves the
      sheet as it was. */
  function HandleTabChange(s: Shell, tab: Tab): (r: Shell)
    ensures tab == ScanTab ==> r.addModalOpen && r.activeTab == s.activeTab
    ensures tab != ScanTab ==> r.activeTab == tab && r.addModalOpen == s.addModalOpen
  {
    if tab == ScanTab then s.(addModalOpen := true) else s.(activeTab := tab)
  }

  datatype ShellEvent = TabPressed(tab: Tab) | SheetClosed

  function ShellStep(s: Shell, ev: ShellEvent): Shell {
    match ev
    case TabPressed(tab) => HandleTabChange(s, tab)
    case SheetClosed => s.(addModalOpen := false)
  }

  function ShellRun(s: Shell, events: seq<ShellEvent>): Shell
    decreases |events|
  {
    if |events| == 0 then s else ShellRun(ShellStep(s, events[0]), events[1..])
  }

  /** The scan tab is never the active tab: from launch, no sequence of tab
      presses and sheet closes reaches it. */
  lemma {:induction false} ScanNeverActive(s: Shell, events: seq<ShellEvent>)
    requires s.activeTab != ScanTab
    ensures ShellRun(s, events).activeTab != ScanTab
    decreases |events|
  {
    if |events| > 0 {
      ScanNeverActive(ShellStep(s, events[0]), events[1..]);
    }
  }

  /** What the main area shows. */
  datatype MainView =
    | Spinner
    | ErrorText(message: string)
    | Shelf(list: BookList.ListView)
    | SettingsPanel
    | Nothing

  /** The main area: the spinner while loading, else the error when its
      message is non-empty (an empty message is falsy), else the active tab's
      content; the library is shown unfiltered. */
  function Main(hook: UseBooks.HookState, shell: Shell): (v: MainView)
    ensures v.Spinner? <==> hook.loading
    ensures v.ErrorText? <==> !hook.loading && hook.error.Some? && hook.error.value != ""
    ensures v.ErrorText? ==> v.message == hook.error.value
    ensures v.Shelf? ==> shell.activeTab == Library && v.list == BookList.View(hook.books, None)
    ensures v.SettingsPanel? ==> shell.activeTab == Settings
    ensures v.Nothing? <==> !v.Spinner? && !v.ErrorText? && shell.activeTab == ScanTab
  {
    if hook.loading then Spinner
    else if hook.error.Some? && hook.error.value != "" then ErrorText(hook.error.value)
    else match shell.activeTab
      case Library => Shelf(BookList.View(hook.books, None))
      case Settings => SettingsPanel
      case ScanTab => Nothing
  }

  /** A first load that fails shows the error, never the spinner or the shelf. */
  lemma FailedFirstLoadShowsError(shell: Shell, message: Option<string>)
    requires message.None? || message.value != ""
    ensures var hook := UseBooks.FetchBooks(UseBooks.Mounted, UseBooks.FetchFailed(message));
      Main(hook, shell).ErrorText? && hook.books == []
  {
  }

  /** The logout button removes the unlock flag (and nothing else), so the
      reload that follows finds the gate locked. */
  function Logout(st: AuthGate.Storage): (r: AuthGate.Storage)
    ensures !AuthGate.Restore(r).authenticated
    ensures AuthGate.StorageKey !in r
    ensures forall k :: k in st && k != AuthGate.StorageKey ==> k in r && r[k] == st[k]
    ensures forall k :: k in r ==> k in st
  {
    st - {AuthGate.StorageKey}
  }

  /** Unlocking, logging out and reloading: the gate is locked again. */
  lemma LogoutAfterUnlockLocks(st: AuthGate.Storage)
    ensures AuthGate.Restore(st[AuthGate.StorageKey := "true"]).authenticated
    ensures !AuthGate.Restore(Logout(st[AuthGate.StorageKey := "true"])).authenticated
  {
  }

  /** The `onAdd` passed to the form: await `addBook` and resolve to `true`;
      a rejection of `addBook` propagates unchanged. */
  function OnAdd(row: NewBook, reply: UseBooks.Reply): (r: Settled<bool>)
    ensures r.Returned? <==> reply.Done?
    ensures r.Returned? ==> r.value
    ensures r.Threw? ==> r.message == reply.cause
  {
    match UseBooks.Settle(UseBooks.InsertRow(row), reply)
    case Returned(_) => Returned(true)
    case Threw(cause) => Threw(cause)
  }

  /** Submitting the form through `onAdd`: one insert of the assembled record
      is issued exactly when the title is non-empty, and the sheet closes
      exactly when the store also accepts it. */
  lemma SubmitThroughOnAdd(f: AddBookModal.Form, reply: UseBooks.Reply)
    ensures var step := AddBookModal.Submit(f, OnAdd(AddBookModal.Record(f), reply));
      && (step.sent.Some? <==> f.title != "")
      && (step.closed <==> f.title != "" && reply.Done?)
      && (step.alert == Some(AddBookModal.SaveFailed) <==> f.title != "" && reply.Rejected?)
  {
  }
}
