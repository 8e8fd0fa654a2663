/** The passcode gate: locked or unlocked, restored from one stored flag,
    unlocked by the exact secret, with a transient error on a wrong guess.
    Durable storage is an abstract string-to-string map; the error's reset
    timer is an input event. */
module AuthGate {

  const Password := "mokumoku"
  const StorageKey := "flash_shelf_auth"

  /** Browser local storage: keys to stored strings. */
  type Storage = map<string, string>

  datatype Gate = Gate(authenticated: bool, showInput: bool, input: string, error: bool)

  predicate StoredUnlock(st: Storage) {
    StorageKey in st && st[StorageKey] == "true"
  }

  /** The gate after mounting: unlocked exactly when the stored value under
      the key is the string `"true"`; prompt hidden, input empty, no error. */
  function Restore(st: Storage): (g: Gate)
    ensures g.authenticated <==> StorageKey in st && st[StorageKey] == "true"
    ensures !g.showInput && g.input == "" && !g.error
  {
    Gate(StoredUnlock(st), false, "", false)
  }

  /** What the gate reacts to: the start and back buttons, typing, a form
      submission, and the error timer firing. */
  datatype GateEvent = Begin | Back | Type(text: string) | SubmitInput | ErrorTimerFired

  datatype GateStep = GateStep(gate: Gate, storage: Storage)

  /** One event. Only a submission of the exact secret writes storage. */
  function Step(g: Gate, st: Storage, ev: GateEvent): (r: GateStep)
    ensures ev == SubmitInput && g.input == Password ==>
      r.gate.authenticated && r.storage == st[StorageKey := "true"]
    ensures ev == SubmitInput && g.input != Password ==>
      r.gate == g.(error := true, input := "") && r.storage == st
    ensures ev != SubmitInput ==> r.storage == st && r.gate.authenticated == g.authenticated
    ensures ev == Begin ==> r.gate.showInput
    ensures ev == Back ==> !r.gate.showInput
    ensures ev == ErrorTimerFired ==> !r.gate.error
  {
    match ev
    case Begin => GateStep(g.(showInput := true), st)
    case Back => GateStep(g.(showInput := false), st)
    case Type(text) => GateStep(g.(input := text), st)
    case SubmitInput =>
      if g.input == Password then GateStep(g.(authenticated := true), st[StorageKey := "true"])
      else GateStep(g.(error := true, input := ""), st)
    case ErrorTimerFired => GateStep(g.(error := false), st)
  }

  function Run(g: Gate, st: Storage, events: seq<GateEvent>): GateStep
    decreases |events|
  {
    if |events| == 0 then GateStep(g, st)
    else
      var next := Step(g, st, events[0]);
      Run(next.gate, next.storage, events[1..])
  }

  /** The gate agrees with storage: what a reload would restore. */
  predicate Consistent(g: Gate, st: Storage) {
    g.authenticated <==> StoredUnlock(st)
  }

  /** From a freshly restored gate, any sequence of events keeps the gate in
      agreement with storage, never locks it again once unlocked, and leaves
      every other storage key alone. */
  lemma {:induction false} RunKeepsConsistent(g: Gate, st: Storage, events: seq<GateEvent>)
    requires Consistent(g, st)
    ensures Consistent(Run(g, st, events).gate, Run(g, st, events).storage)
    ensures g.authenticated ==> Run(g, st, events).gate.authenticated
    ensures forall k :: k != StorageKey ==>
      (k in st <==> k in Run(g, st, events).storage)
    ensures forall k :: k != StorageKey && k in st ==> Run(g, st, events).storage[k] == st[k]
    decreases |events|
  {
    if |events| > 0 {
      var next := Step(g, st, events[0]);
      RunKeepsConsistent(next.gate, next.storage, events[1..]);
    }
  }

  /** The full-screen overlay is rendered while locked. */
  predicate ShowsOverlay(g: Gate) {
    !g.authenticated
  }

  /** The protected children are rendered while unlocked. */
  predicate ShowsChildren(g: Gate) {
    g.authenticated
  }

  /** Exactly one of the overlay and the children is on screen, and a restored
      gate shows the children exactly when storage holds the unlock flag. */
  lemma ExactlyOneLayer(g: Gate, st: Storage)
    ensures ShowsOverlay(g) != ShowsChildren(g)
    ensures ShowsChildren(Restore(st)) <==> StoredUnlock(st)
  {
  }

  /** The only way past a locked gate is typing the exact secret: from a locked
      gate whose input is not the secret, no event sequence without
      `Type(Password)` shows the children. */
  lemma {:induction false} UnlockNeedsPassword(g: Gate, st: Storage, events: seq<GateEvent>)
    requires !g.authenticated && g.input != Password
    ensures ShowsChildren(Run(g, st, events).gate) ==> Type(Password) in events
    decreases |events|
  {
    if |events| > 0 && events[0] != Type(Password) {
      var next := Step(g, st, events[0]);
      UnlockNeedsPassword(next.gate, next.storage, events[1..]);
      assert events == [events[0]] + events[1..];
    }
  }

  /** A first visit shows the gate; typing the secret and submitting unlocks
      it, and a reload then skips the gate. */
  lemma UnlockSurvivesReload(st: Storage)
    requires StorageKey !in st
    ensures ShowsOverlay(Restore(st))
    ensures var after := Run(Restore(st), st, [Begin, Type(Password), SubmitInput]);
      ShowsChildren(after.gate) && ShowsChildren(Restore(after.storage))
  {
    var g0 := Restore(st);
    var s1 := Step(g0, st, Begin);
    var s2 := Step(s1.gate, s1.storage, Type(Password));
    var s3 := Step(s2.gate, s2.storage, SubmitInput);
    var events := [Begin, Type(Password), SubmitInput];
    assert events[1..] == [Type(Password), SubmitInput];
    assert events[1..][1..] == [SubmitInput];
    assert events[1..][1..][1..] == [];
    assert Run(g0, st, events) == Run(s1.gate, s1.storage, events[1..]);
    assert Run(s1.gate, s1.storage, events[1..]) == Run(s2.gate, s2.storage, events[1..][1..]);
    assert Run(s2.gate, s2.storage, events[1..][1..]) == Run(s3.gate, s3.storage, []);
    assert s3.gate.authenticated && StoredUnlock(s3.storage);
  }
}
