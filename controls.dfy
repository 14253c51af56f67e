/**
 * The keyboard check at the top of every cycle: `event::poll` waits up to
 * 100 ms for an event, `event::read` fetches it, and a key whose code is
 * `'q'` or `Esc` ends the main loop. Errors of either call leave `main`
 * through `?`.
 */
module Controls {
  import opened Common

  /** crossterm's `KeyCode`; the newer media and lock keys are `Other`. */
  datatype KeyCode =
    | Backspace | Enter | Left | Right | Up | Down | Home | End | PageUp | PageDown
    | Tab | BackTab | Delete | Insert | F(number: nat) | Char(c: char) | Null | Esc | Other

  datatype KeyModifier = Shift | Control | Alt | Super | Hyper | Meta

  datatype KeyEventKind = Press | Repeat | Release

  datatype KeyEvent = KeyEvent(code: KeyCode, modifiers: set<KeyModifier>, kind: KeyEventKind)

  /** crossterm's `Event`; mouse events carry no information the loop uses. */
  datatype Event =
    | FocusGained | FocusLost | Key(key: KeyEvent) | Mouse | Paste(text: string)
    | Resize(columns: nat, rows: nat)

  /** What the poll step yields: nothing within the timeout, an event, or an I/O error. */
  datatype Input = NoEvent | Received(event: Event) | Failed(error: IoError)

  /** What the main loop does next. */
  datatype Action = Continue | Quit | Abort(error: IoError)

  /**
   * The `match key.code` at the top of the main loop. Only the key code is
   * looked at: modifiers and the event kind (press, repeat, release) are
   * ignored, and every other event or key lets the cycle go on.
   */
  function NextAction(input: Input): (action: Action)
    ensures action == Quit <==>
      input.Received? && input.event.Key? &&
      (input.event.key.code == Char('q') || input.event.key.code == Esc)
    ensures action.Abort? <==> input.Failed?
    ensures action.Abort? ==> action.error == input.error
  {
    if input.Failed? then Abort(input.error)
    else if input.Received? && input.event.Key? && IsQuitKey(input.event.key.code) then Quit
    else Continue
  }

  /** The `KeyCode::Char('q') | KeyCode::Esc` arm. */
  predicate IsQuitKey(code: KeyCode)
  {
    code == Char('q') || code == Esc
  }

  /** An upper-case `Q` does not quit, whatever modifiers (such as Shift) accompany it. */
  lemma UpperCaseQDoesNotQuit(modifiers: set<KeyModifier>, kind: KeyEventKind)
    ensures NextAction(Received(Key(KeyEvent(Char('Q'), modifiers, kind)))) == Continue
  {
  }
}
