# Infinite-canvas note board, modelled in Dafny

This project models the core of `app.js`, a browser note board. Users pan and
zoom an unbounded plane. They place 150×100 sticky notes at world
coordinates, edit them, protect them with a password, and lock them. The
model covers:

- the transform between screen and world coordinates (`offsetX`, `offsetY`,
  `scale`), with drag panning, wheel zoom and the go-to-coordinate jump;
- the hit-test that decides which note a click lands on, and the click
  dispatch that follows it;
- the note store and each note's lifecycle: add, decrypt, edit, and lock
  toggle.

Coordinates are exact `real`s. The cipher, its random salt, `parseFloat`, the
clock (note ids) and the canvas size are parameters.

Modules, leaves first:

- `Wrappers`: `Option`, `Result`.
- `JsText`: `String.prototype.trim` (ECMAScript whitespace and line
  terminators) and `split` on one character, with `Join` as its inverse.
- `Crypto`: the cipher as a pair of operations `Cipher(encrypt, decrypt)`;
  `encrypt` takes the random salt of the call as an argument.
  `RoundTrips` and `RejectsOtherPasswords` state what is assumed of it.
  `Unseal` is the handler's decrypt step: an exception and an empty
  plaintext are both a wrong password.
- `Viewport`: pure functions for `screenToWorld`, the drawing transform,
  drag moves, wheel zoom and re-centring.
- `Notes`: the `Note` record, the first-match hit-test, and what each
  handler does to a note.
- `App`: click routing, coordinate parsing, and the class `Board`. `Board`
  holds the page's module-level mutable state, including the note array and
  its session-storage copy. It also records which note the password dialog
  and the edit dialog are bound to, which the page keeps in the closures it
  installs on their buttons. Each event handler is a method whose `ensures`
  ties the new state to the `Viewport`/`Notes` functions.

Four behaviours of the code are worth stating:

- Zoom-out multiplies the scale by 0.9, not 1/1.1.
- The zoom does not keep the world point under the cursor fixed (see
  `ZoomDrift`).
- The edit handler's "re-encrypt with the same password" branch uses
  whatever the password dialog's input holds. The model takes that as the
  parameter `retained`. The branch is never taken: `Board.Valid` keeps the
  edit dialog bound only to an unencrypted note (a click opens it only on
  one, and a successful decrypt clears `isEncrypted` before opening it),
  and `SaveEdit`'s contract states the result without the branch, as
  `EditPlainNote` does for a single note.
- The lock stops only one thing: a click on a plain note opening the edit
  dialog. A locked, encrypted note goes to the password dialog, and a
  successful decrypt opens the edit dialog on it with the lock kept (see
  `LockedEncryptedNoteIsEditable`). The `l` key also leaves an edit dialog
  that is already open bound to its note, so saving it edits a note that
  is now locked (see `LockAfterEditorOpens`).

## Model

| member | source | states |
|---|---|---|
| `JsText.Trim` | app.js:219 | the trimmed text is empty only if every character is whitespace, and otherwise neither starts nor ends with whitespace |
| `JsText.TrimEmptyIff` | app.js:219-221 | content counts as blank (the `if (content)` test fails) exactly when every character is whitespace |
| `JsText.TrimIdempotent` | app.js:278 | trimming already-trimmed text (as the editor does with the stored content) changes nothing |
| `JsText.TrimIsInfix` | app.js:219 | trimming keeps a contiguous piece of the input |
| `JsText.Split` | app.js:335 | `split(',')` gives at least one piece, and no piece contains the separator |
| `JsText.SplitCount` | app.js:335-336 | the number of fields is one more than the number of commas, so `coords.length === 2` means exactly one comma |
| `JsText.JoinSplit` | app.js:335 | joining the fields back with the separator rebuilds the input: the split loses nothing |
| `Crypto.Unseal` | app.js:253-254 | decryption succeeds only with a non-empty plaintext from the cipher; a thrown error or an empty result is a failure |
| `Crypto.UnsealSealed` | app.js:225 | content encrypted with a password decrypts with that password to the same text |
| `Crypto.UnsealOtherFails` | app.js:253-262 | under a cipher that rejects other passwords, decryption with a wrong password fails |
| `Viewport.ScreenToWorld` | app.js:128-133 | the world point found is the one the drawing transform `world*scale + offset` (app.js:49) maps back to the screen point |
| `Viewport.WorldScreenWorld` | app.js:49 | converting world to screen and back is the identity for any non-zero scale |
| `Viewport.Move` | app.js:145-155 | while dragging, the offset moves by the pointer delta and the last pointer is updated; when not dragging, nothing changes; the scale and the dragging flag never change |
| `Viewport.MoveAllIdle` | app.js:146 | any run of moves while not dragging leaves the state unchanged |
| `Viewport.DragTelescopes` | app.js:145-155 | over a drag, the total offset change equals the pointer displacement from the recorded start to the final event |
| `Viewport.ZoomFactor` | app.js:168 | the factor is positive and above 1 exactly when `deltaY < 0` |
| `Viewport.Zoomed` | app.js:165-171 | the scale is multiplied by the zoom factor and stays positive |
| `Viewport.ZoomDrift` | app.js:167-171 | after a zoom, the world point under the cursor is the old one times 111/110 (zoom in) or 91/90 (zoom out) |
| `Viewport.Centered` | app.js:340-341 | after the jump, the canvas centre shows the target world point, for any non-zero scale, and the scale is unchanged |
| `Notes.FindNoteAt` | app.js:194 | the result is the first note in store order whose closed 150×100 rectangle contains the point; none means no note contains it |
| `Notes.EarlierNoteWins` | app.js:194 | when two notes overlap at a point, the earlier-inserted one (or one before it) is found, never the later one |
| `Notes.FindAfterAppend` | app.js:194 | appending a note (app.js:228) never changes which existing note a point hits; the new note is found only where no older note is |
| `Notes.NewNote` | app.js:219-235 | blank trimmed content adds nothing; otherwise the note is unlocked, at the chosen position, with the given id, encrypted exactly when the password is non-empty, and holding the trimmed text when there is no password |
| `Notes.AddHelloExample` | app.js:219-235 | adding "hello" at (10, 10) without a password gives an unlocked, unencrypted note holding "hello" |
| `Notes.Decrypted` | app.js:253-256 | decryption succeeds exactly when unsealing does; then the content is the non-empty plaintext, `isEncrypted` is false, and id, position and lock are unchanged |
| `Notes.Edited` | app.js:278-292 | blank trimmed content leaves the note unchanged; otherwise the result is encrypted iff a password was given or the note was encrypted, holds the trimmed text when not encrypted, and never changes id, position or lock |
| `Notes.EditPlainNote` | app.js:283-292 | for an unencrypted note, which is the only kind the editor is opened on (app.js:196-199, 255-256), the result is encrypted exactly when a password is given, and the retained password plays no part |
| `Notes.AddThenDecrypt` | app.js:224-235 | a note added with a password decrypts under that password to the plain note holding the trimmed text |
| `Notes.AddThenWrongPassword` | app.js:253-262 | under a cipher that rejects other passwords, a wrong password leaves a newly added note undecrypted |
| `Notes.EditThenDecrypt` | app.js:283-292 | a note edited with a password decrypts under that password to the new trimmed text |
| `Notes.ToggledLast` | app.js:369-378 | only the last note's `locked` flag flips; other notes and fields are unchanged, and an empty store stays empty |
| `Notes.ToggleTwice` | app.js:374 | toggling the lock twice restores the store |
| `App.Route` | app.js:193-203 | an encrypted note goes to the password dialog even if locked; a plain unlocked note goes to the editor; a plain locked note is refused; a click on no note does nothing |
| `App.LockedNoteRefusesEdit` | app.js:195-202 | after the `l` key locks the newest plain note, a click inside it that no older note claims is refused |
| `App.LockedEncryptedNoteIsEditable` | app.js:196-197 | a click on a locked, encrypted note goes to the password dialog; a successful decrypt keeps the lock, and the edit that follows replaces the content of the still locked note |
| `App.LockAfterEditorOpens` | app.js:369-378 | locking the newest plain note leaves it unencrypted, so an edit dialog already bound to it stays valid, and saving it replaces the content of the now locked note |
| `App.ParseCoordinates` | app.js:335-339 | the input is rejected for its field count exactly when the trimmed text does not hold exactly one comma; it succeeds with the two parsed fields, or fails as invalid when one of them does not parse |
| `App.NoCommaIsWrongFieldCount` | app.js:335-347 | input without a comma, such as "abc", is rejected for its field count |
| `App.JumpExample` | app.js:335-341 | "50,75" parses to the world point (50, 75) |
| `App.Board.constructor` | app.js:19-32 | the board starts at offset (0, 0), scale 1, not dragging, not adding, with no dialog bound, holding the notes loaded from session storage |
| `App.Board.MouseDown` | app.js:139-143 | dragging starts and the pointer is recorded; nothing else changes |
| `App.Board.MouseMove` | app.js:145-155 | the drag state after the move is `Move` of the state before it; no other field changes |
| `App.Board.MouseUp` | app.js:157-159 | dragging ends; nothing else changes |
| `App.Board.MouseLeave` | app.js:161-163 | dragging ends; nothing else changes |
| `App.Board.Wheel` | app.js:165-173 | the new transform is `Zoomed` of the old one, so the scale stays positive; notes and flags are unchanged |
| `App.Board.StartAddingNote` | app.js:179-182 | add mode is switched on |
| `App.Board.Click` | app.js:184-205 | in add mode, the click records its world position and leaves add mode without a hit-test; otherwise the action is `Route` at the world point, the password or edit dialog is bound to the note it names, and nothing else changes |
| `App.Board.SaveNewNote` | app.js:218-240 | the store gains exactly the `NewNote` record at the recorded position, or nothing when the content is blank; earlier notes are untouched and the store is saved |
| `App.Board.SubmitPassword` | app.js:250-264 | on success, only the bound note changes, to its `Decrypted` form; it is no longer encrypted, the dialog closes and the editor is bound to it (app.js:260); on failure, nothing changes and the dialog stays open |
| `App.Board.CancelPassword` | app.js:265-267 | the password dialog closes |
| `App.Board.SaveEdit` | app.js:277-298 | only the bound note changes, to `Edited` of its old value, and the store is saved; with non-blank content it ends encrypted exactly when a password was given and otherwise holds the trimmed text; the dialog closes |
| `App.Board.CancelEdit` | app.js:300-303 | the edit dialog closes |
| `App.Board.ToggleLock` | app.js:361-378 | the store becomes `ToggledLast` of the old store and is saved; the password and edit dialogs stay bound as they were |
| `App.Board.GoToCoordinate` | app.js:334-349 | on valid input, the transform is re-centred so that the canvas centre shows the typed point; on either error, the transform is unchanged |

## Left out

- Rendering is not modelled (`draw`, `drawGrid`, `drawNote`, `wrapText`, app.js:47-125). It only draws, and `wrapText` depends on the browser's font metrics.
- The DOM is not modelled: dialog display, input values, `alert`, the cursor style, and window resizing. The canvas size is a parameter of `GoToCoordinate`.
- The add dialog's cancel button (app.js:242-244) only hides the dialog and has no member. The edit dialog's cancel button (app.js:300-303) also calls `resetSaveButton()`, which installs the add handler as the save button's `onclick` (app.js:307-331); from then on one save in the add dialog runs both add handlers. `CancelEdit` models only the closing of the dialog; the double add belongs to the event-dispatch point below.
- Event dispatch between handlers is not modelled. The add handler registered at app.js:218 stays active next to the `onclick` handlers set at app.js:277 and app.js:308, so one save click in the edit dialog can also add a note. The model keeps add (`SaveNewNote`, which is also what `resetSaveButton` installs) and edit (`SaveEdit`) as separate operations.
- Notes are values in a sequence. The note object that a dialog's closure captures is modelled by its index, which stays valid because notes are only ever appended.
- Session storage is modelled only as the field `stored`, which equals `notes` after every change. JSON serialisation and parsing are not modelled, and the loaded notes are the constructor's parameter.
- CryptoJS AES is not modelled; it is the `Cipher` parameter. The random salt CryptoJS draws on every `encrypt` call is the `salt` argument of `SaveNewNote` and `SaveEdit`. `RoundTrips` and `RejectsOtherPasswords` are assumptions about it, and AES with a passphrase does not guarantee the second one.
- `Date.now()` is not modelled; the new note's id is a parameter. `parseFloat` is not modelled either: it is a parameter that returns None where JavaScript returns NaN. An infinite parse result has no `real` counterpart.
- Floating-point rounding is not modelled: coordinates are exact reals, and 1.1 and 0.9 are exact decimals.
- `lastX`/`lastY` start undefined in the page. The model starts them at 0, which cannot be observed because a move only reads them after a `mousedown`.
- The key handler's dispatch on `e.key === 'l'` (app.js:361-366) is not modelled: `ToggleLock` is the effect of that key.
- App.Board.Wheel: it states the new scale and offset and that the scale stays positive, but not that the point under the cursor stays fixed, because the code multiplies by the new scale and that property does not hold; `ZoomDrift` states what happens instead.
