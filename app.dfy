/**
 * The board: the page's module-level state (transform, drag and add-note
 * flags, the note array and its session-storage copy, and the notes the open
 * dialogs act on) as one object, and its
 * event handlers as methods on it.
 */
module App {
  import opened Wrappers
  import opened JsText
  import opened Crypto
  import opened Viewport
  import opened Notes

  /** What a click on the canvas leads to. */
  datatype ClickAction =
    | PlaceNote               // the click chose the position of the note being added; the note dialog opens
    | PromptPassword(index: nat)  // the password dialog opens for this note
    | OpenEditor(index: nat)      // the edit dialog opens for this note
    | RefuseLocked            // "This note is locked."
    | Ignore                  // the click hit no note

  /**
   * The click handler outside add mode: the note found at the world point
   * goes to the password dialog when encrypted (locked or not), to the editor
   * when plain and unlocked, and is refused when plain and locked.
   */
  function Route(notes: seq<Note>, w: Point): (a: ClickAction)
    ensures a != PlaceNote
    ensures a == Ignore <==> FindNoteAt(notes, w).None?
    ensures a.PromptPassword? ==> FindNoteAt(notes, w) == Some(a.index) && notes[a.index].isEncrypted
    ensures a.OpenEditor? ==>
      FindNoteAt(notes, w) == Some(a.index) && !notes[a.index].isEncrypted && !notes[a.index].locked
    ensures a == RefuseLocked ==>
      FindNoteAt(notes, w).Some? && !notes[FindNoteAt(notes, w).value].isEncrypted
      && notes[FindNoteAt(notes, w).value].locked
  {
    match FindNoteAt(notes, w)
    case None => Ignore
    case Some(i) =>
      if notes[i].isEncrypted then PromptPassword(i)
      else if !notes[i].locked then OpenEditor(i)
      else RefuseLocked
  }

  /**
   * Once the newest note is locked, a click inside it that no older note
   * claims is refused. The lock guards only this click on a plain note; see
   * `LockedEncryptedNoteIsEditable` and `LockAfterEditorOpens`.
   */
  lemma LockedNoteRefusesEdit(notes: seq<Note>, n: Note, w: Point)
    requires !n.locked && !n.isEncrypted && Covers(n, w) && FindNoteAt(notes, w).None?
    ensures Route(ToggledLast(notes + [n]), w) == RefuseLocked
  {
    var locked := n.(locked := true);
    assert ToggledLast(notes + [n]) == notes + [locked];
    FindAfterAppend(notes, locked, w);
  }

  /**
   * The lock does not guard an encrypted note: a click on a locked, encrypted
   * note opens the password dialog, the decrypt keeps the lock, and the edit
   * dialog that follows replaces the content of the still locked note.
   */
  lemma LockedEncryptedNoteIsEditable(notes: seq<Note>, w: Point, password: string, rawContent: string,
                                      retained: string, salt: nat, c: Cipher)
    requires FindNoteAt(notes, w).Some?
    requires notes[FindNoteAt(notes, w).value].locked && notes[FindNoteAt(notes, w).value].isEncrypted
    requires Decrypted(notes[FindNoteAt(notes, w).value], password, c).Some? && Trim(rawContent) != []
    ensures var i := FindNoteAt(notes, w).value;
      var unsealed := Decrypted(notes[i], password, c).value;
      var edited := Edited(unsealed, rawContent, [], retained, salt, c);
      && Route(notes, w) == PromptPassword(i)
      && unsealed.locked && !unsealed.isEncrypted
      && edited.locked && edited.content == Trim(rawContent)
  {
  }

  /**
   * The `l` key does not close an edit dialog that is already open: after the
   * newest plain note is locked, it is still a note the dialog may be bound
   * to, and saving the dialog replaces its content while it stays locked.
   */
  lemma LockAfterEditorOpens(notes: seq<Note>, rawContent: string, retained: string, salt: nat, c: Cipher)
    requires notes != [] && !notes[|notes| - 1].isEncrypted && !notes[|notes| - 1].locked
    requires Trim(rawContent) != []
    ensures var last := ToggledLast(notes)[|notes| - 1];
      var edited := Edited(last, rawContent, [], retained, salt, c);
      && last.locked && !last.isEncrypted
      && edited.locked && edited.content == Trim(rawContent)
  {
  }

  /** Why the go-to-coordinate handler rejects its input. */
  datatype JumpError =
    | WrongFieldCount  // "Please enter coordinates in the format x,y"
    | InvalidNumber    // "Invalid coordinates."

  /**
   * The input of the go-to-coordinate handler: the trimmed text must split on
   * ',' into exactly two fields (it holds exactly one comma) and both must
   * parse; `parseFloat` gives None where JavaScript's gives NaN.
   */
  function ParseCoordinates(input: string, parseFloat: string -> Option<real>): (r: Result<Point, JumpError>)
    ensures r == Err(WrongFieldCount) <==> multiset(Trim(input))[','] != 1
    ensures r.Ok? ==>
      var fields := Split(Trim(input), ',');
      |fields| == 2 && parseFloat(fields[0]) == Some(r.value.x) && parseFloat(fields[1]) == Some(r.value.y)
    ensures r == Err(InvalidNumber) ==>
      var fields := Split(Trim(input), ',');
      |fields| == 2 && (parseFloat(fields[0]).None? || parseFloat(fields[1]).None?)
  {
    SplitCount(Trim(input), ',');
    var coords := Split(Trim(input), ',');
    if |coords| == 2 then
      match (parseFloat(coords[0]), parseFloat(coords[1]))
      case (Some(x), Some(y)) => Ok(Point(x, y))
      case _ => Err(InvalidNumber)
    else Err(WrongFieldCount)
  }

  /** Text without a comma, such as "abc", is rejected for its field count whatever `parseFloat` does. */
  lemma NoCommaIsWrongFieldCount(input: string, parseFloat: string -> Option<real>)
    requires ',' !in input
    ensures ParseCoordinates(input, parseFloat) == Err(WrongFieldCount)
  {
    var t := Trim(input);
    TrimIsInfix(input);
    assert ',' !in t;
  }

  /** "50,75" has no surrounding whitespace; a step of `JumpExample`. */
  lemma TrimExample()
    ensures Trim("50,75") == "50,75"
  {
    var t := "50,75";
    assert !IsTrimmable(t[0]) && !IsTrimmable(t[|t| - 1]);
    assert TrimStart(t) == t;
    assert TrimEnd(t) == t;
  }

  /** A text holding one comma determines the two pieces around it; a step of `JumpExample`. */
  lemma SplitAtComma(a: string, b: string, a': string, b': string)
    requires ',' !in a && ',' !in b && ',' !in a' && ',' !in b'
    requires a + [','] + b == a' + [','] + b'
    ensures a == a' && b == b'
  {
    var s := a + [','] + b;
    forall i | 0 <= i < |s|
      ensures s[i] == ',' <==> i == |a|
      ensures s[i] == ',' <==> i == |a'|
    {
      if i < |a| { assert s[i] == a[i]; }
      if i > |a| { assert s[i] == b[i - |a| - 1]; }
      if i < |a'| { assert s[i] == a'[i]; }
      if i > |a'| { assert s[i] == b'[i - |a'| - 1]; }
    }
    assert s[|a|] == ',';
    assert a == s[..|a|] && a' == s[..|a'|];
    assert b == s[|a| + 1..] && b' == s[|a'| + 1..];
  }

  /** "50,75" jumps to world point (50, 75) when `parseFloat` reads the two fields as 50 and 75. */
  lemma JumpExample(parseFloat: string -> Option<real>)
    requires parseFloat("50") == Some(50.0) && parseFloat("75") == Some(75.0)
    ensures ParseCoordinates("50,75", parseFloat) == Ok(Point(50.0, 75.0))
  {
    TrimExample();
    SplitExample();
  }

  /** "50,75" splits into "50" and "75"; a step of `JumpExample`. */
  lemma SplitExample()
    ensures Split("50,75", ',') == ["50", "75"]
  {
    var t := "50,75";
    var fields := Split(t, ',');
    assert |fields| == 2 by {
      SplitCount(t, ',');
      assert multiset(t)[','] == 1;
    }
    JoinSplit(t, ',');
    assert fields[0] + [','] + fields[1] == t;
    SplitAtComma(fields[0], fields[1], "50", "75");
  }

  class Board {
    // the transform (app.js:19-21)
    var offsetX: real
    var offsetY: real
    var scale: real
    // the drag state (app.js:136-137)
    var isDragging: bool
    var lastX: real
    var lastY: real
    // the add-note state (app.js:176-177)
    var addingNote: bool
    var newNoteX: real
    var newNoteY: real
    // the notes, and the copy session storage holds
    var notes: seq<Note>
    var stored: seq<Note>
    // the note the password dialog's decrypt button acts on (app.js:250), while that dialog is open
    var passwordFor: Option<nat>
    // the note the edit dialog's save button acts on (app.js:277), while that dialog is open
    var editing: Option<nat>

    /**
     * The scale stays positive, every change to the notes has been saved, the
     * dialogs act on notes of the store, and the edit dialog is only ever
     * bound to a note that is not encrypted.
     */
    ghost predicate Valid()
      reads this
    {
      && scale > 0.0
      && stored == notes
      && (passwordFor.Some? ==> passwordFor.value < |notes|)
      && (editing.Some? ==> editing.value < |notes| && !notes[editing.value].isEncrypted)
    }

    function Transform(): View
      reads this
    {
      View(offsetX, offsetY, scale)
    }

    function Pointer(): Drag
      reads this
    {
      Drag(Transform(), isDragging, Point(lastX, lastY))
    }

    /** Page start: the initial transform, no gesture under way, no dialog open, and the notes session storage held. */
    constructor (saved: seq<Note>)
      ensures Valid()
      ensures Transform() == Initial && !isDragging && !addingNote
      ensures newNoteX == 0.0 && newNoteY == 0.0
      ensures passwordFor.None? && editing.None?
      ensures notes == saved
    {
      offsetX, offsetY, scale := 0.0, 0.0, 1.0;
      isDragging, lastX, lastY := false, 0.0, 0.0;
      addingNote, newNoteX, newNoteY := false, 0.0, 0.0;
      notes := saved;
      stored := saved;
      passwordFor, editing := None, None;
    }

    /** `mousedown`: a drag starts at the pointer. */
    method MouseDown(clientX: real, clientY: real)
      requires Valid()
      modifies this`isDragging, this`lastX, this`lastY
      ensures Valid()
      ensures isDragging && lastX == clientX && lastY == clientY
    {
      isDragging := true;
      lastX := clientX;
      lastY := clientY;
    }

    /** `mousemove`: while dragging, pans by the pointer's displacement; otherwise changes nothing. */
    method MouseMove(clientX: real, clientY: real)
      requires Valid()
      modifies this`offsetX, this`offsetY, this`lastX, this`lastY
      ensures Valid()
      ensures Pointer() == Move(old(Pointer()), Point(clientX, clientY))
    {
      if isDragging {
        var dx := clientX - lastX;
        var dy := clientY - lastY;
        offsetX := offsetX + dx;
        offsetY := offsetY + dy;
        lastX := clientX;
        lastY := clientY;
      }
    }

    /** `mouseup`: the drag ends. */
    method MouseUp()
      requires Valid()
      modifies this`isDragging
      ensures Valid() && !isDragging
    {
      isDragging := false;
    }

    /** `mouseleave`: the drag ends, as on `mouseup`. */
    method MouseLeave()
      requires Valid()
      modifies this`isDragging
      ensures Valid() && !isDragging
    {
      isDragging := false;
    }

    /** `wheel`: zooms by 1.1 or 0.9 and shifts the offset; the scale stays positive. */
    method Wheel(clientX: real, clientY: real, deltaY: real)
      requires Valid()
      modifies this`offsetX, this`offsetY, this`scale
      ensures Valid()
      ensures Transform() == Zoomed(old(Transform()), Point(clientX, clientY), deltaY)
    {
      var mousePos := ScreenToWorld(Transform(), Point(clientX, clientY));
      var zoom := ZoomFactor(deltaY);
      scale := scale * zoom;
      offsetX := offsetX - (mousePos.x * zoom - mousePos.x) * scale;
      offsetY := offsetY - (mousePos.y * zoom - mousePos.y) * scale;
    }

    /** The add-note button: the next click on the canvas places a note. */
    method StartAddingNote()
      requires Valid()
      modifies this`addingNote
      ensures Valid() && addingNote
    {
      addingNote := true;
    }

    /**
     * `click` on the canvas. In add mode the click records its world position
     * for the new note and leaves add mode, without a hit-test. Otherwise the
     * note under the click is dispatched as `Route` says: the password dialog
     * or the edit dialog is bound to it, or nothing changes.
     */
    method Click(clientX: real, clientY: real) returns (action: ClickAction)
      requires Valid()
      modifies this`addingNote, this`newNoteX, this`newNoteY, this`passwordFor, this`editing
      ensures Valid() && !addingNote
      ensures var w := ScreenToWorld(Transform(), Point(clientX, clientY));
        if old(addingNote) then
          && action == PlaceNote && newNoteX == w.x && newNoteY == w.y
          && passwordFor == old(passwordFor) && editing == old(editing)
        else
          && action == Route(notes, w) && newNoteX == old(newNoteX) && newNoteY == old(newNoteY)
          && passwordFor == (if action.PromptPassword? then Some(action.index) else old(passwordFor))
          && editing == (if action.OpenEditor? then Some(action.index) else old(editing))
    {
      var pos := ScreenToWorld(Transform(), Point(clientX, clientY));
      if addingNote {
        newNoteX, newNoteY := pos.x, pos.y;
        addingNote := false;
        action := PlaceNote;
      } else {
        var clicked := FindNoteAt(notes, pos);
        if clicked.None? {
          action := Ignore;
        } else {
          var i := clicked.value;
          if notes[i].isEncrypted {
            action := PromptPassword(i);
            passwordFor := Some(i);
          } else if !notes[i].locked {
            action := OpenEditor(i);
            editing := Some(i);
          } else {
            action := RefuseLocked;
          }
        }
      }
    }

    /**
     * The add-note save handler: appends the note `NewNote` gives at the
     * recorded position, or nothing when the trimmed content is empty, and
     * saves the store. `salt` is the salt the cipher draws for this call.
     */
    method SaveNewNote(rawContent: string, password: string, id: int, salt: nat, c: Cipher)
      requires Valid()
      modifies this`notes, this`stored
      ensures Valid()
      ensures match NewNote(id, Point(newNoteX, newNoteY), rawContent, password, salt, c)
        case None => notes == old(notes)
        case Some(n) => notes == old(notes) + [n]
    {
      var content := Trim(rawContent);
      if content != [] {
        var encryptedContent := content;
        var isEncrypted := false;
        if password != [] {
          encryptedContent := c.encrypt(content, password, salt);
          isEncrypted := true;
        }
        notes := notes + [Note(id, newNoteX, newNoteY, encryptedContent, false, isEncrypted)];
        stored := notes;
      }
    }

    /**
     * The password dialog's decrypt button. On success the note it is bound
     * to holds its plaintext, is no longer encrypted and is saved; the dialog
     * closes and the edit dialog is bound to that note. On failure nothing
     * changes and the dialog stays open.
     */
    method SubmitPassword(password: string, c: Cipher) returns (ok: bool)
      requires Valid() && passwordFor.Some?
      modifies this`notes, this`stored, this`passwordFor, this`editing
      ensures Valid()
      ensures var i := old(passwordFor).value;
        && ok == Decrypted(old(notes[i]), password, c).Some?
        && (ok ==> notes == old(notes)[i := Decrypted(old(notes[i]), password, c).value])
        && (ok ==> !notes[i].isEncrypted && passwordFor.None? && editing == Some(i))
      ensures !ok ==> notes == old(notes) && passwordFor == old(passwordFor) && editing == old(editing)
    {
      var i := passwordFor.value;
      var decrypted := c.decrypt(notes[i].content, password);
      if decrypted.None? || decrypted.value == [] {
        ok := false;
      } else {
        notes := notes[i := notes[i].(content := decrypted.value, isEncrypted := false)];
        stored := notes;
        passwordFor := None;
        editing := Some(i);
        ok := true;
      }
    }

    /** The password dialog's cancel button: the dialog closes. */
    method CancelPassword()
      requires Valid()
      modifies this`passwordFor
      ensures Valid() && passwordFor.None?
    {
      passwordFor := None;
    }

    /**
     * The edit dialog's save button: the note it is bound to becomes what
     * `Edited` gives and the store is saved; the dialog then closes.
     * `retained` is the value left in the password dialog's input, `salt` the
     * salt the cipher draws. Because the dialog is only bound to a note that
     * is not encrypted, the note ends encrypted exactly when a password was
     * given, and holds the trimmed text when none was.
     */
    method SaveEdit(rawContent: string, password: string, retained: string, salt: nat, c: Cipher)
      requires Valid() && editing.Some?
      modifies this`notes, this`stored, this`editing
      ensures Valid() && editing.None?
      ensures var i := old(editing).value;
        && notes == old(notes)[i := Edited(old(notes[i]), rawContent, password, retained, salt, c)]
        && (Trim(rawContent) != [] ==> notes[i].isEncrypted == (password != []))
        && (Trim(rawContent) != [] && password == [] ==> notes[i].content == Trim(rawContent))
    {
      var i := editing.value;
      var content := Trim(rawContent);
      if content != [] {
        var encryptedContent := content;
        var isEncrypted := false;
        if password != [] {
          encryptedContent := c.encrypt(content, password, salt);
          isEncrypted := true;
        } else if notes[i].isEncrypted {
          encryptedContent := c.encrypt(content, retained, salt);
          isEncrypted := true;
        }
        notes := notes[i := notes[i].(content := encryptedContent, isEncrypted := isEncrypted)];
        stored := notes;
      }
      editing := None;
    }

    /** The edit dialog's cancel button: the dialog closes and the save button is rebound to adding. */
    method CancelEdit()
      requires Valid()
      modifies this`editing
      ensures Valid() && editing.None?
    {
      editing := None;
    }

    /** The `l` key: flips the lock of the last note, if there is one, and saves the store; an open dialog stays bound. */
    method ToggleLock()
      requires Valid()
      modifies this`notes, this`stored
      ensures Valid()
      ensures notes == ToggledLast(old(notes))
      ensures editing == old(editing) && passwordFor == old(passwordFor)
    {
      if |notes| > 0 {
        var last := |notes| - 1;
        notes := notes[last := notes[last].(locked := !notes[last].locked)];
        stored := notes;
      }
    }

    /**
     * The go-to-coordinate button on a `width` by `height` canvas: on valid
     * input the view is re-centred on the typed world point at the current
     * scale; on invalid input the transform is unchanged.
     */
    method GoToCoordinate(input: string, parseFloat: string -> Option<real>, width: nat, height: nat)
      returns (outcome: Result<Point, JumpError>)
      requires Valid()
      modifies this`offsetX, this`offsetY
      ensures Valid()
      ensures outcome == ParseCoordinates(input, parseFloat)
      ensures outcome.Ok? ==>
        && Transform() == Centered(old(Transform()), width as real, height as real, outcome.value)
        && ScreenToWorld(Transform(), Point(width as real / 2.0, height as real / 2.0)) == outcome.value
      ensures outcome.Err? ==> Transform() == old(Transform())
    {
      outcome := ParseCoordinates(input, parseFloat);
      if outcome.Ok? {
        var centered := Centered(Transform(), width as real, height as real, outcome.value);
        offsetX, offsetY := centered.offsetX, centered.offsetY;
      }
    }
  }
}
