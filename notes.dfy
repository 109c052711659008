/**
 * The note store: note records, the hit-test the click handler uses, and
 * what the add, decrypt, edit and lock handlers do to a note.
 */
module Notes {
  import opened Wrappers
  import opened JsText
  import opened Crypto
  import opened Viewport

  /** A note record; `content` is ciphertext exactly when `isEncrypted`. */
  datatype Note = Note(id: int, x: real, y: real, content: string, locked: bool, isEncrypted: bool)

  /** Every note is a 150 by 100 rectangle in world units, its top-left corner at (x, y). */
  const NoteWidth: real := 150.0
  const NoteHeight: real := 100.0

  /** The closed rectangle of a note contains the world point. */
  predicate Covers(n: Note, p: Point) {
    n.x <= p.x <= n.x + NoteWidth && n.y <= p.y <= n.y + NoteHeight
  }

  /** `notes.find(...)`: the index of the first note, in store order, whose rectangle contains the point. */
  function FindNoteAt(notes: seq<Note>, p: Point): (r: Option<nat>)
    ensures r.Some? ==> r.value < |notes| && Covers(notes[r.value], p)
    ensures r.Some? ==> forall j :: 0 <= j < r.value ==> !Covers(notes[j], p)
    ensures r.None? ==> forall j :: 0 <= j < |notes| ==> !Covers(notes[j], p)
  {
    if notes == [] then None
    else if Covers(notes[0], p) then Some(0)
    else match FindNoteAt(notes[1..], p)
      case None => None
      case Some(i) => Some(i + 1)
  }

  /** Of two notes that both contain a point, the later one is never the one found. */
  lemma EarlierNoteWins(notes: seq<Note>, p: Point, i: nat, j: nat)
    requires i < j < |notes| && Covers(notes[i], p) && Covers(notes[j], p)
    ensures FindNoteAt(notes, p).Some? && FindNoteAt(notes, p).value <= i
  {
  }

  /**
   * Appending a note never takes a point away from the notes already there:
   * it is found at a point only where none of them is.
   */
  lemma FindAfterAppend(notes: seq<Note>, n: Note, p: Point)
    ensures FindNoteAt(notes + [n], p) ==
      if FindNoteAt(notes, p).Some? then FindNoteAt(notes, p)
      else if Covers(n, p) then Some(|notes|)
      else None
  {
    var all := notes + [n];
    assert forall j :: 0 <= j < |notes| ==> all[j] == notes[j];
    assert all[|notes|] == n;
  }

  /**
   * The record the add-note save handler pushes: none when the trimmed
   * content is empty; otherwise an unlocked note at the chosen position,
   * encrypted under the password exactly when the password is non-empty.
   */
  function NewNote(id: int, at: Point, rawContent: string, password: string, salt: nat, c: Cipher): (r: Option<Note>)
    ensures r.None? <==> Trim(rawContent) == []
    ensures r.Some? ==> r.value.id == id && r.value.x == at.x && r.value.y == at.y && !r.value.locked
    ensures r.Some? ==> r.value.isEncrypted == (password != [])
    ensures r.Some? && password == [] ==> r.value.content == Trim(rawContent)
  {
    var content := Trim(rawContent);
    if content == [] then None
    else if password != [] then Some(Note(id, at.x, at.y, c.encrypt(content, password, salt), false, true))
    else Some(Note(id, at.x, at.y, content, false, false))
  }

  /** Adding "hello" without a password at (10, 10) gives an unlocked plain note holding "hello". */
  lemma AddHelloExample(id: int, salt: nat, c: Cipher)
    ensures NewNote(id, Point(10.0, 10.0), "hello", "", salt, c) == Some(Note(id, 10.0, 10.0, "hello", false, false))
  {
    assert TrimStart("hello") == "hello";
    assert TrimEnd("hello") == "hello";
  }

  /**
   * The password handler: on success the note holds the plaintext and is no
   * longer encrypted, with every other field as it was; on failure (a thrown
   * exception or an empty plaintext) None, and the note stays as it is.
   */
  function Decrypted(n: Note, password: string, c: Cipher): (r: Option<Note>)
    ensures r.Some? <==> Unseal(c, n.content, password).Some?
    ensures r.Some? ==> r.value == n.(content := r.value.content, isEncrypted := false)
    ensures r.Some? ==> r.value.content != [] && c.decrypt(n.content, password) == Some(r.value.content)
  {
    match Unseal(c, n.content, password)
    case None => None
    case Some(plain) => Some(n.(content := plain, isEncrypted := false))
  }

  /**
   * The edit save handler. An empty trimmed content changes nothing.
   * Otherwise the content is replaced: encrypted under `password` when that
   * is non-empty, else re-encrypted under `retained` (the decrypt dialog's
   * last password) when the note is still encrypted, else stored as plain
   * text. Id, position and lock are never touched.
   */
  function Edited(n: Note, rawContent: string, password: string, retained: string, salt: nat, c: Cipher): (r: Note)
    ensures Trim(rawContent) == [] ==> r == n
    ensures r.id == n.id && r.x == n.x && r.y == n.y && r.locked == n.locked
    ensures Trim(rawContent) != [] ==> r.isEncrypted == (password != [] || n.isEncrypted)
    ensures Trim(rawContent) != [] && !r.isEncrypted ==> r.content == Trim(rawContent)
  {
    var content := Trim(rawContent);
    if content == [] then n
    else if password != [] then n.(content := c.encrypt(content, password, salt), isEncrypted := true)
    else if n.isEncrypted then n.(content := c.encrypt(content, retained, salt), isEncrypted := true)
    else n.(content := content, isEncrypted := false)
  }

  /**
   * On a note that is not encrypted (the only kind the edit dialog is bound
   * to, see `App.Board.Valid`) the re-encrypt-with-the-last-password branch
   * is not taken: the result is encrypted exactly when a password was given,
   * is plain text otherwise, and does not depend on the retained password.
   */
  lemma EditPlainNote(n: Note, rawContent: string, password: string, retained: string, other: string, salt: nat, c: Cipher)
    requires !n.isEncrypted && Trim(rawContent) != []
    ensures Edited(n, rawContent, password, retained, salt, c).isEncrypted == (password != [])
    ensures password == [] ==> Edited(n, rawContent, password, retained, salt, c).content == Trim(rawContent)
    ensures Edited(n, rawContent, password, retained, salt, c) == Edited(n, rawContent, password, other, salt, c)
  {
  }

  /** A note added with a password decrypts, under that password, to its trimmed content. */
  lemma AddThenDecrypt(id: int, at: Point, rawContent: string, password: string, salt: nat, c: Cipher)
    requires RoundTrips(c) && Trim(rawContent) != [] && password != []
    ensures NewNote(id, at, rawContent, password, salt, c).Some?
    ensures Decrypted(NewNote(id, at, rawContent, password, salt, c).value, password, c)
         == Some(Note(id, at.x, at.y, Trim(rawContent), false, false))
  {
    UnsealSealed(c, Trim(rawContent), password, salt);
  }

  /** Under a cipher that rejects other passwords, a wrong password leaves a newly added note encrypted. */
  lemma AddThenWrongPassword(id: int, at: Point, rawContent: string, password: string, salt: nat, other: string, c: Cipher)
    requires RejectsOtherPasswords(c) && Trim(rawContent) != [] && password != [] && other != password
    ensures NewNote(id, at, rawContent, password, salt, c).Some?
    ensures Decrypted(NewNote(id, at, rawContent, password, salt, c).value, other, c).None?
  {
    UnsealOtherFails(c, Trim(rawContent), password, salt, other);
  }

  /** A note edited with a password decrypts, under that password, to the new trimmed content. */
  lemma EditThenDecrypt(n: Note, rawContent: string, password: string, retained: string, salt: nat, c: Cipher)
    requires RoundTrips(c) && Trim(rawContent) != [] && password != []
    ensures Decrypted(Edited(n, rawContent, password, retained, salt, c), password, c)
         == Some(n.(content := Trim(rawContent), isEncrypted := false))
  {
    UnsealSealed(c, Trim(rawContent), password, salt);
  }

  /**
   * `toggleLockOnNote`: flips `locked` on the last note of the store; the
   * other notes, and the other fields of the last one, stay as they were.
   */
  function ToggledLast(notes: seq<Note>): (r: seq<Note>)
    ensures |r| == |notes|
    ensures forall k :: 0 <= k < |notes| - 1 ==> r[k] == notes[k]
    ensures notes != [] ==> r[|notes| - 1] == notes[|notes| - 1].(locked := !notes[|notes| - 1].locked)
  {
    if notes == [] then notes
    else
      var last := notes[|notes| - 1];
      notes[|notes| - 1 := last.(locked := !last.locked)]
  }

  /** Toggling the lock twice restores the store. */
  lemma ToggleTwice(notes: seq<Note>)
    ensures ToggledLast(ToggledLast(notes)) == notes
  {
  }
}
