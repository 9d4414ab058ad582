/** What the operations of database.go promise when they are used one after
    another: a registered user can log in with exactly the password it chose, a
    new note joins its owner's list and only that list, titles are unique per
    owner at creation only, and the notes of another owner behave exactly like
    notes that do not exist. */
module StoreFacts {
  import opened Credentials
  import opened NoteStore

  /** A row appended to the table is appended to its owner's selection and to no other. */
  lemma {:induction false} OwnedByAppend(notes: seq<Note>, x: Note, uid: int)
    ensures OwnedBy(notes + [x], uid) == OwnedBy(notes, uid) + (if x.userId == uid then [x] else [])
  {
    var last := if x.userId == uid then [x] else [];
    if notes == [] {
      assert [x][1..] == [];
      assert notes + [x] == [x];
    } else {
      var head := if notes[0].userId == uid then [notes[0]] else [];
      assert (notes + [x])[0] == notes[0];
      assert (notes + [x])[1..] == notes[1..] + [x];
      OwnedByAppend(notes[1..], x, uid);
      calc {
        OwnedBy(notes + [x], uid);
        head + OwnedBy(notes[1..] + [x], uid);
        head + (OwnedBy(notes[1..], uid) + last);
        (head + OwnedBy(notes[1..], uid)) + last;
        OwnedBy(notes, uid) + last;
      }
    }
  }

  /** A name that no row carries is found in the row appended with it. */
  lemma {:induction false} FindUserAppend(users: seq<User>, x: User, name: string)
    requires forall i :: 0 <= i < |users| ==> users[i].userName != name
    requires x.userName == name
    ensures FindUser(users + [x], name) == Some(x)
  {
    if users == [] {
      assert users + [x] == [x];
    } else {
      assert (users + [x])[1..] == users[1..] + [x];
      assert forall i :: 0 <= i < |users[1..]| ==> users[1..][i] == users[i + 1];
      FindUserAppend(users[1..], x, name);
    }
  }

  /** After a registration the name resolves to the row just inserted, with the id the
      table assigned, and its password check accepts the chosen password and nothing else. */
  lemma RegisterThenAuthenticate(t: Tables, data: User, salt: Salt)
    requires t.Valid() && t.RegisterUser(data, salt).0.Ok?
    ensures t.RegisterUser(data, salt).1.GetUser(data.userName)
      == Ok(User(t.nextUserId, data.userName, Hash(salt, data.password)))
    ensures forall attempt ::
      t.RegisterUser(data, salt).1.CheckUserPassword(data.userName, attempt) == Ok(attempt == data.password)
    ensures forall other: User :: other.userName == data.userName && other.password != "" ==>
      t.RegisterUser(data, salt).1.RegisterUser(other, salt).0 == Err(DuplicateUser(data.userName))
  {
    var t1 := t.RegisterUser(data, salt).1;
    var row := User(t.nextUserId, data.userName, Hash(salt, data.password));
    assert t1.users == t.users + [row];
    FindUserAppend(t.users, row, data.userName);
    forall attempt
      ensures t1.CheckUserPassword(data.userName, attempt) == Ok(attempt == data.password)
    {
      VerifiesExactly(salt, data.password, attempt);
    }
  }

  /** A created note is the last of its owner's list, which also grows by one in the
      count; every other owner's list is what it was. */
  lemma NewNoteThenListAll(t: Tables, owner: User, data: Note)
    requires t.InsertNote(owner, data).0.Ok?
    ensures t.InsertNote(owner, data).1.GetNotesByUser(owner.id)
      == t.GetNotesByUser(owner.id) + [Note(t.nextNoteId, owner.id, data.title, data.dataText)]
    ensures t.InsertNote(owner, data).1.GetNotesNumberByUserId(owner.id) == t.GetNotesNumberByUserId(owner.id) + 1
    ensures forall uid :: uid != owner.id ==>
      t.InsertNote(owner, data).1.GetNotesByUser(uid) == t.GetNotesByUser(uid)
  {
    var row := Note(t.nextNoteId, owner.id, data.title, data.dataText);
    OwnedByAppend(t.notes, row, owner.id);
    forall uid | uid != owner.id
      ensures t.InsertNote(owner, data).1.GetNotesByUser(uid) == t.GetNotesByUser(uid)
    {
      OwnedByAppend(t.notes, row, uid);
    }
  }

  /** Once an owner holds a title, that owner cannot create a second note with it, while
      another owner's chance to use the title is what it was before. */
  lemma DuplicateTitleScopedToOwner(t: Tables, owner: User, data: Note, again: Note, other: User)
    requires t.InsertNote(owner, data).0.Ok?
    requires again.title == data.title && other.id != owner.id
    ensures t.InsertNote(owner, data).1.InsertNote(owner, again).0 == Err(DuplicateTitle(data.title))
    ensures t.InsertNote(owner, data).1.InsertNote(other, again).0.Ok? <==> t.InsertNote(other, again).0.Ok?
  {
    var t1 := t.InsertNote(owner, data).1;
    assert t1.notes[|t.notes|].userId == owner.id && t1.notes[|t.notes|].title == again.title;
    if t1.InsertNote(other, again).0.Err? {
      var i :| 0 <= i < |t1.notes| && t1.notes[i].userId == other.id && t1.notes[i].title == again.title;
      assert i < |t.notes| && t.notes[i] == t1.notes[i];
    }
    if t.InsertNote(other, again).0.Err? {
      var i :| 0 <= i < |t.notes| && t.notes[i].userId == other.id && t.notes[i].title == again.title;
      assert t1.notes[i] == t.notes[i];
    }
  }

  /** A note of another owner is invisible: reading, editing and deleting it fail with
      the no-rows error and change nothing, exactly as for an id that does not exist. */
  lemma ForeignNoteIsMissing(t: Tables, u: User, n: Note, request: Note)
    requires t.Valid() && n in t.notes && n.userId != u.id && request.id == n.id
    ensures t.GetNoteById(u.id, n.id) == Err(NoRows)
    ensures t.UpdateNote(u, request) == (Some(NoRows), t)
    ensures t.RemoveNote(u, request) == (Some(NoRows), t)
  {
    var j :| 0 <= j < |t.notes| && t.notes[j] == n;
    assert t.notes[j].id == n.id;
  }

  /** After an edit, reading the note gives the fetched row with the new title and text. */
  lemma UpdateThenGet(t: Tables, u: User, data: Note)
    requires t.Valid() && t.UpdateNote(u, data).0.None?
    ensures t.UpdateNote(u, data).1.GetNoteById(u.id, data.id)
      == Ok(t.GetNoteById(u.id, data.id).value.(title := data.title, dataText := data.dataText))
  {
    var t1 := t.UpdateNote(u, data).1;
    var found := t.GetNoteById(u.id, data.id).value;
    var k :| 0 <= k < |t.notes| && t.notes[k] == found;
    assert t1.notes[k] == found.(title := data.title, dataText := data.dataText);
    assert t1.Valid();
  }

  /** After a delete no owner can read a note with that id any more. */
  lemma DeleteThenGetFails(t: Tables, u: User, data: Note, uid: int)
    requires t.RemoveNote(u, data).0.None?
    ensures t.RemoveNote(u, data).1.GetNoteById(uid, data.id) == Err(NoRows)
  {
  }

  /** Titles are unique per owner only at creation: an edit may give a note the title
      of another note of the same owner, which a new note could no longer get. */
  lemma EditAllowsDuplicateTitle()
    ensures var t := Tables([], [Note(1, 7, "a", ""), Note(2, 7, "b", "")], 1, 3);
      && t.UpdateNote(User(7, "ann", ""), Note(2, 0, "a", "x")).1.notes
         == [Note(1, 7, "a", ""), Note(2, 7, "a", "x")]
      && t.InsertNote(User(7, "ann", ""), Note(0, 0, "a", "y")).0 == Err(DuplicateTitle("a"))
  {
    var t := Tables([], [Note(1, 7, "a", ""), Note(2, 7, "b", "")], 1, 3);
    assert t.notes[0].userId == 7 && t.notes[0].title == "a";
    var r := t.UpdateNote(User(7, "ann", ""), Note(2, 0, "a", "x")).1.notes;
    assert t.notes[1].id == 2 && t.notes[1].userId == 7;
    assert r[0] == Note(1, 7, "a", "") && r[1] == Note(2, 7, "a", "x");
  }
}
