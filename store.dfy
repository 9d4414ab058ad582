/** The note/user store of database.go: the `users` and `notes` tables, the
    owner-scoped queries over them and the four operations that change them.

    `Tables` is the value of the whole database; its member functions are the
    queries and the specifications of the changes. `Store` is the object the
    server holds, whose methods change the tables the way the transactions in
    database.go do, each proved against the matching `Tables` function. */
module NoteStore {
  import opened Credentials

  datatype Option<+T> = None | Some(value: T)

  datatype Result<+T, +E> = Ok(value: T) | Err(error: E)

  /** A row of `users`, and the record a client sends in a handshake. */
  datatype User = User(id: int, userName: string, password: string)

  /** A row of `notes`, and the record a client sends with a note request. */
  datatype Note = Note(id: int, userId: int, title: string, dataText: string)

  /** Every way a store call fails in this model, with the text the Go error carries. */
  datatype StoreError =
    | EmptyCredential
    | DuplicateUser(name: string)
    | NoRows
    | DuplicateTitle(title: string)
  {
    /** The texts the client sees; only the driver's no-rows error reads as such. */
    function Text(): (r: string)
      ensures r != []
      ensures this.NoRows? <==> r == "sql: no rows in result set"
    {
      match this
      case EmptyCredential => "password is null"
      case DuplicateUser(name) => "user with \"" + name + "\" nickname has been registered"
      case NoRows => "sql: no rows in result set"
      case DuplicateTitle(title) => "note with \"" + title + "\" name already exists"
    }
  }

  /** No two failures read alike: a text names its failure and the name or title in it. */
  lemma {:induction false} TextInjective(a: StoreError, b: StoreError)
    ensures a.Text() == b.Text() ==> a == b
  {
    if a.DuplicateUser? && b.DuplicateUser? {
      if a.Text() == b.Text() {
        SameMiddle("user with \"", a.name, b.name, "\" nickname has been registered");
      }
    } else if a.DuplicateTitle? && b.DuplicateTitle? {
      if a.Text() == b.Text() {
        SameMiddle("note with \"", a.title, b.title, "\" name already exists");
      }
    } else if !(a.EmptyCredential? && b.EmptyCredential?) && !(a.NoRows? && b.NoRows?) {
      assert a.Text()[0] != b.Text()[0];
    }
  }

  lemma SameMiddle(prefix: string, x: string, y: string, suffix: string)
    requires prefix + x + suffix == prefix + y + suffix
    ensures x == y
  {
    assert |x| == |y|;
    assert x == (prefix + x + suffix)[|prefix|..|prefix| + |x|];
    assert y == (prefix + y + suffix)[|prefix|..|prefix| + |y|];
  }

  // ---------------------------------------------------------------------------
  // Selections over a table, in table (rowid) order
  // ---------------------------------------------------------------------------

  /** The first row named `name`: what `db.Get` reads for `where user_name=$1`. */
  function FindUser(users: seq<User>, name: string): (r: Option<User>)
    ensures r.Some? <==> exists i :: 0 <= i < |users| && users[i].userName == name
    ensures r.Some? ==> exists i :: 0 <= i < |users| && users[i] == r.value && r.value.userName == name
  {
    if users == [] then None
    else if users[0].userName == name then Some(users[0])
    else
      var r := FindUser(users[1..], name);
      assert forall i :: 1 <= i < |users| ==> users[i] == users[1..][i - 1];
      r
  }

  /** The first row with this id owned by `uid`: `where id=$1 and user_id=$2`. */
  function FindNote(notes: seq<Note>, uid: int, id: int): (r: Option<Note>)
    ensures r.Some? <==> exists i :: 0 <= i < |notes| && notes[i].id == id && notes[i].userId == uid
    ensures r.Some? ==> r.value in notes && r.value.id == id && r.value.userId == uid
  {
    if notes == [] then None
    else if notes[0].id == id && notes[0].userId == uid then Some(notes[0])
    else
      var r := FindNote(notes[1..], uid, id);
      assert forall i :: 1 <= i < |notes| ==> notes[i] == notes[1..][i - 1];
      r
  }

  /** `pattern` occurs in `s` as a contiguous run: a case-sensitive reading of `s like '%pattern%'`. */
  function Contains(s: string, pattern: string): (r: bool)
    ensures pattern <= s ==> r
    ensures r ==> |pattern| <= |s|
  {
    pattern <= s || (s != [] && Contains(s[1..], pattern))
  }

  /** `pattern` sits in `s` starting at offset `k`. */
  predicate OccursAt(s: string, pattern: string, k: int)
  {
    0 <= k <= |s| - |pattern| && s[k..k + |pattern|] == pattern
  }

  lemma {:induction false} OccursAtContains(s: string, pattern: string, k: int)
    requires OccursAt(s, pattern, k)
    ensures Contains(s, pattern)
  {
    if k == 0 {
      assert pattern <= s;
    } else {
      assert s[1..][k - 1..k - 1 + |pattern|] == s[k..k + |pattern|];
      OccursAtContains(s[1..], pattern, k - 1);
    }
  }

  lemma {:induction false} ContainsOccurs(s: string, pattern: string)
    requires Contains(s, pattern)
    ensures exists k :: OccursAt(s, pattern, k)
  {
    if pattern <= s {
      assert OccursAt(s, pattern, 0);
    } else {
      ContainsOccurs(s[1..], pattern);
      var k :| OccursAt(s[1..], pattern, k);
      assert s[1..][k..k + |pattern|] == s[k + 1..k + 1 + |pattern|];
      assert OccursAt(s, pattern, k + 1);
    }
  }

  /** Containment is exactly an occurrence of the pattern at some offset. */
  lemma ContainsIsSubstring(s: string, pattern: string)
    ensures Contains(s, pattern) <==> exists k :: OccursAt(s, pattern, k)
  {
    forall k | OccursAt(s, pattern, k) ensures Contains(s, pattern) {
      OccursAtContains(s, pattern, k);
    }
    if Contains(s, pattern) {
      ContainsOccurs(s, pattern);
    }
  }

  /** The rows owned by `uid`: `select * from notes where user_id=?`. */
  function OwnedBy(notes: seq<Note>, uid: int): (r: seq<Note>)
    ensures forall n :: n in r <==> n in notes && n.userId == uid
  {
    if notes == [] then []
    else (if notes[0].userId == uid then [notes[0]] else []) + OwnedBy(notes[1..], uid)
  }

  /** The rows owned by `uid` whose title contains `pattern`: `where user_id=? and title like ?`. */
  function TitledLike(notes: seq<Note>, uid: int, pattern: string): (r: seq<Note>)
    ensures forall n :: n in r <==> n in notes && n.userId == uid && Contains(n.title, pattern)
  {
    if notes == [] then []
    else
      (if notes[0].userId == uid && Contains(notes[0].title, pattern) then [notes[0]] else [])
      + TitledLike(notes[1..], uid, pattern)
  }

  /** `select count(*) from notes where user_id=?`, a query of its own. */
  function CountOwned(notes: seq<Note>, uid: int): (r: nat)
    ensures r <= |notes|
  {
    if notes == [] then 0
    else (if notes[0].userId == uid then 1 else 0) + CountOwned(notes[1..], uid)
  }

  /** `select count(*) from notes where user_id=? and title like ?`. */
  function CountTitledLike(notes: seq<Note>, uid: int, pattern: string): (r: nat)
    ensures r <= CountOwned(notes, uid)
  {
    if notes == [] then 0
    else
      (if notes[0].userId == uid && Contains(notes[0].title, pattern) then 1 else 0)
      + CountTitledLike(notes[1..], uid, pattern)
  }

  /** The count query and the list query select the same rows. */
  lemma {:induction false} CountOwnedIsLength(notes: seq<Note>, uid: int)
    ensures CountOwned(notes, uid) == |OwnedBy(notes, uid)|
  {
    if notes != [] {
      CountOwnedIsLength(notes[1..], uid);
    }
  }

  /** The count query and the list query of a title search select the same rows. */
  lemma {:induction false} CountTitledLikeIsLength(notes: seq<Note>, uid: int, pattern: string)
    ensures CountTitledLike(notes, uid, pattern) == |TitledLike(notes, uid, pattern)|
  {
    if notes != [] {
      CountTitledLikeIsLength(notes[1..], uid, pattern);
    }
  }

  /** `update notes set title=:title, data_text=:data_text where id=:id`. */
  function Retitle(notes: seq<Note>, id: int, title: string, dataText: string): (r: seq<Note>)
    ensures |r| == |notes|
    ensures forall i :: 0 <= i < |notes| ==> r[i].id == notes[i].id && r[i].userId == notes[i].userId
    ensures forall i :: 0 <= i < |notes| && notes[i].id != id ==> r[i] == notes[i]
    ensures forall i :: 0 <= i < |notes| && notes[i].id == id ==> r[i].title == title && r[i].dataText == dataText
  {
    seq(|notes|, i requires 0 <= i < |notes| =>
      if notes[i].id == id then notes[i].(title := title, dataText := dataText) else notes[i])
  }

  /** `delete from notes where id=:id`. */
  function DropId(notes: seq<Note>, id: int): (r: seq<Note>)
    ensures |r| <= |notes|
    ensures forall i :: 0 <= i < |r| ==> r[i].id != id
  {
    if notes == [] then []
    else (if notes[0].id == id then [] else [notes[0]]) + DropId(notes[1..], id)
  }

  /** The rows left by a delete are exactly those with another id. */
  lemma {:induction false} DropIdMembers(notes: seq<Note>, id: int)
    ensures forall n :: n in DropId(notes, id) <==> n in notes && n.id != id
  {
    if notes != [] {
      DropIdMembers(notes[1..], id);
      assert notes == [notes[0]] + notes[1..];
    }
  }

  /** Row ids strictly increase down the table (AUTOINCREMENT hands them out in order). */
  ghost predicate IncreasingNoteIds(notes: seq<Note>)
  {
    forall i, j :: 0 <= i < j < |notes| ==> notes[i].id < notes[j].id
  }

  lemma IncreasingTail(notes: seq<Note>)
    requires IncreasingNoteIds(notes) && notes != []
    ensures IncreasingNoteIds(notes[1..])
  {
    var rest := notes[1..];
    forall i, j | 0 <= i < j < |rest| ensures rest[i].id < rest[j].id {
      assert rest[i] == notes[i + 1] && rest[j] == notes[j + 1];
    }
  }

  lemma {:induction false} DropIdKeepsOrder(notes: seq<Note>, id: int)
    requires IncreasingNoteIds(notes)
    ensures IncreasingNoteIds(DropId(notes, id))
  {
    if notes != [] {
      var rest := notes[1..];
      IncreasingTail(notes);
      DropIdKeepsOrder(rest, id);
      DropIdMembers(rest, id);
      var tail := DropId(rest, id);
      forall n | n in tail ensures notes[0].id < n.id {
        var k :| 0 <= k < |rest| && rest[k] == n;
        assert notes[k + 1] == n;
      }
    }
  }

  lemma {:induction false} DropAbsentId(notes: seq<Note>, id: int)
    requires forall i :: 0 <= i < |notes| ==> notes[i].id != id
    ensures DropId(notes, id) == notes
  {
    if notes != [] {
      assert forall i :: 0 <= i < |notes[1..]| ==> notes[1..][i] == notes[i + 1];
      DropAbsentId(notes[1..], id);
    }
  }

  /** Deleting by id distributes over concatenation. */
  lemma {:induction false} DropIdConcat(a: seq<Note>, b: seq<Note>, id: int)
    ensures DropId(a + b, id) == DropId(a, id) + DropId(b, id)
  {
    if a == [] {
      assert a + b == b;
    } else {
      var head := if a[0].id == id then [] else [a[0]];
      assert (a + b)[0] == a[0];
      assert (a + b)[1..] == a[1..] + b;
      DropIdConcat(a[1..], b, id);
      calc {
        DropId(a + b, id);
        head + DropId(a[1..] + b, id);
        head + (DropId(a[1..], id) + DropId(b, id));
        (head + DropId(a[1..], id)) + DropId(b, id);
        DropId(a, id) + DropId(b, id);
      }
    }
  }

  /** With increasing ids no other row shares the id of row `k`. */
  lemma IdsDistinct(notes: seq<Note>, k: nat)
    requires IncreasingNoteIds(notes) && k < |notes|
    ensures forall i :: 0 <= i < |notes| && i != k ==> notes[i].id != notes[k].id
  {
    forall i | 0 <= i < |notes| && i != k ensures notes[i].id != notes[k].id {
      if i < k {
        assert notes[i].id < notes[k].id;
      } else {
        assert notes[k].id < notes[i].id;
      }
    }
  }

  /** Deleting by the id of one row splits around it. */
  lemma DropIdAround(before: seq<Note>, x: Note, after: seq<Note>)
    ensures DropId(before + [x] + after, x.id) == DropId(before, x.id) + DropId(after, x.id)
  {
    calc {
      DropId(before + [x] + after, x.id);
      { DropIdConcat(before + [x], after, x.id); }
      DropId(before + [x], x.id) + DropId(after, x.id);
      { DropIdConcat(before, [x], x.id); }
      DropId(before, x.id) + DropId([x], x.id) + DropId(after, x.id);
      { DropOwnRow(x); }
      DropId(before, x.id) + DropId(after, x.id);
    }
  }

  lemma DropOwnRow(x: Note)
    ensures DropId([x], x.id) == []
  {
    assert [x][1..] == [];
  }

  lemma DropAbsentPrefix(notes: seq<Note>, k: nat)
    requires k < |notes|
    requires forall i :: 0 <= i < |notes| && i != k ==> notes[i].id != notes[k].id
    ensures DropId(notes[..k], notes[k].id) == notes[..k]
  {
    var before := notes[..k];
    forall i | 0 <= i < |before| ensures before[i].id != notes[k].id {
      assert before[i] == notes[i];
    }
    DropAbsentId(before, notes[k].id);
  }

  lemma DropAbsentSuffix(notes: seq<Note>, k: nat)
    requires k < |notes|
    requires forall i :: 0 <= i < |notes| && i != k ==> notes[i].id != notes[k].id
    ensures DropId(notes[k + 1..], notes[k].id) == notes[k + 1..]
  {
    var after := notes[k + 1..];
    forall i | 0 <= i < |after| ensures after[i].id != notes[k].id {
      assert after[i] == notes[k + 1 + i];
    }
    DropAbsentId(after, notes[k].id);
  }

  /** When no other row shares the id of row `k`, deleting by that id removes row `k`
      and nothing else. */
  lemma DropIdAt(notes: seq<Note>, k: nat)
    requires k < |notes|
    requires forall i :: 0 <= i < |notes| && i != k ==> notes[i].id != notes[k].id
    ensures DropId(notes, notes[k].id) == notes[..k] + notes[k + 1..]
  {
    var id := notes[k].id;
    var before, after := notes[..k], notes[k + 1..];
    assert notes == before + [notes[k]] + after;
    DropIdAround(before, notes[k], after);
    DropAbsentPrefix(notes, k);
    DropAbsentSuffix(notes, k);
  }

  /** Some note of `uid` has exactly the title `title` iff the title search for it
      returns a note with exactly that title. */
  lemma TitleTaken(notes: seq<Note>, uid: int, title: string)
    ensures (exists n :: n in TitledLike(notes, uid, title) && n.title == title) <==>
      exists i :: 0 <= i < |notes| && notes[i].userId == uid && notes[i].title == title
  {
    if exists i :: 0 <= i < |notes| && notes[i].userId == uid && notes[i].title == title {
      var i :| 0 <= i < |notes| && notes[i].userId == uid && notes[i].title == title;
      assert title <= notes[i].title;
      assert notes[i] in TitledLike(notes, uid, title);
    }
  }

  /** Appending a row with the next id keeps the tables valid. */
  lemma AppendNoteKeepsValid(t: Tables, row: Note)
    requires t.Valid() && row.id == t.nextNoteId
    ensures t.(notes := t.notes + [row], nextNoteId := t.nextNoteId + 1).Valid()
  {
    var t1 := t.(notes := t.notes + [row], nextNoteId := t.nextNoteId + 1);
    assert forall i :: 0 <= i < |t.notes| ==> t1.notes[i] == t.notes[i];
  }

  /** The database as a value: both tables and the two AUTOINCREMENT counters. */
  datatype Tables = Tables(users: seq<User>, notes: seq<Note>, nextUserId: int, nextNoteId: int)
  {
    /** What the schema and the registration check keep true: ids start at 1, are below
        their counter and increase down each table, and user names are unique. */
    ghost predicate Valid()
    {
      && 1 <= nextUserId
      && 1 <= nextNoteId
      && (forall i :: 0 <= i < |users| ==> 1 <= users[i].id < nextUserId)
      && (forall i, j :: 0 <= i < j < |users| ==> users[i].id < users[j].id)
      && (forall i, j :: 0 <= i < j < |users| ==> users[i].userName != users[j].userName)
      && (forall i :: 0 <= i < |notes| ==> 1 <= notes[i].id < nextNoteId)
      && IncreasingNoteIds(notes)
    }

    /** Under the invariant each table's id is a key, and so is a user's name. */
    lemma ValidKeys()
      requires Valid()
      ensures forall i, j :: 0 <= i < |users| && 0 <= j < |users| && i != j ==>
        users[i].id != users[j].id && users[i].userName != users[j].userName
      ensures forall i, j :: 0 <= i < |notes| && 0 <= j < |notes| && i != j ==>
        notes[i].id != notes[j].id
    {
      forall i, j | 0 <= i < |notes| && 0 <= j < |notes| && i != j
        ensures notes[i].id != notes[j].id
      {
        if i < j {
          assert notes[i].id < notes[j].id;
        } else {
          assert notes[j].id < notes[i].id;
        }
      }
    }

    /** GetUser: the registered user of that name, or the driver's no-rows error. */
    function GetUser(name: string): (r: Result<User, StoreError>)
      ensures r.Ok? <==> exists i :: 0 <= i < |users| && users[i].userName == name
      ensures r.Ok? ==> r.value in users && r.value.userName == name
      ensures r.Err? ==> r.error == NoRows
    {
      match FindUser(users, name)
      case Some(u) => Ok(u)
      case None => Err(NoRows)
    }

    /** CheckUserPassword: an error when no such user is registered; otherwise whether
        that user's stored hash verifies the attempt. */
    function CheckUserPassword(name: string, attempt: string): (r: Result<bool, StoreError>)
      ensures r.Err? <==> forall i :: 0 <= i < |users| ==> users[i].userName != name
      ensures r.Err? ==> r.error == NoRows
      ensures Valid() && r.Ok? ==>
        (r.value <==> exists i :: 0 <= i < |users| && users[i].userName == name && Verifies(users[i].password, attempt))
    {
      match FindUser(users, name)
      case None => Err(NoRows)
      case Some(u) => Ok(Verifies(u.password, attempt))
    }

    /** GetNotesByUser: exactly the notes owned by `uid`, in table order. */
    function GetNotesByUser(uid: int): (r: seq<Note>)
      ensures forall n :: n in r <==> n in notes && n.userId == uid
    {
      OwnedBy(notes, uid)
    }

    /** GetNotesNumberByUserId: the count query agrees with the list. */
    function GetNotesNumberByUserId(uid: int): (r: nat)
      ensures r == |GetNotesByUser(uid)|
    {
      CountOwnedIsLength(notes, uid);
      CountOwned(notes, uid)
    }

    /** GetNotesByTitle: the notes owned by `uid` whose title contains `pattern`. */
    function GetNotesByTitle(uid: int, pattern: string): (r: seq<Note>)
      ensures forall n :: n in r <==> n in notes && n.userId == uid && Contains(n.title, pattern)
    {
      TitledLike(notes, uid, pattern)
    }

    /** The count of a title search that the server asks for (GetNotesNumberByTitle,
        which database.go does not define): the same selection, counted. */
    function GetNotesNumberByTitle(uid: int, pattern: string): (r: nat)
      ensures r == |GetNotesByTitle(uid, pattern)|
    {
      CountTitledLikeIsLength(notes, uid, pattern);
      CountTitledLike(notes, uid, pattern)
    }

    /** GetNoteById: a note only when both its id and its owner match; a note owned by
        someone else fails exactly like a missing id. */
    function GetNoteById(uid: int, id: int): (r: Result<Note, StoreError>)
      ensures r.Ok? <==> exists i :: 0 <= i < |notes| && notes[i].id == id && notes[i].userId == uid
      ensures r.Ok? ==> r.value in notes && r.value.id == id && r.value.userId == uid
      ensures r.Err? ==> r.error == NoRows
      ensures Valid() && r.Ok? ==> forall i :: 0 <= i < |notes| && notes[i].id == id ==> notes[i] == r.value
    {
      match FindNote(notes, uid, id)
      case Some(n) => Ok(n)
      case None => Err(NoRows)
    }

    /** Specification of Store.CreateUser: the outcome (the caller's record after the
        call, password overwritten by its hash) and the tables after it. */
    function RegisterUser(data: User, salt: Salt): (r: (Result<User, StoreError>, Tables))
      ensures data.userName == "" || data.password == "" ==> r == (Err(EmptyCredential), this)
      ensures data.userName != "" && data.password != "" && GetUser(data.userName).Ok? ==>
        r == (Err(DuplicateUser(data.userName)), this)
      ensures r.0.Ok? <==>
        data.userName != "" && data.password != "" && forall i :: 0 <= i < |users| ==> users[i].userName != data.userName
      ensures r.0.Ok? ==> r.0.value.id == data.id && r.0.value.userName == data.userName
      ensures r.0.Ok? ==>
        && r.0.value.password != data.password
        && Verifies(r.0.value.password, data.password)
        && |r.1.users| == |users| + 1
        && r.1.users[..|users|] == users
        && r.1.users[|users|] == User(nextUserId, data.userName, r.0.value.password)
        && r.1.nextUserId == nextUserId + 1
        && r.1.notes == notes && r.1.nextNoteId == nextNoteId
      ensures Valid() ==> r.1.Valid()
    {
      if data.password == "" || data.userName == "" then (Err(EmptyCredential), this)
      else if GetUser(data.userName).Ok? then (Err(DuplicateUser(data.userName)), this)
      else
        var hashed := data.(password := Hash(salt, data.password));
        (Ok(hashed), this.(users := users + [User(nextUserId, hashed.userName, hashed.password)],
                           nextUserId := nextUserId + 1))
    }

    /** Specification of Store.CreateNote: look up the owner's notes whose title is like
        the new one, fail if one of them has exactly that title, otherwise insert. */
    function InsertNote(owner: User, data: Note): (r: (Result<Note, StoreError>, Tables))
      ensures r.0.Err? <==>
        exists i :: 0 <= i < |notes| && notes[i].userId == owner.id && notes[i].title == data.title
      ensures r.0.Err? ==> r == (Err(DuplicateTitle(data.title)), this)
      ensures r.0.Ok? ==>
        && r.0.value == data.(userId := owner.id)
        && r.1.notes == notes + [Note(nextNoteId, owner.id, data.title, data.dataText)]
        && r.1.users == users && r.1.nextUserId == nextUserId && r.1.nextNoteId == nextNoteId + 1
      ensures Valid() ==> r.1.Valid()
    {
      var like := GetNotesByTitle(owner.id, data.title);
      TitleTaken(notes, owner.id, data.title);
      if exists n :: n in like && n.title == data.title then (Err(DuplicateTitle(data.title)), this)
      else
        var stamped := data.(userId := owner.id);
        var row := Note(nextNoteId, stamped.userId, stamped.title, stamped.dataText);
        var after := this.(notes := notes + [row], nextNoteId := nextNoteId + 1);
        assert Valid() ==> after.Valid() by {
          if Valid() { AppendNoteKeepsValid(this, row); }
        }
        (Ok(stamped), after)
    }

    /** Specification of Store.EditNoteById: replace the title and text of the owner's
        note with that id; uniqueness of titles is not checked again. */
    function UpdateNote(owner: User, data: Note): (r: (Option<StoreError>, Tables))
      ensures r.0.None? <==> GetNoteById(owner.id, data.id).Ok?
      ensures r.0.Some? ==> r == (Some(NoRows), this)
      ensures r.1.users == users && r.1.nextUserId == nextUserId && r.1.nextNoteId == nextNoteId
      ensures |r.1.notes| == |notes|
      ensures r.0.None? ==> forall i :: 0 <= i < |notes| ==>
        r.1.notes[i] == if notes[i].id == data.id then notes[i].(title := data.title, dataText := data.dataText) else notes[i]
      ensures Valid() ==> r.1.Valid()
    {
      match GetNoteById(owner.id, data.id)
      case Err(e) => (Some(e), this)
      case Ok(found) => (None, this.(notes := Retitle(notes, found.id, data.title, data.dataText)))
    }

    /** Specification of Store.DeleteNoteById: remove the owner's note with that id. */
    function RemoveNote(owner: User, data: Note): (r: (Option<StoreError>, Tables))
      ensures r.0.None? <==> GetNoteById(owner.id, data.id).Ok?
      ensures r.0.Some? ==> r == (Some(NoRows), this)
      ensures r.1.users == users && r.1.nextUserId == nextUserId && r.1.nextNoteId == nextNoteId
      ensures r.0.None? ==> forall n :: n in r.1.notes <==> n in notes && n.id != data.id
      ensures Valid() && r.0.None? ==>
        exists k :: 0 <= k < |notes| && notes[k].id == data.id && notes[k].userId == owner.id
          && r.1.notes == notes[..k] + notes[k + 1..]
      ensures Valid() ==> r.1.Valid()
    {
      match GetNoteById(owner.id, data.id)
      case Err(e) => (Some(e), this)
      case Ok(found) =>
        var after := this.(notes := DropId(notes, found.id));
        DropIdMembers(notes, found.id);
        assert Valid() ==> after.Valid() by {
          if Valid() { DropIdKeepsOrder(notes, found.id); }
        }
        assert Valid() ==>
          exists k :: 0 <= k < |notes| && notes[k].id == data.id && notes[k].userId == owner.id
            && after.notes == notes[..k] + notes[k + 1..] by {
          if Valid() {
            var k :| 0 <= k < |notes| && notes[k] == found;
            IdsDistinct(notes, k);
            DropIdAt(notes, k);
          }
        }
        (None, after)
    }
  }

  /** The empty database that CreateConn bootstraps from the schema. */
  const EmptyTables := Tables([], [], 1, 1)

  /** The `for` loop of CreateNote over the similar titles: whether one of them is
      exactly `title`. */
  method HasExactTitle(like: seq<Note>, title: string) returns (taken: bool)
    ensures taken <==> exists n :: n in like && n.title == title
  {
    var i := 0;
    while i < |like|
      invariant 0 <= i <= |like|
      invariant forall k :: 0 <= k < i ==> like[k].title != title
    {
      if like[i].title == title {
        assert like[i] in like;
        return true;
      }
      i := i + 1;
    }
    return false;
  }

  /** The database the server shares between sessions. Each method is one committed
      transaction; the record Go passes by address comes back as a result. */
  class Store {
    var users: seq<User>
    var notes: seq<Note>
    var nextUserId: int
    var nextNoteId: int

    function State(): Tables
      reads this
    {
      Tables(users, notes, nextUserId, nextNoteId)
    }

    ghost predicate Valid()
      reads this
    {
      State().Valid()
    }

    constructor ()
      ensures Valid() && State() == EmptyTables
    {
      users, notes, nextUserId, nextNoteId := [], [], 1, 1;
    }

    /** CreateUser: reject empty credentials and taken names, otherwise overwrite the
        record's password with its hash and insert the user. */
    method CreateUser(data: User, salt: Salt) returns (r: Result<User, StoreError>)
      requires Valid()
      modifies this
      ensures Valid()
      ensures (r, State()) == old(State()).RegisterUser(data, salt)
    {
      if data.password == "" || data.userName == "" {
        return Err(EmptyCredential);
      }
      var existing := State().GetUser(data.userName);
      if existing.Ok? {
        return Err(DuplicateUser(data.userName));
      }
      var updated := data.(password := Hash(salt, data.password));
      users := users + [User(nextUserId, updated.userName, updated.password)];
      nextUserId := nextUserId + 1;
      r := Ok(updated);
    }

    /** CreateNote: scan the owner's notes with a similar title for an exact match, then
        stamp the record with the owner's id and insert it. */
    method CreateNote(data: Note, owner: User) returns (r: Result<Note, StoreError>)
      requires Valid()
      modifies this
      ensures Valid()
      ensures (r, State()) == old(State()).InsertNote(owner, data)
    {
      var like := State().GetNotesByTitle(owner.id, data.title);
      var taken := HasExactTitle(like, data.title);
      if taken {
        return Err(DuplicateTitle(data.title));
      }
      var stamped := data.(userId := owner.id);
      notes := notes + [Note(nextNoteId, stamped.userId, stamped.title, stamped.dataText)];
      nextNoteId := nextNoteId + 1;
      r := Ok(stamped);
    }

    /** EditNoteById: fetch the owner's note, then write back the new title and text. */
    method EditNoteById(owner: User, newNote: Note) returns (err: Option<StoreError>)
      requires Valid()
      modifies this
      ensures Valid()
      ensures (err, State()) == old(State()).UpdateNote(owner, newNote)
    {
      var found := State().GetNoteById(owner.id, newNote.id);
      if found.Err? {
        return Some(found.error);
      }
      var note := found.value.(title := newNote.title, dataText := newNote.dataText);
      notes := Retitle(notes, note.id, note.title, note.dataText);
      err := None;
    }

    /** DeleteNoteById: fetch the owner's note, then delete the row with its id. */
    method DeleteNoteById(owner: User, target: Note) returns (err: Option<StoreError>)
      requires Valid()
      modifies this
      ensures Valid()
      ensures (err, State()) == old(State()).RemoveNote(owner, target)
    {
      ghost var spec := State().RemoveNote(owner, target);
      var found := State().GetNoteById(owner.id, target.id);
      if found.Err? {
        return Some(found.error);
      }
      notes := DropId(notes, found.value.id);
      err := None;
      assert State() == spec.1;
    }
  }
}
