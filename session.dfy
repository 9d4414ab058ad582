/** The session engine of server.go as functions of the database and the
    connection: the handshake (Validate), the request switch and loop
    (ClientMsgWorker) and the error policy around it (ClientWorker). The methods
    in module Server perform these steps on a Store and a Conn and are proved to
    compute exactly these functions. */
module Session {
  import opened Credentials
  import opened NoteStore
  import opened Protocol

  const WrongPasswordText := "wrong password"
  const BadHandshakeText := "message type is not 2 or 3"

  /** Specification of Validate: read one envelope; AUTH binds the stored user whose
      password verifies, REGISTER creates a user and binds the record the client sent
      (with its password replaced by the hash), anything else is refused. */
  function Handshake(t: Tables, l: Link, salt: Salt): (r: (Result<User, string>, Tables, Link))
    requires l.Valid()
    ensures r.2 == l.Read().1
    ensures r.0.Err? ==> r.1 == t
    ensures r.1.notes == t.notes && r.1.nextNoteId == t.nextNoteId
    ensures t.Valid() ==> r.1.Valid()
  {
    var (m, l1) := l.Read();
    if m.Err? then (Err(m.error), t, l1)
    else
      var env := m.value;
      if env.messageTypeStatus == AuthT then
        (match DecodeUser(env.data)
         case Err(e) => (Err(e), t, l1)
         case Ok(d) =>
           match t.GetUser(d.userName)
           case Err(e) => (Err(e.Text()), t, l1)
           case Ok(user) =>
             match t.CheckUserPassword(user.userName, d.password)
             case Err(e) => (Err(e.Text()), t, l1)
             case Ok(status) =>
               if !status then (Err(WrongPasswordText), t, l1) else (Ok(user), t, l1))
      else if env.messageTypeStatus == RegT then
        (match DecodeUser(env.data)
         case Err(e) => (Err(e), t, l1)
         case Ok(d) =>
           var (created, t1) := t.RegisterUser(d, salt);
           match created
           case Err(e) => (Err(e.Text()), t, l1)
           case Ok(bound) => (Ok(bound), t1, l1))
      else (Err(BadHandshakeText), t, l1)
  }

  /** How one authenticated-phase request ends: `Fatal` is ClientMsgWorker's
      `(true, err)`, `Domain` its `(false, err)`, and `Handled` a request that went
      through, with the envelope to send back (none for a code no case matches). */
  datatype Reply =
    | Fatal(error: string)
    | Domain(error: string)
    | Handled(tables: Tables, response: Option<Envelope>)

  /** The notes not owned by `uid` are the same in both databases. */
  ghost predicate OthersUntouched(t: Tables, t': Tables, uid: int)
  {
    forall n: Note :: n.userId != uid ==> (n in t'.notes <==> n in t.notes)
  }

  /** Specification of the `switch` in ClientMsgWorker: one request of the session
      bound to `u`, every store call scoped to `u`. */
  function Dispatch(t: Tables, u: User, m: Envelope): (r: Reply)
    ensures (r.Handled? && r.response.None?) <==> !(NewNoteT <= m.messageTypeStatus <= GetLikeTitleNotesT)
    ensures r.Handled? && r.response.None? ==> r.tables == t
    ensures r.Handled? && r.response.Some? ==> r.response.value.messageTypeStatus == SuccessT
    ensures r.Fatal? <==>
      m.messageTypeStatus in {NewNoteT, GetNoteT, UpdateNoteT, DeleteNoteT, GetLikeTitleNotesT} && DecodeNote(m.data).Err?
    ensures r.Domain? ==> NewNoteT <= m.messageTypeStatus <= DeleteNoteT
    ensures r.Handled? ==> r.tables.users == t.users && r.tables.nextUserId == t.nextUserId
    ensures r.Handled? && t.Valid() ==> r.tables.Valid() && OthersUntouched(t, r.tables, u.id)
  {
    var code := m.messageTypeStatus;
    if code == NewNoteT then
      (match DecodeNote(m.data)
       case Err(e) => Fatal(e)
       case Ok(n) =>
         var (created, t1) := t.InsertNote(u, n);
         if created.Err? then Domain(created.error.Text()) else Handled(t1, Some(StatusEnvelope(SuccessT))))
    else if code == GetNoteT then
      (match DecodeNote(m.data)
       case Err(e) => Fatal(e)
       case Ok(n) =>
         match t.GetNoteById(u.id, n.id)
         case Err(e) => Domain(e.Text())
         case Ok(found) => Handled(t, Some(Envelope(SuccessT, NoteData(found)))))
    else if code == UpdateNoteT then
      (match DecodeNote(m.data)
       case Err(e) => Fatal(e)
       case Ok(n) =>
         var (err, t1) := t.UpdateNote(u, n);
         if err.Some? then Domain(err.value.Text())
         else
           assert t.Valid() ==> OthersUntouched(t, t1, u.id) by {
             if t.Valid() { UpdateKeepsOthers(t, u, n); }
           }
           Handled(t1, Some(StatusEnvelope(SuccessT))))
    else if code == DeleteNoteT then
      (match DecodeNote(m.data)
       case Err(e) => Fatal(e)
       case Ok(n) =>
         var (err, t1) := t.RemoveNote(u, n);
         if err.Some? then Domain(err.value.Text())
         else
           assert t.Valid() ==> OthersUntouched(t, t1, u.id) by {
             if t.Valid() { RemoveKeepsOthers(t, u, n); }
           }
           Handled(t1, Some(StatusEnvelope(SuccessT))))
    else if code == GetAllMyNotesT then
      Handled(t, Some(Envelope(SuccessT, NoteSlice(t.GetNotesNumberByUserId(u.id), t.GetNotesByUser(u.id)))))
    else if code == GetLikeTitleNotesT then
      (match DecodeNote(m.data)
       case Err(e) => Fatal(e)
       case Ok(n) =>
         Handled(t, Some(Envelope(SuccessT,
           NoteSlice(t.GetNotesNumberByTitle(u.id, n.title), t.GetNotesByTitle(u.id, n.title))))))
    else Handled(t, None)
  }

  /** An edit changes only a note the owner holds, so other owners keep theirs. */
  lemma UpdateKeepsOthers(t: Tables, u: User, n: Note)
    requires t.Valid() && t.UpdateNote(u, n).0.None?
    ensures OthersUntouched(t, t.UpdateNote(u, n).1, u.id)
  {
    var t1 := t.UpdateNote(u, n).1;
    var found := t.GetNoteById(u.id, n.id).value;
    forall x: Note | x.userId != u.id ensures x in t1.notes <==> x in t.notes {
      if x in t.notes {
        var i :| 0 <= i < |t.notes| && t.notes[i] == x;
        assert t.notes[i].id != n.id;
        assert t1.notes[i] == x;
      }
      if x in t1.notes {
        var i :| 0 <= i < |t1.notes| && t1.notes[i] == x;
        assert t.notes[i] == x;
      }
    }
  }

  /** A delete removes only a note the owner holds, so other owners keep theirs. */
  lemma RemoveKeepsOthers(t: Tables, u: User, n: Note)
    requires t.Valid() && t.RemoveNote(u, n).0.None?
    ensures OthersUntouched(t, t.RemoveNote(u, n).1, u.id)
  {
    var t1 := t.RemoveNote(u, n).1;
    forall x: Note | x.userId != u.id ensures x in t1.notes <==> x in t.notes {
      if x in t.notes {
        var i :| 0 <= i < |t.notes| && t.notes[i] == x;
        assert t.notes[i].id != n.id;
      }
    }
  }

  /** How ClientMsgWorker returns: its `(status, err)` pair, with the database and the
      connection as they are at that point. */
  datatype WorkerExit = WorkerExit(fatal: bool, error: string, tables: Tables, link: Link)

  /** What ClientMsgWorker does with one request it has read: either it returns
      (`Exit`), or it goes on to read the next request (`Next`). */
  datatype Step = Exit(exit: WorkerExit) | Next(tables: Tables, link: Link)

  /** One pass through the body of ClientMsgWorker's loop after the read: the request
      is dispatched, and a request that went through has its reply written. */
  function StepRequest(t: Tables, u: User, m: Envelope, l: Link): (r: Step)
    requires l.Valid()
    ensures r.Next? ==> r.link.Valid() && r.link.incoming == l.incoming && r.link.pos == l.pos && l.sent <= r.link.sent
    ensures r.Exit? ==> r.exit.link.Valid() && r.exit.link.incoming == l.incoming && r.exit.link.pos == l.pos
    ensures r.Exit? ==> l.sent <= r.exit.link.sent
  {
    match Dispatch(t, u, m)
    case Fatal(e) => Exit(WorkerExit(true, e, t, l))
    case Domain(e) => Exit(WorkerExit(false, e, t, l))
    case Handled(t1, response) =>
      if response.None? then Next(t1, l)
      else
        var (err, l1) := l.Write(response.value);
        if err.Some? then Exit(WorkerExit(true, err.value, t1, l1)) else Next(t1, l1)
  }

  /** Specification of ClientMsgWorker: handle requests one after another until one of
      them fails; a request that succeeds writes its one reply first. */
  function Worker(t: Tables, u: User, l: Link): (r: WorkerExit)
    requires l.Valid()
    ensures r.link.Valid() && r.link.incoming == l.incoming
    ensures r.fatal || r.link.pos > l.pos
    ensures l.sent <= r.link.sent
    decreases |l.incoming| - l.pos
  {
    var (m, l1) := l.Read();
    if m.Err? then WorkerExit(true, m.error, t, l1)
    else
      match StepRequest(t, u, m.value, l1)
      case Exit(w) => w
      case Next(t1, l2) => Worker(t1, u, l2)
  }

  /** Specification of the loop in ClientWorker: after every failure of ClientMsgWorker
      one ERROR envelope is attempted; a fatal failure, or an ERROR that cannot be
      written, ends the session, a domain failure goes back to reading requests. */
  function Serve(t: Tables, u: User, l: Link): (r: (Tables, Link))
    requires l.Valid()
    ensures r.1.Valid() && r.1.incoming == l.incoming
    ensures l.sent <= r.1.sent
    decreases |l.incoming| - l.pos
  {
    var w := Worker(t, u, l);
    var (err, l1) := w.link.Write(ErrorEnvelope(w.error));
    if w.fatal then (w.tables, l1)
    else if err.Some? then (w.tables, l1)
    else Serve(w.tables, u, l1)
  }

  /** Specification of ClientWorker: the handshake, its one reply, then the loop. */
  function Run(t: Tables, l: Link, salt: Salt): (r: (Tables, Link))
    requires l.Valid()
    ensures r.1.Valid() && r.1.incoming == l.incoming
    ensures l.sent <= r.1.sent
  {
    var (v, t1, l1) := Handshake(t, l, salt);
    match v
    case Err(e) => (t1, l1.Write(ErrorEnvelope(e)).1)
    case Ok(user) =>
      var (err, l2) := l1.Write(StatusEnvelope(SuccessT));
      if err.Some? then (t1, l2) else Serve(t1, user, l2)
  }

  /** Sessions run one after another, in the order their connections were accepted:
      the database after all of them and how each connection ended. */
  function RunSeq(t: Tables, ls: seq<Link>, salts: seq<Salt>): (r: (Tables, seq<Link>))
    requires |ls| == |salts| && forall i :: 0 <= i < |ls| ==> ls[i].Valid()
    ensures |r.1| == |ls|
    ensures forall i :: 0 <= i < |ls| ==> r.1[i].Valid() && r.1[i].incoming == ls[i].incoming
    decreases |ls|
  {
    if ls == [] then (t, [])
    else
      var n := |ls| - 1;
      var before := RunSeq(t, ls[..n], salts[..n]);
      var session := Run(before.0, ls[n], salts[n]);
      (session.0, before.1 + [session.1])
  }
}
