/** The imperative core of server.go: each method does what its Go namesake does
    to the store and the connection, step by step, and its postcondition says that
    the result is what the matching function of module Session computes. */
module Server {
  import opened Credentials
  import opened NoteStore
  import opened Protocol
  import opened Session
  import opened Admission

  /** SendErrorMsg: wrap the text in an ERROR envelope and write it. */
  method SendErrorMsg(conn: Conn, errorText: string) returns (err: Option<string>)
    modifies conn
    ensures (err, conn.Value()) == old(conn.Value()).Write(ErrorEnvelope(errorText))
  {
    err := conn.Write(ErrorEnvelope(errorText));
  }

  /** SendStatus: write an envelope that carries only a type code. */
  method SendStatus(conn: Conn, status: int) returns (err: Option<string>)
    modifies conn
    ensures (err, conn.Value()) == old(conn.Value()).Write(StatusEnvelope(status))
  {
    err := conn.Write(StatusEnvelope(status));
  }

  /** Validate: the one-message handshake. */
  method Validate(conn: Conn, db: Store, salt: Salt) returns (r: Result<User, string>)
    requires conn.Valid() && db.Valid()
    modifies conn, db
    ensures conn.Valid() && db.Valid()
    ensures (r, db.State(), conn.Value()) == Handshake(old(db.State()), old(conn.Value()), salt)
  {
    var msg := conn.ReadMessage();
    if msg.Err? {
      return Err(msg.error);
    }
    var code := msg.value.messageTypeStatus;
    if code == AuthT {
      var data := DecodeUser(msg.value.data);
      if data.Err? {
        return Err(data.error);
      }
      var user := db.State().GetUser(data.value.userName);
      if user.Err? {
        return Err(user.error.Text());
      }
      var status := db.State().CheckUserPassword(user.value.userName, data.value.password);
      if status.Err? {
        return Err(status.error.Text());
      }
      if !status.value {
        return Err(WrongPasswordText);
      }
      r := Ok(user.value);
    } else if code == RegT {
      var data := DecodeUser(msg.value.data);
      if data.Err? {
        return Err(data.error);
      }
      var created := db.CreateUser(data.value, salt);
      if created.Err? {
        return Err(created.error.Text());
      }
      r := Ok(created.value);
    } else {
      r := Err(BadHandshakeText);
    }
  }

  /** The `switch` of ClientMsgWorker on the type code of a request it has read:
      `exit` says whether ClientMsgWorker returns here, with `(fatal, err)`. */
  method HandleRequest(conn: Conn, db: Store, user: User, msg: Envelope) returns (exit: bool, fatal: bool, err: string)
    requires conn.Valid() && db.Valid()
    modifies conn, db
    ensures conn.Valid() && db.Valid()
    ensures exit ==>
      StepRequest(old(db.State()), user, msg, old(conn.Value())) == Exit(WorkerExit(fatal, err, db.State(), conn.Value()))
    ensures !exit ==>
      StepRequest(old(db.State()), user, msg, old(conn.Value())) == Next(db.State(), conn.Value())
  {
    var code := msg.messageTypeStatus;
    if code == NewNoteT {
      exit, fatal, err := HandleNewNote(conn, db, user, msg);
    } else if code == UpdateNoteT {
      exit, fatal, err := HandleUpdateNote(conn, db, user, msg);
    } else if code == DeleteNoteT {
      exit, fatal, err := HandleDeleteNote(conn, db, user, msg);
    } else if code == GetNoteT || code == GetAllMyNotesT || code == GetLikeTitleNotesT {
      exit, fatal, err := HandleQuery(conn, db, user, msg);
    } else {
      exit, fatal, err := false, false, "";
    }
  }

  /** The NEW_NOTE case: decode the note, create it for the bound user, answer SUCCESS. */
  method HandleNewNote(conn: Conn, db: Store, user: User, msg: Envelope) returns (exit: bool, fatal: bool, err: string)
    requires conn.Valid() && db.Valid()
    requires msg.messageTypeStatus == NewNoteT
    modifies conn, db
    ensures conn.Valid() && db.Valid()
    ensures exit ==>
      StepRequest(old(db.State()), user, msg, old(conn.Value())) == Exit(WorkerExit(fatal, err, db.State(), conn.Value()))
    ensures !exit ==>
      StepRequest(old(db.State()), user, msg, old(conn.Value())) == Next(db.State(), conn.Value())
  {
    var note := DecodeNote(msg.data);
    if note.Err? {
      return true, true, note.error;
    }
    var created := db.CreateNote(note.value, user);
    if created.Err? {
      return true, false, created.error.Text();
    }
    var werr := SendStatus(conn, SuccessT);
    if werr.Some? {
      return true, true, werr.value;
    }
    exit, fatal, err := false, false, "";
  }

  /** The UPDATE_NOTE case: decode the note, edit the bound user's note with its id, answer SUCCESS. */
  method HandleUpdateNote(conn: Conn, db: Store, user: User, msg: Envelope) returns (exit: bool, fatal: bool, err: string)
    requires conn.Valid() && db.Valid()
    requires msg.messageTypeStatus == UpdateNoteT
    modifies conn, db
    ensures conn.Valid() && db.Valid()
    ensures exit ==>
      StepRequest(old(db.State()), user, msg, old(conn.Value())) == Exit(WorkerExit(fatal, err, db.State(), conn.Value()))
    ensures !exit ==>
      StepRequest(old(db.State()), user, msg, old(conn.Value())) == Next(db.State(), conn.Value())
  {
    ghost var t0 := db.State();
    var note := DecodeNote(msg.data);
    if note.Err? {
      return true, true, note.error;
    }
    var failed := db.EditNoteById(user, note.value);
    if failed.Some? {
      assert Dispatch(t0, user, msg) == Domain(failed.value.Text());
      return true, false, failed.value.Text();
    }
    assert Dispatch(t0, user, msg) == Handled(db.State(), Some(StatusEnvelope(SuccessT)));
    var werr := SendStatus(conn, SuccessT);
    if werr.Some? {
      return true, true, werr.value;
    }
    exit, fatal, err := false, false, "";
  }

  /** The DELETE_NOTE case: decode the note, delete the bound user's note with its id, answer SUCCESS. */
  method HandleDeleteNote(conn: Conn, db: Store, user: User, msg: Envelope) returns (exit: bool, fatal: bool, err: string)
    requires conn.Valid() && db.Valid()
    requires msg.messageTypeStatus == DeleteNoteT
    modifies conn, db
    ensures conn.Valid() && db.Valid()
    ensures exit ==>
      StepRequest(old(db.State()), user, msg, old(conn.Value())) == Exit(WorkerExit(fatal, err, db.State(), conn.Value()))
    ensures !exit ==>
      StepRequest(old(db.State()), user, msg, old(conn.Value())) == Next(db.State(), conn.Value())
  {
    ghost var t0 := db.State();
    var note := DecodeNote(msg.data);
    if note.Err? {
      return true, true, note.error;
    }
    var failed := db.DeleteNoteById(user, note.value);
    if failed.Some? {
      assert Dispatch(t0, user, msg) == Domain(failed.value.Text());
      return true, false, failed.value.Text();
    }
    assert Dispatch(t0, user, msg) == Handled(db.State(), Some(StatusEnvelope(SuccessT)));
    var werr := SendStatus(conn, SuccessT);
    if werr.Some? {
      return true, true, werr.value;
    }
    exit, fatal, err := false, false, "";
  }

  /** The cases of the `switch` that only read: GET_NOTE, GET_ALL_MY_NOTES and
      GET_LIKE_TITLE_NOTES, each answered with the data asked for. */
  method HandleQuery(conn: Conn, db: Store, user: User, msg: Envelope) returns (exit: bool, fatal: bool, err: string)
    requires conn.Valid() && db.Valid()
    requires msg.messageTypeStatus in {GetNoteT, GetAllMyNotesT, GetLikeTitleNotesT}
    modifies conn
    ensures conn.Valid()
    ensures exit ==>
      StepRequest(db.State(), user, msg, old(conn.Value())) == Exit(WorkerExit(fatal, err, db.State(), conn.Value()))
    ensures !exit ==>
      StepRequest(db.State(), user, msg, old(conn.Value())) == Next(db.State(), conn.Value())
  {
    var code := msg.messageTypeStatus;
    var reply;
    if code == GetNoteT {
      var note := DecodeNote(msg.data);
      if note.Err? {
        return true, true, note.error;
      }
      var found := db.State().GetNoteById(user.id, note.value.id);
      if found.Err? {
        return true, false, found.error.Text();
      }
      reply := Envelope(SuccessT, NoteData(found.value));
    } else if code == GetAllMyNotesT {
      var notes := db.State().GetNotesByUser(user.id);
      var count := db.State().GetNotesNumberByUserId(user.id);
      reply := Envelope(SuccessT, NoteSlice(count, notes));
    } else {
      var note := DecodeNote(msg.data);
      if note.Err? {
        return true, true, note.error;
      }
      var notes := db.State().GetNotesByTitle(user.id, note.value.title);
      var count := db.State().GetNotesNumberByTitle(user.id, note.value.title);
      reply := Envelope(SuccessT, NoteSlice(count, notes));
    }
    var werr := conn.Write(reply);
    if werr.Some? {
      return true, true, werr.value;
    }
    exit, fatal, err := false, false, "";
  }

  /** ClientMsgWorker: read, decode and serve requests until one fails, and report
      whether that failure is fatal. */
  method ClientMsgWorker(conn: Conn, db: Store, user: User) returns (fatal: bool, err: string)
    requires conn.Valid() && db.Valid()
    modifies conn, db
    ensures conn.Valid() && db.Valid()
    ensures WorkerExit(fatal, err, db.State(), conn.Value()) == Worker(old(db.State()), user, old(conn.Value()))
  {
    while true
      invariant conn.Valid() && db.Valid() && conn.incoming == old(conn.incoming)
      invariant Worker(db.State(), user, conn.Value()) == Worker(old(db.State()), user, old(conn.Value()))
      decreases |conn.incoming| - conn.pos
    {
      var msg := conn.ReadMessage();
      if msg.Err? {
        return true, msg.error;
      }
      var exit;
      exit, fatal, err := HandleRequest(conn, db, user, msg.value);
      if exit {
        return;
      }
    }
  }

  /** The `for` loop of ClientWorker after a successful handshake: run ClientMsgWorker,
      send its error back, and go round again only after a domain error that could
      be written. */
  method ServeLoop(conn: Conn, db: Store, user: User)
    requires conn.Valid() && db.Valid()
    modifies conn, db
    ensures conn.Valid() && db.Valid()
    ensures (db.State(), conn.Value()) == Serve(old(db.State()), user, old(conn.Value()))
  {
    while true
      invariant conn.Valid() && db.Valid() && conn.incoming == old(conn.incoming)
      invariant Serve(db.State(), user, conn.Value()) == Serve(old(db.State()), user, old(conn.Value()))
      decreases |conn.incoming| - conn.pos
    {
      ghost var t, l := db.State(), conn.Value();
      var status, err := ClientMsgWorker(conn, db, user);
      var serr := SendErrorMsg(conn, err);
      if status || serr.Some? {
        assert (db.State(), conn.Value()) == Serve(t, user, l);
        return;
      }
    }
  }

  /** ClientWorker: the handshake and its reply, the request loop with the error
      policy, and the release of the session's admission slot on every path. */
  method ClientWorker(conn: Conn, db: Store, ch: Slots, salt: Salt)
    requires conn.Valid() && db.Valid() && ch.Valid() && ch.held > 0
    modifies conn, db, ch
    ensures conn.Valid() && db.Valid() && ch.Valid()
    ensures (db.State(), conn.Value()) == Run(old(db.State()), old(conn.Value()), salt)
    ensures ch.held == old(ch.held) - 1
  {
    var user := Validate(conn, db, salt);
    if user.Err? {
      var serr := SendErrorMsg(conn, user.error);
    } else {
      var werr := conn.Write(StatusEnvelope(SuccessT));
      if werr.None? {
        ServeLoop(conn, db, user.value);
      }
    }
    ch.Release();
  }

  /** The first `i` sessions, run in order from `t0` on the connections `ls`, leave
      the database `t` and their connections as `ends`. */
  ghost predicate AcceptedSoFar(t0: Tables, ls: seq<Link>, salts: seq<Salt>, i: nat, t: Tables, ends: seq<Link>)
  {
    && |ls| == |salts| && i <= |ls|
    && (forall j :: 0 <= j < |ls| ==> ls[j].Valid())
    && (t, ends) == RunSeq(t0, ls[..i], salts[..i])
  }

  /** One turn of the accept loop: take a slot, then run the session of the `i`-th
      connection on it. */
  method Admit(channels: Slots, db: Store, conn: Conn, i: nat,
               ghost t0: Tables, ghost ls: seq<Link>, salts: seq<Salt>, ghost ends: seq<Link>)
    requires i < |ls| && conn.Value() == ls[i]
    requires db.Valid() && channels.Valid() && channels.held == 0
    requires AcceptedSoFar(t0, ls, salts, i, db.State(), ends)
    modifies channels, db, conn
    ensures db.Valid() && channels.Valid() && channels.held == 0
    ensures AcceptedSoFar(t0, ls, salts, i + 1, db.State(), ends + [conn.Value()])
  {
    assert ls[..i] + [ls[i]] == ls[..i + 1];
    assert salts[..i] + [salts[i]] == salts[..i + 1];
    ghost var upto := ls[..i + 1];
    assert upto[..i] == ls[..i] && salts[..i + 1][..i] == salts[..i];
    channels.Acquire();
    ClientWorker(conn, db, channels, salts[i]);
  }

  /** StartRoutineServer: refuse a capacity outside 1..8 before touching anything;
      otherwise accept the peers one by one, taking a slot for each connection
      before its session runs. The sessions run here one after another, an
      interleaving in which each session ends before the next connection is
      accepted; `ends` is how each connection was left. */
  method StartRoutineServer(maxConn: int, db: Store, peers: seq<Peer>, salts: seq<Salt>)
    returns (err: Option<string>, ends: seq<Link>)
    requires db.Valid() && |salts| == |peers|
    modifies db
    ensures err == CheckCapacity(maxConn)
    ensures err.Some? ==> unchanged(db) && ends == []
    ensures db.Valid()
    ensures err.None? ==> (db.State(), ends) == RunSeq(old(db.State()), Connect(peers), salts)
  {
    err := CheckCapacity(maxConn);
    if err.Some? {
      return err, [];
    }
    var channels := new Slots(maxConn);
    ghost var t0 := db.State();
    ghost var ls := Connect(peers);
    ends := [];
    assert ls[..0] == [] && salts[..0] == [];
    var i := 0;
    while i < |peers|
      invariant 0 <= i <= |peers|
      invariant db.Valid() && channels.Valid() && channels.held == 0
      invariant AcceptedSoFar(t0, ls, salts, i, db.State(), ends)
    {
      var conn := new Conn(peers[i].incoming, peers[i].writable);
      Admit(channels, db, conn, i, t0, ls, salts, ends);
      ends := ends + [conn.Value()];
      i := i + 1;
    }
    assert ls[..i] == ls && salts[..i] == salts;
  }
}
