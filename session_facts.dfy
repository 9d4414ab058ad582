/** What a whole session of server.go does, proved about the functions of module
    Session: only AUTH and REGISTER open a session, the error policy of
    ClientWorker, the meaning of every success reply, the isolation of one
    owner's notes from another session, the discipline of the replies, and the
    consequences of REGISTER binding the record the client sent. */
module SessionFacts {
  import opened Credentials
  import opened NoteStore
  import opened Protocol
  import opened Session
  import StoreFacts

  // ---------------------------------------------------------------------------
  // The handshake
  // ---------------------------------------------------------------------------

  /** A first envelope of any other type is refused: nothing changes, one ERROR is
      attempted, and nothing more is read. */
  lemma HandshakeOnlyAuthOrRegister(t: Tables, l: Link, salt: Salt, e: Envelope)
    requires l.Valid() && l.pos < |l.incoming| && l.incoming[l.pos] == Frame(e)
    requires e.messageTypeStatus != AuthT && e.messageTypeStatus != RegT
    ensures Handshake(t, l, salt) == (Err(BadHandshakeText), t, l.(pos := l.pos + 1))
    ensures Run(t, l, salt) == (t, l.(pos := l.pos + 1).Write(ErrorEnvelope(BadHandshakeText)).1)
  {
  }

  /** AUTH binds exactly a stored row, the one with that name, and only when its hash
      verifies the password sent; an unknown name and a wrong password are refused
      with their own messages, and AUTH never changes the database. */
  lemma AuthBindsStoredUser(t: Tables, l: Link, salt: Salt, d: User)
    requires t.Valid() && l.Valid() && l.pos < |l.incoming|
    requires l.incoming[l.pos] == Frame(Envelope(AuthT, UserData(d)))
    ensures Handshake(t, l, salt).1 == t
    ensures Handshake(t, l, salt).0.Ok? <==>
      exists i :: 0 <= i < |t.users| && t.users[i].userName == d.userName && Verifies(t.users[i].password, d.password)
    ensures Handshake(t, l, salt).0.Ok? ==>
      Handshake(t, l, salt).0.value in t.users && Handshake(t, l, salt).0.value.userName == d.userName
    ensures (forall i :: 0 <= i < |t.users| ==> t.users[i].userName != d.userName) ==>
      Handshake(t, l, salt).0 == Err(NoRows.Text())
    ensures (exists i :: 0 <= i < |t.users| && t.users[i].userName == d.userName && !Verifies(t.users[i].password, d.password)) ==>
      Handshake(t, l, salt).0 == Err(WrongPasswordText)
  {
    var user := t.GetUser(d.userName);
    if user.Ok? {
      var k :| 0 <= k < |t.users| && t.users[k] == user.value;
      assert forall i :: 0 <= i < |t.users| && t.users[i].userName == d.userName ==> i == k;
    }
  }

  /** REGISTER with a fresh name and non-empty credentials inserts a row with the
      table's next id, but binds the record the client sent: its id is whatever the
      client put there, only the password is replaced by its hash. */
  lemma RegisterBindsClientRecord(t: Tables, l: Link, salt: Salt, d: User)
    requires l.Valid() && l.pos < |l.incoming|
    requires l.incoming[l.pos] == Frame(Envelope(RegT, UserData(d)))
    requires d.userName != "" && d.password != ""
    requires forall i :: 0 <= i < |t.users| ==> t.users[i].userName != d.userName
    ensures Handshake(t, l, salt).0 == Ok(User(d.id, d.userName, Hash(salt, d.password)))
    ensures Handshake(t, l, salt).1.users == t.users + [User(t.nextUserId, d.userName, Hash(salt, d.password))]
    ensures Handshake(t, l, salt).1.notes == t.notes
  {
  }

  /** After a successful handshake the session writes SUCCESS and, if that write goes
      through, enters the request loop with the bound user. */
  lemma SuccessfulHandshake(t: Tables, l: Link, salt: Salt)
    requires l.Valid() && Handshake(t, l, salt).0.Ok? && l.writable > 0
    ensures var (v, t1, l1) := Handshake(t, l, salt);
      Run(t, l, salt) == Serve(t1, v.value, l1.(sent := l1.sent + [StatusEnvelope(SuccessT)], writable := l1.writable - 1))
  {
  }

  // ---------------------------------------------------------------------------
  // The error policy of ClientWorker
  // ---------------------------------------------------------------------------

  /** A domain error is reported with one ERROR envelope and the session reads on; a
      fatal error, or an ERROR that cannot be written, ends it after that one attempt. */
  lemma ServeErrorPolicy(t: Tables, u: User, l: Link)
    requires l.Valid()
    ensures var w := Worker(t, u, l);
      && (!w.fatal && w.link.writable > 0 ==>
           Serve(t, u, l) == Serve(w.tables, u, w.link.(sent := w.link.sent + [ErrorEnvelope(w.error)],
                                                          writable := w.link.writable - 1)))
      && (w.fatal || w.link.writable == 0 ==>
           Serve(t, u, l) == (w.tables, w.link.Write(ErrorEnvelope(w.error)).1))
  {
  }

  /** A type code outside NEW_NOTE..GET_LIKE_TITLE_NOTES, LOGOUT included, is read and
      dropped: no reply, no change, and ClientMsgWorker goes on reading. */
  lemma UnknownCodeIgnored(t: Tables, u: User, l: Link, e: Envelope)
    requires l.Valid() && l.pos < |l.incoming| && l.incoming[l.pos] == Frame(e)
    requires !(NewNoteT <= e.messageTypeStatus <= GetLikeTitleNotesT)
    ensures Worker(t, u, l) == Worker(t, u, l.(pos := l.pos + 1))
  {
  }

  /** The end of the input, or bytes that are not an envelope, end ClientMsgWorker with
      a fatal error and nothing written. */
  lemma ReadFailureIsFatal(t: Tables, u: User, l: Link)
    requires l.Valid() && (l.pos == |l.incoming| || l.incoming[l.pos].Garbled?)
    ensures Worker(t, u, l).fatal
    ensures Worker(t, u, l).tables == t && Worker(t, u, l).link.sent == l.sent
    ensures l.pos == |l.incoming| ==> Worker(t, u, l).error == EofText
  {
  }

  // ---------------------------------------------------------------------------
  // What the replies mean
  // ---------------------------------------------------------------------------

  /** Every request that goes through is answered with what it asked for, scoped to the
      bound user; every domain error carries the store's message for that request. */
  lemma DispatchReplies(t: Tables, u: User, m: Envelope)
    ensures var r := Dispatch(t, u, m);
      r.Handled? && r.response.Some? ==>
        && (m.messageTypeStatus in {NewNoteT, UpdateNoteT, DeleteNoteT} ==> r.response.value == StatusEnvelope(SuccessT))
        && (m.messageTypeStatus == GetNoteT ==>
              && r.response.value.data.NoteData?
              && r.response.value.data.note in t.notes
              && r.response.value.data.note.userId == u.id
              && r.response.value.data.note.id == DecodeNote(m.data).value.id)
        && (m.messageTypeStatus == GetAllMyNotesT ==>
              && r.response.value.data.NoteSlice?
              && r.response.value.data.count == |r.response.value.data.notes|
              && forall n :: n in r.response.value.data.notes <==> n in t.notes && n.userId == u.id)
        && (m.messageTypeStatus == GetLikeTitleNotesT ==>
              && r.response.value.data.NoteSlice?
              && r.response.value.data.count == |r.response.value.data.notes|
              && forall n :: n in r.response.value.data.notes <==>
                   n in t.notes && n.userId == u.id && Contains(n.title, DecodeNote(m.data).value.title))
    ensures var r := Dispatch(t, u, m);
      r.Domain? ==>
        && (m.messageTypeStatus == NewNoteT ==> r.error == DuplicateTitle(DecodeNote(m.data).value.title).Text())
        && (m.messageTypeStatus != NewNoteT ==> r.error == NoRows.Text())
  {
  }

  /** A request that goes through has its one reply written, or, when the peer no
      longer accepts writes, ends ClientMsgWorker with a fatal error. */
  lemma HandledRequestWritesItsReply(t: Tables, u: User, m: Envelope, l: Link)
    requires l.Valid() && Dispatch(t, u, m).Handled? && Dispatch(t, u, m).response.Some?
    ensures var r := Dispatch(t, u, m);
      l.writable > 0 ==>
        StepRequest(t, u, m, l) == Next(r.tables, l.(sent := l.sent + [r.response.value], writable := l.writable - 1))
    ensures l.writable == 0 ==>
      StepRequest(t, u, m, l) == Exit(WorkerExit(true, BrokenPipeText, Dispatch(t, u, m).tables, l))
  {
  }

  /** A note created in a session is the last one its owner's next listing returns, and
      the count in that listing grows by one. */
  lemma NewNoteThenListAll(t: Tables, u: User, n: Note)
    requires Dispatch(t, u, Envelope(NewNoteT, NoteData(n))).Handled?
    ensures var t1 := Dispatch(t, u, Envelope(NewNoteT, NoteData(n))).tables;
      Dispatch(t1, u, Envelope(GetAllMyNotesT, Empty)) ==
        Handled(t1, Some(Envelope(SuccessT, NoteSlice(t.GetNotesNumberByUserId(u.id) + 1,
          t.GetNotesByUser(u.id) + [Note(t.nextNoteId, u.id, n.title, n.dataText)]))))
  {
    StoreFacts.NewNoteThenListAll(t, u, n);
  }

  // ---------------------------------------------------------------------------
  // Isolation: a session touches its own notes only
  // ---------------------------------------------------------------------------

  /** ClientMsgWorker keeps the database valid, never changes the users table, and
      leaves every note of another owner where it was. */
  lemma {:induction false} WorkerIsolation(t: Tables, u: User, l: Link)
    requires t.Valid() && l.Valid()
    ensures Worker(t, u, l).tables.Valid()
    ensures Worker(t, u, l).tables.users == t.users
    ensures OthersUntouched(t, Worker(t, u, l).tables, u.id)
    decreases |l.incoming| - l.pos
  {
    var (m, l1) := l.Read();
    if m.Ok? {
      match StepRequest(t, u, m.value, l1)
      case Exit(w) =>
      case Next(t1, l2) =>
        WorkerIsolation(t1, u, l2);
    }
  }

  /** The request loop of ClientWorker keeps the same three facts. */
  lemma {:induction false} ServeIsolation(t: Tables, u: User, l: Link)
    requires t.Valid() && l.Valid()
    ensures Serve(t, u, l).0.Valid()
    ensures Serve(t, u, l).0.users == t.users
    ensures OthersUntouched(t, Serve(t, u, l).0, u.id)
    decreases |l.incoming| - l.pos
  {
    var w := Worker(t, u, l);
    WorkerIsolation(t, u, l);
    var (err, l1) := w.link.Write(ErrorEnvelope(w.error));
    if !w.fatal && err.None? {
      ServeIsolation(w.tables, u, l1);
    }
  }

  /** A whole session keeps the database valid; a refused handshake changes nothing,
      and after an accepted one the only change to the users table is the handshake's
      own and no note of an owner other than the bound id is touched. */
  lemma RunIsolation(t: Tables, l: Link, salt: Salt)
    requires t.Valid() && l.Valid()
    ensures Run(t, l, salt).0.Valid()
    ensures Handshake(t, l, salt).0.Err? ==> Run(t, l, salt).0 == t
    ensures Handshake(t, l, salt).0.Ok? ==>
      && Run(t, l, salt).0.users == Handshake(t, l, salt).1.users
      && OthersUntouched(t, Run(t, l, salt).0, Handshake(t, l, salt).0.value.id)
  {
    var (v, t1, l1) := Handshake(t, l, salt);
    if v.Ok? {
      var (err, l2) := l1.Write(StatusEnvelope(SuccessT));
      if err.None? {
        ServeIsolation(t1, v.value, l2);
      }
    }
  }

  /** Sessions run one after another keep the database valid. */
  lemma {:induction false} RunSeqValid(t: Tables, ls: seq<Link>, salts: seq<Salt>)
    requires t.Valid() && |ls| == |salts| && forall i :: 0 <= i < |ls| ==> ls[i].Valid()
    ensures RunSeq(t, ls, salts).0.Valid()
    decreases |ls|
  {
    if ls != [] {
      var n := |ls| - 1;
      RunSeqValid(t, ls[..n], salts[..n]);
      RunIsolation(RunSeq(t, ls[..n], salts[..n]).0, ls[n], salts[n]);
    }
  }

  /** How the first `k` connections end does not depend on the sessions after them. */
  lemma {:induction false} RunSeqPrefix(t: Tables, ls: seq<Link>, salts: seq<Salt>, k: nat)
    requires |ls| == |salts| && forall i :: 0 <= i < |ls| ==> ls[i].Valid()
    requires k <= |ls|
    ensures RunSeq(t, ls, salts).1[..k] == RunSeq(t, ls[..k], salts[..k]).1
    decreases |ls|
  {
    if k < |ls| {
      var n := |ls| - 1;
      var before := RunSeq(t, ls[..n], salts[..n]);
      RunSeqPrefix(t, ls[..n], salts[..n], k);
      assert ls[..n][..k] == ls[..k] && salts[..n][..k] == salts[..k];
      assert RunSeq(t, ls, salts).1[..k] == before.1[..k];
    } else {
      assert ls[..k] == ls && salts[..k] == salts;
    }
  }

  /** The `j`-th connection ends as its own session leaves it, run on the database
      that the sessions accepted before it left. */
  lemma RunSeqEach(t: Tables, ls: seq<Link>, salts: seq<Salt>, j: nat)
    requires |ls| == |salts| && forall i :: 0 <= i < |ls| ==> ls[i].Valid()
    requires j < |ls|
    ensures RunSeq(t, ls, salts).1[j] == Run(RunSeq(t, ls[..j], salts[..j]).0, ls[j], salts[j]).1
  {
    var upto, saltsUpto := ls[..j + 1], salts[..j + 1];
    RunSeqPrefix(t, ls, salts, j + 1);
    assert upto[..j] == ls[..j] && saltsUpto[..j] == salts[..j];
    assert RunSeq(t, ls, salts).1[j] == RunSeq(t, upto, saltsUpto).1[j];
  }

  // ---------------------------------------------------------------------------
  // Reply discipline
  // ---------------------------------------------------------------------------

  /** The envelopes sent after the first `from` are all SUCCESS replies. */
  ghost predicate AllSuccess(sent: seq<Envelope>, from: nat)
  {
    forall k :: from <= k < |sent| ==> sent[k].messageTypeStatus == SuccessT
  }

  /** The envelopes sent after the first `from` are all SUCCESS or ERROR. */
  ghost predicate AllReplies(sent: seq<Envelope>, from: nat)
  {
    forall k :: from <= k < |sent| ==> sent[k].messageTypeStatus == SuccessT || sent[k].messageTypeStatus == ErrorT
  }

  /** ClientMsgWorker writes only SUCCESS replies, at most one per request it reads, and
      none for the request that ends it with a domain error. */
  lemma {:induction false} WorkerReplies(t: Tables, u: User, l: Link)
    requires l.Valid()
    ensures AllSuccess(Worker(t, u, l).link.sent, |l.sent|)
    ensures |Worker(t, u, l).link.sent| - |l.sent| <= Worker(t, u, l).link.pos - l.pos - (if Worker(t, u, l).fatal then 0 else 1)
    decreases |l.incoming| - l.pos
  {
    var (m, l1) := l.Read();
    if m.Ok? {
      match StepRequest(t, u, m.value, l1)
      case Exit(w) =>
      case Next(t1, l2) =>
        WorkerReplies(t1, u, l2);
        var w := Worker(t1, u, l2);
        assert AllSuccess(l2.sent, |l.sent|) by {
          if |l2.sent| > |l1.sent| {
            var r := Dispatch(t, u, m.value);
            assert l2.sent == l.sent + [r.response.value];
          }
        }
        assert forall k :: |l.sent| <= k < |w.link.sent| ==>
          (k < |l2.sent| ==> w.link.sent[k] == l2.sent[k]);
    }
  }

  /** After the handshake a session writes only SUCCESS and ERROR envelopes, and no more
      of them than the requests it reads plus the one ERROR that closes it. */
  lemma {:induction false} ServeReplies(t: Tables, u: User, l: Link)
    requires l.Valid()
    ensures AllReplies(Serve(t, u, l).1.sent, |l.sent|)
    ensures |Serve(t, u, l).1.sent| - |l.sent| <= Serve(t, u, l).1.pos - l.pos + 1
    decreases |l.incoming| - l.pos
  {
    var w := Worker(t, u, l);
    WorkerReplies(t, u, l);
    var (err, l1) := w.link.Write(ErrorEnvelope(w.error));
    assert AllReplies(l1.sent, |l.sent|);
    if !w.fatal && err.None? {
      ServeReplies(w.tables, u, l1);
      var r := Serve(w.tables, u, l1);
      assert forall k :: |l.sent| <= k < |r.1.sent| ==> (k < |l1.sent| ==> r.1.sent[k] == l1.sent[k]);
    }
  }

  /** The same holds for a whole session, the handshake's one reply included. */
  lemma RunReplies(t: Tables, l: Link, salt: Salt)
    requires l.Valid()
    ensures AllReplies(Run(t, l, salt).1.sent, |l.sent|)
    ensures |Run(t, l, salt).1.sent| - |l.sent| <= Run(t, l, salt).1.pos - l.pos + 1
  {
    var (v, t1, l1) := Handshake(t, l, salt);
    if v.Ok? {
      var (err, l2) := l1.Write(StatusEnvelope(SuccessT));
      if err.None? {
        ServeReplies(t1, v.value, l2);
        var r := Serve(t1, v.value, l2);
        assert forall k :: |l.sent| <= k < |r.1.sent| ==> (k < |l2.sent| ==> r.1.sent[k] == l2.sent[k]);
      }
    }
  }

  // ---------------------------------------------------------------------------
  // Consequences of binding the client's record at REGISTER
  // ---------------------------------------------------------------------------

  /** A client that registers a fresh name but writes another user's id into its record
      is bound to that id, and reads that user's note in the same session. */
  lemma ForgedRegistrationReadsForeignNote(salt: Salt)
    ensures var t := Tables([User(1, "alice", Hash(salt, "pw"))], [Note(1, 1, "diary", "secret")], 2, 2);
      var l := Link([Frame(Envelope(RegT, UserData(User(1, "mallory", "x")))),
                     Frame(Envelope(GetNoteT, NoteData(Note(1, 0, "", ""))))], 0, [], 3);
      Run(t, l, salt).1.sent
        == [StatusEnvelope(SuccessT), Envelope(SuccessT, NoteData(Note(1, 1, "diary", "secret"))), ErrorEnvelope(EofText)]
  {
    var t := Tables([User(1, "alice", Hash(salt, "pw"))], [Note(1, 1, "diary", "secret")], 2, 2);
    var d := User(1, "mallory", "x");
    var l := Link([Frame(Envelope(RegT, UserData(d))),
                   Frame(Envelope(GetNoteT, NoteData(Note(1, 0, "", ""))))], 0, [], 3);
    var bound := User(1, "mallory", Hash(salt, "x"));
    var t1 := t.(users := t.users + [User(2, "mallory", Hash(salt, "x"))], nextUserId := 3);
    assert FindUser(t.users, "mallory") == None;
    assert t.RegisterUser(d, salt) == (Ok(bound), t1);
    assert l.Read() == (Ok(Envelope(RegT, UserData(d))), l.(pos := 1));
    assert Handshake(t, l, salt) == (Ok(bound), t1, l.(pos := 1));
    var l2 := l.(pos := 1, sent := [StatusEnvelope(SuccessT)], writable := 2);
    assert l.sent + [StatusEnvelope(SuccessT)] == [StatusEnvelope(SuccessT)];
    assert l.(pos := 1).Write(StatusEnvelope(SuccessT)) == (None, l2);
    assert Run(t, l, salt) == Serve(t1, bound, l2);
    assert t1.notes[0].id == 1 && t1.notes[0].userId == 1;
    var reply := Envelope(SuccessT, NoteData(Note(1, 1, "diary", "secret")));
    assert FindNote(t1.notes, 1, 1) == Some(Note(1, 1, "diary", "secret"));
    assert Dispatch(t1, bound, Envelope(GetNoteT, NoteData(Note(1, 0, "", "")))) == Handled(t1, Some(reply));
    var l3 := l2.(pos := 2, sent := [StatusEnvelope(SuccessT), reply], writable := 1);
    assert StepRequest(t1, bound, Envelope(GetNoteT, NoteData(Note(1, 0, "", ""))), l2.(pos := 2)) == Next(t1, l3);
    assert Worker(t1, bound, l3) == WorkerExit(true, EofText, t1, l3);
    assert Worker(t1, bound, l2) == WorkerExit(true, EofText, t1, l3);
    assert Serve(t1, bound, l2).1.sent == l3.sent + [ErrorEnvelope(EofText)];
  }

  /** A client that registers with the zero id it normally sends stores its notes under
      owner 0, not under the id of its new row, so a later AUTH session of the same
      user does not find them. */
  lemma RegisteredNotesStrayFromOwner(salt: Salt)
    ensures var t := EmptyTables;
      var l := Link([Frame(Envelope(RegT, UserData(User(0, "bob", "pw")))),
                     Frame(Envelope(NewNoteT, NoteData(Note(0, 0, "todo", "milk"))))], 0, [], 3);
      && Run(t, l, salt).0.users == [User(1, "bob", Hash(salt, "pw"))]
      && Run(t, l, salt).0.notes == [Note(1, 0, "todo", "milk")]
      && Run(t, l, salt).0.GetNotesByUser(1) == []
  {
    var d := User(0, "bob", "pw");
    var n := Note(0, 0, "todo", "milk");
    var l := Link([Frame(Envelope(RegT, UserData(d))), Frame(Envelope(NewNoteT, NoteData(n)))], 0, [], 3);
    var bound := User(0, "bob", Hash(salt, "pw"));
    var t1 := Tables([User(1, "bob", Hash(salt, "pw"))], [], 2, 1);
    var l2 := l.(pos := 1, sent := [StatusEnvelope(SuccessT)], writable := 2);
    RegisterOpensSession(l, d, bound, t1, l2, salt);
    var t2 := t1.(notes := [Note(1, 0, "todo", "milk")], nextNoteId := 2);
    StoreUnderBoundId(t1, bound, n, l2, t2);
    assert t2.notes[0].userId == 0;
    assert OwnedBy(t2.notes, 1) == [];
  }

  /** The handshake part of RegisteredNotesStrayFromOwner: the first user registers. */
  lemma RegisterOpensSession(l: Link, d: User, bound: User, t1: Tables, l2: Link, salt: Salt)
    requires l.Valid() && l.pos == 0 && |l.incoming| == 2 && l.incoming[0] == Frame(Envelope(RegT, UserData(d)))
    requires l.sent == [] && l.writable == 3
    requires d.userName != "" && d.password != ""
    requires bound == d.(password := Hash(salt, d.password))
    requires t1 == Tables([User(1, d.userName, Hash(salt, d.password))], [], 2, 1)
    requires l2 == l.(pos := 1, sent := [StatusEnvelope(SuccessT)], writable := 2)
    ensures Run(EmptyTables, l, salt) == Serve(t1, bound, l2)
  {
    assert EmptyTables.RegisterUser(d, salt) == (Ok(bound), t1);
    assert Handshake(EmptyTables, l, salt) == (Ok(bound), t1, l.(pos := 1));
    assert l.sent + [StatusEnvelope(SuccessT)] == [StatusEnvelope(SuccessT)];
    assert l.(pos := 1).Write(StatusEnvelope(SuccessT)) == (None, l2);
  }

  /** The request part of RegisteredNotesStrayFromOwner: one NEW_NOTE into an empty
      notes table, then the end of the input. */
  lemma StoreUnderBoundId(t1: Tables, bound: User, n: Note, l2: Link, t2: Tables)
    requires t1.notes == [] && t1.nextNoteId == 1
    requires l2.Valid() && l2.pos == 1 && |l2.incoming| == 2 && l2.incoming[1] == Frame(Envelope(NewNoteT, NoteData(n)))
    requires l2.writable == 2
    requires n.userId == bound.id
    requires t2 == t1.(notes := [Note(1, bound.id, n.title, n.dataText)], nextNoteId := 2)
    ensures Serve(t1, bound, l2).0 == t2
  {
    assert t1.GetNotesByTitle(bound.id, n.title) == [];
    assert t1.notes + [Note(1, bound.id, n.title, n.dataText)] == [Note(1, bound.id, n.title, n.dataText)];
    assert t1.InsertNote(bound, n) == (Ok(n), t2);
    var l3 := l2.(pos := 2, sent := l2.sent + [StatusEnvelope(SuccessT)], writable := 1);
    assert StepRequest(t1, bound, Envelope(NewNoteT, NoteData(n)), l2.(pos := 2)) == Next(t2, l3);
    assert Worker(t2, bound, l3) == WorkerExit(true, EofText, t2, l3);
    assert Worker(t1, bound, l2) == WorkerExit(true, EofText, t2, l3);
  }
}
