# GoKeeper server core in Dafny

GoKeeper is a small note keeper. A TCP server holds users and their notes in an
SQLite database. After a one-message handshake (AUTH or REGISTER), each client
works on its own notes: create, read, edit, delete, list them all, or search
them by title. This project models the server side and proves what it does.

The model has three parts. Each part follows the structure of the Go code.

- **The note/user store** (`database.go`). Module `NoteStore`:
  - `Tables` is the value of the whole database: the `users` and `notes` tables
    and their two AUTOINCREMENT counters. Its member functions are the read-only
    queries, owner-scoped as in the SQL. They also specify the four operations
    that change the tables.
  - `Store` is the class the server holds. Its methods `CreateUser`,
    `CreateNote`, `EditNoteById` and `DeleteNoteById` change its fields the way
    the transactions do. Each method is proved to leave exactly the state that
    the matching `Tables` function computes.
  - `CreateNote` scans the similar titles in a loop, as the Go code does.
  - `Credentials` stands in for bcrypt. Module `StoreFacts` proves how the
    operations behave when used one after another.
- **The session engine** (`server.go`):
  - Module `Protocol` has the type codes, the envelope with its decoded
    payload, and the connection. `Link` is the connection as a value; `Conn`
    is the object a session reads from and writes to.
  - Module `Session` defines, as functions, what `Validate`, one pass of the
    `switch`, `ClientMsgWorker`, the loop of `ClientWorker`, and a whole
    `ClientWorker` session do.
  - Module `Server` performs the same steps imperatively on a `Store` and a
    `Conn`, with `while` loops where the Go code has `for` loops. Every method
    is proved to compute the matching `Session` function.
  - Module `SessionFacts` proves what sessions promise:
    - only AUTH and REGISTER open a session;
    - the error policy;
    - the meaning of every reply;
    - a session never touches another owner's notes;
    - every envelope sent is SUCCESS or ERROR, and there are no more of them than
      the requests read, plus one;
    - what follows from REGISTER binding the record the client sent.
- **Admission control** (`StartRoutineServer`, `ClientWorker`). Module `Admission`:
  - the capacity check;
  - the buffered channel as a counting semaphore (`Slots`);
  - a trace model of takes and gives that bounds the number of held slots.

The code is modelled as written. Three behaviours in particular:

- **REGISTER binds the client's record.** `Validate` binds the session to the
  record the client sent (server.go:296-300). `CreateUser` never copies the id
  that the table assigns back into that record, so the session's user id is
  whatever the client sent.
  - `SessionFacts.RegisterBindsClientRecord` states this in general.
  - `SessionFacts.ForgedRegistrationReadsForeignNote` shows a client that picks
    another user's id and reads that user's note.
  - `SessionFacts.RegisteredNotesStrayFromOwner` shows a client that sends the
    usual zero id and stores its notes under owner 0.
- **Unknown type codes get no reply.** A code that matches no `case` of
  `ClientMsgWorker` is read and dropped (server.go:60-197). This includes the
  reserved LOGOUT and GET_COUNT. The code sends no reply and reads the next
  request, and the model does the same (`SessionFacts.UnknownCodeIgnored`).
- **A fatal error still attempts an ERROR.** When `ClientMsgWorker` reports a
  fatal error, `ClientWorker` still tries to send one ERROR envelope before it
  ends (server.go:233-240). This covers read and write failures too, so the
  code attempts a reply even on a connection that has already failed. The
  model does the same (`SessionFacts.ServeErrorPolicy`).

The handshake has no retry. Any failure there, including a domain failure such
as a taken name or a wrong password, gets one ERROR envelope and ends the
session.

How inputs that come from outside are modelled:

- **The clients** the listener accepts are a finite sequence of `Peer`s.
- **bcrypt's random salt** is a parameter (`Salt`), one per session.
- **The peer's input** is a sequence of inbound frames. Each frame is either a
  well-formed envelope or garbled bytes with the decoder's message.
- **A failing peer** is modelled by a write budget (`writable`). Once it is used
  up, every write fails with a broken pipe, which makes write failures
  reachable.
- **End of input** gives the read error `EOF`.

## Model

| member | source | states |
|---|---|---|
| Credentials.Hash | database.go:70-74 | the stored form of a password is never the plaintext and verifies that password |
| Credentials.VerifiesExactly | database.go:102-103 | a stored hash verifies exactly the password it was made from and no other attempt |
| NoteStore.StoreError.Text | database.go:62 | the error texts the client sees are never empty, and only the driver's no-rows error (what `db.Get` returns at database.go:88-90 and 177-179) reads "sql: no rows in result set"; each other text comes from database.go:62, 67 or 142 |
| NoteStore.TextInjective | database.go:62-67 | two store errors with the same text are the same error, name or title included |
| NoteStore.FindUser | database.go:88 | `where user_name=$1` finds a row exactly when one has that name, and the row found has it |
| NoteStore.FindNote | database.go:177 | `where id=$1 and user_id=$2` finds a row exactly when one matches both, and the row found is in the table |
| NoteStore.OwnedBy | database.go:166 | the selection holds exactly the rows of that owner |
| NoteStore.TitledLike | database.go:126 | the selection holds exactly the rows of that owner whose title contains the pattern |
| NoteStore.Contains | database.go:119 | `like '%pattern%'` in the model: a match when the pattern is a prefix, and only when the pattern is no longer than the title |
| NoteStore.ContainsIsSubstring | database.go:119 | a title matches exactly when the pattern occurs in it at some offset |
| NoteStore.CountOwned | database.go:159 | `count(*) ... where user_id=?` never exceeds the number of rows |
| NoteStore.CountTitledLike | database.go:119 | the count of matching titles never exceeds the count of that owner's rows |
| NoteStore.Retitle | database.go:195 | `update notes set title, data_text where id` keeps every row's id and owner and its place, leaves rows with another id as they were, and gives the row with that id the new title and text |
| NoteStore.DropId | database.go:210 | `delete from notes where id` never adds rows, and no row with that id is left |
| NoteStore.CountOwnedIsLength | database.go:159-166 | the `count(*)` query and the list query select the same rows, so the count is the list's length |
| NoteStore.CountTitledLikeIsLength | database.go:119-126 | the same for the title search: the count equals the number of notes listed |
| NoteStore.DropIdMembers | database.go:210 | `delete ... where id=:id` leaves exactly the rows with another id |
| NoteStore.DropIdKeepsOrder | database.go:210 | a delete keeps the ids in increasing order |
| NoteStore.DropIdAt | database.go:210 | when row k's id is unique, deleting by it removes row k alone and keeps the order of the rest |
| NoteStore.TitleTaken | database.go:135-144 | the title search followed by the exact-match scan finds a note exactly when the owner holds a note with that exact title |
| NoteStore.AppendNoteKeepsValid | database.go:148 | inserting a row with the next id keeps ids unique, increasing and below the counter |
| NoteStore.Tables.ValidKeys | database.go:16-27 | under the table invariant each table's id is a key (PRIMARY KEY), and so is a user's name (kept by the check at database.go:65-68) |
| NoteStore.Tables.GetUser | database.go:85-94 | the user with that name when one is registered, otherwise the no-rows error |
| NoteStore.Tables.CheckUserPassword | database.go:96-104 | an error when the name is not registered; otherwise true exactly when that user's hash verifies the attempt |
| NoteStore.Tables.GetNotesByUser | database.go:156-172 | exactly the notes owned by the session user |
| NoteStore.Tables.GetNotesNumberByUserId | database.go:106-114 | the count is the length of the owner's note list |
| NoteStore.Tables.GetNotesByTitle | database.go:116-132 | exactly the owner's notes whose title contains the searched title |
| NoteStore.Tables.GetNotesNumberByTitle | server.go:173-176 | the count used by the title search is the length of the same selection |
| NoteStore.Tables.GetNoteById | database.go:174-183 | a note only when both id and owner match; with unique ids it is the one row with that id; otherwise the no-rows error |
| NoteStore.Tables.RegisterUser | database.go:60-83 | empty name or password fails with "password is null" and a taken name with the duplicate-name error, both changing nothing; otherwise one row with the next id and the hashed password is appended, the user counter advances by one, the caller's record gets the hash in place of the plaintext, and the tables stay valid |
| NoteStore.Tables.InsertNote | database.go:134-154 | fails, changing nothing, exactly when the owner already has a note with exactly that title; otherwise appends one note with the next id and the session user as owner, whatever owner the client sent |
| NoteStore.Tables.UpdateNote | database.go:185-201 | fails with no change exactly when the owner has no note with that id; otherwise only the title and text of that note change, id and owner stay, and titles are not re-checked |
| NoteStore.Tables.RemoveNote | database.go:203-216 | fails with no change exactly when the owner has no note with that id; otherwise removes exactly that one row and keeps the order of the rest |
| NoteStore.HasExactTitle | database.go:140-144 | the loop finds a note whose title is exactly the new one, if there is one |
| NoteStore.Store.constructor | database.go:16-27 | a fresh database has empty tables with both counters at 1 |
| NoteStore.Store.CreateUser | database.go:60-83 | the result and the new tables are exactly those of `Tables.RegisterUser` |
| NoteStore.Store.CreateNote | database.go:134-154 | the result and the new tables are exactly those of `Tables.InsertNote` |
| NoteStore.Store.EditNoteById | database.go:185-201 | the error and the new tables are exactly those of `Tables.UpdateNote` |
| NoteStore.Store.DeleteNoteById | database.go:203-216 | the error and the new tables are exactly those of `Tables.RemoveNote` |
| StoreFacts.RegisterThenAuthenticate | database.go:60-104 | after a registration the name resolves to the new row with the table's id; its check accepts the chosen password and nothing else; a second registration of the name fails |
| StoreFacts.NewNoteThenListAll | database.go:134-172 | a created note is last in its owner's list and the owner's count grows by one; every other owner's list stays the same |
| StoreFacts.DuplicateTitleScopedToOwner | database.go:134-154 | after creating a title, the same owner cannot create it again, and whether another owner can is unchanged |
| StoreFacts.ForeignNoteIsMissing | database.go:174-216 | reading, editing or deleting another owner's note fails with the no-rows error and changes nothing, as for a missing id |
| StoreFacts.UpdateThenGet | database.go:174-201 | after an edit, reading the note returns the fetched row with the new title and text |
| StoreFacts.DeleteThenGetFails | database.go:174-216 | after a delete no owner can read a note with that id |
| StoreFacts.EditAllowsDuplicateTitle | database.go:185-201 | an edit can give a note the title of another note of the same owner, while creating a note with that title fails |
| Protocol.DecodeNote | server.go:62-64 | decoding a payload into a fresh note fails exactly for empty or non-JSON bytes; a note payload decodes to itself |
| Protocol.DecodeUser | server.go:272-274 | decoding a payload into a fresh user fails exactly for empty or non-JSON bytes; a user payload decodes to itself |
| Protocol.ErrorEnvelope | server.go:306-322 | SendErrorMsg's envelope has type ERROR and carries the error text |
| Protocol.StatusEnvelope | server.go:324-334 | SendStatus's envelope has the given type code and no data |
| Protocol.Link.Read | server.go:364-372 | reading past the end gives `EOF` and consumes nothing; otherwise exactly one frame is consumed, and it yields an envelope exactly when it is well formed |
| Protocol.Link.Write | server.go:319-321 | a write delivers exactly one envelope while the peer accepts writes; otherwise it fails with nothing sent |
| Protocol.Connect | server.go:350 | `Accept` gives one connection per peer, in order, with nothing read and nothing sent |
| Protocol.Conn.constructor | server.go:350 | an accepted connection starts with nothing read and nothing sent |
| Protocol.Conn.ReadMessage | server.go:51-58 | the result and the new connection are those of `Link.Read` |
| Protocol.Conn.Write | server.go:97-100 | the result and the new connection are those of `Link.Write` |
| Session.Handshake | server.go:257-304 | reads at most one frame (none at end of input); a failed handshake leaves the database unchanged; no handshake touches the notes; validity is kept |
| Session.Dispatch | server.go:60-197 | no reply exactly for codes outside 4..9, and then nothing changes; every reply is SUCCESS; fatal exactly when a note payload fails to decode; domain errors only for 4..7; users never change; other owners' notes never change |
| Session.UpdateKeepsOthers | database.go:185-201 | an edit leaves every note of another owner in place |
| Session.RemoveKeepsOthers | database.go:203-216 | a delete leaves every note of another owner in place |
| Session.StepRequest | server.go:60-197 | one request neither reads further nor loses anything already sent |
| Session.Worker | server.go:46-200 | ClientMsgWorker either fails fatally or consumes at least one frame, and only appends to what was sent |
| Session.Serve | server.go:231-249 | the request loop only appends to what was sent and keeps the connection valid |
| Session.Run | server.go:202-255 | a whole session only appends to what was sent and keeps the connection valid |
| Session.RunSeq | server.go:349-357 | the sessions of the accepted connections, run in accept order, end one connection each, reading only what that peer sent |
| Server.SendErrorMsg | server.go:306-322 | writes exactly the ERROR envelope with that text |
| Server.SendStatus | server.go:324-334 | writes exactly the bare status envelope |
| Server.Validate | server.go:257-304 | the bound user or error, the new tables and the new connection are exactly those of `Session.Handshake` |
| Server.HandleRequest | server.go:60-197 | one pass of the switch has exactly the outcome of `Session.StepRequest` |
| Server.HandleNewNote | server.go:61-73 | the NEW_NOTE case has exactly the outcome of `Session.StepRequest` |
| Server.HandleUpdateNote | server.go:103-115 | the UPDATE_NOTE case has exactly the outcome of `Session.StepRequest` |
| Server.HandleDeleteNote | server.go:116-128 | the DELETE_NOTE case has exactly the outcome of `Session.StepRequest` |
| Server.HandleQuery | server.go:74-196 | the GET_NOTE, GET_ALL_MY_NOTES and GET_LIKE_TITLE_NOTES cases have exactly the outcome of `Session.StepRequest`, and the database is not modified |
| Server.ClientMsgWorker | server.go:46-200 | the returned `(status, err)` and the new state are exactly those of `Session.Worker` |
| Server.ServeLoop | server.go:231-249 | the new state after the loop is exactly that of `Session.Serve` |
| Server.ClientWorker | server.go:202-255 | the new state is exactly that of `Session.Run`, and the session's slot is released exactly once on every path |
| Server.Admit | server.go:356-357 | one turn of the accept loop takes a slot, runs the next connection's session and gives the slot back, extending the run of sessions so far by exactly that session |
| Server.StartRoutineServer | server.go:336-362 | the result is exactly the capacity check's: outside 1..8 it is "max 8 / min 1" and the database is untouched; otherwise the database and the way each connection ends are exactly those of `Session.RunSeq` over the accepted peers, and the database stays valid |
| SessionFacts.HandshakeOnlyAuthOrRegister | server.go:270-303 | a first envelope of any other type fails with "message type is not 2 or 3"; the session sends one ERROR and reads nothing more |
| SessionFacts.AuthBindsStoredUser | server.go:271-290 | AUTH succeeds exactly when a stored user of that name has a hash that verifies the password, and binds that stored row, id included; an unknown name gives the no-rows error, a mismatch "wrong password", and the database does not change |
| SessionFacts.RegisterBindsClientRecord | server.go:291-300 | REGISTER with a fresh name inserts a row with the table's next id but binds the client's record with the client's id |
| SessionFacts.SuccessfulHandshake | server.go:216-231 | after a successful handshake exactly one bare SUCCESS is written before the request loop starts |
| SessionFacts.ServeErrorPolicy | server.go:231-249 | a domain error sends one ERROR and the loop reads on; a fatal error, or an ERROR that cannot be written, ends the session after that one attempt |
| SessionFacts.UnknownCodeIgnored | server.go:60-197 | a request with a code outside 4..9 gets no reply, changes nothing, and the worker reads the next frame |
| SessionFacts.ReadFailureIsFatal | server.go:51-58 | end of input or garbled bytes end ClientMsgWorker with a fatal error, nothing written and nothing changed |
| SessionFacts.DispatchReplies | server.go:60-197 | NEW_NOTE, UPDATE_NOTE and DELETE_NOTE answer a bare SUCCESS; GET_NOTE answers the owner's note with the requested id; both listings answer a count equal to the length of exactly the owner's (matching) notes; each domain error has the store's message |
| SessionFacts.HandledRequestWritesItsReply | server.go:71-196 | a request that went through writes exactly its one reply, or ends fatally when the peer accepts no more writes |
| SessionFacts.NewNoteThenListAll | server.go:61-160 | after NEW_NOTE, GET_ALL_MY_NOTES lists the old notes plus the new one last, with the count one higher |
| SessionFacts.WorkerIsolation | server.go:46-200 | ClientMsgWorker keeps the database valid, never changes the users, and leaves other owners' notes in place |
| SessionFacts.ServeIsolation | server.go:231-249 | the request loop keeps the same three facts |
| SessionFacts.RunIsolation | server.go:202-255 | a refused handshake changes nothing; after an accepted one, only the handshake changes the users, and no note of another owner than the bound id is touched |
| SessionFacts.RunSeqValid | server.go:349-357 | sessions run one after another keep the database valid |
| SessionFacts.RunSeqPrefix | server.go:349-357 | how the first k connections end does not depend on the sessions accepted after them |
| SessionFacts.RunSeqEach | server.go:349-357 | each connection ends exactly as its own session leaves it, run on the database the earlier sessions left |
| SessionFacts.WorkerReplies | server.go:46-200 | ClientMsgWorker writes only SUCCESS, at most one per frame read, and none for the request that ends it with a domain error |
| SessionFacts.ServeReplies | server.go:231-249 | the request loop writes only SUCCESS and ERROR, at most one more than the frames it reads |
| SessionFacts.RunReplies | server.go:202-255 | a whole session writes only SUCCESS and ERROR, at most one more than the frames it reads |
| SessionFacts.ForgedRegistrationReadsForeignNote | server.go:291-300 | a client that registers with another user's id reads that user's note in the same session |
| SessionFacts.RegisteredNotesStrayFromOwner | server.go:291-300 | a client that registers with id 0 stores its note under owner 0, where its own row's id (1) does not find it |
| Admission.CheckCapacity | server.go:336-339 | the capacity check fails exactly outside 1..8, with "max 8 / min 1" |
| Admission.Slots.constructor | server.go:341 | the channel starts empty with the checked capacity |
| Admission.Slots.Acquire | server.go:356 | a send takes one slot and keeps the count within the capacity |
| Admission.Slots.Release | server.go:254 | a receive gives one slot back |
| Admission.Held | server.go:341 | the slots held after a history of sends and receives are never more than the number of events, in either direction |
| Admission.HeldCounts | server.go:341 | whatever their order, the slots held are the sends (server.go:356) minus the receives (server.go:254) |
| Admission.Admissible | server.go:356 | in a history the channel allows, the slots held lie between 0 and the capacity |
| Admission.AdmissionBound | server.go:341-357 | along every history the channel allows, the held slots stay between 0 and the capacity |
| Admission.CapacitySessionsAdmitted | server.go:341-357 | exactly `cap` sessions can be admitted back to back; one more waits until a session ends |

## Left out

- TCP, goroutines and concurrency. The listener is a finite sequence of peers
  (`Peer`), and `Accept` makes a fresh connection for the next one. The `go`
  statement is not modelled: `StartRoutineServer` runs the accepted sessions
  one after another, which is one of the interleavings the real server allows,
  and it returns once the peers run out, where the real loop never ends.
  The store methods are atomic, and concurrent sessions are covered only by the
  slot trace in `Admission`. In Go, `CreateUser` checks the name
  (database.go:65) and inserts (database.go:76-82) in separate statements, and
  `CreateNote` does the same for titles (database.go:135, 147-153). So two
  concurrent REGISTERs of one name, or two NEW_NOTEs of one title, can both
  succeed. The model cannot show this: it always keeps names unique and
  rejects the second title.
- Server.StartRoutineServer: it does not state that the loop runs forever or
  that sessions overlap, because the model has neither an endless listener nor
  goroutines.
- Blocking on the channel. A full channel blocks the accept loop; the model
  turns this into the precondition of `Slots.Acquire`.
- The failure of `net.Listen` and errors from `Accept` (server.go:342-354).
  These are network I/O.
- The framing of `GetMessageData`: one 8192-byte read per message
  (server.go:364-372). Each inbound frame is taken to be exactly one envelope.
- `encoding/json`. Envelopes and payloads are already-decoded values, and bytes
  that do not decode are a separate `Garbled` frame.
  - Marshalling cannot fail in the model, so the marshal error branches are not
    modelled.
  - The model decodes into fresh buffers. The Go code reuses the `msg` and
    `note` buffers across requests, so a payload that omits a field would keep
    the older value; that is not modelled.
  - The JSON literal `null` is not modelled, in either of the two places it
    reaches. As envelope bytes in `ClientMsgWorker` (server.go:47, 56) it sets
    `msg` to nil, and the `switch` dereferences it (server.go:60). As a note
    payload (server.go:48, 62) it sets `note` to nil, and every case then
    dereferences it (database.go:135 via server.go:66; server.go:79, 108, 121,
    168). Either one is a nil-dereference panic in a goroutine that nothing
    recovers, so the whole server process exits, taking every other session
    with it, and `<-ch` (server.go:254) never runs. Any client can cause this
    with one message after REGISTER. The model has no notion of a process
    crash, so it cannot express this.
- Credentials.Hash: it does not model bcrypt's one-wayness or its error path
  (database.go:71-73). The hash keeps the password readable after a fixed tag
  and the salt; only the relation `Verifies` matters to the server.
- Credentials.VerifiesExactly: bcrypt reads only the first 72 bytes of a
  password, and `CompareHashAndPassword` (database.go:102) does not check the
  length. In Go, after REGISTER with a 72-byte password P, AUTH with P + "z"
  succeeds. In the model every byte counts, so that AUTH answers "wrong
  password". The truncation is not modelled.
- SQL and sqlx. These are left out:
  - `CreateConn` and the schema bootstrap (database.go:42-58);
  - errors from queries, `NamedExec` and `Commit`;
  - the `Scan` of the count in `GetNotesByTitle` and `GetNotesByUser`, which
    only sizes a buffer.
  Every store operation is one atomic update of the in-memory tables.
- NoteStore.Contains: SQLite's `LIKE` is case-insensitive for ASCII and treats
  `%` and `_` in the title as wildcards. The model uses case-sensitive
  substring containment.
- NoteStore.Tables.GetNotesNumberByTitle: `server.go` calls
  `GetNotesNumberByUser` and `GetNotesNumberByTitle`, which database.go does
  not define. Both are modelled as counts over the same selection as the list
  they accompany.
- Logging (`log.Printf`) and closing the connection. They have no effect on the
  outcome.
- client.go, main.go and config.go are not part of this model. They are the
  command-line client, its menu, and the configuration file reader.
