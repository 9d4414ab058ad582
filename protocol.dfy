/** The wire protocol of server.go: the message type codes, the envelope
    (`MessageData`) with its already-decoded payload, and the connection a
    session reads envelopes from and writes envelopes to. */
module Protocol {
  import opened NoteStore

  const ErrorT := 0
  const SuccessT := 1
  const AuthT := 2
  const RegT := 3
  const NewNoteT := 4
  const GetNoteT := 5
  const UpdateNoteT := 6
  const DeleteNoteT := 7
  const GetAllMyNotesT := 8
  const GetLikeTitleNotesT := 9
  const LogoutT := 10
  const GetCountAllMyNotes := 11

  /** The `Data` bytes of an envelope, already decoded: nothing at all, one of the
      four records the two sides exchange, or bytes that are not a JSON value. */
  datatype Payload =
    | Empty
    | UserData(user: User)
    | NoteData(note: Note)
    | NoteSlice(count: int, notes: seq<Note>)
    | ErrorData(errorText: string)
    | Malformed(reason: string)

  /** One `MessageData`: a type code and its payload. */
  datatype Envelope = Envelope(messageTypeStatus: int, data: Payload)

  /** What encoding/json reports for empty input. */
  const EndOfInputText := "unexpected end of JSON input"

  /** `json.Unmarshal(msg.Data, &note)` into a fresh Note: a note record is taken whole,
      another record leaves every field the two do not share at its zero value, and
      empty or non-JSON bytes fail. */
  function DecodeNote(p: Payload): (r: Result<Note, string>)
    ensures r.Err? <==> p.Empty? || p.Malformed?
    ensures p.NoteData? ==> r == Ok(p.note)
    ensures p.UserData? ==> r == Ok(Note(p.user.id, 0, "", ""))
  {
    match p
    case Empty => Err(EndOfInputText)
    case Malformed(reason) => Err(reason)
    case NoteData(n) => Ok(n)
    case UserData(u) => Ok(Note(u.id, 0, "", ""))
    case NoteSlice(_, _) => Ok(Note(0, 0, "", ""))
    case ErrorData(_) => Ok(Note(0, 0, "", ""))
  }

  /** `json.Unmarshal(msg_data.Data, &user_data)` into a fresh User, by the same rules. */
  function DecodeUser(p: Payload): (r: Result<User, string>)
    ensures r.Err? <==> p.Empty? || p.Malformed?
    ensures p.UserData? ==> r == Ok(p.user)
    ensures p.NoteData? ==> r == Ok(User(p.note.id, "", ""))
  {
    match p
    case Empty => Err(EndOfInputText)
    case Malformed(reason) => Err(reason)
    case UserData(u) => Ok(u)
    case NoteData(n) => Ok(User(n.id, "", ""))
    case NoteSlice(_, _) => Ok(User(0, "", ""))
    case ErrorData(_) => Ok(User(0, "", ""))
  }

  /** The envelope SendErrorMsg writes. */
  function ErrorEnvelope(errorText: string): (e: Envelope)
    ensures e.messageTypeStatus == ErrorT && e.data.ErrorData? && e.data.errorText == errorText
  {
    Envelope(ErrorT, ErrorData(errorText))
  }

  /** The envelope SendStatus writes: a bare status, no data. */
  function StatusEnvelope(status: int): (e: Envelope)
    ensures e.messageTypeStatus == status && e.data == Empty
  {
    Envelope(status, Empty)
  }

  /** One read from the peer: the bytes of one envelope, or bytes the outer
      `json.Unmarshal` rejects, with the decoder's message. */
  datatype Inbound = Frame(envelope: Envelope) | Garbled(reason: string)

  /** What a read reports once the peer has closed its side. */
  const EofText := "EOF"

  /** What a write reports once the peer no longer accepts data. */
  const BrokenPipeText := "write: broken pipe"

  /** A connection as a value: everything the peer sends, how much of it has been
      read, the envelopes delivered to the peer, and how many more writes the peer
      accepts before writes start to fail. */
  datatype Link = Link(incoming: seq<Inbound>, pos: nat, sent: seq<Envelope>, writable: nat)
  {
    ghost predicate Valid()
    {
      pos <= |incoming|
    }

    /** GetMessageData followed by the outer `json.Unmarshal`: one envelope, or the
        read error (end of input) or the decode error. */
    function Read(): (r: (Result<Envelope, string>, Link))
      requires Valid()
      ensures r.1.Valid() && r.1.incoming == incoming && r.1.sent == sent && r.1.writable == writable
      ensures pos == |incoming| ==> r == (Err(EofText), this)
      ensures pos < |incoming| ==> r.1.pos == pos + 1
      ensures r.0.Ok? <==> pos < |incoming| && incoming[pos].Frame?
      ensures r.0.Ok? ==> r.0.value == incoming[pos].envelope
    {
      if pos == |incoming| then (Err(EofText), this)
      else match incoming[pos]
        case Frame(e) => (Ok(e), this.(pos := pos + 1))
        case Garbled(reason) => (Err(reason), this.(pos := pos + 1))
    }

    /** `connection.Write` of one encoded envelope: delivered while the peer accepts
        writes, an error and no change otherwise. */
    function Write(e: Envelope): (r: (Option<string>, Link))
      ensures r.0.None? <==> writable > 0
      ensures r.0.None? ==> r.1 == this.(sent := sent + [e], writable := writable - 1)
      ensures r.0.Some? ==> r == (Some(BrokenPipeText), this)
    {
      if writable == 0 then (Some(BrokenPipeText), this)
      else (None, this.(sent := sent + [e], writable := writable - 1))
    }
  }

  /** A client as the listener meets it: what it will send, and how many writes it
      accepts before it goes away. */
  datatype Peer = Peer(incoming: seq<Inbound>, writable: nat)

  /** The connections `Accept` returns for the peers, in order: nothing read yet and
      nothing sent. */
  function Connect(peers: seq<Peer>): (r: seq<Link>)
    ensures |r| == |peers|
    ensures forall i :: 0 <= i < |peers| ==>
      r[i] == Link(peers[i].incoming, 0, [], peers[i].writable) && r[i].Valid()
  {
    seq(|peers|, i requires 0 <= i < |peers| => Link(peers[i].incoming, 0, [], peers[i].writable))
  }

  /** The `net.Conn` of one session. */
  class Conn {
    var incoming: seq<Inbound>
    var pos: nat
    var sent: seq<Envelope>
    var writable: nat

    function Value(): Link
      reads this
    {
      Link(incoming, pos, sent, writable)
    }

    ghost predicate Valid()
      reads this
    {
      Value().Valid()
    }

    constructor (incoming: seq<Inbound>, writable: nat)
      ensures Valid() && Value() == Link(incoming, 0, [], writable)
    {
      this.incoming, this.pos, this.sent, this.writable := incoming, 0, [], writable;
    }

    /** Read and decode the next envelope. */
    method ReadMessage() returns (r: Result<Envelope, string>)
      requires Valid()
      modifies this
      ensures Valid()
      ensures (r, Value()) == old(Value()).Read()
    {
      if pos == |incoming| {
        return Err(EofText);
      }
      var frame := incoming[pos];
      pos := pos + 1;
      match frame
      case Frame(e) => r := Ok(e);
      case Garbled(reason) => r := Err(reason);
    }

    /** Encode and write one envelope. */
    method Write(e: Envelope) returns (err: Option<string>)
      modifies this
      ensures (err, Value()) == old(Value()).Write(e)
    {
      if writable == 0 {
        return Some(BrokenPipeText);
      }
      sent := sent + [e];
      writable := writable - 1;
      err := None;
    }
  }
}
