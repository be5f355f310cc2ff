// The two parties of the token authentication: records, session states and what one byte changes.
module Authentication {
  import opened Bytes
  import opened Wrappers
  import opened Base64Url
  import opened JsonFraming

  /** The cryptography behind the tokens; a verifier knows its challenge by the bytes it sent. */
  datatype Tokens = Tokens(
    serverId: string,
    clientId: string,
    respond: seq<Byte> -> Option<seq<Byte>>,
    verify: (seq<Byte>, seq<Byte>) -> bool)

  const MAX_CHALLENGE: nat := 102
  const MAX_RESPONSE: nat := 497

  // ---------------------------------------------------------------------------------------------
  // Records

  function TextField(record: Json, name: string): Option<string> {
    if record.Object? && name in record.fields && record.fields[name].Text? then Some(record.fields[name].text) else None
  }

  function FlagField(record: Json, name: string): Option<bool> {
    if record.Object? && name in record.fields && record.fields[name].Flag? then Some(record.fields[name].flag) else None
  }

  function DataField(record: Json, maximum: nat): Option<seq<Byte>> {
    match TextField(record, "data")
    case None => None
    case Some(text) =>
      match Unbase64(text, maximum)
      case Failure(_) => None
      case Success(data) => Some(data)
  }

  function HelloRecord(id: string): Json {
    Object(map["type" := Text("hello"), "id" := Text(id)])
  }

  function ChallengeRecord(challenge: seq<Byte>): Json {
    Object(map["type" := Text("challenge"), "data" := Text(Base64(challenge))])
  }

  function ResponseRecord(response: seq<Byte>): Json {
    Object(map["type" := Text("response"), "data" := Text(Base64(response))])
  }

  function ResultRecord(accepted: bool): Json {
    Object(map["type" := Text("result"), "accepted" := Flag(accepted)])
  }

  lemma KeysDiffer()
    ensures "type" != "data" && "type" != "id" && "type" != "accepted"
  {
    assert "type"[0] == 't' && "data"[0] == 'd';
  }

  lemma HelloFields(id: string)
    ensures TextField(HelloRecord(id), "type") == Some("hello") && TextField(HelloRecord(id), "id") == Some(id)
  {
    KeysDiffer();
  }

  lemma ResultFields(accepted: bool)
    ensures TextField(ResultRecord(accepted), "type") == Some("result") && FlagField(ResultRecord(accepted), "accepted") == Some(accepted)
  {
    KeysDiffer();
  }

  /** The data of a record reads back as what was sent, if it is not too long. */
  lemma DataFields(data: seq<Byte>, maximum: nat)
    ensures TextField(ChallengeRecord(data), "type") == Some("challenge") && TextField(ResponseRecord(data), "type") == Some("response")
    ensures |data| <= maximum ==> DataField(ChallengeRecord(data), maximum) == Some(data) == DataField(ResponseRecord(data), maximum)
    ensures DataField(ChallengeRecord(data), maximum).Some? ==> DataField(ChallengeRecord(data), maximum) == Some(data)
    ensures DataField(ResponseRecord(data), maximum).Some? ==> DataField(ResponseRecord(data), maximum) == Some(data)
  {
    hide Unbase64, Base64;
    KeysDiffer();
    UnbaseIsInverse(Base64(data), maximum, data);
    if Unbase64(Base64(data), maximum).Success? {
      var other := Unbase64(Base64(data), maximum).value;
      UnbaseIsInverse(Base64(data), maximum, other);
      SameText(data, other);
    }
  }

  /** The data of a record is within the limit it was read with. */
  lemma DataLimit(record: Json, maximum: nat)
    ensures DataField(record, maximum).Some? ==> |DataField(record, maximum).value| <= maximum
  {
    hide Unbase64, Base64;
    match TextField(record, "data")
    case None =>
    case Some(text) =>
      match Unbase64(text, maximum)
      case Failure(_) =>
      case Success(data) => UnbaseIsInverse(text, maximum, data);
  }

  lemma SameText(a: seq<Byte>, b: seq<Byte>)
    requires Base64(a) == Base64(b)
    ensures a == b
  {
    hide Base64, Unbase64;
    var n := |a| + |b|;
    UnbaseIsInverse(Base64(a), n, a);
    UnbaseIsInverse(Base64(a), n, b);
  }

  // ---------------------------------------------------------------------------------------------
  // Server

  datatype Link = Open | Closing | Aborted

  datatype ServerPhase = AwaitHello | AwaitProof | ServerDone

  datatype Attempt = Attempt(challenge: seq<Byte>, response: seq<Byte>, accepted: bool)

  /** A session, with what it has received, sent and verified so far. */
  datatype Server = Server(
    phase: ServerPhase, pending: Option<seq<Byte>>, link: Link, framing: Framing, sent: seq<Json>, verified: seq<Attempt>)

  const NEW_SERVER := Server(AwaitHello, None, Open, START, [], [])

  /** One record; a new challenge and whether the connection takes the answer are up to the environment. */
  function ServerRecord(tokens: Tokens, s: Server, record: Json, nonce: seq<Byte>, queued: bool): (r: (Server, bool)) {
    if s.phase == AwaitHello then
      if TextField(record, "type") != Some("hello") || TextField(record, "id") != Some(tokens.serverId) then (s, false)
      else if !queued then (s.(pending := Some(nonce)), false)
      else (s.(pending := Some(nonce), sent := s.sent + [ChallengeRecord(nonce)], phase := AwaitProof), true)
    else if s.phase != AwaitProof || TextField(record, "type") != Some("response") then (s, false)
    else
      match DataField(record, MAX_RESPONSE)
      case None => (s, false)
      case Some(response) =>
        if s.pending.None? then (s, false)
        else
          var accepted := tokens.verify(s.pending.value, response);
          var done := s.(pending := None, phase := ServerDone, verified := s.verified + [Attempt(s.pending.value, response, accepted)]);
          if !queued then (done, false)
          else (done.(sent := s.sent + [ResultRecord(accepted)], link := Closing), true)
  }

  /** One byte; an error of any kind aborts the connection, and later bytes are not looked at. */
  function ServerByte(codec: Codec, tokens: Tokens, s: Server, byte: Byte, nonce: seq<Byte>, queued: bool): Server {
    if s.link == Aborted then s
    else
      var t := s.(framing := FeedByte(codec, s.framing, byte));
      match Take(codec, s.framing.buffer, byte)
      case Bad(_, _) => t.(link := Aborted)
      case More(_) => t
      case Line(record) =>
        var (u, ok) := ServerRecord(tokens, t, record, nonce, queued);
        if ok then u else u.(link := Aborted)
  }

  // ---------------------------------------------------------------------------------------------
  // Client

  datatype ClientPhase = AwaitChallenge | AwaitResult | ClientDone

  datatype Client = Client(
    connected: bool, phase: ClientPhase, receivedResult: bool, accepted: bool, link: Link, framing: Framing,
    sent: seq<Json>, answered: Option<(seq<Byte>, seq<Byte>)>)

  const NEW_CLIENT := Client(false, AwaitChallenge, false, false, Open, START, [], None)

  function ClientHello(tokens: Tokens, c: Client, queued: bool): Client {
    if queued then c.(connected := true, sent := c.sent + [HelloRecord(tokens.clientId)])
    else c.(connected := true, link := Aborted)
  }

  function ClientRecord(tokens: Tokens, c: Client, record: Json, queued: bool): (r: (Client, bool)) {
    if c.phase == AwaitChallenge then
      if TextField(record, "type") != Some("challenge") then (c, false)
      else
        match DataField(record, MAX_CHALLENGE)
        case None => (c, false)
        case Some(challenge) =>
          match tokens.respond(challenge)
          case None => (c, false)
          case Some(response) =>
            if !queued then (c, false)
            else (c.(sent := c.sent + [ResponseRecord(response)], answered := Some((challenge, response)), phase := AwaitResult), true)
    else if c.phase != AwaitResult || TextField(record, "type") != Some("result") then (c, false)
    else
      match FlagField(record, "accepted")
      case None => (c, false)
      case Some(accepted) => (c.(accepted := accepted, receivedResult := true, phase := ClientDone, link := Closing), true)
  }

  function ClientByte(codec: Codec, tokens: Tokens, c: Client, byte: Byte, queued: bool): Client {
    if c.link == Aborted then c
    else
      var t := c.(framing := FeedByte(codec, c.framing, byte));
      match Take(codec, c.framing.buffer, byte)
      case Bad(_, _) => t.(link := Aborted)
      case More(_) => t
      case Line(record) =>
        var (u, ok) := ClientRecord(tokens, t, record, queued);
        if ok then u else u.(link := Aborted)
  }

  lemma ServerByteIs(codec: Codec, tokens: Tokens, s: Server, byte: Byte, nonce: seq<Byte>, queued: bool)
    requires s.link != Aborted
    ensures var t := s.(framing := FeedByte(codec, s.framing, byte));
      ServerByte(codec, tokens, s, byte, nonce, queued) ==
      match Take(codec, s.framing.buffer, byte)
      case Bad(_, _) => t.(link := Aborted)
      case More(_) => t
      case Line(record) =>
        if ServerRecord(tokens, t, record, nonce, queued).1 then ServerRecord(tokens, t, record, nonce, queued).0
        else ServerRecord(tokens, t, record, nonce, queued).0.(link := Aborted)
  {
    hide FeedByte, ServerRecord, Take;
  }

  lemma ClientByteIs(codec: Codec, tokens: Tokens, c: Client, byte: Byte, queued: bool)
    requires c.link != Aborted
    ensures var t := c.(framing := FeedByte(codec, c.framing, byte));
      ClientByte(codec, tokens, c, byte, queued) ==
      match Take(codec, c.framing.buffer, byte)
      case Bad(_, _) => t.(link := Aborted)
      case More(_) => t
      case Line(record) =>
        if ClientRecord(tokens, t, record, queued).1 then ClientRecord(tokens, t, record, queued).0
        else ClientRecord(tokens, t, record, queued).0.(link := Aborted)
  {
    hide FeedByte, ClientRecord, Take;
  }
}
