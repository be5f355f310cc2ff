// The session objects of server and client; each call changes the state as the functions say.
module AuthenticationSessions {
  import opened Bytes
  import opened Wrappers
  import opened Base64Url
  import opened JsonFraming
  import opened Authentication

  /** The bytes of one chunk in turn; the environment's part is given for every byte. */
  function ServerData(codec: Codec, tokens: Tokens, s: Server, data: seq<Byte>, nonces: seq<seq<Byte>>, queued: seq<bool>): Server
    requires |nonces| == |queued| == |data|
    decreases |data|
  {
    if data == [] then s
    else ServerData(codec, tokens, ServerByte(codec, tokens, s, data[0], nonces[0], queued[0]), data[1..], nonces[1..], queued[1..])
  }

  function ClientData(codec: Codec, tokens: Tokens, c: Client, data: seq<Byte>, queued: seq<bool>): Client
    requires |queued| == |data|
    decreases |data|
  {
    if data == [] then c
    else ClientData(codec, tokens, ClientByte(codec, tokens, c, data[0], queued[0]), data[1..], queued[1..])
  }

  lemma {:induction false} AbortedServer(codec: Codec, tokens: Tokens, s: Server, data: seq<Byte>, nonces: seq<seq<Byte>>, queued: seq<bool>)
    requires |nonces| == |queued| == |data| && s.link == Aborted
    ensures ServerData(codec, tokens, s, data, nonces, queued) == s
    decreases |data|
  {
    if data != [] {
      AbortedServer(codec, tokens, s, data[1..], nonces[1..], queued[1..]);
    }
  }

  lemma {:induction false} AbortedClient(codec: Codec, tokens: Tokens, c: Client, data: seq<Byte>, queued: seq<bool>)
    requires |queued| == |data| && c.link == Aborted
    ensures ClientData(codec, tokens, c, data, queued) == c
    decreases |data|
  {
    if data != [] {
      AbortedClient(codec, tokens, c, data[1..], queued[1..]);
    }
  }

  class ServerSession {
    const tokens: Tokens
    const lines: JsonLine
    var phase: ServerPhase
    var pending: Option<seq<Byte>>
    var link: Link
    ghost var received: Framing
    ghost var sent: seq<Json>
    ghost var verified: seq<Attempt>

    constructor (codec: Codec, tokens: Tokens)
      ensures fresh(lines) && lines.codec == codec && this.tokens == tokens
      ensures Now() == NEW_SERVER
    {
      this.tokens := tokens;
      lines := new JsonLine(codec);
      phase, pending, link := AwaitHello, None, Open;
      received, sent, verified := START, [], [];
    }

    /** The abstract state; the buffer of the framing is that of the line reader. */
    ghost function Now(): Server
      reads this, lines
    {
      Server(phase, pending, link, received.(buffer := lines.buffer), sent, verified)
    }

    method OnRecord(record: Json, nonce: seq<Byte>, queued: bool) returns (ok: bool)
      modifies `phase, `pending, `link, `sent, `verified
      ensures (Now(), ok) == ServerRecord(tokens, old(Now()), record, nonce, queued)
    {
      hide Unbase64, Base64;
      if phase == AwaitHello {
        if TextField(record, "type") != Some("hello") || TextField(record, "id") != Some(tokens.serverId) {
          return false;
        }
        pending := Some(nonce);
        if !queued {
          return false;
        }
        sent := sent + [ChallengeRecord(nonce)];
        phase := AwaitProof;
        return true;
      }
      if phase != AwaitProof || TextField(record, "type") != Some("response") {
        return false;
      }
      var response := DataField(record, MAX_RESPONSE);
      if response.None? || pending.None? {
        return false;
      }
      var accepted := tokens.verify(pending.value, response.value);
      verified := verified + [Attempt(pending.value, response.value, accepted)];
      pending := None;
      phase := ServerDone;
      if !queued {
        return false;
      }
      sent := sent + [ResultRecord(accepted)];
      link := Closing;
      return true;
    }

    /** An exception of the line reader or of a record aborts the connection. */
    method OnByte(byte: Byte, nonce: seq<Byte>, queued: bool)
      requires link != Aborted && received.error.None?
      modifies this, lines
      ensures Now() == ServerByte(lines.codec, tokens, old(Now()), byte, nonce, queued)
      ensures link == Aborted || received.error.None?
    {
      hide ServerByte, ServerRecord, Take, FeedByte;
      ghost var s := Now();
      ServerByteIs(lines.codec, tokens, s, byte, nonce, queued);
      var taken := lines.Accept(byte);
      received := FeedByte(lines.codec, s.framing, byte);
      Accepted(lines.codec, s.framing, byte, taken);
      match taken {
        case Bad(_, _) =>
          link := Aborted;
        case More(_) =>
        case Line(record) =>
          var ok := OnRecord(record, nonce, queued);
          if !ok {
            link := Aborted;
          }
      }
    }

    /** After an abort the rest of the chunk is dropped. */
    method OnData(data: seq<Byte>, nonces: seq<seq<Byte>>, queued: seq<bool>)
      requires |nonces| == |queued| == |data| && link != Aborted && received.error.None?
      modifies this, lines
      ensures Now() == ServerData(lines.codec, tokens, old(Now()), data, nonces, queued)
    {
      hide ServerByte;
      for i := 0 to |data|
        invariant link != Aborted && received.error.None?
        invariant ServerData(lines.codec, tokens, Now(), data[i..], nonces[i..], queued[i..])
               == ServerData(lines.codec, tokens, old(Now()), data, nonces, queued)
      {
        assert data[i..][1..] == data[i + 1..] && nonces[i..][1..] == nonces[i + 1..] && queued[i..][1..] == queued[i + 1..];
        OnByte(data[i], nonces[i], queued[i]);
        if link == Aborted {
          AbortedServer(lines.codec, tokens, Now(), data[i + 1..], nonces[i + 1..], queued[i + 1..]);
          return;
        }
      }
    }
  }

  class ClientSession {
    const tokens: Tokens
    const lines: JsonLine
    var connected: bool
    var phase: ClientPhase
    var receivedResult: bool
    var accepted: bool
    var link: Link
    ghost var received: Framing
    ghost var sent: seq<Json>
    ghost var answered: Option<(seq<Byte>, seq<Byte>)>

    constructor (codec: Codec, tokens: Tokens)
      ensures fresh(lines) && lines.codec == codec && this.tokens == tokens
      ensures Now() == NEW_CLIENT
    {
      this.tokens := tokens;
      lines := new JsonLine(codec);
      connected, phase, receivedResult, accepted, link := false, AwaitChallenge, false, false, Open;
      received, sent, answered := START, [], None;
    }

    ghost function Now(): Client
      reads this, lines
    {
      Client(connected, phase, receivedResult, accepted, link, received.(buffer := lines.buffer), sent, answered)
    }

    method SendHello(queued: bool)
      modifies `connected, `sent, `link
      ensures Now() == ClientHello(tokens, old(Now()), queued)
    {
      connected := true;
      if queued {
        sent := sent + [HelloRecord(tokens.clientId)];
      } else {
        link := Aborted;
      }
    }

    method OnRecord(record: Json, queued: bool) returns (ok: bool)
      modifies `phase, `receivedResult, `accepted, `link, `sent, `answered
      ensures (Now(), ok) == ClientRecord(tokens, old(Now()), record, queued)
    {
      hide Unbase64, Base64;
      if phase == AwaitChallenge {
        if TextField(record, "type") != Some("challenge") {
          return false;
        }
        var challenge := DataField(record, MAX_CHALLENGE);
        if challenge.None? {
          return false;
        }
        var response := tokens.respond(challenge.value);
        if response.None? || !queued {
          return false;
        }
        sent, answered := sent + [ResponseRecord(response.value)], Some((challenge.value, response.value));
        phase := AwaitResult;
        return true;
      }
      if phase != AwaitResult || TextField(record, "type") != Some("result") {
        return false;
      }
      var flag := FlagField(record, "accepted");
      if flag.None? {
        return false;
      }
      accepted := flag.value;
      receivedResult := true;
      phase := ClientDone;
      link := Closing;
      return true;
    }

    method OnByte(byte: Byte, queued: bool)
      requires link != Aborted && received.error.None?
      modifies this, lines
      ensures Now() == ClientByte(lines.codec, tokens, old(Now()), byte, queued)
      ensures link == Aborted || received.error.None?
    {
      hide ClientByte, ClientRecord, Take, FeedByte;
      ghost var c := Now();
      ClientByteIs(lines.codec, tokens, c, byte, queued);
      var taken := lines.Accept(byte);
      received := FeedByte(lines.codec, c.framing, byte);
      Accepted(lines.codec, c.framing, byte, taken);
      match taken {
        case Bad(_, _) =>
          link := Aborted;
        case More(_) =>
        case Line(record) =>
          var ok := OnRecord(record, queued);
          if !ok {
            link := Aborted;
          }
      }
    }

    method OnData(data: seq<Byte>, queued: seq<bool>)
      requires |queued| == |data| && link != Aborted && received.error.None?
      modifies this, lines
      ensures Now() == ClientData(lines.codec, tokens, old(Now()), data, queued)
    {
      hide ClientByte;
      for i := 0 to |data|
        invariant link != Aborted && received.error.None?
        invariant ClientData(lines.codec, tokens, Now(), data[i..], queued[i..])
               == ClientData(lines.codec, tokens, old(Now()), data, queued)
      {
        assert data[i..][1..] == data[i + 1..] && queued[i..][1..] == queued[i + 1..];
        OnByte(data[i], queued[i]);
        if link == Aborted {
          AbortedClient(lines.codec, tokens, Now(), data[i + 1..], queued[i + 1..]);
          return;
        }
      }
    }
  }

  lemma Accepted(codec: Codec, s: Framing, byte: Byte, taken: Taken)
    requires s.error.None? && taken == Take(codec, s.buffer, byte)
    ensures FeedByte(codec, s, byte).buffer == match taken case Line(_) => [] case More(b) => b case Bad(_, left) => left
    ensures taken.Bad? <==> FeedByte(codec, s, byte).error.Some?
  {
    hide Take;
  }
}
