// Runs of client and server over two byte channels.
module AuthenticationRun {
  import opened Bytes
  import opened Wrappers
  import opened JsonFraming
  import opened Authentication

  /** Both parties, the bytes under way, and the bytes each party has taken from its channel. */
  datatype System = System(
    client: Client, server: Server, toServer: seq<Byte>, toClient: seq<Byte>,
    serverTaken: seq<Byte>, clientTaken: seq<Byte>)

  const INITIAL := System(NEW_CLIENT, NEW_SERVER, [], [], [], [])

  /** What can happen: chunks are delivered byte by byte, and an aborted party may lose what it has sent. */
  datatype Event =
    | Connect(queued: bool)
    | ServerTakes(nonce: seq<Byte>, queued: bool)
    | ClientTakes(queued: bool)
    | ServerFails
    | ClientFails
    | LoseToServer(kept: nat)
    | LoseToClient(kept: nat)

  predicate Enabled(y: System, e: Event) {
    match e
    case Connect(_) => !y.client.connected && y.client.link == Open
    case ServerTakes(_, _) => y.toServer != [] && y.server.link != Aborted
    case ClientTakes(_) => y.toClient != [] && y.client.link != Aborted && y.client.connected
    case ServerFails => true
    case ClientFails => true
    case LoseToServer(kept) => y.client.link == Aborted && kept <= |y.toServer|
    case LoseToClient(kept) => y.server.link == Aborted && kept <= |y.toClient|
  }

  /** The records a step has added to what a party sent. */
  function Added(before: seq<Json>, after: seq<Json>): seq<Json> {
    if |before| <= |after| then after[|before|..] else []
  }

  function Next(codec: Codec, tokens: Tokens, y: System, e: Event): System
    requires Enabled(y, e)
  {
    match e
    case Connect(queued) =>
      var c := ClientHello(tokens, y.client, queued);
      y.(client := c, toServer := y.toServer + EncodeAll(codec, Added(y.client.sent, c.sent)))
    case ServerTakes(nonce, queued) =>
      var s := ServerByte(codec, tokens, y.server, y.toServer[0], nonce, queued);
      y.(server := s, toServer := y.toServer[1..], serverTaken := y.serverTaken + [y.toServer[0]],
         toClient := y.toClient + EncodeAll(codec, Added(y.server.sent, s.sent)))
    case ClientTakes(queued) =>
      var c := ClientByte(codec, tokens, y.client, y.toClient[0], queued);
      y.(client := c, toClient := y.toClient[1..], clientTaken := y.clientTaken + [y.toClient[0]],
         toServer := y.toServer + EncodeAll(codec, Added(y.client.sent, c.sent)))
    case ServerFails => y.(server := y.server.(link := Aborted))
    case ClientFails => y.(client := y.client.(link := Aborted))
    case LoseToServer(kept) => y.(toServer := y.toServer[..kept])
    case LoseToClient(kept) => y.(toClient := y.toClient[..kept])
  }

  /** A run: every event is enabled where it happens. */
  ghost predicate IsRun(codec: Codec, tokens: Tokens, run: seq<System>, events: seq<Event>) {
    && |run| == |events| + 1 && run[0] == INITIAL
    && forall i :: 0 <= i < |events| ==> Enabled(run[i], events[i]) && run[i + 1] == Next(codec, tokens, run[i], events[i])
  }

  /** Printing and parsing obey their laws for the records of a session. */
  ghost predicate LawfulCodec(codec: Codec, tokens: Tokens) {
    && Lawful(codec, HelloRecord(tokens.clientId))
    && (forall c: seq<Byte> :: Lawful(codec, ChallengeRecord(c)))
    && (forall r: seq<Byte> :: Lawful(codec, ResponseRecord(r)))
    && forall b: bool :: Lawful(codec, ResultRecord(b))
  }

  // ---------------------------------------------------------------------------------------------
  // Channels

  /** What a party has taken and what is under way to it is a beginning of what the other has sent. */
  ghost predicate Channel(codec: Codec, sent: seq<Json>, taken: seq<Byte>, way: seq<Byte>, framing: Framing, closed: bool) {
    && taken + way <= EncodeAll(codec, sent)
    && (!closed ==> taken + way == EncodeAll(codec, sent))
    && framing == Feed(codec, START, taken)
  }

  lemma {:induction false} EncodeAllAppend(codec: Codec, a: seq<Json>, b: seq<Json>)
    ensures EncodeAll(codec, a + b) == EncodeAll(codec, a) + EncodeAll(codec, b)
  {
    hide Encode;
    if a == [] {
      assert a + b == b;
    } else {
      EncodeAllAppend(codec, a[1..], b);
      assert (a + b)[1..] == a[1..] + b;
    }
  }

  lemma ChannelTake(codec: Codec, sent: seq<Json>, taken: seq<Byte>, way: seq<Byte>, framing: Framing, closed: bool)
    requires Channel(codec, sent, taken, way, framing, closed) && way != []
    ensures Channel(codec, sent, taken + [way[0]], way[1..], FeedByte(codec, framing, way[0]), closed)
  {
    hide EncodeAll, FeedByte;
    assert taken + [way[0]] + way[1..] == taken + way;
    FeedAppend(codec, START, taken, [way[0]]);
    FeedOne(codec, framing, way[0]);
  }

  lemma ChannelSend(codec: Codec, sent: seq<Json>, after: seq<Json>, taken: seq<Byte>, way: seq<Byte>, framing: Framing)
    requires Channel(codec, sent, taken, way, framing, false) && sent <= after
    ensures Channel(codec, after, taken, way + EncodeAll(codec, Added(sent, after)), framing, false)
  {
    hide EncodeAll, Feed;
    assert after == sent + after[|sent|..];
    EncodeAllAppend(codec, sent, after[|sent|..]);
    assert taken + (way + EncodeAll(codec, after[|sent|..])) == taken + way + EncodeAll(codec, after[|sent|..]);
  }

  lemma ChannelLose(codec: Codec, sent: seq<Json>, taken: seq<Byte>, way: seq<Byte>, framing: Framing, kept: nat)
    requires Channel(codec, sent, taken, way, framing, true) && kept <= |way|
    ensures Channel(codec, sent, taken, way[..kept], framing, true)
  {
    hide EncodeAll, Feed;
    assert taken + way[..kept] <= taken + way;
  }

  /** The receiver has delivered a beginning of what was sent. */
  lemma ChannelDelivers(codec: Codec, sent: seq<Json>, taken: seq<Byte>, way: seq<Byte>, framing: Framing, closed: bool)
    requires AllLawful(codec, sent) && Channel(codec, sent, taken, way, framing, closed)
    ensures framing.records <= sent
  {
    hide EncodeAll, Feed, AllLawful;
    assert taken <= EncodeAll(codec, sent);
    DeliveredArePrefix(codec, START, sent, taken);
    assert [] + sent == sent;
  }

  // ---------------------------------------------------------------------------------------------
  // What the history of a party says about its state

  ghost predicate IsResponse(record: Json, response: seq<Byte>) {
    TextField(record, "type") == Some("response") && DataField(record, MAX_RESPONSE) == Some(response) && |response| <= 497
  }

  ghost predicate IsChallenge(record: Json, challenge: seq<Byte>) {
    TextField(record, "type") == Some("challenge") && DataField(record, MAX_CHALLENGE) == Some(challenge) && |challenge| <= 102
  }

  ghost predicate IsHello(record: Json, id: string) {
    TextField(record, "type") == Some("hello") && TextField(record, "id") == Some(id)
  }

  ghost predicate IsResult(record: Json, accepted: bool) {
    TextField(record, "type") == Some("result") && FlagField(record, "accepted") == Some(accepted)
  }

  /** The session holds a challenge exactly while it waits for the proof, and verifies once, to finish. */
  ghost predicate ServerHistory(tokens: Tokens, s: Server) {
    && (s.link != Aborted ==> s.framing.error.None? && (s.pending.Some? <==> s.phase == AwaitProof))
    && match s.phase
       case AwaitHello => s.sent == [] && s.verified == [] && (s.link != Aborted ==> s.framing.records == [])
       case AwaitProof =>
         && s.verified == [] && s.pending.Some? && s.sent == [ChallengeRecord(s.pending.value)]
         && |s.framing.records| >= 1 && IsHello(s.framing.records[0], tokens.serverId)
         && (s.link != Aborted ==> |s.framing.records| == 1)
       case ServerDone =>
         && |s.verified| == 1 && s.pending.None?
         && s.verified[0].accepted == tokens.verify(s.verified[0].challenge, s.verified[0].response)
         && |s.framing.records| >= 2 && IsHello(s.framing.records[0], tokens.serverId) && IsResponse(s.framing.records[1], s.verified[0].response)
         && s.sent <= [ChallengeRecord(s.verified[0].challenge), ResultRecord(s.verified[0].accepted)]
         && (s.link != Aborted ==> s.link == Closing && |s.framing.records| == 2 && |s.sent| == 2)
  }

  ghost predicate ClientHistory(tokens: Tokens, c: Client) {
    && (c.link != Aborted ==> c.framing.error.None?)
    && (c.receivedResult <==> c.phase == ClientDone) && (c.accepted ==> c.phase == ClientDone)
    && (!c.connected ==> c.phase == AwaitChallenge && (c.link != Aborted ==> c.link == Open))
    && (c.phase == AwaitChallenge ==>
          && (if c.connected && c.link != Aborted then c.sent == [HelloRecord(tokens.clientId)]
              else c.sent <= [HelloRecord(tokens.clientId)] && (!c.connected ==> c.sent == []))
          && (c.link != Aborted ==> c.framing.records == []))
    && (c.phase != AwaitChallenge ==>
          && c.answered.Some? && tokens.respond(c.answered.value.0) == Some(c.answered.value.1)
          && c.sent == [HelloRecord(tokens.clientId), ResponseRecord(c.answered.value.1)]
          && |c.framing.records| >= 1 && IsChallenge(c.framing.records[0], c.answered.value.0))
    && (c.phase == AwaitResult && c.link != Aborted ==> |c.framing.records| == 1)
    && (c.phase == ClientDone ==>
          && |c.framing.records| >= 2 && IsResult(c.framing.records[1], c.accepted)
          && (c.link != Aborted ==> c.link == Closing && |c.framing.records| == 2))
  }

  ghost predicate Good(codec: Codec, tokens: Tokens, y: System) {
    && ServerHistory(tokens, y.server) && ClientHistory(tokens, y.client)
    && Channel(codec, y.client.sent, y.serverTaken, y.toServer, y.server.framing, y.client.link == Aborted)
    && Channel(codec, y.server.sent, y.clientTaken, y.toClient, y.client.framing, y.server.link == Aborted)
  }

  lemma Taking(codec: Codec, s: Framing, byte: Byte)
    requires s.error.None?
    ensures match Take(codec, s.buffer, byte)
      case Line(record) => FeedByte(codec, s, byte).records == s.records + [record] && FeedByte(codec, s, byte).error.None?
      case More(_) => FeedByte(codec, s, byte).records == s.records && FeedByte(codec, s, byte).error.None?
      case Bad(_, _) => FeedByte(codec, s, byte).records == s.records && FeedByte(codec, s, byte).error.Some?
  {}

  /** The framing before the last record was delivered. */
  function Earlier(f: Framing): Framing {
    if f.records == [] then f else f.(records := f.records[..|f.records| - 1])
  }

  /** A record handed to a live session keeps its history true, aborted or not. */
  lemma ServerRecordKeeps(tokens: Tokens, s: Server, record: Json, nonce: seq<Byte>, queued: bool)
    requires s.link != Aborted && s.framing.records != [] && ServerHistory(tokens, s.(framing := Earlier(s.framing)))
    requires s.framing.records[|s.framing.records| - 1] == record
    ensures var (u, ok) := ServerRecord(tokens, s, record, nonce, queued);
      && ServerHistory(tokens, if ok then u else u.(link := Aborted)) && (ok ==> u.link != Aborted)
      && s.sent <= u.sent && (!ok ==> u.sent == s.sent) && u.framing == s.framing
  {
    DataLimit(record, MAX_RESPONSE);
    hide TextField, DataField;
  }

  lemma ClientRecordKeeps(tokens: Tokens, c: Client, record: Json, queued: bool)
    requires c.link != Aborted && c.connected
    requires c.framing.records != [] && ClientHistory(tokens, c.(framing := Earlier(c.framing)))
    requires c.framing.records[|c.framing.records| - 1] == record
    ensures var (u, ok) := ClientRecord(tokens, c, record, queued);
      && ClientHistory(tokens, if ok then u else u.(link := Aborted)) && (ok ==> u.link != Aborted)
      && c.sent <= u.sent && (!ok ==> u.sent == c.sent) && u.framing == c.framing && u.connected == c.connected
  {
    DataLimit(record, MAX_CHALLENGE);
    hide TextField, DataField, FlagField;
  }

  lemma ServerAborts(tokens: Tokens, s: Server, framing: Framing)
    requires ServerHistory(tokens, s) && s.framing.records <= framing.records
    ensures ServerHistory(tokens, s.(framing := framing, link := Aborted))
  {
    hide IsResponse, IsHello;
  }

  lemma ClientAborts(tokens: Tokens, c: Client, framing: Framing)
    requires ClientHistory(tokens, c) && c.framing.records <= framing.records
    ensures ClientHistory(tokens, c.(framing := framing, link := Aborted))
  {
    hide IsChallenge, IsResult;
  }

  lemma ServerFills(tokens: Tokens, s: Server, framing: Framing)
    requires ServerHistory(tokens, s) && framing.records == s.framing.records && framing.error.None?
    ensures ServerHistory(tokens, s.(framing := framing))
  {
    hide IsResponse, IsHello;
  }

  lemma ServerLive(tokens: Tokens, s: Server)
    requires ServerHistory(tokens, s) && s.link != Aborted
    ensures s.framing.error.None?
  {}

  lemma ServerByteKeeps(codec: Codec, tokens: Tokens, s: Server, byte: Byte, nonce: seq<Byte>, queued: bool)
    requires ServerHistory(tokens, s) && s.link != Aborted
    ensures var t := ServerByte(codec, tokens, s, byte, nonce, queued);
      ServerHistory(tokens, t) && s.sent <= t.sent && t.framing == FeedByte(codec, s.framing, byte)
  {
    hide *;
    ServerLive(tokens, s);
    ServerByteIs(codec, tokens, s, byte, nonce, queued);
    Taking(codec, s.framing, byte);
    var t := s.(framing := FeedByte(codec, s.framing, byte));
    match Take(codec, s.framing.buffer, byte)
    case Bad(_, _) =>
      ServerAborts(tokens, s, t.framing);
    case More(_) =>
      ServerFills(tokens, s, t.framing);
    case Line(record) =>
      EarlierRecords(t.framing, s.framing.records, record);
      ServerSameRecords(tokens, s, t);
      ServerRecordKeeps(tokens, t, record, nonce, queued);
  }

  lemma ServerSameRecords(tokens: Tokens, s: Server, t: Server)
    requires ServerHistory(tokens, s) && s.link != Aborted && t.framing.error.None? && t == s.(framing := t.framing)
    requires Earlier(t.framing).records == s.framing.records
    ensures ServerHistory(tokens, t.(framing := Earlier(t.framing)))
  {
    hide IsResponse, IsHello;
  }

  lemma ClientFills(tokens: Tokens, c: Client, framing: Framing)
    requires ClientHistory(tokens, c) && framing.records == c.framing.records && framing.error.None?
    ensures ClientHistory(tokens, c.(framing := framing))
  {
    hide IsChallenge, IsResult;
  }

  lemma ClientByteKeeps(codec: Codec, tokens: Tokens, c: Client, byte: Byte, queued: bool)
    requires ClientHistory(tokens, c) && c.link != Aborted && c.connected
    ensures var t := ClientByte(codec, tokens, c, byte, queued);
      ClientHistory(tokens, t) && c.sent <= t.sent && t.framing == FeedByte(codec, c.framing, byte)
  {
    hide *;
    ClientLive(tokens, c);
    ClientByteIs(codec, tokens, c, byte, queued);
    Taking(codec, c.framing, byte);
    var t := c.(framing := FeedByte(codec, c.framing, byte));
    match Take(codec, c.framing.buffer, byte)
    case Bad(_, _) =>
      ClientAborts(tokens, c, t.framing);
    case More(_) =>
      ClientFills(tokens, c, t.framing);
    case Line(record) =>
      EarlierRecords(t.framing, c.framing.records, record);
      ClientSameRecords(tokens, c, t);
      ClientRecordKeeps(tokens, t, record, queued);
  }

  lemma EarlierRecords(f: Framing, before: seq<Json>, record: Json)
    requires f.records == before + [record]
    ensures Earlier(f).records == before && f.records != [] && f.records[|f.records| - 1] == record
  {}

  lemma ClientLive(tokens: Tokens, c: Client)
    requires ClientHistory(tokens, c) && c.link != Aborted
    ensures c.framing.error.None?
  {}

  lemma ClientSameRecords(tokens: Tokens, c: Client, t: Client)
    requires ClientHistory(tokens, c) && c.link != Aborted && t.framing.error.None? && t == c.(framing := t.framing)
    requires Earlier(t.framing).records == c.framing.records
    ensures ClientHistory(tokens, t.(framing := Earlier(t.framing)))
  {
    hide IsChallenge, IsResult;
  }

  lemma ClientHelloKeeps(tokens: Tokens, c: Client, queued: bool)
    requires ClientHistory(tokens, c) && !c.connected && c.link == Open
    ensures var t := ClientHello(tokens, c, queued); ClientHistory(tokens, t) && c.sent <= t.sent && t.framing == c.framing
  {}

  // ---------------------------------------------------------------------------------------------
  // Every step keeps the invariant

  lemma GoodParts(codec: Codec, tokens: Tokens, y: System)
    requires Good(codec, tokens, y)
    ensures ServerHistory(tokens, y.server) && ClientHistory(tokens, y.client)
    ensures Channel(codec, y.client.sent, y.serverTaken, y.toServer, y.server.framing, y.client.link == Aborted)
    ensures Channel(codec, y.server.sent, y.clientTaken, y.toClient, y.client.framing, y.server.link == Aborted)
  {}

  /** Sending while live keeps the channel complete; aborting afterwards only opens the way to losses. */
  lemma ChannelStep(codec: Codec, sent: seq<Json>, after: seq<Json>, taken: seq<Byte>, way: seq<Byte>, framing: Framing, closed: bool)
    requires Channel(codec, sent, taken, way, framing, false) && sent <= after
    ensures Channel(codec, after, taken, way + EncodeAll(codec, Added(sent, after)), framing, closed)
  {
    ChannelSend(codec, sent, after, taken, way, framing);
    hide EncodeAll, Feed;
  }

  lemma GoodFirst(codec: Codec, tokens: Tokens)
    ensures Good(codec, tokens, INITIAL)
  {}

  lemma StepConnect(codec: Codec, tokens: Tokens, y: System, queued: bool)
    requires Good(codec, tokens, y) && Enabled(y, Connect(queued))
    ensures Good(codec, tokens, Next(codec, tokens, y, Connect(queued)))
  {
    hide ClientHistory, ServerHistory, Channel, EncodeAll, ClientHello;
    ClientHelloKeeps(tokens, y.client, queued);
    var c := ClientHello(tokens, y.client, queued);
    ChannelStep(codec, y.client.sent, c.sent, y.serverTaken, y.toServer, y.server.framing, c.link == Aborted);
  }

  lemma StepServerTakes(codec: Codec, tokens: Tokens, y: System, nonce: seq<Byte>, queued: bool)
    requires Good(codec, tokens, y) && Enabled(y, ServerTakes(nonce, queued))
    ensures Good(codec, tokens, Next(codec, tokens, y, ServerTakes(nonce, queued)))
  {
    hide ClientHistory, ServerHistory, Channel, EncodeAll, ServerByte, FeedByte;
    ServerByteKeeps(codec, tokens, y.server, y.toServer[0], nonce, queued);
    var s := ServerByte(codec, tokens, y.server, y.toServer[0], nonce, queued);
    ChannelTake(codec, y.client.sent, y.serverTaken, y.toServer, y.server.framing, y.client.link == Aborted);
    ChannelStep(codec, y.server.sent, s.sent, y.clientTaken, y.toClient, y.client.framing, s.link == Aborted);
  }

  lemma StepClientTakes(codec: Codec, tokens: Tokens, y: System, queued: bool)
    requires Good(codec, tokens, y) && Enabled(y, ClientTakes(queued))
    ensures Good(codec, tokens, Next(codec, tokens, y, ClientTakes(queued)))
  {
    hide ClientHistory, ServerHistory, Channel, EncodeAll, ClientByte, FeedByte;
    ClientByteKeeps(codec, tokens, y.client, y.toClient[0], queued);
    var c := ClientByte(codec, tokens, y.client, y.toClient[0], queued);
    ChannelTake(codec, y.server.sent, y.clientTaken, y.toClient, y.client.framing, y.server.link == Aborted);
    ChannelStep(codec, y.client.sent, c.sent, y.serverTaken, y.toServer, y.server.framing, c.link == Aborted);
  }

  lemma StepFails(codec: Codec, tokens: Tokens, y: System)
    requires Good(codec, tokens, y)
    ensures Good(codec, tokens, y.(server := y.server.(link := Aborted)))
    ensures Good(codec, tokens, y.(client := y.client.(link := Aborted)))
  {
    ServerAborts(tokens, y.server, y.server.framing);
    ClientAborts(tokens, y.client, y.client.framing);
    hide ClientHistory, ServerHistory, EncodeAll, Feed;
  }

  lemma StepLose(codec: Codec, tokens: Tokens, y: System, e: Event)
    requires Good(codec, tokens, y) && Enabled(y, e) && (e.LoseToServer? || e.LoseToClient?)
    ensures Good(codec, tokens, Next(codec, tokens, y, e))
  {
    hide ClientHistory, ServerHistory, Channel;
    match e
    case LoseToServer(kept) => ChannelLose(codec, y.client.sent, y.serverTaken, y.toServer, y.server.framing, kept);
    case LoseToClient(kept) => ChannelLose(codec, y.server.sent, y.clientTaken, y.toClient, y.client.framing, kept);
  }

  lemma StepKeeps(codec: Codec, tokens: Tokens, y: System, e: Event)
    requires Good(codec, tokens, y) && Enabled(y, e)
    ensures Good(codec, tokens, Next(codec, tokens, y, e))
  {
    hide Good, Channel, ClientHistory, ServerHistory, ServerByte, ClientByte, ClientHello, EncodeAll;
    match e
    case Connect(queued) => StepConnect(codec, tokens, y, queued);
    case ServerTakes(nonce, queued) => StepServerTakes(codec, tokens, y, nonce, queued);
    case ClientTakes(queued) => StepClientTakes(codec, tokens, y, queued);
    case ServerFails => StepFails(codec, tokens, y);
    case ClientFails => StepFails(codec, tokens, y);
    case LoseToServer(_) => StepLose(codec, tokens, y, e);
    case LoseToClient(_) => StepLose(codec, tokens, y, e);
  }

  /** The invariant holds in every state of every run. */
  lemma {:induction false} RunsAreGood(codec: Codec, tokens: Tokens, run: seq<System>, events: seq<Event>, i: nat)
    requires IsRun(codec, tokens, run, events) && i < |run|
    ensures Good(codec, tokens, run[i])
  {
    hide Good, Next, Enabled;
    if i == 0 {
      GoodFirst(codec, tokens);
    } else {
      RunsAreGood(codec, tokens, run, events, i - 1);
      assert Enabled(run[i - 1], events[i - 1]) && run[i - 1 + 1] == Next(codec, tokens, run[i - 1], events[i - 1]);
      StepKeeps(codec, tokens, run[i - 1], events[i - 1]);
    }
  }

  // ---------------------------------------------------------------------------------------------
  // What has been sent

  lemma ClientSentIs(tokens: Tokens, c: Client)
    requires ClientHistory(tokens, c)
    ensures c.sent == [] || c.sent == [HelloRecord(tokens.clientId)]
      || (c.answered.Some? && tokens.respond(c.answered.value.0) == Some(c.answered.value.1)
          && c.sent == [HelloRecord(tokens.clientId), ResponseRecord(c.answered.value.1)])
  {
    hide IsChallenge, IsResult;
    if c.sent <= [HelloRecord(tokens.clientId)] && c.sent != [] {
      assert c.sent == [HelloRecord(tokens.clientId)];
    }
  }

  lemma ServerSentIs(tokens: Tokens, s: Server)
    requires ServerHistory(tokens, s)
    ensures s.sent == []
      || (s.pending.Some? && s.sent == [ChallengeRecord(s.pending.value)])
      || (s.verified != [] && s.sent == [ChallengeRecord(s.verified[0].challenge)])
      || (s.verified != [] && s.sent == [ChallengeRecord(s.verified[0].challenge), ResultRecord(s.verified[0].accepted)])
  {
    hide IsResponse, IsHello;
    if s.phase == ServerDone {
      var all := [ChallengeRecord(s.verified[0].challenge), ResultRecord(s.verified[0].accepted)];
      assert s.sent == all[..|s.sent|];
      assert all[..1] == [all[0]] && all[..2] == all;
    }
  }

  lemma LawfulOnes(codec: Codec, a: Json, b: Json)
    ensures AllLawful(codec, [])
    ensures Lawful(codec, a) ==> AllLawful(codec, [a])
    ensures Lawful(codec, a) && Lawful(codec, b) ==> AllLawful(codec, [a, b])
  {
    hide Lawful;
  }

  lemma LawfulKinds(codec: Codec, tokens: Tokens, bytes: seq<Byte>, accepted: bool)
    requires LawfulCodec(codec, tokens)
    ensures Lawful(codec, HelloRecord(tokens.clientId)) && Lawful(codec, ResultRecord(accepted))
    ensures Lawful(codec, ChallengeRecord(bytes)) && Lawful(codec, ResponseRecord(bytes))
  {
    hide Lawful;
  }

  lemma ClientSentLawful(codec: Codec, tokens: Tokens, c: Client)
    requires LawfulCodec(codec, tokens) && ClientHistory(tokens, c)
    ensures AllLawful(codec, c.sent)
  {
    hide *;
    ClientSentIs(tokens, c);
    var response := if c.answered.Some? then c.answered.value.1 else [];
    LawfulKinds(codec, tokens, response, true);
    LawfulOnes(codec, HelloRecord(tokens.clientId), ResponseRecord(response));
  }

  lemma ServerSentLawful(codec: Codec, tokens: Tokens, s: Server)
    requires LawfulCodec(codec, tokens) && ServerHistory(tokens, s)
    ensures AllLawful(codec, s.sent)
  {
    hide *;
    ServerSentIs(tokens, s);
    var pending := if s.pending.Some? then s.pending.value else [];
    LawfulKinds(codec, tokens, pending, true);
    LawfulOnes(codec, ChallengeRecord(pending), ChallengeRecord(pending));
    if s.verified != [] {
      LawfulKinds(codec, tokens, s.verified[0].challenge, s.verified[0].accepted);
      LawfulOnes(codec, ChallengeRecord(s.verified[0].challenge), ResultRecord(s.verified[0].accepted));
    }
  }

  lemma SentLawful(codec: Codec, tokens: Tokens, c: Client, s: Server)
    requires LawfulCodec(codec, tokens) && ClientHistory(tokens, c) && ServerHistory(tokens, s)
    ensures AllLawful(codec, c.sent) && AllLawful(codec, s.sent)
  {
    ClientSentLawful(codec, tokens, c);
    ServerSentLawful(codec, tokens, s);
  }

  // ---------------------------------------------------------------------------------------------
  // Safety

  /** A live session holds a challenge exactly while it waits for the proof, and verifies at most once. */
  lemma PendingOnlyInProof(codec: Codec, tokens: Tokens, run: seq<System>, events: seq<Event>, i: nat)
    requires IsRun(codec, tokens, run, events) && i < |run|
    ensures run[i].server.link != Aborted ==> (run[i].server.pending.Some? <==> run[i].server.phase == AwaitProof)
    ensures |run[i].server.verified| <= 1 && (|run[i].server.verified| == 1 <==> run[i].server.phase == ServerDone)
  {
    RunsAreGood(codec, tokens, run, events, i);
  }

  /** A client that has finished knows the outcome of the one verification of its own response. */
  lemma FinishedClient(codec: Codec, tokens: Tokens, y: System)
    requires LawfulCodec(codec, tokens) && Good(codec, tokens, y) && y.client.phase == ClientDone
    ensures y.server.phase == ServerDone && |y.server.verified| == 1 && y.client.answered.Some?
    ensures y.server.verified[0] == Attempt(y.client.answered.value.0, y.client.answered.value.1, y.client.accepted)
    ensures y.client.accepted == tokens.verify(y.client.answered.value.0, y.client.answered.value.1)
    ensures |y.client.answered.value.0| <= 102 && |y.client.answered.value.1| <= 497
    ensures tokens.clientId == tokens.serverId
  {
    var (c, s) := (y.client, y.server);
    GoodParts(codec, tokens, y);
    SentLawful(codec, tokens, c, s);
    ChannelDelivers(codec, s.sent, y.clientTaken, y.toClient, c.framing, s.link == Aborted);
    ChannelDelivers(codec, c.sent, y.serverTaken, y.toServer, s.framing, c.link == Aborted);
    hide Channel, LawfulCodec, Good, TextField, DataField, FlagField;
    assert s.phase == ServerDone && |s.sent| == 2;
    var attempt := s.verified[0];
    assert c.framing.records[0] == ChallengeRecord(attempt.challenge) && c.framing.records[1] == ResultRecord(attempt.accepted);
    ResultFields(attempt.accepted);
    DataFields(attempt.challenge, MAX_CHALLENGE);
    assert s.framing.records[1] == ResponseRecord(c.answered.value.1);
    DataFields(c.answered.value.1, MAX_RESPONSE);
    HelloFields(tokens.clientId);
  }

  lemma ClientKnowsOutcome(codec: Codec, tokens: Tokens, run: seq<System>, events: seq<Event>, i: nat)
    requires LawfulCodec(codec, tokens) && IsRun(codec, tokens, run, events) && i < |run| && run[i].client.phase == ClientDone
    ensures run[i].server.phase == ServerDone && |run[i].server.verified| == 1 && run[i].client.answered.Some?
    ensures var (challenge, response) := run[i].client.answered.value;
      run[i].server.verified[0] == Attempt(challenge, response, run[i].client.accepted)
      && run[i].client.accepted == tokens.verify(challenge, response)
      && |challenge| <= 102 && |response| <= 497
    ensures tokens.clientId == tokens.serverId
  {
    hide Good, LawfulCodec;
    RunsAreGood(codec, tokens, run, events, i);
    FinishedClient(codec, tokens, run[i]);
  }

  /** The client exits successfully only if its response was verified against the server's challenge. */
  lemma SuccessIsVerified(codec: Codec, tokens: Tokens, run: seq<System>, events: seq<Event>, i: nat)
    requires LawfulCodec(codec, tokens) && IsRun(codec, tokens, run, events) && i < |run| && run[i].client.accepted
    ensures run[i].client.answered.Some? && |run[i].server.verified| == 1
    ensures var (challenge, response) := run[i].client.answered.value;
      tokens.verify(challenge, response) && run[i].server.verified[0] == Attempt(challenge, response, true)
  {
    RunsAreGood(codec, tokens, run, events, i);
    GoodParts(codec, tokens, run[i]);
    ClientKnowsOutcome(codec, tokens, run, events, i);
    hide Good, LawfulCodec, IsRun;
  }

  // ---------------------------------------------------------------------------------------------
  // Undisturbed runs

  /** A challenge the client can answer, with everything within the limits of the records. */
  ghost predicate Answerable(tokens: Tokens, challenge: seq<Byte>) {
    && |challenge| <= 102 && tokens.respond(challenge).Some?
    && |tokens.respond(challenge).value| <= 497
  }

  ghost predicate Smooth(tokens: Tokens, e: Event) {
    match e
    case Connect(queued) => queued
    case ServerTakes(nonce, queued) => queued && Answerable(tokens, nonce)
    case ClientTakes(queued) => queued
    case _ => false
  }

  /** The records of a session fit into the buffer of the receiver. */
  ghost predicate RecordsShort(codec: Codec, tokens: Tokens) {
    && Short(codec, HelloRecord(tokens.clientId))
    && (forall c: seq<Byte> :: |c| <= 102 ==> Short(codec, ChallengeRecord(c)))
    && (forall r: seq<Byte> :: |r| <= 497 ==> Short(codec, ResponseRecord(r)))
    && forall b: bool :: Short(codec, ResultRecord(b))
  }

  ghost predicate Setting(codec: Codec, tokens: Tokens) {
    LawfulCodec(codec, tokens) && RecordsShort(codec, tokens) && tokens.clientId == tokens.serverId
  }

  ghost predicate Undisturbed(codec: Codec, tokens: Tokens, y: System) {
    && Good(codec, tokens, y) && y.server.link != Aborted && y.client.link != Aborted
    && (y.server.pending.Some? ==> Answerable(tokens, y.server.pending.value))
    && (y.server.verified != [] ==> Answerable(tokens, y.server.verified[0].challenge))
    && (y.client.answered.Some? ==> Answerable(tokens, y.client.answered.value.0))
  }

  lemma ShortOnes(codec: Codec, a: Json, b: Json)
    ensures AllShort(codec, [])
    ensures Short(codec, a) ==> AllShort(codec, [a])
    ensures Short(codec, a) && Short(codec, b) ==> AllShort(codec, [a, b])
  {
    hide Short;
  }

  lemma ShortKinds(codec: Codec, tokens: Tokens, bytes: seq<Byte>, accepted: bool)
    requires Setting(codec, tokens)
    ensures Short(codec, HelloRecord(tokens.clientId)) && Short(codec, ResultRecord(accepted))
    ensures |bytes| <= MAX_CHALLENGE ==> Short(codec, ChallengeRecord(bytes))
    ensures |bytes| <= MAX_RESPONSE ==> Short(codec, ResponseRecord(bytes))
  {
    hide Short, LawfulCodec;
  }

  lemma UndisturbedParts(codec: Codec, tokens: Tokens, y: System)
    requires Undisturbed(codec, tokens, y)
    ensures Good(codec, tokens, y) && y.server.link != Aborted && y.client.link != Aborted
    ensures y.server.pending.Some? ==> Answerable(tokens, y.server.pending.value)
    ensures y.server.verified != [] ==> Answerable(tokens, y.server.verified[0].challenge)
    ensures y.client.answered.Some? ==> Answerable(tokens, y.client.answered.value.0)
  {}

  lemma AnswerableIs(tokens: Tokens, challenge: seq<Byte>)
    requires Answerable(tokens, challenge)
    ensures |challenge| <= MAX_CHALLENGE && tokens.respond(challenge).Some? && |tokens.respond(challenge).value| <= MAX_RESPONSE
  {}

  lemma SentShort(codec: Codec, tokens: Tokens, y: System)
    requires Setting(codec, tokens) && Undisturbed(codec, tokens, y)
    ensures AllShort(codec, y.client.sent) && AllShort(codec, y.server.sent)
  {
    var (c, s) := (y.client, y.server);
    hide *;
    UndisturbedParts(codec, tokens, y);
    GoodParts(codec, tokens, y);
    ClientSentIs(tokens, c);
    if c.answered.Some? {
      AnswerableIs(tokens, c.answered.value.0);
      ShortKinds(codec, tokens, c.answered.value.1, true);
      ShortOnes(codec, HelloRecord(tokens.clientId), ResponseRecord(c.answered.value.1));
    } else {
      ShortKinds(codec, tokens, [], true);
      ShortOnes(codec, HelloRecord(tokens.clientId), HelloRecord(tokens.clientId));
    }
    ServerSentIs(tokens, s);
    if s.verified != [] {
      AnswerableIs(tokens, s.verified[0].challenge);
      ShortKinds(codec, tokens, s.verified[0].challenge, s.verified[0].accepted);
      ShortOnes(codec, ChallengeRecord(s.verified[0].challenge), ResultRecord(s.verified[0].accepted));
    }
    if s.pending.Some? {
      AnswerableIs(tokens, s.pending.value);
      ShortKinds(codec, tokens, s.pending.value, true);
      ShortOnes(codec, ChallengeRecord(s.pending.value), ChallengeRecord(s.pending.value));
    }
  }

  /** The next byte of an intact channel is no framing error, and completes only the record due. */
  lemma IntactTake(codec: Codec, sent: seq<Json>, taken: seq<Byte>, way: seq<Byte>, framing: Framing)
    requires AllLawful(codec, sent) && AllShort(codec, sent)
    requires Channel(codec, sent, taken, way, framing, false) && way != []
    ensures framing.error.None? && FeedByte(codec, framing, way[0]).error.None?
    ensures FeedByte(codec, framing, way[0]).records <= sent
    ensures match Take(codec, framing.buffer, way[0])
      case Line(record) => FeedByte(codec, framing, way[0]).records == framing.records + [record] && |framing.records| < |sent| && record == sent[|framing.records|]
      case More(_) => true
      case Bad(_, _) => false
  {
    ChannelTake(codec, sent, taken, way, framing, false);
    ChannelDelivers(codec, sent, taken + [way[0]], way[1..], FeedByte(codec, framing, way[0]), false);
    assert taken <= EncodeAll(codec, sent) && taken + [way[0]] <= EncodeAll(codec, sent) by {
      assert taken + [way[0]] + way[1..] == taken + way;
    }
    PartIsNoError(codec, START, sent, taken);
    PartIsNoError(codec, START, sent, taken + [way[0]]);
    hide EncodeAll, Feed, AllLawful, AllShort;
    Taking(codec, framing, way[0]);
  }

  /** The record due is the one the session waits for. */
  lemma DueToServer(tokens: Tokens, c: Client, s: Server, record: Json)
    requires ServerHistory(tokens, s) && s.link != Aborted && ClientHistory(tokens, c)
    requires |s.framing.records| < |c.sent| && record == c.sent[|s.framing.records|]
    ensures (s.phase == AwaitHello && record == HelloRecord(tokens.clientId))
      || (s.phase == AwaitProof && s.pending.Some? && c.answered.Some? && record == ResponseRecord(c.answered.value.1)
          && tokens.respond(c.answered.value.0) == Some(c.answered.value.1))
  {
    ClientSentIs(tokens, c);
    hide IsResponse, IsHello, ClientHistory;
  }

  lemma DueToClient(tokens: Tokens, c: Client, s: Server, record: Json)
    requires ServerHistory(tokens, s) && c.link != Aborted && ClientHistory(tokens, c)
    requires |c.framing.records| < |s.sent| && record == s.sent[|c.framing.records|]
    ensures (c.phase == AwaitChallenge && s.pending.Some? && record == ChallengeRecord(s.pending.value))
      || (c.phase == AwaitChallenge && s.verified != [] && record == ChallengeRecord(s.verified[0].challenge))
      || (c.phase == AwaitResult && s.verified != [] && record == ResultRecord(s.verified[0].accepted))
  {
    ServerSentIs(tokens, s);
    hide IsResult, IsChallenge, ServerHistory;
  }

  lemma ServerTakesDue(tokens: Tokens, s: Server, record: Json, nonce: seq<Byte>, response: seq<Byte>)
    requires tokens.clientId == tokens.serverId && |response| <= MAX_RESPONSE
    requires (s.phase == AwaitHello && record == HelloRecord(tokens.clientId))
      || (s.phase == AwaitProof && s.pending.Some? && record == ResponseRecord(response))
    ensures var (u, ok) := ServerRecord(tokens, s, record, nonce, true);
      && ok && (u.link == s.link || u.link == Closing)
      && (u.pending == Some(nonce) || u.pending == None)
      && (u.verified == s.verified || (s.pending.Some? && u.verified == s.verified + [Attempt(s.pending.value, response, tokens.verify(s.pending.value, response))]))
  {
    HelloFields(tokens.clientId);
    DataFields(response, MAX_RESPONSE);
    hide TextField, DataField, HelloRecord, ResponseRecord;
  }

  lemma ClientTakesDue(tokens: Tokens, c: Client, record: Json, challenge: seq<Byte>, accepted: bool)
    requires Answerable(tokens, challenge)
    requires (c.phase == AwaitChallenge && record == ChallengeRecord(challenge))
      || (c.phase == AwaitResult && record == ResultRecord(accepted))
    ensures var (u, ok) := ClientRecord(tokens, c, record, true);
      && ok && (u.link == c.link || u.link == Closing)
      && (u.answered == c.answered || (u.answered.Some? && u.answered.value.0 == challenge))
  {
    ResultFields(accepted);
    DataFields(challenge, MAX_CHALLENGE);
    hide TextField, DataField, FlagField, ResultRecord, ChallengeRecord;
  }

  lemma ServerByteTaken(codec: Codec, tokens: Tokens, c: Client, s: Server, byte: Byte, nonce: seq<Byte>)
    requires tokens.clientId == tokens.serverId && Answerable(tokens, nonce)
    requires ServerHistory(tokens, s) && s.link != Aborted && ClientHistory(tokens, c)
    requires s.pending.Some? ==> Answerable(tokens, s.pending.value)
    requires s.verified != [] ==> Answerable(tokens, s.verified[0].challenge)
    requires c.answered.Some? ==> Answerable(tokens, c.answered.value.0)
    requires match Take(codec, s.framing.buffer, byte)
      case Line(record) => |s.framing.records| < |c.sent| && record == c.sent[|s.framing.records|]
      case More(_) => true
      case Bad(_, _) => false
    ensures var t := ServerByte(codec, tokens, s, byte, nonce, true);
      && t.link != Aborted && (t.pending.Some? ==> Answerable(tokens, t.pending.value))
      && (t.verified != [] ==> Answerable(tokens, t.verified[0].challenge))
  {
    hide ServerHistory, ClientHistory, ServerRecord, FeedByte, Take;
    match Take(codec, s.framing.buffer, byte)
    case More(_) =>
    case Line(record) =>
      DueToServer(tokens, c, s, record);
      var response := if s.phase == AwaitProof then c.answered.value.1 else [];
      ServerTakesDue(tokens, s.(framing := FeedByte(codec, s.framing, byte)), record, nonce, response);
  }

  lemma ClientByteTaken(codec: Codec, tokens: Tokens, c: Client, s: Server, byte: Byte)
    requires ServerHistory(tokens, s) && c.link != Aborted && ClientHistory(tokens, c)
    requires s.pending.Some? ==> Answerable(tokens, s.pending.value)
    requires s.verified != [] ==> Answerable(tokens, s.verified[0].challenge)
    requires c.answered.Some? ==> Answerable(tokens, c.answered.value.0)
    requires match Take(codec, c.framing.buffer, byte)
      case Line(record) => |c.framing.records| < |s.sent| && record == s.sent[|c.framing.records|]
      case More(_) => true
      case Bad(_, _) => false
    ensures var t := ClientByte(codec, tokens, c, byte, true);
      t.link != Aborted && (t.answered.Some? ==> Answerable(tokens, t.answered.value.0))
  {
    hide ServerHistory, ClientHistory, ClientRecord, FeedByte, Take, Answerable;
    match Take(codec, c.framing.buffer, byte)
    case More(_) =>
    case Line(record) =>
      DueToClient(tokens, c, s, record);
      var t := c.(framing := FeedByte(codec, c.framing, byte));
      if s.pending.Some? && c.phase == AwaitChallenge && record == ChallengeRecord(s.pending.value) {
        ClientTakesDue(tokens, t, record, s.pending.value, true);
      } else {
        ClientTakesDue(tokens, t, record, s.verified[0].challenge, s.verified[0].accepted);
      }
  }

  lemma SmoothServerTakes(codec: Codec, tokens: Tokens, y: System, e: Event)
    requires Setting(codec, tokens) && Undisturbed(codec, tokens, y) && e.ServerTakes? && Enabled(y, e) && Smooth(tokens, e)
    ensures Undisturbed(codec, tokens, Next(codec, tokens, y, e))
  {
    hide Good, Channel, LawfulCodec, RecordsShort, FeedByte, AllShort, AllLawful, EncodeAll, Take, ServerByte, ServerHistory, ClientHistory, Answerable;
    StepKeeps(codec, tokens, y, e);
    SentShort(codec, tokens, y);
    GoodParts(codec, tokens, y);
    SentLawful(codec, tokens, y.client, y.server);
    IntactTake(codec, y.client.sent, y.serverTaken, y.toServer, y.server.framing);
    ServerByteTaken(codec, tokens, y.client, y.server, y.toServer[0], e.nonce);
  }

  lemma SmoothClientTakes(codec: Codec, tokens: Tokens, y: System, e: Event)
    requires Setting(codec, tokens) && Undisturbed(codec, tokens, y) && e.ClientTakes? && Enabled(y, e) && Smooth(tokens, e)
    ensures Undisturbed(codec, tokens, Next(codec, tokens, y, e))
  {
    hide Good, Channel, LawfulCodec, RecordsShort, FeedByte, AllShort, AllLawful, EncodeAll, Take, ClientByte, ServerHistory, ClientHistory, Answerable;
    StepKeeps(codec, tokens, y, e);
    SentShort(codec, tokens, y);
    GoodParts(codec, tokens, y);
    SentLawful(codec, tokens, y.client, y.server);
    IntactTake(codec, y.server.sent, y.clientTaken, y.toClient, y.client.framing);
    ClientByteTaken(codec, tokens, y.client, y.server, y.toClient[0]);
  }

  lemma SmoothStep(codec: Codec, tokens: Tokens, y: System, e: Event)
    requires Setting(codec, tokens) && Undisturbed(codec, tokens, y) && Enabled(y, e) && Smooth(tokens, e)
    ensures Undisturbed(codec, tokens, Next(codec, tokens, y, e))
  {
    match e
    case Connect(_) => StepKeeps(codec, tokens, y, e); hide Good;
    case ServerTakes(_, _) => SmoothServerTakes(codec, tokens, y, e);
    case ClientTakes(_) => SmoothClientTakes(codec, tokens, y, e);
  }

  /** Nothing is left to deliver. */
  ghost predicate Quiet(y: System) {
    y.client.connected && y.toServer == [] && y.toClient == []
  }

  lemma QuietChannel(codec: Codec, sent: seq<Json>, taken: seq<Byte>, framing: Framing)
    requires AllLawful(codec, sent) && AllShort(codec, sent) && Channel(codec, sent, taken, [], framing, false)
    ensures framing.records == sent
  {
    assert taken + [] == taken;
    AllDelivered(codec, START, sent);
    assert [] + sent == sent;
  }

  /** Without failures, everything that can be delivered leads to a result after exactly four records. */
  lemma QuietIsFinished(codec: Codec, tokens: Tokens, y: System)
    requires Setting(codec, tokens) && Undisturbed(codec, tokens, y) && Quiet(y)
    ensures y.client.phase == ClientDone && y.server.phase == ServerDone
    ensures |y.client.sent| == 2 && |y.server.sent| == 2
  {
    SentShort(codec, tokens, y);
    GoodParts(codec, tokens, y);
    SentLawful(codec, tokens, y.client, y.server);
    QuietChannel(codec, y.client.sent, y.serverTaken, y.server.framing);
    QuietChannel(codec, y.server.sent, y.clientTaken, y.client.framing);
    hide Good, Channel, LawfulCodec, RecordsShort, AllShort, AllLawful, IsResult, IsChallenge, IsResponse, IsHello;
  }

  lemma {:induction false} SmoothRun(codec: Codec, tokens: Tokens, run: seq<System>, events: seq<Event>, i: nat)
    requires Setting(codec, tokens) && IsRun(codec, tokens, run, events) && i < |run|
    requires forall j :: 0 <= j < |events| ==> Smooth(tokens, events[j])
    ensures Undisturbed(codec, tokens, run[i])
    ensures i == (if run[i].client.connected then 1 else 0) + |run[i].serverTaken| + |run[i].clientTaken|
  {
    hide Undisturbed, Setting, ServerByte, ClientByte, EncodeAll;
    if i == 0 {
      InitialUndisturbed(codec, tokens);
    } else {
      SmoothRun(codec, tokens, run, events, i - 1);
      assert Enabled(run[i - 1], events[i - 1]) && run[i - 1 + 1] == Next(codec, tokens, run[i - 1], events[i - 1]);
      SmoothStep(codec, tokens, run[i - 1], events[i - 1]);
      Counted(codec, tokens, run[i - 1], events[i - 1]);
    }
  }

  lemma InitialUndisturbed(codec: Codec, tokens: Tokens)
    ensures Undisturbed(codec, tokens, INITIAL)
  {
    GoodFirst(codec, tokens);
  }

  lemma Counted(codec: Codec, tokens: Tokens, y: System, e: Event)
    requires Enabled(y, e) && Smooth(tokens, e)
    ensures var z := Next(codec, tokens, y, e);
      (if z.client.connected then 1 else 0) + |z.serverTaken| + |z.clientTaken|
      == 1 + (if y.client.connected then 1 else 0) + |y.serverTaken| + |y.clientTaken|
  {
    hide ServerByte, EncodeAll, FeedByte, TextField, DataField, FlagField;
  }

  /** No event without a failure can happen any more. */
  ghost predicate Stuck(tokens: Tokens, y: System) {
    forall e: Event :: Enabled(y, e) ==> !Smooth(tokens, e)
  }

  lemma SmoothOnes(tokens: Tokens, nonce: seq<Byte>)
    requires Answerable(tokens, nonce)
    ensures Smooth(tokens, Connect(true)) && Smooth(tokens, ServerTakes(nonce, true)) && Smooth(tokens, ClientTakes(true))
  {}

  /** Whatever is left to be done or delivered can happen. */
  lemma StuckIsQuiet(codec: Codec, tokens: Tokens, y: System, nonce: seq<Byte>)
    requires Undisturbed(codec, tokens, y) && Answerable(tokens, nonce) && Stuck(tokens, y)
    ensures Quiet(y)
  {
    GoodParts(codec, tokens, y);
    hide Good, Channel, ServerHistory, IsChallenge, IsResult, Answerable;
    SmoothOnes(tokens, nonce);
    hide Smooth;
    assert !Enabled(y, Connect(true)) && !Enabled(y, ServerTakes(nonce, true)) && !Enabled(y, ClientTakes(true));
  }

  lemma {:induction false} ShortStream(codec: Codec, records: seq<Json>)
    requires AllShort(codec, records)
    ensures |EncodeAll(codec, records)| <= |records| * (MAX_LINE + 1)
  {
    if records != [] {
      assert Short(codec, records[0]);
      ShortStream(codec, records[1..]);
    }
  }

  const MAX_EVENTS: nat := 1 + 4 * (MAX_LINE + 1)

  lemma TakenIsSent(codec: Codec, sent: seq<Json>, taken: seq<Byte>, way: seq<Byte>, framing: Framing, closed: bool)
    requires Channel(codec, sent, taken, way, framing, closed) && AllShort(codec, sent) && |sent| <= 2
    ensures |taken| <= 2 * (MAX_LINE + 1)
  {
    ShortStream(codec, sent);
    hide EncodeAll, Feed, AllShort;
  }

  lemma TwoRecordsEach(tokens: Tokens, c: Client, s: Server)
    requires ClientHistory(tokens, c) && ServerHistory(tokens, s)
    ensures |c.sent| <= 2 && |s.sent| <= 2
  {
    hide *;
    ClientSentIs(tokens, c);
    ServerSentIs(tokens, s);
  }

  lemma EventLimit()
    ensures MAX_EVENTS == 1 + 4 * (MAX_LINE + 1)
  {}

  lemma TakenIsShort(codec: Codec, tokens: Tokens, y: System)
    requires Setting(codec, tokens) && Undisturbed(codec, tokens, y)
    ensures 1 + |y.serverTaken| + |y.clientTaken| <= MAX_EVENTS
    ensures |y.client.sent| <= 2 && |y.server.sent| <= 2
  {
    hide *;
    EventLimit();
    SentShort(codec, tokens, y);
    UndisturbedParts(codec, tokens, y);
    GoodParts(codec, tokens, y);
    TwoRecordsEach(tokens, y.client, y.server);
    TakenIsSent(codec, y.client.sent, y.serverTaken, y.toServer, y.server.framing, y.client.link == Aborted);
    TakenIsSent(codec, y.server.sent, y.clientTaken, y.toClient, y.client.framing, y.server.link == Aborted);
  }

  /** Four lines of the greatest length, and the connect, bound every run without failures. */
  lemma UndisturbedRunsAreShort(codec: Codec, tokens: Tokens, run: seq<System>, events: seq<Event>)
    requires Setting(codec, tokens) && IsRun(codec, tokens, run, events)
    requires forall j :: 0 <= j < |events| ==> Smooth(tokens, events[j])
    ensures |run| == |events| + 1 && |events| <= MAX_EVENTS
    ensures var last := run[|run| - 1]; |last.client.sent| <= 2 && |last.server.sent| <= 2
  {
    hide *;
    RunSize(codec, tokens, run, events);
    SmoothRun(codec, tokens, run, events, |run| - 1);
    TakenIsShort(codec, tokens, run[|run| - 1]);
  }

  /**
   * A run without failures has a bounded number of events, and when no further one is possible both
   * parties have finished after exactly four records. All that is needed of the cryptography is that some
   * challenge can be answered.
   */
  lemma UndisturbedRunsFinish(codec: Codec, tokens: Tokens, run: seq<System>, events: seq<Event>, nonce: seq<Byte>)
    requires Setting(codec, tokens) && Answerable(tokens, nonce) && IsRun(codec, tokens, run, events)
    requires forall j :: 0 <= j < |events| ==> Smooth(tokens, events[j])
    ensures |events| <= MAX_EVENTS && |run| == |events| + 1
    ensures var last := run[|run| - 1];
      Stuck(tokens, last) ==>
        && last.client.phase == ClientDone && last.server.phase == ServerDone
        && |last.client.sent| == 2 && |last.server.sent| == 2
  {
    hide *;
    UndisturbedRunsAreShort(codec, tokens, run, events);
    var last := run[|run| - 1];
    if Stuck(tokens, last) {
      SmoothRun(codec, tokens, run, events, |run| - 1);
      StuckIsQuiet(codec, tokens, last, nonce);
      QuietIsFinished(codec, tokens, last);
    }
  }

  lemma RunSize(codec: Codec, tokens: Tokens, run: seq<System>, events: seq<Event>)
    requires IsRun(codec, tokens, run, events)
    ensures |run| == |events| + 1
  {}

  lemma NotStuck(tokens: Tokens, y: System) returns (e: Event)
    requires !Stuck(tokens, y)
    ensures Enabled(y, e) && Smooth(tokens, e)
  {
    hide Enabled, Smooth;
    e :| Enabled(y, e) && Smooth(tokens, e);
  }

  lemma LongerRun(codec: Codec, tokens: Tokens, run: seq<System>, events: seq<Event>, e: Event)
    requires IsRun(codec, tokens, run, events) && Enabled(run[|events|], e)
    ensures IsRun(codec, tokens, run + [Next(codec, tokens, run[|events|], e)], events + [e])
  {
    hide Next, Enabled;
  }

  /** Every run without failures can be continued until both parties have finished. */
  lemma {:induction false} CanFinish(codec: Codec, tokens: Tokens, run: seq<System>, events: seq<Event>, nonce: seq<Byte>)
    returns (run': seq<System>, events': seq<Event>)
    requires Setting(codec, tokens) && Answerable(tokens, nonce) && IsRun(codec, tokens, run, events)
    requires forall j :: 0 <= j < |events| ==> Smooth(tokens, events[j])
    ensures IsRun(codec, tokens, run', events') && run <= run' && events <= events'
    ensures forall j :: 0 <= j < |events'| ==> Smooth(tokens, events'[j])
    ensures run'[|run'| - 1].client.phase == ClientDone && run'[|run'| - 1].server.phase == ServerDone
    decreases MAX_EVENTS - |events|
  {
    hide *;
    UndisturbedRunsFinish(codec, tokens, run, events, nonce);
    var last := run[|events|];
    if Stuck(tokens, last) {
      run', events' := run, events;
    } else {
      var e := NotStuck(tokens, last);
      LongerRun(codec, tokens, run, events, e);
      UndisturbedRunsAreShort(codec, tokens, run + [Next(codec, tokens, last, e)], events + [e]);
      run', events' := CanFinish(codec, tokens, run + [Next(codec, tokens, last, e)], events + [e], nonce);
    }
  }
}
