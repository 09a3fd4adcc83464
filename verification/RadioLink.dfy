/** One connection between a client node and a server node over two lossy first-in first-out channels. */
module RadioLink {
  import opened Bytes
  import opened Buffers
  import opened RadioMessages
  import opened RadioNodes

  /** The most messages either side may number in one connection. */
  const MAX_MESSAGES: nat := 254

  /** The nodes, the messages in flight, and what the two applications have seen so far: every message put on the air
      for the first time, whether it was taken from the server's raw data, the bytes written and the bytes read.
      What a side has written is what its buffers accepted, but for the bytes they threw away unsent. */
  datatype Net = Net(
    client: Node, server: Node,
    toServer: seq<Msg>, toClient: seq<Msg>,
    sentByClient: seq<seq<Byte>>, sentByServer: seq<seq<Byte>>, fromRaw: seq<bool>,
    writtenByClient: seq<Byte>, writtenByServer: seq<Byte>, rawByServer: seq<Byte>,
    readByClient: seq<Byte>, readByServer: seq<Byte>)

  datatype Event =
    | ClientPoll(arrives: bool, transmitting: bool, ackTimedOut: bool, writeDelayPassed: bool)
    | ServerPoll(arrives: bool, transmitting: bool, ackTimedOut: bool, writeDelayPassed: bool)
    | LoseToServer
    | LoseToClient
    | ClientWrites(b: Byte)
    | ServerWrites(b: Byte)
    | ServerWritesRaw(b: Byte)
    | ClientReads
    | ServerReads
    | ServerTakesConnection

  /** The channels and what has been observed on them after a poll has sent some messages:
      a message that carries the next number for the first time is new. */
  function Observed(known: seq<seq<Byte>>, base: nat, sent: seq<Msg>): seq<seq<Byte>> {
    if sent != [] && !sent[|sent| - 1].IsPureAck() && sent[|sent| - 1].msgSeqNo == base + |known|
    then known + [sent[|sent| - 1].body] else known
  }

  /** All but the last n bytes. */
  function Without(bytes: seq<Byte>, n: int): seq<Byte> {
    if 0 < n <= |bytes| then bytes[..|bytes| - n] else bytes
  }

  function ClientSends(net: Net, a: Action): Net {
    net.(client := a.node, toServer := net.toServer + a.sent, sentByClient := Observed(net.sentByClient, 0, a.sent))
  }

  /** Raw data that leaves the buffer is in a new message or has been thrown away. */
  function ServerSends(net: Net, a: Action): Net {
    var sent, raw := Observed(net.sentByServer, 1, a.sent), |net.server.rawDataBuf.bytes| - |a.node.rawDataBuf.bytes|;
    net.(server := a.node, toClient := net.toClient + a.sent, sentByServer := sent,
         fromRaw := if |sent| > |net.sentByServer| then net.fromRaw + [raw > 0] else net.fromRaw,
         rawByServer := if |sent| > |net.sentByServer| then net.rawByServer else Without(net.rawByServer, raw))
  }

  function Input(ev: Event, channel: seq<Msg>): PollInput
    requires ev.ClientPoll? || ev.ServerPoll?
    requires ev.arrives ==> channel != []
  {
    PollInput(if ev.arrives then Some(channel[0]) else None, false, ev.transmitting, ev.ackTimedOut, ev.writeDelayPassed)
  }

  /** What can happen: a message arrives or is lost only if one is in flight. */
  predicate Possible(net: Net, ev: Event) {
    match ev
    case ClientPoll(arrives, _, _, _) => arrives ==> net.toClient != []
    case ServerPoll(arrives, _, _, _) => arrives ==> net.toServer != []
    case LoseToServer => net.toServer != []
    case LoseToClient => net.toClient != []
    case ServerTakesConnection => net.server.newConnection
    case _ => true
  }

  function Taken(b: Buffer): Buffer {
    if b.bytes == [] then b else Buffer(b.bytes[1..], b.capacity)
  }

  function ClientPolls(net: Net, ev: Event): Net
    requires ev.ClientPoll? && Possible(net, ev)
  {
    var a := Poll(net.client, Input(ev, net.toClient));
    ClientSends(net.(toClient := if ev.arrives then net.toClient[1..] else net.toClient), a)
  }

  function ServerPolls(net: Net, ev: Event): Net
    requires ev.ServerPoll? && Possible(net, ev)
  {
    var a := Poll(net.server, Input(ev, net.toServer));
    ServerSends(net.(toServer := if ev.arrives then net.toServer[1..] else net.toServer), a)
  }

  function Step(net: Net, ev: Event): Net
    requires Possible(net, ev)
  {
    match ev
    case ClientPoll(_, _, _, _) => ClientPolls(net, ev)
    case ServerPoll(_, _, _, _) => ServerPolls(net, ev)
    case LoseToServer => net.(toServer := net.toServer[1..])
    case LoseToClient => net.(toClient := net.toClient[1..])
    case ClientWrites(b) =>
      var tx := net.client.txBuf.Put(b);
      net.(client := net.client.(txBuf := tx),
           writtenByClient := if tx == net.client.txBuf then net.writtenByClient else net.writtenByClient + [b])
    case ServerWrites(b) =>
      var tx := net.server.txBuf.Put(b);
      net.(server := net.server.(txBuf := tx),
           writtenByServer := if tx == net.server.txBuf then net.writtenByServer else net.writtenByServer + [b])
    case ServerWritesRaw(b) =>
      var raw := net.server.rawDataBuf.Put(b);
      net.(server := net.server.(rawDataBuf := raw),
           rawByServer := if raw == net.server.rawDataBuf then net.rawByServer else net.rawByServer + [b])
    case ClientReads =>
      var rx := net.client.rxBuf;
      net.(client := net.client.(rxBuf := Taken(rx)), readByClient := net.readByClient + rx.bytes[..|rx.bytes| - |Taken(rx).bytes|])
    case ServerReads =>
      var rx := net.server.rxBuf;
      net.(server := net.server.(rxBuf := Taken(rx)), readByServer := net.readByServer + rx.bytes[..|rx.bytes| - |Taken(rx).bytes|])
    case ServerTakesConnection =>
      net.(server := CloseCurrentConnection(net.server),
           writtenByServer := Without(net.writtenByServer, |net.server.txBuf.bytes|),
           rawByServer := Without(net.rawByServer, |net.server.rawDataBuf.bytes|))
  }

  /** What the guarantee is stated for, but for the condition on acknowledgements: no node gives up or numbers too many
      messages, and the first byte the client writes is not null. The link timer does not expire: Input says so. */
  predicate WithinLimits(net: Net, ev: Event) {
    Possible(net, ev) &&
    match ev
    case ClientPoll(_, _, ackTimedOut, _) =>
      (ackTimedOut ==> net.client.retriesCount < net.client.noOfRetries) && |ClientPolls(net, ev).sentByClient| <= MAX_MESSAGES
    case ServerPoll(_, _, ackTimedOut, _) =>
      (ackTimedOut ==> net.server.retriesCount < net.server.noOfRetries) && |ServerPolls(net, ev).sentByServer| <= MAX_MESSAGES
    case ClientWrites(b) => net.writtenByClient == [] ==> b != 0
    case _ => true
  }

  /** Whether the event is a poll that acknowledges a message which is not stored. */
  predicate AcksUnstored(net: Net, ev: Event)
    requires Possible(net, ev)
  {
    if ev.ClientPoll? then FalselyAcks(net.client, Input(ev, net.toClient))
    else ev.ServerPoll? && FalselyAcks(net.server, Input(ev, net.toServer))
  }

  predicate Allowed(net: Net, ev: Event) {
    WithinLimits(net, ev) && !AcksUnstored(net, ev)
  }

  predicate Fresh(n: Node) {
    n.connectionClosed && !n.waitingForAck && !n.newConnection && n.receivedMsg.msgSeqNo == 0 && n.lastMsgSent.body == [] &&
    n.txBuf.bytes == [] && n.rxBuf.bytes == [] && n.rawDataBuf.bytes == []
  }

  /** A client that has not sent anything, a listening server, nothing in flight. */
  predicate Init(net: Net) {
    Fresh(net.client) && Fresh(net.server) &&
    !net.client.isServer && net.server.isServer && net.server.noOfRetries > 0 &&
    0 < net.client.thisAddress < NOT_SET && 0 < net.server.thisAddress < NOT_SET &&
    net.client.targetAddress == net.server.thisAddress && net.server.targetAddress == NOT_SET &&
    net.server.outGoingSeqNo == 1 && net.server.inComingSeqNo == 0 &&
    net.client.rawDataBuf == Buffer([], 0) && 0 < net.client.maxMsgLen == net.server.maxMsgLen < BUFFER_SIZE &&
    net.server.rxBuf.capacity > net.server.maxMsgLen &&
    net.toServer == [] && net.toClient == [] && net.sentByClient == [] && net.sentByServer == [] && net.fromRaw == [] &&
    net.writtenByClient == [] && net.writtenByServer == [] && net.rawByServer == [] && net.readByClient == [] && net.readByServer == []
  }

  predicate AllowedRun(net: Net, events: seq<Event>)
    decreases |events|
  {
    events != [] ==> Allowed(net, events[0]) && AllowedRun(Step(net, events[0]), events[1..])
  }

  function Run(net: Net, events: seq<Event>): Net
    requires AllowedRun(net, events)
    decreases |events|
  {
    if events == [] then net else Run(Step(net, events[0]), events[1..])
  }

  function Flatten(payloads: seq<seq<Byte>>): seq<Byte> {
    if payloads == [] then [] else Flatten(payloads[..|payloads| - 1]) + payloads[|payloads| - 1]
  }

  /** The bytes of the messages that were, or were not, taken from raw data. */
  function Pieces(payloads: seq<seq<Byte>>, fromRaw: seq<bool>, raw: bool): seq<Byte>
    requires |payloads| == |fromRaw|
  {
    if payloads == [] then []
    else
      var last := |payloads| - 1;
      Pieces(payloads[..last], fromRaw[..last], raw) + (if fromRaw[last] == raw then payloads[last] else [])
  }

  /** A string that consists of the bytes of two others, each in order. */
  predicate Interleaves(s: seq<Byte>, a: seq<Byte>, b: seq<Byte>) {
    if s == [] then a == [] && b == []
    else
      var front, last := s[..|s| - 1], s[|s| - 1];
      (a != [] && a[|a| - 1] == last && Interleaves(front, a[..|a| - 1], b)) ||
      (b != [] && b[|b| - 1] == last && Interleaves(front, a, b[..|b| - 1]))
  }
}
