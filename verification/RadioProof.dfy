/** What every reachable state of one connection satisfies. */
module RadioInvariant {
  import opened Bytes
  import opened Buffers
  import opened RadioMessages
  import opened RadioNodes
  import opened RadioLink

  predicate Roles(net: Net) {
    !net.client.isServer && net.server.isServer && net.server.noOfRetries > 0 &&
    0 < net.client.thisAddress < NOT_SET && 0 < net.server.thisAddress < NOT_SET &&
    net.client.targetAddress == net.server.thisAddress &&
    net.client.rawDataBuf == Buffer([], 0) && 0 < net.client.maxMsgLen == net.server.maxMsgLen < BUFFER_SIZE &&
    net.server.rxBuf.capacity > net.server.maxMsgLen &&
    |net.sentByClient| <= MAX_MESSAGES && |net.sentByServer| <= MAX_MESSAGES
  }

  /** A message on its way to the server: an acknowledgement of something the client stored, or one of the
      client's messages that acknowledges nothing or something the client stored. */
  predicate ToServerOk(net: Net, m: Msg) {
    m.addressedTo == net.server.thisAddress && m.receivedFrom == net.client.thisAddress &&
    (m.ackedMsgSeqNo == 0 || m.ackedMsgSeqNo < net.client.inComingSeqNo) &&
    |m.body| <= net.client.maxMsgLen &&
    (m.IsPureAck() ||
     (m.msgSeqNo < |net.sentByClient| && m.body == net.sentByClient[m.msgSeqNo] && m.body != [] &&
      (m.msgSeqNo == 0 ==> m.body[0] != 0)))
  }

  /** A message on its way to the client acknowledges only what the server stored. */
  predicate ToClientOk(net: Net, m: Msg) {
    m.addressedTo == net.client.thisAddress && m.receivedFrom == net.server.thisAddress &&
    m.ackedMsgSeqNo < net.server.inComingSeqNo &&
    |m.body| <= net.client.maxMsgLen &&
    (m.IsPureAck() || (1 <= m.msgSeqNo <= |net.sentByServer| && m.body == net.sentByServer[m.msgSeqNo - 1]))
  }

  /** The numbers of the client's messages never go down along the channel and never fall below lo. */
  predicate Ascending(channel: seq<Msg>, lo: int)
    decreases |channel|
  {
    channel != [] ==>
      (channel[0].IsPureAck() || lo <= channel[0].msgSeqNo) &&
      Ascending(channel[1..], if channel[0].IsPureAck() then lo else channel[0].msgSeqNo)
  }

  predicate ClientOk(net: Net) {
    var c := net.client;
    if c.connectionClosed then
      !c.waitingForAck && net.sentByClient == [] && net.server.connectionClosed && net.toServer == [] &&
      !c.lastMsgSent.IsPureAck() && c.rxBuf.bytes == []
    else
      |net.sentByClient| >= 1 && c.outGoingSeqNo == |net.sentByClient| && 1 <= c.inComingSeqNo &&
      ToServerOk(net, c.lastMsgSent) &&
      (!c.lastMsgSent.IsPureAck() ==> c.lastMsgSent.msgSeqNo == |net.sentByClient| - 1) &&
      (c.waitingForAck ==> !c.lastMsgSent.IsPureAck())
  }

  predicate ServerOk(net: Net) {
    var s := net.server;
    if s.connectionClosed then
      !s.waitingForAck && !s.newConnection && s.targetAddress == NOT_SET && s.inComingSeqNo == 0 &&
      net.sentByServer == [] && net.toClient == [] && s.rxBuf.bytes == [] && net.readByServer == []
    else
      s.targetAddress == net.client.thisAddress && s.outGoingSeqNo == |net.sentByServer| + 1 && 1 <= s.inComingSeqNo &&
      ToClientOk(net, s.lastMsgSent) &&
      (s.waitingForAck ==> !s.lastMsgSent.IsPureAck() && s.lastMsgSent.msgSeqNo == |net.sentByServer|) &&
      (s.inComingSeqNo == 1 && !s.linkTimerRunning ==> |net.sentByClient| == 2)
  }

  /** The last message looked at was stored by now, or it is still the expected one. */
  predicate ReceivedOk(net: Net) {
    (net.client.receivedMsg.msgSeqNo == 0 ||
     (!net.client.connectionClosed &&
      (net.client.receivedMsg.msgSeqNo < net.client.inComingSeqNo || Unstored(net.client)))) &&
    (!net.server.connectionClosed ==>
      net.server.receivedMsg.msgSeqNo < net.server.inComingSeqNo || Unstored(net.server))
  }

  /** The lowest number the server may still meet. Message 1 stops the link timer even when there is no room for it. */
  function Oldest(s: Node): int {
    if s.inComingSeqNo == 1 && !s.linkTimerRunning then 1 else s.inComingSeqNo - 1
  }

  /** Neither side is ahead of what the other has sent, and nobody waits without reason. */
  predicate InStep(net: Net) {
    net.server.inComingSeqNo <= |net.sentByClient| <= net.server.inComingSeqNo + 1 &&
    (!net.client.waitingForAck ==> net.server.inComingSeqNo == |net.sentByClient|) &&
    (!net.client.connectionClosed ==>
      net.client.inComingSeqNo - 1 <= |net.sentByServer| <= net.client.inComingSeqNo &&
      (!net.server.waitingForAck ==> net.client.inComingSeqNo - 1 == |net.sentByServer|))
  }

  predicate ChannelsOk(net: Net) {
    (forall m :: m in net.toServer ==> ToServerOk(net, m)) &&
    (forall m :: m in net.toClient ==> ToClientOk(net, m)) &&
    Ascending(net.toServer, Oldest(net.server))
  }

  /** What the server's application has been given or will be: a marker and the client's messages in order, each once. */
  predicate DeliveredToServer(given: seq<Byte>, closed: bool, sent: seq<seq<Byte>>, expected: nat) {
    expected <= |sent| && given == (if closed then [] else [CONNECTION_MARKER]) + Flatten(sent[..expected])
  }

  /** The client expects 1 first and gets no marker. */
  predicate DeliveredToClient(given: seq<Byte>, closed: bool, sent: seq<seq<Byte>>, expected: nat) {
    if closed then given == [] else 1 <= expected <= |sent| + 1 && given == Flatten(sent[..expected - 1])
  }

  /** The client's messages are what its application wrote, cut up; the rest is waiting. */
  predicate CutUp(written: seq<Byte>, sent: seq<seq<Byte>>, waiting: seq<Byte>) {
    written == Flatten(sent) + waiting && (written != [] ==> written[0] != 0)
  }

  /** The server's messages are what its application wrote, cut up from two buffers; the rest of either is waiting. */
  predicate ServerCutUp(net: Net) {
    |net.fromRaw| == |net.sentByServer| &&
    net.writtenByServer == Pieces(net.sentByServer, net.fromRaw, false) + net.server.txBuf.bytes &&
    net.rawByServer == Pieces(net.sentByServer, net.fromRaw, true) + net.server.rawDataBuf.bytes
  }

  predicate Delivered(net: Net) {
    DeliveredToServer(net.readByServer + net.server.rxBuf.bytes, net.server.connectionClosed, net.sentByClient, net.server.inComingSeqNo) &&
    DeliveredToClient(net.readByClient + net.client.rxBuf.bytes, net.client.connectionClosed, net.sentByServer, net.client.inComingSeqNo) &&
    CutUp(net.writtenByClient, net.sentByClient, net.client.txBuf.bytes) && ServerCutUp(net)
  }

  /** What also holds between the parts of one poll. */
  predicate Core(net: Net) {
    Roles(net) && ClientOk(net) && ServerOk(net) && InStep(net) && ChannelsOk(net) && Delivered(net)
  }

  predicate Inv(net: Net) {
    Core(net) && ReceivedOk(net)
  }

  lemma InitInv(net: Net)
    requires Init(net)
    ensures Inv(net)
  {
  }

  // ---- channels ----

  lemma {:induction false} AscendingWeaken(channel: seq<Msg>, lo: int, lo': int)
    requires Ascending(channel, lo) && lo' <= lo
    ensures Ascending(channel, lo')
    decreases |channel|
  {
    if channel != [] && channel[0].IsPureAck() {
      AscendingWeaken(channel[1..], lo, lo');
    }
  }

  lemma {:induction false} AscendingAppend(channel: seq<Msg>, lo: int, m: Msg)
    requires Ascending(channel, lo)
    requires m.IsPureAck() || (lo <= m.msgSeqNo && forall x :: x in channel && !x.IsPureAck() ==> x.msgSeqNo <= m.msgSeqNo)
    ensures Ascending(channel + [m], lo)
    decreases |channel|
  {
    if channel == [] {
      assert [m][1..] == [];
    } else {
      var rest := channel[1..];
      assert (channel + [m])[1..] == rest + [m];
      assert forall x :: x in rest ==> x in channel;
      AscendingAppend(rest, if channel[0].IsPureAck() then lo else channel[0].msgSeqNo, m);
    }
  }

  /** The parts of the state the messages in flight are judged by only grow. */
  predicate Grows(net: Net, after: Net) {
    after.client.thisAddress == net.client.thisAddress && after.server.thisAddress == net.server.thisAddress &&
    after.client.maxMsgLen == net.client.maxMsgLen &&
    net.client.inComingSeqNo <= after.client.inComingSeqNo && net.server.inComingSeqNo <= after.server.inComingSeqNo &&
    net.sentByClient <= after.sentByClient && net.sentByServer <= after.sentByServer
  }

  lemma OkGrows(net: Net, after: Net, m: Msg)
    requires Grows(net, after)
    ensures ToServerOk(net, m) ==> ToServerOk(after, m)
    ensures ToClientOk(net, m) ==> ToClientOk(after, m)
  {
  }

  /** The client adds at most one message to its channel. */
  lemma ChannelsAfterClient(net: Net, after: Net, sent: seq<Msg>)
    requires ChannelsOk(net) && Grows(net, after) && |sent| <= 1
    requires after.toServer == net.toServer + sent && after.toClient == net.toClient && after.server == net.server
    requires Oldest(net.server) < |after.sentByClient|
    requires sent != [] ==> ToServerOk(after, sent[0]) && (sent[0].IsPureAck() || sent[0].msgSeqNo == |after.sentByClient| - 1)
    ensures ChannelsOk(after)
  {
    forall x ensures ToServerOk(net, x) ==> ToServerOk(after, x) {
      OkGrows(net, after, x);
    }
    forall x ensures ToClientOk(net, x) ==> ToClientOk(after, x) {
      OkGrows(net, after, x);
    }
    if sent != [] {
      assert sent == [sent[0]];
      AscendingAppend(net.toServer, Oldest(net.server), sent[0]);
    } else {
      assert net.toServer + sent == net.toServer;
    }
  }

  // ---- the client ----

  /** An acknowledgement the client acts on means that the server stored every message the client sent. */
  lemma ClientAckSound(net: Net, m: Msg)
    requires Core(net) && ToClientOk(net, m) && net.client.waitingForAck && m.IsAckFor(net.client.lastMsgSent)
    ensures net.server.inComingSeqNo == |net.sentByClient|
  {
  }

  /** Nothing else the client keeps matters to the messages in flight. */
  lemma ClientKeeps(net: Net, after: Net)
    requires Core(net) && !net.client.connectionClosed
    requires after == net.(client := after.client)
    requires after.client == net.client.(receivedMsg := after.client.receivedMsg, waitingForAck := after.client.waitingForAck,
                                         retriesCount := after.client.retriesCount, linkTimerRunning := after.client.linkTimerRunning)
    requires after.client.waitingForAck ==> net.client.waitingForAck
    requires !after.client.waitingForAck && net.client.waitingForAck ==> net.server.inComingSeqNo == |net.sentByClient|
    ensures Core(after)
  {
    hide DeliveredToServer, DeliveredToClient, CutUp, ServerCutUp, Ascending;
    assert net.toServer + [] == net.toServer;
    ChannelsAfterClient(net, after, []);
    OkGrows(net, after, after.client.lastMsgSent);
    OkGrows(net, after, net.server.lastMsgSent);
    hide ChannelsOk, ToServerOk, ToClientOk, Delivered;
    assert Delivered(after) by {
      DeliveredDependsOn(net, after);
    }
  }

  lemma DeliveredDependsOn(net: Net, after: Net)
    requires Delivered(net)
    requires after.sentByClient == net.sentByClient && after.sentByServer == net.sentByServer
    requires after.writtenByClient == net.writtenByClient
    requires after.readByClient == net.readByClient && after.readByServer == net.readByServer
    requires after.client.inComingSeqNo == net.client.inComingSeqNo && after.server.inComingSeqNo == net.server.inComingSeqNo
    requires after.client.connectionClosed == net.client.connectionClosed
    requires after.server.connectionClosed == net.server.connectionClosed
    requires after.client.rxBuf == net.client.rxBuf && after.server.rxBuf == net.server.rxBuf
    requires after.client.txBuf == net.client.txBuf && after.server.txBuf == net.server.txBuf
    requires after.server.rawDataBuf == net.server.rawDataBuf && after.fromRaw == net.fromRaw
    requires after.writtenByServer == net.writtenByServer && after.rawByServer == net.rawByServer
    ensures Delivered(after)
  {
  }

  lemma ClientSeesAck(net: Net, m: Msg)
    requires Core(net) && ToClientOk(net, m) && !net.client.connectionClosed
    ensures Receive(net.client, m) == net.client.(receivedMsg := m)
    ensures Core(net.(client := AckSeen(net.client.(receivedMsg := m))))
  {
    assert m.body[..|m.body|] == m.body;
    if net.client.waitingForAck && m.IsAckFor(net.client.lastMsgSent) {
      ClientAckSound(net, m);
    }
    hide Core;
    ClientKeeps(net, net.(client := AckSeen(net.client.(receivedMsg := m))));
  }

  /** What storing a message of the server changes. */
  predicate StoredAtClient(net: Net, after: Net, sent: seq<Msg>) {
    var c, k := net.client, |net.sentByServer|;
    k == c.inComingSeqNo == c.receivedMsg.msgSeqNo && k >= 1 && !c.connectionClosed && |sent| <= 1 &&
    after == net.(client := after.client, toServer := net.toServer + sent) &&
    after.client == c.(linkTimerRunning := after.client.linkTimerRunning, lastMsgSent := after.client.lastMsgSent,
                       inComingSeqNo := after.client.inComingSeqNo, rxBuf := after.client.rxBuf) &&
    after.client.inComingSeqNo == k + 1 && after.client.rxBuf.bytes == c.rxBuf.bytes + net.sentByServer[k - 1] &&
    after.client.lastMsgSent == (if c.waitingForAck then c.lastMsgSent.(ackedMsgSeqNo := k)
                                 else PureAck(net.server.thisAddress, c.thisAddress, k)) &&
    (sent != [] ==> !c.waitingForAck && sent[0] == after.client.lastMsgSent)
  }

  lemma ClientStoreEffect(net: Net)
    requires Core(net) && !net.client.connectionClosed && ToClientOk(net, net.client.receivedMsg)
    requires NewMsg(net.client) && net.client.rxBuf.Room() >= |net.client.receivedMsg.body|
    ensures var a := Store(net.client);
            StoredAtClient(net, ClientSends(net, a), a.sent)
  {
  }

  lemma ClientStoreDelivers(net: Net, after: Net, sent: seq<Msg>)
    requires Delivered(net) && StoredAtClient(net, after, sent)
    ensures Delivered(after)
  {
    var k := |net.sentByServer|;
    FlattenOneMore(net.sentByServer, k - 1);
    assert net.readByClient + (net.client.rxBuf.bytes + net.sentByServer[k - 1])
        == net.readByClient + net.client.rxBuf.bytes + net.sentByServer[k - 1];
  }

  lemma ClientStoreChannels(net: Net, after: Net, sent: seq<Msg>)
    requires Roles(net) && ChannelsOk(net) && ClientOk(net) && ServerOk(net) && InStep(net) && StoredAtClient(net, after, sent)
    ensures ChannelsOk(after) && ToServerOk(after, after.client.lastMsgSent)
  {
    OkGrows(net, after, net.client.lastMsgSent);
    ChannelsAfterClient(net, after, sent);
  }

  lemma ClientStoreKeeps(net: Net, after: Net, sent: seq<Msg>)
    requires Core(net) && StoredAtClient(net, after, sent)
    ensures Core(after) && after.client.receivedMsg.msgSeqNo < after.client.inComingSeqNo
  {
    hide Delivered, ChannelsOk, ToServerOk, ToClientOk;
    ClientStoreDelivers(net, after, sent);
    ClientStoreChannels(net, after, sent);
    OkGrows(net, after, net.server.lastMsgSent);
  }

  /** A message there is no room for changes nothing but the link timer. */
  lemma StoreWithoutRoom(n: Node)
    requires NewMsg(n) && n.rxBuf.Room() < |n.receivedMsg.body|
    ensures Store(n) == Action(n.(linkTimerRunning := n.linkTimerRunning && !(n.inComingSeqNo == 1 && n.receivedMsg.msgSeqNo == 1)), [])
  {
  }

  lemma ClientLeaves(net: Net)
    requires Core(net) && !net.client.connectionClosed && NewMsg(net.client)
    requires net.client.rxBuf.Room() < |net.client.receivedMsg.body|
    ensures var a := Store(net.client);
            Core(ClientSends(net, a)) && Unstored(a.node) && !a.node.connectionClosed &&
            a == Action(net.client.(linkTimerRunning := a.node.linkTimerRunning), [])
  {
    StoreWithoutRoom(net.client);
    hide Store, Core;
    var a := Store(net.client);
    assert net.toServer + [] == net.toServer;
    ClientKeeps(net, ClientSends(net, a));
  }

  lemma FlattenOneMore(payloads: seq<seq<Byte>>, n: nat)
    requires n < |payloads|
    ensures Flatten(payloads[..n + 1]) == Flatten(payloads[..n]) + payloads[n]
  {
    assert payloads[..n + 1][..n] == payloads[..n];
  }

  /** Sending the last message again, acknowledgement or not, is harmless. */
  lemma ClientResends(net: Net, retries: nat)
    requires Core(net) && !net.client.connectionClosed
    ensures var c := net.client;
            Core(net.(client := c.(retriesCount := retries), toServer := net.toServer + [c.lastMsgSent]))
    ensures Transmit(net.client.lastMsgSent) == [net.client.lastMsgSent]
  {
    var c := net.client;
    var after := net.(client := c.(retriesCount := retries), toServer := net.toServer + [c.lastMsgSent]);
    OkGrows(net, after, c.lastMsgSent);
    OkGrows(net, after, net.server.lastMsgSent);
    ChannelsAfterClient(net, after, [c.lastMsgSent]);
    DeliveredDependsOn(net, after);
    hide Delivered, ChannelsOk, ToClientOk;
  }

  lemma ClientDelivers(net: Net, m: Msg)
    requires Inv(net) && ToClientOk(net, m) && !net.client.connectionClosed
    ensures var a := Deliver(Receive(net.client, m));
            var after := ClientSends(net, a);
            Inv(after) && after.sentByClient == net.sentByClient &&
            after.client.retriesCount <= net.client.retriesCount && after.client.noOfRetries == net.client.noOfRetries &&
            !after.client.connectionClosed && after == net.(client := after.client, toServer := after.toServer)
  {
    ClientSeesAck(net, m);
    var c := AckSeen(net.client.(receivedMsg := m));
    var seen := net.(client := c);
    OkGrows(net, seen, m);
    var a := Deliver(Receive(net.client, m));
    assert a == if m.IsPureAck() then Action(c, []) else if NewMsg(c) then Store(c)
                else Action(c, if PreviousMsg(c) then Transmit(c.lastMsgSent) else []);
    ClientCases(seen, a);
    assert ClientSends(net, a) == ClientSends(seen, a);
  }

  /** What is no new message has the number of an earlier one. */
  lemma NotNew(seen: Net)
    requires Core(seen) && !seen.client.connectionClosed && ToClientOk(seen, seen.client.receivedMsg)
    ensures seen.client.receivedMsg.IsPureAck() || !NewMsg(seen.client) ==>
              seen.client.receivedMsg.msgSeqNo == 0 || seen.client.receivedMsg.msgSeqNo < seen.client.inComingSeqNo
  {
  }

  lemma SentBefore(seen: Net)
    requires Core(seen) && !seen.client.connectionClosed
    ensures Observed(seen.sentByClient, 0, [seen.client.lastMsgSent]) == seen.sentByClient
  {
  }

  lemma ClientCases(seen: Net, a: Action)
    requires Core(seen) && !seen.client.connectionClosed && ToClientOk(seen, seen.client.receivedMsg)
    requires var c := seen.client;
             a == if c.receivedMsg.IsPureAck() then Action(c, []) else if NewMsg(c) then Store(c)
                  else Action(c, if PreviousMsg(c) then Transmit(c.lastMsgSent) else [])
    ensures var after := ClientSends(seen, a);
            Core(after) && after.sentByClient == seen.sentByClient &&
            (after.client.receivedMsg.msgSeqNo == 0 || after.client.receivedMsg.msgSeqNo < after.client.inComingSeqNo ||
             Unstored(after.client)) &&
            after.client.retriesCount == seen.client.retriesCount && after.client.noOfRetries == seen.client.noOfRetries &&
            !after.client.connectionClosed
  {
    var c := seen.client;
    NotNew(seen);
    hide Core, ToClientOk, Store, Transmit, Unstored, NewMsg, PreviousMsg;
    if !c.receivedMsg.IsPureAck() && NewMsg(c) && c.rxBuf.Room() < |c.receivedMsg.body| {
      ClientLeaves(seen);
    } else if !c.receivedMsg.IsPureAck() && NewMsg(c) {
      ClientStoreEffect(seen);
      ClientStoreKeeps(seen, ClientSends(seen, a), a.sent);
    } else if !c.receivedMsg.IsPureAck() && PreviousMsg(c) {
      ClientResends(seen, c.retriesCount);
      assert seen.client.(retriesCount := c.retriesCount) == seen.client;
      SentBefore(seen);
    } else {
      assert seen.toServer + [] == seen.toServer;
      assert ClientSends(seen, a) == seen;
    }
  }

  /** What the client's next message changes; a first message opens the connection. */
  predicate SentByClient(net: Net, after: Net, p: Msg) {
    var c, n := net.client, |net.sentByClient|;
    !c.waitingForAck && (c.connectionClosed ==> c.inComingSeqNo == 1) && n < MAX_MESSAGES &&
    p.msgSeqNo == n && p.addressedTo == net.server.thisAddress && p.receivedFrom == c.thisAddress &&
    p.ackedMsgSeqNo < c.inComingSeqNo && 0 < |p.body| <= c.maxMsgLen &&
    p.body + after.client.txBuf.bytes == c.txBuf.bytes &&
    after == net.(client := after.client, toServer := net.toServer + [p], sentByClient := net.sentByClient + [p.body]) &&
    after.client == c.(waitingForAck := true, retriesCount := 0, lastMsgSent := p, outGoingSeqNo := n + 1,
                       connectionClosed := false, txBuf := after.client.txBuf)
  }

  /** While the connection is closed the numbers are of no interest. */
  lemma ClientConnects(net: Net)
    requires Inv(net) && net.client.connectionClosed
    ensures Inv(net.(client := net.client.(inComingSeqNo := 1, outGoingSeqNo := 0, retriesCount := 0)))
  {
  }

  lemma SplitAt(bytes: seq<Byte>, max: nat)
    requires bytes != [] && max > 0
    ensures var len := Least(|bytes|, max);
            0 < |bytes[..len]| <= max && bytes[..len] + bytes[len..] == bytes
  {
  }

  /** The message SendNext makes and what it leaves, once the connection is open. */
  lemma SendNextShape(n: Node, delayPassed: bool)
    requires ReadyToSend(n, delayPassed) && !(n.isServer && n.connectionClosed) && n.targetAddress != NOT_SET && n.maxMsgLen > 0
    ensures var a, open := SendNext(n, delayPassed), CheckIfNeedToConnect(n);
            var p, raw := a.node.lastMsgSent, open.rawDataBuf.bytes != [];
            a.sent == [p] && 0 < |p.body| <= n.maxMsgLen &&
            p == Msg(open.targetAddress, open.thisAddress, open.outGoingSeqNo,
                     if open.lastMsgSent.IsPureAck() then open.receivedMsg.msgSeqNo else 0, p.body) &&
            a.node == open.(waitingForAck := true, retriesCount := 0, lastMsgSent := p,
                            outGoingSeqNo := NextOutGoing(open.outGoingSeqNo),
                            rawDataBuf := a.node.rawDataBuf, txBuf := a.node.txBuf) &&
            (raw ==> a.node.txBuf == open.txBuf && p.body + a.node.rawDataBuf.bytes == open.rawDataBuf.bytes) &&
            (!raw ==> a.node.rawDataBuf == open.rawDataBuf && p.body + a.node.txBuf.bytes == open.txBuf.bytes)
  {
    SplitAt(if n.rawDataBuf.bytes != [] then n.rawDataBuf.bytes else n.txBuf.bytes, n.maxMsgLen);
  }

  lemma ClientSendEffect(net: Net, delayPassed: bool)
    requires Core(net) && ReceivedOk(net) && ReadyToSend(net.client, delayPassed) && |net.sentByClient| < MAX_MESSAGES
    requires net.client.connectionClosed ==> net.client.inComingSeqNo == 1 && net.client.outGoingSeqNo == 0 && net.client.retriesCount == 0
    requires !(Unstored(net.client) && net.client.lastMsgSent.IsPureAck())
    ensures var a := SendNext(net.client, delayPassed);
            |a.sent| == 1 && SentByClient(net, ClientSends(net, a), a.sent[0])
  {
    SendNextShape(net.client, delayPassed);
    hide SendNext;
    var a := SendNext(net.client, delayPassed);
    var p := a.sent[0];
    assert net.writtenByClient == Flatten(net.sentByClient) + net.client.txBuf.bytes;
    if net.client.connectionClosed {
      assert p.body[0] == (p.body + a.node.txBuf.bytes)[0] == net.client.txBuf.bytes[0] == net.writtenByClient[0];
    }
    assert !p.IsPureAck();
  }

  lemma ClientSendDelivers(net: Net, after: Net, p: Msg)
    requires Core(net) && SentByClient(net, after, p)
    ensures Delivered(after)
  {
    var n := net.server.inComingSeqNo;
    assert after.sentByClient[..n] == net.sentByClient[..n];
    FlattenOneMore(after.sentByClient, |net.sentByClient|);
    assert after.sentByClient[..|net.sentByClient|] == net.sentByClient && after.sentByClient[..|after.sentByClient|] == after.sentByClient;
    assert Flatten(net.sentByClient) + (p.body + after.client.txBuf.bytes) == Flatten(net.sentByClient) + p.body + after.client.txBuf.bytes;
    assert net.sentByServer[..0] == [];
  }

  lemma ClientSendOk(net: Net, after: Net, p: Msg)
    requires Core(net) && SentByClient(net, after, p)
    ensures ToServerOk(after, p) && !p.IsPureAck()
  {
    if net.sentByClient == [] {
      assert p.body[0] == (p.body + after.client.txBuf.bytes)[0] == net.client.txBuf.bytes[0] == net.writtenByClient[0];
    }
  }

  lemma ClientSendChannels(net: Net, after: Net, p: Msg)
    requires Core(net) && SentByClient(net, after, p)
    ensures ChannelsOk(after) && (ToClientOk(net, net.server.lastMsgSent) ==> ToClientOk(after, after.server.lastMsgSent))
  {
    hide Delivered, ChannelsOk, ToServerOk, ToClientOk;
    ClientSendOk(net, after, p);
    ChannelsAfterClient(net, after, [p]);
    OkGrows(net, after, net.server.lastMsgSent);
  }

  lemma ClientSendKeeps(net: Net, after: Net, p: Msg)
    requires Core(net) && SentByClient(net, after, p)
    requires Delivered(after) && ChannelsOk(after) && ToServerOk(after, p) && !p.IsPureAck()
    requires ToClientOk(net, net.server.lastMsgSent) ==> ToClientOk(after, after.server.lastMsgSent)
    ensures Core(after)
  {
    hide Delivered, ChannelsOk, ToServerOk, ToClientOk;
  }

  /** Once the connection is open, or about to be. */
  lemma ClientSendsReady(net: Net, delayPassed: bool)
    requires Inv(net) && |net.sentByClient| < MAX_MESSAGES && ReadyToSend(net.client, delayPassed)
    requires net.client.connectionClosed ==> net.client.inComingSeqNo == 1 && net.client.outGoingSeqNo == 0 && net.client.retriesCount == 0
    requires !(Unstored(net.client) && net.client.lastMsgSent.IsPureAck())
    ensures Inv(ClientSends(net, SendNext(net.client, delayPassed)))
  {
    hide SendNext, ReadyToSend, ClientOk, ServerOk, Roles, InStep, ChannelsOk, Delivered, ToServerOk, ToClientOk;
    var a := SendNext(net.client, delayPassed);
    var after := ClientSends(net, a);
    ClientSendEffect(net, delayPassed);
    ClientSendDelivers(net, after, a.sent[0]);
    ClientSendOk(net, after, a.sent[0]);
    ClientSendChannels(net, after, a.sent[0]);
    ClientSendKeeps(net, after, a.sent[0]);
    hide Core;
  }

  lemma ClientSendsNext(net: Net, delayPassed: bool)
    requires Inv(net) && |net.sentByClient| < MAX_MESSAGES && ReadyToSend(net.client, delayPassed)
    requires !(Unstored(net.client) && net.client.lastMsgSent.IsPureAck())
    ensures Inv(ClientSends(net, SendNext(net.client, delayPassed)))
  {
    hide ServerOk, ChannelsOk, Delivered, ToServerOk, ToClientOk;
    var c := net.client;
    var ready := if c.connectionClosed then net.(client := c.(inComingSeqNo := 1, outGoingSeqNo := 0, retriesCount := 0)) else net;
    if c.connectionClosed {
      ClientConnects(net);
    }
    var a := SendNext(ready.client, delayPassed);
    assert a == SendNext(c, delayPassed) && ClientSends(net, a) == ClientSends(ready, a);
    hide SendNext;
    ClientSendsReady(ready, delayPassed);
  }

  /** The message that is sent next is numbered after all the others. */
  lemma ClientNumbersNext(net: Net, delayPassed: bool)
    requires Inv(net) && ReadyToSend(net.client, delayPassed)
    ensures |ClientSends(net, SendNext(net.client, delayPassed)).sentByClient| == |net.sentByClient| + 1
  {
    SendNextShape(net.client, delayPassed);
    var p := SendNext(net.client, delayPassed).sent[0];
    if net.client.connectionClosed {
      assert net.writtenByClient == Flatten([]) + net.client.txBuf.bytes;
      assert p.body[0] == net.client.txBuf.bytes[0];
    }
  }

  lemma ClientTimesOutOrSends(net: Net, i: PollInput)
    requires Inv(net) && !FalselyAcks(net.client, i.(packet := None))
    requires |ClientSends(net, TimeOutOrSend(net.client, i)).sentByClient| <= MAX_MESSAGES
    requires i.ackTimedOut ==> net.client.retriesCount < net.client.noOfRetries || !net.client.waitingForAck
    ensures Inv(ClientSends(net, TimeOutOrSend(net.client, i)))
  {
    var c := net.client;
    var a := TimeOutOrSend(c, i);
    assert net.toServer + [] == net.toServer;
    if c.waitingForAck && !i.transmitting && i.ackTimedOut {
      ClientResends(net, c.retriesCount + 1);
      assert Observed(net.sentByClient, 0, a.sent) == net.sentByClient;
      hide Core;
    } else if !c.waitingForAck && !i.transmitting && ReadyToSend(c, i.writeDelayPassed) {
      ClientNumbersNext(net, i.writeDelayPassed);
      ClientSendsNext(net, i.writeDelayPassed);
    } else {
      assert ClientSends(net, a) == net;
    }
  }

  /** Two batches of messages are observed like one, when the first holds no new message. */
  lemma ObservedTwice(known: seq<seq<Byte>>, base: nat, first: seq<Msg>, second: seq<Msg>)
    requires Observed(known, base, first) == known
    ensures Observed(known, base, first + second) == Observed(known, base, second)
  {
    if second == [] {
      assert first + second == first;
    } else {
      assert (first + second)[|first + second| - 1] == second[|second| - 1];
    }
  }

  /** A poll without timer expiry delivers, then times out or sends. */
  lemma PollParts(n: Node, i: PollInput)
    requires n.thisAddress != NOT_SET && !i.linkExpired
    ensures var first := if i.packet.Some? then Deliver(Receive(n, i.packet.value)) else Action(n, []);
            var second := TimeOutOrSend(first.node, i);
            Poll(n, i) == Action(second.node, first.sent + second.sent)
  {
    hide Deliver, TimeOutOrSend, Receive;
    assert n.(linkTimerRunning := n.linkTimerRunning) == n;
  }

  lemma ClientChannelShorter(net: Net, after: Net)
    requires ChannelsOk(net) && net.toClient != [] && after == net.(toClient := net.toClient[1..])
    ensures ChannelsOk(after) && ToClientOk(net, net.toClient[0])
  {
    assert net.toClient[0] in net.toClient;
    forall m | m in after.toClient ensures ToClientOk(after, m) {
      assert m in net.toClient;
      OkGrows(net, after, m);
    }
    forall m | m in after.toServer ensures ToServerOk(after, m) {
      OkGrows(net, after, m);
    }
  }

  lemma ClientChannelDropped(net: Net)
    requires Inv(net) && net.toClient != []
    ensures Inv(net.(toClient := net.toClient[1..]))
    ensures ToClientOk(net, net.toClient[0]) && !net.client.connectionClosed
  {
    hide Delivered, ToServerOk, ToClientOk, Ascending;
    var after := net.(toClient := net.toClient[1..]);
    ClientChannelShorter(net, after);
    OkGrows(net, after, net.client.lastMsgSent);
    OkGrows(net, after, net.server.lastMsgSent);
    DeliveredDependsOn(net, after);
    hide ChannelsOk;
  }

  lemma ClientPollKeeps(net: Net, ev: Event)
    requires Inv(net) && ev.ClientPoll? && Allowed(net, ev)
    ensures Inv(Step(net, ev))
  {
    var i := Input(ev, net.toClient);
    PollParts(net.client, i);
    if ev.arrives {
      ClientPollArrives(net, net.toClient[0], i);
    } else {
      ClientTimesOutOrSends(net, i);
      hide Core, TimeOutOrSend, Observed, Poll;
      var b := TimeOutOrSend(net.client, i);
      assert [] + b.sent == b.sent;
    }
  }

  lemma ClientSendsTwice(net: Net, a: Action, b: Action)
    requires ClientSends(net, a).sentByClient == net.sentByClient
    ensures ClientSends(ClientSends(net, a), b) == ClientSends(net, Action(b.node, a.sent + b.sent))
  {
    ObservedTwice(net.sentByClient, 0, a.sent, b.sent);
    assert net.toServer + (a.sent + b.sent) == net.toServer + a.sent + b.sent;
  }

  lemma SeeingAckCommutes(n: Node)
    ensures var seen := AckSeen(n);
            CheckForNewConnection(seen)
            == CheckForNewConnection(n).(waitingForAck := seen.waitingForAck, retriesCount := seen.retriesCount)
  {
  }

  /** Storing leaves a message unstored exactly if there is no room for it. */
  lemma StoreUnstored(n: Node)
    requires NewMsg(n)
    ensures var after := Store(n).node;
            if n.rxBuf.Room() < |n.receivedMsg.body| then Store(n) == Action(n.(linkTimerRunning := after.linkTimerRunning), [])
            else !NewMsg(after) && after.rxBuf.bytes == n.rxBuf.bytes + n.receivedMsg.body
  {
  }

  /** What a node is like when it comes to the question whether a message is new. */
  lemma DeliverParts(n: Node, m: Msg)
    ensures var c, r := CheckForNewConnection(AckSeen(Receive(n, m))), CheckForNewConnection(Receive(n, m));
            c == r.(waitingForAck := KeepsWaiting(n, Some(m)), retriesCount := c.retriesCount) &&
            (c.waitingForAck ==> c.retriesCount == n.retriesCount) && r.receivedMsg == Receive(n, m).receivedMsg &&
            r.lastMsgSent == n.lastMsgSent && r.txBuf == n.txBuf && r.rawDataBuf == n.rawDataBuf &&
            r.maxMsgLen == n.maxMsgLen && r.noOfRetries == n.noOfRetries
  {
    SeeingAckCommutes(Receive(n, m));
  }

  /** Looking at what arrives leaves a message unstored exactly when it can be told to beforehand, and sends nothing then. */
  lemma DeliverUnstored(n: Node, m: Msg)
    ensures var a, r := Deliver(Receive(n, m)), CheckForNewConnection(Receive(n, m));
            Unstored(a.node) == LeavesUnstored(n, Some(m)) && a.node.receivedMsg == Receive(n, m).receivedMsg &&
            a.node.txBuf == n.txBuf && a.node.rawDataBuf == n.rawDataBuf && a.node.maxMsgLen == n.maxMsgLen &&
            (Unstored(a.node) ==>
              a == Action(r.(waitingForAck := KeepsWaiting(n, Some(m)), retriesCount := a.node.retriesCount,
                             linkTimerRunning := a.node.linkTimerRunning), []) &&
              (a.node.waitingForAck ==> a.node.retriesCount == n.retriesCount))
  {
    DeliverParts(n, m);
    hide CheckForNewConnection;
    var c := CheckForNewConnection(AckSeen(Receive(n, m)));
    if NewMsg(c) {
      StoreUnstored(c);
    }
  }

  /** Whether a poll acknowledges falsely can be seen before it looks at what arrives and afterwards. */
  lemma FalselyAcksLater(n: Node, m: Msg, i: PollInput)
    requires i.packet == Some(m)
    ensures FalselyAcks(n, i) <==> FalselyAcks(Deliver(Receive(n, m)).node, i.(packet := None))
  {
    hide Deliver, CheckForNewConnection, Unstored;
    DeliverUnstored(n, m);
    DeliverParts(n, m);
  }

  lemma ClientPollArrives(net: Net, m: Msg, i: PollInput)
    requires Inv(net) && net.toClient != [] && m == net.toClient[0] && i.packet == Some(m)
    requires i.ackTimedOut ==> net.client.retriesCount < net.client.noOfRetries
    requires !FalselyAcks(net.client, i)
    requires var a := Deliver(Receive(net.client, m));
             var b := TimeOutOrSend(a.node, i);
             |ClientSends(net.(toClient := net.toClient[1..]), Action(b.node, a.sent + b.sent)).sentByClient| <= MAX_MESSAGES
    ensures var a := Deliver(Receive(net.client, m));
            var b := TimeOutOrSend(a.node, i);
            Inv(ClientSends(net.(toClient := net.toClient[1..]), Action(b.node, a.sent + b.sent)))
  {
    FalselyAcksLater(net.client, m, i);
    hide Inv, ToClientOk, ToServerOk, Deliver, TimeOutOrSend, Observed, Receive, FalselyAcks;
    var rest := net.(toClient := net.toClient[1..]);
    ClientChannelDropped(net);
    assert ToClientOk(rest, m) by {
      OkGrows(net, rest, m);
    }
    ClientDelivers(rest, m);
    var a := Deliver(Receive(net.client, m));
    var mid := ClientSends(rest, a);
    ClientSendsTwice(rest, a, TimeOutOrSend(mid.client, i));
    ClientTimesOutOrSends(mid, i);
  }
}

/** The server's side of the same argument. */
module RadioServerProof {
  import opened Bytes
  import opened Buffers
  import opened RadioMessages
  import opened RadioNodes
  import opened RadioLink
  import opened RadioInvariant

  /** The server adds at most one message to its channel. */
  lemma ChannelsAfterServer(net: Net, after: Net, sent: seq<Msg>)
    requires ChannelsOk(net) && Grows(net, after) && |sent| <= 1
    requires after.toClient == net.toClient + sent && after.toServer == net.toServer
    requires Ascending(net.toServer, Oldest(after.server))
    requires sent != [] ==> ToClientOk(after, sent[0])
    ensures ChannelsOk(after)
  {
    forall x ensures ToServerOk(net, x) ==> ToServerOk(after, x) {
      OkGrows(net, after, x);
    }
    forall x ensures ToClientOk(net, x) ==> ToClientOk(after, x) {
      OkGrows(net, after, x);
    }
  }

  /** An acknowledgement the server acts on means that the client stored every message the server sent. */
  lemma ServerAckSound(net: Net, m: Msg)
    requires Core(net) && ToServerOk(net, m) && net.server.waitingForAck && m.IsAckFor(net.server.lastMsgSent)
    ensures net.client.inComingSeqNo - 1 == |net.sentByServer|
  {
  }

  lemma ServerKeeps(net: Net, after: Net)
    requires Core(net)
    requires after == net.(server := after.server, rawByServer := after.rawByServer) && ServerCutUp(after)
    requires after.server == net.server.(receivedMsg := after.server.receivedMsg, waitingForAck := after.server.waitingForAck,
                                         retriesCount := after.server.retriesCount, rawDataBuf := after.server.rawDataBuf,
                                         txBuf := after.server.txBuf)
    requires after.server.waitingForAck ==> net.server.waitingForAck
    requires after.server.waitingForAck || !net.server.waitingForAck || net.client.inComingSeqNo - 1 == |net.sentByServer|
    ensures Core(after)
  {
    hide ToServerOk, ToClientOk, Delivered, Ascending;
    OkGrows(net, after, net.client.lastMsgSent);
    OkGrows(net, after, net.server.lastMsgSent);
    assert ChannelsOk(after) by {
      assert net.toClient + [] == net.toClient;
      ChannelsAfterServer(net, after, []);
    }
    assert Delivered(after) by {
      DeliveredSaveCut(net, after);
    }
    hide ChannelsOk;
  }

  lemma DeliveredSaveCut(net: Net, after: Net)
    requires Delivered(net) && ServerCutUp(after)
    requires after.sentByClient == net.sentByClient && after.sentByServer == net.sentByServer
    requires after.writtenByClient == net.writtenByClient
    requires after.readByClient == net.readByClient && after.readByServer == net.readByServer && after.client == net.client
    requires after.server.inComingSeqNo == net.server.inComingSeqNo && after.server.connectionClosed == net.server.connectionClosed
    requires after.server.rxBuf == net.server.rxBuf
    ensures Delivered(after)
  {
  }

  lemma ServerSeesAck(net: Net, m: Msg)
    requires Core(net) && ToServerOk(net, m)
    ensures Receive(net.server, m) == net.server.(receivedMsg := m)
    ensures Core(net.(server := AckSeen(net.server.(receivedMsg := m))))
  {
    assert m.body[..|m.body|] == m.body;
    if net.server.waitingForAck && m.IsAckFor(net.server.lastMsgSent) {
      ServerAckSound(net, m);
    }
    assert ServerCutUp(net.(server := AckSeen(net.server.(receivedMsg := m))));
    hide Core;
    ServerKeeps(net, net.(server := AckSeen(net.server.(receivedMsg := m))));
  }

  /** What storing a message of the client changes on an open connection. */
  predicate StoredAtServer(net: Net, after: Net, sent: seq<Msg>) {
    var s, k := net.server, net.server.inComingSeqNo;
    !s.connectionClosed && k == s.receivedMsg.msgSeqNo && k < |net.sentByClient| && |sent| <= 1 &&
    after == net.(server := after.server, toClient := net.toClient + sent) &&
    after.server == s.(linkTimerRunning := after.server.linkTimerRunning, lastMsgSent := after.server.lastMsgSent,
                       inComingSeqNo := after.server.inComingSeqNo, rxBuf := after.server.rxBuf) &&
    after.server.inComingSeqNo == k + 1 && after.server.rxBuf == Buffer(s.rxBuf.bytes + net.sentByClient[k], s.rxBuf.capacity) &&
    after.server.lastMsgSent == (if s.waitingForAck then s.lastMsgSent.(ackedMsgSeqNo := k)
                                 else PureAck(net.client.thisAddress, s.thisAddress, k)) &&
    (sent != [] ==> !s.waitingForAck && sent[0] == after.server.lastMsgSent)
  }

  lemma ServerStoreEffect(net: Net)
    requires Core(net) && !net.server.connectionClosed && ToServerOk(net, net.server.receivedMsg)
    requires NewMsg(net.server) && net.server.rxBuf.Room() >= |net.server.receivedMsg.body|
    ensures var a := Store(net.server);
            StoredAtServer(net, ServerSends(net, a), a.sent)
  {
  }

  lemma ServerStoreDelivers(net: Net, after: Net, sent: seq<Msg>)
    requires Delivered(net) && StoredAtServer(net, after, sent)
    ensures Delivered(after)
  {
    var k := net.server.inComingSeqNo;
    FlattenOneMore(net.sentByClient, k);
    var p := net.sentByClient[k];
    assert net.readByServer + (net.server.rxBuf.bytes + p) == net.readByServer + net.server.rxBuf.bytes + p;
    assert [CONNECTION_MARKER] + Flatten(net.sentByClient[..k]) + p == [CONNECTION_MARKER] + (Flatten(net.sentByClient[..k]) + p);
  }

  lemma ServerStoreChannels(net: Net, after: Net, sent: seq<Msg>)
    requires Roles(net) && ChannelsOk(net) && ServerOk(net) && StoredAtServer(net, after, sent)
    requires Ascending(net.toServer, net.server.inComingSeqNo)
    ensures ChannelsOk(after) && ToClientOk(after, after.server.lastMsgSent)
  {
    OkGrows(net, after, net.server.lastMsgSent);
    ChannelsAfterServer(net, after, sent);
  }

  lemma ServerStoreKeeps(net: Net, after: Net, sent: seq<Msg>)
    requires Core(net) && StoredAtServer(net, after, sent)
    requires Ascending(net.toServer, net.server.inComingSeqNo)
    ensures Core(after) && after.server.receivedMsg.msgSeqNo < after.server.inComingSeqNo
  {
    ServerStoreDelivers(net, after, sent);
    ServerStoreChannels(net, after, sent);
    OkGrows(net, after, net.client.lastMsgSent);
    hide Delivered, ChannelsOk, ToServerOk, ToClientOk;
  }

  /** What accepting the connection and storing its first message changes. */
  predicate AcceptedAtServer(net: Net, after: Net, sent: seq<Msg>) {
    var s := net.server;
    s.connectionClosed && s.receivedMsg.msgSeqNo == 0 && |net.sentByClient| == 1 && |sent| == 1 &&
    after == net.(server := after.server, toClient := net.toClient + sent) &&
    after.server == s.(rxBuf := after.server.rxBuf, newConnection := true, targetAddress := net.client.thisAddress,
                       connectionClosed := false, outGoingSeqNo := 1, inComingSeqNo := 1, linkTimerRunning := true,
                       lastMsgSent := sent[0]) &&
    after.server.rxBuf == Buffer(s.rxBuf.bytes + [CONNECTION_MARKER] + net.sentByClient[0], s.rxBuf.capacity) &&
    sent[0] == PureAck(net.client.thisAddress, s.thisAddress, 0)
  }

  lemma ServerAcceptEffect(net: Net)
    requires Core(net) && net.server.connectionClosed && ToServerOk(net, net.server.receivedMsg)
    requires !net.server.receivedMsg.IsPureAck()
    ensures var n := CheckForNewConnection(net.server);
            NewMsg(n) && AcceptedAtServer(net, ServerSends(net, Store(n)), Store(n).sent)
  {
    var s := net.server;
    assert s.receivedMsg.msgSeqNo == 0 && AcceptsConnection(s);
    var n := CheckForNewConnection(s);
    assert s.rxBuf.bytes == [] && |s.receivedMsg.body| <= net.client.maxMsgLen;
    assert n.rxBuf.bytes == s.rxBuf.bytes + [CONNECTION_MARKER] && n.rxBuf.Room() >= |s.receivedMsg.body|;
  }

  lemma ServerAcceptKeeps(net: Net, after: Net, sent: seq<Msg>)
    requires Core(net) && AcceptedAtServer(net, after, sent) && !net.client.connectionClosed
    requires Ascending(net.toServer, 0)
    ensures Core(after) && after.server.receivedMsg.msgSeqNo < after.server.inComingSeqNo
  {
    assert ToClientOk(after, sent[0]);
    ChannelsAfterServer(net, after, sent);
    OkGrows(net, after, net.client.lastMsgSent);
    assert Delivered(after) by {
      FlattenOneMore(net.sentByClient, 0);
      assert net.sentByClient[..0] == [];
      assert Flatten([]) + net.sentByClient[0] == net.sentByClient[0];
      assert [] + ([] + [CONNECTION_MARKER] + net.sentByClient[0]) == [CONNECTION_MARKER] + net.sentByClient[0];
    }
    hide Delivered, ChannelsOk, ToServerOk, ToClientOk;
  }

  lemma ServerTimerKeeps(net: Net, running: bool)
    requires Core(net) && !net.server.connectionClosed
    requires net.server.inComingSeqNo == 1 && !running ==> |net.sentByClient| == 2 && Ascending(net.toServer, 1)
    requires Ascending(net.toServer, net.server.inComingSeqNo - 1)
    ensures Core(net.(server := net.server.(linkTimerRunning := running)))
  {
    hide DeliveredToServer, DeliveredToClient, CutUp, ServerCutUp, Ascending;
    var after := net.(server := net.server.(linkTimerRunning := running));
    OkGrows(net, after, net.client.lastMsgSent);
    OkGrows(net, after, net.server.lastMsgSent);
    assert net.toClient + [] == net.toClient;
    ChannelsAfterServer(net, after, []);
    DeliveredDependsOn(net, after);
    hide Delivered, ChannelsOk, ToServerOk, ToClientOk;
  }

  /** A message there is no room for. */
  lemma ServerLeaves(net: Net)
    requires Core(net) && !net.server.connectionClosed && NewMsg(net.server) && ToServerOk(net, net.server.receivedMsg)
    requires net.server.rxBuf.Room() < |net.server.receivedMsg.body| && Ascending(net.toServer, net.server.receivedMsg.msgSeqNo)
    ensures var a := Store(net.server);
            var after := ServerSends(net, a);
            Core(after) && Unstored(after.server) && a == Action(net.server.(linkTimerRunning := a.node.linkTimerRunning), []) &&
            after == net.(server := a.node)
  {
    StoreWithoutRoom(net.server);
    hide Store, Delivered, ChannelsOk, ToClientOk, Ascending;
    var a := Store(net.server);
    AscendingWeaken(net.toServer, net.server.receivedMsg.msgSeqNo, net.server.inComingSeqNo - 1);
    ServerTimerKeeps(net, a.node.linkTimerRunning);
    assert net.toClient + [] == net.toClient;
    assert ServerSends(net, a) == net.(server := a.node);
    hide Core;
  }

  lemma ServerResends(net: Net, retries: nat)
    requires Core(net) && !net.server.connectionClosed
    ensures var s := net.server;
            Core(net.(server := s.(retriesCount := retries), toClient := net.toClient + [s.lastMsgSent]))
    ensures Transmit(net.server.lastMsgSent) == [net.server.lastMsgSent]
  {
    var s := net.server;
    var after := net.(server := s.(retriesCount := retries), toClient := net.toClient + [s.lastMsgSent]);
    OkGrows(net, after, s.lastMsgSent);
    OkGrows(net, after, net.client.lastMsgSent);
    ChannelsAfterServer(net, after, [s.lastMsgSent]);
    DeliveredDependsOn(net, after);
    hide Delivered, ChannelsOk, ToServerOk;
  }

  /** What Deliver does with a message that is not a pure acknowledgement, on an open connection. */
  lemma ServerOpenCases(seen: Net, a: Action)
    requires Core(seen) && !seen.server.connectionClosed && ToServerOk(seen, seen.server.receivedMsg)
    requires !seen.server.receivedMsg.IsPureAck() && Oldest(seen.server) <= seen.server.receivedMsg.msgSeqNo
    requires Ascending(seen.toServer, seen.server.receivedMsg.msgSeqNo)
    requires var s := CheckForNewConnection(seen.server);
             a == if NewMsg(s) then Store(s) else Action(s, if PreviousMsg(s) then Transmit(s.lastMsgSent) else [])
    ensures var after := ServerSends(seen, a);
            Core(after) && after.sentByServer == seen.sentByServer &&
            (after.server.receivedMsg.msgSeqNo < after.server.inComingSeqNo || Unstored(after.server)) && !after.server.connectionClosed &&
            after.server.retriesCount == seen.server.retriesCount && after.server.noOfRetries == seen.server.noOfRetries &&
            after.server.rawDataBuf == seen.server.rawDataBuf &&
            after == seen.(server := after.server, toClient := after.toClient)
  {
    var s := seen.server;
    assert !AcceptsConnection(s) && CheckForNewConnection(s) == s;
    if NewMsg(s) && s.rxBuf.Room() < |s.receivedMsg.body| {
      ServerLeaves(seen);
    } else if NewMsg(s) {
      ServerStoreEffect(seen);
      ServerStoreKeeps(seen, ServerSends(seen, a), a.sent);
    } else {
      assert PreviousMsg(s);
      ServerResends(seen, s.retriesCount);
      assert s.(retriesCount := s.retriesCount) == s;
      assert Observed(seen.sentByServer, 1, a.sent) == seen.sentByServer;
    }
  }

  lemma ServerClosedCases(seen: Net, a: Action)
    requires Core(seen) && seen.server.connectionClosed && ToServerOk(seen, seen.server.receivedMsg)
    requires !seen.server.receivedMsg.IsPureAck()
    requires Ascending(seen.toServer, seen.server.receivedMsg.msgSeqNo) && !seen.client.connectionClosed
    requires var s := CheckForNewConnection(seen.server);
             a == if NewMsg(s) then Store(s) else Action(s, if PreviousMsg(s) then Transmit(s.lastMsgSent) else [])
    ensures var after := ServerSends(seen, a);
            Core(after) && after.sentByServer == seen.sentByServer &&
            after.server.receivedMsg.msgSeqNo < after.server.inComingSeqNo && !after.server.connectionClosed &&
            after.server.retriesCount == seen.server.retriesCount && after.server.noOfRetries == seen.server.noOfRetries &&
            after.server.rawDataBuf == seen.server.rawDataBuf &&
            after == seen.(server := after.server, toClient := after.toClient)
  {
    ServerAcceptEffect(seen);
    AscendingWeaken(seen.toServer, seen.server.receivedMsg.msgSeqNo, 0);
    ServerAcceptKeeps(seen, ServerSends(seen, a), a.sent);
  }

  lemma ServerSendsSame(net: Net, seen: Net, a: Action)
    requires seen == net.(server := seen.server) && seen.server.rawDataBuf == net.server.rawDataBuf
    ensures ServerSends(net, a) == ServerSends(seen, a)
  {
  }

  /** Delivering the message taken from the head of the channel. */
  lemma ServerDelivers(net: Net, m: Msg)
    requires Inv(net) && ToServerOk(net, m) && !net.client.connectionClosed
    requires m.IsPureAck() || (Oldest(net.server) <= m.msgSeqNo && Ascending(net.toServer, m.msgSeqNo))
    ensures var a := Deliver(Receive(net.server, m));
            var after := ServerSends(net, a);
            Inv(after) && after.sentByServer == net.sentByServer && a.node.rawDataBuf == net.server.rawDataBuf &&
            after.server.retriesCount <= net.server.retriesCount && after.server.noOfRetries == net.server.noOfRetries
  {
    hide Delivered, ChannelsOk, ToServerOk, ToClientOk;
    ServerSeesAck(net, m);
    var s := AckSeen(net.server.(receivedMsg := m));
    var seen := net.(server := s);
    OkGrows(net, seen, m);
    var a := Deliver(Receive(net.server, m));
    ServerSendsSame(net, seen, a);
    if m.IsPureAck() {
      assert seen.toClient + [] == seen.toClient;
      assert ServerSends(seen, a) == seen;
    } else {
      hide Core, ToServerOk, ToClientOk, Store, CheckForNewConnection, NewMsg, PreviousMsg, Transmit, Observed;
      if s.connectionClosed {
        ServerClosedCases(seen, a);
      } else {
        ServerOpenCases(seen, a);
      }
    }
  }

  predicate SentByServer(net: Net, after: Net, p: Msg) {
    var s, n := net.server, |net.sentByServer|;
    !s.waitingForAck && !s.connectionClosed && n < MAX_MESSAGES &&
    p.msgSeqNo == n + 1 && p.addressedTo == net.client.thisAddress && p.receivedFrom == s.thisAddress &&
    p.ackedMsgSeqNo < s.inComingSeqNo && |p.body| <= s.maxMsgLen &&
    after == net.(server := after.server, toClient := net.toClient + [p], sentByServer := net.sentByServer + [p.body],
                  fromRaw := after.fromRaw) && ServerCutUp(after) &&
    after.server == s.(waitingForAck := true, retriesCount := 0, lastMsgSent := p, outGoingSeqNo := n + 2,
                       txBuf := after.server.txBuf, rawDataBuf := after.server.rawDataBuf)
  }

  lemma PiecesOneMore(payloads: seq<seq<Byte>>, fromRaw: seq<bool>, p: seq<Byte>, flag: bool, raw: bool)
    requires |payloads| == |fromRaw|
    ensures Pieces(payloads + [p], fromRaw + [flag], raw) == Pieces(payloads, fromRaw, raw) + (if flag == raw then p else [])
  {
    assert (payloads + [p])[..|payloads|] == payloads && (fromRaw + [flag])[..|fromRaw|] == fromRaw;
  }

  /** A new message takes a piece off the front of one of the two buffers. */
  lemma ServerSendCuts(net: Net, after: Net, p: Msg)
    requires ServerCutUp(net) && after.sentByServer == net.sentByServer + [p.body] && p.body != []
    requires after.writtenByServer == net.writtenByServer && after.rawByServer == net.rawByServer
    requires var s, t, raw := net.server, after.server, net.server.rawDataBuf.bytes != [];
             (raw ==> t.txBuf == s.txBuf && p.body + t.rawDataBuf.bytes == s.rawDataBuf.bytes) &&
             (!raw ==> t.rawDataBuf == s.rawDataBuf && p.body + t.txBuf.bytes == s.txBuf.bytes) &&
             after.fromRaw == net.fromRaw + [raw]
    ensures ServerCutUp(after)
  {
    var s, t, raw := net.server, after.server, net.server.rawDataBuf.bytes != [];
    PiecesOneMore(net.sentByServer, net.fromRaw, p.body, raw, false);
    PiecesOneMore(net.sentByServer, net.fromRaw, p.body, raw, true);
    hide Pieces;
    var written, data := Pieces(net.sentByServer, net.fromRaw, false), Pieces(net.sentByServer, net.fromRaw, true);
    if raw {
      assert data + (p.body + t.rawDataBuf.bytes) == data + p.body + t.rawDataBuf.bytes;
      assert written + [] == written;
    } else {
      assert written + (p.body + t.txBuf.bytes) == written + p.body + t.txBuf.bytes;
      assert data + [] == data;
    }
  }

  /** What the server's next message is, and what is observed of it. */
  lemma ServerSendShape(net: Net, delayPassed: bool)
    requires Inv(net) && !net.server.connectionClosed && ReadyToSend(net.server, delayPassed)
    ensures var a, s, raw := SendNext(net.server, delayPassed), net.server, net.server.rawDataBuf.bytes != [];
            var after, p := ServerSends(net, a), a.node.lastMsgSent;
            a.sent == [p] && 0 < |p.body| <= s.maxMsgLen && p.msgSeqNo == |net.sentByServer| + 1 &&
            p == Msg(net.client.thisAddress, s.thisAddress, p.msgSeqNo,
                     if s.lastMsgSent.IsPureAck() then s.receivedMsg.msgSeqNo else 0, p.body) &&
            after == net.(server := a.node, toClient := net.toClient + [p], sentByServer := net.sentByServer + [p.body],
                          fromRaw := net.fromRaw + [raw]) &&
            (raw ==> a.node.txBuf == s.txBuf && p.body + a.node.rawDataBuf.bytes == s.rawDataBuf.bytes) &&
            (!raw ==> a.node.rawDataBuf == s.rawDataBuf && p.body + a.node.txBuf.bytes == s.txBuf.bytes)
  {
    SendNextShape(net.server, delayPassed);
    hide SendNext, ServerCutUp, Delivered, ChannelsOk, ReceivedOk, InStep, ToClientOk;
    var a := SendNext(net.server, delayPassed);
    var p, raw := a.sent[0], net.server.rawDataBuf.bytes != [];
    assert raw ==> |p.body + a.node.rawDataBuf.bytes| == |net.server.rawDataBuf.bytes|;
  }

  lemma ServerSendEffect(net: Net, delayPassed: bool)
    requires Inv(net) && !net.server.connectionClosed && ReadyToSend(net.server, delayPassed) && |net.sentByServer| < MAX_MESSAGES
    requires !(Unstored(net.server) && net.server.lastMsgSent.IsPureAck())
    ensures var a := SendNext(net.server, delayPassed);
            |a.sent| == 1 && SentByServer(net, ServerSends(net, a), a.sent[0])
  {
    ServerSendShape(net, delayPassed);
    SendNextShape(net.server, delayPassed);
    hide SendNext, ServerSends, ServerCutUp, ChannelsOk, DeliveredToServer, DeliveredToClient, CutUp, ToClientOk;
    var a := SendNext(net.server, delayPassed);
    ServerSendCuts(net, ServerSends(net, a), a.sent[0]);
  }

  lemma ServerSendKeeps(net: Net, after: Net, p: Msg)
    requires Core(net) && SentByServer(net, after, p)
    ensures Core(after)
  {
    assert ToClientOk(after, p);
    ChannelsAfterServer(net, after, [p]);
    OkGrows(net, after, net.client.lastMsgSent);
    assert Delivered(after) by {
      hide ServerCutUp;
      if !net.client.connectionClosed {
        assert after.sentByServer[..net.client.inComingSeqNo - 1] == net.sentByServer[..net.client.inComingSeqNo - 1];
      }
    }
    hide Delivered, ChannelsOk, ToServerOk, ToClientOk;
  }

  lemma ServerSendsNext(net: Net, delayPassed: bool)
    requires Inv(net) && !net.server.connectionClosed && |net.sentByServer| < MAX_MESSAGES && ReadyToSend(net.server, delayPassed)
    requires !(Unstored(net.server) && net.server.lastMsgSent.IsPureAck())
    ensures Inv(ServerSends(net, SendNext(net.server, delayPassed)))
  {
    var a := SendNext(net.server, delayPassed);
    ServerSendEffect(net, delayPassed);
    ServerSendKeeps(net, ServerSends(net, a), a.sent[0]);
    hide Core, SendNext;
  }

  lemma ServerNumbersNext(net: Net, delayPassed: bool)
    requires Inv(net) && !net.server.connectionClosed && ReadyToSend(net.server, delayPassed)
    ensures |ServerSends(net, SendNext(net.server, delayPassed)).sentByServer| == |net.sentByServer| + 1
  {
    hide SendNext, ServerSends;
    ServerSendShape(net, delayPassed);
  }

  /** A server without a connection throws its raw data away. */
  lemma ClosedServerKeeps(net: Net)
    requires Inv(net) && net.server.connectionClosed
    ensures Inv(ServerSends(net, Action(net.server.(rawDataBuf := net.server.rawDataBuf.Cleared()), [])))
  {
    var after := ServerSends(net, Action(net.server.(rawDataBuf := net.server.rawDataBuf.Cleared()), []));
    assert net.toClient + [] == net.toClient;
    assert net.sentByServer == [];
    ServerKeeps(net, after);
    hide Core;
  }

  lemma ServerTimesOutOrSends(net: Net, i: PollInput)
    requires Inv(net) && !FalselyAcks(net.server, i.(packet := None))
    requires |ServerSends(net, TimeOutOrSend(net.server, i)).sentByServer| <= MAX_MESSAGES
    requires i.ackTimedOut ==> net.server.retriesCount < net.server.noOfRetries || !net.server.waitingForAck
    ensures Inv(ServerSends(net, TimeOutOrSend(net.server, i)))
  {
    hide ServerCutUp, DeliveredToServer, DeliveredToClient, CutUp, ChannelsOk;
    var s := net.server;
    var a := TimeOutOrSend(s, i);
    assert net.toClient + [] == net.toClient;
    if s.waitingForAck && !i.transmitting && i.ackTimedOut {
      ServerResends(net, s.retriesCount + 1);
      assert Observed(net.sentByServer, 1, a.sent) == net.sentByServer;
      hide Core;
    } else if !s.waitingForAck && !i.transmitting && s.connectionClosed {
      ClosedServerKeeps(net);
    } else if !s.waitingForAck && !i.transmitting && ReadyToSend(s, i.writeDelayPassed) {
      ServerNumbersNext(net, i.writeDelayPassed);
      ServerSendsNext(net, i.writeDelayPassed);
    } else {
      assert ServerSends(net, a) == net;
    }
  }

  lemma ServerChannelShorter(net: Net, after: Net)
    requires ChannelsOk(net) && net.toServer != [] && after == net.(toServer := net.toServer[1..])
    ensures ChannelsOk(after)
    ensures var m := net.toServer[0];
            ToServerOk(net, m) &&
            (m.IsPureAck() || (Oldest(net.server) <= m.msgSeqNo && Ascending(after.toServer, m.msgSeqNo)))
  {
    var m := net.toServer[0];
    assert m in net.toServer;
    forall x | x in after.toServer ensures ToServerOk(after, x) {
      assert x in net.toServer;
      OkGrows(net, after, x);
    }
    forall x | x in after.toClient ensures ToClientOk(after, x) {
      OkGrows(net, after, x);
    }
    if !m.IsPureAck() {
      AscendingWeaken(after.toServer, m.msgSeqNo, Oldest(net.server));
    }
  }

  lemma ServerChannelDropped(net: Net)
    requires Inv(net) && net.toServer != []
    ensures Inv(net.(toServer := net.toServer[1..])) && !net.client.connectionClosed
  {
    hide Delivered, ToServerOk, ToClientOk, Ascending;
    var after := net.(toServer := net.toServer[1..]);
    ServerChannelShorter(net, after);
    OkGrows(net, after, net.client.lastMsgSent);
    OkGrows(net, after, net.server.lastMsgSent);
    DeliveredDependsOn(net, after);
    hide ChannelsOk;
  }

  lemma ServerSendsTwice(net: Net, a: Action, b: Action)
    requires ServerSends(net, a).sentByServer == net.sentByServer && a.node.rawDataBuf == net.server.rawDataBuf
    ensures ServerSends(ServerSends(net, a), b) == ServerSends(net, Action(b.node, a.sent + b.sent))
  {
    ObservedTwice(net.sentByServer, 1, a.sent, b.sent);
    assert net.toClient + (a.sent + b.sent) == net.toClient + a.sent + b.sent;
  }

  lemma ServerPollArrives(net: Net, m: Msg, i: PollInput)
    requires Inv(net) && net.toServer != [] && m == net.toServer[0] && i.packet == Some(m)
    requires i.ackTimedOut ==> net.server.retriesCount < net.server.noOfRetries
    requires !FalselyAcks(net.server, i)
    requires var a := Deliver(Receive(net.server, m));
             var b := TimeOutOrSend(a.node, i);
             |ServerSends(net.(toServer := net.toServer[1..]), Action(b.node, a.sent + b.sent)).sentByServer| <= MAX_MESSAGES
    ensures var a := Deliver(Receive(net.server, m));
            var b := TimeOutOrSend(a.node, i);
            Inv(ServerSends(net.(toServer := net.toServer[1..]), Action(b.node, a.sent + b.sent)))
  {
    FalselyAcksLater(net.server, m, i);
    hide ToClientOk, ToServerOk, Deliver, TimeOutOrSend, Observed, Receive, Ascending, FalselyAcks;
    var rest := net.(toServer := net.toServer[1..]);
    ServerChannelShorter(net, rest);
    hide Inv;
    ServerChannelDropped(net);
    assert ToServerOk(rest, m) by {
      OkGrows(net, rest, m);
    }
    ServerDelivers(rest, m);
    var a := Deliver(Receive(net.server, m));
    var mid := ServerSends(rest, a);
    ServerSendsTwice(rest, a, TimeOutOrSend(mid.server, i));
    ServerTimesOutOrSends(mid, i);
  }

  lemma ServerPollKeeps(net: Net, ev: Event)
    requires Inv(net) && ev.ServerPoll? && Allowed(net, ev)
    ensures Inv(Step(net, ev))
  {
    var i := Input(ev, net.toServer);
    PollParts(net.server, i);
    if ev.arrives {
      ServerPollArrives(net, net.toServer[0], i);
    } else {
      ServerTimesOutOrSends(net, i);
      hide Core, TimeOutOrSend, Observed, Poll;
      var b := TimeOutOrSend(net.server, i);
      assert [] + b.sent == b.sent;
    }
  }
}
