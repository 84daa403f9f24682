/**
 * esp/src/mqtt/mqtt.c: the client with its calls, its callbacks, its timer and its task. Each
 * method is one step of ClientModel, or the sequence of steps Receive spells out.
 */
module MqttClient {
  import opened Bytes
  import opened Options
  import opened Proto
  import opened Queue
  import opened MqttMsg
  import opened MqttParse
  import opened ClientModel
  import opened Receive

  class Client {
    const msgQueue: MsgQueue
    const connection: Connection    // its buffer is out_buffer
    const inBuffer: array<byte>
    const info: ConnectInfo
    var connState: ConnState
    var hasCon: bool                // pCon != NULL
    var up: bool                    // the callbacks of the current connection may come
    var timerOn: bool
    var pendingMsgType: int
    var pendingMsgId: word
    var keepAliveTick: nat
    var reconnectTick: nat
    var sendTimeout: nat
    ghost var log: seq<LinkEvent>
    ghost var queued: seq<seq<byte>>
    ghost var sent: seq<seq<byte>>
    ghost var delivered: seq<(Option<seq<byte>>, seq<byte>)>

    /** The parts are there and do not overlap. */
    ghost predicate Shape()
      reads this, msgQueue.rb, connection
    {
      && msgQueue.Valid() && connection.Valid()
      && 5 <= inBuffer.Length == connection.buffer.Length
      && msgQueue.rb.buf != connection.buffer && msgQueue.rb.buf != inBuffer && connection.buffer != inBuffer
    }

    ghost function Cfg(): Config
      reads this, msgQueue.rb
    {
      Config(msgQueue.rb.buf.Length, inBuffer.Length, info)
    }

    ghost function State(): (v: View)
      reads this, msgQueue.rb, msgQueue.rb.buf, connection
      requires Shape()
      ensures Sized(Cfg(), v)
    {
      View(connState, hasCon, up, timerOn, pendingMsgType, keepAliveTick, reconnectTick, sendTimeout,
           msgQueue.Contents(), log, queued, sent, delivered)
    }

    /** A CONNECT that cannot be printed has left no first byte in out_buffer. */
    ghost predicate NoStaleConnect()
      reads connection.buffer
      requires connection.buffer.Length > 0
    {
      !ConnectFits(info, inBuffer.Length) ==> connection.buffer[0] / 16 != CONNECT
    }

    /** What was sent was accepted, in order and once, and CONNECT came first on every link. */
    ghost predicate Valid()
      reads this, msgQueue.rb, msgQueue.rb.buf, connection, connection.buffer
    {
      Shape() && Orderly(Cfg(), State()) && Polite(Cfg(), State()) && NoStaleConnect()
    }

    /** MQTT_InitConnection and MQTT_InitClient. */
    constructor (queueSize: nat, bufSize: nat, info: ConnectInfo)
      requires 2 <= queueSize < 0x8000 && 5 <= bufSize <= MAX_BUFFER
      ensures Valid() && State() == Initial() && Cfg() == Config(queueSize, bufSize, info)
    {
      msgQueue := new MsgQueue.Init(queueSize);
      var outBuffer := new byte[bufSize](_ => 0);
      connection := new Connection(outBuffer);
      inBuffer := new byte[bufSize](_ => 0);
      this.info := info;
      connState, hasCon, up, timerOn := WifiInit, false, false, false;
      pendingMsgType, pendingMsgId := 0, 0;
      keepAliveTick, reconnectTick, sendTimeout := 0, 0, 0;
      log, queued, sent, delivered := [], [], [], [];
      new;
      InitialGood(Cfg());
    }

    // ----- queueing a packet -----

    /** The retry loop of the four calls that queue a packet. */
    method QueueOrDrop(packet: seq<byte>, garbage: bool) returns (ok: bool)
      requires Valid() && |packet| <= inBuffer.Length
      modifies this`queued, msgQueue.rb`fillCnt, msgQueue.rb`readPos, msgQueue.rb`writePos, msgQueue.rb.buf
      ensures Valid() && State() == Next(Cfg(), old(State()), Enqueue(packet))
      ensures queued == if ok then old(queued) + [packet] else old(queued)
    {
      hide Frame, Retry, IsFrame, Orderly, Polite;
      FrameIsFrame(packet);
      ok := msgQueue.PutsOrDrop(packet, inBuffer.Length, garbage);
      if ok {
        queued := queued + [packet];
      }
      NextKeeps(Cfg(), old(State()), Enqueue(packet));
    }

    /** One QUEUE_Puts, its failure ignored. */
    method QueueOnce(packet: seq<byte>)
      requires Valid() && |packet| <= inBuffer.Length
      modifies this`queued, msgQueue.rb`fillCnt, msgQueue.rb`writePos, msgQueue.rb.buf
      ensures Valid() && State() == Next(Cfg(), old(State()), Respond(packet))
    {
      hide Frame, Orderly, Polite;
      var rc := msgQueue.Puts(packet);
      if rc != -1 {
        queued := queued + [packet];
      }
      NextKeeps(Cfg(), old(State()), Respond(packet));
    }

    method Publish(topic: seq<byte>, payload: seq<byte>, qos: int, retain: int, garbage: bool) returns (ok: bool)
      requires Valid()
      modifies this`queued, this`pendingMsgId, connection, connection.buffer
      modifies msgQueue.rb`fillCnt, msgQueue.rb`readPos, msgQueue.rb`writePos, msgQueue.rb.buf
      ensures Valid()
      ensures var fits := topic != [] && 3 + 2 + |topic| + (if qos > 0 then 2 else 0) + |payload| <= inBuffer.Length;
              if fits then
                var packet := PublishPacket(topic, payload, 0, qos, retain, pendingMsgId);
                && State() == Next(Cfg(), old(State()), Enqueue(packet))
                && queued == if ok then old(queued) + [packet] else old(queued)
              else !ok && State() == old(State())
    {
      hide Orderly, Polite, Next, MsgQueue.Contents, MsgQueue.Valid, Connection.Valid;
      pendingMsgId := connection.Publish(topic, payload, qos, retain, pendingMsgId);
      assert State() == old(State());
      if connection.length == 0 {
        return false;
      }
      ok := QueueOrDrop(connection.buffer[connection.start..connection.start + connection.length], garbage);
    }

    /** A subscription that does not fit its buffer is queued all the same, as an empty packet. */
    method Subscribe(topic: seq<byte>, qos: byte, garbage: bool) returns (ok: bool)
      requires Valid()
      modifies this`queued, this`pendingMsgId, connection, connection.buffer
      modifies msgQueue.rb`fillCnt, msgQueue.rb`readPos, msgQueue.rb`writePos, msgQueue.rb.buf
      ensures Valid()
      ensures var fits := topic != [] && 8 + |topic| <= inBuffer.Length;
              var packet := if fits then Packet(FixedHeader(SUBSCRIBE, 0, 1, 0), U16(pendingMsgId) + Text(topic) + [qos]) else [];
              && State() == Next(Cfg(), old(State()), Enqueue(packet))
              && queued == if ok then old(queued) + [packet] else old(queued)
    {
      hide Orderly, Polite, Next, Packet, U16, Text, FixedHeader, MsgQueue.Contents, MsgQueue.Valid, Connection.Valid;
      pendingMsgId := connection.TopicRequest(SUBSCRIBE, topic, Some(qos), pendingMsgId);
      assert State() == old(State());
      ok := QueueOrDrop(connection.buffer[connection.start..connection.start + connection.length], garbage);
    }

    static lemma NothingAppended(s: seq<byte>)
      ensures s + [] == s
    {
    }

    method UnSubscribe(topic: seq<byte>, garbage: bool) returns (ok: bool)
      requires Valid()
      modifies this`queued, this`pendingMsgId, connection, connection.buffer
      modifies msgQueue.rb`fillCnt, msgQueue.rb`readPos, msgQueue.rb`writePos, msgQueue.rb.buf
      ensures Valid()
      ensures var fits := topic != [] && 7 + |topic| <= inBuffer.Length;
              var packet := if fits then Packet(FixedHeader(UNSUBSCRIBE, 0, 1, 0), U16(pendingMsgId) + Text(topic)) else [];
              && State() == Next(Cfg(), old(State()), Enqueue(packet))
              && queued == if ok then old(queued) + [packet] else old(queued)
    {
      hide Orderly, Polite, Next, Packet, U16, Text, FixedHeader, MsgQueue.Contents, MsgQueue.Valid, Connection.Valid;
      pendingMsgId := connection.TopicRequest(UNSUBSCRIBE, topic, None, pendingMsgId);
      assert State() == old(State());
      if connection.length > 0 {
        NothingAppended(U16(pendingMsgId) + Text(topic));
      }
      ok := QueueOrDrop(connection.buffer[connection.start..connection.start + connection.length], garbage);
    }

    method Ping(garbage: bool) returns (ok: bool)
      requires Valid()
      modifies this`queued, connection, connection.buffer
      modifies msgQueue.rb`fillCnt, msgQueue.rb`readPos, msgQueue.rb`writePos, msgQueue.rb.buf
      ensures Valid() && State() == Next(Cfg(), old(State()), Enqueue(PING))
      ensures queued == if ok then old(queued) + [PING] else old(queued)
    {
      hide Orderly, Polite, Next, MsgQueue.Contents, MsgQueue.Valid, Connection.Valid;
      connection.Bare(PINGREQ);
      assert State() == old(State());
      if connection.length == 0 {
        return false;
      }
      ok := QueueOrDrop(connection.buffer[connection.start..connection.start + connection.length], garbage);
    }

    // ----- the connection -----

    /** Every send notes the type and id of the packet and starts the send timeout. */
    method SetPending(kind: int, id: word)
      requires Shape()
      modifies this`pendingMsgType, this`pendingMsgId, this`sendTimeout
      ensures Shape() && State() == old(State()).(pendingType := kind, sendTimeout := MQTT_SEND_TIMEOUT)
    {
      hide MsgQueue.Contents, MsgQueue.Valid, Connection.Valid;
      pendingMsgType := kind;
      pendingMsgId := id;
      sendTimeout := MQTT_SEND_TIMEOUT;
    }

    /** mqtt_tcpclient_delete. */
    method TcpClientDelete()
      requires Shape()
      modifies this`hasCon, this`up, this`log
      ensures Shape() && State() == Deleted(old(State()))
    {
      if hasCon {
        log := log + [LinkDown];
        up := false;
        hasCon := false;
      }
    }

    /** The body of MQTT_Connect. */
    method OpenConnection()
      requires Shape()
      modifies this`hasCon, this`up, this`log, this`keepAliveTick, this`reconnectTick, this`timerOn, this`connState
      ensures Shape() && State() == Reconnected(old(State()))
    {
      hide NoStaleConnect, MsgQueue.Contents, MsgQueue.Valid, Connection.Valid;
      if hasCon {
        TcpClientDelete();
      }
      hasCon := true;
      keepAliveTick := 0;
      reconnectTick := 0;
      timerOn := true;
      connState := TcpConnecting;
    }

    method Connect()
      requires Valid()
      modifies this`hasCon, this`up, this`log, this`keepAliveTick, this`reconnectTick, this`timerOn, this`connState
      ensures Valid() && State() == Next(Cfg(), old(State()), CallConnect)
    {
      hide NoStaleConnect, Orderly, Polite, MsgQueue.Contents, MsgQueue.Valid, Connection.Valid;
      OpenConnection();
      NextKeeps(Cfg(), old(State()), CallConnect);
    }

    method Disconnect()
      requires Valid()
      modifies this`connState, this`timerOn
      ensures Valid() && State() == Next(Cfg(), old(State()), CallDisconnect)
    {
      hide NoStaleConnect, Orderly, Polite, MsgQueue.Contents, MsgQueue.Valid, Connection.Valid;
      connState := TcpDisconnecting;
      timerOn := false;
      NextKeeps(Cfg(), old(State()), CallDisconnect);
    }

    method DeleteClient()
      requires Valid()
      modifies this`connState, this`timerOn
      ensures Valid() && State() == Next(Cfg(), old(State()), CallDelete)
    {
      hide NoStaleConnect, Orderly, Polite, MsgQueue.Contents, MsgQueue.Valid, Connection.Valid;
      connState := MqttDeleted;
      timerOn := false;
      NextKeeps(Cfg(), old(State()), CallDelete);
    }

    /** mqtt_dns_found; `usable` says that no address was known before and the found one is not 0. */
    method DnsFoundCb(found: bool, usable: bool)
      requires Valid() && hasCon
      modifies this`connState
      ensures Valid() && State() == Next(Cfg(), old(State()), DnsFound(found, usable))
    {
      hide NoStaleConnect, Orderly, Polite, MsgQueue.Contents, MsgQueue.Valid, Connection.Valid;
      if !found {
        connState := TcpReconnectReq;
      } else if usable {
        connState := TcpConnecting;
      }
      NextKeeps(Cfg(), old(State()), DnsFound(found, usable));
    }

    /** The outcome of mqtt_msg_connect decides whether the model greets. */
    static lemma GreetsIffFits(cfg: Config)
      requires cfg.bufSize <= MAX_BUFFER
      ensures cfg.Greets() <==> ConnectFits(cfg.info, cfg.bufSize)
    {
    }

    static lemma ConnectType(info: ConnectInfo)
      requires Texts(info)
      ensures |ConnectPacket(info)| > 0 && ConnectPacket(info)[0] / 16 == CONNECT
    {
      hide ConnectBody;
    }

    /** mqtt_tcpclient_connect_cb: CONNECT goes out at once if it can be printed; else nothing does. */
    method ConnectedCb() returns (ghost oldType: int)
      requires Valid() && hasCon
      modifies this`connState, this`up, this`pendingMsgType, this`pendingMsgId, this`sendTimeout, this`log
      modifies connection, connection.buffer
      ensures Valid() && connection.messageId == 0 && oldType == old(connection.buffer[0]) / 16
      ensures State() == Next(Cfg(), old(State()), ConnectCb(oldType))
    {
      hide Orderly, Polite, Next, ConnectFits, ConnectPacket, Texts, MsgQueue.Contents, MsgQueue.Valid;
      oldType := connection.buffer[0] / 16;
      NextOf(Cfg(), State(), oldType, true, []);
      GreetsIffFits(Cfg());
      up := true;
      connection.Reset();
      connection.Connect(info);
      if connection.length > 0 {
        ConnectType(info);
        assert connection.buffer[connection.start] == connection.Message()[0];
      }
      SetPending(connection.buffer[connection.start] / 16, 0);
      log := log + (if connection.length > 0 then [LinkUp, SentConnect(connection.Message())] else [LinkUp]);
      connState := MqttConnectSending;
      NextKeeps(Cfg(), old(State()), ConnectCb(oldType));
    }

    /** mqtt_tcpclient_recon_cb. */
    method ReconnectedCb()
      requires Valid() && hasCon
      modifies this`connState, this`up, this`log
      ensures Valid() && State() == Next(Cfg(), old(State()), ReconnectCb)
    {
      hide NoStaleConnect, Orderly, Polite, MsgQueue.Contents, MsgQueue.Valid, Connection.Valid;
      up := false;
      log := log + [LinkDown];
      connState := TcpReconnectReq;
      NextKeeps(Cfg(), old(State()), ReconnectCb);
    }

    /** mqtt_tcpclient_discon_cb. */
    method DisconnectedCb()
      requires Valid() && up
      modifies this`connState, this`up, this`log
      ensures Valid() && State() == Next(Cfg(), old(State()), DisconnectCb)
    {
      hide NoStaleConnect, Orderly, Polite, MsgQueue.Contents, MsgQueue.Valid, Connection.Valid;
      up := false;
      log := log + [LinkDown];
      if connState == TcpDisconnecting {
        connState := TcpDisconnected;
      } else if connState == MqttDeleting {
        connState := MqttDeleted;
      } else {
        connState := TcpReconnectReq;
      }
      NextKeeps(Cfg(), old(State()), DisconnectCb);
    }

    /** mqtt_tcpclient_sent_cb. */
    method SentDataCb()
      requires Valid() && up
      modifies this`sendTimeout, this`keepAliveTick
      ensures Valid() && State() == Next(Cfg(), old(State()), SentCb)
    {
      hide NoStaleConnect, Orderly, Polite, MsgQueue.Contents, MsgQueue.Valid, Connection.Valid;
      sendTimeout := 0;
      keepAliveTick := 0;
      NextKeeps(Cfg(), old(State()), SentCb);
    }

    /** The keep-alive and reconnect counters of mqtt_timer. */
    method TickCounters()
      requires Shape()
      modifies this`connState, this`keepAliveTick, this`reconnectTick
      ensures Shape()
      ensures var v := old(State());
              State() == if v.conn.MqttData? || v.conn.TcpReconnectReq? then
                           NextTimer(Cfg(), v).(sendTimeout := v.sendTimeout)
                         else v
    {
      hide MsgQueue.Contents, MsgQueue.Valid, Connection.Valid;
      if connState == MqttData {
        keepAliveTick := keepAliveTick + 1;
        if keepAliveTick > info.keepAlive / 2 {
          connState := MqttKeepaliveSend;
        }
      } else if connState == TcpReconnectReq {
        reconnectTick := reconnectTick + 1;
        if reconnectTick > MQTT_RECONNECT_TIMEOUT {
          reconnectTick := 0;
          connState := TcpReconnect;
        }
      }
    }

    /** mqtt_timer, once a second while it is armed. */
    method TimerTick()
      requires Valid() && timerOn
      modifies this`connState, this`keepAliveTick, this`reconnectTick, this`sendTimeout
      ensures Valid() && State() == Next(Cfg(), old(State()), Timer)
    {
      hide Orderly, Polite, Next, NoStaleConnect, MsgQueue.Contents, MsgQueue.Valid, Connection.Valid;
      NextOf(Cfg(), State(), 0, true, []);
      TickCounters();
      if sendTimeout > 0 {
        sendTimeout := sendTimeout - 1;
      }
      NextKeeps(Cfg(), old(State()), Timer);
    }

    // ----- the task -----

    /** mqtt_send_keepalive; sendOk is what espconn_send answers. */
    method SendKeepalive(sendOk: bool)
      requires Valid() && connState == MqttKeepaliveSend
      modifies this`connState, this`pendingMsgType, this`pendingMsgId, this`sendTimeout, this`keepAliveTick, this`log
      modifies connection, connection.buffer
      ensures Shape() && NoStaleConnect() && State() == NextTask(Cfg(), old(State()), sendOk, [])
    {
      hide Orderly, Polite, Decode, EndPos, ConnectFits, MsgQueue.Contents, MsgQueue.Valid, Connection.Valid;
      connection.Bare(PINGREQ);
      SetPending(PINGREQ, 0);
      log := log + [SentOther(PING)];
      if sendOk {
        keepAliveTick := 0;
        connState := MqttData;
      } else {
        connState := TcpReconnectDisconnecting;
      }
    }

    /** QUEUE_Gets into a local buffer: the packet, the byte its type is read from, and its id. */
    method TakeOldest(garbage: bool) returns (got: bool, packet: seq<byte>, first: byte, id: word)
      requires Valid()
      modifies msgQueue.rb`fillCnt, msgQueue.rb`readPos
      ensures Shape() && (packet != [] ==> packet[0] == first)
      ensures var c := old(State()).ring;
              && got == (END in c)
              && State() == old(State()).(ring := if got then c[EndPos(c) + 1..] else [])
              && (got ==> packet == Decode(Cfg().bufSize, garbage, c[..EndPos(c)]))
    {
      hide Orderly, Polite, Decode, EndPos, MsgQueue.Contents, MsgQueue.Valid, Connection.Valid;
      var dataBuffer := new byte[inBuffer.Length](_ => 0);
      var rc, dataLen := msgQueue.Gets(dataBuffer, dataBuffer.Length, garbage);
      got, packet, first, id := rc == 0, [], dataBuffer[0], 0;
      if got {
        packet := dataBuffer[..dataLen];
        id := GetPacketId(dataBuffer, dataLen);
      }
    }

    /** The packet has gone to espconn_send. */
    ghost method NoteSent(packet: seq<byte>)
      requires Shape()
      modifies this`log, this`sent
      ensures Shape() && State() == old(State()).(log := old(log) + [SentOther(packet)], sent := old(sent) + [packet])
    {
      hide MsgQueue.Contents, MsgQueue.Valid, Connection.Valid;
      log := log + [SentOther(packet)];
      sent := sent + [packet];
    }

    /** The MQTT_DATA branch: the oldest message of the queue, if there is one, goes out. */
    method SendOldest(garbage: bool) returns (ghost stale: seq<byte>)
      requires Valid() && connState == MqttData
      modifies this`pendingMsgType, this`pendingMsgId, this`sendTimeout, this`log, this`sent
      modifies msgQueue.rb`fillCnt, msgQueue.rb`readPos
      ensures Shape() && State() == NextTask(Cfg(), old(State()), true, stale)
    {
      ghost var v := State();
      OrderlyIsFramed(Cfg(), v);
      hide Orderly, Polite, Decode, EndPos, Framed, NextTask, NextSend, TypeOf, MsgQueue.Contents, MsgQueue.Valid, Connection.Valid;
      stale := [];
      var empty := msgQueue.IsEmpty();
      if empty || sendTimeout != 0 {
        NothingToSend(Cfg(), v, stale);
        return;
      }
      var got, packet, first, id := TakeOldest(garbage);
      if got {
        SendsOldest(Cfg(), v, garbage, packet, first);
        stale := [first];
        SetPending(first / 16, id);
        NoteSent(packet);
      } else {
        DrainsTorn(Cfg(), v, stale);
      }
    }

    method RunTask(sendOk: bool, garbage: bool) returns (ghost stale: seq<byte>)
      requires Valid()
      modifies this, connection, connection.buffer, msgQueue.rb`fillCnt, msgQueue.rb`readPos
      ensures Valid() && State() == Next(Cfg(), old(State()), Task(sendOk, stale))
    {
      hide Orderly, Polite, Next, NextSend, NoStaleConnect, MsgQueue.Contents, MsgQueue.Valid, Connection.Valid;
      stale := [];
      match connState {
        case TcpReconnect =>
          TcpClientDelete();
          OpenConnection();
          connState := TcpConnecting;
        case TcpDisconnected =>
          TcpClientDelete();
        case MqttDeleted =>
          TcpClientDelete();
          connState := WifiInit;
        case MqttKeepaliveSend =>
          SendKeepalive(sendOk);
        case MqttData =>
          stale := SendOldest(garbage);
        case _ =>
      }
      NextOf(Cfg(), old(State()), 0, sendOk, stale);
      NextKeeps(Cfg(), old(State()), Task(sendOk, stale));
    }

    // ----- receiving -----

    /** An acknowledgement is printed and put into the queue once. */
    method AnswerWith(kind: int, qos: int, id: word)
      requires Valid() && kind in {PUBACK, PUBREC, PUBREL, PUBCOMP}
      modifies this`queued, connection, connection.buffer, msgQueue.rb`fillCnt, msgQueue.rb`writePos, msgQueue.rb.buf
      ensures Valid() && State() == Next(Cfg(), old(State()), Respond(AckPacket(kind, qos, UsedId(id, old(connection.messageId)))))
      ensures connection.messageId == if id == 0 then NextId(old(connection.messageId)) else old(connection.messageId)
    {
      hide Orderly, Polite, Next, MsgQueue.Contents, MsgQueue.Valid, Connection.Valid;
      connection.Acknowledge(kind, qos, id);
      assert State() == old(State());
      QueueOnce(connection.buffer[connection.start..connection.start + connection.length]);
    }

    /** deliver_publish. */
    method DeliverPublish(length: nat)
      requires Valid() && 0 < length <= inBuffer.Length
      modifies this`delivered
      ensures Valid() && State() == Next(Cfg(), old(State()), Delivery(inBuffer[..], length))
    {
      hide NoStaleConnect, Orderly, Polite, MqttParse.PublishTopic, MqttParse.PublishData, MsgQueue.Contents, MsgQueue.Valid, Connection.Valid;
      var topic, topicLength := GetPublishTopic(inBuffer, length);
      var data, dataLength := GetPublishData(inBuffer, length);
      delivered := delivered +
        [(if topic.Some? then Some(inBuffer[topic.value..topic.value + topicLength]) else None,
          if data.Some? then inBuffer[data.value..data.value + dataLength] else [])];
      NextKeeps(Cfg(), old(State()), Delivery(inBuffer[..], length));
    }

    /** The switch on the message type, in MQTT_DATA and MQTT_KEEPALIVE_SEND. */
    method HandlePacket(length: nat, kind: int, qos: int, id: word)
      requires Valid() && 0 < length <= inBuffer.Length
      requires kind == GetType(inBuffer[..]) && qos == GetQos(inBuffer[..]) && id == GetId(inBuffer[..], inBuffer.Length)
      modifies this`queued, this`delivered, connection, connection.buffer
      modifies msgQueue.rb`fillCnt, msgQueue.rb`writePos, msgQueue.rb.buf
      ensures Valid() && State() == Run(Cfg(), old(State()), Answers(inBuffer[..], length, old(connection.messageId)))
      ensures connection.messageId == CounterAfter(inBuffer[..], old(connection.messageId))
    {
      hide Orderly, Polite, Next, Run, GetId, Delivery, AckPacket, UsedId;
      ghost var b, v := inBuffer[..], State();
      if kind == PUBLISH {
        if qos == 1 {
          AnswerWith(PUBACK, 0, id);
        } else if qos == 2 {
          AnswerWith(PUBREC, 0, id);
        }
        ghost var w := State();
        DeliverPublish(length);
        assert [] + [Delivery(b, length)] == [Delivery(b, length)];
        RunTwo(Cfg(), v, w, Respond(AckPacket(if qos == 1 then PUBACK else PUBREC, 0, UsedId(id, old(connection.messageId)))), Delivery(b, length));
      } else if kind == PUBREC {
        AnswerWith(PUBREL, 1, id);
        RunOne(Cfg(), v, Respond(AckPacket(PUBREL, 1, UsedId(id, old(connection.messageId)))));
      } else if kind == PUBREL {
        AnswerWith(PUBCOMP, 0, id);
        RunOne(Cfg(), v, Respond(AckPacket(PUBCOMP, 0, UsedId(id, old(connection.messageId)))));
      } else if kind == PINGREQ {
        connection.Bare(PINGRESP);
        assert State() == v;
        QueueOnce(connection.buffer[connection.start..connection.start + connection.length]);
        RunOne(Cfg(), v, Respond(Packet(FixedHeader(PINGRESP, 0, 0, 0), [])));
      } else {
        RunNone(Cfg(), v);
      }
    }

    static lemma RunNone(cfg: Config, v: View)
      requires Sized(cfg, v)
      ensures Run(cfg, v, []) == v
    {
    }

    /** An answer, or none, and then a delivery. */
    static lemma RunTwo(cfg: Config, v: View, w: View, a: Act, d: Act)
      requires Sized(cfg, v)
      ensures Run(cfg, v, [d]) == Next(cfg, v, d)
      ensures w == Next(cfg, v, a) ==> Sized(cfg, w) && Run(cfg, v, [a] + [d]) == Next(cfg, w, d)
    {
      hide Next;
      RunOne(cfg, v, d);
      RunOne(cfg, v, a);
      NextSized(cfg, v, a);
      RunConcat(cfg, v, [a], [d]);
      RunOne(cfg, Next(cfg, v, a), d);
    }

    /** A CONNACK in MQTT_CONNECT_SENDING; espconn_disconnect changes nothing yet. */
    method HandleConnack()
      requires Valid() && connState == MqttConnectSending
      modifies this`connState, this`log
      ensures Valid() && State() == Next(Cfg(), old(State()), Connack(inBuffer[3]))
    {
      hide NoStaleConnect, Orderly, Polite, MsgQueue.Contents, MsgQueue.Valid, Connection.Valid;
      SendingIsUp(Cfg(), State());
      var rc := inBuffer[3];
      if pendingMsgType == CONNECT {
        if rc == 0 {
          connState := MqttData;
        }
      }
      log := log + [GotConnack(rc)];
      NextKeeps(Cfg(), old(State()), Connack(rc));
    }

    method FillInBuffer(data: seq<byte>)
      requires |data| <= inBuffer.Length
      modifies inBuffer
      ensures inBuffer[..] == data + old(inBuffer[..])[|data|..]
    {
      forall i | 0 <= i < |data| {
        inBuffer[i] := data[i];
      }
    }

    /** One turn of READPACKET: what is left to read, if the loop goes on. */
    method ReadPacket(data: seq<byte>) returns (rest: seq<byte>, more: bool, spins: bool)
      requires Valid() && 0 < |data| < inBuffer.Length
      modifies this`connState, this`log, this`queued, this`delivered, connection, connection.buffer, inBuffer
      modifies msgQueue.rb`fillCnt, msgQueue.rb`writePos, msgQueue.rb.buf
      ensures Valid()
      ensures var r := ReadPackets(Cfg(), old(State()), old(connection.messageId), old(inBuffer[..]), data);
              if more then
                !spins && |rest| < |data| && r == ReadPackets(Cfg(), State(), connection.messageId, inBuffer[..], rest)
              else r == Received(State(), connection.messageId, inBuffer[..], spins)
    {
      hide Orderly, Polite, Answers, CounterAfter, TotalLength, GetId, Run, Next, MsgQueue.Contents, MsgQueue.Valid, Connection.Valid;
      FillInBuffer(data);
      assert State() == old(State());
      var kind, qos := inBuffer[0] / 16, inBuffer[0] / 2 % 4;
      var id := GetPacketId(inBuffer, inBuffer.Length);
      if connState == MqttConnectSending {
        if kind == CONNACK {
          HandleConnack();
        }
        return [], false, false;
      } else if connState == MqttData || connState == MqttKeepaliveSend {
        var total := GetTotalLength(inBuffer, |data|);
        var messageLength := total % 0x1_0000;
        HandlePacket(|data|, kind, qos, id);
        if kind == PUBLISH && messageLength < |data| {
          if messageLength == 0 {
            return data, false, true;
          }
          return data[messageLength..], true, false;
        }
      }
      return [], false, false;
    }

    /** mqtt_tcpclient_recv. `spins` tells that the source would stay in the loop forever. */
    method Receive(pdata: seq<byte>) returns (spins: bool)
      requires Valid() && up
      modifies this, connection, connection.buffer, inBuffer
      modifies msgQueue.rb`fillCnt, msgQueue.rb`writePos, msgQueue.rb.buf
      ensures Valid()
      ensures var v := Next(Cfg(), old(State()), Touch);
              Received(State(), connection.messageId, inBuffer[..], spins)
              == ReadPackets(Cfg(), v, old(connection.messageId), old(inBuffer[..]), pdata)
      ensures spins <==> Live(old(State())) && |pdata| < inBuffer.Length && HitsZero(pdata)
    {
      hide HitsZero, Turns, Orderly, Polite, Answers, CounterAfter, TotalLength, GetId, Run;
      keepAliveTick := 0;
      NextKeeps(Cfg(), old(State()), Touch);
      ReadPacketsIsTurns(Cfg(), State(), connection.messageId, inBuffer[..], pdata);
      var data := pdata;
      while true
        invariant Valid()
        invariant ReadPackets(Cfg(), State(), connection.messageId, inBuffer[..], data)
                  == ReadPackets(Cfg(), Next(Cfg(), old(State()), Touch), old(connection.messageId), old(inBuffer[..]), pdata)
        decreases |data|
      {
        if !(0 < |data| < inBuffer.Length) {
          return false;
        }
        var more;
        data, more, spins := ReadPacket(data);
        if !more {
          return;
        }
      }
    }
  }
}
