/**
 * The receive callback of mqtt.c (mqtt_tcpclient_recv): one TCP segment is cut into packets
 * as long as they are PUBLISH packets, and each is answered and delivered.
 */
module Receive {
  import opened Bytes
  import opened MqttMsg
  import opened MqttParse
  import opened MqttWire
  import opened ClientModel
  import opened Proto
  import opened Options

  function AckPacket(kind: int, qos: int, id: word): seq<byte> {
    Packet(FixedHeader(kind, 0, qos, 0), U16(id))
  }

  /** The id an acknowledgement carries: the given one, or the next free one if it is zero. */
  function UsedId(id: word, messageId: word): word {
    if id == 0 then NextId(messageId) else id
  }

  /** What the switch on the message type does with the packet in the buffer b, length bytes of which are new. */
  function Answers(b: seq<byte>, length: nat, messageId: word): seq<Act>
    requires 0 < length <= |b|
  {
    var kind, id := GetType(b), UsedId(GetId(b, |b|), messageId);
    if kind == PUBLISH then
      (if GetQos(b) == 1 then [Respond(AckPacket(PUBACK, 0, id))]
       else if GetQos(b) == 2 then [Respond(AckPacket(PUBREC, 0, id))]
       else []) + [Delivery(b, length)]
    else if kind == PUBREC then [Respond(AckPacket(PUBREL, 1, id))]
    else if kind == PUBREL then [Respond(AckPacket(PUBCOMP, 0, id))]
    else if kind == PINGREQ then [Respond(Packet(FixedHeader(PINGRESP, 0, 0, 0), []))]
    else []
  }

  /** deliver_publish. */
  function Delivery(b: seq<byte>, length: nat): Act
    requires 0 < length <= |b|
  {
    var (t, n) := PublishTopic(b, length);
    var (d, k) := PublishData(b, length);
    Deliver(if t.Some? then Some(b[t.value..t.value + n]) else None, if d.Some? then b[d.value..d.value + k] else [])
  }

  /** An answer that takes its id from the packet; the connection's counter moves if that id is zero. */
  function CounterAfter(b: seq<byte>, messageId: word): word
    requires 0 < |b|
  {
    var kind, id := GetType(b), GetId(b, |b|);
    if id == 0 && (kind == PUBREC || kind == PUBREL || (kind == PUBLISH && (GetQos(b) == 1 || GetQos(b) == 2)))
    then NextId(messageId) else messageId
  }

  /** Where the callback ends: the client, the id counter, the buffer, and whether it never ends. */
  datatype Received = Received(view: View, messageId: word, inBuffer: seq<byte>, spins: bool)

  /**
   * The READPACKET loop on the bytes still to be read. The total length is kept in 16 bits; a
   * total of 0 there would repeat the same packet forever.
   */
  ghost function ReadPackets(cfg: Config, v: View, messageId: word, inBuffer: seq<byte>, data: seq<byte>): Received
    requires Sized(cfg, v) && |inBuffer| == cfg.bufSize
    decreases |data|
  {
    if !(0 < |data| < cfg.bufSize) then Received(v, messageId, inBuffer, false)
    else
      var b := data + inBuffer[|data|..];
      if v.conn.MqttConnectSending? then
        if GetType(b) == CONNACK then Received(Next(cfg, v, Connack(if |b| > 3 then b[3] else 0)), messageId, b, false)
        else Received(v, messageId, b, false)
      else if v.conn.MqttData? || v.conn.MqttKeepaliveSend? then
        var w := Run(cfg, v, Answers(b, |data|, messageId));
        var id' := CounterAfter(b, messageId);
        var total := TotalLength(b, |data|) % 0x1_0000;
        if GetType(b) == PUBLISH && total < |data| then
          if total == 0 then Received(w, id', b, true)
          else ReadPackets(cfg, w, id', b, data[total..])
        else Received(w, id', b, false)
      else Received(v, messageId, b, false)
  }

  // ----- a segment of PUBLISH packets -----

  datatype Incoming = Incoming(topic: seq<byte>, payload: seq<byte>, dup: int, qos: int, retain: int, id: word)

  ghost predicate Good(p: Incoming) {
    Printable(p.topic, p.dup, p.qos, p.retain, p.id)
  }

  ghost predicate AllGood(ps: seq<Incoming>) {
    forall i :: 0 <= i < |ps| ==> Good(ps[i])
  }

  function Wire(p: Incoming): seq<byte>
    requires |p.topic| < 0x1_0000
  {
    PublishPacket(p.topic, p.payload, p.dup, p.qos, p.retain, p.id)
  }

  ghost function WireAll(ps: seq<Incoming>): seq<byte>
    requires AllGood(ps)
  {
    if ps == [] then [] else Wire(ps[0]) + WireAll(ps[1..])
  }

  /** What sections 3.4 and 3.5 ask for: a PUBACK for QoS 1, a PUBREC for QoS 2, with the id. */
  function Acks(qos: int, id: word): seq<Act> {
    if qos == 1 then [Respond([0x40, 2, id / 256, id % 256])]
    else if qos == 2 then [Respond([0x50, 2, id / 256, id % 256])]
    else []
  }

  /** The answer to a PUBLISH with the packet's id, and one delivery. */
  function Wanted(p: Incoming): seq<Act> {
    Acks(p.qos, p.id) + [Deliver(Some(p.topic), p.payload)]
  }

  lemma AcksArePackets(id: word)
    ensures Respond(AckPacket(PUBACK, 0, id)) == Respond([0x40, 2, id / 256, id % 256])
    ensures Respond(AckPacket(PUBREC, 0, id)) == Respond([0x50, 2, id / 256, id % 256])
    ensures Respond(AckPacket(PUBREL, 1, id)) == Respond([0x62, 2, id / 256, id % 256])
    ensures Respond(AckPacket(PUBCOMP, 0, id)) == Respond([0x70, 2, id / 256, id % 256])
    ensures Respond(Packet(FixedHeader(PINGRESP, 0, 0, 0), [])) == Respond([0xD0, 0])
  {
    hide Packet, FixedHeader, U16;
    AcksOnWire(id);
    PingsOnWire();
  }

  function WantedAll(ps: seq<Incoming>): seq<Act> {
    if ps == [] then [] else Wanted(ps[0]) + WantedAll(ps[1..])
  }

  function Deliveries(ps: seq<Incoming>): seq<(Option<seq<byte>>, seq<byte>)> {
    if ps == [] then [] else [(Some(ps[0].topic), ps[0].payload)] + Deliveries(ps[1..])
  }

  /** The PUBLISH branch of the switch, with its answer in bytes. */
  lemma AnswersPublish(b: seq<byte>, length: nat, messageId: word)
    requires 0 < length <= |b| && GetType(b) == PUBLISH
    ensures var id := UsedId(GetId(b, |b|), messageId);
            Answers(b, length, messageId) == Acks(GetQos(b), id) + [Delivery(b, length)]
    ensures forall id, id' :: GetQos(b) == 0 ==> Acks(GetQos(b), id) == Acks(GetQos(b), id')
  {
    hide AckPacket, Packet, FixedHeader, Delivery, GetId, UsedId, GetQos;
    AcksArePackets(UsedId(GetId(b, |b|), messageId));
  }

  /** A PUBLISH at the front of the buffer is answered and delivered as wanted. */
  lemma FrontPublish(b: seq<byte>, length: nat, messageId: word, p: Incoming)
    requires Good(p) && Wire(p) <= b && |Wire(p)| <= length < |b| < 0x1_0000
    ensures GetType(b) == PUBLISH && TotalLength(b, length) % 0x1_0000 == |Wire(p)| > 0
    ensures Answers(b, length, messageId) == Wanted(p) && CounterAfter(b, messageId) == messageId
  {
    hide PublishTopic, PublishData, GetId, TotalLength, Answers, Acks, Packet, PublishBody, GetType, GetQos;
    WireNonEmpty(p);
    PublishParses(b, length, p.topic, p.payload, p.dup, p.qos, p.retain, p.id);
    PublishParses(b, |b|, p.topic, p.payload, p.dup, p.qos, p.retain, p.id);
    AnswersPublish(b, length, messageId);
  }

  ghost predicate Live(v: View) {
    v.conn.MqttData? || v.conn.MqttKeepaliveSend?
  }

  /** Answers and deliveries leave the connection state alone. */
  ghost predicate IsAnswer(a: Act) {
    a.Respond? || a.Deliver?
  }

  ghost predicate AreAnswers(acts: seq<Act>) {
    forall i :: 0 <= i < |acts| ==> IsAnswer(acts[i])
  }

  lemma {:induction false} RunAnswers(cfg: Config, v: View, acts: seq<Act>)
    requires Sized(cfg, v) && AreAnswers(acts)
    ensures Run(cfg, v, acts).conn == v.conn
    decreases |acts|
  {
    if acts != [] {
      NextSized(cfg, v, acts[0]);
      RunAnswers(cfg, Next(cfg, v, acts[0]), acts[1..]);
    }
  }

  lemma AnswersAreAnswers(b: seq<byte>, length: nat, messageId: word)
    requires 0 < length <= |b|
    ensures AreAnswers(Answers(b, length, messageId))
  {
  }

  /** One turn of the loop on a PUBLISH with more bytes behind it. */
  lemma OnePublish(cfg: Config, v: View, messageId: word, inBuffer: seq<byte>, p: Incoming, rest: seq<byte>)
    requires Sized(cfg, v) && |inBuffer| == cfg.bufSize < 0x1_0000 && Live(v)
    requires Good(p) && |Wire(p) + rest| < cfg.bufSize
    ensures var w := Run(cfg, v, Wanted(p));
            var data := Wire(p) + rest;
            var b := data + inBuffer[|data|..];
            Live(w) && ReadPackets(cfg, v, messageId, inBuffer, data) ==
            if rest == [] then Received(w, messageId, b, false) else ReadPackets(cfg, w, messageId, b, rest)
  {
    var data := Wire(p) + rest;
    var b := data + inBuffer[|data|..];
    FrontPublish(b, |data|, messageId, p);
    AnswersAreAnswers(b, |data|, messageId);
    RunAnswers(cfg, v, Wanted(p));
    assert data[|Wire(p)|..] == rest;
    hide Wire, Answers, CounterAfter, TotalLength, GetType, Wanted, Run;
  }

  lemma WireNonEmpty(p: Incoming)
    requires Good(p)
    ensures |Wire(p)| > 0
  {
  }

  lemma {:induction false} WireAllLength(ps: seq<Incoming>)
    requires AllGood(ps)
    ensures |WireAll(ps)| >= |ps|
    decreases |ps|
  {
    if ps != [] {
      WireNonEmpty(ps[0]);
      WireAllLength(ps[1..]);
    }
  }

  /** The id in bytes 2 and 3, or the next free one if it cannot be read or is 0. */
  function ReplyId(b: seq<byte>, messageId: word): word {
    if |b| >= 4 && b[1] < 128 && Number(b[2], b[3]) != 0 then Number(b[2], b[3])
    else if messageId == 0xFFFF then 1 else messageId + 1
  }

  /**
   * What sections 3.5, 3.6, 3.12 and 4.3.3 ask for: PUBREL for PUBREC and PUBCOMP for PUBREL, both
   * with the id, PINGRESP for PINGREQ, and nothing for any other packet that is not a PUBLISH.
   */
  function Reply(b: seq<byte>, messageId: word): seq<Act>
    requires b != []
  {
    var kind, id := b[0] / 16, ReplyId(b, messageId);
    if kind == 5 then [Respond([0x62, 2, id / 256, id % 256])]
    else if kind == 6 then [Respond([0x70, 2, id / 256, id % 256])]
    else if kind == 12 then [Respond([0xD0, 0])]
    else []
  }

  lemma AnswersReply(b: seq<byte>, length: nat, messageId: word)
    requires 0 < length <= |b| && b[0] / 16 != 3
    ensures Answers(b, length, messageId) == Reply(b, messageId)
    ensures CounterAfter(b, messageId) == if (b[0] / 16 == 5 || b[0] / 16 == 6) && GetId(b, |b|) == 0 then ReplyId(b, messageId) else messageId
  {
    hide AckPacket, Packet, FixedHeader;
    AcksArePackets(ReplyId(b, messageId));
  }

  /** What the first packet behind the PUBLISH packets causes. */
  ghost function TailActs(tail: seq<byte>, stale: seq<byte>, messageId: word): seq<Act> {
    if tail == [] then [] else Reply(tail + stale, messageId)
  }

  /**
   * A segment of well-formed PUBLISH packets, then possibly one packet of another kind with
   * anything behind it: every PUBLISH is answered once with its own id and delivered once, in
   * order, with its topic and payload, and the loop ends. Of the rest only the first packet
   * is looked at: a PUBLISH behind it is lost.
   */
  lemma {:induction false} SegmentHandled(cfg: Config, v: View, messageId: word, inBuffer: seq<byte>, ps: seq<Incoming>, tail: seq<byte>)
    returns (stale: seq<byte>)
    requires Sized(cfg, v) && |inBuffer| == cfg.bufSize < 0x1_0000 && Live(v)
    requires AllGood(ps) && |WireAll(ps) + tail| < cfg.bufSize
    requires tail != [] ==> GetType(tail) != PUBLISH
    ensures tail != [] ==> |tail| + |stale| == cfg.bufSize
    ensures var r := ReadPackets(cfg, v, messageId, inBuffer, WireAll(ps) + tail);
            !r.spins && r.view == Run(cfg, v, WantedAll(ps) + TailActs(tail, stale, messageId))
    decreases |ps|
  {
    hide ReadPackets, Wire, Wanted, Answers, Run, GetType;
    if ps == [] {
      assert WireAll(ps) + tail == tail;
      stale := inBuffer[|tail|..];
      LastPacket(cfg, v, messageId, inBuffer, tail);
      assert WantedAll(ps) + TailActs(tail, stale, messageId) == TailActs(tail, stale, messageId);
    } else {
      var p, rest := ps[0], WireAll(ps[1..]) + tail;
      assert WireAll(ps) + tail == Wire(p) + rest;
      OnePublish(cfg, v, messageId, inBuffer, p, rest);
      var w := Run(cfg, v, Wanted(p));
      var data := Wire(p) + rest;
      if rest == [] {
        stale := [];
        WireAllLength(ps[1..]);
        assert tail == [];
        assert WantedAll(ps) + TailActs(tail, stale, messageId) == Wanted(p);
      } else {
        stale := SegmentHandled(cfg, w, messageId, data + inBuffer[|data|..], ps[1..], tail);
        var more := TailActs(tail, stale, messageId);
        RunConcat(cfg, v, Wanted(p), WantedAll(ps[1..]) + more);
        assert WantedAll(ps) + more == Wanted(p) + (WantedAll(ps[1..]) + more);
      }
    }
  }

  lemma LastPacket(cfg: Config, v: View, messageId: word, inBuffer: seq<byte>, tail: seq<byte>)
    requires Sized(cfg, v) && |inBuffer| == cfg.bufSize && Live(v) && |tail| < cfg.bufSize
    requires tail != [] ==> GetType(tail) != PUBLISH
    ensures var r := ReadPackets(cfg, v, messageId, inBuffer, tail);
            !r.spins && r.view == Run(cfg, v, TailActs(tail, inBuffer[|tail|..], messageId))
  {
    hide Answers, CounterAfter, TotalLength, Next, Reply;
    if tail != [] {
      assert (tail + inBuffer[|tail|..])[0] == tail[0];
      AnswersReply(tail + inBuffer[|tail|..], |tail|, messageId);
    }
  }

  lemma {:induction false} RunDelivers(cfg: Config, v: View, ps: seq<Incoming>)
    requires Sized(cfg, v)
    ensures Run(cfg, v, WantedAll(ps)).delivered == v.delivered + Deliveries(ps)
    decreases |ps|
  {
    if ps != [] {
      var p := ps[0];
      RunConcat(cfg, v, Wanted(p), WantedAll(ps[1..]));
      var w := Run(cfg, v, Wanted(p));
      WantedDelivers(cfg, v, p);
      RunDelivers(cfg, w, ps[1..]);
    }
  }

  lemma WantedDelivers(cfg: Config, v: View, p: Incoming)
    requires Sized(cfg, v)
    ensures Run(cfg, v, Wanted(p)).delivered == v.delivered + [(Some(p.topic), p.payload)]
  {
    var d := Deliver(Some(p.topic), p.payload);
    var acks := Wanted(p)[..|Wanted(p)| - 1];
    assert Wanted(p) == acks + [d];
    RunConcat(cfg, v, acks, [d]);
    var u := Run(cfg, v, acks);
    assert [d][1..] == [];
    assert Run(cfg, u, [d]) == Next(cfg, u, d);
    if acks != [] {
      assert acks[1..] == [];
      assert u == Next(cfg, v, acks[0]);
    }
  }

  /** dataCb is called once per PUBLISH, in order; nothing else in the segment is delivered. */
  lemma SegmentDelivers(cfg: Config, v: View, messageId: word, inBuffer: seq<byte>, ps: seq<Incoming>, tail: seq<byte>)
    requires Sized(cfg, v) && |inBuffer| == cfg.bufSize < 0x1_0000 && Live(v)
    requires AllGood(ps) && |WireAll(ps) + tail| < cfg.bufSize
    requires tail != [] ==> GetType(tail) != PUBLISH
    ensures ReadPackets(cfg, v, messageId, inBuffer, WireAll(ps) + tail).view.delivered == v.delivered + Deliveries(ps)
  {
    hide ReadPackets, Run, WantedAll, Deliveries, Next, Reply;
    var stale := SegmentHandled(cfg, v, messageId, inBuffer, ps, tail);
    var more := TailActs(tail, stale, messageId);
    RunConcat(cfg, v, WantedAll(ps), more);
    RunDelivers(cfg, v, ps);
    TailDeliversNothing(cfg, Run(cfg, v, WantedAll(ps)), tail, stale, messageId);
  }

  lemma TailDeliversNothing(cfg: Config, v: View, tail: seq<byte>, stale: seq<byte>, messageId: word)
    requires Sized(cfg, v)
    ensures Run(cfg, v, TailActs(tail, stale, messageId)).delivered == v.delivered
  {
    hide ReplyId;
    var more := TailActs(tail, stale, messageId);
    if more != [] {
      assert more == [more[0]] && more[0].Respond?;
      RunOne(cfg, v, more[0]);
    }
  }

  // ----- one packet that is not a PUBLISH -----

  /** The packet m was put into the queue once: it is the last message, or the full ring has no new one. */
  ghost predicate Offered(cfg: Config, v: View, w: View, m: seq<byte>) {
    && w == v.(ring := w.ring, queued := w.queued)
    && if |v.ring| + |Frame(m)| <= cfg.ringSize then
         w.queued == v.queued + [m] && Messages(cfg.bufSize, w.ring) == Messages(cfg.bufSize, v.ring) + [m]
       else
         w.queued == v.queued && Messages(cfg.bufSize, w.ring) == Messages(cfg.bufSize, v.ring)
  }

  lemma RespondOffers(cfg: Config, v: View, m: seq<byte>)
    requires Sized(cfg, v) && |m| <= cfg.bufSize
    ensures Run(cfg, v, [Respond(m)]) == Next(cfg, v, Respond(m)) && Offered(cfg, v, Next(cfg, v, Respond(m)), m)
  {
    hide Frame, Messages, Run;
    RunOne(cfg, v, Respond(m));
    if |v.ring| + |Frame(m)| <= cfg.ringSize {
      FrameAddsMessage(cfg.bufSize, v.ring, m);
    } else {
      var k := cfg.ringSize - |v.ring|;
      TornHasNoEnd(m, k);
      TornAddsNothing(cfg.bufSize, v.ring, Frame(m)[..k]);
    }
  }

  /**
   * The handshakes on an open link, in bytes: a PUBREC queues exactly one PUBREL, a PUBREL exactly
   * one PUBCOMP, with the id received, a PINGREQ one PINGRESP, and any other packet that is not a
   * PUBLISH changes nothing.
   */
  lemma Handshakes(cfg: Config, v: View, messageId: word, inBuffer: seq<byte>, data: seq<byte>)
    requires Sized(cfg, v) && |inBuffer| == cfg.bufSize >= 5 && Live(v)
    requires 0 < |data| < cfg.bufSize && data[0] / 16 != 3
    ensures var r, b := ReadPackets(cfg, v, messageId, inBuffer, data), data + inBuffer[|data|..];
            var kind, id := data[0] / 16, ReplyId(b, messageId);
            && !r.spins
            && (kind == 5 ==> Offered(cfg, v, r.view, [0x62, 2, id / 256, id % 256]))
            && (kind == 6 ==> Offered(cfg, v, r.view, [0x70, 2, id / 256, id % 256]))
            && (kind == 12 ==> Offered(cfg, v, r.view, [0xD0, 0]))
            && (kind != 5 && kind != 6 && kind != 12 ==> r.view == v)
    ensures |data| >= 4 && data[1] < 128 && Number(data[2], data[3]) != 0 ==>
              ReplyId(data + inBuffer[|data|..], messageId) == Number(data[2], data[3])
  {
    hide Answers, CounterAfter, TotalLength, Next, Offered, Number;
    var b := data + inBuffer[|data|..];
    AnswersReply(b, |data|, messageId);
    var acts := Reply(b, messageId);
    if acts != [] {
      RespondOffers(cfg, v, acts[0].packet);
    }
  }

  /**
   * Exactly what opens a link: while connecting, with CONNECT pending, a CONNACK whose fourth byte
   * is 0. Everything else leaves the client connecting.
   */
  lemma ConnackOpens(cfg: Config, v: View, messageId: word, inBuffer: seq<byte>, data: seq<byte>)
    requires Sized(cfg, v) && |inBuffer| == cfg.bufSize >= 5 && v.up && v.conn.MqttConnectSending?
    requires 0 < |data| < cfg.bufSize
    ensures var w, b := ReadPackets(cfg, v, messageId, inBuffer, data).view, data + inBuffer[|data|..];
            && (w.conn.MqttData? <==> v.pendingType == 1 && data[0] / 16 == 2 && b[3] == 0)
            && (|data| >= 4 ==> b[3] == data[3])
            && (!w.conn.MqttData? ==> w.conn == v.conn)
            && w == v.(conn := w.conn, log := if data[0] / 16 == 2 then v.log + [GotConnack(b[3])] else v.log)
  {
  }

  // ----- whatever arrives, the callback is a sequence of steps -----

  lemma {:induction false} ReadPacketsIsRun(cfg: Config, v: View, messageId: word, inBuffer: seq<byte>, data: seq<byte>)
    returns (acts: seq<Act>)
    requires Sized(cfg, v) && |inBuffer| == cfg.bufSize && cfg.bufSize >= 5
    ensures AllAllowed(cfg, acts) && ReadPackets(cfg, v, messageId, inBuffer, data).view == Run(cfg, v, acts)
    decreases |data|
  {
    acts := [];
    if 0 < |data| < cfg.bufSize {
      var b := data + inBuffer[|data|..];
      if v.conn.MqttConnectSending? {
        if GetType(b) == CONNACK {
          acts := [Connack(b[3])];
          assert acts[1..] == [];
        }
      } else if Live(v) {
        acts := Answers(b, |data|, messageId);
        AnswersAllowed(cfg, b, |data|, messageId);
        var total := TotalLength(b, |data|) % 0x1_0000;
        if GetType(b) == PUBLISH && 0 < total < |data| {
          var w := Run(cfg, v, acts);
          var more := ReadPacketsIsRun(cfg, w, CounterAfter(b, messageId), b, data[total..]);
          RunConcat(cfg, v, acts, more);
          acts := acts + more;
        }
      }
    }
  }

  lemma AnswersAllowed(cfg: Config, b: seq<byte>, length: nat, messageId: word)
    requires 0 < length <= |b| && cfg.bufSize >= 5
    ensures AllAllowed(cfg, Answers(b, length, messageId))
  {
  }

  // ----- a PUBLISH that spans two segments -----

  function PayloadStart(p: Incoming): nat
    requires |p.topic| < 0x1_0000
  {
    PayloadAt(p.topic, p.payload, p.dup, p.qos, p.retain, p.id)
  }

  /** What the first length bytes of a PUBLISH cause: its answer, and a delivery of what there is of the payload. */
  function WantedCut(p: Incoming, length: nat): seq<Act>
    requires |p.topic| < 0x1_0000
    requires PayloadStart(p) <= length <= PayloadStart(p) + |p.payload|
  {
    Acks(p.qos, p.id) + [Deliver(Some(p.topic), p.payload[..length - PayloadStart(p)])]
  }

  lemma FrontCut(b: seq<byte>, length: nat, messageId: word, p: Incoming)
    requires Good(p) && PayloadStart(p) < length < |Wire(p)| && length < |b| && b[..length] == Wire(p)[..length]
    ensures GetType(b) == PUBLISH && TotalLength(b, length) == |Wire(p)|
    ensures Answers(b, length, messageId) == WantedCut(p, length) && CounterAfter(b, messageId) == messageId
  {
    hide PublishTopic, PublishData, GetId, TotalLength, Answers, Acks, Packet, PublishBody, GetType, GetQos, PayloadAt;
    CutPublishParses(b, length, p.topic, p.payload, p.dup, p.qos, p.retain, p.id);
    AnswersPublish(b, length, messageId);
  }

  /**
   * A segment that ends inside the payload of a PUBLISH: the packet is acknowledged and delivered
   * truncated. The loop stops if the packet's length, in 16 bits, is not below what has arrived;
   * else it goes on inside the payload, or never ends at 0. The next segment starts with a payload
   * byte, which is then read as the first byte of a packet.
   */
  lemma CutPublish(cfg: Config, v: View, messageId: word, inBuffer: seq<byte>, p: Incoming, length: nat)
    requires Sized(cfg, v) && |inBuffer| == cfg.bufSize && Live(v)
    requires Good(p) && PayloadStart(p) < length < |Wire(p)| && length < cfg.bufSize
    ensures var w := Run(cfg, v, WantedCut(p, length));
            var data, t := Wire(p)[..length], |Wire(p)| % 0x1_0000;
            var b := data + inBuffer[length..];
            && ReadPackets(cfg, v, messageId, inBuffer, data) ==
               (if length <= t then Received(w, messageId, b, false)
                else if t == 0 then Received(w, messageId, b, true)
                else ReadPackets(cfg, w, messageId, b, data[t..]))
            && Wire(p)[length..] != [] && Wire(p)[length] == p.payload[length - PayloadStart(p)]
  {
    hide Wire, Answers, CounterAfter, TotalLength, GetType, WantedCut, Run;
    var data := Wire(p)[..length];
    FrontCut(data + inBuffer[length..], length, messageId, p);
    PayloadBytes(p, length);
  }

  function TopicStart(p: Incoming): nat
    requires |p.topic| < 0x1_0000
  {
    TopicAt(p.topic, p.payload, p.qos, p.id)
  }

  /** What a PUBLISH cut before its payload causes: the id it is acknowledged with is given. */
  function WantedEarly(p: Incoming, length: nat, id: word): seq<Act>
    requires |p.topic| < 0x1_0000
  {
    Acks(p.qos, id) + [Deliver(if TopicStart(p) + |p.topic| <= length then Some(p.topic) else None, [])]
  }

  lemma FrontEarly(b: seq<byte>, length: nat, messageId: word, p: Incoming)
    requires Good(p) && TopicStart(p) - 2 <= length <= PayloadStart(p) && length < |Wire(p)|
    requires length < |b| && b[..length] == Wire(p)[..length]
    ensures GetType(b) == PUBLISH && TotalLength(b, length) == |Wire(p)|
    ensures Answers(b, length, messageId) == WantedEarly(p, length, UsedId(GetId(b, |b|), messageId))
  {
    hide PublishTopic, PublishData, GetId, TotalLength, Answers, Acks, Packet, PublishBody, GetType, GetQos, PayloadAt;
    CutEarlyParses(b, length, p.topic, p.payload, p.dup, p.qos, p.retain, p.id);
    AnswersPublish(b, length, messageId);
  }

  /**
   * A segment that ends behind the length of a PUBLISH but before its payload: it is acknowledged
   * with whatever id the buffer b shows, stale bytes of earlier segments included, and delivered
   * without a payload, and without a topic unless that is whole. Then as for any cut.
   */
  lemma CutEarly(cfg: Config, v: View, messageId: word, inBuffer: seq<byte>, p: Incoming, length: nat)
    requires Sized(cfg, v) && |inBuffer| == cfg.bufSize && Live(v)
    requires Good(p) && TopicStart(p) - 2 <= length <= PayloadStart(p) && length < |Wire(p)| && length < cfg.bufSize
    ensures var data, t := Wire(p)[..length], |Wire(p)| % 0x1_0000;
            var b := data + inBuffer[length..];
            var w, id' := Run(cfg, v, WantedEarly(p, length, UsedId(GetId(b, |b|), messageId))), CounterAfter(b, messageId);
            ReadPackets(cfg, v, messageId, inBuffer, data) ==
            (if length <= t then Received(w, id', b, false)
             else if t == 0 then Received(w, id', b, true)
             else ReadPackets(cfg, w, id', b, data[t..]))
  {
    hide Wire, Answers, CounterAfter, TotalLength, GetType, WantedEarly, Run, GetId, UsedId;
    var data := Wire(p)[..length];
    FrontEarly(data + inBuffer[length..], length, messageId, p);
  }

  lemma PayloadBytes(p: Incoming, i: nat)
    requires Good(p) && PayloadStart(p) <= i < |Wire(p)|
    ensures Wire(p)[i] == p.payload[i - PayloadStart(p)]
  {
    hide RemainingLength;
    BodyParts(p.topic, p.payload, p.qos, p.id);
  }

  // ----- when the callback ends -----

  /** The goto loop as it stands at READPACKET, or behind it. */
  datatype Loop =
    | Reading(view: View, messageId: word, inBuffer: seq<byte>, data: seq<byte>)
    | Done(view: View, messageId: word, inBuffer: seq<byte>)

  ghost predicate InLoop(cfg: Config, l: Loop) {
    Sized(cfg, l.view) && |l.inBuffer| == cfg.bufSize
  }

  /** From READPACKET to the goto or past it: len -= total, pdata += total, with total in 16 bits. */
  ghost function Turn(cfg: Config, l: Loop): (l': Loop)
    requires InLoop(cfg, l)
    ensures InLoop(cfg, l')
  {
    if l.Done? then l
    else if !(0 < |l.data| < cfg.bufSize) then Done(l.view, l.messageId, l.inBuffer)
    else
      var b := l.data + l.inBuffer[|l.data|..];
      if l.view.conn.MqttConnectSending? && GetType(b) == CONNACK then
        NextSized(cfg, l.view, Connack(if |b| > 3 then b[3] else 0));
        Done(Next(cfg, l.view, Connack(if |b| > 3 then b[3] else 0)), l.messageId, b)
      else if Live(l.view) then
        var w := Run(cfg, l.view, Answers(b, |l.data|, l.messageId));
        var total := TotalLength(b, |l.data|) % 0x1_0000;
        if GetType(b) == PUBLISH && total < |l.data| then Reading(w, CounterAfter(b, l.messageId), b, l.data[total..])
        else Done(w, CounterAfter(b, l.messageId), b)
      else Done(l.view, l.messageId, b)
  }

  ghost function Turns(cfg: Config, l: Loop, n: nat): (l': Loop)
    requires InLoop(cfg, l)
    ensures InLoop(cfg, l')
    decreases n
  {
    if n == 0 then l else Turns(cfg, Turn(cfg, l), n - 1)
  }

  ghost predicate Ends(cfg: Config, l: Loop)
    requires InLoop(cfg, l)
  {
    exists n: nat :: Turns(cfg, l, n).Done?
  }

  /** The received bytes lead, PUBLISH by PUBLISH, to one whose total length is 0 in 16 bits. */
  predicate HitsZero(data: seq<byte>)
    decreases |data|
  {
    && data != [] && GetType(data) == PUBLISH
    && var t := TotalLength(data, |data|) % 0x1_0000;
       t == 0 || (t < |data| && HitsZero(data[t..]))
  }

  /** The length of the front packet depends on the received bytes alone, not on what else is in the buffer. */
  lemma {:induction false} ScanPrefix(b: seq<byte>, data: seq<byte>, i: nat)
    requires data <= b && 1 <= i
    ensures Scan(b, i, |data|) == Scan(data, i, |data|)
    decreases |data| - i
  {
    if i < |data| && data[i] >= 128 {
      ScanPrefix(b, data, i + 1);
    }
  }

  /** One turn with a client that is connected: the answers do not change that. */
  lemma LiveTurn(cfg: Config, l: Loop)
    requires InLoop(cfg, l) && l.Reading? && Live(l.view) && 0 < |l.data| < cfg.bufSize
    ensures var l' := Turn(cfg, l);
            var total := TotalLength(l.data, |l.data|) % 0x1_0000;
            && Live(l'.view)
            && (l'.Reading? <==> GetType(l.data) == PUBLISH && total < |l.data|)
            && (l'.Reading? ==> l'.data == l.data[total..])
  {
    hide Run, Answers, GetType, CounterAfter, Scan;
    var b := l.data + l.inBuffer[|l.data|..];
    ScanPrefix(b, l.data, 1);
    SameType(b, l.data);
    AnswersAreAnswers(b, |l.data|, l.messageId);
    RunAnswers(cfg, l.view, Answers(b, |l.data|, l.messageId));
  }

  lemma SameType(b: seq<byte>, data: seq<byte>)
    requires data <= b && data != []
    ensures GetType(b) == GetType(data)
  {
  }

  /** A front packet of total length 0 modulo 65536: after any number of turns the loop stands at the same bytes. */
  lemma {:induction false} RepeatsForever(cfg: Config, l: Loop, n: nat)
    requires InLoop(cfg, l) && l.Reading? && Live(l.view) && 0 < |l.data| < cfg.bufSize
    requires GetType(l.data) == PUBLISH && TotalLength(l.data, |l.data|) % 0x1_0000 == 0
    ensures Turns(cfg, l, n).Reading? && Turns(cfg, l, n).data == l.data
    decreases n
  {
    hide Turn, GetType, TotalLength;
    if n > 0 {
      LiveTurn(cfg, l);
      assert l.data[0..] == l.data;
      RepeatsForever(cfg, Turn(cfg, l), n - 1);
    }
  }

  lemma {:induction false} NeverDone(cfg: Config, l: Loop, n: nat)
    requires InLoop(cfg, l) && l.Reading? && Live(l.view) && |l.data| < cfg.bufSize && HitsZero(l.data)
    ensures Turns(cfg, l, n).Reading?
    decreases n
  {
    hide Turn, GetType, TotalLength;
    if n > 0 {
      LiveTurn(cfg, l);
      assert l.data[0..] == l.data;
      NeverDone(cfg, Turn(cfg, l), n - 1);
    }
  }

  lemma {:induction false} DoneSoon(cfg: Config, l: Loop)
    requires InLoop(cfg, l) && l.Reading?
    requires !(Live(l.view) && |l.data| < cfg.bufSize && HitsZero(l.data))
    ensures Turns(cfg, l, |l.data| + 1).Done?
    decreases |l.data|
  {
    hide GetType, TotalLength, Run, Answers, CounterAfter, Next;
    var l' := Turn(cfg, l);
    if l'.Reading? {
      LiveTurn(cfg, l);
      DoneSoon(cfg, l');
      StaysDone(cfg, Turns(cfg, l', |l'.data| + 1), |l.data| - |l'.data| - 1);
      TurnsAdd(cfg, l', |l'.data| + 1, |l.data| - |l'.data| - 1);
    } else {
      StaysDone(cfg, l', |l.data|);
    }
  }

  lemma {:induction false} StaysDone(cfg: Config, l: Loop, n: nat)
    requires InLoop(cfg, l) && l.Done?
    ensures Turns(cfg, l, n) == l
    decreases n
  {
    if n > 0 {
      StaysDone(cfg, l, n - 1);
    }
  }

  lemma {:induction false} TurnsAdd(cfg: Config, l: Loop, m: nat, n: nat)
    requires InLoop(cfg, l)
    ensures Turns(cfg, l, m + n) == Turns(cfg, Turns(cfg, l, m), n)
    decreases m
  {
    hide Turn;
    if m > 0 {
      TurnsAdd(cfg, Turn(cfg, l), m - 1, n);
    }
  }

  /** Exactly when the callback ends: the client is not connected, the segment is too long, or no front packet has length 0 modulo 65536. */
  lemma EndsIff(cfg: Config, v: View, messageId: word, inBuffer: seq<byte>, data: seq<byte>)
    requires Sized(cfg, v) && |inBuffer| == cfg.bufSize
    ensures Ends(cfg, Reading(v, messageId, inBuffer, data)) <==> !(Live(v) && |data| < cfg.bufSize && HitsZero(data))
  {
    hide Turns, HitsZero, Live;
    var l := Reading(v, messageId, inBuffer, data);
    if Live(v) && |data| < cfg.bufSize && HitsZero(data) {
      forall n: nat ensures !Turns(cfg, l, n).Done? {
        NeverDone(cfg, l, n);
      }
    } else {
      DoneSoon(cfg, l);
    }
  }

  /** ReadPackets, one turn on. */
  lemma OneTurn(cfg: Config, v: View, messageId: word, inBuffer: seq<byte>, data: seq<byte>)
    requires Sized(cfg, v) && |inBuffer| == cfg.bufSize
    ensures var r, l' := ReadPackets(cfg, v, messageId, inBuffer, data), Turn(cfg, Reading(v, messageId, inBuffer, data));
            if l'.Done? then r == Received(l'.view, l'.messageId, l'.inBuffer, false)
            else if |l'.data| < |data| then r == ReadPackets(cfg, l'.view, l'.messageId, l'.inBuffer, l'.data)
            else l'.data == data && r == Received(l'.view, l'.messageId, l'.inBuffer, true)
  {
    hide GetType, TotalLength, Run, Answers, CounterAfter, Next;
    assert data[0..] == data;
  }

  /** ReadPackets is where the turns end; its flag tells that they do not. */
  lemma {:induction false} ReadPacketsIsTurns(cfg: Config, v: View, messageId: word, inBuffer: seq<byte>, data: seq<byte>)
    requires Sized(cfg, v) && |inBuffer| == cfg.bufSize
    ensures var r := ReadPackets(cfg, v, messageId, inBuffer, data);
            && (r.spins <==> Live(v) && |data| < cfg.bufSize && HitsZero(data))
            && (!r.spins ==> Turns(cfg, Reading(v, messageId, inBuffer, data), |data| + 1) == Done(r.view, r.messageId, r.inBuffer))
    decreases |data|
  {
    hide Turn, ReadPackets, GetType, TotalLength, Live;
    var l := Reading(v, messageId, inBuffer, data);
    OneTurn(cfg, v, messageId, inBuffer, data);
    var l' := Turn(cfg, l);
    if Live(v) && 0 < |data| < cfg.bufSize {
      LiveTurn(cfg, l);
    } else {
      IdleTurn(cfg, l);
    }
    if l'.Done? {
      StaysDone(cfg, l', |data|);
    } else if |l'.data| < |data| {
      ReadPacketsIsTurns(cfg, l'.view, l'.messageId, l'.inBuffer, l'.data);
      var n := |l'.data| + 1;
      TurnsAdd(cfg, l', n, |data| - n);
      if Turns(cfg, l', n).Done? {
        StaysDone(cfg, Turns(cfg, l', n), |data| - n);
      }
    }
  }

  lemma IdleTurn(cfg: Config, l: Loop)
    requires InLoop(cfg, l) && l.Reading? && !(Live(l.view) && 0 < |l.data| < cfg.bufSize)
    ensures Turn(cfg, l).Done?
  {
  }

  /** A PUBLISH of 65536 bytes, of which the first five have arrived: the callback never ends. */
  lemma SpinsOn65536(cfg: Config, v: View, messageId: word, inBuffer: seq<byte>)
    requires Sized(cfg, v) && |inBuffer| == cfg.bufSize && 5 < cfg.bufSize && Live(v)
    ensures !Ends(cfg, Reading(v, messageId, inBuffer, [0x30, 0xFC, 0xFF, 0x03, 0x00]))
  {
    hide Ends, Live, Pow128;
    var data: seq<byte> := [0x30, 0xFC, 0xFF, 0x03, 0x00];
    ThreeBytes(data);
    assert HitsZero(data);
    EndsIff(cfg, v, messageId, inBuffer, data);
  }

  lemma ThreeBytes(b: seq<byte>)
    requires |b| == 5 && b[1] == 0xFC && b[2] == 0xFF && b[3] == 0x03
    ensures TotalLength(b, 5) == 65536
  {
    assert Pow128(0) == 1 && Pow128(1) == 128 && Pow128(2) == 16384;
    assert Scan(b, 3, 5) == (3 * 16384, 4);
    assert Scan(b, 2, 5) == (127 * 128 + 3 * 16384, 4);
  }
}
