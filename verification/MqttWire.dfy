/**
 * The packets byte by byte, as the tables of MQTT 3.1.1 show them, and a reader for CONNECT: what
 * the functions the packets are printed with come to, and that a broker gets back what was meant.
 */
module MqttWire {
  import opened Bytes
  import opened MqttMsg
  import opened MqttParse
  import opened Options

  // ----- every packet in full -----

  /** A first byte, a Remaining Length of one or two bytes, and the rest. */
  function OnWire(first: byte, body: seq<byte>): seq<byte>
    requires |body| < 16384
  {
    if |body| < 128 then [first, |body|] + body else [first, 128 + |body| % 128, |body| / 128] + body
  }

  lemma PacketOnWire(header: byte, body: seq<byte>)
    requires |body| < 16384
    ensures Packet(header, body) == OnWire(header, body)
  {
    var n := |body|;
    if n >= 128 {
      assert RemainingLength(n) == [128 + n % 128] + [n / 128];
    }
  }

  lemma HeaderIs(kind: int, dup: int, qos: int, retain: int)
    requires 0 <= kind < 16 && 0 <= dup < 2 && 0 <= qos < 4 && 0 <= retain < 2
    ensures FixedHeader(kind, dup, qos, retain) == 16 * kind + 8 * dup + 2 * qos + retain
  {
  }

  /** PUBLISH (section 3.3): type 3 and DUP, QoS and RETAIN, then topic, id if there is a QoS, and payload. */
  lemma PublishOnWire(topic: seq<byte>, payload: seq<byte>, dup: int, qos: int, retain: int, id: word)
    requires |topic| < 0x1_0000 && 0 <= dup <= 1 && 0 <= qos <= 3 && 0 <= retain <= 1
    requires |PublishBody(topic, payload, qos, id)| < 16384
    ensures var body := [|topic| / 256, |topic| % 256] + topic + (if qos > 0 then [id / 256, id % 256] else []) + payload;
            |body| < 16384 && PublishPacket(topic, payload, dup, qos, retain, id) == OnWire(0x30 + 8 * dup + 2 * qos + retain, body)
  {
    hide FixedHeader, Packet, OnWire, RemainingLength;
    HeaderIs(3, dup, qos, retain);
    PacketOnWire(FixedHeader(PUBLISH, dup, qos, retain), PublishBody(topic, payload, qos, id));
  }

  lemma AckOnWire(kind: int, qos: int, id: word)
    requires 0 <= kind < 16 && 0 <= qos < 4
    ensures Packet(FixedHeader(kind, 0, qos, 0), U16(id)) == [16 * kind + 2 * qos, 2, id / 256, id % 256]
  {
    hide RemainingLength, FixedHeader, Packet;
    HeaderIs(kind, 0, qos, 0);
    PacketOnWire(FixedHeader(kind, 0, qos, 0), U16(id));
  }

  /** The four acknowledgements (sections 3.4 to 3.7), PUBREL with its reserved QoS 1. */
  lemma AcksOnWire(id: word)
    ensures Packet(FixedHeader(PUBACK, 0, 0, 0), U16(id)) == [0x40, 2, id / 256, id % 256]
    ensures Packet(FixedHeader(PUBREC, 0, 0, 0), U16(id)) == [0x50, 2, id / 256, id % 256]
    ensures Packet(FixedHeader(PUBREL, 0, 1, 0), U16(id)) == [0x62, 2, id / 256, id % 256]
    ensures Packet(FixedHeader(PUBCOMP, 0, 0, 0), U16(id)) == [0x70, 2, id / 256, id % 256]
  {
    hide Packet, FixedHeader, U16;
    AckOnWire(PUBACK, 0, id);
    AckOnWire(PUBREC, 0, id);
    AckOnWire(PUBREL, 1, id);
    AckOnWire(PUBCOMP, 0, id);
  }

  /** PINGREQ and PINGRESP (sections 3.12 and 3.13). */
  lemma PingsOnWire()
    ensures Packet(FixedHeader(PINGREQ, 0, 0, 0), []) == [0xC0, 0]
    ensures Packet(FixedHeader(PINGRESP, 0, 0, 0), []) == [0xD0, 0]
  {
  }

  /** SUBSCRIBE and UNSUBSCRIBE (sections 3.8 and 3.10). */
  lemma RequestsOnWire(topic: seq<byte>, qos: byte, id: word)
    requires |topic| < 16379
    ensures Packet(FixedHeader(SUBSCRIBE, 0, 1, 0), U16(id) + Text(topic) + [qos]) ==
            OnWire(0x82, [id / 256, id % 256, |topic| / 256, |topic| % 256] + topic + [qos])
    ensures Packet(FixedHeader(UNSUBSCRIBE, 0, 1, 0), U16(id) + Text(topic)) ==
            OnWire(0xA2, [id / 256, id % 256, |topic| / 256, |topic| % 256] + topic)
  {
    var body := [id / 256, id % 256, |topic| / 256, |topic| % 256] + topic;
    assert U16(id) + Text(topic) == body && U16(id) + Text(topic) + [qos] == body + [qos];
    PacketOnWire(FixedHeader(SUBSCRIBE, 0, 1, 0), body + [qos]);
    PacketOnWire(FixedHeader(UNSUBSCRIBE, 0, 1, 0), body);
  }

  // ----- packet ids -----

  /** The id of an acknowledgement, whatever follows it. */
  lemma AckIdParses(b: seq<byte>, length: nat, kind: int, qos: int, id: word)
    requires kind in {4, 5, 6, 7} && 4 <= length <= |b|
    requires Packet(FixedHeader(kind, 0, qos, 0), U16(id)) <= b
    ensures b[0] / 16 == kind && GetId(b, length) == id
  {
    var p := Packet(FixedHeader(kind, 0, qos, 0), U16(id));
    HeaderFields(kind, 0, qos, 0);
    assert p == [FixedHeader(kind, 0, qos, 0), 2, id / 256, id % 256];
    assert b[..4] == p;
    assert b[1] == p[1] && b[2] == p[2] && b[3] == p[3];
  }

  /** mqtt_get_id on a request: a SUBSCRIBE gives its id only below 128 bytes of body, an UNSUBSCRIBE never. */
  lemma RequestIdParses(topic: seq<byte>, qos: byte, id: word)
    requires |topic| < 16379
    ensures var p := Packet(FixedHeader(SUBSCRIBE, 0, 1, 0), U16(id) + Text(topic) + [qos]);
            GetId(p, |p|) == if |topic| + 5 < 128 then id else 0
    ensures var p := Packet(FixedHeader(UNSUBSCRIBE, 0, 1, 0), U16(id) + Text(topic)); GetId(p, |p|) == 0
  {
    RequestsOnWire(topic, qos, id);
  }

  /** Counting up from a fresh connection: the k-th id is k, and after 65535 comes 1, never 0. */
  function IdAfter(k: nat): word {
    if k == 0 then 0 else NextId(IdAfter(k - 1))
  }

  lemma {:induction false} IdsCount(k: nat)
    ensures IdAfter(k) == if k == 0 then 0 else (k - 1) % 65535 + 1
  {
    if k > 0 {
      IdsCount(k - 1);
      NextCount(k - 1);
    }
  }

  lemma NextCount(k: nat)
    ensures k % 65535 + 1 == if k > 0 && (k - 1) % 65535 + 1 == 0xFFFF then 1 else if k == 0 then 1 else (k - 1) % 65535 + 2
  {
  }

  // ----- CONNECT -----

  /** A CONNECT as a broker understands it (section 3.1). */
  datatype Hello = Hello(
    clientId: seq<byte>, will: Option<Will>, username: Option<seq<byte>>, password: Option<seq<byte>>,
    cleanSession: bool, keepAlive: nat
  )

  datatype Will = Will(topic: seq<byte>, message: seq<byte>, qos: int, retain: bool)

  /** A two-byte number, the more significant byte first. */
  function Number(hi: int, lo: int): int {
    256 * hi + lo
  }

  /** A text at the front and what follows it. */
  function ReadText(b: seq<byte>): Option<(seq<byte>, seq<byte>)> {
    if |b| < 2 || |b| < 2 + Number(b[0], b[1]) then None
    else
      var n := Number(b[0], b[1]);
      Some((b[2..2 + n], b[2 + n..]))
  }

  /** A text that is there only if its flag says so. */
  function ReadFlagged(flag: bool, b: seq<byte>): Option<(Option<seq<byte>>, seq<byte>)> {
    if !flag then Some((None, b))
    else
      match ReadText(b)
      case None => None
      case Some((s, rest)) => Some((Some(s), rest))
  }

  function ReadWill(flags: byte, b: seq<byte>): Option<(Option<Will>, seq<byte>)> {
    if flags / 4 % 2 == 0 then Some((None, b))
    else
      match ReadText(b)
      case None => None
      case Some((topic, rest)) =>
        match ReadText(rest)
        case None => None
        case Some((message, rest')) => Some((Some(Will(topic, message, flags / 8 % 4, flags / 32 % 2 == 1)), rest'))
  }

  /** Client id, will, user and password, in this order; nothing may follow. */
  function ReadFields(flags: byte, keepAlive: nat, b: seq<byte>): Option<Hello> {
    match ReadText(b)
    case None => None
    case Some((clientId, b1)) =>
      match ReadWill(flags, b1)
      case None => None
      case Some((will, b2)) =>
        match ReadFlagged(flags / 128 == 1, b2)
        case None => None
        case Some((username, b3)) =>
          match ReadFlagged(flags / 64 % 2 == 1, b3)
          case None => None
          case Some((password, b4)) =>
            if b4 != [] then None else Some(Hello(clientId, will, username, password, flags / 2 % 2 == 1, keepAlive))
  }

  /** The body of a CONNECT: protocol "MQTT" of level 4, flags with bit 0 reserved, keep-alive, fields. */
  function ReadConnect(b: seq<byte>): Option<Hello> {
    if |b| < 10 || b[..7] != [0, 4, 0x4D, 0x51, 0x54, 0x54, 4] || b[7] % 2 != 0 then None
    else ReadFields(b[7], Number(b[8], b[9]), b[10..])
  }

  function Present(s: seq<byte>): Option<seq<byte>> {
    if s == [] then None else Some(s)
  }

  /** What the settings say. */
  function Meant(info: ConnectInfo): Hello {
    Hello(info.clientId,
          if info.willTopic == [] then None else Some(Will(info.willTopic, info.willMessage, info.willQos % 4, info.willRetain)),
          Present(info.username), Present(info.password), info.cleanSession, info.keepAlive % 0x1_0000)
  }

  function ConnectFlags(info: ConnectInfo): byte {
    (if info.cleanSession then 2 else 0) + OptionFlags(info)
  }

  lemma ReadsText(s: seq<byte>, rest: seq<byte>)
    requires |s| < 0x1_0000
    ensures ReadText(Text(s) + rest) == Some((s, rest))
  {
    var b := Text(s) + rest;
    assert Number(b[0], b[1]) == |s|;
    assert b[2..2 + |s|] == s && b[2 + |s|..] == rest;
  }

  lemma ReadsFlagged(s: seq<byte>, rest: seq<byte>)
    requires |s| < 0x1_0000
    ensures ReadFlagged(s != [], Field(s) + rest) == Some((Present(s), rest))
  {
    if s == [] {
      assert Field(s) + rest == rest;
    } else {
      ReadsText(s, rest);
    }
  }

  lemma ReadsWill(info: ConnectInfo, rest: seq<byte>)
    requires OptionTexts(info)
    ensures ReadWill(ConnectFlags(info), WillFields(info) + rest) == Some((Meant(info).will, rest))
  {
    hide ReadText, Text, ConnectFlags;
    FlagsMean(info);
    if info.willTopic == [] {
      assert WillFields(info) + rest == rest;
    } else {
      ReadsText(info.willTopic, Text(info.willMessage) + rest);
      ReadsText(info.willMessage, rest);
      assert WillFields(info) + rest == Text(info.willTopic) + (Text(info.willMessage) + rest);
    }
  }

  /** Each flag bit says what section 3.1.2 gives it to say. */
  lemma FlagsMean(info: ConnectInfo)
    ensures var f := ConnectFlags(info);
            && f % 2 == 0 && (f / 2 % 2 == 1 <==> info.cleanSession)
            && (f / 4 % 2 == 0 <==> info.willTopic == [])
            && (info.willTopic != [] ==> f / 8 % 4 == info.willQos % 4 && (f / 32 % 2 == 1 <==> info.willRetain))
            && (f / 64 % 2 == 1 <==> info.password != []) && (f / 128 == 1 <==> info.username != [])
  {
    var will := info.willTopic != [];
    FlagBits(BitOf(info.username != []), BitOf(info.password != []), BitOf(will && info.willRetain),
             if will then info.willQos % 4 else 0, BitOf(will), BitOf(info.cleanSession));
  }

  function BitOf(b: bool): int {
    if b then 1 else 0
  }

  lemma FlagBits(user: int, pass: int, retain: int, qos: int, will: int, clean: int)
    requires 0 <= user < 2 && 0 <= pass < 2 && 0 <= retain < 2 && 0 <= qos < 4 && 0 <= will < 2 && 0 <= clean < 2
    ensures var f := 128 * user + 64 * pass + 32 * retain + 8 * qos + 4 * will + 2 * clean;
            && f % 2 == 0 && f / 2 % 2 == clean && f / 4 % 2 == will && f / 8 % 4 == qos
            && f / 32 % 2 == retain && f / 64 % 2 == pass && f / 128 == user
  {
    var f := 128 * user + 64 * pass + 32 * retain + 8 * qos + 4 * will + 2 * clean;
    assert f / 64 == 2 * user + pass;
    assert f / 32 == 4 * user + 2 * pass + retain;
    assert f / 8 == 4 * (4 * user + 2 * pass + retain) + qos;
    assert f / 4 == 2 * (4 * (4 * user + 2 * pass + retain) + qos) + will;
  }

  lemma ReadsFields(info: ConnectInfo)
    requires Texts(info)
    ensures ReadFields(ConnectFlags(info), info.keepAlive % 0x1_0000, Text(info.clientId) + OptionFields(info)) == Some(Meant(info))
  {
    hide ReadText, ReadWill, ReadFlagged, Text, WillFields, Field, ConnectFlags, Present;
    FlagsMean(info);
    var b3 := Field(info.password);
    var b2 := Field(info.username) + b3;
    assert OptionFields(info) == WillFields(info) + b2;
    assert b3 == b3 + [];
    ReadsText(info.clientId, OptionFields(info));
    ReadsWill(info, b2);
    ReadsFlagged(info.username, b3);
    ReadsFlagged(info.password, []);
  }

  /** A printed CONNECT reads back as the settings: each flag, the keep-alive, and the fields in their order. */
  lemma ConnectReadsBack(info: ConnectInfo)
    requires Texts(info) && |ConnectBody(info)| < 16384
    ensures ConnectPacket(info) == OnWire(0x10, ConnectBody(info))
    ensures ReadConnect(ConnectBody(info)) == Some(Meant(info))
  {
    hide ReadFields, Text, OptionFields, OptionFlags, RemainingLength, FixedHeader, Packet, OnWire, ConnectBody, ConnectFlags;
    HeaderIs(1, 0, 0, 0);
    PacketOnWire(FixedHeader(CONNECT, 0, 0, 0), ConnectBody(info));
    HeaderBytes(info);
    ReadsFields(info);
  }

  lemma KeepAliveBytes(k: nat)
    ensures Number(k / 256 % 256, k % 256) == k % 0x1_0000
  {
  }

  lemma HeaderBytes(info: ConnectInfo)
    requires Texts(info)
    ensures var b := ConnectBody(info);
            && |b| >= 10 && b[..7] == [0, 4, 0x4D, 0x51, 0x54, 0x54, 4]
            && b[7] == ConnectFlags(info) && b[7] % 2 == 0 && Number(b[8], b[9]) == info.keepAlive % 0x1_0000
            && b[10..] == Text(info.clientId) + OptionFields(info)
  {
    hide Text, OptionFields, OptionFlags, Number;
    FlagsMean(info);
    KeepAliveBytes(info.keepAlive);
    var v := VariableHeader(ConnectFlags(info), info.keepAlive);
    assert v[..7] == [0, 4, 0x4D, 0x51, 0x54, 0x54, 4];
    assert ConnectBody(info) == v + (Text(info.clientId) + OptionFields(info));
  }
}
