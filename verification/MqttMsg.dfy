/**
 * esp/src/mqtt/mqtt_msg.c: packets of MQTT 3.1.1 printed into a fixed buffer behind a reserved
 * three-byte header, and the fields of a received PUBLISH read back.
 */
module MqttMsg {
  import opened Bytes
  import opened Options

  const CONNECT := 1
  const CONNACK := 2
  const PUBLISH := 3
  const PUBACK := 4
  const PUBREC := 5
  const PUBREL := 6
  const PUBCOMP := 7
  const SUBSCRIBE := 8
  const SUBACK := 9
  const UNSUBSCRIBE := 10
  const UNSUBACK := 11
  const PINGREQ := 12
  const PINGRESP := 13

  const MAX_FIXED_HEADER_SIZE: nat := 3
  /** The longest packet whose Remaining Length takes two bytes, with the reserved header. */
  const MAX_BUFFER: nat := 16386

  // ----- the wire format (sections 2.2 and 3.3 of MQTT 3.1.1) -----

  type word = w: int | 0 <= w < 0x1_0000

  function FixedHeader(kind: int, dup: int, qos: int, retain: int): byte {
    (kind % 16) * 16 + (dup % 2) * 8 + (qos % 4) * 2 + retain % 2
  }

  /** Section 2.2.3: seven bits per byte, low bits first, the top bit says that more follow. */
  function RemainingLength(n: nat): (s: seq<byte>)
    ensures |s| >= 1
  {
    if n < 128 then [n] else [128 + n % 128] + RemainingLength(n / 128)
  }

  function U16(w: word): seq<byte> {
    [w / 256, w % 256]
  }

  function Text(s: seq<byte>): seq<byte>
    requires |s| < 0x1_0000
  {
    U16(|s|) + s
  }

  function Packet(header: byte, body: seq<byte>): seq<byte> {
    [header] + RemainingLength(|body|) + body
  }

  function PublishBody(topic: seq<byte>, payload: seq<byte>, qos: int, id: word): seq<byte>
    requires |topic| < 0x1_0000
  {
    Text(topic) + (if qos > 0 then U16(id) else []) + payload
  }

  function PublishPacket(topic: seq<byte>, payload: seq<byte>, dup: int, qos: int, retain: int, id: word): seq<byte>
    requires |topic| < 0x1_0000
  {
    Packet(FixedHeader(PUBLISH, dup, qos, retain), PublishBody(topic, payload, qos, id))
  }

  /** mqtt_connect_info_t; an empty sequence stands for a null or empty string. */
  datatype ConnectInfo = ConnectInfo(
    clientId: seq<byte>, username: seq<byte>, password: seq<byte>, willTopic: seq<byte>, willMessage: seq<byte>,
    willQos: nat, willRetain: bool, cleanSession: bool, keepAlive: nat
  )

  /** An optional field of a CONNECT. */
  function Field(s: seq<byte>): seq<byte>
    requires |s| < 0x1_0000
  {
    if s == [] then [] else Text(s)
  }

  function WillFields(info: ConnectInfo): seq<byte>
    requires info.willTopic != [] ==> |info.willTopic| < 0x1_0000 && |info.willMessage| < 0x1_0000
  {
    if info.willTopic == [] then [] else Text(info.willTopic) + Text(info.willMessage)
  }

  function WillFlags(info: ConnectInfo): nat {
    if info.willTopic == [] then 0 else 4 + (if info.willRetain then 32 else 0) + info.willQos % 4 * 8
  }

  function OptionFlags(info: ConnectInfo): (flags: nat)
    ensures flags <= 252
  {
    WillFlags(info) + (if info.username != [] then 128 else 0) + (if info.password != [] then 64 else 0)
  }

  /** Protocol name and level, flags and keep-alive seconds (section 3.1.2). */
  function VariableHeader(flags: byte, keepAlive: nat): seq<byte> {
    [0, 4, 0x4D, 0x51, 0x54, 0x54, 4, flags, keepAlive / 256 % 256, keepAlive % 256]
  }

  predicate OptionTexts(info: ConnectInfo) {
    && |info.username| < 0x1_0000 && |info.password| < 0x1_0000
    && (info.willTopic != [] ==> |info.willTopic| < 0x1_0000 && |info.willMessage| < 0x1_0000)
  }

  function OptionFields(info: ConnectInfo): seq<byte>
    requires OptionTexts(info)
  {
    WillFields(info) + Field(info.username) + Field(info.password)
  }

  predicate Texts(info: ConnectInfo) {
    |info.clientId| < 0x1_0000 && OptionTexts(info)
  }

  function ConnectBody(info: ConnectInfo): seq<byte>
    requires Texts(info)
  {
    VariableHeader((if info.cleanSession then 2 else 0) + OptionFlags(info), info.keepAlive) + (Text(info.clientId) + OptionFields(info))
  }

  function ConnectPacket(info: ConnectInfo): seq<byte>
    requires Texts(info)
  {
    Packet(FixedHeader(CONNECT, 0, 0, 0), ConnectBody(info))
  }

  function FieldSize(s: seq<byte>): nat {
    if s == [] then 0 else 2 + |s|
  }

  function WillSize(info: ConnectInfo): nat {
    if info.willTopic == [] then 0 else 4 + |info.willTopic| + |info.willMessage|
  }

  function ConnectSize(info: ConnectInfo): nat {
    10 + 2 + |info.clientId| + WillSize(info) + FieldSize(info.username) + FieldSize(info.password)
  }

  /** The CONNECT packet can be printed: there is a client id, and everything fits the buffer. */
  predicate ConnectFits(info: ConnectInfo, bufSize: nat) {
    info.clientId != [] && MAX_FIXED_HEADER_SIZE + ConnectSize(info) <= bufSize
  }

  lemma OptionsFit(info: ConnectInfo)
    ensures WillFlags(info) <= 60
  {
  }

  lemma HeaderSize(flags: byte, keepAlive: nat)
    ensures |VariableHeader(flags, keepAlive)| == 10
  {
  }

  /** The first byte of a packet by its four fields, as mqtt_get_type, _dup, _qos and _retain read them. */
  predicate FirstByte(h: byte, kind: int, dup: int, qos: int, retain: int) {
    h / 16 == kind && h / 8 % 2 == dup && h / 2 % 4 == qos && h % 2 == retain
  }

  lemma HeaderFields(kind: int, dup: int, qos: int, retain: int)
    ensures FirstByte(FixedHeader(kind, dup, qos, retain), kind % 16, dup % 2, qos % 4, retain % 2)
  {
    Quotients(kind % 16, dup % 2, qos % 4, retain % 2);
  }

  lemma Quotients(kind: int, dup: int, qos: int, retain: int)
    requires 0 <= kind && 0 <= dup < 2 && 0 <= qos < 4 && 0 <= retain < 2
    ensures var h := kind * 16 + dup * 8 + qos * 2 + retain;
            h / 16 == kind && h / 8 % 2 == dup && h / 2 % 4 == qos && h % 2 == retain
  {
  }

  /** The id after this one; 0 is never used. */
  function NextId(id: word): word {
    if id == 0xFFFF then 1 else id + 1
  }

  // ----- printing -----

  class Connection {
    const buffer: array<byte>
    var start: nat    // message.data, as an offset into buffer
    var length: nat   // message.length
    var messageId: word

    ghost predicate Valid()
      reads this
    {
      MAX_FIXED_HEADER_SIZE <= buffer.Length <= MAX_BUFFER
    }

    /** What has been appended behind the reserved header. */
    ghost function Body(): seq<byte>
      reads this, buffer
      requires MAX_FIXED_HEADER_SIZE <= length <= buffer.Length
    {
      buffer[MAX_FIXED_HEADER_SIZE..length]
    }

    ghost function Message(): seq<byte>
      reads this, buffer
      requires start + length <= buffer.Length
    {
      buffer[start..start + length]
    }

    ghost predicate Appending()
      reads this
    {
      Valid() && MAX_FIXED_HEADER_SIZE <= length <= buffer.Length
    }

    constructor (buffer: array<byte>)
      requires MAX_FIXED_HEADER_SIZE <= buffer.Length <= MAX_BUFFER
      ensures Valid() && this.buffer == buffer && messageId == 0
    {
      this.buffer := buffer;
      start, length, messageId := 0, 0, 0;
    }

    /** mqtt_msg_init on a connection that already has its buffer. */
    method Reset()
      requires Valid()
      modifies this
      ensures Valid() && messageId == 0
    {
      start, length, messageId := 0, 0, 0;
    }

    method InitMessage()
      requires Valid()
      modifies this`length
      ensures Appending() && Body() == []
    {
      length := MAX_FIXED_HEADER_SIZE;
    }

    method AppendBytes(s: seq<byte>)
      requires Appending() && length + |s| <= buffer.Length
      modifies this`length, buffer
      ensures Appending() && length == old(length) + |s| && Body() == old(Body()) + s
      ensures buffer[0] == old(buffer[0])
    {
      var n := length;
      forall i | 0 <= i < |s| {
        buffer[n + i] := s[i];
      }
      length := n + |s|;
      assert buffer[n..length] == s;
    }

    method AppendString(s: seq<byte>) returns (rc: int)
      requires Appending()
      modifies this`length, buffer
      ensures Appending()
      ensures old(length) + |s| + 2 > buffer.Length ==> rc == -1 && length == old(length) && Body() == old(Body())
      ensures old(length) + |s| + 2 <= buffer.Length ==> rc == |s| + 2 && length == old(length) + rc && Body() == old(Body()) + Text(s)
      ensures buffer[0] == old(buffer[0])
    {
      if length + |s| + 2 > buffer.Length {
        return -1;
      }
      AppendBytes([|s| / 256, |s| % 256]);
      AppendBytes(s);
      return |s| + 2;
    }

    /** A zero id asks for the next one; 0 is returned when there is no room. */
    method AppendMessageId(id: word) returns (used: word)
      requires Appending()
      modifies this, buffer
      ensures Appending() && messageId == (if id == 0 then NextId(old(messageId)) else old(messageId))
      ensures old(length) + 2 > buffer.Length ==> used == 0 && Body() == old(Body())
      ensures old(length) + 2 <= buffer.Length ==>
                used == (if id == 0 then messageId else id) && used != 0 && length == old(length) + 2 && Body() == old(Body()) + U16(used)
      ensures buffer[0] == old(buffer[0])
    {
      used := id;
      while used == 0
        invariant id != 0 ==> used == id && messageId == old(messageId)
        invariant id == 0 ==> (used == 0 && (messageId == old(messageId) || (messageId == 0 && old(messageId) == 0xFFFF)))
                              || (used == messageId == NextId(old(messageId)))
        decreases if used == 0 then (if messageId == 0xFFFF then 2 else 1) else 0
        modifies this`messageId
      {
        messageId := if messageId == 0xFFFF then 0 else messageId + 1;
        used := messageId;
      }
      if length + 2 > buffer.Length {
        return 0;
      }
      AppendBytes([used / 256, used % 256]);
    }

    method FailMessage()
      modifies this`start, this`length
      ensures start == 0 && length == 0
    {
      start, length := 0, 0;
    }

    method FiniMessage(kind: int, dup: int, qos: int, retain: int)
      requires Appending()
      modifies this`start, this`length, buffer
      ensures length > 0 && start + length <= buffer.Length
      ensures Message() == Packet(FixedHeader(kind, dup, qos, retain), old(Body()))
      ensures FirstByte(buffer[start], kind % 16, dup % 2, qos % 4, retain % 2)
      ensures buffer[0] == old(buffer[0]) || buffer[0] / 16 == kind % 16
    {
      HeaderFields(kind, dup, qos, retain);
      var remaining := length - MAX_FIXED_HEADER_SIZE;
      ghost var body := Body();
      if remaining > 127 {
        buffer[0] := FixedHeader(kind, dup, qos, retain);
        buffer[1] := 0x80 + remaining % 128;
        buffer[2] := remaining / 128;
        length := remaining + 3;
        start := 0;
        assert RemainingLength(remaining) == [0x80 + remaining % 128] + [remaining / 128];
      } else {
        buffer[1] := FixedHeader(kind, dup, qos, retain);
        buffer[2] := remaining;
        length := remaining + 2;
        start := 1;
      }
      assert Message() == Packet(FixedHeader(kind, dup, qos, retain), body);
    }

    /** Sets flag bits in the variable header of a CONNECT. */
    method SetFlags(bits: nat, ghost flags: byte, ghost keepAlive: nat, ghost rest: seq<byte>)
      requires Appending() && Body() == VariableHeader(flags, keepAlive) + rest && flags + bits < 256
      modifies buffer
      ensures Body() == VariableHeader(flags + bits, keepAlive) + rest
      ensures buffer[0] == old(buffer[0])
    {
      ghost var body := Body();
      assert body[7] == flags;
      buffer[MAX_FIXED_HEADER_SIZE + 7] := buffer[MAX_FIXED_HEADER_SIZE + 7] + bits;
      assert Body() == body[7 := flags + bits];
    }

    /** An optional string of a CONNECT: left out if empty; its flag is set if it fits. */
    method AppendField(s: seq<byte>, bits: nat, ghost flags: byte, ghost keepAlive: nat, ghost rest: seq<byte>) returns (rc: int)
      requires Appending() && Body() == VariableHeader(flags, keepAlive) + rest && flags + bits < 256
      modifies this`length, buffer
      ensures Appending() && length - old(length) <= FieldSize(s)
      ensures rc < 0 <==> old(length) + FieldSize(s) > buffer.Length
      ensures rc >= 0 ==> |s| < 0x1_0000 && length == old(length) + FieldSize(s)
      ensures rc >= 0 ==> Body() == VariableHeader(if s == [] then flags else flags + bits, keepAlive) + (rest + Field(s))
      ensures buffer[0] == old(buffer[0])
    {
      rc := 0;
      if s != [] {
        rc := AppendString(s);
        if rc >= 0 {
          assert Body() == VariableHeader(flags, keepAlive) + (rest + Text(s));
          SetFlags(bits, flags, keepAlive, rest + Text(s));
        }
      } else {
        assert rest + [] == rest;
      }
    }

    /** The will of a CONNECT: topic and message, and its flags if both fit. */
    method AppendWill(info: ConnectInfo, ghost flags: byte, ghost rest: seq<byte>) returns (rc: int)
      requires Appending() && Body() == VariableHeader(flags, info.keepAlive) + rest && flags + WillFlags(info) < 256
      modifies this`length, buffer
      ensures Appending()
      ensures rc < 0 <==> old(length) + WillSize(info) > buffer.Length
      ensures rc >= 0 ==> (info.willTopic != [] ==> |info.willTopic| < 0x1_0000 && |info.willMessage| < 0x1_0000)
      ensures rc >= 0 ==> length == old(length) + WillSize(info)
      ensures rc >= 0 ==> Body() == VariableHeader(flags + WillFlags(info), info.keepAlive) + (rest + WillFields(info))
      ensures buffer[0] == old(buffer[0])
    {
      hide Text;
      rc := 0;
      if info.willTopic != [] {
        rc := AppendString(info.willTopic);
        if rc < 0 {
          return;
        }
        rc := AppendString(info.willMessage);
        if rc < 0 {
          return;
        }
        assert Body() == VariableHeader(flags, info.keepAlive) + (rest + WillFields(info));
        SetFlags(WillFlags(info), flags, info.keepAlive, rest + WillFields(info));
      } else {
        assert rest + [] == rest;
      }
    }

    /** The optional strings of a CONNECT, in their order. */
    method AppendOptions(info: ConnectInfo, ghost flags: byte, ghost rest: seq<byte>) returns (rc: int)
      requires Appending() && Body() == VariableHeader(flags, info.keepAlive) + rest && flags <= 2
      modifies this`length, buffer
      ensures Appending()
      ensures rc < 0 <==> old(length) + WillSize(info) + FieldSize(info.username) + FieldSize(info.password) > buffer.Length
      ensures rc >= 0 ==> OptionTexts(info)
      ensures rc >= 0 ==> Body() == VariableHeader(flags + OptionFlags(info), info.keepAlive) + (rest + OptionFields(info))
      ensures buffer[0] == old(buffer[0])
    {
      hide Text, Field, WillFields, VariableHeader, WillFlags, WillSize;
      OptionsFit(info);
      rc := AppendWill(info, flags, rest);
      if rc < 0 {
        return;
      }
      ghost var flags' := flags + WillFlags(info);
      ghost var rest' := rest + WillFields(info);
      rc := AppendField(info.username, 128, flags', info.keepAlive, rest');
      if rc < 0 {
        return;
      }
      ghost var flags'' := if info.username == [] then flags' else flags' + 128;
      ghost var rest'' := rest' + Field(info.username);
      rc := AppendField(info.password, 64, flags'', info.keepAlive, rest'');
      assert rc >= 0 ==> rest'' + Field(info.password) == rest + OptionFields(info);
    }

    /** mqtt_msg_connect. */
    method Connect(info: ConnectInfo)
      requires Valid()
      modifies this, buffer
      ensures Valid() && start + length <= buffer.Length && messageId == old(messageId)
      ensures length == 0 <==> !ConnectFits(info, buffer.Length)
      ensures length > 0 ==> Texts(info) && Message() == ConnectPacket(info)
      ensures length == 0 ==> start == 0 && buffer[0] == old(buffer[0])
    {
      hide Packet, FixedHeader, FirstByte, Text, OptionFields, OptionTexts, OptionFlags, VariableHeader, WillSize, FieldSize;
      InitMessage();
      if length + 10 > buffer.Length {
        FailMessage();
        return;
      }
      var flags: byte := if info.cleanSession then 2 else 0;
      HeaderSize(flags, info.keepAlive);
      AppendBytes(VariableHeader(flags, info.keepAlive));
      if info.clientId == [] {
        FailMessage();
        return;
      }
      var rc := AppendString(info.clientId);
      if rc < 0 {
        FailMessage();
        return;
      }
      rc := AppendOptions(info, flags, Text(info.clientId));
      if rc < 0 {
        FailMessage();
        return;
      }
      FiniMessage(CONNECT, 0, 0, 0);
    }

    /** Topic, id and payload of a PUBLISH, as far as they fit. */
    method AppendPublish(topic: seq<byte>, payload: seq<byte>, qos: int, pendingId: word) returns (ok: bool, id: word)
      requires Appending() && Body() == []
      modifies this, buffer
      ensures Appending() && buffer[0] == old(buffer[0])
      ensures ok <==> topic != [] && 3 + 2 + |topic| + (if qos > 0 then 2 else 0) + |payload| <= buffer.Length
      ensures ok ==> |topic| < 0x1_0000 && Body() == PublishBody(topic, payload, qos, id)
      ensures ok ==> id == (if qos > 0 then NextId(old(messageId)) else 0) && messageId == (if qos > 0 then id else old(messageId))
    {
      hide U16, Text;
      id := pendingId;
      if topic == [] {
        return false, id;
      }
      var rc := AppendString(topic);
      if rc < 0 {
        return false, id;
      }
      if qos > 0 {
        id := AppendMessageId(0);
        if id == 0 {
          return false, id;
        }
      } else {
        id := 0;
      }
      if length + |payload| > buffer.Length {
        return false, id;
      }
      AppendBytes(payload);
      return true, id;
    }

    /** mqtt_msg_publish; pendingId is the caller's id variable before and after. */
    method Publish(topic: seq<byte>, payload: seq<byte>, qos: int, retain: int, pendingId: word) returns (id: word)
      requires Valid()
      modifies this, buffer
      ensures Valid() && start + length <= buffer.Length
      ensures length == 0 <==> topic == [] || 3 + 2 + |topic| + (if qos > 0 then 2 else 0) + |payload| > buffer.Length
      ensures length > 0 ==> Message() == PublishPacket(topic, payload, 0, qos, retain, id)
      ensures length > 0 ==> FirstByte(buffer[start], 3, 0, qos % 4, retain % 2)
      ensures length > 0 ==> id == (if qos > 0 then NextId(old(messageId)) else 0) && messageId == (if qos > 0 then id else old(messageId))
      ensures buffer[0] == old(buffer[0]) || buffer[0] / 16 == PUBLISH
    {
      hide Packet, FixedHeader, FirstByte, PublishBody;
      InitMessage();
      var ok;
      ok, id := AppendPublish(topic, payload, qos, pendingId);
      if !ok {
        FailMessage();
        return;
      }
      FiniMessage(PUBLISH, 0, qos, retain);
    }

    /** mqtt_msg_puback, _pubrec, _pubrel and _pubcomp: a fixed header and a packet id. */
    method Acknowledge(kind: int, qos: int, id: word)
      requires Valid()
      modifies this, buffer
      ensures Valid() && start + length <= buffer.Length
      ensures length == 0 <==> buffer.Length < 5
      ensures messageId == if id == 0 then NextId(old(messageId)) else old(messageId)
      ensures length > 0 ==> Message() == Packet(FixedHeader(kind, 0, qos, 0), U16(if id == 0 then messageId else id))
      ensures buffer[0] == old(buffer[0]) || buffer[0] / 16 == kind % 16
    {
      hide FirstByte, Packet, FixedHeader;
      InitMessage();
      var used := AppendMessageId(id);
      if used == 0 {
        FailMessage();
        return;
      }
      assert Body() == U16(used);
      FiniMessage(kind, 0, qos, 0);
    }

    /** mqtt_msg_pingreq, _pingresp and _disconnect: a fixed header alone. */
    method Bare(kind: int)
      requires Valid()
      modifies this, buffer
      ensures Valid() && length > 0 && start + length <= buffer.Length
      ensures Message() == Packet(FixedHeader(kind, 0, 0, 0), []) && messageId == old(messageId)
      ensures buffer[0] == old(buffer[0]) || buffer[0] / 16 == kind % 16
    {
      hide FirstByte, Packet, FixedHeader;
      InitMessage();
      FiniMessage(kind, 0, 0, 0);
    }

    /** mqtt_msg_subscribe (with the requested QoS) and mqtt_msg_unsubscribe (without). */
    method TopicRequest(kind: int, topic: seq<byte>, qos: Option<byte>, pendingId: word) returns (id: word)
      requires Valid()
      modifies this, buffer
      ensures Valid() && start + length <= buffer.Length
      ensures length == 0 <==> topic == [] || 3 + 2 + 2 + |topic| + (if qos.Some? then 1 else 0) > buffer.Length
      ensures length > 0 ==>
                && id == NextId(old(messageId)) == messageId && |topic| < 0x1_0000
                && Message() == Packet(FixedHeader(kind, 0, 1, 0), U16(id) + Text(topic) + (if qos.Some? then [qos.value] else []))
      ensures buffer[0] == old(buffer[0]) || buffer[0] / 16 == kind % 16
    {
      hide FirstByte, Packet, FixedHeader;
      id := pendingId;
      InitMessage();
      if topic == [] {
        FailMessage();
        return;
      }
      id := AppendMessageId(0);
      if id == 0 {
        FailMessage();
        return;
      }
      var rc := AppendString(topic);
      if rc < 0 {
        FailMessage();
        return;
      }
      if qos.Some? {
        if length + 1 > buffer.Length {
          FailMessage();
          return;
        }
        AppendBytes([qos.value]);
      }
      assert Body() == U16(id) + Text(topic) + (if qos.Some? then [qos.value] else []);
      FiniMessage(kind, 0, 1, 0);
    }
  }
}
