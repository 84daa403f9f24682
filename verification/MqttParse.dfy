/** esp/src/mqtt/mqtt_msg.c: the fields of a received packet, and what printing and parsing undo. */
module MqttParse {
  import opened Bytes
  import opened MqttMsg
  import opened Options

  function GetType(b: seq<byte>): int
    requires |b| > 0
  {
    b[0] / 16
  }

  function GetQos(b: seq<byte>): int
    requires |b| > 0
  {
    b[0] / 2 % 4
  }

  function Pow128(k: nat): nat {
    if k == 0 then 1 else 128 * Pow128(k - 1)
  }

  /** The Remaining Length bytes from i on, byte 1 being the lowest: their sum and where they end. */
  function Scan(b: seq<byte>, i: nat, length: nat): (r: (nat, nat))
    requires 1 <= i && length <= |b|
    ensures r.1 >= i
    decreases length - i
  {
    if i >= length then (0, i)
    else if b[i] < 128 then (b[i] * Pow128(i - 1), i + 1)
    else
      var (sum, end) := Scan(b, i + 1, length);
      (b[i] % 128 * Pow128(i - 1) + sum, end)
  }

  function TotalLength(b: seq<byte>, length: nat): nat
    requires length <= |b|
  {
    var (sum, end) := Scan(b, 1, length);
    sum + end
  }

  function Join(hi: byte, lo: byte): word {
    (hi as int) * 256 + (lo as int)
  }

  function WordAt(b: seq<byte>, i: nat): word
    requires i + 1 < |b|
  {
    Join(b[i], b[i + 1])
  }

  /** mqtt_get_publish_topic: where the topic starts (None for NULL), and the length written back. */
  function PublishTopic(b: seq<byte>, length: nat): (r: (Option<nat>, nat))
    requires length <= |b|
    ensures r.0.Some? ==> r.0.value + r.1 <= length
  {
    var i := Scan(b, 1, length).1;
    if i + 2 >= length then (None, length)
    else
      var n := WordAt(b, i);
      if i + 2 + n > length then (None, length) else (Some(i + 2), n)
  }

  /** mqtt_get_publish_data: where the payload starts (None for NULL), and the length written back. */
  function PublishData(b: seq<byte>, length: nat): (r: (Option<nat>, nat))
    requires 0 < length <= |b|
    ensures r.0.Some? ==> r.0.value + r.1 <= length
    ensures r.0.None? ==> r.1 == 0
  {
    var (sum, i) := Scan(b, 1, length);
    if i + 2 >= length then (None, 0)
    else
      var j := i + 2 + WordAt(b, i);
      if j >= length then (None, 0)
      else if GetQos(b) > 0 && j + 2 >= length then (None, 0)
      else
        var k := if GetQos(b) > 0 then j + 2 else j;
        if sum + i < k then (None, 0)
        else (Some(k), if sum + i <= length then sum + i - k else length - k)
  }

  /** mqtt_get_id. */
  function GetId(b: seq<byte>, length: nat): word
    requires length <= |b|
  {
    if length < 1 then 0
    else
      var kind := GetType(b);
      if kind == PUBLISH then
        var i := Scan(b, 1, length).1;
        if i + 2 >= length then 0
        else
          var j := i + 2 + WordAt(b, i);
          if j >= length || GetQos(b) == 0 || j + 2 >= length then 0 else WordAt(b, j)
      else if kind in {PUBACK, PUBREC, PUBREL, PUBCOMP, SUBACK, UNSUBACK, SUBSCRIBE} then
        if length >= 4 && b[1] < 128 then WordAt(b, 2) else 0
      else 0
  }

  // ----- the parsers as the source runs them -----

  /** The loop all four parsers start with. */
  method ScanLength(buffer: array<byte>, length: nat) returns (sum: nat, i: nat)
    requires length <= buffer.Length
    ensures (sum, i) == Scan(buffer[..], 1, length)
  {
    sum, i := 0, 1;
    var weight: nat := 1;
    ghost var b := buffer[..];
    while i < length
      invariant 1 <= i && weight == Pow128(i - 1)
      invariant (sum + Scan(b, i, length).0, Scan(b, i, length).1) == Scan(b, 1, length)
      decreases length - i
    {
      sum := sum + (buffer[i] as int) % 128 * weight;
      weight := weight * 128;
      if buffer[i] < 128 {
        i := i + 1;
        return;
      }
      i := i + 1;
    }
  }

  method GetTotalLength(buffer: array<byte>, length: nat) returns (total: nat)
    requires length <= buffer.Length
    ensures total == TotalLength(buffer[..], length)
  {
    var sum, i := ScanLength(buffer, length);
    total := sum + i;
  }

  method GetPublishTopic(buffer: array<byte>, length: nat) returns (at: Option<nat>, topicLength: nat)
    requires length <= buffer.Length
    ensures (at, topicLength) == PublishTopic(buffer[..], length)
  {
    var _, i := ScanLength(buffer, length);
    if i + 2 >= length {
      return None, length;
    }
    var n := Join(buffer[i], buffer[i + 1]);
    i := i + 2;
    if i + n > length {
      return None, length;
    }
    return Some(i), n;
  }

  method GetPublishData(buffer: array<byte>, length: nat) returns (at: Option<nat>, dataLength: nat)
    requires 0 < length <= buffer.Length
    ensures (at, dataLength) == PublishData(buffer[..], length)
  {
    var sum, i := ScanLength(buffer, length);
    var total := sum + i;
    if i + 2 >= length {
      return None, 0;
    }
    var n := Join(buffer[i], buffer[i + 1]);
    i := i + 2;
    if i + n >= length {
      return None, 0;
    }
    i := i + n;
    if buffer[0] / 2 % 4 > 0 {
      if i + 2 >= length {
        return None, 0;
      }
      i := i + 2;
    }
    if total < i {
      return None, 0;
    }
    return Some(i), if total <= length then total - i else length - i;
  }

  method GetPacketId(buffer: array<byte>, length: nat) returns (id: word)
    requires length <= buffer.Length
    ensures id == GetId(buffer[..], length)
  {
    if length < 1 {
      return 0;
    }
    var kind := buffer[0] / 16;
    if kind == PUBLISH {
      var _, i := ScanLength(buffer, length);
      if i + 2 >= length {
        return 0;
      }
      var n := Join(buffer[i], buffer[i + 1]);
      i := i + 2;
      if i + n >= length {
        return 0;
      }
      i := i + n;
      if buffer[0] / 2 % 4 > 0 {
        if i + 2 >= length {
          return 0;
        }
      } else {
        return 0;
      }
      return Join(buffer[i], buffer[i + 1]);
    } else if kind in {PUBACK, PUBREC, PUBREL, PUBCOMP, SUBACK, UNSUBACK, SUBSCRIBE} {
      if length >= 4 && buffer[1] < 128 {
        return Join(buffer[2], buffer[3]);
      }
      return 0;
    }
    return 0;
  }

  // ----- parsing undoes printing -----

  /** The bytes of RemainingLength(n), found from position i on, scan back to n. */
  lemma {:induction false} ScanRemaining(b: seq<byte>, i: nat, length: nat, n: nat)
    requires 1 <= i && i + |RemainingLength(n)| <= length <= |b|
    requires b[i..i + |RemainingLength(n)|] == RemainingLength(n)
    ensures Scan(b, i, length) == (n * Pow128(i - 1), i + |RemainingLength(n)|)
    decreases n
  {
    var r := RemainingLength(n);
    assert b[i] == r[0];
    if n >= 128 {
      var q := RemainingLength(n / 128);
      assert r[1..] == q && b[i + 1..i + 1 + |q|] == b[i..i + |r|][1..];
      ScanRemaining(b, i + 1, length, n / 128);
      Weights(n, Pow128(i - 1));
      assert b[i] % 128 == n % 128;
    }
  }

  lemma Weights(n: nat, w: nat)
    ensures n % 128 * w + n / 128 * (128 * w) == n * w
  {
    assert n == 128 * (n / 128) + n % 128;
    var q, r := n / 128, n % 128;
    assert q * (128 * w) == (128 * q) * w;
    assert r * w + (128 * q) * w == (r + 128 * q) * w;
  }

  /** Where the parts of a printed packet lie in a buffer that starts with it. */
  lemma ScanPacket(b: seq<byte>, length: nat, header: byte, body: seq<byte>)
    requires Packet(header, body) <= b && |Packet(header, body)| <= length <= |b|
    ensures var i := 1 + |RemainingLength(|body|)|;
            Scan(b, 1, length) == (|body|, i) && b[0] == header && i + |body| == |Packet(header, body)|
            && b[i..i + |body|] == body
  {
    var p, r := Packet(header, body), RemainingLength(|body|);
    assert b == p + b[|p|..];
    assert p[1..1 + |r|] == r && b[1..1 + |r|] == r;
    ScanRemaining(b, 1, length, |body|);
    assert p[1 + |r|..] == body && b[1 + |r|..|p|] == body;
  }

  /** A PUBLISH that section 3.3 allows. */
  ghost predicate Printable(topic: seq<byte>, dup: int, qos: int, retain: int, id: word) {
    && 1 <= |topic| < 0x1_0000 && 0 <= qos <= 2 && 0 <= dup <= 1 && 0 <= retain <= 1
    && (qos > 0 ==> id != 0)
  }

  /** Where topic, id and payload lie in a printed body. */
  lemma BodyParts(topic: seq<byte>, payload: seq<byte>, qos: int, id: word)
    requires |topic| < 0x1_0000
    ensures var body := PublishBody(topic, payload, qos, id);
            var j := 2 + |topic|;
            var k := if qos > 0 then j + 2 else j;
            && |body| == k + |payload|
            && Join(body[0], body[1]) == |topic| && body[2..j] == topic && body[k..] == payload
            && (qos > 0 ==> Join(body[j], body[j + 1]) == id)
  {
  }

  /** The parsers' answers, given where the parts of a PUBLISH lie. */
  lemma FieldsParse(b: seq<byte>, length: nat, sum: nat, i: nat, n: nat)
    requires 0 < length <= |b| && Scan(b, 1, length) == (sum, i) && GetType(b) == PUBLISH
    requires 1 <= n && i + 2 + n <= length && WordAt(b, i) == n
    requires var k := i + 2 + n + (if GetQos(b) > 0 then 2 else 0); k <= sum + i <= length
    ensures var j := i + 2 + n;
            var k := if GetQos(b) > 0 then j + 2 else j;
            && TotalLength(b, length) == sum + i
            && PublishTopic(b, length) == (Some(i + 2), n)
            && PublishData(b, length) == (if k < length then Some(k) else None, sum + i - k)
            && GetId(b, length) == if GetQos(b) > 0 && k < length then WordAt(b, j) else 0
  {
    hide Scan;
  }

  /**
   * A printed PUBLISH at the start of a buffer parses back, whatever follows it: length,
   * topic and payload always, the packet id exactly when something follows the id.
   */
  lemma PublishParses(b: seq<byte>, length: nat, topic: seq<byte>, payload: seq<byte>, dup: int, qos: int, retain: int, id: word)
    requires Printable(topic, dup, qos, retain, id)
    requires var p := PublishPacket(topic, payload, dup, qos, retain, id); p <= b && |p| <= length <= |b|
    ensures var p := PublishPacket(topic, payload, dup, qos, retain, id);
            && GetType(b) == PUBLISH && GetQos(b) == qos && b[0] / 8 % 2 == dup && b[0] % 2 == retain
            && TotalLength(b, length) == |p|
            && (var (at, n) := PublishTopic(b, length); at.Some? && b[at.value..at.value + n] == topic)
            && (var (at, n) := PublishData(b, length);
                n == |payload| && (at.Some? ==> b[at.value..at.value + n] == payload))
            && GetId(b, length) == if qos > 0 && (payload != [] || length > |p|) then id else 0
  {
    hide RemainingLength, FixedHeader, Scan, PublishTopic, PublishData, GetId, TotalLength, PublishBody, WordAt, Packet;
    var header, body := FixedHeader(PUBLISH, dup, qos, retain), PublishBody(topic, payload, qos, id);
    ScanPacket(b, length, header, body);
    HeaderFields(PUBLISH, dup, qos, retain);
    var i := 1 + |RemainingLength(|body|)|;
    PartsInBuffer(b, i, topic, payload, qos, id);
    FieldsParse(b, length, |body|, i, |topic|);
  }

  /** The parsers' answers on a PUBLISH that does not end within the data. */
  lemma CutFields(b: seq<byte>, length: nat, sum: nat, i: nat, n: nat)
    requires 0 < length <= |b| && Scan(b, 1, length) == (sum, i) && GetType(b) == PUBLISH
    requires 1 <= n && i + 2 + n < length && WordAt(b, i) == n
    requires var k := i + 2 + n + (if GetQos(b) > 0 then 2 else 0); k < length < sum + i
    ensures var j := i + 2 + n;
            var k := if GetQos(b) > 0 then j + 2 else j;
            && TotalLength(b, length) == sum + i
            && PublishTopic(b, length) == (Some(i + 2), n)
            && PublishData(b, length) == (Some(k), length - k)
  {
    hide Scan;
  }

  lemma IdField(b: seq<byte>, length: nat, sum: nat, i: nat, n: nat)
    requires 0 < length <= |b| && Scan(b, 1, length) == (sum, i) && GetType(b) == PUBLISH
    requires 1 <= n && i + 2 + n < length && WordAt(b, i) == n
    requires GetQos(b) > 0 ==> i + 4 + n < length
    ensures GetId(b, length) == if GetQos(b) > 0 then WordAt(b, i + 2 + n) else 0
  {
    hide Scan;
  }

  function PayloadAt(topic: seq<byte>, payload: seq<byte>, dup: int, qos: int, retain: int, id: word): nat
    requires |topic| < 0x1_0000
    ensures PayloadAt(topic, payload, dup, qos, retain, id) + |payload| == |PublishPacket(topic, payload, dup, qos, retain, id)|
  {
    1 + |RemainingLength(|PublishBody(topic, payload, qos, id)|)| + 2 + |topic| + if qos > 0 then 2 else 0
  }

  /**
   * A PUBLISH of which only the first bytes have arrived, some of the payload among them: its
   * full length, its topic and id are read, and what there is of the payload.
   */
  lemma CutPublishParses(b: seq<byte>, length: nat, topic: seq<byte>, payload: seq<byte>, dup: int, qos: int, retain: int, id: word)
    requires Printable(topic, dup, qos, retain, id)
    requires PayloadAt(topic, payload, dup, qos, retain, id) < length < |PublishPacket(topic, payload, dup, qos, retain, id)|
    requires length <= |b| && b[..length] == PublishPacket(topic, payload, dup, qos, retain, id)[..length]
    ensures var p, o := PublishPacket(topic, payload, dup, qos, retain, id), PayloadAt(topic, payload, dup, qos, retain, id);
            && GetType(b) == PUBLISH && GetQos(b) == qos && b[0] / 8 % 2 == dup && b[0] % 2 == retain
            && TotalLength(b, length) == |p|
            && (var (at, n) := PublishTopic(b, length); at.Some? && b[at.value..at.value + n] == topic)
            && PublishData(b, length) == (Some(o), length - o) && b[o..length] == payload[..length - o]
            && GetId(b, |b|) == if qos > 0 then id else 0
  {
    hide RemainingLength, FixedHeader, Scan, PublishTopic, PublishData, GetId, TotalLength, PublishBody, WordAt;
    var header, body := FixedHeader(PUBLISH, dup, qos, retain), PublishBody(topic, payload, qos, id);
    HeaderFields(PUBLISH, dup, qos, retain);
    var i := 1 + |RemainingLength(|body|)|;
    CutParts(b, length, header, topic, payload, qos, id);
    ScanRemaining(b, 1, length, |body|);
    ScanRemaining(b, 1, |b|, |body|);
    CutFields(b, length, |body|, i, |topic|);
    IdField(b, |b|, |body|, i, |topic|);
  }

  /** Where the parts of a cut PUBLISH lie. */
  lemma CutParts(b: seq<byte>, length: nat, header: byte, topic: seq<byte>, payload: seq<byte>, qos: int, id: word)
    requires |topic| < 0x1_0000
    requires var body := PublishBody(topic, payload, qos, id);
             var k := 1 + |RemainingLength(|body|)| + 2 + |topic| + (if qos > 0 then 2 else 0);
             k < length < |Packet(header, body)| && length <= |b| && b[..length] == Packet(header, body)[..length]
    ensures var r := RemainingLength(|PublishBody(topic, payload, qos, id)|);
            var i := 1 + |r|;
            var j := i + 2 + |topic|;
            var k := if qos > 0 then j + 2 else j;
            && b[0] == header && b[1..i] == r && WordAt(b, i) == |topic| && b[i + 2..j] == topic
            && (qos > 0 ==> WordAt(b, j) == id)
            && b[k..length] == payload[..length - k]
  {
    hide RemainingLength, PublishBody, Join;
    var body := PublishBody(topic, payload, qos, id);
    var p, r := Packet(header, body), RemainingLength(|body|);
    var i := 1 + |r|;
    assert p[1..i] == r && p[i..i + |body|] == body;
    PartsInBuffer(p, i, topic, payload, qos, id);
    var j := i + 2 + |topic|;
    var k := if qos > 0 then j + 2 else j;
    SamePrefix(b, p, length, 1, i);
    SamePrefix(b, p, length, i, i + 2);
    SamePrefix(b, p, length, i + 2, j);
    SamePrefix(b, p, length, j, k);
    SamePrefix(b, p, length, k, length);
    TakeOfSlice(p, k, length, |payload|);
  }

  lemma TakeOfSlice(p: seq<byte>, k: nat, length: nat, n: nat)
    requires k <= length <= k + n <= |p|
    ensures p[k..length] == p[k..k + n][..length - k]
  {
  }

  lemma SamePrefix(b: seq<byte>, p: seq<byte>, length: nat, x: nat, y: nat)
    requires length <= |b| && length <= |p| && b[..length] == p[..length]
    requires x <= y <= length
    ensures b[x..y] == p[x..y]
    ensures x < y ==> b[x] == p[x] && b[y - 1] == p[y - 1]
    ensures 0 < length ==> b[0] == p[0]
  {
    forall z | 0 <= z < length ensures b[z] == p[z] {
      assert b[..length][z] == p[..length][z];
    }
  }

  /** Where the topic starts. */
  function TopicAt(topic: seq<byte>, payload: seq<byte>, qos: int, id: word): nat
    requires |topic| < 0x1_0000
  {
    3 + |RemainingLength(|PublishBody(topic, payload, qos, id)|)|
  }

  lemma EarlyParts(b: seq<byte>, length: nat, header: byte, topic: seq<byte>, payload: seq<byte>, qos: int, id: word)
    requires 1 <= |topic| < 0x1_0000
    requires var body := PublishBody(topic, payload, qos, id);
             1 + |RemainingLength(|body|)| <= length <= |b| && length < |Packet(header, body)| && b[..length] == Packet(header, body)[..length]
    ensures var r := RemainingLength(|PublishBody(topic, payload, qos, id)|);
            var i := 1 + |r|;
            && b[0] == header && b[1..i] == r
            && (i + 2 <= length ==> WordAt(b, i) == |topic|)
            && (i + 2 + |topic| <= length ==> b[i + 2..i + 2 + |topic|] == topic)
  {
    hide RemainingLength, PublishBody, Join;
    var body := PublishBody(topic, payload, qos, id);
    var p, r := Packet(header, body), RemainingLength(|body|);
    var i := 1 + |r|;
    assert p[1..i] == r && p[i..i + |body|] == body;
    PartsInBuffer(p, i, topic, payload, qos, id);
    SamePrefix(b, p, length, 1, i);
    if i + 2 <= length {
      SamePrefix(b, p, length, i, i + 2);
    }
    if i + 2 + |topic| <= length {
      SamePrefix(b, p, length, i + 2, i + 2 + |topic|);
    }
  }

  /** A PUBLISH cut behind its length and before its payload has its topic only if that is whole, and no payload. */
  lemma CutEarlyParses(b: seq<byte>, length: nat, topic: seq<byte>, payload: seq<byte>, dup: int, qos: int, retain: int, id: word)
    requires Printable(topic, dup, qos, retain, id)
    requires TopicAt(topic, payload, qos, id) - 2 <= length <= PayloadAt(topic, payload, dup, qos, retain, id)
    requires length < |PublishPacket(topic, payload, dup, qos, retain, id)|
    requires length <= |b| && b[..length] == PublishPacket(topic, payload, dup, qos, retain, id)[..length]
    ensures var p, o := PublishPacket(topic, payload, dup, qos, retain, id), TopicAt(topic, payload, qos, id);
            && GetType(b) == PUBLISH && GetQos(b) == qos && b[0] / 8 % 2 == dup && b[0] % 2 == retain
            && TotalLength(b, length) == |p|
            && PublishData(b, length).0.None?
            && if o + |topic| <= length then PublishTopic(b, length) == (Some(o), |topic|) && b[o..o + |topic|] == topic
               else PublishTopic(b, length).0.None?
  {
    hide RemainingLength, FixedHeader, Scan, PublishBody, WordAt;
    var header, body := FixedHeader(PUBLISH, dup, qos, retain), PublishBody(topic, payload, qos, id);
    HeaderFields(PUBLISH, dup, qos, retain);
    EarlyParts(b, length, header, topic, payload, qos, id);
    ScanRemaining(b, 1, length, |body|);
  }

  lemma PartsInBuffer(b: seq<byte>, i: nat, topic: seq<byte>, payload: seq<byte>, qos: int, id: word)
    requires |topic| < 0x1_0000
    requires var body := PublishBody(topic, payload, qos, id); i + |body| <= |b| && b[i..i + |body|] == body
    ensures var j := i + 2 + |topic|;
            var k := if qos > 0 then j + 2 else j;
            && k + |payload| <= |b| && k + |payload| == i + |PublishBody(topic, payload, qos, id)|
            && WordAt(b, i) == |topic| && b[i + 2..j] == topic && b[k..k + |payload|] == payload
            && (qos > 0 ==> WordAt(b, j) == id)
  {
    var body := PublishBody(topic, payload, qos, id);
    BodyParts(topic, payload, qos, id);
    var j := 2 + |topic|;
    var k := if qos > 0 then j + 2 else j;
    assert forall n :: 0 <= n < |body| ==> body[n] == b[i + n];
    assert b[i + 2..i + j] == body[2..j];
    assert b[i + k..i + k + |payload|] == body[k..];
  }
}
