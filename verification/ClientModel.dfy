/**
 * What the MQTT client of esp/src/mqtt/mqtt.c does, cut into the smallest steps its calls,
 * callbacks, timer and task are made of. A run is any sequence of these steps.
 */
module ClientModel {
  import opened Bytes
  import opened Options
  import opened Proto
  import opened Queue
  import Msg = MqttMsg

  const MQTT_SEND_TIMEOUT: nat := 5
  const MQTT_RECONNECT_TIMEOUT: nat := 5

  datatype ConnState =
    | WifiInit | TcpDisconnecting | TcpDisconnected | TcpReconnectDisconnecting | TcpReconnectReq | TcpReconnect
    | TcpConnecting | MqttConnectSending | MqttData | MqttKeepaliveSend | MqttDeleting | MqttDeleted

  /** What can be seen on the TCP connections, one after the other. */
  datatype LinkEvent =
    | LinkUp | LinkDown
    | SentConnect(connect: seq<byte>)
    | GotConnack(rc: byte)             // a CONNACK that came while connecting, with its return code
    | SentOther(packet: seq<byte>)

  /** Sizes and settings that never change: ring, packet buffers, what CONNECT says. */
  datatype Config = Config(ringSize: nat, bufSize: nat, info: Msg.ConnectInfo) {

    /** mqtt_msg_connect succeeds. */
    predicate Greets() {
      Msg.ConnectFits(info, bufSize) && Msg.Texts(info)
    }
  }

  datatype View = View(
    conn: ConnState, hasCon: bool, up: bool, timerOn: bool, pendingType: int,
    keepAliveTick: nat, reconnectTick: nat, sendTimeout: nat,
    ring: seq<byte>,
    log: seq<LinkEvent>,                      // everything seen on the connections
    queued: seq<seq<byte>>,                   // the packets whose QUEUE_Puts succeeded
    sent: seq<seq<byte>>,                     // the packets taken from the queue and sent
    delivered: seq<(Option<seq<byte>>, seq<byte>)>    // topic (None for NULL) and payload of each dataCb call
  )

  datatype Act =
    | Enqueue(packet: seq<byte>)       // MQTT_Publish and its siblings: put, dropping old chunks
    | Respond(packet: seq<byte>)       // an answer in the receive loop: one QUEUE_Puts
    | Touch                            // the receive callback starts
    | Connack(rc: byte)                // it sees a CONNACK
    | Deliver(topic: Option<seq<byte>>, payload: seq<byte>)
    | CallConnect | CallDisconnect | CallDelete
    | DnsFound(found: bool, usable: bool)
    | ConnectCb(oldType: int)          // the type in the first byte of out_buffer, if CONNECT does not fit it
    | ReconnectCb | DisconnectCb | SentCb
    | Timer
    | Task(sendOk: bool, stale: seq<byte>)    // espconn's answer to a ping; what is left in dataBuffer

  // ----- one step -----

  ghost predicate Sized(cfg: Config, v: View) {
    |v.ring| <= cfg.ringSize
  }

  ghost function Next(cfg: Config, v: View, a: Act): (v': View)
    requires Sized(cfg, v)
  {
    match a
    case Enqueue(m) => NextEnqueue(cfg, v, m)
    case Respond(m) => NextRespond(cfg, v, m)
    case Touch => if v.up then v.(keepAliveTick := 0) else v
    case Connack(rc) =>
      if v.up && v.conn.MqttConnectSending? then
        v.(conn := if v.pendingType == Msg.CONNECT && rc == 0 then MqttData else v.conn, log := v.log + [GotConnack(rc)])
      else v
    case Deliver(t, p) => v.(delivered := v.delivered + [(t, p)])
    case CallConnect => Reconnected(v)
    case CallDisconnect => v.(conn := TcpDisconnecting, timerOn := false)
    case CallDelete => v.(conn := MqttDeleted, timerOn := false)
    case DnsFound(found, usable) =>
      if !v.hasCon then v
      else if !found then v.(conn := TcpReconnectReq)
      else if usable then v.(conn := TcpConnecting)
      else v
    case ConnectCb(oldType) => if v.hasCon then NextConnected(cfg, v, oldType) else v
    case ReconnectCb =>
      if !v.hasCon then v else v.(conn := TcpReconnectReq, up := false, log := v.log + [LinkDown])
    case DisconnectCb =>
      if !v.up then v
      else v.(up := false, log := v.log + [LinkDown],
              conn := if v.conn.TcpDisconnecting? then TcpDisconnected
                      else if v.conn.MqttDeleting? then MqttDeleted else TcpReconnectReq)
    case SentCb => if v.up then v.(sendTimeout := 0, keepAliveTick := 0) else v
    case Timer => if v.timerOn then NextTimer(cfg, v) else v
    case Task(sendOk, stale) => NextTask(cfg, v, sendOk, stale)
  }

  /** The CONNECT goes out, if mqtt_msg_connect could print it; the state is the same either way. */
  function NextConnected(cfg: Config, v: View, oldType: int): View {
    v.(conn := MqttConnectSending, up := true, sendTimeout := MQTT_SEND_TIMEOUT,
       pendingType := if cfg.Greets() then Msg.CONNECT else oldType,
       log := v.log + (if cfg.Greets() then [LinkUp, SentConnect(Msg.ConnectPacket(cfg.info))] else [LinkUp]))
  }

  /** The larger steps by name. */
  lemma NextOf(cfg: Config, v: View, oldType: int, sendOk: bool, stale: seq<byte>)
    requires Sized(cfg, v)
    ensures v.timerOn ==> Next(cfg, v, Timer) == NextTimer(cfg, v)
    ensures v.hasCon ==> Next(cfg, v, ConnectCb(oldType)) == NextConnected(cfg, v, oldType)
    ensures Next(cfg, v, Task(sendOk, stale)) == NextTask(cfg, v, sendOk, stale)
  {
    hide NextTimer, NextConnected, NextTask;
  }

  ghost function NextEnqueue(cfg: Config, v: View, m: seq<byte>): View
    requires Sized(cfg, v)
  {
    FrameIsFrame(m);
    var (ok, ring) := Retry(cfg.ringSize, v.ring, Frame(m));
    v.(ring := ring, queued := if ok then v.queued + [m] else v.queued)
  }

  ghost function NextRespond(cfg: Config, v: View, m: seq<byte>): View
    requires Sized(cfg, v)
  {
    var f := Frame(m);
    if |v.ring| + |f| <= cfg.ringSize then v.(ring := v.ring + f, queued := v.queued + [m])
    else v.(ring := v.ring + f[..cfg.ringSize - |v.ring|])
  }

  /** mqtt_tcpclient_delete and MQTT_Connect. */
  function Deleted(v: View): View {
    if v.hasCon then v.(hasCon := false, up := false, log := v.log + [LinkDown]) else v
  }

  function Reconnected(v: View): View {
    Deleted(v).(hasCon := true, keepAliveTick := 0, reconnectTick := 0, timerOn := true, conn := TcpConnecting)
  }

  function NextTimer(cfg: Config, v: View): View {
    var w :=
      if v.conn.MqttData? then
        var tick := v.keepAliveTick + 1;
        v.(keepAliveTick := tick, conn := if tick > cfg.info.keepAlive / 2 then MqttKeepaliveSend else v.conn)
      else if v.conn.TcpReconnectReq? then
        var tick := v.reconnectTick + 1;
        if tick > MQTT_RECONNECT_TIMEOUT then v.(reconnectTick := 0, conn := TcpReconnect) else v.(reconnectTick := tick)
      else v;
    w.(sendTimeout := if w.sendTimeout > 0 then w.sendTimeout - 1 else 0)
  }

  const PING: seq<byte> := Msg.Packet(Msg.FixedHeader(Msg.PINGREQ, 0, 0, 0), [])

  ghost function NextTask(cfg: Config, v: View, sendOk: bool, stale: seq<byte>): View
    requires Sized(cfg, v)
  {
    match v.conn
    case TcpReconnect => Reconnected(v)
    case TcpDisconnected => Deleted(v)
    case MqttDeleted => Deleted(v).(conn := WifiInit)
    case MqttKeepaliveSend =>
      var w := v.(pendingType := Msg.PINGREQ, sendTimeout := MQTT_SEND_TIMEOUT, log := v.log + [SentOther(PING)]);
      if sendOk then w.(keepAliveTick := 0, conn := MqttData) else w.(conn := TcpReconnectDisconnecting)
    case MqttData => if v.ring == [] || v.sendTimeout != 0 then v else NextSend(cfg, v, stale)
    case _ => v
  }

  /** The oldest message of the queue is sent; a ring without one is drained. */
  ghost function NextSend(cfg: Config, v: View, stale: seq<byte>): View
    requires Sized(cfg, v)
  {
    if END !in v.ring then v.(ring := [])
    else
      var m := Decode(cfg.bufSize, false, v.ring[..EndPos(v.ring)]);
      v.(ring := v.ring[EndPos(v.ring) + 1..],
         pendingType := TypeOf(if m == [] then stale else m), sendTimeout := MQTT_SEND_TIMEOUT,
         log := v.log + [SentOther(m)], sent := v.sent + [m])
  }

  lemma NothingToSend(cfg: Config, v: View, stale: seq<byte>)
    requires Sized(cfg, v) && v.conn.MqttData? && (v.ring == [] || v.sendTimeout != 0)
    ensures NextTask(cfg, v, true, stale) == v
  {
  }

  /** The branch of the task that sends, with whatever garbage the parser started from. */
  lemma SendsOldest(cfg: Config, v: View, garbage: bool, packet: seq<byte>, first: byte)
    requires Sized(cfg, v) && v.conn.MqttData? && Framed(cfg.bufSize, v.ring) && v.ring != [] && v.sendTimeout == 0
    requires END in v.ring && packet == Decode(cfg.bufSize, garbage, v.ring[..EndPos(v.ring)])
    requires packet != [] ==> packet[0] == first
    ensures NextTask(cfg, v, true, [first]) ==
            v.(ring := v.ring[EndPos(v.ring) + 1..])
             .(pendingType := first / 16, sendTimeout := MQTT_SEND_TIMEOUT)
             .(log := v.log + [SentOther(packet)], sent := v.sent + [packet])
  {
    hide Decode, EndPos, Framed;
    AnyGarbage(cfg.bufSize, garbage, v.ring);
  }

  lemma DrainsTorn(cfg: Config, v: View, stale: seq<byte>)
    requires Sized(cfg, v) && v.conn.MqttData? && v.ring != [] && v.sendTimeout == 0 && END !in v.ring
    ensures NextTask(cfg, v, true, stale) == v.(ring := [])
  {
  }

  function TypeOf(m: seq<byte>): int {
    if m == [] then 0 else m[0] / 16
  }

  // ----- runs -----

  /** Packets come out of a buffer of bufSize bytes, in which a CONNECT that cannot be printed never was. */
  predicate Allowed(cfg: Config, a: Act) {
    match a
    case Enqueue(m) => |m| <= cfg.bufSize
    case Respond(m) => |m| <= cfg.bufSize
    case ConnectCb(oldType) => !cfg.Greets() ==> oldType != Msg.CONNECT
    case _ => true
  }

  /** MQTT_InitConnection and MQTT_InitClient. */
  function Initial(): View {
    View(WifiInit, false, false, false, 0, 0, 0, 0, [], [], [], [], [])
  }

  ghost predicate AllAllowed(cfg: Config, acts: seq<Act>) {
    forall i :: 0 <= i < |acts| ==> Allowed(cfg, acts[i])
  }

  lemma NextSized(cfg: Config, v: View, a: Act)
    requires Sized(cfg, v)
    ensures Sized(cfg, Next(cfg, v, a))
  {
    match a
    case Enqueue(m) =>
      FrameIsFrame(m);
      RetrySized(cfg.ringSize, v.ring, Frame(m));
    case _ =>
  }

  lemma {:induction false} RetrySized(size: nat, c: seq<byte>, f: seq<byte>)
    requires |c| <= size && IsFrame(f)
    ensures |Retry(size, c, f).1| <= size
    decreases |Chunks(c)|
  {
    if |c| + |f| > size && END in c {
      DropShortens(size, c, f);
      RetrySized(size, TornAndDropped(size, c, f), f);
    }
  }

  ghost function Run(cfg: Config, v: View, acts: seq<Act>): (w: View)
    requires Sized(cfg, v)
    ensures Sized(cfg, w)
    decreases |acts|
  {
    if acts == [] then v
    else
      NextSized(cfg, v, acts[0]);
      Run(cfg, Next(cfg, v, acts[0]), acts[1..])
  }

  lemma RunOne(cfg: Config, v: View, a: Act)
    requires Sized(cfg, v)
    ensures Run(cfg, v, [a]) == Next(cfg, v, a)
  {
    NextSized(cfg, v, a);
    assert [a][1..] == [];
  }

  lemma {:induction false} RunConcat(cfg: Config, v: View, a: seq<Act>, b: seq<Act>)
    requires Sized(cfg, v)
    ensures Run(cfg, v, a + b) == Run(cfg, Run(cfg, v, a), b)
    decreases |a|
  {
    hide Next, Sized;
    if a == [] {
      assert a + b == b;
    } else {
      NextSized(cfg, v, a[0]);
      assert (a + b)[1..] == a[1..] + b;
      RunConcat(cfg, Next(cfg, v, a[0]), a[1..], b);
    }
  }

  // ----- the queue: what is sent was accepted, once and in order -----

  /** a is the subsequence of q picked by the increasing positions idx. */
  ghost predicate Picks(idx: seq<nat>, a: seq<seq<byte>>, q: seq<seq<byte>>) {
    && |idx| == |a|
    && (forall i :: 0 <= i < |idx| ==> idx[i] < |q| && a[i] == q[idx[i]])
    && (forall i, j :: 0 <= i < j < |idx| ==> idx[i] < idx[j])
  }

  /** What was sent and what still waits, in this order, is part of what was accepted. */
  ghost predicate InOrder(cap: nat, ring: seq<byte>, sent: seq<seq<byte>>, queued: seq<seq<byte>>) {
    Framed(cap, ring) && exists idx :: Picks(idx, sent + Messages(cap, ring), queued)
  }

  ghost predicate Orderly(cfg: Config, v: View) {
    InOrder(cfg.bufSize, v.ring, v.sent, v.queued)
  }

  lemma OrderlyIsFramed(cfg: Config, v: View)
    requires Orderly(cfg, v)
    ensures Framed(cfg.bufSize, v.ring)
  {
  }

  lemma PicksDrop(idx: seq<nat>, a: seq<seq<byte>>, b: seq<seq<byte>>, q: seq<seq<byte>>, k: nat) returns (jdx: seq<nat>)
    requires Picks(idx, a + b, q) && k <= |b|
    ensures Picks(jdx, a + b[k..], q)
  {
    jdx := idx[..|a|] + idx[|a| + k..];
    forall i | 0 <= i < |jdx|
      ensures jdx[i] < |q| && (a + b[k..])[i] == q[jdx[i]]
    {
      var j := if i < |a| then i else i + k;
      assert jdx[i] == idx[j] && (a + b[k..])[i] == (a + b)[j];
    }
  }

  lemma PicksAdd(idx: seq<nat>, a: seq<seq<byte>>, q: seq<seq<byte>>, m: seq<byte>)
    requires Picks(idx, a, q)
    ensures Picks(idx + [|q|], a + [m], q + [m]) && Picks(idx, a, q + [m])
  {
  }

  lemma NothingLeft(cap: nat)
    ensures Messages(cap, []) == [] && Framed(cap, [])
  {
    EmptyIsFramed(cap);
  }

  /** The ring lost its k oldest messages and nothing else. */
  lemma InOrderDrop(cap: nat, ring: seq<byte>, ring': seq<byte>, sent: seq<seq<byte>>, queued: seq<seq<byte>>, k: nat)
    requires InOrder(cap, ring, sent, queued) && Framed(cap, ring')
    requires k <= |Messages(cap, ring)| && Messages(cap, ring') == Messages(cap, ring)[k..]
    ensures InOrder(cap, ring', sent, queued)
  {
    hide Framed, Messages;
    var ms := Messages(cap, ring);
    var idx :| Picks(idx, sent + ms, queued);
    var jdx := PicksDrop(idx, sent, ms, queued, k);
  }

  /** The ring lost its k oldest messages and got m at the end. */
  lemma InOrderAdd(cap: nat, ring: seq<byte>, ring': seq<byte>, sent: seq<seq<byte>>, queued: seq<seq<byte>>, k: nat, m: seq<byte>)
    requires InOrder(cap, ring, sent, queued) && Framed(cap, ring')
    requires k <= |Messages(cap, ring)| && Messages(cap, ring') == Messages(cap, ring)[k..] + [m]
    ensures InOrder(cap, ring', sent, queued + [m])
  {
    hide Framed, Messages, Picks;
    var ms := Messages(cap, ring);
    var idx :| Picks(idx, sent + ms, queued);
    var jdx := PicksDrop(idx, sent, ms, queued, k);
    PicksAdd(jdx, sent + ms[k..], queued, m);
    assert sent + ms[k..] + [m] == sent + (ms[k..] + [m]);
  }

  lemma EnqueueInOrder(size: nat, cap: nat, ring: seq<byte>, sent: seq<seq<byte>>, queued: seq<seq<byte>>, m: seq<byte>)
    requires |ring| <= size && |m| <= cap && InOrder(cap, ring, sent, queued) && IsFrame(Frame(m))
    ensures var (ok, ring') := Retry(size, ring, Frame(m)); InOrder(cap, ring', sent, if ok then queued + [m] else queued)
  {
    hide Messages, Retry, Frame, IsFrame, Picks;
    var (ok, ring') := Retry(size, ring, Frame(m));
    RetryOutcome(size, cap, ring, m);
    RetryFramed(size, cap, ring, m);
    CutNoneOrSome(cap, ring);
    var ms := Messages(cap, ring);
    if !ok {
      NothingLeft(cap);
      InOrderDrop(cap, ring, ring', sent, queued, |ms|);
    } else if |ring| + |Frame(m)| <= size {
      assert ms[0..] == ms;
      InOrderAdd(cap, ring, ring', sent, queued, 0, m);
    } else {
      InOrderAdd(cap, ring, ring', sent, queued, FirstFit(Chunks(ring), |Frame(m)|) + 1, m);
    }
  }

  lemma RespondInOrder(size: nat, cap: nat, ring: seq<byte>, sent: seq<seq<byte>>, queued: seq<seq<byte>>, m: seq<byte>)
    requires |ring| <= size && |m| <= cap && InOrder(cap, ring, sent, queued)
    ensures var f := Frame(m);
            if |ring| + |f| <= size then InOrder(cap, ring + f, sent, queued + [m])
            else InOrder(cap, ring + f[..size - |ring|], sent, queued)
  {
    hide Messages, Frame, Picks;
    var f, ms := Frame(m), Messages(cap, ring);
    assert ms[0..] == ms;
    if |ring| + |f| <= size {
      FramedPut(cap, ring, m, |f|);
      assert f[..|f|] == f;
      FrameAddsMessage(cap, ring, m);
      InOrderAdd(cap, ring, ring + f, sent, queued, 0, m);
    } else {
      var k := size - |ring|;
      FramedPut(cap, ring, m, k);
      TornHasNoEnd(m, k);
      TornAddsNothing(cap, ring, f[..k]);
      InOrderDrop(cap, ring, ring + f[..k], sent, queued, 0);
    }
  }

  lemma DrainInOrder(cap: nat, ring: seq<byte>, sent: seq<seq<byte>>, queued: seq<seq<byte>>)
    requires InOrder(cap, ring, sent, queued) && END !in ring
    ensures InOrder(cap, [], sent, queued)
  {
    hide Picks;
    CutNone(cap, ring);
    NothingLeft(cap);
    InOrderDrop(cap, ring, [], sent, queued, 0);
  }

  lemma SendInOrder(cap: nat, ring: seq<byte>, sent: seq<seq<byte>>, queued: seq<seq<byte>>)
    requires InOrder(cap, ring, sent, queued) && END in ring
    ensures InOrder(cap, ring[EndPos(ring) + 1..], sent + [Decode(cap, false, ring[..EndPos(ring)])], queued)
  {
    hide Messages, Picks, Decode, Framed, EndPos;
    var idx :| Picks(idx, sent + Messages(cap, ring), queued);
    OldestMessage(cap, false, ring);
    var m, rest := Decode(cap, false, ring[..EndPos(ring)]), Messages(cap, ring[EndPos(ring) + 1..]);
    assert sent + ([m] + rest) == sent + [m] + rest;
  }

  lemma TaskOrderly(cfg: Config, v: View, sendOk: bool, stale: seq<byte>)
    requires Sized(cfg, v) && Orderly(cfg, v)
    ensures Orderly(cfg, NextTask(cfg, v, sendOk, stale))
  {
    hide InOrder, EndPos, Decode;
    if END in v.ring {
      SendInOrder(cfg.bufSize, v.ring, v.sent, v.queued);
    } else {
      DrainInOrder(cfg.bufSize, v.ring, v.sent, v.queued);
    }
  }

  lemma NextOrderly(cfg: Config, v: View, a: Act)
    requires Sized(cfg, v) && Allowed(cfg, a) && Orderly(cfg, v)
    ensures Orderly(cfg, Next(cfg, v, a))
  {
    hide InOrder, Retry, Frame, IsFrame, NextTask;
    match a
    case Enqueue(m) =>
      FrameIsFrame(m);
      EnqueueInOrder(cfg.ringSize, cfg.bufSize, v.ring, v.sent, v.queued, m);
    case Respond(m) => RespondInOrder(cfg.ringSize, cfg.bufSize, v.ring, v.sent, v.queued, m);
    case Task(sendOk, stale) => TaskOrderly(cfg, v, sendOk, stale);
    case _ =>
  }

  // ----- the connection: CONNECT first, then nothing before CONNACK -----

  /** Opened is a link just up; Mute one that was not greeted and has seen a CONNACK nobody asked for. */
  datatype Phase = Closed | Opened | Mute | Greeted | Open | Broken

  function PhaseAfter(p: Phase, e: LinkEvent): Phase {
    match e
    case LinkUp => if p.Broken? then Broken else Opened
    case LinkDown => if p.Broken? then Broken else Closed
    case SentConnect(_) => if p.Opened? then Greeted else Broken
    case GotConnack(rc) => if p.Greeted? then (if rc == 0 then Open else Greeted) else if p.Opened? || p.Mute? then Mute else Broken
    case SentOther(_) => if p.Open? then Open else Broken
  }

  function PhaseOf(log: seq<LinkEvent>): Phase {
    if log == [] then Closed else PhaseAfter(PhaseOf(log[..|log| - 1]), log[|log| - 1])
  }

  /** Every link is greeted at once if CONNECT can be printed, and none is if it cannot. */
  ghost predicate Greeting(cfg: Config, log: seq<LinkEvent>) {
    forall i :: 0 <= i < |log| ==> GreetedAt(cfg, log, i)
  }

  predicate GreetedAt(cfg: Config, log: seq<LinkEvent>, i: nat)
    requires i < |log|
  {
    && (log[i].LinkUp? ==>
          (cfg.Greets() <==> i + 1 < |log| && log[i + 1].SentConnect?))
    && (log[i].SentConnect? ==> cfg.Greets() && log[i] == SentConnect(Msg.ConnectPacket(cfg.info)))
  }

  ghost predicate Polite(cfg: Config, v: View) {
    var p := PhaseOf(v.log);
    && !p.Broken?
    && (if cfg.Greets() then !p.Opened? && !p.Mute? else p.Closed? || p.Opened? || p.Mute?)
    && (v.up <==> !p.Closed?)
    && (v.up ==> v.hasCon)
    && (v.conn.MqttConnectSending? ==> (if cfg.Greets() then p.Greeted? else p.Opened? || p.Mute?) && (cfg.Greets() <==> v.pendingType == Msg.CONNECT))
    && (v.conn.MqttData? || v.conn.MqttKeepaliveSend? ==> p.Open?)
    && Greeting(cfg, v.log)
  }

  lemma PhaseSnoc(log: seq<LinkEvent>, e: LinkEvent)
    ensures PhaseOf(log + [e]) == PhaseAfter(PhaseOf(log), e)
  {
    assert (log + [e])[..|log|] == log;
  }

  /** One more event that neither raises a link nor greets. */
  lemma LogNext(cfg: Config, log: seq<LinkEvent>, e: LinkEvent)
    requires Greeting(cfg, log) && !e.LinkUp? && !e.SentConnect?
    ensures PhaseOf(log + [e]) == PhaseAfter(PhaseOf(log), e)
    ensures Greeting(cfg, log + [e])
  {
    hide PhaseOf;
    PhaseSnoc(log, e);
    forall i | 0 <= i < |log + [e]|
      ensures GreetedAt(cfg, log + [e], i)
    {
      if i < |log| {
        assert GreetedAt(cfg, log, i);
      }
    }
  }

  /** A link comes up, and is greeted if it can be. */
  lemma LogConnected(cfg: Config, v: View, oldType: int)
    requires Greeting(cfg, v.log)
    ensures var log := NextConnected(cfg, v, oldType).log;
            && Greeting(cfg, log)
            && PhaseOf(log) == if PhaseOf(v.log).Broken? then Broken else if cfg.Greets() then Greeted else Opened
  {
    hide PhaseOf;
    var log := NextConnected(cfg, v, oldType).log;
    PhaseSnoc(v.log, LinkUp);
    if cfg.Greets() {
      var hello := SentConnect(Msg.ConnectPacket(cfg.info));
      PhaseSnoc(v.log + [LinkUp], hello);
      assert log == v.log + [LinkUp] + [hello];
    }
    forall i | 0 <= i < |log|
      ensures GreetedAt(cfg, log, i)
    {
      if i < |v.log| {
        assert GreetedAt(cfg, v.log, i);
      }
    }
  }

  lemma TaskPolite(cfg: Config, v: View, sendOk: bool, stale: seq<byte>)
    requires Sized(cfg, v) && Polite(cfg, v)
    ensures Polite(cfg, NextTask(cfg, v, sendOk, stale))
  {
    hide PhaseOf, Decode, EndPos, Greeting;
    LogNext(cfg, v.log, LinkDown);
    LogNext(cfg, v.log, SentOther(PING));
    if END in v.ring {
      LogNext(cfg, v.log, SentOther(Decode(cfg.bufSize, false, v.ring[..EndPos(v.ring)])));
    }
  }

  lemma NextPolite(cfg: Config, v: View, a: Act)
    requires Sized(cfg, v) && Allowed(cfg, a) && Polite(cfg, v)
    ensures Polite(cfg, Next(cfg, v, a))
  {
    hide PhaseOf, Greeting, Retry, Frame, IsFrame, NextTask;
    LogNext(cfg, v.log, LinkDown);
    match a
    case Connack(rc) => LogNext(cfg, v.log, GotConnack(rc));
    case ConnectCb(oldType) => LogConnected(cfg, v, oldType);
    case Task(sendOk, stale) => TaskPolite(cfg, v, sendOk, stale);
    case _ =>
  }

  lemma SendingIsUp(cfg: Config, v: View)
    requires Polite(cfg, v) && v.conn.MqttConnectSending?
    ensures v.up
  {
  }

  /** Link j was greeted at once, accepted with return code 0 at k, and is still the same link up to n. */
  ghost predicate Session(log: seq<LinkEvent>, j: nat, k: nat, n: nat) {
    && j + 1 < k < n <= |log|
    && log[j].LinkUp? && log[j + 1].SentConnect? && log[k] == GotConnack(0)
    && forall i :: j < i < n ==> !log[i].LinkUp? && !log[i].LinkDown?
  }

  /** Link j was greeted at once and has seen nothing since but refusals. */
  ghost predicate Waiting(log: seq<LinkEvent>, j: nat) {
    && j + 1 < |log| && log[j].LinkUp? && log[j + 1].SentConnect?
    && forall i :: j + 1 < i < |log| ==> log[i].GotConnack? && log[i].rc != 0
  }

  lemma {:induction false} PhaseMeaning(log: seq<LinkEvent>) returns (j: nat, k: nat)
    ensures PhaseOf(log).Open? ==> Session(log, j, k, |log|)
    ensures PhaseOf(log).Greeted? ==> Waiting(log, j)
    ensures PhaseOf(log).Opened? ==> |log| >= 1 && log[|log| - 1].LinkUp?
    decreases |log|
  {
    j, k := 0, 0;
    if log != [] {
      var n := |log| - 1;
      j, k := PhaseMeaning(log[..n]);
      if log[n].SentConnect? && PhaseOf(log).Greeted? {
        j := n - 1;
      } else if log[n].GotConnack? && PhaseOf(log).Open? {
        k := n;
      }
    }
  }

  lemma {:induction false} PrefixUnbroken(log: seq<LinkEvent>, n: nat)
    requires n <= |log| && !PhaseOf(log).Broken?
    ensures !PhaseOf(log[..n]).Broken?
    decreases |log| - n
  {
    if n == |log| {
      assert log[..n] == log;
    } else {
      PrefixUnbroken(log, n + 1);
      assert log[..n + 1][..n] == log[..n];
    }
  }

  /**
   * Every packet other than CONNECT goes out on a link whose first packet was CONNECT and on
   * which a CONNACK with return code 0 came in between; CONNECT goes out only as the first packet.
   */
  lemma UnbrokenLog(log: seq<LinkEvent>)
    requires !PhaseOf(log).Broken?
    ensures forall i :: 0 <= i < |log| && log[i].SentOther? ==> exists j: nat, k: nat :: Session(log, j, k, i)
    ensures forall i :: 0 <= i < |log| && log[i].SentConnect? ==> i > 0 && log[i - 1].LinkUp?
  {
    hide PhaseOf, Session;
    forall i | 0 <= i < |log| && log[i].SentOther?
      ensures exists j: nat, k: nat :: Session(log, j, k, i)
    {
      var j, k := SentAt(log, i);
    }
    forall i | 0 <= i < |log| && log[i].SentConnect?
      ensures i > 0 && log[i - 1].LinkUp?
    {
      var j, k := SentAt(log, i);
    }
  }

  lemma SentAt(log: seq<LinkEvent>, i: nat) returns (j: nat, k: nat)
    requires !PhaseOf(log).Broken? && i < |log|
    ensures log[i].SentOther? ==> Session(log, j, k, i)
    ensures log[i].SentConnect? ==> i > 0 && log[i - 1].LinkUp?
  {
    PrefixUnbroken(log, i + 1);
    PhaseSnoc(log[..i], log[i]);
    assert log[..i + 1] == log[..i] + [log[i]];
    hide PhaseOf;
    j, k := PhaseMeaning(log[..i]);
    if log[i].SentOther? {
      assert Session(log[..i], j, k, i);
    }
  }

  // ----- every run -----

  lemma {:induction false} RunKeeps(cfg: Config, v: View, acts: seq<Act>)
    requires Sized(cfg, v) && AllAllowed(cfg, acts) && Orderly(cfg, v) && Polite(cfg, v)
    ensures Orderly(cfg, Run(cfg, v, acts)) && Polite(cfg, Run(cfg, v, acts))
    decreases |acts|
  {
    if acts != [] {
      hide Next, Orderly, Polite, Allowed;
      NextSized(cfg, v, acts[0]);
      NextOrderly(cfg, v, acts[0]);
      NextPolite(cfg, v, acts[0]);
      RunKeeps(cfg, Next(cfg, v, acts[0]), acts[1..]);
    }
  }

  lemma NextKeeps(cfg: Config, v: View, a: Act)
    requires Sized(cfg, v) && Allowed(cfg, a) && Orderly(cfg, v) && Polite(cfg, v)
    ensures var w := Next(cfg, v, a); Orderly(cfg, w) && Polite(cfg, w)
  {
    hide *;
    NextOrderly(cfg, v, a);
    NextPolite(cfg, v, a);
  }

  lemma InitialGood(cfg: Config)
    ensures Sized(cfg, Initial()) && Orderly(cfg, Initial()) && Polite(cfg, Initial())
  {
    NothingLeft(cfg.bufSize);
    assert Picks([], Initial().sent + Messages(cfg.bufSize, []), Initial().queued);
  }

  /**
   * Over every interleaving, what the task has sent is a subsequence of what the queue has
   * accepted: each packet byte for byte one accepted earlier, in that order, at most once.
   */
  lemma SentWasAccepted(cfg: Config, acts: seq<Act>)
    requires AllAllowed(cfg, acts)
    ensures var w := Run(cfg, Initial(), acts);
            Framed(cfg.bufSize, w.ring) && exists idx :: Picks(idx, w.sent, w.queued)
  {
    InitialGood(cfg);
    RunKeeps(cfg, Initial(), acts);
    var w := Run(cfg, Initial(), acts);
    var ms := Messages(cfg.bufSize, w.ring);
    var idx :| Picks(idx, w.sent + ms, w.queued);
    var jdx := PicksDrop(idx, w.sent, ms, w.queued, |ms|);
    assert w.sent + ms[|ms|..] == w.sent;
  }

  /** In every run each link starts with CONNECT and carries nothing more before its CONNACK. */
  lemma ConnectComesFirst(cfg: Config, acts: seq<Act>)
    requires AllAllowed(cfg, acts)
    ensures var w := Run(cfg, Initial(), acts);
            && (forall i :: 0 <= i < |w.log| && w.log[i].SentOther? ==> exists j: nat, k: nat :: Session(w.log, j, k, i))
            && (forall i :: 0 <= i < |w.log| && w.log[i].SentConnect? ==> i > 0 && w.log[i - 1].LinkUp?)
            && (w.conn.MqttData? || w.conn.MqttKeepaliveSend? ==> exists j: nat, k: nat :: Session(w.log, j, k, |w.log|))
  {
    InitialGood(cfg);
    RunKeeps(cfg, Initial(), acts);
    var w := Run(cfg, Initial(), acts);
    UnbrokenLog(w.log);
    var j, k := PhaseMeaning(w.log);
  }

  /**
   * Exactly when a link is greeted: if CONNECT can be printed, every link gets it at once; if it
   * cannot, none ever gets it, nothing else is sent either, and MQTT_DATA is never reached.
   */
  lemma GreetedIffPrinted(cfg: Config, acts: seq<Act>)
    requires AllAllowed(cfg, acts)
    ensures var w := Run(cfg, Initial(), acts);
            && (forall i :: 0 <= i < |w.log| ==> GreetedAt(cfg, w.log, i))
            && (!cfg.Greets() ==>
                  && (forall i :: 0 <= i < |w.log| ==> !w.log[i].SentConnect? && !w.log[i].SentOther?)
                  && !w.conn.MqttData? && !w.conn.MqttKeepaliveSend?)
  {
    hide Run, GreetedAt, PhaseOf, Config.Greets;
    InitialGood(cfg);
    RunKeeps(cfg, Initial(), acts);
    if !cfg.Greets() {
      GreetingMeans(cfg, Run(cfg, Initial(), acts).log);
    }
  }

  lemma GreetingMeans(cfg: Config, log: seq<LinkEvent>)
    requires Greeting(cfg, log) && !PhaseOf(log).Broken? && !cfg.Greets()
    ensures forall i :: 0 <= i < |log| ==> !log[i].SentConnect? && !log[i].SentOther?
  {
    hide PhaseOf;
    UnbrokenLog(log);
    forall i | 0 <= i < |log|
      ensures !log[i].SentConnect?
    {
      assert GreetedAt(cfg, log, i);
    }
  }
}
