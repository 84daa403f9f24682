/**
 * What the steps of the client add up to: when a link opens, when a keep-alive falls due and what
 * it leads to, when the next message may go out, and which links are opened again.
 */
module ClientLaws {
  import opened Bytes
  import opened ClientModel
  import opened MqttWire
  import opened Proto
  import opened Queue
  import Msg = MqttMsg

  // ----- opening -----

  lemma RunCons(cfg: Config, v: View, a: Act, acts: seq<Act>)
    requires Sized(cfg, v)
    ensures Sized(cfg, Next(cfg, v, a)) && Run(cfg, v, [a] + acts) == Run(cfg, Next(cfg, v, a), acts)
  {
    hide Next;
    NextSized(cfg, v, a);
    assert ([a] + acts)[1..] == acts;
  }

  /** From any state, MQTT_Connect, a link and a CONNACK open it if and only if CONNECT can be printed and the code is 0. */
  lemma OpensIff(cfg: Config, v: View, oldType: int, rc: byte)
    requires Sized(cfg, v) && Allowed(cfg, ConnectCb(oldType))
    ensures var w := Run(cfg, v, [CallConnect] + [ConnectCb(oldType)] + [Connack(rc)]);
            && (w.conn.MqttData? <==> cfg.Greets() && rc == 0)
            && (!w.conn.MqttData? ==> w.conn.MqttConnectSending?) && w.up && w.timerOn
            && w.keepAliveTick == 0 && w.reconnectTick == 0 && w.sendTimeout == 5
  {
    hide Config.Greets, Msg.ConnectPacket;
    var v1 := Next(cfg, v, CallConnect);
    RunCons(cfg, v, CallConnect, [ConnectCb(oldType)] + [Connack(rc)]);
    var v2 := Next(cfg, v1, ConnectCb(oldType));
    RunCons(cfg, v1, ConnectCb(oldType), [Connack(rc)]);
    RunOne(cfg, v2, Connack(rc));
    assert [CallConnect] + [ConnectCb(oldType)] + [Connack(rc)] == [CallConnect] + ([ConnectCb(oldType)] + [Connack(rc)]);
  }

  // ----- seconds -----

  function Ticks(k: nat): (acts: seq<Act>) {
    seq(k, _ => Timer)
  }

  ghost function After(cfg: Config, v: View, k: nat): (w: View)
    requires Sized(cfg, v)
    ensures Sized(cfg, w)
  {
    Run(cfg, v, Ticks(k))
  }

  lemma OneMoreTick(cfg: Config, v: View, k: nat)
    requires Sized(cfg, v)
    ensures After(cfg, v, 0) == v
    ensures After(cfg, v, k + 1) == Next(cfg, After(cfg, v, k), Timer)
  {
    hide Next;
    assert Ticks(0) == [];
    assert Ticks(k + 1) == Ticks(k) + [Timer];
    RunConcat(cfg, v, Ticks(k), [Timer]);
    RunOne(cfg, After(cfg, v, k), Timer);
  }

  /** In every state of an armed timer the send timeout runs down by one a second, to 0. */
  lemma {:induction false} SendTimeoutRunsDown(cfg: Config, v: View, k: nat)
    requires Sized(cfg, v) && v.timerOn
    ensures var w := After(cfg, v, k); w.timerOn && w.sendTimeout == if v.sendTimeout > k then v.sendTimeout - k else 0
  {
    hide After;
    if k == 0 {
      OneMoreTick(cfg, v, 0);
    } else {
      SendTimeoutRunsDown(cfg, v, k - 1);
      OneMoreTick(cfg, v, k - 1);
    }
  }

  /** Nothing else happens by itself: only an open link and a reconnect asked for go by the seconds. */
  lemma {:induction false} OthersWait(cfg: Config, v: View, k: nat)
    requires Sized(cfg, v) && !v.conn.MqttData? && !v.conn.TcpReconnectReq?
    ensures After(cfg, v, k) == v.(sendTimeout := After(cfg, v, k).sendTimeout)
  {
    hide After;
    if k == 0 {
      OneMoreTick(cfg, v, 0);
    } else {
      OthersWait(cfg, v, k - 1);
      OneMoreTick(cfg, v, k - 1);
    }
  }

  /** The address of the host: with a usable one the client waits for the link, for as long as it takes. */
  lemma FoundHostWaits(cfg: Config, v: View, k: nat)
    requires Sized(cfg, v) && v.hasCon
    ensures var w := Next(cfg, v, DnsFound(true, true)); Sized(cfg, w) && After(cfg, w, k).conn.TcpConnecting?
    ensures Next(cfg, v, DnsFound(true, false)) == v
  {
    hide After;
    OthersWait(cfg, Next(cfg, v, DnsFound(true, true)), k);
  }

  /**
   * k seconds on an open link without traffic: a keep-alive is due if and only if the counter has
   * gone past half the keep-alive time; the send timeout has run down by k, to 0 at the least.
   */
  lemma {:induction false} KeepAliveFallsDue(cfg: Config, v: View, k: nat)
    requires Sized(cfg, v) && v.timerOn && v.conn.MqttData?
    ensures var w := After(cfg, v, k);
            && (w.conn.MqttKeepaliveSend? <==> k > 0 && v.keepAliveTick + k > cfg.info.keepAlive / 2)
            && (!w.conn.MqttKeepaliveSend? ==> w.conn.MqttData? && w.keepAliveTick == v.keepAliveTick + k)
            && w.sendTimeout == (if v.sendTimeout > k then v.sendTimeout - k else 0)
            && w == v.(conn := w.conn, keepAliveTick := w.keepAliveTick, sendTimeout := w.sendTimeout)
  {
    hide After;
    if k == 0 {
      OneMoreTick(cfg, v, 0);
    } else {
      KeepAliveFallsDue(cfg, v, k - 1);
      OneMoreTick(cfg, v, k - 1);
    }
  }

  /** A packet received, or one that espconn has sent, puts the keep-alive off: it counts from there. */
  lemma TrafficDefers(cfg: Config, v: View, a: Act, k: nat)
    requires Sized(cfg, v) && v.up && v.timerOn && v.conn.MqttData? && (a == Touch || a == SentCb)
    ensures var w := Next(cfg, v, a); Sized(cfg, w) && (After(cfg, w, k).conn.MqttKeepaliveSend? <==> k > cfg.info.keepAlive / 2)
  {
    hide After;
    KeepAliveFallsDue(cfg, Next(cfg, v, a), k);
  }

  /**
   * A silent open link, second by second: after half the keep-alive time and one second more the
   * task sends one PINGREQ past the queue. If espconn takes it the client is back where it was and
   * counts anew; if not, it gives the link up.
   */
  lemma KeepAliveCycle(cfg: Config, v: View, sendOk: bool, stale: seq<byte>)
    requires Sized(cfg, v) && v.timerOn && v.conn.MqttData? && v.keepAliveTick == 0
    ensures var w := After(cfg, v, cfg.info.keepAlive / 2 + 1); var u := Next(cfg, w, Task(sendOk, stale));
            && u.log == v.log + [SentOther([0xC0, 0])]
            && u.ring == v.ring && u.queued == v.queued && u.sent == v.sent && u.delivered == v.delivered
            && u.pendingType == 12 && u.sendTimeout == 5
            && if sendOk then u.conn.MqttData? && u.keepAliveTick == 0 else u.conn.TcpReconnectDisconnecting?
  {
    hide After;
    KeepAliveFallsDue(cfg, v, cfg.info.keepAlive / 2 + 1);
    PingsOnWire();
  }

  // ----- one message at a time -----

  /** A message put into an empty queue goes out with the next task, byte for byte. */
  lemma GoesOut(cfg: Config, v: View, m: seq<byte>, sendOk: bool, stale: seq<byte>)
    requires Sized(cfg, v) && v.conn.MqttData? && v.sendTimeout == 0 && v.ring == []
    requires |m| <= cfg.bufSize && |Frame(m)| <= cfg.ringSize
    ensures var w := Run(cfg, v, [Enqueue(m)] + [Task(sendOk, stale)]);
            && w.sent == v.sent + [m] && w.log == v.log + [SentOther(m)] && w.queued == v.queued + [m]
            && w.ring == [] && w.sendTimeout == 5 && w.conn.MqttData?
            && (m != [] ==> w.pendingType == m[0] / 16)
  {
    hide Frame, Messages, Decode, EndPos, Chunks, IsFrame;
    FrameIsFrame(m);
    var f := Frame(m);
    assert [] + f == f;
    var v1 := Next(cfg, v, Enqueue(m));
    RunCons(cfg, v, Enqueue(m), [Task(sendOk, stale)]);
    RunOne(cfg, v1, Task(sendOk, stale));
    WholeFrame(cfg.bufSize, m);
  }

  lemma WholeFrame(cap: nat, m: seq<byte>)
    requires |m| <= cap
    ensures var f := Frame(m); END in f && f[EndPos(f) + 1..] == [] && Decode(cap, false, f[..EndPos(f)]) == m
  {
    hide Decode, Stuff;
    StuffHasNoFrameMarks(m);
    var a := [BEGIN] + Stuff(m);
    assert Frame(m) == a + [END] + [];
    EndPosUnique(a, []);
    assert Frame(m)[..|a|] == [] + a;
    DecodeAfterJunk(cap, false, [], m);
  }

  /** After a message has gone out the next one waits for espconn to have sent it, or for five seconds. */
  lemma NextMessageWaits(cfg: Config, v: View, k: nat, sendOk: bool, stale: seq<byte>)
    requires Sized(cfg, v) && v.timerOn && v.conn.MqttData? && v.sendTimeout == 5 && END in v.ring
    requires v.keepAliveTick + k <= cfg.info.keepAlive / 2
    ensures var w := After(cfg, v, k); |Next(cfg, w, Task(sendOk, stale)).sent| == |v.sent| + (if k >= 5 then 1 else 0)
    ensures v.up ==> var w := Next(cfg, v, SentCb); Sized(cfg, w) && |Next(cfg, w, Task(sendOk, stale)).sent| == |v.sent| + 1
  {
    hide After, Decode, EndPos;
    KeepAliveFallsDue(cfg, v, k);
  }

  /** And every send starts that timeout. */
  lemma SendStartsTimeout(cfg: Config, v: View, sendOk: bool, stale: seq<byte>)
    requires Sized(cfg, v)
    ensures var w := Next(cfg, v, Task(sendOk, stale)); w.sent != v.sent ==> w.sendTimeout == 5 && w.conn.MqttData?
  {
    hide Decode, EndPos;
  }

  // ----- closing and reopening -----

  /** k seconds while a reconnect is asked for. */
  lemma {:induction false} ReconnectFallsDue(cfg: Config, v: View, k: nat)
    requires Sized(cfg, v) && v.timerOn && v.conn.TcpReconnectReq? && v.reconnectTick <= 5
    ensures var w := After(cfg, v, k);
            && (w.conn.TcpReconnect? <==> v.reconnectTick + k >= 6)
            && (!w.conn.TcpReconnect? ==> w.conn.TcpReconnectReq? && w.reconnectTick == v.reconnectTick + k)
            && w == v.(conn := w.conn, reconnectTick := w.reconnectTick, sendTimeout := w.sendTimeout)
  {
    hide After;
    if k == 0 {
      OneMoreTick(cfg, v, 0);
    } else {
      ReconnectFallsDue(cfg, v, k - 1);
      OneMoreTick(cfg, v, k - 1);
    }
  }

  /** A link that is lost, that cannot be made, or whose host is not found. */
  ghost predicate Loses(v: View, a: Act) {
    || (a == DisconnectCb && v.up && !v.conn.TcpDisconnecting? && !v.conn.MqttDeleting?)
    || (a == ReconnectCb && v.hasCon)
    || (a.DnsFound? && !a.found && v.hasCon)
  }

  /** In every run the reconnect counter stays at most 5. */
  lemma {:induction false} ReconnectTickBounded(cfg: Config, v: View, acts: seq<Act>)
    requires Sized(cfg, v) && v.reconnectTick <= 5
    ensures Run(cfg, v, acts).reconnectTick <= 5
    decreases |acts|
  {
    if acts != [] {
      hide Next;
      StepTickBounded(cfg, v, acts[0]);
      NextSized(cfg, v, acts[0]);
      ReconnectTickBounded(cfg, Next(cfg, v, acts[0]), acts[1..]);
    }
  }

  lemma StepTickBounded(cfg: Config, v: View, a: Act)
    requires Sized(cfg, v) && v.reconnectTick <= 5
    ensures Next(cfg, v, a).reconnectTick <= 5
  {
    hide Retry, Frame, IsFrame, Decode, EndPos;
  }

  /** It is opened again after the sixth second counted, and not before. */
  lemma LostLinkReopens(cfg: Config, v: View, a: Act, k: nat, sendOk: bool, stale: seq<byte>)
    requires Sized(cfg, v) && v.timerOn && v.reconnectTick <= 5 && Loses(v, a)
    ensures var u := Next(cfg, v, a);
            && Sized(cfg, u)
            && var w := After(cfg, u, k); var w' := Next(cfg, w, Task(sendOk, stale));
               if v.reconnectTick + k >= 6 then w'.conn.TcpConnecting? && w'.hasCon && w'.timerOn && !(w'.up && !w.up) && w'.reconnectTick == 0
               else w'.conn.TcpReconnectReq? && w'.log == u.log
  {
    hide After;
    ReconnectFallsDue(cfg, Next(cfg, v, a), k);
  }

  ghost predicate NoConnect(acts: seq<Act>) {
    forall i :: 0 <= i < |acts| ==> !acts[i].CallConnect?
  }

  /** Whatever happens after MQTT_Disconnect, no new connection is made unless MQTT_Connect is called. */
  lemma {:induction false} StaysDisconnected(cfg: Config, v: View, acts: seq<Act>)
    requires Sized(cfg, v) && !v.timerOn && !v.conn.TcpReconnect? && NoConnect(acts)
    ensures var w := Run(cfg, v, acts); !w.timerOn && !w.conn.TcpReconnect? && (w.hasCon ==> v.hasCon)
    decreases |acts|
  {
    if acts != [] {
      hide Next;
      StepStaysDisconnected(cfg, v, acts[0]);
      NextSized(cfg, v, acts[0]);
      StaysDisconnected(cfg, Next(cfg, v, acts[0]), acts[1..]);
    }
  }

  lemma StepStaysDisconnected(cfg: Config, v: View, a: Act)
    requires Sized(cfg, v) && !v.timerOn && !v.conn.TcpReconnect? && !a.CallConnect?
    ensures var w := Next(cfg, v, a); !w.timerOn && !w.conn.TcpReconnect? && (w.hasCon ==> v.hasCon)
  {
    hide Retry, Frame, IsFrame, Decode, EndPos;
  }

  /** No connection, and nothing that could lead to one. */
  ghost predicate Dormant(v: View) {
    && !v.hasCon && !v.up && !v.timerOn
    && (v.conn.WifiInit? || v.conn.TcpDisconnecting? || v.conn.TcpDisconnected? || v.conn.MqttDeleted?)
  }

  lemma StepStaysDormant(cfg: Config, v: View, a: Act)
    requires Sized(cfg, v) && Dormant(v) && !a.CallConnect?
    ensures var w := Next(cfg, v, a); Dormant(w) && w.log == v.log && w.sent == v.sent
  {
    hide Retry, Frame, IsFrame, Decode, EndPos;
  }

  lemma {:induction false} StaysDormant(cfg: Config, v: View, acts: seq<Act>)
    requires Sized(cfg, v) && Dormant(v) && NoConnect(acts)
    ensures var w := Run(cfg, v, acts); Dormant(w) && w.log == v.log && w.sent == v.sent
    decreases |acts|
  {
    if acts != [] {
      hide Next, Dormant;
      StepStaysDormant(cfg, v, acts[0]);
      NextSized(cfg, v, acts[0]);
      StaysDormant(cfg, Next(cfg, v, acts[0]), acts[1..]);
    }
  }

  /**
   * MQTT_Disconnect or mqtt_client_delete on an open link: once it is down and the task has run,
   * the connection is gone, and nothing happens on any link until MQTT_Connect is called.
   */
  lemma ClosedForGood(cfg: Config, v: View, a: Act, sendOk: bool, stale: seq<byte>, acts: seq<Act>)
    requires Sized(cfg, v) && v.up && v.hasCon && NoConnect(acts)
    requires a == CallDisconnect || a == CallDelete
    ensures var u := Run(cfg, v, [a] + (if a == CallDisconnect then [DisconnectCb] else []) + [Task(sendOk, stale)]);
            && Dormant(u) && (if a == CallDelete then u.conn.WifiInit? else u.conn.TcpDisconnected?)
            && v.log < u.log && u.log[|u.log| - 1].LinkDown?
            && Run(cfg, u, acts).log == u.log && Run(cfg, u, acts).sent == u.sent
  {
    var task := Task(sendOk, stale);
    var v1 := Next(cfg, v, a);
    var rest := if a == CallDisconnect then [DisconnectCb] + [task] else [task];
    RunCons(cfg, v, a, rest);
    RunCons(cfg, v1, DisconnectCb, [task]);
    RunOne(cfg, v1, task);
    RunOne(cfg, Next(cfg, v1, DisconnectCb), task);
    var all := [a] + (if a == CallDisconnect then [DisconnectCb] else []) + [task];
    assert all == [a] + rest;
    hide Retry, Frame, IsFrame, Decode, EndPos;
    StaysDormant(cfg, Run(cfg, v, all), acts);
  }
}
