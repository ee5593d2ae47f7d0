/** What every interleaving keeps: a stored or sent session id belongs to the agent it is stored or sent for. */
module RpcRuns {
  import opened Wrappers
  import opened Rpc

  /** What came in on one socket, whether or not the client still listened to it. */
  datatype SocketLog = SocketLog(
    agent: Option<string>, gatewayUrl: string, announced: Option<string>, echoed: set<string>)

  /** The client and the history of all sockets ever opened. */
  datatype World = World(client: Client, log: map<nat, SocketLog>)

  datatype Step =
    | Switching(agent: Option<string>)
    | Opening(retried: bool)
    | Message(sock: nat, frame: Frame)
    | Closing(sock: nat)
    | Sending
    | Disposing
    | Reconfiguring(gatewayUrl: string)

  predicate Enabled(w: World, step: Step)
  {
    match step
    case Message(sock, _) => sock in w.log
    case Closing(sock) => sock in w.log
    case _ => true
  }

  /** A socket first announces its base id; every later session frame that is no refresh echoes a resumed id. */
  function Logged(l: SocketLog, m: Frame): SocketLog
  {
    match m
    case SessionInfo(sid, refresh) =>
      if l.announced.None? then l.(announced := Some(sid))
      else if refresh then l
      else l.(echoed := l.echoed + {sid})
    case _ => l
  }

  function Next(w: World, step: Step): World
    requires Enabled(w, step)
  {
    var c := w.client;
    match step
    case Switching(agent) => w.(client := SwitchAgent(c, agent))
    case Opening(retried) =>
      World(OpenChat(c, retried), w.log[c.nextSocket := SocketLog(c.currentAgent, c.gatewayUrl, None, {})])
    case Message(sock, m) => World(OnMessage(c, sock, m), w.log[sock := Logged(w.log[sock], m)])
    case Closing(sock) => w.(client := OnClose(c, sock))
    case Sending => w.(client := PrepareSend(c).0)
    case Disposing => w.(client := c.(chat := None))
    case Reconfiguring(url) => w.(client := c.(gatewayUrl := url))
  }

  ghost predicate Reachable(w: World, url: string, steps: seq<Step>)
    decreases |steps|
  {
    if steps == [] then w == World(Initial(url), map[])
    else
      var k := |steps| - 1;
      exists before :: Reachable(before, url, steps[..k]) && Enabled(before, steps[k]) && w == Next(before, steps[k])
  }

  // ---------- provenance ----------

  /** The id came on this socket: echoed, or composed from its own announced base id for its own agent. */
  predicate CameOn(l: SocketLog, sid: string)
  {
    sid in l.echoed || (l.announced.Some? && sid == Composed(l.announced.value, l.agent))
  }

  predicate BelongsVia(log: map<nat, SocketLog>, sid: string, name: string, sock: nat)
  {
    sock in log && NameOf(log[sock].agent) == name && CameOn(log[sock], sid)
  }

  /** The id came on a socket that was opened while the agent of that name was selected. */
  ghost predicate Belongs(log: map<nat, SocketLog>, sid: string, name: string)
  {
    exists sock :: BelongsVia(log, sid, name, sock)
  }

  ghost predicate Inv(w: World)
  {
    var c := w.client;
    && (forall s :: s in w.log ==> s < c.nextSocket)
    && (c.chat.Some? ==> CurrentSound(w, c.chat.value))
    && (c.activeSid.Some? ==> Belongs(w.log, c.activeSid.value, NameOf(c.currentAgent)))
    && (forall key | key in c.stored :: Belongs(w.log, c.stored[key], key.name))
    && (forall s | s in c.sawConnectFrame :: s < c.nextSocket)
  }

  /** The current socket was opened for the current agent, and the client has seen all it announced. */
  predicate CurrentSound(w: World, s: nat)
  {
    var c := w.client;
    && s in w.log && w.log[s].agent == c.currentAgent
    && (s in c.sawConnectFrame <==> w.log[s].announced.Some?)
    && (c.connectionBaseSid.Some? ==> c.connectionBaseSid == w.log[s].announced)
  }

  lemma BelongsLater(log: map<nat, SocketLog>, sock: nat, m: Frame, sid: string, name: string)
    requires sock in log && Belongs(log, sid, name)
    ensures Belongs(log[sock := Logged(log[sock], m)], sid, name)
  {
    var s :| BelongsVia(log, sid, name, s);
    assert BelongsVia(log[sock := Logged(log[sock], m)], sid, name, s);
  }

  lemma BelongsAfterOpening(log: map<nat, SocketLog>, sock: nat, l: SocketLog, sid: string, name: string)
    requires sock !in log && Belongs(log, sid, name)
    ensures Belongs(log[sock := l], sid, name)
  {
    var s :| BelongsVia(log, sid, name, s);
    assert BelongsVia(log[sock := l], sid, name, s);
  }

  lemma MessageKeepsInv(w: World, sock: nat, m: Frame)
    requires Inv(w) && sock in w.log
    ensures Inv(Next(w, Message(sock, m)))
  {
    var c, t := w.client, Next(w, Message(sock, m));
    forall sid, name | Belongs(w.log, sid, name)
      ensures Belongs(t.log, sid, name)
    {
      BelongsLater(w.log, sock, m, sid, name);
    }
    if c.chat == Some(sock) {
      var name := NameOf(c.currentAgent);
      if m.SessionInfo? && sock in c.sawConnectFrame && !m.refresh {
        assert BelongsVia(t.log, m.sessionId, name, sock);
      }
      if m.AssistantDone? && Truthy(c.connectionBaseSid) {
        assert BelongsVia(t.log, Composed(c.connectionBaseSid.value, c.currentAgent), name, sock);
      }
    }
  }

  lemma OpeningKeepsInv(w: World, retried: bool)
    requires Inv(w)
    ensures Inv(Next(w, Opening(retried)))
  {
    var c, t := w.client, Next(w, Opening(retried));
    forall sid, name | Belongs(w.log, sid, name)
      ensures Belongs(t.log, sid, name)
    {
      BelongsAfterOpening(w.log, c.nextSocket, t.log[c.nextSocket], sid, name);
    }
  }

  lemma StepKeepsInv(w: World, step: Step)
    requires Inv(w) && Enabled(w, step)
    ensures Inv(Next(w, step))
  {
    match step
    case Message(sock, m) => MessageKeepsInv(w, sock, m);
    case Opening(retried) => OpeningKeepsInv(w, retried);
    case _ =>
  }

  lemma {:induction false} ReachableInv(w: World, url: string, steps: seq<Step>)
    requires Reachable(w, url, steps)
    ensures Inv(w)
    decreases |steps|
  {
    if steps != [] {
      var k := |steps| - 1;
      var before :| Reachable(before, url, steps[..k]) && Enabled(before, steps[k]) && w == Next(before, steps[k]);
      ReachableInv(before, url, steps[..k]);
      StepKeepsInv(before, steps[k]);
    }
  }

  // ---------- the results ----------

  /**
   An id stored under an agent's key was echoed on a socket opened while that agent was selected, or is that socket's
   own first announced base id composed with that agent.
   */
  lemma StoredIdsBelong(w: World, url: string, steps: seq<Step>, key: StateKey)
    requires Reachable(w, url, steps) && key in w.client.stored
    ensures Belongs(w.log, w.client.stored[key], key.name)
  {
    ReachableInv(w, url, steps);
  }

  /** The id sent along with a message belongs to the agent the message is addressed to. */
  lemma SentIdsBelong(w: World, url: string, steps: seq<Step>)
    requires Reachable(w, url, steps) && PrepareSend(w.client).1.Some?
    ensures Belongs(w.log, PrepareSend(w.client).1.value, NameOf(w.client.currentAgent))
  {
    ReachableInv(w, url, steps);
  }

  /** Frames of replaced sockets change nothing, now and for good: a socket that is not current never is again. */
  lemma ReplacedSocketsStayDead(w: World, url: string, steps: seq<Step>, step: Step, sock: nat, m: Frame)
    requires Reachable(w, url, steps) && sock in w.log && w.client.chat != Some(sock) && Enabled(w, step)
    ensures Next(w, Message(sock, m)).client == w.client
    ensures Next(w, step).client.chat != Some(sock)
  {
    ReachableInv(w, url, steps);
  }

  /** Two agents share a name exactly when they are the same, or one is unset and the other called like the default. */
  lemma SharedNames(a: Option<string>, b: Option<string>)
    ensures NameOf(a) == NameOf(b) <==> a == b || {a, b} == {None, Some("__default__")}
  {
  }

  /** The first announcement of the current socket is what the client composes new ids from. */
  lemma BaseIsFirstAnnounced(w: World, url: string, steps: seq<Step>)
    requires Reachable(w, url, steps) && w.client.chat.Some? && w.client.connectionBaseSid.Some?
    ensures w.client.chat.value in w.log && w.client.connectionBaseSid == w.log[w.client.chat.value].announced
    ensures w.log[w.client.chat.value].agent == w.client.currentAgent
  {
    ReachableInv(w, url, steps);
  }

  /**
   The key's gateway is not protected in the same way: when the setting changes while a socket is open, the next
   finished reply stores the old gateway's id under the new gateway's key.
   */
  lemma GatewayMayDiffer(a: string, b: string) returns (w: World, steps: seq<Step>)
    requires a != b
    ensures Reachable(w, a, steps)
    ensures w.client.stored == map[StateKey(b, DEFAULT_NAME) := "base"] && w.log.Keys == {0} && w.log[0].gatewayUrl == a
  {
    hide Reachable;
    var open, announce, done := Opening(false), Message(0, SessionInfo("base", false)), Message(0, AssistantDone);
    var change := Reconfiguring(b);
    assert [] + [open] == [open] && [open] + [announce] == [open, announce];
    assert [open, announce] + [change] == [open, announce, change];
    assert [open, announce, change] + [done] == [open, announce, change, done];
    var w0 := World(Initial(a), map[]);
    var w1 := Next(w0, open);
    ReachableNext(w0, a, [], open);
    var w2 := Next(w1, announce);
    ReachableNext(w1, a, [open], announce);
    var w3 := Next(w2, change);
    ReachableNext(w2, a, [open, announce], change);
    w, steps := Next(w3, done), [open, announce, change, done];
    ReachableNext(w3, a, [open, announce, change], done);
  }

  lemma ReachableNext(w: World, url: string, steps: seq<Step>, step: Step)
    requires (steps == [] && w == World(Initial(url), map[])) || Reachable(w, url, steps)
    requires Enabled(w, step)
    ensures Reachable(Next(w, step), url, steps + [step])
  {
    hide Next, Enabled;
    assert Reachable(w, url, steps);
    assert (steps + [step])[..|steps|] == steps && (steps + [step])[|steps|] == step;
  }

  // ---------- filing ids while the setting is the socket's own ----------

  /** The frame makes the client store an id. */
  predicate Files(c: Client, sock: nat, m: Frame)
  {
    c.chat == Some(sock) &&
    match m
    case SessionInfo(_, refresh) => sock in c.sawConnectFrame && !refresh
    case AssistantDone => !Truthy(c.activeSid) && Truthy(c.connectionBaseSid)
    case _ => false
  }

  /** Whenever a frame makes the client store an id, the setting is the gateway of the frame's socket. */
  predicate Careful(w: World, step: Step)
  {
    step.Message? && step.sock in w.log && Files(w.client, step.sock, step.frame) ==>
      w.log[step.sock].gatewayUrl == w.client.gatewayUrl
  }

  ghost predicate ReachableCarefully(w: World, url: string, steps: seq<Step>)
    decreases |steps|
  {
    if steps == [] then w == World(Initial(url), map[])
    else
      var k := |steps| - 1;
      exists before :: ReachableCarefully(before, url, steps[..k]) && Enabled(before, steps[k])
        && Careful(before, steps[k]) && w == Next(before, steps[k])
  }

  predicate CameFrom(log: map<nat, SocketLog>, sid: string, key: StateKey, sock: nat)
  {
    BelongsVia(log, sid, key.name, sock) && log[sock].gatewayUrl == key.gatewayUrl
  }

  ghost predicate OwnGateway(log: map<nat, SocketLog>, sid: string, key: StateKey)
  {
    exists sock :: CameFrom(log, sid, key, sock)
  }

  ghost predicate GatewayInv(w: World)
  {
    forall key | key in w.client.stored :: OwnGateway(w.log, w.client.stored[key], key)
  }

  lemma LogKeepsGateway(w: World, step: Step)
    requires Inv(w) && Enabled(w, step)
    ensures forall sid, key | OwnGateway(w.log, sid, key) :: OwnGateway(Next(w, step).log, sid, key)
  {
    var t := Next(w, step);
    forall sid, key | OwnGateway(w.log, sid, key)
      ensures OwnGateway(t.log, sid, key)
    {
      var s :| CameFrom(w.log, sid, key, s);
      assert CameFrom(t.log, sid, key, s);
    }
  }

  lemma StepKeepsGateway(w: World, step: Step)
    requires Inv(w) && GatewayInv(w) && Enabled(w, step) && Careful(w, step)
    ensures GatewayInv(Next(w, step))
  {
    var c, t := w.client, Next(w, step);
    LogKeepsGateway(w, step);
    if step.Message? && c.chat == Some(step.sock) {
      var m := step.frame;
      if m.SessionInfo? && step.sock in c.sawConnectFrame && !m.refresh {
        assert CameFrom(t.log, m.sessionId, Key(c), step.sock);
      }
      if m.AssistantDone? && !Truthy(c.activeSid) && Truthy(c.connectionBaseSid) {
        assert CameFrom(t.log, Composed(c.connectionBaseSid.value, c.currentAgent), Key(c), step.sock);
      }
    }
  }

  lemma {:induction false} CarefulInv(w: World, url: string, steps: seq<Step>)
    requires ReachableCarefully(w, url, steps)
    ensures Inv(w) && GatewayInv(w)
    decreases |steps|
  {
    if steps != [] {
      var k := |steps| - 1;
      var before :| ReachableCarefully(before, url, steps[..k]) && Enabled(before, steps[k])
        && Careful(before, steps[k]) && w == Next(before, steps[k]);
      CarefulInv(before, url, steps[..k]);
      StepKeepsInv(before, steps[k]);
      StepKeepsGateway(before, steps[k]);
    }
  }

  /** When every id is filed under its socket's setting, all stored ids came from sockets of their key's gateway. */
  lemma StoredIdsKeepGateway(w: World, url: string, steps: seq<Step>, key: StateKey)
    requires ReachableCarefully(w, url, steps) && key in w.client.stored
    ensures OwnGateway(w.log, w.client.stored[key], key)
  {
    CarefulInv(w, url, steps);
  }

  /** The setting changes only while no socket is current. */
  predicate BetweenSockets(w: World, step: Step)
  {
    step.Reconfiguring? ==> w.client.chat.None?
  }

  ghost predicate ReachableBetweenSockets(w: World, url: string, steps: seq<Step>)
    decreases |steps|
  {
    if steps == [] then w == World(Initial(url), map[])
    else
      var k := |steps| - 1;
      exists before :: ReachableBetweenSockets(before, url, steps[..k]) && Enabled(before, steps[k])
        && BetweenSockets(before, steps[k]) && w == Next(before, steps[k])
  }

  /** The current socket was opened under the present setting. */
  predicate OwnSetting(w: World)
  {
    w.client.chat.Some? ==>
      w.client.chat.value in w.log && w.log[w.client.chat.value].gatewayUrl == w.client.gatewayUrl
  }

  lemma StepKeepsSetting(w: World, step: Step)
    requires Inv(w) && OwnSetting(w) && Enabled(w, step) && BetweenSockets(w, step)
    ensures Careful(w, step) && OwnSetting(Next(w, step))
  {
  }

  lemma StartsSound(w: World, url: string)
    requires w == World(Initial(url), map[])
    ensures OwnSetting(w)
  {
  }

  /** A client that is reset on every change of the setting files every id with care. */
  lemma {:induction false} BetweenSocketsIsCareful(w: World, url: string, steps: seq<Step>)
    requires ReachableBetweenSockets(w, url, steps)
    ensures ReachableCarefully(w, url, steps)
    ensures OwnSetting(w)
    decreases |steps|
  {
    hide Careful, OwnSetting, BetweenSockets;
    if steps != [] {
      var k := |steps| - 1;
      var before :| ReachableBetweenSockets(before, url, steps[..k]) && Enabled(before, steps[k])
        && BetweenSockets(before, steps[k]) && w == Next(before, steps[k]);
      BetweenSocketsIsCareful(before, url, steps[..k]);
      CarefulInv(before, url, steps[..k]);
      StepKeepsSetting(before, steps[k]);
    } else {
      StartsSound(w, url);
    }
  }

  // ---------- exactly when the current socket files ids under its own gateway ----------

  /** No id is stored or replaced under another gateway than `url` while these frames come in on the socket. */
  ghost predicate FilesOnlyUnder(c: Client, sock: nat, frames: seq<Frame>, url: string)
    decreases |frames|
  {
    frames == [] ||
    var d := OnMessage(c, sock, frames[0]);
    (forall key :: key in d.stored && (key !in c.stored || c.stored[key] != d.stored[key]) ==> key.gatewayUrl == url)
    && FilesOnlyUnder(d, sock, frames[1..], url)
  }

  lemma {:induction false} FilesUnderSetting(c: Client, sock: nat, frames: seq<Frame>)
    ensures FilesOnlyUnder(c, sock, frames, c.gatewayUrl)
    decreases |frames|
  {
    if frames != [] {
      FilesUnderSetting(OnMessage(c, sock, frames[0]), sock, frames[1..]);
    }
  }

  /** Three session frames: an announcement at most, an id, and another id. */
  lemma TwoIdsAreFiled(c: Client, sock: nat, url: string) returns (frames: seq<Frame>)
    requires c.chat == Some(sock) && c.gatewayUrl != url
    ensures !FilesOnlyUnder(c, sock, frames, url)
  {
    var a, b := SessionInfo("a", false), SessionInfo("b", false);
    frames := [a, a, b];
    var c1 := OnMessage(c, sock, a);
    var c2 := OnMessage(c1, sock, a);
    var c3 := OnMessage(c2, sock, b);
    assert frames[1..] == [a, b] && [a, b][1..] == [b];
    assert Key(c2) in c3.stored && c2.stored[Key(c2)] == "a" && c3.stored[Key(c2)] == "b";
    assert !FilesOnlyUnder(c2, sock, [b], url);
    assert !FilesOnlyUnder(c1, sock, [a, b], url);
  }

  /**
   Whatever comes in next on the current socket is filed under the gateway it was opened to, exactly when the setting
   is still the one it was opened with.
   */
  lemma FilesUnderOwnGateway(w: World, url: string, steps: seq<Step>, sock: nat)
    requires Reachable(w, url, steps) && w.client.chat == Some(sock)
    ensures sock in w.log
    ensures (forall frames :: FilesOnlyUnder(w.client, sock, frames, w.log[sock].gatewayUrl))
      <==> w.client.gatewayUrl == w.log[sock].gatewayUrl
  {
    ReachableInv(w, url, steps);
    var own := w.log[sock].gatewayUrl;
    if w.client.gatewayUrl == own {
      forall frames
        ensures FilesOnlyUnder(w.client, sock, frames, own)
      {
        FilesUnderSetting(w.client, sock, frames);
      }
    } else {
      var frames := TwoIdsAreFiled(w.client, sock, own);
    }
  }
}
