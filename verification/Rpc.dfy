/**
 The chat session bookkeeping of the editor client. JavaScript runs to the next await without interruption, so every
 such stretch is one step; between the steps, sends, agent switches, socket openings and frames interleave freely.
 */
module Rpc {
  import opened Wrappers

  /** Where a session id is remembered: per gateway and per agent name. */
  datatype StateKey = StateKey(gatewayUrl: string, name: string)

  const DEFAULT_NAME := "__default__"

  function NameOf(agent: Option<string>): string
  {
    if agent.Some? then agent.value else DEFAULT_NAME
  }

  /** A string counts as present when it is there and not empty. */
  predicate Truthy(s: Option<string>)
  {
    s.Some? && s.value != ""
  }

  /** The session id the gateway composes for an agent from a connection's base id. */
  function Composed(base: string, agent: Option<string>): string
  {
    if Truthy(agent) then base + "#agent:" + agent.value else base
  }

  datatype Frame =
    | SessionInfo(sessionId: string, refresh: bool)
    | AuthError
    | OtherError
    | AssistantDone
    | Other

  /** The fields of the client, the flags its socket handlers close over, and the stored ids. */
  datatype Client = Client(
    chat: Option<nat>, connectionBaseSid: Option<string>, activeSid: Option<string>, resumeAttempted: bool,
    currentAgent: Option<string>, gatewayUrl: string, sawConnectFrame: set<nat>, retried: set<nat>,
    nextSocket: nat, stored: map<StateKey, string>)

  function Key(c: Client): StateKey
  {
    StateKey(c.gatewayUrl, NameOf(c.currentAgent))
  }

  function Initial(gatewayUrl: string): Client
  {
    Client(None, None, None, false, None, gatewayUrl, {}, {}, 0, map[])
  }

  // ---------- the steps ----------

  function SwitchAgent(c: Client, agent: Option<string>): Client
  {
    c.(currentAgent := agent, chat := None, connectionBaseSid := None, activeSid := None, resumeAttempted := false)
  }

  /** The part of `ensureChat` between its awaits that creates a socket. */
  function OpenChat(c: Client, retried: bool): Client
  {
    c.(chat := Some(c.nextSocket), nextSocket := c.nextSocket + 1,
       retried := if retried then c.retried + {c.nextSocket} else c.retried,
       connectionBaseSid := None, activeSid := None, resumeAttempted := false)
  }

  /** A frame's effect on the bookkeeping; a frame of any socket but the current one is dropped. */
  function OnMessage(c: Client, sock: nat, m: Frame): Client
  {
    if c.chat != Some(sock) then c
    else
      match m
      case SessionInfo(sid, refresh) =>
        if sock !in c.sawConnectFrame then
          c.(sawConnectFrame := c.sawConnectFrame + {sock}, connectionBaseSid := Some(sid))
        else if !refresh then
          c.(activeSid := Some(sid), resumeAttempted := false, stored := c.stored[Key(c) := sid])
        else c
      case AuthError => if sock !in c.retried then c else OnError(c)
      case OtherError => OnError(c)
      case AssistantDone =>
        var d := c.(resumeAttempted := false);
        if !Truthy(c.activeSid) && Truthy(c.connectionBaseSid) then
          var computed := Composed(c.connectionBaseSid.value, c.currentAgent);
          d.(activeSid := Some(computed), stored := c.stored[Key(c) := computed])
        else d
      case Other => c
  }

  /** An error while a resume is pending drops the id. */
  function OnError(c: Client): Client
  {
    if c.resumeAttempted then c.(resumeAttempted := false, activeSid := None, stored := c.stored - {Key(c)}) else c
  }

  /** A socket closes, or is given up after its access token was refreshed. */
  function OnClose(c: Client, sock: nat): Client
  {
    if c.chat == Some(sock) then c.(chat := None) else c
  }

  /** The part of `sendChat` after its await: which session id goes with the message. */
  function PrepareSend(c: Client): (Client, Option<string>)
  {
    var remembered := if Key(c) in c.stored then Some(c.stored[Key(c)]) else None;
    var sid := if !Truthy(c.activeSid) && Truthy(remembered) then remembered else c.activeSid;
    (c.(activeSid := sid, resumeAttempted := Truthy(sid)), if Truthy(sid) then sid else None)
  }

  // ---------- the class ----------

  /** The client as the object it is; each method is one step. */
  class GatewayClient {
    var chat: Option<nat>
    var connectionBaseSid: Option<string>
    var activeSid: Option<string>
    var resumeAttempted: bool
    var currentAgent: Option<string>
    var gatewayUrl: string
    var sawConnectFrame: set<nat>
    var retriedSockets: set<nat>
    var nextSocket: nat
    var workspaceState: map<StateKey, string>

    function Snapshot(): Client
      reads this
    {
      Client(chat, connectionBaseSid, activeSid, resumeAttempted, currentAgent, gatewayUrl, sawConnectFrame,
             retriedSockets, nextSocket, workspaceState)
    }

    constructor (url: string)
      ensures Snapshot() == Initial(url)
    {
      chat, connectionBaseSid, activeSid, resumeAttempted, currentAgent := None, None, None, false, None;
      gatewayUrl, sawConnectFrame, retriedSockets, nextSocket, workspaceState := url, {}, {}, 0, map[];
    }

    method Switch(agent: Option<string>)
      modifies this
      ensures Snapshot() == SwitchAgent(old(Snapshot()), agent)
    {
      currentAgent := agent;
      chat := None;
      connectionBaseSid := None;
      activeSid := None;
      resumeAttempted := false;
    }

    method Open(retried: bool) returns (sock: nat)
      modifies this
      ensures Snapshot() == OpenChat(old(Snapshot()), retried) && chat == Some(sock)
    {
      sock := nextSocket;
      nextSocket := nextSocket + 1;
      if retried {
        retriedSockets := retriedSockets + {sock};
      }
      chat := Some(sock);
      connectionBaseSid := None;
      activeSid := None;
      resumeAttempted := false;
    }

    method PersistSid(sid: string)
      modifies this`workspaceState
      ensures workspaceState == old(workspaceState)[StateKey(gatewayUrl, NameOf(currentAgent)) := sid]
    {
      workspaceState := workspaceState[StateKey(gatewayUrl, NameOf(currentAgent)) := sid];
    }

    method Receive(sock: nat, m: Frame)
      modifies this
      ensures Snapshot() == OnMessage(old(Snapshot()), sock, m)
      ensures gatewayUrl == old(gatewayUrl) && currentAgent == old(currentAgent)
      ensures old(chat) != Some(sock) ==> Snapshot() == old(Snapshot())
      ensures old(chat) == Some(sock) && old(resumeAttempted)
              && (m.OtherError? || (m.AuthError? && sock in old(retriedSockets))) ==>
        && workspaceState == old(workspaceState) - {StateKey(gatewayUrl, NameOf(currentAgent))}
        && activeSid == None && !resumeAttempted
      ensures old(chat) == Some(sock) && m.SessionInfo? && !m.refresh && sock in old(sawConnectFrame) ==>
        && workspaceState == old(workspaceState)[StateKey(gatewayUrl, NameOf(currentAgent)) := m.sessionId]
        && activeSid == Some(m.sessionId) && !resumeAttempted
    {
      if chat != Some(sock) {
        return;
      }
      if m.SessionInfo? {
        if sock !in sawConnectFrame {
          sawConnectFrame := sawConnectFrame + {sock};
          connectionBaseSid := Some(m.sessionId);
        } else if !m.refresh {
          activeSid := Some(m.sessionId);
          resumeAttempted := false;
          PersistSid(m.sessionId);
        }
      }
      if m.AuthError? && sock !in retriedSockets {
        return;
      }
      if m.AuthError? || m.OtherError? {
        if resumeAttempted {
          resumeAttempted := false;
          activeSid := None;
          workspaceState := workspaceState - {StateKey(gatewayUrl, NameOf(currentAgent))};
        }
      } else if m.AssistantDone? {
        resumeAttempted := false;
        if !Truthy(activeSid) && Truthy(connectionBaseSid) {
          var computed := Composed(connectionBaseSid.value, currentAgent);
          activeSid := Some(computed);
          PersistSid(computed);
        }
      }
    }

    method Closed(sock: nat)
      modifies this
      ensures Snapshot() == OnClose(old(Snapshot()), sock)
    {
      if chat == Some(sock) {
        chat := None;
      }
    }

    method Send() returns (sid: Option<string>)
      modifies this
      ensures (Snapshot(), sid) == PrepareSend(old(Snapshot()))
      ensures var key := StateKey(gatewayUrl, NameOf(currentAgent));
        sid == if Truthy(old(activeSid)) then old(activeSid)
        else if key in workspaceState && workspaceState[key] != "" then Some(workspaceState[key])
        else None
      ensures resumeAttempted <==> sid.Some?
      ensures sid.Some? ==> activeSid == sid
      ensures workspaceState == old(workspaceState) && chat == old(chat)
    {
      sid := activeSid;
      if !Truthy(sid) {
        var key := StateKey(gatewayUrl, NameOf(currentAgent));
        var persisted := if key in workspaceState then Some(workspaceState[key]) else None;
        if Truthy(persisted) {
          sid := persisted;
          activeSid := persisted;
        }
      }
      resumeAttempted := Truthy(sid);
      if !Truthy(sid) {
        sid := None;
      }
    }
  }
}
