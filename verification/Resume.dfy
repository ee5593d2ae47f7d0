/**
 What the next message carries after each event of a conversation: a confirmed id, a composed one, a remembered one, or
 none; and that an id the gateway has refused is not sent again.
 */
module Resume {
  import opened Wrappers
  import opened Rpc
  import opened RpcRuns

  /** The session id that a message sent now would carry. */
  function NextSid(c: Client): Option<string>
  {
    PrepareSend(c).1
  }

  /** The id stored for the current gateway and agent; an empty one is as good as none. */
  function Remembered(c: Client): Option<string>
  {
    if Key(c) in c.stored && c.stored[Key(c)] != "" then Some(c.stored[Key(c)]) else None
  }

  // ---------- one frame on the current socket ----------

  /** A pending resume did not take: an error, but for an authentication error that the token is refreshed after. */
  predicate Refuses(c: Client, sock: nat, m: Frame)
  {
    c.chat == Some(sock) && c.resumeAttempted && (m.OtherError? || (m.AuthError? && sock in c.retried))
  }

  /** A refusal forgets the current key and no other, and the next message starts afresh; other errors do nothing. */
  lemma ErrorMeaning(c: Client, sock: nat, m: Frame)
    requires m.AuthError? || m.OtherError?
    ensures var d := OnMessage(c, sock, m);
      if Refuses(c, sock, m) then
        d.stored == c.stored - {Key(c)} && Key(d) == Key(c) && NextSid(d) == None && !d.resumeAttempted
      else d == c
  {
  }

  /** The first session frame of a socket announces its base id; nothing is stored. A refresh changes nothing at all. */
  lemma AnnouncementMeaning(c: Client, sock: nat, sid: string, refresh: bool)
    requires c.chat == Some(sock)
    ensures var d := OnMessage(c, sock, SessionInfo(sid, refresh));
      && (sock !in c.sawConnectFrame ==>
            && d.connectionBaseSid == Some(sid) && sock in d.sawConnectFrame
            && d.stored == c.stored && NextSid(d) == NextSid(c))
      && (sock in c.sawConnectFrame && refresh ==> d == c)
  {
  }

  /** Every later one confirms a resume: its id is stored for the current gateway and agent, and sent from then on. */
  lemma ConfirmationMeaning(c: Client, sock: nat, sid: string)
    requires c.chat == Some(sock) && sock in c.sawConnectFrame
    ensures var d := OnMessage(c, sock, SessionInfo(sid, false));
      && d.stored == c.stored[StateKey(c.gatewayUrl, NameOf(c.currentAgent)) := sid] && !d.resumeAttempted
      && (sid != "" ==> NextSid(d) == Some(sid))
  {
  }

  /** The first finished reply without a resume stores the base id, extended with the agent, and it is sent on. */
  lemma FirstReplyMeaning(c: Client, sock: nat)
    requires c.chat == Some(sock) && c.connectionBaseSid.Some? && c.connectionBaseSid.value != ""
    requires c.activeSid == None
    ensures var d := OnMessage(c, sock, AssistantDone);
      var sid := c.connectionBaseSid.value
        + if c.currentAgent.Some? && c.currentAgent.value != "" then "#agent:" + c.currentAgent.value else "";
      d.stored == c.stored[StateKey(c.gatewayUrl, NameOf(c.currentAgent)) := sid] && NextSid(d) == Some(sid)
      && !d.resumeAttempted
  {
    var base := c.connectionBaseSid.value;
    assert base + "" == base;
    assert c.currentAgent.Some? ==>
      base + ("#agent:" + c.currentAgent.value) == base + "#agent:" + c.currentAgent.value;
  }

  /** A finished reply settles a pending resume, so that a later error does not cost the conversation its id. */
  lemma LaterErrorsKeepTheId(c: Client, sock: nat, m: Frame)
    requires c.chat == Some(sock) && (m.AuthError? || m.OtherError?)
    ensures var d := OnMessage(c, sock, AssistantDone);
      !d.resumeAttempted && OnMessage(d, sock, m) == d
      && (c.activeSid.Some? && c.activeSid.value != "" ==> d.stored == c.stored && NextSid(d) == c.activeSid)
  {
  }

  // ---------- a new socket ----------

  /** On a new socket the next message resumes what is remembered for the agent, and nothing when nothing is. */
  lemma NewSocketResumes(c: Client, agent: Option<string>, retried: bool)
    ensures NextSid(OpenChat(c, retried)) == Remembered(c)
    ensures NextSid(SwitchAgent(c, agent)) == Remembered(SwitchAgent(c, agent))
    ensures NextSid(OpenChat(SwitchAgent(c, agent), retried)) == Remembered(SwitchAgent(c, agent))
    ensures SwitchAgent(c, agent).stored == c.stored == OpenChat(c, retried).stored
    ensures Key(SwitchAgent(c, agent)) == StateKey(c.gatewayUrl, NameOf(agent))
  {
  }

  /** A new socket becomes the current one and counts as retried as asked; a closed one is current no more, and dead. */
  lemma SocketMeaning(c: Client, retried: bool, sock: nat, m: Frame)
    ensures var d := OpenChat(c, retried);
      && d.chat == Some(c.nextSocket) && d.nextSocket == c.nextSocket + 1 && d.connectionBaseSid == None
      && d.retried == c.retried + if retried then {c.nextSocket} else {}
    ensures c.chat == Some(sock) ==> OnClose(c, sock).chat == None
    ensures OnMessage(OnClose(c, sock), sock, m) == OnClose(c, sock)
    ensures c.chat != Some(sock) ==> OnClose(c, sock) == c
    ensures OnClose(c, sock).(chat := c.chat) == c
  {
  }

  /** Sending leaves a resume pending exactly when an id goes along, and changes nothing that is stored. */
  lemma SendingMeaning(c: Client)
    ensures var (d, sid) := PrepareSend(c);
      && d.stored == c.stored && d.chat == c.chat && (d.resumeAttempted <==> sid.Some?)
      && sid == (if c.activeSid.Some? && c.activeSid.value != "" then c.activeSid else Remembered(c))
      && NextSid(d) == sid
  {
  }

  // ---------- refused ids over whole runs ----------

  /** `t` follows `w` by these steps, each enabled in its turn. */
  predicate Leads(w: World, steps: seq<Step>, t: World)
    decreases |steps|
  {
    if steps == [] then w == t else Enabled(w, steps[0]) && Leads(Next(w, steps[0]), steps[1..], t)
  }

  /** The id is neither stored under the key, nor in use while the key is the current one. */
  predicate Forgotten(c: Client, key: StateKey, sid: string)
  {
    && (key in c.stored ==> c.stored[key] != sid)
    && (Key(c) == key ==> c.activeSid != Some(sid))
  }

  /**
   The step brings the id back: a frame files it under the key, or the setting changes to the key's gateway while the id
   is in use for another one.
   */
  predicate Revives(w: World, step: Step, key: StateKey, sid: string)
  {
    match step
    case Message(sock, m) =>
      && sock in w.log && Files(w.client, sock, m) && Key(w.client) == key
      && OnMessage(w.client, sock, m).stored[key] == sid
    case Reconfiguring(url) => StateKey(url, NameOf(w.client.currentAgent)) == key && w.client.activeSid == Some(sid)
    case _ => false
  }

  lemma FilesUnderKey(c: Client, sock: nat, m: Frame)
    requires Files(c, sock, m)
    ensures var d := OnMessage(c, sock, m);
      Key(c) in d.stored && d.activeSid == Some(d.stored[Key(c)]) && d.stored == c.stored[Key(c) := d.stored[Key(c)]]
      && Key(d) == Key(c)
  {
  }

  lemma StaysForgottenOnMessage(c: Client, sock: nat, m: Frame, key: StateKey, sid: string)
    requires Forgotten(c, key, sid)
    requires Files(c, sock, m) && Key(c) == key ==> OnMessage(c, sock, m).stored[key] != sid
    ensures Forgotten(OnMessage(c, sock, m), key, sid)
  {
    if Files(c, sock, m) {
      FilesUnderKey(c, sock, m);
    }
  }

  lemma StaysForgotten(w: World, step: Step, key: StateKey, sid: string)
    requires Forgotten(w.client, key, sid) && Enabled(w, step)
    ensures Forgotten(Next(w, step).client, key, sid) <==> !Revives(w, step, key, sid)
  {
    match step
    case Message(sock, m) =>
      if Files(w.client, sock, m) {
        FilesUnderKey(w.client, sock, m);
      }
      if !Revives(w, step, key, sid) {
        StaysForgottenOnMessage(w.client, sock, m, key, sid);
      }
    case _ =>
  }

  /** No step of the run brings the id back. */
  ghost predicate NeverRevived(w: World, steps: seq<Step>, key: StateKey, sid: string)
    decreases |steps|
  {
    steps == [] ||
    (Enabled(w, steps[0]) && !Revives(w, steps[0], key, sid) && NeverRevived(Next(w, steps[0]), steps[1..], key, sid))
  }

  lemma {:induction false} ForgottenRun(w: World, steps: seq<Step>, t: World, key: StateKey, sid: string)
    requires Forgotten(w.client, key, sid) && Leads(w, steps, t) && NeverRevived(w, steps, key, sid)
    ensures Forgotten(t.client, key, sid)
    decreases |steps|
  {
    hide Next, Revives, Forgotten;
    if steps != [] {
      StaysForgotten(w, steps[0], key, sid);
      ForgottenRun(Next(w, steps[0]), steps[1..], t, key, sid);
    }
  }

  /**
   After a refusal no message to the same agent over the same gateway carries the refused id, or any other known for it,
   in any run that does not bring that id back.
   */
  lemma RefusedIdIsNotSent(w: World, sock: nat, m: Frame, steps: seq<Step>, t: World, sid: string)
    requires sock in w.log && Refuses(w.client, sock, m)
    requires var next := Next(w, Message(sock, m));
      Leads(next, steps, t) && NeverRevived(next, steps, Key(w.client), sid)
    ensures Key(t.client) == Key(w.client) ==> NextSid(t.client) != Some(sid)
  {
    var next := Next(w, Message(sock, m));
    ErrorMeaning(w.client, sock, m);
    ForgottenRun(next, steps, t, Key(w.client), sid);
  }
}
