/**
 What a session knows of the connection, from the commands that told it: the peer's address and
 host name, its greeting, the mail server's host name and the authenticated identity.
 */
module SessionPeers {
  import opened Macros
  import opened NetworkAddress
  import opened Options
  import opened Payloads
  import opened Session
  import opened SessionRuns
  import opened Wire
  import M = Message

  /** The host name of the mail server that a macro command gives, for the next CONNECT or for any other command. */
  function NamedBy(i: Input, forConnect: bool): Option<bytes>
  {
    if i.command != 68 then None
    else
      match Macros.Parse(i.payload)
      case Malformed => None
      case Valid(target, values) => if (target == 67) == forConnect then values.hostname else None
  }

  /** The last such name since the last CONNECT or end of a connection. */
  function NamedSince(inputs: seq<Input>, forConnect: bool): Option<bytes>
  {
    if inputs == [] || inputs[|inputs| - 1].command == 67 || inputs[|inputs| - 1].command == 75 then None
    else if NamedBy(inputs[|inputs| - 1], forConnect).Some? then NamedBy(inputs[|inputs| - 1], forConnect)
    else NamedSince(inputs[..|inputs| - 1], forConnect)
  }

  function Validated(env: Env, name: Option<bytes>): bytes
  {
    match name case Some(n) => env.validHostname(n) case None => []
  }

  /** What one command makes of the mail server's host name: a name for CONNECT waits for it, another counts at once on a
      connection, CONNECT takes over the one that waits, and the end of a connection forgets both. */
  lemma HostnameStep(env: Env, s: State, i: Input)
    requires Step(env, s, i).Continues?
    ensures var before, after := s.conn, Step(env, s, i).state.conn;
      if i.command == 75 then after.mtaHostname == [] && after.pendingMTAHostname == [] && !after.connected
      else if i.command == 67 then after.mtaHostname == before.pendingMTAHostname && after.pendingMTAHostname == [] && after.connected
      else
        && after.connected == before.connected
        && after.pendingMTAHostname == (if NamedBy(i, true).Some? then env.validHostname(NamedBy(i, true).value) else before.pendingMTAHostname)
        && after.mtaHostname == (if before.connected && NamedBy(i, false).Some? then env.validHostname(NamedBy(i, false).value)
                                 else before.mtaHostname)
  {
    hide Macros.Parse, Decide, ParseIdentity, ParseHostname, M.WithHeader, M.WithBody, ParseHeader, ParseEnvelopeAddress, EncodeAction,
      OptionAnswer;
  }

  /** In every run the host name that counts on a connection is the last valid or invalid one named since its CONNECT, or
      else the last one named for it before. */
  lemma {:induction false} HostnamesFollowMacros(env: Env, inputs: seq<Input>) returns (c: nat)
    requires Run(env, inputs).Some?
    ensures Run(env, inputs).value.conn.pendingMTAHostname == Validated(env, NamedSince(inputs, true))
    ensures var conn := Run(env, inputs).value.conn;
      if !conn.connected then conn.mtaHostname == []
      else
        && ConnectedAt(inputs, c)
        && conn.mtaHostname == (if NamedSince(inputs, false).Some? then env.validHostname(NamedSince(inputs, false).value)
                                else Validated(env, NamedSince(inputs[..c], true)))
  {
    hide Step, NamedBy;
    c := 0;
    if inputs != [] {
      var front, last := inputs[..|inputs| - 1], inputs[|inputs| - 1];
      c := HostnamesFollowMacros(env, front);
      HostnameStep(env, Run(env, front).value, last);
      if last.command == 67 {
        c := |front|;
      }
      assert c <= |front| ==> inputs[..c] == front[..c];
    }
  }

  /** What one command makes of the rest: CONNECT starts anew, HELO replaces the greeting, and a macro on a connection
      authenticates whoever it names for MAIL, DATA, the end of headers or the end of the body. */
  lemma PeerStep(env: Env, s: State, i: Input)
    requires Step(env, s, i).Continues?
    ensures var before, after := s.conn, Step(env, s, i).state.conn;
      var identity := Identified(env, i);
      if i.command == 75 then after == Conn(false, Addr.Invalid, [], [], [], [], Auth(false, []))
      else if i.command == 67 then
        && after.peerIP == ConnectIP(env.parseIP, i.payload) && after.helo == [] && after.auth == Auth(false, [])
        && after.peerHostname == (match ParseHostname(i.payload) case Some(h) => env.cleanIdentity(h) case None => [])
      else
        && after.peerIP == before.peerIP && after.peerHostname == before.peerHostname
        && after.helo == (if i.command == 72 then (match ParseIdentity(i.payload) case Some(h) => env.cleanIdentity(h) case None => [])
                          else before.helo)
        && after.auth == (if before.connected && identity != [] then Auth(true, identity) else before.auth)
  {
    hide Macros.Parse, Decide, ParseIdentity, ParseHostname, M.WithHeader, M.WithBody, ParseHeader, ParseEnvelopeAddress, EncodeAction,
      OptionAnswer;
  }

  /** The identity a macro command gives, cleaned; empty when it gives none that counts. */
  function Identified(env: Env, i: Input): bytes
  {
    if i.command != 68 then []
    else
      match Macros.Parse(i.payload)
      case Malformed => []
      case Valid(target, values) =>
        if (target == 77 || target == 84 || target == 78 || target == 69) && values.identity.Some? then env.cleanIdentity(values.identity.value)
        else []
  }

  /** The last identity given since the last CONNECT or end of a connection. */
  function IdentifiedSince(env: Env, inputs: seq<Input>): bytes
  {
    if inputs == [] || inputs[|inputs| - 1].command == 67 || inputs[|inputs| - 1].command == 75 then []
    else if Identified(env, inputs[|inputs| - 1]) != [] then Identified(env, inputs[|inputs| - 1])
    else IdentifiedSince(env, inputs[..|inputs| - 1])
  }

  /** In every run the peer of a connection is the one its CONNECT described, and it is authenticated exactly as whom a
      macro last named on it. */
  lemma {:induction false} PeerIsTheConnected(env: Env, inputs: seq<Input>) returns (c: nat)
    requires Run(env, inputs).Some?
    ensures var conn := Run(env, inputs).value.conn;
      if !conn.connected then conn.peerIP == Addr.Invalid && conn.peerHostname == [] && conn.auth == Auth(false, [])
      else
        && ConnectedAt(inputs, c) && conn.peerIP == ConnectIP(env.parseIP, inputs[c].payload)
        && conn.peerHostname == (match ParseHostname(inputs[c].payload) case Some(h) => env.cleanIdentity(h) case None => [])
        && conn.auth == if IdentifiedSince(env, inputs) != [] then Auth(true, IdentifiedSince(env, inputs)) else Auth(false, [])
  {
    hide Step, Identified, ParseHostname, ParseIdentity, NamedBy;
    c := 0;
    if inputs != [] {
      var front, last := inputs[..|inputs| - 1], inputs[|inputs| - 1];
      c := PeerIsTheConnected(env, front);
      PeerStep(env, Run(env, front).value, last);
      HostnameStep(env, Run(env, front).value, last);
      if last.command == 67 {
        c := |front|;
      }
    }
  }
}
