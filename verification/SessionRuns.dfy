/** What holds over every sequence of commands a mail server may send on one connection. */
module SessionRuns {
  import opened Macros
  import opened Options
  import opened Payloads
  import opened Session
  import opened Wire
  import M = Message
  import R = Reply

  /** The state after a sequence of inputs; None when the session ended on the way. */
  function After(env: Env, s: State, inputs: seq<Input>): Option<State>
  {
    if inputs == [] then Some(s)
    else
      match After(env, s, inputs[..|inputs| - 1])
      case None => None
      case Some(before) =>
        match Step(env, before, inputs[|inputs| - 1])
        case Continues(after, _, _) => Some(after)
        case Ends(_) => None
  }

  function Run(env: Env, inputs: seq<Input>): Option<State> { After(env, Initial(env), inputs) }

  lemma {:induction false} AfterConcat(env: Env, s: State, a: seq<Input>, b: seq<Input>)
    ensures After(env, s, a + b) == match After(env, s, a) case None => None case Some(t) => After(env, t, b)
    decreases |b|
  {
    hide Step;
    if b == [] {
      assert a + b == a;
    } else {
      assert (a + b)[..|a + b| - 1] == a + b[..|b| - 1];
      AfterConcat(env, s, a, b[..|b| - 1]);
    }
  }

  // ---------------------------------------------------------------- one answer per command

  predicate Unanswered(command: byte)
  {
    command == MACRO || command == ABORT || command == QUIT || command == QUIT_CONNECTION
  }

  /** A surviving command gets exactly one answer, except macro, abort and quit-connection, which get none;
      quit ends the session without one, and so does every protocol error. */
  lemma OneAnswerEach(env: Env, s: State, i: Input)
    ensures var r := Step(env, s, i);
      && (r.Continues? ==> |r.answers| == if Unanswered(i.command) then 0 else 1)
      && (r.Ends? && i.sent ==> r.answers == [])
      && (r.Ends? ==> |r.answers| <= 1)
      && (i.command == QUIT ==> r.Ends? && r.answers == [])
  {
    hide CaptureMacros, Decide;
  }

  // ---------------------------------------------------------------- order of commands

  predicate Quiet(inputs: seq<Input>)
  {
    forall k :: 0 <= k < |inputs| ==> inputs[k].command == MACRO
  }

  /** The one negotiation of a run, before which there are only macros. */
  ghost predicate NegotiatedAt(inputs: seq<Input>, n: nat)
  {
    && n < |inputs| && inputs[n].command == NEGOTIATE && Quiet(inputs[..n])
    && forall k :: n < k < |inputs| ==> inputs[k].command != NEGOTIATE
  }

  /** Negotiation happens once and first: until then a session sees nothing but macros. */
  lemma {:induction false} NegotiationOnceAndFirst(env: Env, inputs: seq<Input>) returns (n: nat)
    requires Run(env, inputs).Some?
    ensures if Run(env, inputs).value.phase == Negotiation then Quiet(inputs) else NegotiatedAt(inputs, n)
  {
    n := 0;
    if inputs != [] {
      var front, last := inputs[..|inputs| - 1], inputs[|inputs| - 1];
      n := NegotiationOnceAndFirst(env, front);
      var before := Run(env, front).value;
      PhaseStep(env, before, last);
      hide Step;
      if before.phase == Negotiation && last.command == NEGOTIATE {
        n := |front|;
        assert inputs[..n] == front;
      } else if before.phase != Negotiation {
        assert inputs[..n] == front[..n];
      }
    }
  }

  /** How one surviving command moves the phase. */
  lemma PhaseStep(env: Env, s: State, i: Input)
    requires Step(env, s, i).Continues?
    ensures var after := Step(env, s, i).state.phase;
      && (i.command == NEGOTIATE <==> s.phase == Negotiation && after != Negotiation)
      && (s.phase == Negotiation && i.command != NEGOTIATE ==> i.command == MACRO && after == Negotiation)
      && (i.command == ABORT || i.command == QUIT_CONNECTION || i.command == END_BODY ==> after == Connection)
      && (i.command == END_BODY || i.command == BODY ==> s.phase == Body)
      && (i.command == MAIL ==> s.phase == Connection && (after == Connection || after == Envelope))
      && (i.command == HEADER || i.command == END_HEADERS ==> s.phase == Envelope)
      && (i.command == END_HEADERS <==> s.phase == Envelope && after == Body)
      && (after == Envelope ==> i.command == MAIL || (s.phase == Envelope && i.command != END_HEADERS))
      && (after == Body ==> i.command == END_HEADERS || s.phase == Body)
      && (!(i.command == NEGOTIATE || Resets(i.command) || i.command == END_HEADERS) ==> after == s.phase)
  {
    hide CaptureMacros, Decide, EncodeAction;
  }

  predicate Resets(command: byte)
  {
    command == MAIL || command == ABORT || command == QUIT_CONNECTION || command == END_BODY
  }

  /** MAIL at `j` opened the transaction that is still open at the end. */
  ghost predicate OpenedAt(inputs: seq<Input>, j: nat)
  {
    j < |inputs| && inputs[j].command == MAIL && forall k :: j < k < |inputs| ==> !Resets(inputs[k].command)
  }

  ghost predicate HeadersEndAt(inputs: seq<Input>, j: nat, k: nat)
  {
    && j < k < |inputs| && inputs[k].command == END_HEADERS
    && (forall m :: j < m < |inputs| && m != k ==> inputs[m].command != END_HEADERS)
    && (forall m :: k < m < |inputs| ==> inputs[m].command != HEADER && inputs[m].command != RECIPIENT)
    && (forall m :: j < m < k ==> inputs[m].command != BODY)
  }

  /** In the envelope phase a MAIL is open and its headers have not ended; in the body phase they have. */
  lemma {:induction false} PhasesFollowCommands(env: Env, inputs: seq<Input>) returns (j: nat, k: nat)
    requires Run(env, inputs).Some?
    ensures Run(env, inputs).value.phase == Envelope ==>
      OpenedAt(inputs, j) && forall m :: j < m < |inputs| ==> inputs[m].command != END_HEADERS && inputs[m].command != BODY
    ensures Run(env, inputs).value.phase == Body ==> OpenedAt(inputs, j) && HeadersEndAt(inputs, j, k)
  {
    j, k := 0, 0;
    if inputs != [] {
      hide Step;
      var front, last := inputs[..|inputs| - 1], inputs[|inputs| - 1];
      j, k := PhasesFollowCommands(env, front);
      var before := Run(env, front).value;
      PhaseStep(env, before, last);
      RecipientPhase(env, before, last);
      var after := Run(env, inputs).value.phase;
      if after == Envelope && last.command == MAIL {
        j := |front|;
      }
      if after == Body && last.command == END_HEADERS {
        k := |front|;
      }
    }
  }

  lemma RecipientPhase(env: Env, s: State, i: Input)
    requires Step(env, s, i).Continues?
    ensures i.command == RECIPIENT ==> s.phase == Envelope
  {
    hide AddRecipient;
  }

  /** An end of body is only ever processed after a MAIL and then an end of headers, with no reset since. */
  lemma EndOfBodyComesLast(env: Env, inputs: seq<Input>) returns (j: nat, k: nat)
    requires inputs != [] && inputs[|inputs| - 1].command == END_BODY && Run(env, inputs).Some?
    ensures OpenedAt(inputs[..|inputs| - 1], j) && HeadersEndAt(inputs[..|inputs| - 1], j, k)
  {
    hide Step;
    PhaseStep(env, Run(env, inputs[..|inputs| - 1]).value, inputs[|inputs| - 1]);
    j, k := PhasesFollowCommands(env, inputs[..|inputs| - 1]);
  }

  // ---------------------------------------------------------------- what the state can be

  predicate StateOk(env: Env, s: State)
  {
    && (s.conn.auth.authenticated ==> s.conn.connected)
    && (!s.conn.connected ==> s.conn == NO_CONN.(pendingMTAHostname := s.conn.pendingMTAHostname, helo := s.conn.helo))
    && (s.phase == Negotiation || s.phase == Connection ==> s.txn == FreshTxn(env))
    && |s.txn.recipients| <= MAX_RECIPIENTS
    && (s.phase == Negotiation ==> !s.conn.connected)
  }

  lemma StepOk(env: Env, s: State, i: Input)
    requires StateOk(env, s) && Step(env, s, i).Continues?
    ensures StateOk(env, Step(env, s, i).state)
  {
    hide Macros.Parse, Decide, M.WithHeader, M.WithBody, ParseHeader, ParseEnvelopeAddress, ParseIdentity, ParseHostname;
  }

  /** Whoever counts as authenticated is connected, and outside a transaction nothing of one is left. */
  lemma {:induction false} StatesAreOk(env: Env, inputs: seq<Input>)
    requires Run(env, inputs).Some?
    ensures StateOk(env, Run(env, inputs).value)
  {
    hide Step;
    if inputs != [] {
      StatesAreOk(env, inputs[..|inputs| - 1]);
      StepOk(env, Run(env, inputs[..|inputs| - 1]).value, inputs[|inputs| - 1]);
    }
  }

  // ---------------------------------------------------------------- where authentication comes from

  /** A macro command that names an authenticated identity for MAIL, DATA, the end of headers or the end of the body. */
  predicate Authenticates(env: Env, i: Input, identity: bytes)
  {
    i.command == 68 &&
    match Macros.Parse(i.payload)
    case Malformed => false
    case Valid(target, values) =>
      (target == 77 || target == 84 || target == 78 || target == 69) && values.identity.Some? && env.cleanIdentity(values.identity.value) == identity && identity != []
  }

  /** The last CONNECT, with no end of that connection since. */
  ghost predicate ConnectedAt(inputs: seq<Input>, c: nat)
  {
    c < |inputs| && inputs[c].command == CONNECT
    && forall m :: c < m < |inputs| ==> inputs[m].command != CONNECT && inputs[m].command != QUIT_CONNECTION
  }

  lemma ConnStep(env: Env, s: State, i: Input)
    requires Step(env, s, i).Continues?
    ensures var after := Step(env, s, i).state.conn;
      && (i.command == CONNECT ==> after.connected && after.auth == NO_AUTH)
      && (i.command == QUIT_CONNECTION ==> !after.connected && after.auth == NO_AUTH)
      && (i.command != CONNECT && i.command != QUIT_CONNECTION ==> after.connected == s.conn.connected)
      && (i.command != CONNECT && i.command != QUIT_CONNECTION && after.auth != s.conn.auth ==>
            s.conn.connected && after.auth.authenticated && Authenticates(env, i, after.auth.identity))
  {
    hide Macros.Parse, Decide, ParseIdentity, ParseHostname, M.WithHeader, M.WithBody, ParseHeader, ParseEnvelopeAddress;
  }

  /** Nobody is authenticated except by a macro received on the present connection, and then as whom it named. */
  lemma {:induction false} AuthenticatedByMacro(env: Env, inputs: seq<Input>) returns (c: nat, k: nat)
    requires Run(env, inputs).Some?
    ensures Run(env, inputs).value.conn.connected ==> ConnectedAt(inputs, c)
    ensures Run(env, inputs).value.conn.auth.authenticated ==>
      ConnectedAt(inputs, c) && c < k < |inputs| && Authenticates(env, inputs[k], Run(env, inputs).value.conn.auth.identity)
  {
    c, k := 0, 0;
    if inputs != [] {
      hide Step, Authenticates;
      var front, last := inputs[..|inputs| - 1], inputs[|inputs| - 1];
      c, k := AuthenticatedByMacro(env, front);
      var before, after := Run(env, front).value, Run(env, inputs).value;
      ConnStep(env, before, last);
      if last.command == CONNECT {
        c := |front|;
      } else if last.command != QUIT_CONNECTION && after.conn.auth != before.conn.auth {
        k := |front|;
      }
    }
  }

  /** Only accepted mail of an authenticated sender teaches the allowlist its recipients, and only mail of others
      counts as evidence about its sender. */
  lemma LearningFollowsAuthentication(env: Env, s: State)
    ensures LearnRecipients in Decide(env, s).effects ==> s.conn.auth.authenticated && Decide(env, s).answer == ACCEPT_REPLY
    ensures TouchSender in Decide(env, s).effects || RecordClassification in Decide(env, s).effects ==> !s.conn.auth.authenticated
    ensures RecordClassification in Decide(env, s).effects ==>
      env.classify(s.conn, s.txn).Some? && !env.allowedDomain(s.conn, s.txn) && !env.knownBypass(s.conn, s.txn)
  {
    hide R.ReplyCode;
  }

  // ---------------------------------------------------------------- transactions leave no trace

  predicate ConnectionScoped(command: byte)
  {
    command == NEGOTIATE || command == MACRO || command == CONNECT || command == HELO || command == QUIT_CONNECTION
  }

  /** The inputs that concern the connection, with every transaction removed. */
  function Erase(inputs: seq<Input>): seq<Input>
  {
    if inputs == [] then []
    else Erase(inputs[..|inputs| - 1]) + if ConnectionScoped(inputs[|inputs| - 1].command) then [inputs[|inputs| - 1]] else []
  }

  /** The same connection, outside any transaction. */
  function Outside(env: Env, s: State): State
  {
    State(if s.phase == Negotiation then Negotiation else Connection, s.conn, FreshTxn(env))
  }

  lemma StepOutside(env: Env, s: State, i: Input)
    requires StateOk(env, s) && Step(env, s, i).Continues?
    ensures if ConnectionScoped(i.command)
      then Step(env, Outside(env, s), i).Continues? && Step(env, Outside(env, s), i).state == Outside(env, Step(env, s, i).state)
      else Outside(env, Step(env, s, i).state) == Outside(env, s)
  {
    hide CaptureMacros, Decide, M.WithHeader, M.WithBody, ParseHeader, ParseEnvelopeAddress, ParseIdentity, ParseHostname;
  }

  /** Removing all transactions from a run changes nothing about the connection. */
  lemma {:induction false} ErasureKeepsConnection(env: Env, inputs: seq<Input>)
    requires Run(env, inputs).Some?
    ensures Run(env, Erase(inputs)) == Some(Outside(env, Run(env, inputs).value))
  {
    hide Step;
    if inputs != [] {
      var front, last := inputs[..|inputs| - 1], inputs[|inputs| - 1];
      ErasureKeepsConnection(env, front);
      StatesAreOk(env, front);
      StepOutside(env, Run(env, front).value, last);
      if ConnectionScoped(last.command) {
        assert Erase(inputs)[..|Erase(inputs)| - 1] == Erase(front);
      } else {
        assert Erase(front) + [] == Erase(front);
      }
    }
  }

  /** Between transactions the state is a function of the connection's own commands alone: runs that differ
      only in earlier finished, aborted or refused transactions cannot be told apart, now or later. */
  lemma TransactionsLeaveNoTrace(env: Env, a: seq<Input>, b: seq<Input>, more: seq<Input>)
    requires Run(env, a).Some? && Run(env, a).value.phase == Connection
    requires Run(env, b).Some? && Run(env, b).value.phase == Connection
    requires Erase(a) == Erase(b)
    ensures Run(env, a) == Run(env, b) == Run(env, Erase(a))
    ensures Run(env, a + more) == Run(env, b + more)
  {
    hide After, Erase;
    ErasureKeepsConnection(env, a);
    ErasureKeepsConnection(env, b);
    StatesAreOk(env, a);
    StatesAreOk(env, b);
    AfterConcat(env, Initial(env), a, more);
    AfterConcat(env, Initial(env), b, more);
  }

  // ---------------------------------------------------------------- what a message is made of

  /** The headers, and the body chunks, received since the last MAIL. */
  function HeadersSince(inputs: seq<Input>): seq<Header>
  {
    if inputs == [] || inputs[|inputs| - 1].command == MAIL then []
    else
      var last := inputs[|inputs| - 1];
      HeadersSince(inputs[..|inputs| - 1])
      + if last.command == HEADER && ParseHeader(last.payload).Some? then [ParseHeader(last.payload).value] else []
  }

  function ChunksSince(inputs: seq<Input>): seq<bytes>
  {
    if inputs == [] || inputs[|inputs| - 1].command == MAIL then []
    else ChunksSince(inputs[..|inputs| - 1]) + if inputs[|inputs| - 1].command == BODY then [inputs[|inputs| - 1].payload] else []
  }

  function MessageOf(env: Env, inputs: seq<Input>): M.State
  {
    M.WithBodies(M.WithHeaders(env.rules, M.New(env.maxBytes), HeadersSince(inputs)), ChunksSince(inputs))
  }

  lemma MessageStep(env: Env, s: State, i: Input)
    requires Step(env, s, i).Continues?
    requires Step(env, s, i).state.phase == Envelope || Step(env, s, i).state.phase == Body
    ensures Step(env, s, i).state.txn.message ==
      if i.command == MAIL then M.New(env.maxBytes)
      else if i.command == HEADER && ParseHeader(i.payload).Some? then M.WithHeader(env.rules, s.txn.message, ParseHeader(i.payload).value)
      else if i.command == BODY then M.WithBody(s.txn.message, i.payload)
      else s.txn.message
    ensures i.command == HEADER ==> ParseHeader(i.payload).Some?
  {
    hide CaptureMacros, Decide, M.WithHeader, M.WithBody, ParseHeader, ParseEnvelopeAddress, ParseIdentity, ParseHostname;
  }

  /** In every transaction the retained message is made of exactly the headers and chunks since its MAIL. */
  lemma {:induction false} MessageIsSinceMail(env: Env, inputs: seq<Input>)
    requires Run(env, inputs).Some?
    ensures Run(env, inputs).value.phase == Envelope ==> ChunksSince(inputs) == []
    ensures Run(env, inputs).value.phase == Envelope || Run(env, inputs).value.phase == Body ==>
      Run(env, inputs).value.txn.message == MessageOf(env, inputs)
  {
    hide Step, M.WithHeader, M.WithBody, ParseHeader;
    if inputs != [] && Run(env, inputs).value.phase != Negotiation && Run(env, inputs).value.phase != Connection {
      var front, last := inputs[..|inputs| - 1], inputs[|inputs| - 1];
      var before := Run(env, front).value;
      MessageIsSinceMail(env, front);
      PhaseStep(env, before, last);
      MessageStep(env, before, last);
      var hs, cs := HeadersSince(inputs), ChunksSince(inputs);
      if last.command == HEADER {
        assert hs[..|hs| - 1] == HeadersSince(front) && cs == ChunksSince(front) == [];
      } else if last.command == BODY {
        assert cs[..|cs| - 1] == ChunksSince(front) && hs == HeadersSince(front);
      } else if last.command != MAIL {
        assert cs == ChunksSince(front) && hs == HeadersSince(front);
      }
    }
  }

  /** The sender named by the last MAIL, or nothing when it names none. */
  function SenderSince(inputs: seq<Input>): bytes
  {
    if inputs == [] then []
    else if inputs[|inputs| - 1].command != MAIL then SenderSince(inputs[..|inputs| - 1])
    else match ParseEnvelopeAddress(inputs[|inputs| - 1].payload) case Some(sender) => sender case None => []
  }

  /** A recipient that is accepted from a peer with this authentication and sender. */
  predicate Acceptable(env: Env, auth: Auth, sender: bytes, i: Input)
  {
    i.command == RECIPIENT &&
    match ParseEnvelopeAddress(i.payload)
    case None => false
    case Some(r) => !(env.commandRecipient(r) && env.denial(auth, sender).Some?)
  }

  /** All recipients accepted since the last MAIL, in order. */
  function RecipientsSince(env: Env, inputs: seq<Input>): seq<bytes>
  {
    if inputs == [] || inputs[|inputs| - 1].command == MAIL then []
    else
      var front, last := inputs[..|inputs| - 1], inputs[|inputs| - 1];
      var auth := match Run(env, front) case Some(s) => s.conn.auth case None => NO_AUTH;
      RecipientsSince(env, front)
      + if Acceptable(env, auth, SenderSince(front), last) then [ParseEnvelopeAddress(last.payload).value] else []
  }

  predicate IsEnvelope(t: Txn, sender: bytes, recipients: seq<bytes>)
  {
    && t.sender == sender && (t.recipientsTruncated <==> |recipients| > MAX_RECIPIENTS)
    && t.recipients == if |recipients| > MAX_RECIPIENTS then recipients[..MAX_RECIPIENTS] else recipients
  }

  lemma EnvelopeStep(env: Env, s: State, i: Input, sender: bytes, recipients: seq<bytes>)
    requires Step(env, s, i).Continues? && (Step(env, s, i).state.phase == Envelope || Step(env, s, i).state.phase == Body)
    requires i.command != MAIL ==> IsEnvelope(s.txn, sender, recipients)
    ensures var t := Step(env, s, i).state.txn;
      if i.command == MAIL then
        IsEnvelope(t, match ParseEnvelopeAddress(i.payload) case Some(x) => x case None => [], [])
      else
        IsEnvelope(t, sender, recipients + if Acceptable(env, s.conn.auth, sender, i) then [ParseEnvelopeAddress(i.payload).value] else [])
  {
    hide CaptureMacros, Decide, M.WithHeader, M.WithBody, ParseHeader, ParseEnvelopeAddress, ParseIdentity, ParseHostname;
    assert recipients + [] == recipients;
  }

  /** In every transaction the sender is the one its MAIL named, and the recipients are the first hundred accepted
      ones since, with a flag that tells exactly whether there were more. */
  lemma {:induction false} EnvelopeIsSinceMail(env: Env, inputs: seq<Input>)
    requires Run(env, inputs).Some?
    ensures Run(env, inputs).value.phase == Envelope || Run(env, inputs).value.phase == Body ==>
      IsEnvelope(Run(env, inputs).value.txn, SenderSince(inputs), RecipientsSince(env, inputs))
  {
    hide Step, IsEnvelope, Acceptable;
    if inputs != [] && Run(env, inputs).value.phase != Negotiation && Run(env, inputs).value.phase != Connection {
      var front, last := inputs[..|inputs| - 1], inputs[|inputs| - 1];
      var before := Run(env, front).value;
      EnvelopeIsSinceMail(env, front);
      PhaseStep(env, before, last);
      EnvelopeStep(env, before, last, SenderSince(front), RecipientsSince(env, front));
    }
  }

  /** Hence the body that is judged is the first `maxBytes` bytes of everything sent since MAIL. */
  lemma JudgedBody(env: Env, inputs: seq<Input>)
    requires Run(env, inputs).Some? && Run(env, inputs).value.phase == Body
    ensures var body, sent := Run(env, inputs).value.txn.message.body, M.Concat(ChunksSince(inputs));
      && body == M.Take(sent, env.maxBytes) && body <= sent
      && |body| == if env.maxBytes <= 0 then 0 else if |sent| > env.maxBytes then env.maxBytes else |sent|
  {
    hide After;
    MessageIsSinceMail(env, inputs);
    HeadersLeaveBody(env, HeadersSince(inputs));
    M.BodyIsPrefix(M.WithHeaders(env.rules, M.New(env.maxBytes), HeadersSince(inputs)), ChunksSince(inputs));
  }

  lemma {:induction false} HeadersLeaveBody(env: Env, hs: seq<Header>)
    ensures var t := M.WithHeaders(env.rules, M.New(env.maxBytes), hs);
      t.body == [] && t.bodySize == 0 && !t.bodyTruncated && t.maxBytes == env.maxBytes
  {
    if hs != [] {
      HeadersLeaveBody(env, hs[..|hs| - 1]);
    }
  }

  // ---------------------------------------------------------------- decisions and their consequences

  /** In monitor mode mail is never refused, unless it was a refused command message. */
  lemma MonitorNeverRejects(env: Env, s: State)
    requires !env.enforce && env.emailCommand(s.conn, s.txn).None?
    ensures Decide(env, s).answer == ACCEPT_REPLY
    ensures StrikeIP !in Decide(env, s).effects && RecordRejection !in Decide(env, s).effects
  {
  }

  /** An address is struck and a rejection recorded together, only in enforce mode, and only when the
      classifier's verdict had the message refused. */
  lemma StrikesFollowRejections(env: Env, s: State)
    ensures StrikeIP in Decide(env, s).effects <==> RecordRejection in Decide(env, s).effects
    ensures StrikeIP in Decide(env, s).effects ==>
      && env.enforce && Decide(env, s).answer == EncodeAction(env, Reject)
      && var c := env.classify(s.conn, s.txn); c.Some? && c.value.verdict == "unwanted" && c.value.score >= env.rejectScore
  {
    hide EncodeAction;
  }
}
