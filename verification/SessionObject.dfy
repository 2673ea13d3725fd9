/**
 The session as the Milter runs it: an object whose fields each command updates, and a
 connection that answers are written to. Handling a command is proved to do what `Session.Step`
 says, and a surviving session to have written exactly the frames of its answers.
 */
module SessionObject {
  import opened NetworkAddress
  import opened Macros
  import opened Options
  import opened Payloads
  import opened Session
  import opened Wire
  import M = Message
  import R = Reply

  class Milter {
    const env: Env
    const conn: Writer
    var phase: Phase
    var connected: bool
    var peerIP: Addr
    var peerHostname: bytes
    var mtaHostname: bytes
    var pendingMTAHostname: bytes
    var heloIdentity: bytes
    var authentication: Auth
    var envelopeSender: bytes
    var envelopeRecipients: seq<bytes>
    var recipientsTruncated: bool
    var message: M.Message

    ghost function ConnView(): Conn
      reads this
    {
      Conn(connected, peerIP, peerHostname, mtaHostname, pendingMTAHostname, heloIdentity, authentication)
    }

    ghost function View(): State
      reads this, message
    {
      State(phase, ConnView(), Txn(envelopeSender, envelopeRecipients, recipientsTruncated, message.View()))
    }

    ghost predicate Valid()
      reads this, message
    {
      message.rules == env.rules
    }

    constructor (env: Env, conn: Writer)
      ensures this.env == env && this.conn == conn && Valid() && View() == Initial(env) && fresh(message)
    {
      this.env, this.conn := env, conn;
      phase, connected, peerIP, authentication := Negotiation, false, Addr.Invalid, NO_AUTH;
      peerHostname, mtaHostname, pendingMTAHostname, heloIdentity := [], [], [], [];
      envelopeSender, envelopeRecipients, recipientsTruncated := [], [], false;
      message := new M.Message(env.rules, env.maxBytes);
    }

    /** The session did what a result says, and wrote the frames of its answers if it survived. */
    ghost predicate Did(result: Result, alive: bool, sentBefore: bytes)
      reads this, message, conn
    {
      && Valid()
      && (alive <==> result.Continues?)
      && (alive ==> View() == result.state && conn.sent == sentBefore + EncodeAll(result.answers))
    }

    method ResetMessage(next: Phase)
      modifies this
      ensures Valid() && View() == Reset(env, old(View()), next) && fresh(message)
    {
      message := new M.Message(env.rules, env.maxBytes);
      envelopeSender, envelopeRecipients, recipientsTruncated := [], [], false;
      phase := next;
    }

    /** Writes one answer; false when the connection failed. */
    method Send(answer: bytes) returns (ok: bool)
      modifies conn
      ensures ok ==> conn.sent == old(conn.sent) + EncodeAll([answer])
    {
      assert EncodeAll([answer]) == Frame(answer) + EncodeAll([]);
      var written, _ := WriteFrame(conn, answer);
      ok := written;
    }

    method CaptureSessionMacros(payload: bytes)
      modifies this
      ensures View() == old(View()).(conn := CaptureMacros(env, old(ConnView()), payload)) && message == old(message)
    {
      var parsed := ParseSessionMacros(payload);
      if parsed.Malformed? {
        return;
      }
      var target := parsed.target;
      if parsed.values.hostname.Some? {
        var hostname := env.validHostname(parsed.values.hostname.value);
        if target == CONNECT {
          pendingMTAHostname := hostname;
        } else if connected {
          mtaHostname := hostname;
        }
      }
      if !connected || parsed.values.identity.None? || !AuthTarget(target) {
        return;
      }
      var identity := env.cleanIdentity(parsed.values.identity.value);
      if identity != [] {
        authentication := Auth(true, identity);
      }
    }

    method EndConnection()
      modifies this
      ensures Valid() && View() == State(Connection, NO_CONN, FreshTxn(env)) && fresh(message)
    {
      connected, peerIP, authentication := false, Addr.Invalid, NO_AUTH;
      peerHostname, mtaHostname, pendingMTAHostname, heloIdentity := [], [], [], [];
      ResetMessage(Connection);
    }

    /** Starts an SMTP connection, taking over the host name announced for it. */
    method BeginConnection(payload: bytes)
      modifies `connected, `peerIP, `peerHostname, `mtaHostname, `pendingMTAHostname, `heloIdentity, `authentication
      ensures ConnView() == Connected(env, old(ConnView()), payload)
    {
      connected := true;
      mtaHostname := pendingMTAHostname;
      pendingMTAHostname, peerHostname, heloIdentity := [], [], [];
      authentication := NO_AUTH;
      var hostname := ParseHostname(payload);
      if hostname.Some? {
        peerHostname := env.cleanIdentity(hostname.value);
      }
      peerIP := ConnectIP(env.parseIP, payload);
    }

    method HandleConnect(payload: bytes) returns (alive: bool)
      requires Valid()
      modifies this, conn
      ensures Did(Connect(env, old(View()), Input(CONNECT, payload, alive)), alive, old(conn.sent)) && message == old(message)
    {
      hide Connected;
      if phase != Connection || connected {
        return false;
      }
      BeginConnection(payload);
      alive := Send(CONTINUE_REPLY);
    }

    method HandleRecipient(payload: bytes) returns (alive: bool)
      requires Valid()
      modifies this, conn
      ensures Did(Recipient(env, old(View()), Input(RECIPIENT, payload, alive)), alive, old(conn.sent)) && message == old(message)
    {
      if phase != Envelope {
        return false;
      }
      var recipient := ParseEnvelopeAddress(payload);
      hide EncodeAll, ParseEnvelopeAddress, R.ReplyCode;
      if recipient.Some? {
        if env.commandRecipient(recipient.value) {
          var reason := env.denial(authentication, envelopeSender);
          if reason.Some? {
            alive := Send(R.ReplyCode(CODE_550, STATUS_571, env.refusalPrefix + reason.value));
            return;
          }
        }
        if |envelopeRecipients| < MAX_RECIPIENTS {
          envelopeRecipients := envelopeRecipients + [recipient.value];
        } else {
          recipientsTruncated := true;
        }
      }
      alive := Send(CONTINUE_REPLY);
    }

    method HandleMail(payload: bytes) returns (alive: bool)
      requires Valid()
      modifies this, conn
      ensures Did(Mail(env, old(View()), Input(MAIL, payload, alive)), alive, old(conn.sent))
      ensures message == old(message) || fresh(message)
    {
      if phase != Connection {
        return false;
      }
      if env.enforce && env.blocked(peerIP) {
        alive := Send(EncodeAction(env, Reject));
        return;
      }
      ResetMessage(Envelope);
      var sender := ParseEnvelopeAddress(payload);
      if sender.Some? {
        envelopeSender := sender.value;
      }
      alive := Send(CONTINUE_REPLY);
    }

    /** Answers a message and, if that succeeds, ends its transaction. */
    method Finish(answer: bytes) returns (alive: bool)
      requires Valid()
      modifies this, conn
      ensures Valid() && (message == old(message) || fresh(message))
      ensures alive ==> View() == Reset(env, old(View()), Connection) && conn.sent == old(conn.sent) + EncodeAll([answer])
    {
      alive := Send(answer);
      if alive {
        ResetMessage(Connection);
      }
    }

    /** The action for a classified message, or for one that could not be classified. */
    method ApplyPolicy(c: Option<Classification>) returns (selected: Action)
      ensures selected == Judge(env, c)
    {
      selected := Accept;
      if c.None? {
        if env.enforce && env.tempfailOnError {
          selected := Tempfail;
        }
        return;
      }
      if c.value.verdict == "unwanted" && c.value.score >= env.rejectScore {
        selected := Reject;
      }
      if !env.enforce {
        selected := Accept;
      }
    }

    /** The updates after a decision, in the order they are made. */
    method PostDecisionUpdates(selected: Action, c: Option<Classification>) returns (effects: seq<Effect>)
      requires selected == Judge(env, c)
      ensures effects == Consequences(env, View(), c)
    {
      effects := [];
      if selected == Reject && env.enforce {
        effects := effects + [StrikeIP];
        effects := effects + [RecordRejection];
      }
      if c.Some? && c.value.verdict == "legitimate" {
        effects := effects + [CreditIP];
      }
      if selected == Accept && authentication.authenticated {
        effects := effects + [LearnRecipients];
      } else if !authentication.authenticated && c.Some? {
        effects := effects + [RecordClassification];
      }
    }

    /** The checks of a complete message, one after the other; the first that applies answers it. */
    method HandleEndOfBody(payload: bytes) returns (alive: bool, effects: seq<Effect>)
      requires Valid()
      modifies this, conn
      ensures Did(EndOfBody(env, old(View()), Input(END_BODY, payload, alive)), alive, old(conn.sent))
      ensures alive ==> effects == EndOfBody(env, old(View()), Input(END_BODY, payload, true)).effects
      ensures message == old(message) || fresh(message)
    {
      hide EncodeAll, EncodeAction, R.ReplyCode, Judge, Consequences;
      effects := [];
      if phase != Body {
        return false, effects;
      }
      var c, t := Conn(connected, peerIP, peerHostname, mtaHostname, pendingMTAHostname, heloIdentity, authentication),
                  Txn(envelopeSender, envelopeRecipients, recipientsTruncated,
                      M.State(message.headers, message.body, message.truncated, message.bodyTruncated, message.maxBytes,
                              message.bodySize, message.headerSize));
      var accept := EncodeAction(env, Accept);
      if env.isInternal(c, t.message) {
        alive := Finish(accept);
        return;
      }
      var command := env.emailCommand(c, t);
      if command.Some? {
        match command.value {
          case Refuse(reason) => alive := Finish(R.ReplyCode(CODE_550, STATUS_571, env.refusalPrefix + reason));
          case Discard => alive := Finish(DISCARD_REPLY);
        }
        return;
      }
      if authentication.authenticated && !env.scanAuthenticated {
        alive := Finish(accept);
        return alive, [LearnRecipients];
      }
      var policy := env.attachments(t.message);
      if policy.Some? {
        var selected := if env.enforce then policy.value else Accept;
        if selected == Reject {
          alive := Finish(R.ReplyCode(CODE_550, STATUS_571, env.attachmentMessage));
        } else {
          alive := Finish(EncodeAction(env, selected));
        }
        return;
      }
      if !authentication.authenticated {
        if env.allowedDomain(c, t) {
          alive := Finish(accept);
          return;
        }
        if env.knownBypass(c, t) {
          if env.trustedDKIM(c, t) {
            effects := [TouchSender];
          }
          alive := Finish(accept);
          return;
        }
      }
      var classification := env.classify(c, t);
      var selected := ApplyPolicy(classification);
      effects := PostDecisionUpdates(selected, classification);
      alive := Finish(EncodeAction(env, selected));
    }

    method HandleNegotiation(payload: bytes) returns (alive: bool)
      requires Valid()
      modifies this, conn
      ensures Did(Negotiate(old(View()), Input(NEGOTIATE, payload, alive)), alive, old(conn.sent)) && message == old(message)
    {
      if phase != Negotiation || |payload| != OPTION_BYTES {
        return false;
      }
      var version := Decode32(payload[..4]);
      if version < MIN_VERSION {
        return false;
      }
      if version > MAX_VERSION {
        version := MAX_VERSION;
      }
      alive := Send(OptionAnswer(version));
      if alive {
        phase := Connection;
      }
    }

    method HandleHelo(payload: bytes) returns (alive: bool)
      requires Valid()
      modifies this, conn
      ensures Did(SayHelo(env, old(View()), Input(HELO, payload, alive)), alive, old(conn.sent)) && message == old(message)
    {
      if phase != Connection {
        return false;
      }
      heloIdentity := [];
      var identity := ParseIdentity(payload);
      if identity.Some? {
        heloIdentity := env.cleanIdentity(identity.value);
      }
      alive := Send(CONTINUE_REPLY);
    }

    method HandleHeader(payload: bytes) returns (alive: bool)
      requires Valid()
      modifies this, message, conn
      ensures Did(HeaderLine(env, old(View()), Input(HEADER, payload, alive)), alive, old(conn.sent)) && message == old(message)
    {
      if phase != Envelope {
        return false;
      }
      var header := ParseHeader(payload);
      if header.None? {
        return false;
      }
      message.AddHeader(header.value.name, header.value.value);
      alive := Send(CONTINUE_REPLY);
    }

    method HandleBody(payload: bytes) returns (alive: bool)
      requires Valid()
      modifies this, message, conn
      ensures Did(BodyChunk(old(View()), Input(BODY, payload, alive)), alive, old(conn.sent)) && message == old(message)
    {
      if phase != Body {
        return false;
      }
      message.AddBody(payload);
      alive := Send(CONTINUE_REPLY);
    }

    method Continue(expected: Option<Phase>, next: Phase) returns (alive: bool)
      requires Valid()
      modifies this, conn
      ensures var s := old(View());
        Did(if expected.Some? && s.phase != expected.value then ProtocolError() else Answer(s.(phase := next), CONTINUE_REPLY, alive),
            alive, old(conn.sent))
      ensures message == old(message)
    {
      if expected.Some? && phase != expected.value {
        return false;
      }
      phase := next;
      alive := Send(CONTINUE_REPLY);
    }

    /** The commands of a mail transaction, once options are negotiated. */
    method HandleTransaction(command: byte, payload: bytes) returns (alive: bool, effects: seq<Effect>)
      requires Valid() && phase != Negotiation
      requires command !in {NEGOTIATE, MACRO, ABORT, QUIT_CONNECTION, CONNECT, HELO}
      modifies this, message, conn
      ensures Did(Step(env, old(View()), Input(command, payload, alive)), alive, old(conn.sent))
      ensures alive ==> effects == Step(env, old(View()), Input(command, payload, true)).effects
      ensures message == old(message) || fresh(message)
    {
      hide Mail, Recipient, HeaderLine, BodyChunk, EncodeAll, EndOfBody;
      NoEffects(env, View(), command, payload);
      effects := [];
      if command == MAIL {
        alive := HandleMail(payload);
      } else if command == RECIPIENT {
        alive := HandleRecipient(payload);
      } else if command == DATA {
        alive := Continue(Some(Envelope), phase);
      } else if command == UNKNOWN {
        alive := Continue(None, phase);
      } else if command == HEADER {
        alive := HandleHeader(payload);
      } else if command == END_HEADERS {
        alive := Continue(Some(Envelope), Body);
      } else if command == BODY {
        alive := HandleBody(payload);
      } else if command == END_BODY {
        alive, effects := HandleEndOfBody(payload);
      } else {
        alive := false;
      }
    }

    method HandleCommand(command: byte, payload: bytes) returns (alive: bool, effects: seq<Effect>)
      requires Valid()
      modifies this, message, conn
      ensures Did(Step(env, old(View()), Input(command, payload, alive)), alive, old(conn.sent))
      ensures alive ==> effects == Step(env, old(View()), Input(command, payload, true)).effects
      ensures message == old(message) || fresh(message)
    {
      hide CaptureMacros, Negotiate, Connect, SayHelo, Mail, Recipient, HeaderLine, BodyChunk, EncodeAll, EndOfBody;
      assert conn.sent + EncodeAll([]) == conn.sent by { NoAnswers(conn.sent); }
      alive, effects := true, [];
      NoEffects(env, View(), command, payload);
      if command == QUIT || (phase == Negotiation && command != NEGOTIATE && command != MACRO) {
        alive := false;
      } else if command == NEGOTIATE {
        alive := HandleNegotiation(payload);
      } else if command == MACRO {
        CaptureSessionMacros(payload);
      } else if command == ABORT {
        ResetMessage(Connection);
      } else if command == QUIT_CONNECTION {
        EndConnection();
      } else if command == CONNECT {
        alive := HandleConnect(payload);
      } else if command == HELO {
        alive := HandleHelo(payload);
      } else {
        alive, effects := HandleTransaction(command, payload);
      }
    }
  }

  lemma NoAnswers(sent: bytes)
    ensures sent + EncodeAll([]) == sent
  {
  }

  /** Only the end of a message asks for updates of the shared stores. */
  lemma NoEffects(env: Env, s: State, command: byte, payload: bytes)
    ensures command != END_BODY && Step(env, s, Input(command, payload, true)).Continues? ==>
      Step(env, s, Input(command, payload, true)).effects == []
  {
  }
}
