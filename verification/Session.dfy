/**
 One milter connection: the commands the mail server may send, what each of them changes,
 and what is answered.

 A session keeps state of two kinds. What is known about the SMTP connection lives until the
 connection is closed; sender, recipients and message live for one transaction. Decisions that
 other components take (parsing addresses, the reputation database, the classifier, ...) are
 functions in `Env`, fixed while the session runs.
 */
module Session {
  import opened NetworkAddress
  import opened Macros
  import opened Options
  import opened Payloads
  import opened Wire
  import M = Message
  import R = Reply

  const ABORT: byte := 65
  const BODY: byte := 66
  const CONNECT: byte := 67
  const MACRO: byte := 68
  const END_BODY: byte := 69
  const HELO: byte := 72
  const QUIT_CONNECTION: byte := 75
  const HEADER: byte := 76
  const MAIL: byte := 77
  const END_HEADERS: byte := 78
  const NEGOTIATE: byte := 79
  const QUIT: byte := 81
  const RECIPIENT: byte := 82
  const DATA: byte := 84
  const UNKNOWN: byte := 85

  const ACCEPT_REPLY: bytes := [97]
  const CONTINUE_REPLY: bytes := [99]
  const DISCARD_REPLY: bytes := [100]
  const TEMPFAIL_REPLY: bytes := [116]

  const MIN_VERSION: nat := 2
  const MAX_VERSION: nat := 6
  const OPTION_BYTES: nat := 12
  const MAX_RECIPIENTS: nat := 100
  const CODE_550: bytes := [53, 53, 48]
  const STATUS_571: bytes := [53, 46, 55, 46, 49]

  datatype Phase = Negotiation | Connection | Envelope | Body

  datatype Auth = Auth(authenticated: bool, identity: bytes)
  const NO_AUTH := Auth(false, [])

  datatype Conn = Conn(connected: bool, peerIP: Addr, peerHostname: bytes, mtaHostname: bytes, pendingMTAHostname: bytes,
                       helo: bytes, auth: Auth)
  const NO_CONN := Conn(false, Addr.Invalid, [], [], [], [], NO_AUTH)

  datatype Txn = Txn(sender: bytes, recipients: seq<bytes>, recipientsTruncated: bool, message: M.State)

  datatype State = State(phase: Phase, conn: Conn, txn: Txn)

  datatype Action = Accept | Reject | Tempfail

  datatype Classification = Classification(verdict: string, score: real)

  /** What becomes of a message addressed to the command mailbox. */
  datatype CommandOutcome = Refuse(reason: bytes) | Discard

  /** Updates of the shared stores that a decision asks for. */
  datatype Effect = LearnRecipients | TouchSender | StrikeIP | RecordRejection | CreditIP | RecordClassification

  datatype Env = Env(
    rules: M.Rules, maxBytes: int,
    cleanIdentity: bytes -> bytes, validHostname: bytes -> bytes, parseIP: bytes -> Addr,
    blocked: Addr -> bool,
    commandRecipient: bytes -> bool, denial: (Auth, bytes) -> Option<bytes>,
    isInternal: (Conn, M.State) -> bool, emailCommand: (Conn, Txn) -> Option<CommandOutcome>,
    attachments: M.State -> Option<Action>, allowedDomain: (Conn, Txn) -> bool, knownBypass: (Conn, Txn) -> bool,
    trustedDKIM: (Conn, Txn) -> bool,
    classify: (Conn, Txn) -> Option<Classification>,
    enforce: bool, rejectScore: real, tempfailOnError: bool, scanAuthenticated: bool,
    rejectMessage: bytes, attachmentMessage: bytes, refusalPrefix: bytes)

  function FreshTxn(env: Env): Txn { Txn([], [], false, M.New(env.maxBytes)) }

  function Initial(env: Env): State { State(Negotiation, NO_CONN, FreshTxn(env)) }

  function Reset(env: Env, s: State, phase: Phase): State { State(phase, s.conn, FreshTxn(env)) }

  /** A command, its payload, and whether an answer to it could be written. */
  datatype Input = Input(command: byte, payload: bytes, sent: bool)

  /** The session goes on in a new state, or ends. `answers` are the frames written or attempted. */
  datatype Result = Continues(state: State, answers: seq<bytes>, effects: seq<Effect>) | Ends(answers: seq<bytes>)

  function Answer(s: State, answer: bytes, sent: bool): Result
  {
    if sent then Continues(s, [answer], []) else Ends([answer])
  }

  function Silent(s: State): Result { Continues(s, [], []) }

  function ProtocolError(): Result { Ends([]) }

  // ---------------------------------------------------------------- single commands

  function OptionAnswer(version: nat): bytes
    requires version < 0x1_0000_0000
  {
    [NEGOTIATE] + Encode32(version) + Encode32(0) + Encode32(0)
  }

  function Negotiate(s: State, i: Input): Result
  {
    if s.phase != Negotiation || |i.payload| != OPTION_BYTES then ProtocolError()
    else
      var version := Decode32(i.payload[..4]);
      if version < MIN_VERSION then ProtocolError()
      else Answer(s.(phase := Connection), OptionAnswer(if version > MAX_VERSION then MAX_VERSION else version), i.sent)
  }

  predicate AuthTarget(target: byte)
  {
    target == MAIL || target == DATA || target == END_HEADERS || target == END_BODY
  }

  function WithHostname(env: Env, c: Conn, target: byte, hostname: Option<bytes>): Conn
  {
    if hostname.None? then c
    else if target == CONNECT then c.(pendingMTAHostname := env.validHostname(hostname.value))
    else if c.connected then c.(mtaHostname := env.validHostname(hostname.value))
    else c
  }

  function WithIdentity(env: Env, c: Conn, target: byte, identity: Option<bytes>): Conn
  {
    if !c.connected || identity.None? || !AuthTarget(target) || env.cleanIdentity(identity.value) == [] then c
    else c.(auth := Auth(true, env.cleanIdentity(identity.value)))
  }

  function CaptureMacros(env: Env, c: Conn, payload: bytes): Conn
  {
    match Macros.Parse(payload)
    case Malformed => c
    case Valid(target, values) =>
      WithIdentity(env, WithHostname(env, c, target, values.hostname), target, values.identity)
  }

  function Connected(env: Env, c: Conn, payload: bytes): Conn
  {
    Conn(true, ConnectIP(env.parseIP, payload),
         match ParseHostname(payload) case Some(h) => env.cleanIdentity(h) case None => [],
         c.pendingMTAHostname, [], [], NO_AUTH)
  }

  function Connect(env: Env, s: State, i: Input): Result
  {
    if s.phase != Connection || s.conn.connected then ProtocolError()
    else Answer(s.(conn := Connected(env, s.conn, i.payload)), CONTINUE_REPLY, i.sent)
  }

  function Helo(env: Env, c: Conn, payload: bytes): Conn
  {
    c.(helo := match ParseIdentity(payload) case Some(h) => env.cleanIdentity(h) case None => [])
  }

  function SayHelo(env: Env, s: State, i: Input): Result
  {
    if s.phase != Connection then ProtocolError()
    else Answer(s.(conn := Helo(env, s.conn, i.payload)), CONTINUE_REPLY, i.sent)
  }

  function AddRecipient(t: Txn, recipient: bytes): Txn
  {
    if |t.recipients| < MAX_RECIPIENTS then t.(recipients := t.recipients + [recipient]) else t.(recipientsTruncated := true)
  }

  function Recipient(env: Env, s: State, i: Input): Result
  {
    if s.phase != Envelope then ProtocolError()
    else
      match ParseEnvelopeAddress(i.payload)
      case None => Answer(s, CONTINUE_REPLY, i.sent)
      case Some(r) =>
        var denied := if env.commandRecipient(r) then env.denial(s.conn.auth, s.txn.sender) else None;
        if denied.Some? then Answer(s, R.ReplyCode(CODE_550, STATUS_571, env.refusalPrefix + denied.value), i.sent)
        else Answer(s.(txn := AddRecipient(s.txn, r)), CONTINUE_REPLY, i.sent)
  }

  function Mail(env: Env, s: State, i: Input): Result
  {
    if s.phase != Connection then ProtocolError()
    else if env.enforce && env.blocked(s.conn.peerIP) then Answer(s, EncodeAction(env, Reject), i.sent)
    else
      var fresh' := Reset(env, s, Envelope);
      Answer(match ParseEnvelopeAddress(i.payload)
             case Some(sender) => fresh'.(txn := fresh'.txn.(sender := sender))
             case None => fresh', CONTINUE_REPLY, i.sent)
  }

  function HeaderLine(env: Env, s: State, i: Input): Result
  {
    if s.phase != Envelope then ProtocolError()
    else
      match ParseHeader(i.payload)
      case None => ProtocolError()
      case Some(h) =>
        Answer(s.(txn := s.txn.(message := M.WithHeader(env.rules, s.txn.message, h))), CONTINUE_REPLY, i.sent)
  }

  function BodyChunk(s: State, i: Input): Result
  {
    if s.phase != Body then ProtocolError()
    else Answer(s.(txn := s.txn.(message := M.WithBody(s.txn.message, i.payload))), CONTINUE_REPLY, i.sent)
  }

  // ---------------------------------------------------------------- end of body

  function EncodeAction(env: Env, a: Action): bytes
  {
    match a
    case Reject => R.ReplyCode(CODE_550, STATUS_571, env.rejectMessage)
    case Tempfail => TEMPFAIL_REPLY
    case Accept => ACCEPT_REPLY
  }

  /** In monitor mode nothing is ever rejected. */
  function Selected(env: Env, proposed: Action): Action { if env.enforce then proposed else Accept }

  function Judge(env: Env, c: Option<Classification>): Action
  {
    match c
    case None => if env.enforce && env.tempfailOnError then Tempfail else Accept
    case Some(d) => Selected(env, if d.verdict == "unwanted" && d.score >= env.rejectScore then Reject else Accept)
  }

  function AttachmentAnswer(env: Env, a: Action): bytes
  {
    if a == Reject then R.ReplyCode(CODE_550, STATUS_571, env.attachmentMessage) else EncodeAction(env, a)
  }

  /** How the decision on a classified message feeds the shared stores. */
  function Consequences(env: Env, s: State, c: Option<Classification>): seq<Effect>
  {
    var selected := Judge(env, c);
    (if selected == Reject && env.enforce then [StrikeIP, RecordRejection] else [])
    + (if c.Some? && c.value.verdict == "legitimate" then [CreditIP] else [])
    + (if selected == Accept && s.conn.auth.authenticated then [LearnRecipients]
       else if !s.conn.auth.authenticated && c.Some? then [RecordClassification] else [])
  }

  datatype Decision = Decision(answer: bytes, effects: seq<Effect>)

  /** The decision on a complete message: the first applicable of the internal reply, the command mailbox,
      the authenticated bypass, the attachment policy, the domain and correspondent allowlists, the classifier. */
  function Decide(env: Env, s: State): Decision
  {
    var accept := EncodeAction(env, Accept);
    if env.isInternal(s.conn, s.txn.message) then Decision(accept, [])
    else
      match env.emailCommand(s.conn, s.txn)
      case Some(Refuse(reason)) => Decision(R.ReplyCode(CODE_550, STATUS_571, env.refusalPrefix + reason), [])
      case Some(Discard) => Decision(DISCARD_REPLY, [])
      case None =>
        if s.conn.auth.authenticated && !env.scanAuthenticated then Decision(accept, [LearnRecipients])
        else
          match env.attachments(s.txn.message)
          case Some(a) => Decision(AttachmentAnswer(env, Selected(env, a)), [])
          case None =>
            if !s.conn.auth.authenticated && env.allowedDomain(s.conn, s.txn) then Decision(accept, [])
            else if !s.conn.auth.authenticated && env.knownBypass(s.conn, s.txn) then
              Decision(accept, if env.trustedDKIM(s.conn, s.txn) then [TouchSender] else [])
            else
              var c := env.classify(s.conn, s.txn);
              Decision(EncodeAction(env, Judge(env, c)), Consequences(env, s, c))
  }

  function EndOfBody(env: Env, s: State, i: Input): Result
  {
    if s.phase != Body then ProtocolError()
    else
      var d := Decide(env, s);
      if i.sent then Continues(Reset(env, s, Connection), [d.answer], d.effects) else Ends([d.answer])
  }

  // ---------------------------------------------------------------- the dispatcher

  function Step(env: Env, s: State, i: Input): Result
  {
    if s.phase == Negotiation && i.command != NEGOTIATE && i.command != MACRO && i.command != QUIT then ProtocolError()
    else if i.command == NEGOTIATE then Negotiate(s, i)
    else if i.command == MACRO then Silent(s.(conn := CaptureMacros(env, s.conn, i.payload)))
    else if i.command == ABORT then Silent(Reset(env, s, Connection))
    else if i.command == QUIT_CONNECTION then Silent(State(Connection, NO_CONN, FreshTxn(env)))
    else if i.command == CONNECT then Connect(env, s, i)
    else if i.command == HELO then SayHelo(env, s, i)
    else if i.command == MAIL then Mail(env, s, i)
    else if i.command == RECIPIENT then Recipient(env, s, i)
    else if i.command == DATA then
      if s.phase != Envelope then ProtocolError() else Answer(s, CONTINUE_REPLY, i.sent)
    else if i.command == UNKNOWN then Answer(s, CONTINUE_REPLY, i.sent)
    else if i.command == HEADER then HeaderLine(env, s, i)
    else if i.command == END_HEADERS then
      if s.phase != Envelope then ProtocolError() else Answer(s.(phase := Body), CONTINUE_REPLY, i.sent)
    else if i.command == BODY then BodyChunk(s, i)
    else if i.command == END_BODY then EndOfBody(env, s, i)
    else Ends([])
  }
}
