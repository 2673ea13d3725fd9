/**
 What a session answers, byte for byte: to each command as it comes, and to the end of a message
 by the first reason that applies to it.
 */
module SessionAnswers {
  import opened Macros
  import opened NetworkAddress
  import opened Options
  import opened Payloads
  import opened Session
  import opened SessionOutcomes
  import opened SessionRuns
  import opened Wire
  import M = Message
  import R = Reply

  // ---------------------------------------------------------------- refusals

  lemma ConfiguredRefusals(env: Env, reason: bytes)
    ensures R.IsRefusal(EncodeAction(env, Reject), env.rejectMessage)
    ensures R.IsRefusal(AttachmentAnswer(env, Reject), env.attachmentMessage)
    ensures R.IsRefusal(R.ReplyCode(CODE_550, STATUS_571, env.refusalPrefix + reason), env.refusalPrefix + reason)
  {
    hide R.IsRefusal, R.ReplyCode;
    R.RefusalReply(env.rejectMessage);
    R.RefusalReply(env.attachmentMessage);
    R.RefusalReply(env.refusalPrefix + reason);
  }

  // ---------------------------------------------------------------- the end of a message

  /** The attachment policy is the first check that applies: no internal reply, no command message, no exempt
      authenticated sender. */
  predicate ReachesAttachments(env: Env, s: State)
  {
    !env.isInternal(s.conn, s.txn.message) && env.emailCommand(s.conn, s.txn) == None
    && (s.conn.auth.authenticated ==> env.scanAuthenticated)
  }

  predicate Unwanted(env: Env, c: Option<Classification>)
  {
    c.Some? && c.value.verdict == "unwanted" && c.value.score >= env.rejectScore
  }

  /** The one answer to the end of a message, by the first reason that applies. */
  predicate MessageAnswer(env: Env, s: State, answer: bytes)
  {
    var command, attachments, c := env.emailCommand(s.conn, s.txn), env.attachments(s.txn.message), env.classify(s.conn, s.txn);
    && (env.isInternal(s.conn, s.txn.message) ==> answer == [97])
    && (!env.isInternal(s.conn, s.txn.message) && command.Some? && command.value.Refuse? ==>
          R.IsRefusal(answer, env.refusalPrefix + command.value.reason))
    && (!env.isInternal(s.conn, s.txn.message) && command.Some? && command.value.Discard? ==> answer == [100])
    && (!env.isInternal(s.conn, s.txn.message) && command.None? && s.conn.auth.authenticated && !env.scanAuthenticated ==> answer == [97])
    && (ReachesAttachments(env, s) && attachments.Some? ==>
          if !env.enforce || attachments.value == Accept then answer == [97]
          else if attachments.value == Tempfail then answer == [116]
          else R.IsRefusal(answer, env.attachmentMessage))
    && (ReachesAttachments(env, s) && attachments.None? && !Consulted(env, s) ==> answer == [97])
    && (Consulted(env, s) ==>
          if env.enforce && Unwanted(env, c) then R.IsRefusal(answer, env.rejectMessage)
          else if env.enforce && c.None? && env.tempfailOnError then answer == [116]
          else answer == [97])
  }

  /** What it asks of the shared stores. */
  predicate MessageEffects(env: Env, s: State, answer: bytes, effects: seq<Effect>)
  {
    var c := env.classify(s.conn, s.txn);
    && (env.isInternal(s.conn, s.txn.message) || env.emailCommand(s.conn, s.txn).Some? ==> effects == [])
    && (ReachesAttachments(env, s) && env.attachments(s.txn.message).Some? ==> effects == [])
    && (StrikeIP in effects <==> Consulted(env, s) && env.enforce && Unwanted(env, c))
    && (RecordRejection in effects <==> Consulted(env, s) && env.enforce && Unwanted(env, c))
    && (StrikeIP in effects ==> |effects| >= 2 && effects[..2] == [StrikeIP, RecordRejection])
    && (CreditIP in effects <==> Consulted(env, s) && c.Some? && c.value.verdict == "legitimate")
    && (RecordClassification in effects <==> Consulted(env, s) && c.Some? && !s.conn.auth.authenticated)
    && (LearnRecipients in effects <==>
          (s.conn.auth.authenticated && answer == [97]
           && (Consulted(env, s)
               || (!env.isInternal(s.conn, s.txn.message) && env.emailCommand(s.conn, s.txn) == None && !env.scanAuthenticated))))
    && (TouchSender in effects <==>
          (ReachesAttachments(env, s) && env.attachments(s.txn.message) == None && !s.conn.auth.authenticated
           && !env.allowedDomain(s.conn, s.txn) && env.knownBypass(s.conn, s.txn) && env.trustedDKIM(s.conn, s.txn)))
  }

  lemma RefusalIsNoAccept(answer: bytes, text: bytes)
    requires R.IsRefusal(answer, text)
    ensures answer != [97]
  {
    hide R.Clean, R.ValidUtf8, R.TextOf;
  }

  /** What the classifier decides, and what is settled before it is asked. */
  lemma ClassifierDecides(env: Env, s: State)
    requires Consulted(env, s)
    ensures var c := env.classify(s.conn, s.txn); Decide(env, s) == Decision(EncodeAction(env, Judge(env, c)), Consequences(env, s, c))
  {
    hide EncodeAction, Judge, Consequences, R.ReplyCode;
  }

  lemma SettledBefore(env: Env, s: State)
    requires !Consulted(env, s)
    ensures var d := Decide(env, s);
      if !env.isInternal(s.conn, s.txn.message) && env.emailCommand(s.conn, s.txn) == None && s.conn.auth.authenticated && !env.scanAuthenticated
      then d == Decision([97], [LearnRecipients])
      else if ReachesAttachments(env, s) && env.attachments(s.txn.message) == None && !env.allowedDomain(s.conn, s.txn)
      then d == Decision([97], if env.trustedDKIM(s.conn, s.txn) then [TouchSender] else [])
      else d.effects == []
  {
    hide R.ReplyCode, Judge, Consequences;
  }

  lemma JudgedAnswers(env: Env, s: State)
    requires Consulted(env, s)
    ensures MessageAnswer(env, s, EncodeAction(env, Judge(env, env.classify(s.conn, s.txn))))
  {
    ConfiguredRefusals(env, []);
    hide R.IsRefusal, R.ReplyCode;
  }

  lemma AnsweredEarly(env: Env, s: State)
    requires !ReachesAttachments(env, s)
    ensures MessageAnswer(env, s, Decide(env, s).answer)
  {
    var command := env.emailCommand(s.conn, s.txn);
    ConfiguredRefusals(env, if command.Some? && command.value.Refuse? then command.value.reason else []);
    hide R.IsRefusal, R.ReplyCode, Judge, Consequences, AttachmentAnswer;
  }

  lemma AnsweredByPolicy(env: Env, s: State)
    requires ReachesAttachments(env, s) && !Consulted(env, s)
    ensures MessageAnswer(env, s, Decide(env, s).answer)
  {
    ConfiguredRefusals(env, []);
    hide R.IsRefusal, R.ReplyCode, Judge, Consequences;
  }

  lemma DecisionAnswers(env: Env, s: State)
    ensures MessageAnswer(env, s, Decide(env, s).answer)
  {
    hide Decide, MessageAnswer;
    if !ReachesAttachments(env, s) {
      AnsweredEarly(env, s);
    } else if !Consulted(env, s) {
      AnsweredByPolicy(env, s);
    } else {
      ClassifierDecides(env, s);
      JudgedAnswers(env, s);
    }
  }

  lemma DecisionEffects(env: Env, s: State)
    ensures MessageEffects(env, s, Decide(env, s).answer, Decide(env, s).effects)
  {
    if Consulted(env, s) {
      var c := env.classify(s.conn, s.txn);
      ClassifierDecides(env, s);
      ConsequenceMembers(env, s, c);
      JudgeAccepts(env, c);
      hide Decide, Consequences, EncodeAction, Judge;
    } else {
      SettledBefore(env, s);
      hide Decide;
    }
  }

  lemma JudgeAccepts(env: Env, c: Option<Classification>)
    ensures Judge(env, c) == Accept <==> EncodeAction(env, Judge(env, c)) == [97]
  {
    ConfiguredRefusals(env, []);
    RefusalIsNoAccept(EncodeAction(env, Reject), env.rejectMessage);
    hide R.IsRefusal, R.ReplyCode;
  }

  lemma ConsequenceMembers(env: Env, s: State, c: Option<Classification>)
    ensures var effects := Consequences(env, s, c);
      && (StrikeIP in effects <==> env.enforce && Unwanted(env, c)) && (RecordRejection in effects <==> env.enforce && Unwanted(env, c))
      && (CreditIP in effects <==> c.Some? && c.value.verdict == "legitimate")
      && (LearnRecipients in effects <==> s.conn.auth.authenticated && Judge(env, c) == Accept)
      && (RecordClassification in effects <==> c.Some? && !s.conn.auth.authenticated) && TouchSender !in effects
      && (StrikeIP in effects ==> |effects| >= 2 && effects[..2] == [StrikeIP, RecordRejection])
  {
  }

  /** Over every run, the end of a message is answered by the first reason that applies to it, in enforce mode an unwanted
      message or a forbidden attachment by a refusal, and asks of the stores exactly what follows from that; then the
      connection goes on without it. */
  lemma MessagesAreAnswered(env: Env, inputs: seq<Input>, k: nat)
    requires Run(env, inputs).Some? && k < |inputs| && inputs[k].command == 69
    ensures Run(env, inputs[..k]).Some? && At(env, inputs, k).Continues? && |At(env, inputs, k).answers| == 1
    ensures var s, answer := Run(env, inputs[..k]).value, At(env, inputs, k).answers[0];
      && MessageAnswer(env, s, answer) && MessageEffects(env, s, answer, At(env, inputs, k).effects)
      && s.txn.message == MessageOf(env, inputs[..k]) && IsEnvelope(s.txn, SenderSince(inputs[..k]), RecipientsSince(env, inputs[..k]))
    ensures var after := At(env, inputs, k).state;
      after.conn == Run(env, inputs[..k]).value.conn && after.phase == Connection && after.txn == Initial(env).txn
  {
    hide Decide, MessageAnswer, MessageEffects, MessageOf, IsEnvelope, Run, CaptureMacros;
    SurvivedBefore(env, inputs, k);
    var s := Run(env, inputs[..k]).value;
    PhaseStep(env, s, inputs[k]);
    DecisionAnswers(env, s);
    DecisionEffects(env, s);
    MessageIsSinceMail(env, inputs[..k]);
    EnvelopeIsSinceMail(env, inputs[..k]);
  }

  // ---------------------------------------------------------------- single commands

  /** The value of a 32-bit number, most significant byte first. */
  function Number(payload: bytes): int
    requires |payload| >= 4
  {
    var b0: int, b1: int, b2: int, b3: int := payload[0], payload[1], payload[2], payload[3];
    16_777_216 * b0 + 65_536 * b1 + 256 * b2 + b3
  }

  lemma NumberIs(payload: bytes)
    requires |payload| >= 4
    ensures Decode32(payload[..4]) == Number(payload)
  {
  }

  /** A negotiation offers the peer's protocol version, at most 6, and neither actions nor protocol steps. */
  lemma NegotiationAnswer(env: Env, s: State, i: Input)
    requires i.command == 79
    ensures Step(env, s, i).Continues? <==> s.phase == Negotiation && |i.payload| == 12 && Number(i.payload) >= 2 && i.sent
    ensures Step(env, s, i).Continues? ==>
      var version := if Number(i.payload) > 6 then 6 else Number(i.payload);
      Step(env, s, i) == Continues(State(Connection, s.conn, s.txn), [[79, 0, 0, 0, version, 0, 0, 0, 0, 0, 0, 0, 0]], [])
  {
    if |i.payload| == 12 {
      NumberIs(i.payload);
      OptionBytes(if Number(i.payload) > 6 then 6 else if Number(i.payload) < 2 then 2 else Number(i.payload));
    }
    hide Decode32, Number, OptionAnswer;
  }

  lemma OptionBytes(version: nat)
    requires version <= 6
    ensures OptionAnswer(version) == [79, 0, 0, 0, version, 0, 0, 0, 0, 0, 0, 0, 0]
  {
    assert Encode32(0) == [0, 0, 0, 0] && Encode32(version) == [0, 0, 0, version];
  }

  /** In enforce mode a blocked peer's MAIL is refused and opens no transaction; any other opens one with the sender it
      names and nothing else. */
  lemma MailAnswer(env: Env, s: State, i: Input)
    requires i.command == 77 && s.phase == Connection && i.sent
    ensures Step(env, s, i).Continues? && |Step(env, s, i).answers| == 1 && Step(env, s, i).effects == []
    ensures var r := Step(env, s, i);
      if env.enforce && env.blocked(s.conn.peerIP) then r.state == s && R.IsRefusal(r.answers[0], env.rejectMessage)
      else
        && r.answers[0] == [99] && r.state.phase == Envelope && r.state.conn == s.conn
        && r.state.txn == Initial(env).txn.(sender := match ParseEnvelopeAddress(i.payload) case Some(a) => a case None => [])
  {
    ConfiguredRefusals(env, []);
    hide R.IsRefusal, R.ReplyCode, ParseEnvelopeAddress;
  }

  /** A recipient of the command mailbox is refused unless its sender may give commands; any other address is taken down,
      up to a hundred, and beyond that only noted as too many. */
  lemma RecipientAnswer(env: Env, s: State, i: Input)
    requires i.command == 82 && s.phase == Envelope && i.sent
    ensures Step(env, s, i).Continues? && |Step(env, s, i).answers| == 1 && Step(env, s, i).effects == []
    ensures var r, address := Step(env, s, i), ParseEnvelopeAddress(i.payload);
      var denied := if address.Some? && env.commandRecipient(address.value) then env.denial(s.conn.auth, s.txn.sender) else None;
      if denied.Some? then r.state == s && R.IsRefusal(r.answers[0], env.refusalPrefix + denied.value)
      else
        && r.answers[0] == [99]
        && r.state == if address.None? then s
                      else if |s.txn.recipients| < 100 then s.(txn := s.txn.(recipients := s.txn.recipients + [address.value]))
                      else s.(txn := s.txn.(recipientsTruncated := true))
  {
    assert Step(env, s, i) == Session.Recipient(env, s, i) by { hide Session.Recipient; }
    hide Step;
    var denied := env.denial(s.conn.auth, s.txn.sender);
    R.RefusalReply(env.refusalPrefix + if denied.Some? then denied.value else []);
    hide R.IsRefusal, R.ReplyCode, ParseEnvelopeAddress;
  }

  /** The other commands of a transaction and of a connection are answered by going on, with no effect on the stores. */
  lemma OtherAnswers(env: Env, s: State, i: Input)
    requires i.command in {66, 67, 72, 76, 78, 84, 85} && Step(env, s, i).Continues?
    ensures Step(env, s, i).answers == [[99]] && Step(env, s, i).effects == []
    ensures i.command in {84, 85} ==> Step(env, s, i).state == s
    ensures i.command == 78 ==> Step(env, s, i).state == State(Body, s.conn, s.txn)
  {
    hide M.WithHeader, M.WithBody, ParseHeader, Connected, Helo;
  }

  /** Aborting ends the transaction, quitting the connection ends what is known of it; neither is answered. */
  lemma ResetAnswers(env: Env, s: State, i: Input)
    requires s.phase != Negotiation && i.command in {65, 75}
    ensures Step(env, s, i) ==
      Continues(State(Connection, if i.command == 65 then s.conn else Conn(false, Addr.Invalid, [], [], [], [], Auth(false, [])), Initial(env).txn),
                [], [])
  {
  }

  /** A session that can write its answers ends only by its peer's quitting, and by a command that is unknown, out of order
      or malformed. */
  lemma EndsIff(env: Env, s: State, i: Input)
    requires i.sent
    ensures Step(env, s, i).Ends? <==>
      || i.command == 81
      || (s.phase == Negotiation && i.command != 79 && i.command != 68)
      || (i.command == 79 && (s.phase != Negotiation || |i.payload| != 12 || Number(i.payload) < 2))
      || (i.command == 67 && (s.phase != Connection || s.conn.connected))
      || ((i.command == 72 || i.command == 77) && s.phase != Connection)
      || ((i.command == 82 || i.command == 84 || i.command == 78) && s.phase != Envelope)
      || (i.command == 76 && (s.phase != Envelope || ParseHeader(i.payload).None?))
      || ((i.command == 66 || i.command == 69) && s.phase != Body)
      || !(65 <= i.command <= 69 || i.command == 72 || 75 <= i.command <= 79 || i.command == 81 || i.command == 82
           || i.command == 84 || i.command == 85)
  {
    if i.command == 79 {
      NegotiationAnswer(env, s, i);
      hide Negotiate;
    }
    hide M.WithHeader, M.WithBody, ParseHeader, Connected, Helo, CaptureMacros, Decide, R.ReplyCode, ParseEnvelopeAddress, EncodeAction;
  }
}
