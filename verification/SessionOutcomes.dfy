/** What whole sessions answer and ask of the shared stores, command by command. */
module SessionOutcomes {
  import opened Options
  import opened Payloads
  import opened Session
  import opened SessionRuns
  import opened Wire
  import M = Message
  import R = Reply

  /** What the command at position `k` of a run did. */
  function At(env: Env, inputs: seq<Input>, k: nat): Result
    requires k < |inputs| && Run(env, inputs[..k]).Some?
  {
    Step(env, Run(env, inputs[..k]).value, inputs[k])
  }

  /** The updates of the shared stores that a run asks for, in order. */
  function Effects(env: Env, inputs: seq<Input>): seq<Effect>
  {
    if inputs == [] then []
    else
      var front, last := inputs[..|inputs| - 1], inputs[|inputs| - 1];
      Effects(env, front)
      + match Run(env, front)
        case None => []
        case Some(s) => match Step(env, s, last) case Continues(_, _, effects) => effects case Ends(_) => []
  }

  lemma {:induction false} SurvivedBefore(env: Env, inputs: seq<Input>, k: nat)
    requires Run(env, inputs).Some? && k <= |inputs|
    ensures Run(env, inputs[..k]).Some?
    ensures k < |inputs| ==> At(env, inputs, k).Continues?
  {
    hide Step;
    if k < |inputs| {
      SurvivedBefore(env, inputs[..|inputs| - 1], k);
      assert inputs[..|inputs| - 1][..k] == inputs[..k];
    } else {
      assert inputs[..k] == inputs;
    }
  }

  // ---------------------------------------------------------------- strikes and rejections

  /** Nothing settles the message before the classifier is asked. */
  predicate Consulted(env: Env, s: State)
  {
    && !env.isInternal(s.conn, s.txn.message) && env.emailCommand(s.conn, s.txn).None?
    && !(s.conn.auth.authenticated && !env.scanAuthenticated) && env.attachments(s.txn.message).None?
    && !(!s.conn.auth.authenticated && (env.allowedDomain(s.conn, s.txn) || env.knownBypass(s.conn, s.txn)))
  }

  /** The message is refused because the classifier calls it unwanted with enough confidence. */
  predicate Refused(env: Env, s: State)
  {
    && env.enforce && Consulted(env, s)
    && var c := env.classify(s.conn, s.txn); c.Some? && c.value.verdict == "unwanted" && c.value.score >= env.rejectScore
  }

  predicate RefusedAt(env: Env, inputs: seq<Input>, k: nat)
    requires k < |inputs|
  {
    inputs[k].command == END_BODY && Run(env, inputs[..k]).Some? && Refused(env, Run(env, inputs[..k]).value)
  }

  function Refusals(env: Env, inputs: seq<Input>): nat
  {
    if inputs == [] then 0
    else Refusals(env, inputs[..|inputs| - 1]) + if RefusedAt(env, inputs, |inputs| - 1) then 1 else 0
  }

  lemma StepRefusals(env: Env, s: State, i: Input)
    requires Step(env, s, i).Continues?
    ensures var r := Step(env, s, i); var refused := i.command == END_BODY && Refused(env, s);
      && multiset(r.effects)[StrikeIP] == multiset(r.effects)[RecordRejection] == (if refused then 1 else 0)
      && (refused ==> r.answers == [EncodeAction(env, Reject)])
  {
    hide EncodeAction, CaptureMacros;
    if i.command == END_BODY {
      DecideRefusals(env, s);
    }
  }

  lemma CountsAdd(a: seq<Effect>, b: seq<Effect>, c: seq<Effect>, x: Effect)
    ensures multiset(a + b + c)[x] == multiset(a)[x] + multiset(b)[x] + multiset(c)[x]
  {
    assert multiset(a + b + c) == multiset(a) + multiset(b) + multiset(c);
  }

  lemma RefusalsCount(refused: bool, second: seq<Effect>, third: seq<Effect>)
    requires StrikeIP !in second && RecordRejection !in second && StrikeIP !in third && RecordRejection !in third
    ensures var all := (if refused then [StrikeIP, RecordRejection] else []) + second + third;
      multiset(all)[StrikeIP] == multiset(all)[RecordRejection] == (if refused then 1 else 0)
  {
    var first := if refused then [StrikeIP, RecordRejection] else [];
    CountsAdd(first, second, third, StrikeIP);
    CountsAdd(first, second, third, RecordRejection);
  }

  lemma ConsequencesCount(env: Env, s: State, c: Option<Classification>)
    ensures var refused := env.enforce && c.Some? && c.value.verdict == "unwanted" && c.value.score >= env.rejectScore;
      && multiset(Consequences(env, s, c))[StrikeIP] == multiset(Consequences(env, s, c))[RecordRejection] == (if refused then 1 else 0)
      && (refused ==> Judge(env, c) == Reject)
  {
    var selected := Judge(env, c);
    var second := if c.Some? && c.value.verdict == "legitimate" then [CreditIP] else [];
    var third := if selected == Accept && s.conn.auth.authenticated then [LearnRecipients]
      else if !s.conn.auth.authenticated && c.Some? then [RecordClassification] else [];
    RefusalsCount(selected == Reject && env.enforce, second, third);
  }

  lemma DecideRefusals(env: Env, s: State)
    ensures var d := Decide(env, s);
      && multiset(d.effects)[StrikeIP] == multiset(d.effects)[RecordRejection] == (if Refused(env, s) then 1 else 0)
      && (Refused(env, s) ==> d.answer == EncodeAction(env, Reject))
  {
    ConsequencesCount(env, s, env.classify(s.conn, s.txn));
    hide EncodeAction, AttachmentAnswer, Consequences, Judge;
  }

  /** Over every run exactly the messages the classifier has refused strike their address, and each of them is
      recorded as rejected. */
  lemma {:induction false} StrikesAreRefusals(env: Env, inputs: seq<Input>)
    requires Run(env, inputs).Some?
    ensures multiset(Effects(env, inputs))[StrikeIP] == Refusals(env, inputs)
    ensures multiset(Effects(env, inputs))[RecordRejection] == Refusals(env, inputs)
  {
    hide Step, Refused;
    if inputs != [] {
      var front, last := inputs[..|inputs| - 1], inputs[|inputs| - 1];
      var s := Run(env, front).value;
      StrikesAreRefusals(env, front);
      StepRefusals(env, s, last);
      var more := Step(env, s, last).effects;
      assert Effects(env, inputs) == Effects(env, front) + more;
    }
  }

  /** Each such message is answered by a 550 5.7.1 refusal with the configured text, and what the classifier saw is what was sent since MAIL. */
  lemma RefusedMessageWasSent(env: Env, inputs: seq<Input>, k: nat)
    requires Run(env, inputs).Some? && k < |inputs| && RefusedAt(env, inputs, k)
    ensures Run(env, inputs[..k]).Some? && |At(env, inputs, k).answers| == 1 && R.IsRefusal(At(env, inputs, k).answers[0], env.rejectMessage)
    ensures var t := Run(env, inputs[..k]).value.txn;
      t.message == MessageOf(env, inputs[..k]) && IsEnvelope(t, SenderSince(inputs[..k]), RecipientsSince(env, inputs[..k]))
  {
    hide Step, Refused, R.ReplyCode, R.IsRefusal, MessageOf, IsEnvelope, Run;
    R.RefusalReply(env.rejectMessage);
    SurvivedBefore(env, inputs, k);
    var s := Run(env, inputs[..k]).value;
    StepRefusals(env, s, inputs[k]);
    PhaseStep(env, s, inputs[k]);
    MessageIsSinceMail(env, inputs[..k]);
    EnvelopeIsSinceMail(env, inputs[..k]);
  }

  // ---------------------------------------------------------------- monitor mode

  lemma StepMonitors(env: Env, s: State, i: Input)
    requires !env.enforce && Step(env, s, i).Continues? && forall c, t :: env.emailCommand(c, t).None?
    ensures i.command == MAIL ==> Step(env, s, i).answers == [CONTINUE_REPLY]
    ensures i.command == END_BODY ==> Step(env, s, i).answers == [ACCEPT_REPLY]
  {
    hide CaptureMacros;
    if i.command == END_BODY {
      MonitorNeverRejects(env, s);
    }
  }

  /** In monitor mode, and with no command mailbox, every sender and every message of every run is accepted, and no
      address is struck and nothing recorded as rejected. */
  lemma MonitorAcceptsEverything(env: Env, inputs: seq<Input>, k: nat)
    requires !env.enforce && (forall c, t :: env.emailCommand(c, t).None?) && Run(env, inputs).Some? && k < |inputs|
    ensures Run(env, inputs[..k]).Some?
    ensures inputs[k].command == MAIL ==> At(env, inputs, k).answers == [CONTINUE_REPLY]
    ensures inputs[k].command == END_BODY ==> At(env, inputs, k).answers == [ACCEPT_REPLY]
    ensures StrikeIP !in Effects(env, inputs) && RecordRejection !in Effects(env, inputs)
  {
    hide Step, Run, Effects;
    SurvivedBefore(env, inputs, k);
    StepMonitors(env, Run(env, inputs[..k]).value, inputs[k]);
    StrikesAreRefusals(env, inputs);
    NoRefusals(env, inputs);
  }

  lemma {:induction false} NoRefusals(env: Env, inputs: seq<Input>)
    requires !env.enforce
    ensures Refusals(env, inputs) == 0
  {
    if inputs != [] {
      NoRefusals(env, inputs[..|inputs| - 1]);
    }
  }

  // ---------------------------------------------------------------- learning

  lemma StepLearns(env: Env, s: State, i: Input)
    requires Step(env, s, i).Continues?
    ensures var r := Step(env, s, i);
      && (LearnRecipients in r.effects ==> i.command == END_BODY && s.conn.auth.authenticated && r.answers == [ACCEPT_REPLY])
      && (TouchSender in r.effects || RecordClassification in r.effects ==> i.command == END_BODY && !s.conn.auth.authenticated)
  {
    hide CaptureMacros;
    if i.command == END_BODY {
      LearningFollowsAuthentication(env, s);
    }
  }

  /** Whenever a run teaches the allowlist the recipients of a message, that message was accepted, its sender and
      recipients are those named since its MAIL, and a macro received on the present connection had authenticated
      an identity. */
  lemma LearningIsAuthenticated(env: Env, inputs: seq<Input>, k: nat) returns (c: nat, m: nat, j: nat)
    requires Run(env, inputs).Some? && k < |inputs|
    requires Run(env, inputs[..k]).Some? && At(env, inputs, k).Continues? && LearnRecipients in At(env, inputs, k).effects
    ensures inputs[k].command == END_BODY && At(env, inputs, k).answers == [ACCEPT_REPLY]
    ensures ConnectedAt(inputs[..k], c) && c < m < k
    ensures Authenticates(env, inputs[m], Run(env, inputs[..k]).value.conn.auth.identity)
    ensures OpenedAt(inputs[..k], j)
    ensures IsEnvelope(Run(env, inputs[..k]).value.txn, SenderSince(inputs[..k]), RecipientsSince(env, inputs[..k]))
  {
    hide Step, Authenticates, IsEnvelope;
    var s := Run(env, inputs[..k]).value;
    StepLearns(env, s, inputs[k]);
    PhaseStep(env, s, inputs[k]);
    c, m := AuthenticatedByMacro(env, inputs[..k]);
    var h: nat;
    j, h := PhasesFollowCommands(env, inputs[..k]);
    EnvelopeIsSinceMail(env, inputs[..k]);
  }
}
