/**
 From the scan of a message to the answer about it: what the attachment policy makes of each
 verdict, and what that means for a message with a program in it, on every run of a session.
 */
module AttachmentPolicy {
  import opened Options
  import opened Wire
  import A = Attachments
  import M = Message
  import N = Recognition
  import R = Reply
  import S = Session
  import SA = SessionAnswers
  import SO = SessionOutcomes
  import SR = SessionRuns
  import C = Scanner
  import K = ScannerAnswers
  import T = ScannerTree

  /** `scanned` says whether there is a scanner at all; the two actions are for what it cannot inspect. */
  datatype Policy = Policy(scanned: bool, unscannable: S.Action, encrypted: S.Action, scanner: A.Env, header: (M.State, string) -> string)

  function Scanned(p: Policy, m: M.State): C.Verdict
  {
    C.Scan(p.scanner, p.header(m, "Content-Type"), p.header(m, "Content-Transfer-Encoding"), p.header(m, "Content-Disposition"), m.body)
  }

  /** None lets the message go on to the allowlists and the classifier. */
  function Applied(p: Policy, m: M.State): Option<S.Action>
  {
    if !p.scanned then None
    else
      match Scanned(p, m)
      case Found(_, _) => Some(S.Reject)
      case Failed(_, encrypted) => Configured(if encrypted then p.encrypted else p.unscannable)
      case Clean => if m.bodyTruncated then Configured(p.unscannable) else None
  }

  function Configured(a: S.Action): Option<S.Action> { if a == S.Accept then None else Some(a) }

  /** A session whose attachment policy is this one. */
  ghost predicate Follows(env: S.Env, p: Policy) { forall m :: env.attachments(m) == Applied(p, m) }

  /** Some node of the message as it was kept. */
  ghost predicate Inside(p: Policy, m: M.State, n: T.Node)
  {
    K.Contains(p.scanner, p.header(m, "Content-Type"), p.header(m, "Content-Transfer-Encoding"), p.header(m, "Content-Disposition"), m.body, n)
  }

  /** A message goes on exactly when there is no scanner, or nothing forbidden was found and what could not be inspected, a body
      that was not kept whole included, is configured to be accepted. */
  lemma GoesOnIff(p: Policy, m: M.State)
    ensures Applied(p, m) == None <==>
      || !p.scanned
      || (Scanned(p, m).Clean? && (!m.bodyTruncated || p.unscannable == S.Accept))
      || (Scanned(p, m).Failed? && (if Scanned(p, m).encrypted then p.encrypted else p.unscannable) == S.Accept)
    ensures p.scanned && Scanned(p, m).Found? ==> Applied(p, m) == Some(S.Reject)
    ensures p.scanned && Applied(p, m).Some? && !Scanned(p, m).Found? ==>
      Applied(p, m).value == (if Scanned(p, m).Failed? && Scanned(p, m).encrypted then p.encrypted else p.unscannable) != S.Accept
  {
    hide Scanned;
  }

  /** The message that ends at command `k` of a run, in state `s`, gets this answer and has these effects. */
  ghost predicate AnsweredAt(env: S.Env, inputs: seq<S.Input>, k: nat, s: S.State, answer: bytes, effects: seq<S.Effect>)
  {
    && k < |inputs| && inputs[k].command == 69 && SR.Run(env, inputs).Some? && SR.Run(env, inputs[..k]) == Some(s)
    && SO.At(env, inputs, k).answers == [answer] && SO.At(env, inputs, k).Continues? && SO.At(env, inputs, k).effects == effects
  }

  /** On every run in enforce mode, a message of a sender that is not exempt, with a program anywhere in its parts, attached
      mail or archives, is never let through: it is refused, or deferred as uninspectable, when that is how uninspectable
      messages are treated; and it is refused when what the scanner reports is a finding. The stores learn nothing from it. */
  lemma ProgramsAreNotDelivered(env: S.Env, p: Policy, inputs: seq<S.Input>, k: nat, s: S.State, answer: bytes, effects: seq<S.Effect>, n: T.Node)
    requires env.enforce && Follows(env, p) && p.scanned && p.unscannable != S.Accept && p.encrypted != S.Accept
    requires AnsweredAt(env, inputs, k, s, answer, effects) && SA.ReachesAttachments(env, s)
    requires p.scanner.inspectSignatures && n.FileNode? && Inside(p, s.txn.message, n)
    requires N.StartsLikeProgram(n.data) || p.scanner.script(n.data).Some?
    ensures R.IsRefusal(answer, env.attachmentMessage) || answer == [116]
    ensures Scanned(p, s.txn.message).Found? || (p.unscannable == S.Reject && p.encrypted == S.Reject) ==> R.IsRefusal(answer, env.attachmentMessage)
    ensures s.txn.message == SR.MessageOf(env, inputs[..k]) && effects == []
  {
    hide SO.At, SR.Run, SR.MessageOf, R.IsRefusal, N.StartsLikeProgram, Applied, Scanned, K.Contains, SR.IsEnvelope, C.Scan;
    SA.MessagesAreAnswered(env, inputs, k);
    var m := s.txn.message;
    K.ProgramsAreNeverClean(p.scanner, p.header(m, "Content-Type"), p.header(m, "Content-Transfer-Encoding"),
                            p.header(m, "Content-Disposition"), m.body, n);
    NotClean(p, m);
    GoesOnIff(p, m);
  }

  lemma NotClean(p: Policy, m: M.State)
    requires !C.Scan(p.scanner, p.header(m, "Content-Type"), p.header(m, "Content-Transfer-Encoding"), p.header(m, "Content-Disposition"), m.body).Clean?
    ensures !Scanned(p, m).Clean?
  {
    hide C.Scan;
  }
}
