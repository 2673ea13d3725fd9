/**
 Immediate writes over whole runs, with writes that may fail early or late. From a file that
 holds everything, through any sequence of operations none of which defers writes, the file
 holds everything again after every completed write. If it does not at the end, there is one
 step to blame: it withheld a change, could not write, or was undone after the file had been
 replaced, and no write has been completed since.
 */
module ImmediateRuns {
  import opened Addresses
  import opened StableSort
  import opened StateFile
  import opened Throttling
  import C = Correspondents
  import CR = CorrespondentRuns
  import I = IpReputation
  import IR = IpReputationRuns
  import R = RejectionHistory
  import RR = RejectionHistoryRuns

  // ---------------------------------------------------------------- sending-IP reputation

  /** Why a step may leave a file that does not hold everything. */
  predicate Spoils(withheld: bool, asks: bool, undoes: bool, o: Outcome)
  {
    withheld || (asks && (if undoes then o == FailedAfterReplace else o == Failed))
  }

  ghost predicate AddressSpoils(cfg: I.Config, s: I.State, e: IR.Event)
  {
    Spoils(AddressWithheld(cfg, s, e), AddressAsks(cfg, s, e), e.op.Block? || e.op.Unblock?, AddressOutcome(e))
  }

  lemma FailedCommandKeeps(cfg: I.Config, s: I.State, e: IR.Event)
    requires cfg.hasFile && !s.deferred && (e.op.Block? || e.op.Unblock?) && AddressOutcome(e) == Failed
    ensures IR.Step(cfg, s, e) == s
  {
    hide I.Stored, I.MakeRoom, I.ManualRecord;
  }

  ghost predicate NoneDefers(es: seq<IR.Event>) { forall e :: e in es ==> !e.op.Defer? }

  lemma {:induction false} StaysImmediate(cfg: I.Config, s: I.State, es: seq<IR.Event>)
    requires !s.deferred && NoneDefers(es)
    ensures !IR.AfterFrom(cfg, s, es).deferred
  {
    if es != [] {
      StaysImmediate(cfg, s, es[..|es| - 1]);
      hide I.Stored, I.CleanedEntries, I.Rejected, I.MakeRoom, I.Changes, I.ManualRecord, I.LookupChange, I.LegitimateChange;
      assert es[|es| - 1] in es;
    }
  }

  /** No step after the one at `i` completes a write. */
  ghost predicate NoAddressWrite(cfg: I.Config, s: I.State, es: seq<IR.Event>, i: nat)
  {
    |es| <= i + 1 ||
    (var front := es[..|es| - 1]; NoAddressWrite(cfg, s, front, i) && !AddressWrote(cfg, IR.AfterFrom(cfg, s, front), es[|es| - 1]))
  }

  /** After every immediate run the file of the IP reputation holds everything unless some step withheld a change,
      could not write, or was undone late, and no write has been completed since. */
  lemma {:induction false} AddressesAgreeUnlessSpoiled(cfg: I.Config, s: I.State, es: seq<IR.Event>) returns (i: nat)
    requires cfg.hasFile && !s.deferred && I.AllWritten(s) && NoneDefers(es)
    requires !I.AllWritten(IR.AfterFrom(cfg, s, es))
    ensures i < |es| && I.AllWritten(IR.AfterFrom(cfg, s, es[..i])) && !I.AllWritten(IR.AfterFrom(cfg, s, es[..i + 1]))
    ensures AddressSpoils(cfg, IR.AfterFrom(cfg, s, es[..i]), es[i]) && NoAddressWrite(cfg, s, es, i)
  {
    hide IR.Step, AddressWithheld, AddressAsks, I.AllWritten;
    var front, e := es[..|es| - 1], es[|es| - 1];
    var before := IR.AfterFrom(cfg, s, front);
    StaysImmediate(cfg, s, front);
    if I.AllWritten(before) {
      i := |es| - 1;
      assert es[..i + 1] == es;
      if AddressWrote(cfg, before, e) {
        AddressWriteCompletes(cfg, before, e);
      } else if !AddressAsks(cfg, before, e) {
        AddressQuietStep(cfg, before, e);
      } else if AddressOutcome(e) == Failed && (e.op.Block? || e.op.Unblock?) {
        FailedCommandKeeps(cfg, before, e);
      }
    } else {
      i := AddressesAgreeUnlessSpoiled(cfg, s, front);
      assert front[..i] == es[..i] && front[..i + 1] == es[..i + 1];
      if AddressWrote(cfg, before, e) {
        AddressWriteCompletes(cfg, before, e);
      }
    }
  }

  // ---------------------------------------------------------------- correspondents

  ghost predicate CorrespondentSpoils(cfg: C.Config, s: C.State, e: CR.Event)
  {
    Spoils(CorrespondentWithheld(cfg, s, e), CorrespondentAsks(cfg, s, e), e.op.Permit? || e.op.Revoke?, CorrespondentOutcome(e))
  }

  lemma FailedChangeKeeps(cfg: C.Config, s: C.State, e: CR.Event)
    requires !s.deferred && (e.op.Permit? || e.op.Revoke?) && CorrespondentAsks(cfg, s, e) && CorrespondentOutcome(e) == Failed
    ensures CR.Step(cfg, s, e) == s
  {
    hide C.AnyStale, C.Current, C.MakeRoom, C.ManualEntry, C.Deleted;
    if e.op.Revoke? {
      RevokeSaves(cfg, s, e);
    }
  }

  ghost predicate NoChangeDefers(es: seq<CR.Event>) { forall e :: e in es ==> !e.op.Defer? }

  lemma StillImmediate(cfg: C.Config, s: C.State, e: CR.Event)
    requires !s.deferred && !e.op.Defer?
    ensures !CR.Step(cfg, s, e).deferred
  {
    hide C.AnyStale, C.Current, C.MakeRoom, C.ManualEntry, C.Matches, C.Touched, C.Due, C.Turns, C.TurnsSave,
      C.Discredited, C.Deleted, Canonical, C.Distinct, C.TouchedEntries, C.Remaining, C.Stored, C.Marked;
  }

  lemma {:induction false} ChangesStayImmediate(cfg: C.Config, s: C.State, es: seq<CR.Event>)
    requires !s.deferred && NoChangeDefers(es)
    ensures !CR.After(cfg, s, es).deferred
  {
    hide CR.Step;
    if es != [] {
      ChangesStayImmediate(cfg, s, es[..|es| - 1]);
      assert es[|es| - 1] in es;
      StillImmediate(cfg, CR.After(cfg, s, es[..|es| - 1]), es[|es| - 1]);
    }
  }

  ghost predicate NoCorrespondentWrite(cfg: C.Config, s: C.State, es: seq<CR.Event>, i: nat)
  {
    |es| <= i + 1 ||
    (var front := es[..|es| - 1]; NoCorrespondentWrite(cfg, s, front, i) && !CorrespondentWrote(cfg, CR.After(cfg, s, front), es[|es| - 1]))
  }

  /** After every immediate run the file of the correspondent allowlist holds everything unless some step withheld a
      change, could not write, or was undone late, and no write has been completed since. */
  lemma {:induction false} CorrespondentsAgreeUnlessSpoiled(cfg: C.Config, s: C.State, start: int, es: seq<CR.Event>) returns (i: nat)
    requires !s.deferred && C.AllWritten(s) && NoChangeDefers(es) && CR.Run(cfg, s, start, es)
    requires !C.AllWritten(CR.After(cfg, s, es))
    ensures i < |es| && C.AllWritten(CR.After(cfg, s, es[..i])) && !C.AllWritten(CR.After(cfg, s, es[..i + 1]))
    ensures CorrespondentSpoils(cfg, CR.After(cfg, s, es[..i]), es[i]) && NoCorrespondentWrite(cfg, s, es, i)
  {
    hide CR.Step, CorrespondentWithheld, CorrespondentAsks, C.AllWritten, C.LegalTurns, C.Visits, CR.MembersOf, CR.RunsLoop;
    var front, e := es[..|es| - 1], es[|es| - 1];
    var before := CR.After(cfg, s, front);
    ChangesStayImmediate(cfg, s, front);
    if C.AllWritten(before) {
      i := |es| - 1;
      assert es[..i + 1] == es;
      if CorrespondentWrote(cfg, before, e) {
        CorrespondentWriteCompletes(cfg, before, e);
      } else if !CorrespondentAsks(cfg, before, e) {
        CorrespondentQuietStep(cfg, before, e);
      } else if CorrespondentOutcome(e) == Failed && (e.op.Permit? || e.op.Revoke?) {
        FailedChangeKeeps(cfg, before, e);
      }
    } else {
      i := CorrespondentsAgreeUnlessSpoiled(cfg, s, start, front);
      assert front[..i] == es[..i] && front[..i + 1] == es[..i + 1];
      if CorrespondentWrote(cfg, before, e) {
        CorrespondentWriteCompletes(cfg, before, e);
      }
    }
  }

  // ---------------------------------------------------------------- rejection history

  predicate RejectionAsks(cfg: R.Config, s: R.State, e: RR.Event)
  {
    match e.op
    case Reject(visible, envelope, recipients, _, _, _) => R.Recordable(cfg, visible, envelope, recipients)
    case Query(recipient, _) =>
      cfg.expiry > 0 && (recipient == "*" || cfg.normalize(recipient) != "") && R.Pruned(cfg, s.entries, e.now) != s.entries
    case FlushFile(_) => s.dirty
    case Defer => false
  }

  function RejectionOutcome(e: RR.Event): Outcome { if e.op.Defer? then Written else e.op.write }

  predicate RejectionWrote(cfg: R.Config, s: R.State, e: RR.Event)
  {
    RejectionAsks(cfg, s, e) && Completes(e.op.Reject?, RejectionOutcome(e))
  }

  predicate RejectionSpoils(cfg: R.Config, s: R.State, e: RR.Event)
  {
    Spoils(false, RejectionAsks(cfg, s, e), e.op.Reject?, RejectionOutcome(e))
  }

  lemma RejectionStepSpoils(cfg: R.Config, s: R.State, e: RR.Event)
    requires !s.deferred && !e.op.Defer?
    ensures !RR.Step(cfg, s, e).deferred
    ensures RejectionWrote(cfg, s, e) ==> R.AllWritten(RR.Step(cfg, s, e))
    ensures R.AllWritten(s) && !RejectionSpoils(cfg, s, e) ==> R.AllWritten(RR.Step(cfg, s, e))
  {
    hide Sort, R.Recordable, R.SenderOf, R.NewEntries, R.Pruned, R.For;
    if e.op.Query? && |R.Pruned(cfg, s.entries, e.now)| == |s.entries| {
      R.PrunedNothing(cfg, s.entries, e.now);
    }
  }

  ghost predicate NoRejectionDefers(es: seq<RR.Event>) { forall e :: e in es ==> !e.op.Defer? }

  lemma {:induction false} RejectionsStayImmediate(cfg: R.Config, s: R.State, es: seq<RR.Event>)
    requires !s.deferred && NoRejectionDefers(es)
    ensures !RR.After(cfg, s, es).deferred
  {
    hide RR.Step;
    if es != [] {
      RejectionsStayImmediate(cfg, s, es[..|es| - 1]);
      assert es[|es| - 1] in es;
      RejectionStepSpoils(cfg, RR.After(cfg, s, es[..|es| - 1]), es[|es| - 1]);
    }
  }

  predicate NoRejectionWrite(cfg: R.Config, s: R.State, es: seq<RR.Event>, i: nat)
  {
    |es| <= i + 1 ||
    (var front := es[..|es| - 1]; NoRejectionWrite(cfg, s, front, i) && !RejectionWrote(cfg, RR.After(cfg, s, front), es[|es| - 1]))
  }

  /** After every immediate run the file of the rejection history holds everything unless some step could not write
      or was undone late, and no write has been completed since. */
  lemma {:induction false} RejectionsAgreeUnlessSpoiled(cfg: R.Config, s: R.State, es: seq<RR.Event>) returns (i: nat)
    requires !s.deferred && R.AllWritten(s) && NoRejectionDefers(es)
    requires !R.AllWritten(RR.After(cfg, s, es))
    ensures i < |es| && R.AllWritten(RR.After(cfg, s, es[..i])) && !R.AllWritten(RR.After(cfg, s, es[..i + 1]))
    ensures RejectionSpoils(cfg, RR.After(cfg, s, es[..i]), es[i]) && NoRejectionWrite(cfg, s, es, i)
  {
    hide RR.Step, RejectionSpoils, RejectionWrote, R.AllWritten;
    var front, e := es[..|es| - 1], es[|es| - 1];
    RejectionsStayImmediate(cfg, s, front);
    RejectionStepSpoils(cfg, RR.After(cfg, s, front), e);
    if R.AllWritten(RR.After(cfg, s, front)) {
      i := |es| - 1;
      assert es[..i + 1] == es;
    } else {
      i := RejectionsAgreeUnlessSpoiled(cfg, s, front);
      assert front[..i] == es[..i] && front[..i + 1] == es[..i + 1];
    }
  }
}
