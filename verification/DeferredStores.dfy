/**
 The three stores as the server sees them. In deferred mode each of them behaves like the
 abstract store of module Serve: an operation leaves the file alone and either marks the
 store or changes nothing that the file must show, and a flush is the only writer.

 Until the first change is marked a store holds what it started with and its file is
 untouched; after that, whenever every change is saved in the sense of Serve, the file shows
 what the store holds. Nothing is asked of how store and file agree at the start.
 */
module DeferredStores {
  import opened BoundedHistory
  import opened StableSort
  import opened StateFile
  import C = Correspondents
  import CD = CorrespondentDurability
  import CR = CorrespondentRuns
  import I = IpReputation
  import IB = IpReputationDurability
  import IF = IpReputationFile
  import IR = IpReputationRuns
  import N = NetworkAddress
  import R = RejectionHistory
  import RR = RejectionHistoryRuns
  import Serve

  /** The abstract store after an operation that is not a flush. */
  function Observed(seen: Serve.Store, dirty: bool): Serve.Store
  {
    if dirty then Serve.Marked(seen) else seen
  }

  /** The abstract store counts changes and knows the dirty flag; a clean store has saved them all. */
  predicate Sees(seen: Serve.Store, dirty: bool)
  {
    && seen.dirty == dirty && seen.saved <= seen.changes
    && (if dirty then seen.changes > 0 else seen.saved == seen.changes)
  }

  // ---------------------------------------------------------------- rejection history

  /** Started as `start`: unchanged, or in the file entry by entry, oldest first. */
  ghost predicate RejectionsShown(start: R.State, s: R.State, seen: Serve.Store)
  {
    if seen.changes == 0 then s.disk == start.disk && s.entries == start.entries
    else seen.saved == seen.changes ==> s.disk == Sort(s.entries, R.AT)
  }

  ghost predicate RejectionsSeen(start: R.State, s: R.State, seen: Serve.Store)
  {
    s.deferred && Sees(seen, s.dirty) && RejectionsShown(start, s, seen)
  }

  function RejectionsObserved(cfg: R.Config, s: R.State, e: RR.Event, seen: Serve.Store): Serve.Store
  {
    if e.op.FlushFile? then Serve.Flushed(seen, e.op.write) else Observed(seen, RR.Step(cfg, s, e).dirty)
  }

  lemma RejectionsAreServed(cfg: R.Config, start: R.State, s: R.State, e: RR.Event, seen: Serve.Store)
    requires RejectionsSeen(start, s, seen)
    ensures RejectionsSeen(start, RR.Step(cfg, s, e), RejectionsObserved(cfg, s, e, seen))
  {
    hide Sort, R.Recordable, R.SenderOf, R.NewEntries, R.Pruned;
    if e.op.Query? && |R.Pruned(cfg, s.entries, e.now)| == |s.entries| {
      R.PrunedNothing(cfg, s.entries, e.now);
    }
  }

  // ---------------------------------------------------------------- sending-IP reputation

  /** The file, or before the first change the part of it that loading considers. */
  function AddressFile(cfg: I.Config, s: I.State, seen: Serve.Store): map<N.Addr, I.Record>
  {
    if seen.changes == 0 then IF.Accepted(cfg, s.disk) else s.disk
  }

  /** Started from `file`: every record is shown by it, strikes, short blocks and all. */
  ghost predicate AddressesShown(cfg: I.Config, file: map<N.Addr, I.Record>, s: I.State, t: int, seen: Serve.Store)
  {
    && (seen.changes == 0 ==> s.disk == file)
    && (seen.saved == seen.changes && cfg.Enabled() ==> IF.DiskShows(cfg, AddressFile(cfg, s, seen), s.entries, t))
  }

  ghost predicate AddressesSeen(cfg: I.Config, file: map<N.Addr, I.Record>, s: I.State, t: int, seen: Serve.Store)
  {
    && s.deferred && Sees(seen, s.dirty) && AddressesShown(cfg, file, s, t, seen)
    && IF.AllInOrder(cfg, s.entries, t) && IF.FileInOrder(s.disk, t)
  }

  function AddressesObserved(cfg: I.Config, s: I.State, e: IR.Event, seen: Serve.Store): Serve.Store
  {
    if e.op.FlushFile? then Serve.Flushed(seen, e.op.write) else Observed(seen, IR.Step(cfg, s, e).dirty)
  }

  /** A step asks for no write, or marks the store, or is a flush that writes it. */
  lemma AddressStep(cfg: I.Config, s: I.State, e: IR.Event, seen: Serve.Store)
    requires cfg.hasFile && s.deferred && Sees(seen, s.dirty)
    ensures var s', seen' := IR.Step(cfg, s, e), AddressesObserved(cfg, s, e, seen);
      && s'.deferred && Sees(seen', s'.dirty)
      && (|| (s'.disk == s.disk && seen'.saved < seen'.changes)
          || (I.AllWritten(s') && s'.entries == s.entries && 0 < seen'.saved == seen'.changes)
          || (IF.OnlyUnsaved(cfg, s, s', e.now) && seen' == seen))
  {
    hide IR.Step, IF.OnlyUnsaved;
    IF.StepSaves(cfg, s, e);
    IF.StepFlush(cfg, s, e);
    IF.NothingToSave(cfg, s, e.now);
  }

  lemma StillInOrder(cfg: I.Config, s: I.State, t: int, now: int)
    requires IF.AllInOrder(cfg, s.entries, t) && IF.FileInOrder(s.disk, t) && t <= now
    ensures IF.AllInOrder(cfg, s.entries, now) && IF.FileInOrder(s.disk, now)
  {
    forall a | a in s.entries ensures IF.InOrder(cfg, s.entries[a].strikes, now) {
      assert IF.InOrder(cfg, s.entries[a].strikes, t);
    }
  }

  lemma WrittenInOrder(cfg: I.Config, s: I.State, t: int)
    requires IF.AllInOrder(cfg, s.entries, t) && I.AllWritten(s)
    ensures IF.FileInOrder(s.disk, t)
  {
    forall a | a in s.disk ensures IF.InOrder(cfg, s.disk[a].strikes, t) {
    }
  }

  lemma AddressesAreServed(cfg: I.Config, file: map<N.Addr, I.Record>, s: I.State, t: int, e: IR.Event, seen: Serve.Store)
    requires cfg.hasFile && AddressesSeen(cfg, file, s, t, seen) && t <= e.now
    ensures AddressesSeen(cfg, file, IR.Step(cfg, s, e), e.now, AddressesObserved(cfg, s, e, seen))
  {
    hide IR.Step, IF.AllInOrder, IF.FileInOrder, IF.DiskShows, AddressesObserved, Sees;
    var s', seen' := IR.Step(cfg, s, e), AddressesObserved(cfg, s, e, seen);
    AddressStep(cfg, s, e, seen);
    IF.StepInOrder(cfg, s, t, e);
    StillInOrder(cfg, s, t, e.now);
    if I.AllWritten(s') {
      WrittenInOrder(cfg, s', e.now);
      IF.WrittenShows(cfg, s'.entries, e.now);
    }
    if IF.OnlyUnsaved(cfg, s, s', e.now) && seen' == seen && seen.saved == seen.changes && cfg.Enabled() {
      IF.UnsavedKeepsShown(cfg, AddressFile(cfg, s, seen), s, t, s', e.now);
    }
  }

  /** The blocks alone: how far the file's expiries can be behind. */
  ghost predicate BlocksSeen(cfg: I.Config, extra: nat, s: I.State, t: int, seen: Serve.Store)
  {
    && s.deferred && Sees(seen, s.dirty) && IB.AllTimed(cfg, extra, s.entries, t)
    && (seen.saved == seen.changes ==> IB.AllBehind(cfg, extra, AddressFile(cfg, s, seen), s.entries))
  }

  lemma BlocksAreServed(cfg: I.Config, extra: nat, s: I.State, t: int, e: IR.Event, seen: Serve.Store)
    requires cfg.Sane() && cfg.hasFile && IB.Bounded(cfg, extra) && BlocksSeen(cfg, extra, s, t, seen) && t <= e.now
    ensures BlocksSeen(cfg, extra, IR.Step(cfg, s, e), e.now, AddressesObserved(cfg, s, e, seen))
  {
    hide IR.Step, IB.AllTimed, IB.AllBehind, AddressesObserved, Sees;
    var s', seen' := IR.Step(cfg, s, e), AddressesObserved(cfg, s, e, seen);
    AddressStep(cfg, s, e, seen);
    IB.StepTimed(cfg, extra, s, t, e);
    if I.AllWritten(s') {
      IB.WrittenIsBehind(cfg, extra, s'.entries, e.now);
    }
    if IF.OnlyUnsaved(cfg, s, s', e.now) && seen' == seen && seen.saved == seen.changes {
      IB.UnsavedIsBehind(cfg, extra, AddressFile(cfg, s, seen), s, t, s', e.now);
    }
  }

  // ---------------------------------------------------------------- correspondents

  /** The file has the relationship as it is, with an activity between the last one saved and the latest. */
  predicate Shown(d: C.Entry, e: C.Entry)
  {
    d == e.(lastActivity := d.lastActivity, persisted := 0) && e.persisted <= d.lastActivity <= e.lastActivity
  }

  ghost predicate AllShown(disk: map<C.Key, C.Entry>, entries: map<C.Key, C.Entry>)
  {
    disk.Keys == entries.Keys && forall k :: k in entries ==> Shown(disk[k], entries[k])
  }

  /** Started as `start`: unchanged but for activity, or in the file relationship by relationship. */
  ghost predicate CorrespondentsShown(start: C.State, s: C.State, seen: Serve.Store)
  {
    if seen.changes == 0 then s.disk == start.disk && AllShown(C.Stored(start.entries), s.entries)
    else seen.saved == seen.changes ==> AllShown(s.disk, s.entries)
  }

  ghost predicate CorrespondentsSeen(cfg: C.Config, start: C.State, s: C.State, t: int, seen: Serve.Store)
  {
    && Sees(seen, s.dirty) && CD.Steady(cfg, s, t) && CorrespondentsShown(start, s, seen)
    && (forall k :: k in s.entries ==> s.entries[k].persisted <= s.entries[k].lastActivity)
    && (forall k :: k in s.disk ==> CD.Dated(s.disk[k], t))
  }

  function CorrespondentsObserved(cfg: C.Config, s: C.State, e: CR.Event, seen: Serve.Store): Serve.Store
  {
    if e.op.FlushFile? then Serve.Flushed(seen, e.op.write) else Observed(seen, CR.Step(cfg, s, e).dirty)
  }

  lemma FlushShows(s: C.State, o: Outcome)
    requires s.dirty && o != Failed && forall k :: k in s.entries ==> s.entries[k].persisted <= s.entries[k].lastActivity
    ensures AllShown(C.Flush(s, o).disk, C.Flush(s, o).entries)
  {
  }

  lemma TouchShows(cfg: C.Config, disk: map<C.Key, C.Entry>, s: C.State, t: int, s': C.State, now: int)
    requires AllShown(disk, s.entries) && CD.AllTimely(s.entries, t) && t <= now && CD.OnlyTouched(cfg, s.entries, s'.entries, now)
    ensures AllShown(disk, s'.entries)
  {
    hide C.Due;
    forall k | k in s'.entries ensures Shown(disk[k], s'.entries[k]) {
      assert CD.Timely(s.entries[k], t) && Shown(disk[k], s.entries[k]);
    }
  }

  lemma CorrespondentsAreServed(cfg: C.Config, start: C.State, s: C.State, t: int, e: CR.Event, seen: Serve.Store)
    requires cfg.interval >= 0 && 0 <= t <= e.now && CorrespondentsSeen(cfg, start, s, t, seen)
    ensures CorrespondentsSeen(cfg, start, CR.Step(cfg, s, e), e.now, CorrespondentsObserved(cfg, s, e, seen))
  {
    hide CR.Step, C.Due, CD.Ahead, AllShown;
    var s' := CR.Step(cfg, s, e);
    assert forall k :: k in s.entries ==> CD.Timely(s.entries[k], t);
    if e.op.FlushFile? {
      CD.FlushIsSteady(cfg, s, t, e.op.write, e.now);
      CD.FlushStep(cfg, s, e);
      if s.dirty && e.op.write != Failed {
        FlushShows(s, e.op.write);
      }
    } else {
      CD.StepTimely(cfg, s, t, e);
      CD.StepMarks(cfg, s, t, e);
      CD.TouchedIsSteady(cfg, s, t, s', e.now);
      if !s'.dirty {
        if seen.changes == 0 {
          TouchShows(cfg, C.Stored(start.entries), s, t, s', e.now);
        } else {
          TouchShows(cfg, s.disk, s, t, s', e.now);
        }
      }
    }
  }
}
