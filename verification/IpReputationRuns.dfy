/**
 What the sending-IP reputation database guarantees over every run: from an empty
 store, through any sequence of rejections, legitimate evidence, connection
 attempts, administrator commands, listings and flushes, under a clock that never
 goes backwards, with any outcome of any file write and any legal eviction.
 */
module IpReputationRuns {
  import opened BoundedHistory
  import opened Options
  import opened StateFile
  import opened IpReputation
  import opened NetworkAddress

  datatype Op =
    | Rejection(addr: Addr, classification: string, score: real, exempt: bool, victim: Addr, first: Outcome, second: Outcome)
    | Legitimate(addr: Addr, write: Outcome)
    | Attempt(addr: Addr, write: Outcome)
    | Block(addr: Addr, victim: Addr, write: Outcome)
    | Unblock(addr: Addr, write: Outcome)
    | List(write: Outcome)
    | FlushFile(write: Outcome)
    | Defer

  datatype Event = Event(now: int, op: Op)

  function Step(cfg: Config, s: State, e: Event): State
  {
    match e.op
    case Rejection(addr, classification, score, exempt, victim, first, second) =>
      Add(cfg, s, e.now, addr, classification, score, exempt, victim, first, second)
    case Legitimate(addr, write) => RecordLegitimate(cfg, s, e.now, addr, write)
    case Attempt(addr, write) => Lookup(cfg, s, e.now, addr, write).0
    case Block(addr, victim, write) => ManualAdd(cfg, s, e.now, addr, victim, write).0
    case Unblock(addr, write) => ManualDelete(cfg, s, addr, write).0
    case List(write) => ListActive(cfg, s, e.now, write).0
    case FlushFile(write) => Flush(cfg, s, write)
    case Defer => s.(deferred := true)
  }

  /** The rejection of `a` is recorded, not skipped. */
  predicate Strikes(cfg: Config, e: Event, a: Addr)
  {
    cfg.Enabled() && e.op.Rejection? && cfg.Tracked(e.op.addr) && !e.op.exempt && e.op.addr.Unmap() == a
  }

  /** The records among which an operation that needs room picks its victim. */
  function Candidates(cfg: Config, s: State, e: Event): map<Addr, Record>
  {
    if e.op.Rejection? then CleanedEntries(cfg, s.entries, e.now) else s.entries
  }

  predicate NeedsRoom(cfg: Config, s: State, e: Event)
  {
    && (e.op.Rejection? || e.op.Block?) && cfg.Enabled() && cfg.Tracked(e.op.addr)
    && (if e.op.Rejection? then !e.op.exempt else ManualDuration(cfg) > 0)
    && e.op.addr.Unmap() !in Candidates(cfg, s, e) && |Candidates(cfg, s, e)| >= cfg.maxSize
  }

  ghost predicate Legal(cfg: Config, s: State, e: Event)
  {
    NeedsRoom(cfg, s, e) ==> IsVictim(Candidates(cfg, s, e), e.op.victim)
  }

  // ---------------------------------------------------------------- one address at a time

  function Held(entries: map<Addr, Record>, a: Addr): Option<Record>
  {
    if a in entries then Some(entries[a]) else None
  }

  /** The guard under which an event acts on the records at all. */
  predicate Acts(cfg: Config, s: State, e: Event)
  {
    match e.op
    case Rejection(addr, _, _, exempt, _, _, _) => cfg.Enabled() && cfg.Tracked(addr) && !exempt
    case Legitimate(addr, _) =>
      cfg.Enabled() && cfg.legitimatePerStrike > 0 && addr.Valid() && addr.Unmap() in s.entries
    case Attempt(addr, _) => cfg.Enabled() && cfg.Tracked(addr) && addr.Unmap() in s.entries
    case Block(addr, _, write) =>
      cfg.Enabled() && cfg.Tracked(addr) && ManualDuration(cfg) > 0 && !SaveFails(cfg, s, write)
    case Unblock(addr, write) => addr.Valid() && addr.Unmap() in s.entries && !SaveFails(cfg, s, write)
    case List(_) => cfg.Enabled()
    case _ => false
  }

  /** The address an event is about. */
  function Key(e: Event): Addr
  {
    match e.op
    case List(_) => Invalid
    case FlushFile(_) => Invalid
    case Defer => Invalid
    case _ => e.op.addr.Unmap()
  }

  predicate Evicts(cfg: Config, s: State, e: Event, a: Addr)
  {
    Acts(cfg, s, e) && NeedsRoom(cfg, s, e) && a == e.op.victim
  }

  /** What becomes of the record of `a`, seen on its own. */
  function Fate(cfg: Config, s: State, e: Event, a: Addr): Option<Record>
  {
    if !Acts(cfg, s, e) then Held(s.entries, a)
    else
      match e.op
      case Rejection(_, classification, score, _, _, _, _) =>
        var clean := Held(CleanedEntries(cfg, s.entries, e.now), a);
        if a == Key(e) then
          Some(Rejected(cfg, if clean.Some? then clean.value else EMPTY_RECORD, e.now, classification, score))
        else if Evicts(cfg, s, e, a) then None else clean
      case Legitimate(_, _) =>
        if a == Key(e) then LegitimateChange(cfg, s.entries[a], e.now).record else Held(s.entries, a)
      case Attempt(_, _) =>
        if a == Key(e) then LookupChange(cfg, s.entries[a], e.now).record else Held(s.entries, a)
      case Block(_, _, _) =>
        if a == Key(e) then Some(ManualRecord(cfg, Find(s.entries, a), e.now))
        else if Evicts(cfg, s, e, a) then None else Held(s.entries, a)
      case Unblock(_, _) => if a == Key(e) then None else Held(s.entries, a)
      case List(_) => Held(CleanedEntries(cfg, s.entries, e.now), a)
      case _ => Held(s.entries, a)
  }

  /** Addresses are independent: a step does to each record exactly what `Fate` says,
      whatever the other records are, except for the one record it may evict. */
  lemma FateHolds(cfg: Config, s: State, e: Event, a: Addr)
    ensures Held(Step(cfg, s, e).entries, a) == Fate(cfg, s, e, a)
  {
    match e.op {
      case Rejection(_, _, _, _, _, _, _) => RejectionFate(cfg, s, e, a);
      case Block(_, _, _) => BlockFate(cfg, s, e, a);
      case List(_) => ListFate(cfg, s, e, a);
      case _ => OneRecordFate(cfg, s, e, a);
    }
  }

  lemma RejectionFate(cfg: Config, s: State, e: Event, a: Addr)
    requires e.op.Rejection?
    ensures Held(Step(cfg, s, e).entries, a) == Fate(cfg, s, e, a)
  {
    hide Cleanup, Save, CleanedEntries, Rejected;
  }

  lemma BlockFate(cfg: Config, s: State, e: Event, a: Addr)
    requires e.op.Block?
    ensures Held(Step(cfg, s, e).entries, a) == Fate(cfg, s, e, a)
  {
    hide Cleanup, Save, CleanedEntries, Rejected;
  }

  lemma ListFate(cfg: Config, s: State, e: Event, a: Addr)
    requires e.op.List?
    ensures Held(Step(cfg, s, e).entries, a) == Fate(cfg, s, e, a)
  {
    hide Cleanup, Save, CleanedEntries;
  }

  lemma OneRecordFate(cfg: Config, s: State, e: Event, a: Addr)
    requires !e.op.Rejection? && !e.op.Block? && !e.op.List?
    ensures Held(Step(cfg, s, e).entries, a) == Fate(cfg, s, e, a)
  {
    hide Cleanup, Save, WriteNow, Stored, CleanedEntries, LookupChange, LegitimateChange, Rejected, MakeRoom, ManualRecord;
  }

  // ---------------------------------------------------------------- runs

  const EMPTY := State(map[], false, false, map[])

  function AfterFrom(cfg: Config, s: State, es: seq<Event>): State
  {
    if es == [] then s else Step(cfg, AfterFrom(cfg, s, es[..|es| - 1]), es[|es| - 1])
  }

  function ClockFrom(start: int, es: seq<Event>): int { if es == [] then start else es[|es| - 1].now }

  ghost predicate RunFrom(cfg: Config, s: State, start: int, es: seq<Event>)
  {
    es == [] ||
    (var front := es[..|es| - 1];
     RunFrom(cfg, s, start, front) && ClockFrom(start, front) <= ClockFrom(start, es) && Legal(cfg, AfterFrom(cfg, s, front), es[|es| - 1]))
  }

  function After(cfg: Config, es: seq<Event>): State { AfterFrom(cfg, EMPTY, es) }

  function Clock(es: seq<Event>): int { ClockFrom(0, es) }

  ghost predicate Run(cfg: Config, es: seq<Event>) { RunFrom(cfg, EMPTY, 0, es) }

  lemma {:induction false} RunPrefix(cfg: Config, s: State, start: int, es: seq<Event>, i: nat)
    requires RunFrom(cfg, s, start, es) && i <= |es|
    ensures RunFrom(cfg, s, start, es[..i]) && ClockFrom(start, es[..i]) <= ClockFrom(start, es)
  {
    if i < |es| {
      RunPrefix(cfg, s, start, es[..|es| - 1], i);
      assert es[..|es| - 1][..i] == es[..i];
    } else {
      assert es[..i] == es;
    }
  }

  // ---------------------------------------------------------------- what every state satisfies

  ghost predicate RecordOk(cfg: Config, a: Addr, r: Record, t: int)
  {
    && cfg.Tracked(a) && a.Unmap() == a
    && |r.strikes| <= cfg.repeatThreshold
    && (r.level == Repeat ==> r.until <= t + cfg.repeatDuration)
  }

  ghost predicate EntriesOk(cfg: Config, entries: map<Addr, Record>, t: int)
  {
    forall a :: a in entries ==> RecordOk(cfg, a, entries[a], t)
  }

  ghost predicate StoreOk(cfg: Config, s: State, t: int)
  {
    EntriesOk(cfg, s.entries, t) && |s.entries| <= cfg.maxSize
  }

  lemma PruneShortens(cfg: Config, strikes: seq<int>, now: int)
    ensures |Prune(cfg, strikes, now)| <= |strikes|
  {
    LiveMembers(strikes, TIME, WindowStart(cfg, now));
  }

  lemma CleanedOk(cfg: Config, a: Addr, r: Record, t: int, now: int)
    requires RecordOk(cfg, a, r, t) && t <= now
    ensures RecordOk(cfg, a, Cleaned(cfg, r, now), now)
  {
    PruneShortens(cfg, r.strikes, now);
  }

  lemma RejectedOk(cfg: Config, a: Addr, r: Record, now: int, classification: string, score: real)
    requires RecordOk(cfg, a, r, now)
    ensures RecordOk(cfg, a, Rejected(cfg, r, now, classification, score), now)
  {
    PruneShortens(cfg, r.strikes, now);
  }

  lemma LegitimateOk(cfg: Config, a: Addr, r: Record, t: int, now: int)
    requires RecordOk(cfg, a, r, t) && t <= now
    ensures var c := LegitimateChange(cfg, r, now).record; c.Some? ==> RecordOk(cfg, a, c.value, now)
  {
    PruneShortens(cfg, r.strikes, now);
  }

  lemma LookupOk(cfg: Config, a: Addr, r: Record, t: int, now: int)
    requires RecordOk(cfg, a, r, t) && t <= now
    ensures var c := LookupChange(cfg, r, now).record; c.Some? ==> RecordOk(cfg, a, c.value, now)
  {
    PruneShortens(cfg, r.strikes, now);
  }

  /** One step keeps every record well formed. */
  lemma StepOk(cfg: Config, s: State, t: int, e: Event)
    requires cfg.Sane() && EntriesOk(cfg, s.entries, t) && t <= e.now
    ensures EntriesOk(cfg, Step(cfg, s, e).entries, e.now)
  {
    var s' := Step(cfg, s, e);
    forall a | a in s'.entries ensures RecordOk(cfg, a, s'.entries[a], e.now) {
      FateHolds(cfg, s, e, a);
      FateOk(cfg, s, t, e, a);
    }
  }

  lemma FateOk(cfg: Config, s: State, t: int, e: Event, a: Addr)
    requires cfg.Sane() && EntriesOk(cfg, s.entries, t) && t <= e.now
    ensures Fate(cfg, s, e, a).Some? ==> RecordOk(cfg, a, Fate(cfg, s, e, a).value, e.now)
  {
    hide Rejected, LegitimateChange, LookupChange, Cleaned;
    var r := EMPTY_RECORD;
    if a in s.entries {
      r := s.entries[a];
      assert RecordOk(cfg, a, r, t);
      CleanedOk(cfg, a, r, t, e.now);
      LegitimateOk(cfg, a, r, t, e.now);
      LookupOk(cfg, a, r, t, e.now);
    }
    if e.op.Rejection? && Acts(cfg, s, e) && a == Key(e) {
      var clean := Held(CleanedEntries(cfg, s.entries, e.now), a);
      RejectedOk(cfg, a, if clean.Some? then clean.value else EMPTY_RECORD, e.now, e.op.classification, e.op.score);
    }
  }

  /** One step keeps the store within its capacity. */
  lemma StepWithinCapacity(cfg: Config, s: State, e: Event)
    requires cfg.Sane() && |s.entries| <= cfg.maxSize && Legal(cfg, s, e)
    ensures |Step(cfg, s, e).entries| <= cfg.maxSize
  {
    hide Rejected, LegitimateChange, LookupChange, CleanedEntries, Cleanup, Save;
    CleanupShrinks(cfg, s.entries, e.now);
    if Acts(cfg, s, e) && (e.op.Rejection? || e.op.Block?) {
      var record := Step(cfg, s, e).entries[Key(e)];
      RoomIsWithin(cfg, Candidates(cfg, s, e), Key(e), e.op.victim, record);
    } else {
      forall a | a in Step(cfg, s, e).entries ensures a in s.entries {
        FateHolds(cfg, s, e, a);
        assert Held(CleanedEntries(cfg, s.entries, e.now), a).Some? ==> a in s.entries by { CleanedKeys(cfg, s.entries, e.now, a); }
      }
      SubmapIsSmaller(Step(cfg, s, e).entries, s.entries);
    }
  }

  lemma CleanedKeys(cfg: Config, entries: map<Addr, Record>, now: int, a: Addr)
    ensures a in CleanedEntries(cfg, entries, now) ==> a in entries
  {
  }

  /** Records and capacity stay as they should be over every run from a store that is. */
  lemma {:induction false} RunOk(cfg: Config, s: State, start: int, es: seq<Event>)
    requires cfg.Sane() && StoreOk(cfg, s, start) && RunFrom(cfg, s, start, es)
    ensures StoreOk(cfg, AfterFrom(cfg, s, es), ClockFrom(start, es))
  {
    hide EntriesOk, Step, Legal;
    if es != [] {
      var front, e := es[..|es| - 1], es[|es| - 1];
      RunOk(cfg, s, start, front);
      StepOk(cfg, AfterFrom(cfg, s, front), ClockFrom(start, front), e);
      StepWithinCapacity(cfg, AfterFrom(cfg, s, front), e);
    }
  }

  /** A store starts so when it is empty, and when it is loaded from a file whose blocks are of tracked addresses
      and end no later than a block set at the time of loading would. */
  lemma LoadedStoreOk(cfg: Config, disk: map<Addr, Record>, now: int, deferred: bool)
    requires cfg.Sane()
    requires forall a :: a in disk ==> cfg.Tracked(a) && a.Unmap() == a && (disk[a].level == Repeat ==> disk[a].until <= now + cfg.repeatDuration)
    ensures StoreOk(cfg, State(Load(cfg, disk, now), deferred, false, disk), now)
  {
    hide Prune;
    if |disk| <= cfg.maxSize {
      SubmapIsSmaller(Load(cfg, disk, now), disk);
    }
  }
}
