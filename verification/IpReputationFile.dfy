/**
 What the file of the IP reputation store has to do with its memory.

 Some steps change records without asking for a write: they only prune strikes that have
 aged out, drop credit that no strike is left for, or prolong a repeat block. `Shows` says
 that a stored record and one in memory differ by no more than that, and `DiskShows` says
 so of a whole file. A flush establishes it, so does loading, and every step that asks for
 no write keeps it.
 */
module IpReputationFile {
  import opened BoundedHistory
  import opened Options
  import opened StateFile
  import opened IpReputation
  import opened NetworkAddress
  import opened IpReputationRuns
  import opened IpReputationHistory

  /** The writes of an event, if there are any, succeed. */
  predicate Succeeds(e: Event)
  {
    match e.op
    case Rejection(_, _, _, _, _, first, second) => first == Written && second == Written
    case Legitimate(_, write) => write == Written
    case Attempt(_, write) => write == Written
    case Block(_, _, write) => write == Written
    case Unblock(_, write) => write == Written
    case List(write) => write == Written
    case FlushFile(write) => write == Written
    case Defer => true
  }

  // ---------------------------------------------------------------- steps that ask for no write

  /** Lookups of this address can prolong a repeat block. */
  predicate Movable(cfg: Config, a: Addr) { cfg.refreshOnAttempt && cfg.Tracked(a) && a.Unmap() == a }

  predicate Prolonged(cfg: Config, a: Addr, r: Record, r': Record, now: int)
  {
    && r.level == Repeat && Movable(cfg, a) && now < r.until && !RefreshDue(cfg, r, now)
    && r'.until == now + cfg.repeatDuration && r'.lastActivity == now
  }

  /** How a record may change without being saved. */
  predicate Unsaved(cfg: Config, a: Addr, r: Record, r': Record, now: int)
  {
    && r'.level == r.level && r'.classification == r.classification && r'.score == r.score
    && r'.persistedRefresh == r.persistedRefresh
    && (r'.strikes == r.strikes || r'.strikes == Prune(cfg, r.strikes, now))
    && (r'.strikes != [] ==> r'.legitimate == r.legitimate)
    && ((r'.until == r.until && r'.lastActivity == r.lastActivity) || Prolonged(cfg, a, r, r', now))
  }

  ghost predicate OnlyUnsaved(cfg: Config, s: State, s': State, now: int)
  {
    && s'.disk == s.disk && s'.dirty == s.dirty && s'.entries.Keys == s.entries.Keys
    && forall a :: a in s'.entries ==> Unsaved(cfg, a, s.entries[a], s'.entries[a], now)
  }

  /** The step wrote what it leaves behind, which in deferred mode only a flush of a marked store does, marked it
      to be written, or asked for no write. */
  ghost predicate SavedOrUnsaved(cfg: Config, s: State, s': State, now: int)
  {
    && (s'.dirty ==> s'.deferred)
    && (s'.dirty || (AllWritten(s') && (s'.deferred ==> s.dirty)) || OnlyUnsaved(cfg, s, s', now))
  }

  lemma CleanedIsUnsaved(cfg: Config, a: Addr, r: Record, now: int)
    requires !Changes(cfg, r, now)
    ensures Unsaved(cfg, a, r, Cleaned(cfg, r, now), now)
  {
    hide Prune;
  }

  lemma ChangeIsUnsaved(cfg: Config, a: Addr, r: Record, now: int)
    ensures var c := LookupChange(cfg, r, now);
      !c.save ==> c.record.Some? && (cfg.Tracked(a) && a.Unmap() == a ==> Unsaved(cfg, a, r, c.record.value, now))
    ensures var c := LegitimateChange(cfg, r, now); !c.save ==> c.record.Some? && Unsaved(cfg, a, r, c.record.value, now)
  {
    hide Prune;
  }

  /** A save that either is deferred or succeeds. */
  lemma SaveSaves(cfg: Config, s: State, s': State, o: Outcome, now: int)
    requires cfg.hasFile && (s'.deferred || (o == Written && !s'.dirty))
    ensures SavedOrUnsaved(cfg, s, Save(cfg, s', o), now)
  {
  }

  lemma CleanupSaves(cfg: Config, s: State, now: int, o: Outcome)
    requires cfg.hasFile && (s.deferred || (o == Written && !s.dirty))
    ensures SavedOrUnsaved(cfg, s, Cleanup(cfg, s, now, o), now)
  {
    hide Prune, Survives, Save, Unsaved;
    var cleaned := CleanedEntries(cfg, s.entries, now);
    SaveSaves(cfg, s, s.(entries := cleaned), o, now);
    if forall a :: a in s.entries ==> !Changes(cfg, s.entries[a], now) {
      assert cleaned.Keys == s.entries.Keys;
      forall a | a in cleaned ensures Unsaved(cfg, a, s.entries[a], cleaned[a], now) {
        CleanedIsUnsaved(cfg, a, s.entries[a], now);
      }
    }
  }

  lemma CommitSaves(cfg: Config, s: State, a: Addr, c: Change, o: Outcome, now: int)
    requires cfg.hasFile && (s.deferred || (o == Written && !s.dirty)) && a in s.entries
    requires !c.save ==> c.record.Some? && Unsaved(cfg, a, s.entries[a], c.record.value, now)
    ensures SavedOrUnsaved(cfg, s, Commit(cfg, s, a, c, o), now)
  {
    hide Save, Prune;
    SaveSaves(cfg, s, s.(entries := if c.record.Some? then s.entries[a := c.record.value] else s.entries - {a}), o, now);
  }

  lemma RejectionSaves(cfg: Config, s: State, e: Event)
    requires cfg.hasFile && (s.dirty ==> s.deferred) && (s.deferred || Succeeds(e)) && e.op.Rejection?
    ensures SavedOrUnsaved(cfg, s, Step(cfg, s, e), e.now)
  {
    hide Save, Rejected, Cleanup, MakeRoom, SavedOrUnsaved;
    NothingToSave(cfg, s, e.now);
    var clean := Cleanup(cfg, s, e.now, e.op.first);
    var room := MakeRoom(cfg, clean.entries, Key(e), e.op.victim);
    var record := Rejected(cfg, Find(clean.entries, Key(e)), e.now, e.op.classification, e.op.score);
    CleanupDirt(cfg, s, e.now, e.op.first);
    SaveSaves(cfg, s, clean.(entries := room[Key(e) := record]), e.op.second, e.now);
  }

  lemma CleanupDirt(cfg: Config, s: State, now: int, o: Outcome)
    ensures Cleanup(cfg, s, now, o).dirty ==> s.deferred || s.dirty
  {
    hide Prune, Survives, Changes;
  }

  lemma BlockSaves(cfg: Config, s: State, e: Event)
    requires cfg.hasFile && (s.dirty ==> s.deferred) && (s.deferred || Succeeds(e)) && e.op.Block?
    ensures SavedOrUnsaved(cfg, s, Step(cfg, s, e), e.now)
  {
    hide Save, MakeRoom, SavedOrUnsaved, ManualRecord;
    NothingToSave(cfg, s, e.now);
    var room := MakeRoom(cfg, s.entries, Key(e), e.op.victim);
    SaveSaves(cfg, s, s.(entries := room[Key(e) := ManualRecord(cfg, Find(room, Key(e)), e.now)]), e.op.write, e.now);
  }

  lemma NothingToSave(cfg: Config, s: State, now: int)
    requires s.dirty ==> s.deferred
    ensures SavedOrUnsaved(cfg, s, s, now) && SavedOrUnsaved(cfg, s, s.(deferred := true), now)
    ensures OnlyUnsaved(cfg, s, s, now)
  {
  }

  lemma FlushSaves(cfg: Config, s: State, o: Outcome, now: int)
    requires cfg.hasFile && (s.dirty ==> s.deferred)
    ensures SavedOrUnsaved(cfg, s, Flush(cfg, s, o), now)
  {
  }

  /** Every step saves, marks, or leaves the records as they are but for what need not be saved. */
  lemma StepSaves(cfg: Config, s: State, e: Event)
    requires cfg.hasFile && (s.dirty ==> s.deferred) && (s.deferred || Succeeds(e))
    ensures SavedOrUnsaved(cfg, s, Step(cfg, s, e), e.now)
  {
    hide Prune, LookupChange, LegitimateChange, Commit, Rejected, Cleanup, CleanedEntries, SavedOrUnsaved, MakeRoom, Save, Unsaved;
    NothingToSave(cfg, s, e.now);
    match e.op {
      case Rejection(_, _, _, _, _, _, _) => RejectionSaves(cfg, s, e);
      case Block(_, _, _) => BlockSaves(cfg, s, e);
      case List(write) => CleanupSaves(cfg, s, e.now, write);
      case FlushFile(write) => FlushSaves(cfg, s, write, e.now);
      case Defer =>
      case Attempt(_, write) =>
        if Acts(cfg, s, e) {
          ChangeIsUnsaved(cfg, Key(e), s.entries[Key(e)], e.now);
          CommitSaves(cfg, s, Key(e), LookupChange(cfg, s.entries[Key(e)], e.now), write, e.now);
        }
      case Legitimate(_, write) =>
        if Acts(cfg, s, e) {
          ChangeIsUnsaved(cfg, Key(e), s.entries[Key(e)], e.now);
          CommitSaves(cfg, s, Key(e), LegitimateChange(cfg, s.entries[Key(e)], e.now), write, e.now);
        }
      case Unblock(_, write) =>
        if Key(e) in s.entries {
          CommitSaves(cfg, s, Key(e), Change(None, true), write, e.now);
        }
    }
  }

  lemma StepFlush(cfg: Config, s: State, e: Event)
    requires cfg.hasFile
    ensures e.op.FlushFile? ==> Step(cfg, s, e) == Flush(cfg, s, e.op.write)
    ensures s.deferred ==> Step(cfg, s, e).deferred && (s.dirty && !e.op.FlushFile? ==> Step(cfg, s, e).dirty)
    ensures s.deferred && !e.op.FlushFile? ==> Step(cfg, s, e).disk == s.disk
  {
    hide Prune, LookupChange, LegitimateChange, Rejected, CleanedEntries, MakeRoom, Stored, Changes;
  }

  // ---------------------------------------------------------------- strikes in order

  /** Strikes in the order they happened, none of them in the future and none too many. */
  ghost predicate InOrder(cfg: Config, strikes: seq<int>, t: int)
  {
    UpTo(strikes, t) && |strikes| <= cfg.repeatThreshold
  }

  ghost predicate AllInOrder(cfg: Config, entries: map<Addr, Record>, t: int)
  {
    forall a :: a in entries ==> InOrder(cfg, entries[a].strikes, t)
  }

  lemma SuffixUpTo(part: seq<int>, whole: seq<int>, t: int)
    requires UpTo(whole, t) && Suffix(part, whole)
    ensures UpTo(part, t)
  {
    ChronologicalFrom(whole, |whole| - |part|, TIME);
    forall i | 0 <= i < |part| ensures part[i] <= t {
      assert part[i] == whole[|whole| - |part| + i];
    }
  }

  lemma PruneInOrder(cfg: Config, strikes: seq<int>, t: int, now: int)
    requires UpTo(strikes, t)
    ensures UpTo(Prune(cfg, strikes, now), t) && |Prune(cfg, strikes, now)| <= |strikes|
  {
    hide Prune;
    PruneSuffix(cfg, strikes, now);
    SuffixUpTo(Prune(cfg, strikes, now), strikes, t);
  }

  lemma StruckInOrder(cfg: Config, strikes: seq<int>, t: int, now: int)
    requires InOrder(cfg, strikes, t) && t <= now
    ensures InOrder(cfg, Struck(cfg, strikes, now), now)
  {
    hide Prune;
    PruneInOrder(cfg, strikes, t, now);
    var all := Prune(cfg, strikes, now) + [now];
    assert UpTo(all, now);
    SuffixUpTo(LastN(cfg.repeatThreshold, all), all, now);
  }

  /** Every step keeps the strikes of every record in order. */
  lemma StepInOrder(cfg: Config, s: State, t: int, e: Event)
    requires AllInOrder(cfg, s.entries, t) && t <= e.now
    ensures AllInOrder(cfg, Step(cfg, s, e).entries, e.now)
  {
    hide Step, Fate, InOrder, Prune, Struck, Continues;
    var s' := Step(cfg, s, e);
    forall a | a in s'.entries ensures InOrder(cfg, s'.entries[a].strikes, e.now) {
      FateHolds(cfg, s, e, a);
      FateInOrder(cfg, s, t, e, a);
    }
  }

  lemma FateInOrder(cfg: Config, s: State, t: int, e: Event, a: Addr)
    requires AllInOrder(cfg, s.entries, t) && t <= e.now && Fate(cfg, s, e, a).Some?
    ensures InOrder(cfg, Fate(cfg, s, e, a).value.strikes, e.now)
  {
    FateStrikes(cfg, s, e, a);
    hide Fate, Prune, Struck, Continues, Strikes;
    var strikes := Find(s.entries, a).strikes;
    var pruned := Prune(cfg, strikes, e.now);
    assert InOrder(cfg, [], t);
    PruneInOrder(cfg, strikes, t, e.now);
    StruckInOrder(cfg, pruned, t, e.now);
    StruckInOrder(cfg, [], t, e.now);
    if pruned != [] {
      SuffixUpTo(pruned[1..], pruned, t);
    }
  }

  // ---------------------------------------------------------------- what a file shows

  /** Stored strikes against those in memory: enough to answer every later question. */
  ghost predicate StrikesShown(cfg: Config, disk: seq<int>, memory: seq<int>, t: int)
  {
    cfg.repeatThreshold > 0 && cfg.repeatWindow > 0 ==>
      Chronological(disk, TIME) && Tracks(disk, memory, cfg.repeatThreshold, TIME, WindowStart(cfg, t))
  }

  /** The level of a record, once a short block has run out. */
  function LevelAt(r: Record, t: int): Level { if r.level == Short && r.until <= t then NoBlock else r.level }

  /** The stored record `d` shows the record `r` in memory: only an unfinished repeat block may be further
      along in memory, exactly as a lookup leaves it. */
  ghost predicate Shows(cfg: Config, d: Record, r: Record, t: int)
  {
    && LevelAt(d, t) == LevelAt(r, t) && (LevelAt(r, t) == Short ==> d.until == r.until)
    && d.classification == r.classification && d.score == r.score
    && StrikesShown(cfg, d.strikes, r.strikes, t) && (r.strikes != [] ==> d.legitimate == r.legitimate)
    && (|| (d.lastActivity == r.lastActivity && (r.level == Repeat ==> d.until == r.until))
        || (r.level == Repeat && cfg.refreshOnAttempt && r.until == r.lastActivity + cfg.repeatDuration))
  }

  /** Every record in memory is shown, and what else the file holds has expired. */
  ghost predicate DiskShows(cfg: Config, disk: map<Addr, Record>, entries: map<Addr, Record>, t: int)
  {
    && entries.Keys <= disk.Keys
    && (forall a {:trigger Shows(cfg, disk[a], entries[a], t)} :: a in entries && a in disk ==> Shows(cfg, disk[a], entries[a], t))
    && (forall a :: a in disk && a !in entries ==> !Survives(cfg, disk[a], t))
  }

  lemma StrikesStillShown(cfg: Config, disk: seq<int>, memory: seq<int>, t: int, now: int)
    requires StrikesShown(cfg, disk, memory, t) && t <= now
    ensures StrikesShown(cfg, disk, memory, now) && StrikesShown(cfg, disk, Prune(cfg, memory, now), now)
  {
    hide Live;
    if cfg.repeatThreshold > 0 && cfg.repeatWindow > 0 {
      TracksPruned(disk, memory, cfg.repeatThreshold, TIME, WindowStart(cfg, t), WindowStart(cfg, now));
    }
  }

  lemma StillShows(cfg: Config, a: Addr, d: Record, r: Record, t: int, r': Record, now: int)
    requires Shows(cfg, d, r, t) && t <= now && Unsaved(cfg, a, r, r', now)
    requires r'.strikes != [] ==> r.strikes != []
    ensures Shows(cfg, d, r', now)
  {
    hide Prune, StrikesShown;
    StrikesStillShown(cfg, d.strikes, r.strikes, t, now);
  }

  lemma PrunedNothingOfNothing(cfg: Config, now: int)
    ensures Prune(cfg, [], now) == []
  {
  }

  /** What has expired stays expired. */
  lemma DeadStaysDead(cfg: Config, r: Record, t: int, now: int)
    requires !Survives(cfg, r, t) && t <= now
    ensures !Survives(cfg, r, now)
  {
    hide Live;
    LiveMembers(r.strikes, TIME, WindowStart(cfg, t));
    LiveMembers(r.strikes, TIME, WindowStart(cfg, now));
    var later := Prune(cfg, r.strikes, now);
    if later != [] {
      assert later[0] in later;
    }
  }

  /** Steps that ask for no write, and time passing, keep a file as good as it is. */
  lemma UnsavedKeepsShown(cfg: Config, disk: map<Addr, Record>, s: State, t: int, s': State, now: int)
    requires DiskShows(cfg, disk, s.entries, t) && t <= now && OnlyUnsaved(cfg, s, s', now)
    ensures DiskShows(cfg, disk, s'.entries, now)
  {
    hide Shows, Survives, Unsaved;
    PrunedNothingOfNothing(cfg, now);
    forall a | a in s'.entries ensures Shows(cfg, disk[a], s'.entries[a], now) {
      assert Shows(cfg, disk[a], s.entries[a], t);
      UnsavedStrikes(cfg, a, s.entries[a], s'.entries[a], now);
      StillShows(cfg, a, disk[a], s.entries[a], t, s'.entries[a], now);
    }
    forall a | a in disk && a !in s'.entries ensures !Survives(cfg, disk[a], now) {
      DeadStaysDead(cfg, disk[a], t, now);
    }
  }

  lemma UnsavedStrikes(cfg: Config, a: Addr, r: Record, r': Record, now: int)
    requires Unsaved(cfg, a, r, r', now) && Prune(cfg, [], now) == []
    ensures r'.strikes != [] ==> r.strikes != []
  {
  }

  /** A file just written shows everything. */
  lemma WrittenShows(cfg: Config, entries: map<Addr, Record>, t: int)
    requires AllInOrder(cfg, entries, t)
    ensures DiskShows(cfg, Stored(entries), entries, t)
  {
    hide Survives, Prune;
    forall a | a in entries ensures Shows(cfg, Stored(entries)[a], entries[a], t) {
      assert InOrder(cfg, entries[a].strikes, t);
      assert entries[a].strikes == entries[a].strikes[|entries[a].strikes| - |entries[a].strikes|..];
    }
  }

  // ---------------------------------------------------------------- loading

  /** The records that loading considers: none when there are too many. */
  function Accepted(cfg: Config, disk: map<Addr, Record>): map<Addr, Record>
  {
    if |disk| > cfg.maxSize then map[] else disk
  }

  ghost predicate FileInOrder(disk: map<Addr, Record>, t: int)
  {
    forall a :: a in disk ==> UpTo(disk[a].strikes, t)
  }

  lemma LoadedStrikes(cfg: Config, strikes: seq<int>, t: int)
    requires UpTo(strikes, t)
    ensures var loaded := LastN(cfg.repeatThreshold, Prune(cfg, strikes, t));
      InOrder(cfg, loaded, t) && StrikesShown(cfg, strikes, loaded, t)
  {
    hide Live;
    PruneInOrder(cfg, strikes, t, t);
    var pruned := Prune(cfg, strikes, t);
    SuffixUpTo(LastN(cfg.repeatThreshold, pruned), pruned, t);
    if cfg.repeatThreshold > 0 && cfg.repeatWindow > 0 {
      var c := FindCut(strikes, TIME, WindowStart(cfg, t));
      LiveFromCut(strikes, c, TIME, WindowStart(cfg, t));
      assert LastN(cfg.repeatThreshold, pruned) == strikes[|strikes| - |LastN(cfg.repeatThreshold, pruned)|..];
    }
  }

  /** What was loaded is shown by the file it was loaded from, expired and trimmed records included. */
  lemma LoadedIsShown(cfg: Config, disk: map<Addr, Record>, now: int)
    requires FileInOrder(disk, now)
    ensures AllInOrder(cfg, Load(cfg, disk, now), now) && DiskShows(cfg, Accepted(cfg, disk), Load(cfg, disk, now), now)
  {
    hide Prune, StrikesShown, InOrder;
    var entries := Load(cfg, disk, now);
    forall a | a in entries ensures InOrder(cfg, entries[a].strikes, now) && Shows(cfg, disk[a], entries[a], now) {
      LoadedStrikes(cfg, disk[a].strikes, now);
    }
  }

  /** What a shown record means for a restart at any later time: the stored record is loaded when the one in
      memory would be, with the same strikes, and apart from a prolonged repeat block with all the same. */
  lemma ShownRecordsReload(cfg: Config, d: Record, r: Record, t: int, later: int)
    requires Shows(cfg, d, r, t) && t <= later && r.level != Repeat
    ensures Survives(cfg, d, later) <==> Survives(cfg, r, later)
    ensures Survives(cfg, r, later) ==>
      var l, m := Loaded(cfg, d, later), Cleaned(cfg, r, later);
      && l.strikes == m.strikes && l.level == m.level && (m.level != NoBlock ==> l.until == m.until)
      && l.classification == m.classification && l.score == m.score && l.lastActivity == m.lastActivity
      && (m.strikes != [] ==> l.legitimate == m.legitimate)
  {
    ShownStrikes(cfg, d.strikes, r.strikes, t, later);
    PrunedNothingOfNothing(cfg, later);
    hide Prune, StrikesShown;
  }

  lemma ShownStrikes(cfg: Config, disk: seq<int>, memory: seq<int>, t: int, later: int)
    requires StrikesShown(cfg, disk, memory, t) && t <= later
    ensures Prune(cfg, memory, later) == LastN(cfg.repeatThreshold, Prune(cfg, disk, later))
    ensures Prune(cfg, memory, later) == [] <==> Prune(cfg, disk, later) == []
  {
    hide Live;
    if cfg.repeatThreshold > 0 && cfg.repeatWindow > 0 {
      TrackedAnswer(disk, memory, cfg.repeatThreshold, TIME, WindowStart(cfg, t), WindowStart(cfg, later));
    }
  }
}
