/**
 Deferred persistence of the correspondent allowlist.

 While writes are deferred, operations only mark the store dirty, and mere activity does
 not even do that more than once per update interval. Flushes may fail. Still, whenever the
 store is not dirty its file holds every relationship, and only activity times may be ahead
 of it, each by less than the interval.
 */
module CorrespondentDurability {
  import opened Addresses
  import opened Options
  import opened StateFile
  import opened Correspondents
  import opened CorrespondentRuns

  /** What the file of a clean store holds: every entry as of its last save. */
  function AsSaved(entries: map<Key, Entry>): map<Key, Entry>
  {
    map k | k in entries :: entries[k].(lastActivity := entries[k].persisted, persisted := 0)
  }

  predicate Ahead(cfg: Config, e: Entry)
  {
    e.lastActivity == e.persisted || (e.persisted != 0 && 0 <= e.lastActivity - e.persisted < cfg.interval)
  }

  predicate Timely(e: Entry, t: int)
  {
    0 <= e.persisted <= t && 0 <= e.lastActivity <= t && 0 <= e.learnedAt <= t && (e.kind != Inbound ==> e.count == 0)
  }

  ghost predicate AllTimely(entries: map<Key, Entry>, t: int)
  {
    forall k :: k in entries ==> Timely(entries[k], t)
  }

  /** Memory is never ahead of what was last marked as saved by as much as the update interval. */
  ghost predicate Steady(cfg: Config, s: State, t: int)
  {
    s.deferred && AllTimely(s.entries, t) && forall k :: k in s.entries ==> Ahead(cfg, s.entries[k])
  }

  ghost predicate Lagging(cfg: Config, s: State, t: int)
  {
    Steady(cfg, s, t) && (!s.dirty ==> s.disk == AsSaved(s.entries))
  }

  // ---------------------------------------------------------------- times

  lemma CarriedTimely(before: map<Key, Entry>, after: map<Key, Entry>, t: int, now: int)
    requires AllTimely(before, t) && Carries(before, after, now) && 0 <= now && t <= now
    ensures AllTimely(after, now)
  {
    forall k | k in after ensures Timely(after[k], now) {
      assert Timely(before[k], t) && SameRelationship(before[k], after[k], now);
    }
  }

  lemma {:induction false} TurnsTimely(cfg: Config, entries: map<Key, Entry>, loop: Loop, choices: seq<Choice>, now: int)
    requires AllTimely(entries, now) && 0 <= now
    ensures AllTimely(Turns(cfg, entries, loop, choices, now), now)
  {
    hide LearnTurn, EvidenceTurn, Take, AllTimely;
    if choices != [] {
      var front, c := choices[..|choices| - 1], choices[|choices| - 1];
      TurnsTimely(cfg, entries, loop, front, now);
      TurnTimely(cfg, Turns(cfg, entries, loop, front, now), loop, c, now);
    }
  }

  lemma TurnTimely(cfg: Config, entries: map<Key, Entry>, loop: Loop, c: Choice, now: int)
    requires AllTimely(entries, now) && 0 <= now
    ensures AllTimely(Take(cfg, entries, loop.KeyFor(c.recipient), loop.TurnFor(cfg, entries, c.recipient, now), c.victim), now)
  {
    var k := loop.KeyFor(c.recipient);
    if k in entries {
      assert Timely(entries[k], now);
    }
  }

  lemma PutTimely(cfg: Config, entries: map<Key, Entry>, k: Key, victim: Key, now: int)
    requires AllTimely(entries, now) && 0 <= now
    ensures AllTimely(MakeRoom(cfg, entries, k, victim)[k := ManualEntry(entries, k, now)], now)
  {
    if k in entries {
      assert Timely(entries[k], now);
    }
  }

  lemma StepTimely(cfg: Config, s: State, t: int, e: Event)
    requires AllTimely(s.entries, t) && 0 <= t <= e.now
    ensures AllTimely(Step(cfg, s, e).entries, e.now)
  {
    hide Step, Turns, Current, MakeRoom, AllTimely, Carries, ManualEntry;
    StepShape(cfg, s, e);
    CurrentCarries(cfg, s.entries, e.now);
    var current, after := Current(cfg, s.entries, e.now), Step(cfg, s, e).entries;
    CarriedTimely(s.entries, current, t, e.now);
    if RunsLoop(cfg, e) {
      TurnsTimely(cfg, current, LoopOf(cfg, e), e.op.choices, e.now);
      CarriedTimely(Turns(cfg, current, LoopOf(cfg, e), e.op.choices, e.now), after, e.now, e.now);
    } else if AddsByHand(cfg, s, e) {
      var k := HandKey(cfg, e);
      PutTimely(cfg, current, k, e.op.victim, e.now);
      CarriedTimely(MakeRoom(cfg, current, k, e.op.victim)[k := ManualEntry(current, k, e.now)], after, e.now, e.now);
    } else {
      CarriedTimely(s.entries, after, t, e.now);
    }
  }

  // ---------------------------------------------------------------- what a step does without saving

  /** Only activity changed, and only of entries whose activity need not be saved yet. */
  ghost predicate OnlyTouched(cfg: Config, before: map<Key, Entry>, after: map<Key, Entry>, now: int)
  {
    && after.Keys == before.Keys
    && forall k :: k in after ==>
         after[k] == before[k] || (after[k] == before[k].(lastActivity := now) && !Due(cfg, before[k], now))
  }

  lemma UntouchedIsOnlyTouched(cfg: Config, entries: map<Key, Entry>, now: int)
    ensures OnlyTouched(cfg, entries, entries, now)
  {
  }

  lemma {:induction false} UnsavedTurns(cfg: Config, entries: map<Key, Entry>, loop: Loop, choices: seq<Choice>, now: int)
    requires AllTimely(entries, now) && 0 <= now
    requires !TurnsSave(cfg, entries, loop, choices, now)
    ensures OnlyTouched(cfg, entries, Turns(cfg, entries, loop, choices, now), now)
  {
    hide LearnTurn, EvidenceTurn, Take, AllTimely, OnlyTouched;
    if choices == [] {
      UntouchedIsOnlyTouched(cfg, entries, now);
    } else {
      var front, c := choices[..|choices| - 1], choices[|choices| - 1];
      UnsavedTurns(cfg, entries, loop, front, now);
      TurnsTimely(cfg, entries, loop, front, now);
      UnsavedTurn(cfg, entries, Turns(cfg, entries, loop, front, now), loop, c, now);
    }
  }

  lemma UnsavedTurn(cfg: Config, entries: map<Key, Entry>, before: map<Key, Entry>, loop: Loop, c: Choice, now: int)
    requires OnlyTouched(cfg, entries, before, now) && AllTimely(before, now)
    requires var t := loop.TurnFor(cfg, before, c.recipient, now); !(t.Put? && t.save)
    ensures OnlyTouched(cfg, entries,
                        Take(cfg, before, loop.KeyFor(c.recipient), loop.TurnFor(cfg, before, c.recipient, now), c.victim), now)
  {
    var k := loop.KeyFor(c.recipient);
    if k in before {
      assert Timely(before[k], now);
    }
  }

  /** The step asked for a save, which in deferred mode marks everything, or only touched activity. */
  ghost predicate MarkedOrTouched(cfg: Config, s: State, s': State, now: int)
  {
    && s'.deferred && s'.disk == s.disk
    && (|| (s'.dirty && forall k :: k in s'.entries ==> s'.entries[k].persisted == s'.entries[k].lastActivity)
        || (s'.dirty == s.dirty && OnlyTouched(cfg, s.entries, s'.entries, now)))
  }

  lemma SavedIsMarked(cfg: Config, s: State, s': State, now: int, o: Outcome)
    requires s.deferred && s'.deferred && s'.disk == s.disk
    ensures MarkedOrTouched(cfg, s, Save(s', o), now)
  {
  }

  lemma UnchangedIsTouched(cfg: Config, s: State, now: int)
    requires s.deferred
    ensures MarkedOrTouched(cfg, s, s, now)
  {
  }

  lemma NothingStale(cfg: Config, entries: map<Key, Entry>, now: int)
    requires !AnyStale(cfg, entries, now)
    ensures Current(cfg, entries, now) == entries
  {
    hide Stale;
  }

  /** Marking activity as saved changes nothing of what is written. */
  lemma StoredMarked(entries: map<Key, Entry>)
    ensures Stored(Marked(entries)) == Stored(entries)
  {
  }

  lemma RunLoopMarks(cfg: Config, s: State, loop: Loop, choices: seq<Choice>, now: int, write: Outcome)
    requires s.deferred && AllTimely(s.entries, now) && 0 <= now
    ensures MarkedOrTouched(cfg, s, RunLoop(cfg, s, loop, choices, now, write).0, now)
  {
    hide Turns, TurnsSave, AnyStale, Current, MarkedOrTouched, OnlyTouched, AllTimely, Save;
    var s' := s.(entries := Turns(cfg, Current(cfg, s.entries, now), loop, choices, now));
    SavedIsMarked(cfg, s, s', now, write);
    if !AnyStale(cfg, s.entries, now) && !TurnsSave(cfg, Current(cfg, s.entries, now), loop, choices, now) {
      NothingStale(cfg, s.entries, now);
      UnsavedTurns(cfg, s.entries, loop, choices, now);
      TouchedOnly(cfg, s, s', now);
    }
  }

  lemma TouchedOnly(cfg: Config, s: State, s': State, now: int)
    requires s.deferred && s' == s.(entries := s'.entries) && OnlyTouched(cfg, s.entries, s'.entries, now)
    ensures MarkedOrTouched(cfg, s, s', now)
  {
  }

  lemma TouchMarks(cfg: Config, s: State, now: int, sender: string, recipients: seq<string>, write: Outcome)
    requires s.deferred
    ensures MarkedOrTouched(cfg, s, TouchInbound(cfg, s, now, sender, recipients, write).0, now)
  {
    hide AnyStale, Current, MarkedOrTouched, OnlyTouched, Save, Touched, Due, Canonical, TouchedEntries;
    UnchangedIsTouched(cfg, s, now);
    var c, rs := cfg.normalize(sender), Canonical(cfg.normalize, recipients);
    var current := Current(cfg, s.entries, now);
    var s' := s.(entries := TouchedEntries(cfg, current, c, rs, now));
    SavedIsMarked(cfg, s, s', now, write);
    if !AnyStale(cfg, s.entries, now) && !exists k :: k in current && Touched(cfg, current[k], c, rs) && Due(cfg, current[k], now) {
      NothingStale(cfg, s.entries, now);
      TouchedEntriesOnly(cfg, s.entries, c, rs, now);
      TouchedOnly(cfg, s, s', now);
    }
  }

  lemma TouchedEntriesOnly(cfg: Config, entries: map<Key, Entry>, c: string, rs: set<string>, now: int)
    requires forall k :: k in entries && Touched(cfg, entries[k], c, rs) ==> !Due(cfg, entries[k], now)
    ensures OnlyTouched(cfg, entries, TouchedEntries(cfg, entries, c, rs, now), now)
  {
    hide Touched, Due;
  }

  lemma DiscreditMarks(cfg: Config, s: State, e: Event)
    requires s.deferred && e.op.Classified? && !RunsLoop(cfg, e)
    ensures MarkedOrTouched(cfg, s, Step(cfg, s, e), e.now)
  {
    hide AnyStale, OnlyTouched, Discredited, Canonical, RunLoop;
    UnchangedIsTouched(cfg, s, e.now);
    if !AnyStale(cfg, s.entries, e.now) {
      NothingStale(cfg, s.entries, e.now);
      UntouchedIsOnlyTouched(cfg, s.entries, e.now);
      var c, rs := cfg.normalize(e.op.sender), Canonical(cfg.normalize, e.op.recipients);
      assert (forall k :: k in s.entries ==> !Discredited(cfg, s.entries[k], c, rs))
        ==> Remaining(cfg, s.entries, c, rs) == s.entries;
    }
  }

  lemma StepMarks(cfg: Config, s: State, t: int, e: Event)
    requires s.deferred && AllTimely(s.entries, t) && 0 <= t <= e.now && !e.op.FlushFile?
    ensures MarkedOrTouched(cfg, s, Step(cfg, s, e), e.now)
  {
    hide RunLoop, TouchInbound, RecordInbound, MarkedOrTouched, Current, AnyStale, Save, AllTimely, Canonical, Distinct, MakeRoom,
      ManualEntry, Matches;
    StillTimely(s.entries, t, e.now);
    UnchangedIsTouched(cfg, s, e.now);
    if RunsLoop(cfg, e) {
      RunLoopMarks(cfg, s, LoopOf(cfg, e), e.op.choices, e.now, e.op.write);
      assert Step(cfg, s, e) == RunLoop(cfg, s, LoopOf(cfg, e), e.op.choices, e.now, e.op.write).0 by { StepRunsLoop(cfg, s, e); }
    } else {
      match e.op {
        case Touch(sender, recipients, write) => TouchMarks(cfg, s, e.now, sender, recipients, write);
        case Classified(_, _, _, _, _, _, _, _, _) => DiscreditMarks(cfg, s, e);
        case Permit(_, _, victim, write) =>
          var current, k := Current(cfg, s.entries, e.now), HandKey(cfg, e);
          SavedIsMarked(cfg, s, s.(entries := MakeRoom(cfg, current, k, victim)[k := ManualEntry(current, k, e.now)]), e.now, write);
        case Revoke(sender, recipient, write) => RevokeMarks(cfg, s, e);
        case Ask(_, _, write) =>
          SavedIsMarked(cfg, s, s.(entries := Current(cfg, s.entries, e.now)), e.now, write);
          if !AnyStale(cfg, s.entries, e.now) {
            NothingStale(cfg, s.entries, e.now);
          }
        case _ =>
      }
    }
  }

  lemma StillTimely(entries: map<Key, Entry>, t: int, now: int)
    requires AllTimely(entries, t) && t <= now
    ensures AllTimely(entries, now)
  {
    forall k | k in entries ensures Timely(entries[k], now) {
      assert Timely(entries[k], t);
    }
  }

  lemma StepRunsLoop(cfg: Config, s: State, e: Event)
    requires RunsLoop(cfg, e)
    ensures Step(cfg, s, e) == RunLoop(cfg, s, LoopOf(cfg, e), e.op.choices, e.now, e.op.write).0
  {
    hide RunLoop, Distinct, Canonical;
  }

  lemma RevokeMarks(cfg: Config, s: State, e: Event)
    requires s.deferred && e.op.Revoke?
    ensures MarkedOrTouched(cfg, s, Step(cfg, s, e), e.now)
  {
    hide AnyStale, OnlyTouched, Deleted;
    UnchangedIsTouched(cfg, s, e.now);
    if !AnyStale(cfg, s.entries, e.now) {
      NothingStale(cfg, s.entries, e.now);
      assert s.entries - {} == s.entries;
      UntouchedIsOnlyTouched(cfg, s.entries, e.now);
    }
  }

  // ---------------------------------------------------------------- the invariant

  lemma TouchedIsSteady(cfg: Config, s: State, t: int, s': State, now: int)
    requires cfg.interval >= 0 && Steady(cfg, s, t) && t <= now && MarkedOrTouched(cfg, s, s', now) && AllTimely(s'.entries, now)
    ensures Steady(cfg, s', now)
  {
    forall k | k in s'.entries ensures Ahead(cfg, s'.entries[k]) {
      if k in s.entries {
        assert Timely(s.entries[k], t) && Ahead(cfg, s.entries[k]);
      }
    }
  }

  lemma TouchedLags(cfg: Config, s: State, t: int, s': State, now: int)
    requires cfg.interval >= 0 && Lagging(cfg, s, t) && t <= now && MarkedOrTouched(cfg, s, s', now) && AllTimely(s'.entries, now)
    ensures Lagging(cfg, s', now)
  {
    TouchedIsSteady(cfg, s, t, s', now);
    if !s'.dirty {
      assert AsSaved(s'.entries) == AsSaved(s.entries);
    }
  }

  lemma FlushIsSteady(cfg: Config, s: State, t: int, o: Outcome, now: int)
    requires Steady(cfg, s, t) && 0 <= t <= now
    ensures Steady(cfg, Flush(s, o), now)
  {
    StillTimely(s.entries, t, now);
    forall k | k in s.entries ensures Timely(s.entries[k], now) {
    }
  }

  lemma FlushLags(cfg: Config, s: State, t: int, o: Outcome, now: int)
    requires Lagging(cfg, s, t) && 0 <= t <= now
    ensures Lagging(cfg, Flush(s, o), now)
  {
    FlushIsSteady(cfg, s, t, o, now);
    if o == Written && s.dirty {
      assert AsSaved(Marked(s.entries)) == Stored(s.entries);
    }
  }

  /** From the moment deferral begins with a store that agrees with its file, over every run and with any
      flush failing: if the store is not dirty, its file holds exactly the relationships in memory, with their
      types and counts and each stored activity the one last marked as saved; activity in memory is never
      further ahead of that than the update interval. */
  lemma {:induction false} CleanStoreIsOnDisk(cfg: Config, s: State, start: int, es: seq<Event>)
    requires cfg.interval >= 0 && 0 <= start && Lagging(cfg, s, start) && Run(cfg, s, start, es)
    ensures start <= Clock(start, es)
    ensures Lagging(cfg, After(cfg, s, es), Clock(start, es))
  {
    hide Step, Legal, Lagging, AllTimely;
    if es != [] {
      var front, e := es[..|es| - 1], es[|es| - 1];
      CleanStoreIsOnDisk(cfg, s, start, front);
      var before := After(cfg, s, front);
      assert before.deferred && AllTimely(before.entries, Clock(start, front)) by { LaggingParts(cfg, before, Clock(start, front)); }
      StepTimely(cfg, before, Clock(start, front), e);
      if e.op.FlushFile? {
        FlushLags(cfg, before, Clock(start, front), e.op.write, e.now);
        assert Step(cfg, before, e) == Flush(before, e.op.write) by { FlushStep(cfg, before, e); }
      } else {
        StepMarks(cfg, before, Clock(start, front), e);
        TouchedLags(cfg, before, Clock(start, front), Step(cfg, before, e), e.now);
      }
    }
  }

  lemma LaggingParts(cfg: Config, s: State, t: int)
    requires Lagging(cfg, s, t)
    ensures s.deferred && AllTimely(s.entries, t)
  {
  }

  lemma FlushStep(cfg: Config, s: State, e: Event)
    requires e.op.FlushFile?
    ensures Step(cfg, s, e) == Flush(s, e.op.write)
  {
  }

  /** What `Lagging` says about one relationship of a clean store. */
  lemma CleanEntryOnDisk(cfg: Config, s: State, t: int, k: Key)
    requires Lagging(cfg, s, t) && !s.dirty
    ensures k in s.disk <==> k in s.entries
    ensures k in s.entries ==>
      var e, d := s.entries[k], s.disk[k];
      && d.KeyOf() == e.KeyOf() && d.kind == e.kind && d.count == e.count && d.learnedAt == e.learnedAt
      && d.lastActivity == e.persisted
      && (e.lastActivity == d.lastActivity || 0 <= e.lastActivity - d.lastActivity < cfg.interval)
  {
    if k in s.entries {
      assert Ahead(cfg, s.entries[k]);
    }
  }

  // ---------------------------------------------------------------- loading

  predicate Dated(e: Entry, t: int) { 0 <= e.lastActivity <= t && 0 <= e.learnedAt <= t }

  lemma {:induction false} LoadedTimely(cfg: Config, stored: seq<StoredEntry>, t: int)
    requires forall i :: 0 <= i < |stored| ==> Dated(stored[i].entry, t)
    ensures forall k :: k in LoadAll(cfg, stored) ==>
      Timely(LoadAll(cfg, stored)[k], t) && LoadAll(cfg, stored)[k].persisted == LoadAll(cfg, stored)[k].lastActivity
  {
    if stored != [] {
      LoadedTimely(cfg, stored[..|stored| - 1], t);
      assert Dated(stored[|stored| - 1].entry, t);
    }
  }

  /** A store is steady from the moment it is loaded and deferral begins, whatever loading had to change and however
      its own write ended. */
  lemma LoadedIsSteady(cfg: Config, disk: map<Key, Entry>, version: nat, stored: seq<StoredEntry>, now: int, victims: seq<Key>, write: Outcome)
    requires forall i :: 0 <= i < |stored| ==> Dated(stored[i].entry, now)
    requires forall k :: k in disk ==> Dated(disk[k], now)
    ensures var s := Load(cfg, State(map[], false, false, disk), version, stored, now, victims, write).0.(deferred := true);
      && Steady(cfg, s, now) && !s.dirty && (forall k :: k in s.entries ==> s.entries[k].persisted == s.entries[k].lastActivity)
      && (forall k :: k in s.disk ==> Dated(s.disk[k], now))
  {
    hide LoadAll, Current, AnyOutdated, AnyStale;
    LoadedTimely(cfg, stored, now);
    var all := LoadAll(cfg, stored);
    CurrentCarriesOver(cfg, all, now);
    WithoutKeeps(Current(cfg, all, now), victims);
    hide Without;
    var entries := Without(Current(cfg, all, now), victims);
    assert forall k :: k in entries ==> Timely(entries[k], now) && entries[k].persisted == entries[k].lastActivity;
  }

  lemma CurrentCarriesOver(cfg: Config, entries: map<Key, Entry>, now: int)
    ensures forall k :: k in Current(cfg, entries, now) ==> k in entries && Current(cfg, entries, now)[k] == entries[k]
  {
  }

  // ---------------------------------------------------------------- reloading

  function AsWritten(e: Entry): StoredEntry { StoredEntry(e, OfKind(e.kind)) }

  function KeysOf(stored: seq<StoredEntry>): set<Key> { set i | 0 <= i < |stored| :: stored[i].KeyOf() }

  /** A file lists the entries of a map: each once, in any order. */
  ghost predicate Lists(stored: seq<StoredEntry>, entries: map<Key, Entry>)
  {
    && KeysOf(stored) == entries.Keys
    && forall i :: 0 <= i < |stored| ==> stored[i].KeyOf() in entries && stored[i] == AsWritten(entries[stored[i].KeyOf()])
  }

  /** What is written of one relationship reads back as another, or the same, is kept in memory. */
  predicate ReadsBackAs(cfg: Config, entries: map<Key, Entry>, k: Key, l: Key)
  {
    k in entries && l in entries && Reread(cfg, AsWritten(Stored(entries)[k])) == Some(Marked(entries)[l])
  }

  ghost predicate IsReadBack(cfg: Config, entries: map<Key, Entry>, l: Key) { exists k :: ReadsBackAs(cfg, entries, k, l) }

  /** Every relationship is read back from some stored one. */
  ghost predicate AllReadBack(cfg: Config, entries: map<Key, Entry>)
  {
    forall l {:trigger IsReadBack(cfg, entries, l)} :: l in entries ==> IsReadBack(cfg, entries, l)
  }

  ghost predicate WellKeyed(entries: map<Key, Entry>) { forall k :: k in entries ==> entries[k].KeyOf() == k }

  /** Each loaded entry is what one stored entry reads back as. */
  lemma {:induction false} LoadedFrom(cfg: Config, stored: seq<StoredEntry>, l: Key) returns (i: nat)
    requires l in LoadAll(cfg, stored)
    ensures i < |stored| && Reread(cfg, stored[i]) == Some(LoadAll(cfg, stored)[l])
  {
    hide Reread;
    var front, e := stored[..|stored| - 1], Reread(cfg, stored[|stored| - 1]);
    if e.Some? && e.value.KeyOf() == l {
      i := |stored| - 1;
    } else {
      i := LoadedFrom(cfg, front, l);
    }
  }

  /** When all stored entries read back as entries of a map, loading yields just those of them. */
  lemma {:induction false} LoadedInto(cfg: Config, stored: seq<StoredEntry>, entries: map<Key, Entry>)
    requires forall i :: 0 <= i < |stored| ==>
      var e := Reread(cfg, stored[i]); e.Some? && e.value.KeyOf() in entries && entries[e.value.KeyOf()] == e.value
    ensures forall l :: l in LoadAll(cfg, stored) ==> l in entries && LoadAll(cfg, stored)[l] == entries[l]
    ensures forall i :: 0 <= i < |stored| ==> Reread(cfg, stored[i]).value.KeyOf() in LoadAll(cfg, stored)
  {
    hide Reread;
    if stored != [] {
      var front := stored[..|stored| - 1];
      LoadedInto(cfg, front, entries);
      forall i | 0 <= i < |stored| ensures Reread(cfg, stored[i]).value.KeyOf() in LoadAll(cfg, stored) {
        assert i < |front| ==> stored[i] == front[i];
      }
    }
  }

  /** The stored relationship that another is read back from. */
  ghost function SourceOf(cfg: Config, entries: map<Key, Entry>, l: Key): (k: Key)
    requires AllReadBack(cfg, entries) && l in entries
    ensures ReadsBackAs(cfg, entries, k, l)
  {
    assert IsReadBack(cfg, entries, l);
    var k :| ReadsBackAs(cfg, entries, k, l);
    k
  }

  ghost function SourcesOf(cfg: Config, entries: map<Key, Entry>, ls: set<Key>): set<Key>
    requires AllReadBack(cfg, entries) && ls <= entries.Keys
  {
    set l | l in ls :: SourceOf(cfg, entries, l)
  }

  lemma SourcesDiffer(cfg: Config, entries: map<Key, Entry>, l: Key, m: Key)
    requires AllReadBack(cfg, entries) && WellKeyed(entries) && l in entries && m in entries
    ensures SourceOf(cfg, entries, l) == SourceOf(cfg, entries, m) ==> l == m
  {
    hide Reread;
    assert Marked(entries)[l].KeyOf() == l && Marked(entries)[m].KeyOf() == m;
  }

  lemma {:induction false} SourcesCount(cfg: Config, entries: map<Key, Entry>, ls: set<Key>)
    requires AllReadBack(cfg, entries) && WellKeyed(entries) && ls <= entries.Keys
    ensures |SourcesOf(cfg, entries, ls)| == |ls|
    decreases ls
  {
    hide AllReadBack, WellKeyed;
    if l :| l in ls {
      var rest := ls - {l};
      SourcesCount(cfg, entries, rest);
      forall m | m in rest ensures SourceOf(cfg, entries, l) != SourceOf(cfg, entries, m) {
        SourcesDiffer(cfg, entries, l, m);
      }
      assert SourcesOf(cfg, entries, ls) == SourcesOf(cfg, entries, rest) + {SourceOf(cfg, entries, l)};
    } else {
      assert SourcesOf(cfg, entries, ls) == {};
    }
  }

  lemma SubsetOfSameSize(part: set<Key>, whole: set<Key>)
    requires part <= whole && |part| == |whole|
    ensures part == whole
  {
    assert |whole - part| == |whole| - |part|;
  }

  /** If every relationship is read back from some stored one, every stored one is read back as some. */
  lemma AllStoredReadBack(cfg: Config, entries: map<Key, Entry>, k: Key) returns (l: Key)
    requires AllReadBack(cfg, entries) && WellKeyed(entries) && k in entries
    ensures ReadsBackAs(cfg, entries, k, l)
  {
    hide AllReadBack, Reread;
    SourcesCount(cfg, entries, entries.Keys);
    SubsetOfSameSize(SourcesOf(cfg, entries, entries.Keys), entries.Keys);
    assert k in SourcesOf(cfg, entries, entries.Keys);
    l :| l in entries && SourceOf(cfg, entries, l) == k;
  }

  lemma LoadedIsReadBack(cfg: Config, stored: seq<StoredEntry>, entries: map<Key, Entry>, l: Key) returns (k: Key)
    requires Lists(stored, Stored(entries)) && LoadAll(cfg, stored) == Marked(entries) && l in entries
    ensures ReadsBackAs(cfg, entries, k, l)
  {
    hide Reread, LoadAll, Lists, Stored, Marked, KeysOf, AsWritten, AllReadBack, WellKeyed;
    ListedKeys(stored, entries);
    var i := LoadedFrom(cfg, stored, l);
    k := stored[i].KeyOf();
  }

  lemma StoredIsReadBack(cfg: Config, stored: seq<StoredEntry>, entries: map<Key, Entry>, i: nat)
    requires Lists(stored, Stored(entries)) && AllReadBack(cfg, entries) && i < |stored|
    ensures var e := Reread(cfg, stored[i]);
      e.Some? && e.value.KeyOf() in Marked(entries) && Marked(entries)[e.value.KeyOf()] == e.value
  {
    hide Reread, LoadAll, Lists, Stored, Marked, KeysOf, AsWritten, AllReadBack, WellKeyed;
    ListedKeys(stored, entries);
    var l := AllStoredReadBack(cfg, entries, stored[i].KeyOf());
  }

  lemma ListedAt(stored: seq<StoredEntry>, k: Key) returns (i: nat)
    requires k in KeysOf(stored)
    ensures i < |stored| && stored[i].KeyOf() == k
  {
    i :| 0 <= i < |stored| && stored[i].KeyOf() == k;
  }

  lemma ReadBackIsLoaded(cfg: Config, stored: seq<StoredEntry>, entries: map<Key, Entry>, l: Key)
    requires Lists(stored, Stored(entries)) && AllReadBack(cfg, entries) && l in entries
    requires forall i :: 0 <= i < |stored| ==> Reread(cfg, stored[i]).Some? && Reread(cfg, stored[i]).value.KeyOf() in LoadAll(cfg, stored)
    ensures l in LoadAll(cfg, stored)
  {
    hide Reread, LoadAll, Lists, Stored, Marked, KeysOf, AsWritten, AllReadBack, WellKeyed;
    ListedKeys(stored, entries);
    var k := SourceOf(cfg, entries, l);
    var i := ListedAt(stored, k);
    assert Reread(cfg, stored[i]) == Some(Marked(entries)[l]);
  }

  /** Loading a written file restores every relationship, with its activity marked as saved, if and only if every
      relationship is read back from some stored one. */
  lemma ReloadAfterWriteIff(cfg: Config, stored: seq<StoredEntry>, entries: map<Key, Entry>)
    requires Lists(stored, Stored(entries))
    ensures LoadAll(cfg, stored) == Marked(entries) <==> AllReadBack(cfg, entries)
  {
    hide Reread, LoadAll, ReadsBackAs, Lists, Stored;
    if LoadAll(cfg, stored) == Marked(entries) {
      forall l | l in entries ensures IsReadBack(cfg, entries, l) {
        var k := LoadedIsReadBack(cfg, stored, entries, l);
      }
    }
    if AllReadBack(cfg, entries) {
      forall i | 0 <= i < |stored|
        ensures var e := Reread(cfg, stored[i]);
          e.Some? && e.value.KeyOf() in Marked(entries) && Marked(entries)[e.value.KeyOf()] == e.value
      {
        StoredIsReadBack(cfg, stored, entries, i);
      }
      LoadedInto(cfg, stored, Marked(entries));
      forall l | l in entries ensures l in LoadAll(cfg, stored) {
        ReadBackIsLoaded(cfg, stored, entries, l);
      }
      assert LoadAll(cfg, stored).Keys == Marked(entries).Keys;
    }
  }

  lemma ListedKeys(stored: seq<StoredEntry>, entries: map<Key, Entry>)
    requires Lists(stored, Stored(entries))
    ensures KeysOf(stored) == entries.Keys && WellKeyed(entries)
    ensures forall i :: 0 <= i < |stored| ==> stored[i].KeyOf() in entries && stored[i] == AsWritten(Stored(entries)[stored[i].KeyOf()])
    ensures Marked(entries).Keys == entries.Keys && forall k :: k in entries ==> Marked(entries)[k].KeyOf() == k
  {
    assert Stored(entries).Keys == entries.Keys;
    forall k | k in entries ensures entries[k].KeyOf() == k {
      assert k in KeysOf(stored);
    }
  }

  /** The relationship is kept in memory just as it would be loaded. */
  predicate RereadsAsIs(cfg: Config, e: Entry)
  {
    && cfg.normalize(e.local) == e.local && e.local != "" && cfg.normalize(e.correspondent) == e.correspondent && e.correspondent != ""
    && Activity(e) == e.lastActivity && (e.kind != Inbound ==> e.count == 0)
  }

  /** No stored address has another address for its canonical form. (It may still have none.) */
  predicate Settled(cfg: Config, e: Entry)
  {
    cfg.normalize(e.local) in {e.local, ""} && cfg.normalize(e.correspondent) in {e.correspondent, ""}
  }

  lemma SettledReadsBack(cfg: Config, entries: map<Key, Entry>, k: Key, l: Key)
    requires WellKeyed(entries) && k in entries && Settled(cfg, entries[k]) && ReadsBackAs(cfg, entries, k, l)
    ensures k == l && RereadsAsIs(cfg, entries[l])
  {
    assert Marked(entries)[l].KeyOf() == l;
  }

  lemma AsIsReadsBack(cfg: Config, entries: map<Key, Entry>, k: Key)
    requires k in entries && RereadsAsIs(cfg, entries[k])
    ensures ReadsBackAs(cfg, entries, k, k)
  {
  }

  /** When no stored address turns into another, nothing is lost exactly when each is its own canonical form. */
  lemma ReloadKeepsAllIff(cfg: Config, stored: seq<StoredEntry>, entries: map<Key, Entry>)
    requires Lists(stored, Stored(entries)) && forall k :: k in entries ==> Settled(cfg, entries[k])
    ensures LoadAll(cfg, stored) == Marked(entries) <==> forall k :: k in entries ==> RereadsAsIs(cfg, entries[k])
  {
    hide LoadAll, Lists, Stored, Marked, ReadsBackAs, RereadsAsIs, KeysOf, Settled, WellKeyed;
    ReloadAfterWriteIff(cfg, stored, entries);
    ListedKeys(stored, entries);
    if AllReadBack(cfg, entries) {
      forall l | l in entries ensures RereadsAsIs(cfg, entries[l]) {
        var k := SourceOf(cfg, entries, l);
        ReadBackKeys(cfg, entries, k, l);
        SettledReadsBack(cfg, entries, k, l);
      }
    }
    if forall k :: k in entries ==> RereadsAsIs(cfg, entries[k]) {
      forall l | l in entries ensures IsReadBack(cfg, entries, l) {
        AsIsReadsBack(cfg, entries, l);
      }
    }
  }

  lemma ReadBackKeys(cfg: Config, entries: map<Key, Entry>, k: Key, l: Key)
    requires ReadsBackAs(cfg, entries, k, l)
    ensures k in entries && l in entries
  {
  }

  /** An address whose canonical form is not its own: permitting it by hand is lost by the next restart. */
  lemma UnsettledIsLost(cfg: Config, address: string, now: int, stored: seq<StoredEntry>)
    requires cfg.maxEntries >= 1 && var y := cfg.normalize(address); y != "" && cfg.normalize(y) != y
    requires var k := Key(cfg.normalize(address), cfg.normalize(address));
      Lists(stored, AddManual(cfg, EMPTY, now, address, address, k, Written).0.disk)
    ensures var k := Key(cfg.normalize(address), cfg.normalize(address));
      var s := AddManual(cfg, EMPTY, now, address, address, k, Written).0;
      k in s.entries && s.disk == Stored(s.entries) && k !in LoadAll(cfg, stored)
  {
    hide KeysOf, LoadAll;
    var y := cfg.normalize(address);
    var k := Key(y, y);
    var s := AddManual(cfg, EMPTY, now, address, address, k, Written).0;
    assert Current(cfg, EMPTY.entries, now) == map[];
    assert s.entries.Keys == {k};
    ListedKeys(stored, s.entries);
    forall i | 0 <= i < |stored| ensures Reread(cfg, stored[i]).Some? ==> Reread(cfg, stored[i]).value.KeyOf() != k {
      assert stored[i].KeyOf() == k;
    }
    NotLoaded(cfg, stored, k);
  }

  lemma {:induction false} NotLoaded(cfg: Config, stored: seq<StoredEntry>, l: Key)
    requires forall i :: 0 <= i < |stored| && Reread(cfg, stored[i]).Some? ==> Reread(cfg, stored[i]).value.KeyOf() != l
    ensures l !in LoadAll(cfg, stored)
  {
    hide Reread;
    if stored != [] {
      NotLoaded(cfg, stored[..|stored| - 1], l);
    }
  }
}
