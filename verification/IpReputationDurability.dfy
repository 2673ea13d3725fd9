/**
 How far the stored expiry of a repeat block may lag behind the one in memory, over every
 run from any loaded file, whether changes are written at once or deferred to flushes that
 may fail.

 Lookups of a repeat-blocked address prolong its block in memory, but ask for a write at
 most once per refresh interval, counted from the last time the record was saved or loaded.
 Two things let the file lag further than that interval: a rejection that restarts the
 interval without setting a block, and loading, which restarts it for a block that was last
 prolonged some time ago. `LagIsBoundedIff` gives the exact bound for every configuration
 and every file.
 */
module IpReputationDurability {
  import opened Options
  import opened StateFile
  import opened IpReputation
  import opened NetworkAddress
  import opened IpReputationRuns
  import opened IpReputationFile

  /** Until writes are deferred they succeed; once they are, flushes may fail in any way. */
  ghost predicate Reliable(cfg: Config, s: State, es: seq<Event>)
  {
    es == [] ||
    (var front := es[..|es| - 1];
     Reliable(cfg, s, front) && (!AfterFrom(cfg, s, front).deferred ==> Succeeds(es[|es| - 1])))
  }

  lemma {:induction false} SuccessIsReliable(cfg: Config, s: State, es: seq<Event>)
    requires forall i :: 0 <= i < |es| ==> Succeeds(es[i])
    ensures Reliable(cfg, s, es)
  {
    if es != [] {
      SuccessIsReliable(cfg, s, es[..|es| - 1]);
    }
  }

  /** The store that loading a file leaves. */
  function FromFile(cfg: Config, disk: map<Addr, Record>, now: int): State
  {
    State(Load(cfg, disk, now), false, false, disk)
  }

  /** Lookups do not prolong blocks, or every recorded rejection sets one, or a block is short enough that one
      that does not makes little difference. */
  predicate Bounded(cfg: Config, extra: nat)
  {
    !cfg.refreshOnAttempt || cfg.shortDuration > 0 || cfg.repeatThreshold <= 1 || cfg.repeatDuration - 1 <= extra
  }

  /** Each loaded block that lookups can prolong was last prolonged at most `extra` before the file was loaded. */
  predicate Recent(cfg: Config, extra: nat, disk: map<Addr, Record>, now: int)
  {
    var entries := Load(cfg, disk, now);
    forall a :: a in entries && Movable(cfg, a) && entries[a].level == Repeat ==>
      now + cfg.repeatDuration - extra <= entries[a].until <= now + cfg.repeatDuration
  }

  /** The timer of a block against its expiry. */
  predicate Timed(cfg: Config, extra: nat, a: Addr, r: Record, t: int)
  {
    r.level == Repeat && Movable(cfg, a) ==>
      && r.persistedRefresh + cfg.repeatDuration - extra <= r.until < r.persistedRefresh + cfg.repeatDuration + cfg.refreshInterval
      && r.until <= t + cfg.repeatDuration
  }

  predicate Behind(cfg: Config, extra: nat, a: Addr, disk: map<Addr, Record>, r: Record)
  {
    r.level == Repeat ==>
      && a in disk && disk[a].level == Repeat
      && (if Movable(cfg, a) then r.persistedRefresh + cfg.repeatDuration - extra <= disk[a].until <= r.until
          else disk[a].until == r.until)
  }

  ghost predicate AllTimed(cfg: Config, extra: nat, entries: map<Addr, Record>, t: int)
  {
    forall a {:trigger Timed(cfg, extra, a, entries[a], t)} :: a in entries ==> Timed(cfg, extra, a, entries[a], t)
  }

  ghost predicate AllBehind(cfg: Config, extra: nat, disk: map<Addr, Record>, entries: map<Addr, Record>)
  {
    forall a {:trigger Behind(cfg, extra, a, disk, entries[a])} :: a in entries ==> Behind(cfg, extra, a, disk, entries[a])
  }

  ghost predicate Lags(cfg: Config, extra: nat, s: State, t: int)
  {
    && (s.dirty ==> s.deferred) && AllTimed(cfg, extra, s.entries, t)
    && (!s.dirty ==> AllBehind(cfg, extra, s.disk, s.entries))
  }

  /** Every repeat block in memory is one in the file too, and its stored expiry is at most the one in memory and
      less than one refresh interval, and `extra`, behind it. */
  ghost predicate BlocksFollow(cfg: Config, extra: nat, disk: map<Addr, Record>, entries: map<Addr, Record>)
  {
    forall a {:trigger BlockFollows(cfg, extra, a, disk, entries[a])} :: a in entries ==> BlockFollows(cfg, extra, a, disk, entries[a])
  }

  predicate BlockFollows(cfg: Config, extra: nat, a: Addr, disk: map<Addr, Record>, r: Record)
  {
    r.level == Repeat ==> a in disk && disk[a].level == Repeat && 0 <= r.until - disk[a].until < cfg.refreshInterval + extra
  }

  /** So it is whenever the store is not waiting for a flush. */
  ghost predicate FileFollows(cfg: Config, extra: nat, s: State)
  {
    (s.dirty ==> s.deferred) && (!s.dirty ==> BlocksFollow(cfg, extra, s.disk, s.entries))
  }

  // ---------------------------------------------------------------- the bound holds

  lemma FateTimed(cfg: Config, extra: nat, s: State, t: int, e: Event, a: Addr)
    requires cfg.Sane() && Bounded(cfg, extra) && AllTimed(cfg, extra, s.entries, t) && t <= e.now
    requires Fate(cfg, s, e, a).Some?
    ensures Timed(cfg, extra, a, Fate(cfg, s, e, a).value, e.now)
  {
    hide Prune;
    if a in s.entries {
      assert Timed(cfg, extra, a, s.entries[a], t);
    }
  }

  lemma StepTimed(cfg: Config, extra: nat, s: State, t: int, e: Event)
    requires cfg.Sane() && Bounded(cfg, extra) && AllTimed(cfg, extra, s.entries, t) && t <= e.now
    ensures AllTimed(cfg, extra, Step(cfg, s, e).entries, e.now)
  {
    hide Step, Fate, Timed;
    var s' := Step(cfg, s, e);
    forall a | a in s'.entries ensures Timed(cfg, extra, a, s'.entries[a], e.now) {
      FateHolds(cfg, s, e, a);
      FateTimed(cfg, extra, s, t, e, a);
    }
  }

  lemma WrittenIsBehind(cfg: Config, extra: nat, entries: map<Addr, Record>, t: int)
    requires AllTimed(cfg, extra, entries, t)
    ensures AllBehind(cfg, extra, Stored(entries), entries)
  {
    forall a | a in entries ensures Behind(cfg, extra, a, Stored(entries), entries[a]) {
      assert Timed(cfg, extra, a, entries[a], t);
    }
  }

  lemma UnsavedIsBehind(cfg: Config, extra: nat, disk: map<Addr, Record>, s: State, t: int, s': State, now: int)
    requires AllTimed(cfg, extra, s.entries, t) && AllBehind(cfg, extra, disk, s.entries) && t <= now
    requires OnlyUnsaved(cfg, s, s', now)
    ensures AllBehind(cfg, extra, disk, s'.entries)
  {
    hide Prune;
    forall a | a in s'.entries ensures Behind(cfg, extra, a, disk, s'.entries[a]) {
      assert Timed(cfg, extra, a, s.entries[a], t) && Behind(cfg, extra, a, disk, s.entries[a]);
    }
  }

  lemma StepLags(cfg: Config, extra: nat, s: State, t: int, e: Event)
    requires cfg.Sane() && cfg.hasFile && Bounded(cfg, extra)
    requires Lags(cfg, extra, s, t) && t <= e.now && (s.deferred || Succeeds(e))
    ensures Lags(cfg, extra, Step(cfg, s, e), e.now)
  {
    hide Step, AllTimed, AllBehind, OnlyUnsaved;
    var s' := Step(cfg, s, e);
    StepTimed(cfg, extra, s, t, e);
    StepSaves(cfg, s, e);
    WrittenIsBehind(cfg, extra, s'.entries, e.now);
    if OnlyUnsaved(cfg, s, s', e.now) {
      SameFile(cfg, s, s', e.now);
      if !s'.dirty {
        UnsavedIsBehind(cfg, extra, s.disk, s, t, s', e.now);
      }
    }
  }

  lemma SameFile(cfg: Config, s: State, s': State, now: int)
    requires OnlyUnsaved(cfg, s, s', now)
    ensures s'.disk == s.disk && s'.dirty == s.dirty
  {
  }

  lemma LoadedLags(cfg: Config, extra: nat, disk: map<Addr, Record>, now: int)
    requires cfg.Sane() && Recent(cfg, extra, disk, now)
    ensures AllTimed(cfg, extra, Load(cfg, disk, now), now) && AllBehind(cfg, extra, Accepted(cfg, disk), Load(cfg, disk, now))
    ensures AllBehind(cfg, extra, disk, Load(cfg, disk, now))
  {
    hide Prune;
  }

  lemma LaggingFollows(cfg: Config, extra: nat, disk: map<Addr, Record>, entries: map<Addr, Record>, t: int)
    requires cfg.Sane() && AllTimed(cfg, extra, entries, t) && AllBehind(cfg, extra, disk, entries)
    ensures BlocksFollow(cfg, extra, disk, entries)
  {
    forall a | a in entries && entries[a].level == Repeat
      ensures a in disk && disk[a].level == Repeat && 0 <= entries[a].until - disk[a].until < cfg.refreshInterval + extra
    {
      assert Timed(cfg, extra, a, entries[a], t) && Behind(cfg, extra, a, disk, entries[a]);
    }
  }

  /** Over every run from a file whose blocks are recent enough, the file follows memory. */
  lemma {:induction false} DiskLagIsBounded(cfg: Config, extra: nat, s: State, start: int, es: seq<Event>)
    requires cfg.Sane() && cfg.hasFile && Bounded(cfg, extra) && Lags(cfg, extra, s, start)
    requires RunFrom(cfg, s, start, es) && Reliable(cfg, s, es)
    ensures Lags(cfg, extra, AfterFrom(cfg, s, es), ClockFrom(start, es)) && FileFollows(cfg, extra, AfterFrom(cfg, s, es))
  {
    hide Step, Legal, AllTimed, AllBehind, BlocksFollow;
    if es != [] {
      var front := es[..|es| - 1];
      DiskLagIsBounded(cfg, extra, s, start, front);
      StepLags(cfg, extra, AfterFrom(cfg, s, front), ClockFrom(start, front), es[|es| - 1]);
    }
    var t := AfterFrom(cfg, s, es);
    if !t.dirty {
      LaggingFollows(cfg, extra, t.disk, t.entries, ClockFrom(start, es));
    }
  }

  /** In particular, from an empty store with a positive short duration the lag is below one refresh interval. */
  lemma FollowsFromEmptyStore(cfg: Config, es: seq<Event>)
    requires cfg.Sane() && cfg.hasFile && cfg.shortDuration > 0 && Run(cfg, es) && Reliable(cfg, EMPTY, es)
    ensures FileFollows(cfg, 0, After(cfg, es))
  {
    hide FileFollows;
    DiskLagIsBounded(cfg, 0, EMPTY, 0, es);
  }

  // ---------------------------------------------------------------- the bound is exact

  /** Connection attempts of `a` at `from` and every instant after it. */
  function Attempts(a: Addr, from: int, n: nat): seq<Event>
  {
    if n == 0 then [] else Attempts(a, from, n - 1) + [Event(from + n - 1, Attempt(a, Written))]
  }

  /** `n` attempts after the timer of a block was restarted at `from`; the file still holds the old expiry. */
  ghost predicate Lagging(cfg: Config, s: State, a: Addr, from: int, stored: int, n: nat)
  {
    && !s.deferred && !s.dirty
    && a in s.entries && s.entries[a].level == Repeat && s.entries[a].persistedRefresh == from
    && s.entries[a].until == (if n == 0 then stored else from + n - 1 + cfg.repeatDuration)
    && a in s.disk && s.disk[a].until == stored
  }

  lemma AttemptProlongs(cfg: Config, s: State, a: Addr, from: int, stored: int, n: nat)
    requires cfg.Enabled() && Movable(cfg, a) && from < stored && n < cfg.refreshInterval && (n > 0 ==> cfg.repeatDuration > 1)
    requires Lagging(cfg, s, a, from, stored, n)
    ensures Lagging(cfg, Step(cfg, s, Event(from + n, Attempt(a, Written))), a, from, stored, n + 1)
  {
    hide Prune;
  }

  lemma {:induction false} AttemptsProlong(cfg: Config, s: State, start: int, a: Addr, from: int, stored: int, n: nat)
    requires cfg.Enabled() && Movable(cfg, a) && start <= from < stored && n <= cfg.refreshInterval && (n > 1 ==> cfg.repeatDuration > 1)
    requires Lagging(cfg, s, a, from, stored, 0)
    ensures var es := Attempts(a, from, n);
      && RunFrom(cfg, s, start, es) && (forall i :: 0 <= i < |es| ==> Succeeds(es[i]))
      && Lagging(cfg, AfterFrom(cfg, s, es), a, from, stored, n) && ClockFrom(start, es) == (if n == 0 then start else from + n - 1)
  {
    hide Step, Lagging, RunFrom, AfterFrom, ClockFrom;
    if n == 0 {
      NoRun(cfg, s, start);
    } else {
      AttemptsProlong(cfg, s, start, a, from, stored, n - 1);
      var front, e := Attempts(a, from, n - 1), Event(from + n - 1, Attempt(a, Written));
      assert Attempts(a, from, n) == front + [e];
      AttemptProlongs(cfg, AfterFrom(cfg, s, front), a, from, stored, n - 1);
      RunSnoc(cfg, s, start, front, e);
    }
  }

  lemma NoRun(cfg: Config, s: State, start: int)
    ensures RunFrom(cfg, s, start, []) && AfterFrom(cfg, s, []) == s && ClockFrom(start, []) == start
  {
  }

  lemma RunSnoc(cfg: Config, s: State, start: int, front: seq<Event>, e: Event)
    requires RunFrom(cfg, s, start, front) && ClockFrom(start, front) <= e.now && Legal(cfg, AfterFrom(cfg, s, front), e)
    ensures RunFrom(cfg, s, start, front + [e]) && AfterFrom(cfg, s, front + [e]) == Step(cfg, AfterFrom(cfg, s, front), e)
    ensures ClockFrom(start, front + [e]) == e.now
  {
    hide Step;
    assert (front + [e])[..|front|] == front;
  }

  /** A loaded block that was last prolonged too long ago, or ends later than one set now would: looking its
      address up as soon as the file is loaded, and on until the interval ends, breaks the bound. */
  lemma StaleBlockLags(cfg: Config, extra: nat, disk: map<Addr, Record>, now: int, a: Addr) returns (es: seq<Event>)
    requires cfg.Sane() && cfg.Enabled() && a in Load(cfg, disk, now) && Movable(cfg, a)
    requires var r := Load(cfg, disk, now)[a];
      r.level == Repeat && !(now + cfg.repeatDuration - extra <= r.until <= now + cfg.repeatDuration)
    ensures var s := FromFile(cfg, disk, now);
      RunFrom(cfg, s, now, es) && Reliable(cfg, s, es) && !FileFollows(cfg, extra, AfterFrom(cfg, s, es))
  {
    hide Prune, AfterFrom, RunFrom, Step;
    var s, stored := FromFile(cfg, disk, now), Load(cfg, disk, now)[a].until;
    assert now < stored;
    var n := if stored > now + cfg.repeatDuration then 1 else cfg.refreshInterval;
    es := Attempts(a, now, n);
    AttemptsProlong(cfg, s, now, a, now, stored, n);
    SuccessIsReliable(cfg, s, es);
    var t := AfterFrom(cfg, s, es);
    assert t.entries[a].until - t.disk[a].until == now + n - 1 + cfg.repeatDuration - stored;
    assert !BlockFollows(cfg, extra, a, t.disk, t.entries[a]);
  }

  /** A record that eviction may pick exists whenever there are records. */
  lemma {:induction false} VictimExists(entries: map<Addr, Record>) returns (v: Addr)
    requires entries != map[]
    ensures IsVictim(entries, v)
    decreases entries
  {
    var a :| a in entries;
    var rest := entries - {a};
    if rest == map[] {
      v := a;
      assert forall b :: b in entries && b != a ==> b in rest;
    } else {
      var w := VictimExists(rest);
      v := if NoMoreProtected(entries[a], entries[w]) then a else w;
      assert forall b :: b in entries && b != a ==> b in rest && rest[b] == entries[b];
    }
  }

  /** Unblocks and blocks an address, and rejects mail from it at the last instant of the block. */
  function Renewal(cfg: Config, a: Addr, now: int, victim: Addr): seq<Event>
  {
    [Event(now, Unblock(a, Written)), Event(now, Block(a, victim, Written)),
     Event(now + cfg.repeatDuration - 1, Rejection(a, "unwanted", 1.0, false, Addr.Invalid, Written, Written))]
  }

  lemma FirstStrike(cfg: Config, r: Record, now: int)
    requires cfg.repeatThreshold > 1 && cfg.shortDuration <= 0 && r.strikes == []
    ensures Rejected(cfg, r, now, "unwanted", 1.0) ==
      r.(strikes := [now], classification := "unwanted", score := 1.0, lastActivity := now, legitimate := 0, persistedRefresh := now)
  {
  }

  lemma UnblockThenBlock(cfg: Config, s: State, now: int, a: Addr, victim: Addr)
    requires cfg.Sane() && cfg.hasFile && cfg.Enabled() && cfg.repeatDuration > 0 && cfg.Tracked(a) && a.Unmap() == a
    requires !s.deferred && !s.dirty
    ensures var es := Renewal(cfg, a, now, victim);
      var t := Step(cfg, Step(cfg, s, es[0]), es[1]);
      && !t.deferred && !t.dirty && a !in Step(cfg, s, es[0]).entries
      && a in t.entries && t.entries[a] == ManualRecord(cfg, EMPTY_RECORD, now)
  {
    hide Save, MakeRoom, Step;
    var es := Renewal(cfg, a, now, victim);
    var s1 := Step(cfg, s, es[0]);
    FateHolds(cfg, s, es[0], a);
    FateHolds(cfg, s1, es[1], a);
    ImmediateStays(cfg, s, es[0]);
    ImmediateStays(cfg, s1, es[1]);
  }

  lemma ImmediateStays(cfg: Config, s: State, e: Event)
    requires !s.deferred && !s.dirty && !e.op.Defer? && (e.op.Unblock? || e.op.Block? || e.op.Rejection?)
    ensures !Step(cfg, s, e).deferred && !Step(cfg, s, e).dirty
  {
    hide CleanedEntries, Rejected, ManualRecord, MakeRoom, Stored, Changes;
  }

  /** The rejection restarts the timer and leaves the block. */
  lemma RejectionRestarts(cfg: Config, s: State, now: int, a: Addr)
    requires cfg.Sane() && cfg.hasFile && cfg.Enabled() && cfg.repeatDuration > 1 && cfg.Tracked(a) && a.Unmap() == a
    requires cfg.repeatThreshold > 1 && cfg.shortDuration == 0
    requires !s.deferred && !s.dirty && a in s.entries && s.entries[a] == ManualRecord(cfg, EMPTY_RECORD, now)
    ensures var e := Renewal(cfg, a, now, a)[2];
      a in CleanedEntries(cfg, s.entries, e.now)
      && Lagging(cfg, Step(cfg, s, e), a, now + cfg.repeatDuration - 1, now + cfg.repeatDuration, 0)
  {
    var e := Renewal(cfg, a, now, a)[2];
    var r := ManualRecord(cfg, EMPTY_RECORD, now);
    PrunedNothingOfNothing(cfg, e.now);
    hide Prune;
    assert Cleaned(cfg, r, e.now) == r;
    FirstStrike(cfg, r, e.now);
    hide Rejected, Step, Fate;
    var s' := Step(cfg, s, e);
    FateHolds(cfg, s, e, a);
    RejectionFateIs(cfg, s, e, a, r);
    ImmediateStays(cfg, s, e);
    RejectionWrites(cfg, s, e);
  }

  lemma RejectionFateIs(cfg: Config, s: State, e: Event, a: Addr, r: Record)
    requires e.op.Rejection? && Acts(cfg, s, e) && a == Key(e) && a in s.entries && s.entries[a] == r
    requires Survives(cfg, r, e.now) && Cleaned(cfg, r, e.now) == r
    ensures Fate(cfg, s, e, a) == Some(Rejected(cfg, r, e.now, e.op.classification, e.op.score))
    ensures a in CleanedEntries(cfg, s.entries, e.now)
  {
    hide Rejected, Survives, Cleaned;
  }

  lemma RejectionWrites(cfg: Config, s: State, e: Event)
    requires cfg.hasFile && !s.deferred && !s.dirty && Acts(cfg, s, e) && e.op.Rejection? && e.op.second == Written
    ensures Step(cfg, s, e).disk == Stored(Step(cfg, s, e).entries)
  {
    hide CleanedEntries, Rejected, MakeRoom, Stored, Changes;
  }

  lemma RenewalIsLegal(cfg: Config, s: State, s1: State, s2: State, now: int, a: Addr, victim: Addr)
    requires s1.entries != map[] ==> IsVictim(s1.entries, victim)
    requires cfg.Sane() && a.Unmap() == a && a in CleanedEntries(cfg, s2.entries, now + cfg.repeatDuration - 1)
    ensures var es := Renewal(cfg, a, now, victim); Legal(cfg, s, es[0]) && Legal(cfg, s1, es[1]) && Legal(cfg, s2, es[2])
  {
    hide CleanedEntries, IsVictim;
    assert |s1.entries| >= cfg.maxSize ==> s1.entries != map[];
  }

  lemma ThreeSteps(cfg: Config, s: State, start: int, es: seq<Event>)
    requires |es| == 3 && start <= es[0].now <= es[1].now <= es[2].now
    requires var s1 := Step(cfg, s, es[0]); var s2 := Step(cfg, s1, es[1]);
      Legal(cfg, s, es[0]) && Legal(cfg, s1, es[1]) && Legal(cfg, s2, es[2])
    ensures RunFrom(cfg, s, start, es) && ClockFrom(start, es) == es[2].now
    ensures AfterFrom(cfg, s, es) == Step(cfg, Step(cfg, Step(cfg, s, es[0]), es[1]), es[2])
  {
    hide Step, Legal, RunFrom, AfterFrom, ClockFrom;
    NoRun(cfg, s, start);
    RunSnoc(cfg, s, start, [], es[0]);
    assert [] + [es[0]] == es[..1];
    RunSnoc(cfg, s, start, es[..1], es[1]);
    assert es[..1] + [es[1]] == es[..2];
    RunSnoc(cfg, s, start, es[..2], es[2]);
    assert es[..2] + [es[2]] == es;
  }

  /** With a rejection that sets no block the file falls behind whatever was loaded. */
  lemma UnrenewedBlockLags(cfg: Config, extra: nat, disk: map<Addr, Record>, now: int, a: Addr) returns (es: seq<Event>)
    requires cfg.Sane() && cfg.hasFile && cfg.Enabled() && !Bounded(cfg, extra) && cfg.Tracked(a) && a.Unmap() == a
    ensures var s := FromFile(cfg, disk, now);
      RunFrom(cfg, s, now, es) && Reliable(cfg, s, es) && !FileFollows(cfg, extra, AfterFrom(cfg, s, es))
  {
    hide Prune, Step, Lagging, AfterFrom, RunFrom, Legal, Load, ManualRecord, CleanedEntries;
    var s := FromFile(cfg, disk, now);
    var s1 := Step(cfg, s, Renewal(cfg, a, now, a)[0]);
    var victim := a;
    if s1.entries != map[] {
      victim := VictimExists(s1.entries);
    }
    var first := Renewal(cfg, a, now, victim);
    var s2 := Step(cfg, s1, first[1]);
    UnblockThenBlock(cfg, s, now, a, victim);
    RejectionRestarts(cfg, s2, now, a);
    var s3 := Step(cfg, s2, first[2]);
    RenewalIsLegal(cfg, s, s1, s2, now, a, victim);
    ThreeSteps(cfg, s, now, first);
    var from := now + cfg.repeatDuration - 1;
    AttemptsProlong(cfg, s3, from, a, from, from + 1, cfg.refreshInterval);
    es := first + Attempts(a, from, cfg.refreshInterval);
    RunConcat(cfg, s, now, first, Attempts(a, from, cfg.refreshInterval));
    assert forall i :: 0 <= i < |es| ==> Succeeds(es[i]);
    SuccessIsReliable(cfg, s, es);
    var t := AfterFrom(cfg, s, es);
    LaggingGap(cfg, t, a, from, from + 1, cfg.refreshInterval);
    assert !BlockFollows(cfg, extra, a, t.disk, t.entries[a]);
  }

  lemma LaggingGap(cfg: Config, s: State, a: Addr, from: int, stored: int, n: nat)
    requires Lagging(cfg, s, a, from, stored, n) && n > 0
    ensures !s.dirty && a in s.entries && s.entries[a].level == Repeat && a in s.disk
    ensures s.entries[a].until - s.disk[a].until == from + n - 1 + cfg.repeatDuration - stored
  {
  }

  lemma {:induction false} RunConcat(cfg: Config, s: State, start: int, a: seq<Event>, b: seq<Event>)
    requires RunFrom(cfg, s, start, a) && RunFrom(cfg, AfterFrom(cfg, s, a), ClockFrom(start, a), b)
    ensures RunFrom(cfg, s, start, a + b) && AfterFrom(cfg, s, a + b) == AfterFrom(cfg, AfterFrom(cfg, s, a), b)
    decreases |b|
  {
    hide Step, Legal;
    if b == [] {
      assert a + b == a;
    } else {
      assert (a + b)[..|a + b| - 1] == a + b[..|b| - 1];
      RunConcat(cfg, s, start, a, b[..|b| - 1]);
    }
  }

  /** For every configuration and every file, if some address is tracked at all: over every run from that file the
      lag is below one refresh interval and `extra` if and only if rejections cannot add more than `extra`, and no
      loaded block that lookups can prolong was last prolonged more than `extra` before it was loaded. */
  lemma LagIsBoundedIff(cfg: Config, extra: nat, disk: map<Addr, Record>, now: int, tracked: Addr)
    requires cfg.Sane() && cfg.hasFile && cfg.Enabled() && cfg.Tracked(tracked) && tracked.Unmap() == tracked
    ensures Bounded(cfg, extra) && Recent(cfg, extra, disk, now) <==>
      forall es :: var s := FromFile(cfg, disk, now);
        RunFrom(cfg, s, now, es) && Reliable(cfg, s, es) ==> FileFollows(cfg, extra, AfterFrom(cfg, s, es))
  {
    hide AfterFrom, RunFrom, Reliable, FileFollows, AllTimed, AllBehind;
    var s := FromFile(cfg, disk, now);
    if !Bounded(cfg, extra) {
      var es := UnrenewedBlockLags(cfg, extra, disk, now, tracked);
      assert RunFrom(cfg, s, now, es) && Reliable(cfg, s, es) && !FileFollows(cfg, extra, AfterFrom(cfg, s, es));
    } else if !Recent(cfg, extra, disk, now) {
      hide Load;
      var entries := Load(cfg, disk, now);
      var a :| a in entries && Movable(cfg, a) && entries[a].level == Repeat
        && !(now + cfg.repeatDuration - extra <= entries[a].until <= now + cfg.repeatDuration);
      var es := StaleBlockLags(cfg, extra, disk, now, a);
      assert RunFrom(cfg, s, now, es) && Reliable(cfg, s, es) && !FileFollows(cfg, extra, AfterFrom(cfg, s, es));
    } else {
      LoadedLags(cfg, extra, disk, now);
      forall es | RunFrom(cfg, s, now, es) && Reliable(cfg, s, es) ensures FileFollows(cfg, extra, AfterFrom(cfg, s, es)) {
        DiskLagIsBounded(cfg, extra, s, now, es);
      }
    }
  }

  /** A restart in seconds: a block of thirty days with a day left is loaded, its address connects a second
      later, and the file is 29 days behind, with nothing marked for the next flush. */
  lemma RestartLeavesFileBehind(a: Addr, now: int, deferred: bool)
    requires a.Valid() && a.Unmap() == a
    ensures var cfg := Config(3600, 3, 2592000, 2592000, true, 300, 3, 10000, true, (x: Addr) => false);
      var disk := map[a := Record([], Repeat, now + 86400, "unwanted", 1.0, 0, now - 100, 0)];
      var s := Step(cfg, State(Load(cfg, disk, now), deferred, false, disk), Event(now + 1, Attempt(a, Written)));
      && cfg.Sane() && cfg.Enabled() && Bounded(cfg, 0) && !s.dirty
      && a in s.entries && a in s.disk && s.entries[a].until - s.disk[a].until == 2505601
  {
    var cfg := Config(3600, 3, 2592000, 2592000, true, 300, 3, 10000, true, (x: Addr) => false);
    PrunedNothingOfNothing(cfg, now);
    PrunedNothingOfNothing(cfg, now + 1);
    hide Prune;
  }
}
