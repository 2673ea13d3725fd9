/**
 What an immediate save does not cover. With writes not deferred and all of them succeeding,
 an operation may still change memory without writing the file. For each of the three stores
 one lemma says, over every operation, exactly when a step from a file that holds everything
 leaves such a file: when it does not withhold a change. Each kind of withheld change has an
 input.
 */
module Throttling {
  import opened Addresses
  import opened BoundedHistory
  import opened Options
  import opened StableSort
  import opened StateFile
  import C = Correspondents
  import CD = CorrespondentDurability
  import CR = CorrespondentRuns
  import F = IpReputationFile
  import I = IpReputation
  import IR = IpReputationRuns
  import N = NetworkAddress
  import R = RejectionHistory
  import RR = RejectionHistoryRuns

  // ---------------------------------------------------------------- sending-IP reputation: lookups

  /** The lookup ends a block, drops an empty record, or refreshes a block whose last refresh is long past. */
  predicate LookupSaves(cfg: I.Config, r: I.Record, now: int)
  {
    || I.Expired(r, now)
    || (r.level == I.NoBlock && I.Prune(cfg, r.strikes, now) == [])
    || (r.level == I.Repeat && cfg.refreshOnAttempt && I.RefreshDue(cfg, r, now))
  }

  /** The lookup finds nothing to prune and no block to prolong. */
  predicate LookupIsIdle(cfg: I.Config, r: I.Record, now: int)
  {
    && I.Prune(cfg, r.strikes, now) == r.strikes
    && (r.level == I.Repeat && cfg.refreshOnAttempt ==> r.until == now + cfg.repeatDuration && r.lastActivity == now)
  }

  /** From a file that holds everything, an immediate lookup leaves one if and only if it saves or is idle. */
  lemma LookupIsWrittenIff(cfg: I.Config, s: I.State, now: int, a: N.Addr)
    requires cfg.Enabled() && cfg.hasFile && cfg.Tracked(a) && a.Unmap() in s.entries && !s.deferred && I.AllWritten(s)
    ensures I.AllWritten(I.Lookup(cfg, s, now, a, Written).0) <==>
      LookupSaves(cfg, s.entries[a.Unmap()], now) || LookupIsIdle(cfg, s.entries[a.Unmap()], now)
  {
    hide I.Prune;
    var k := a.Unmap();
    var r := s.entries[k];
    var c := I.LookupChange(cfg, r, now);
    if !c.save {
      StoredPut(s.entries, k, c.record.value);
    }
  }

  lemma StoredPut(entries: map<N.Addr, I.Record>, k: N.Addr, r: I.Record)
    requires k in entries
    ensures I.Stored(entries[k := r]) == I.Stored(entries) <==> r.(persistedRefresh := 0) == entries[k].(persistedRefresh := 0)
  {
    assert I.Stored(entries[k := r])[k] == r.(persistedRefresh := 0);
    if r.(persistedRefresh := 0) == entries[k].(persistedRefresh := 0) {
      assert I.Stored(entries[k := r]).Keys == I.Stored(entries).Keys;
    }
  }

  /** An address blocked by hand that connects one second later: memory has the later expiry, the file the earlier. */
  lemma PromptLookupIsNotWritten(addr: N.Addr)
    requires addr.Valid()
    ensures var cfg := I.Config(3600, 3, 2592000, 2592000, true, 300, 3, 10000, true, (x: N.Addr) => false);
      var blocked := I.ManualAdd(cfg, I.State(map[], false, false, map[]), 1, addr, addr, Written).0;
      var s := I.Lookup(cfg, blocked, 2, addr, Written).0;
      && I.AllWritten(blocked) && !s.deferred && !s.dirty
      && addr.Unmap() in s.entries && s.entries[addr.Unmap()].until == 2592002
      && addr.Unmap() in s.disk && s.disk[addr.Unmap()].until == 2592001
  {
    var cfg := I.Config(3600, 3, 2592000, 2592000, true, 300, 3, 10000, true, (x: N.Addr) => false);
    F.PrunedNothingOfNothing(cfg, 2);
    hide I.Prune;
  }

  // ---------------------------------------------------------------- sending-IP reputation: evidence and listings

  /** Legitimate evidence credits a strike that is left, or drops a record that nothing keeps. */
  predicate LegitimateSaves(cfg: I.Config, r: I.Record, now: int)
  {
    I.Prune(cfg, r.strikes, now) != [] || r.level == I.NoBlock || r.until <= now
  }

  /** The record is kept by its block alone, and has no strikes or credit to lose. */
  predicate LegitimateIsIdle(r: I.Record) { r.strikes == [] && r.legitimate == 0 }

  lemma LegitimateIsWrittenIff(cfg: I.Config, s: I.State, now: int, a: N.Addr)
    requires cfg.Enabled() && cfg.hasFile && cfg.legitimatePerStrike > 0 && a.Valid() && a.Unmap() in s.entries
    requires !s.deferred && I.AllWritten(s)
    ensures I.AllWritten(I.RecordLegitimate(cfg, s, now, a, Written)) <==>
      LegitimateSaves(cfg, s.entries[a.Unmap()], now) || LegitimateIsIdle(s.entries[a.Unmap()])
  {
    F.PrunedNothingOfNothing(cfg, now);
    hide I.Prune, I.Credited;
    var k := a.Unmap();
    var c := I.LegitimateChange(cfg, s.entries[k], now);
    if !c.save {
      StoredPut(s.entries, k, c.record.value);
    }
  }

  /** Listing saves if and only if it ends or drops something, but prunes strikes in any case. */
  lemma ListIsWrittenIff(cfg: I.Config, s: I.State, now: int)
    requires cfg.Enabled() && cfg.hasFile && !s.deferred && I.AllWritten(s)
    ensures I.AllWritten(I.ListActive(cfg, s, now, Written).0) <==>
      || (exists a :: a in s.entries && I.Changes(cfg, s.entries[a], now))
      || (forall a :: a in s.entries ==> I.Prune(cfg, s.entries[a].strikes, now) == s.entries[a].strikes)
  {
    hide I.Prune, I.Survives;
    var cleaned := I.CleanedEntries(cfg, s.entries, now);
    if forall a :: a in s.entries ==> !I.Changes(cfg, s.entries[a], now) {
      StoredPruned(cfg, s.entries, now);
    }
  }

  lemma StoredPruned(cfg: I.Config, entries: map<N.Addr, I.Record>, now: int)
    requires forall a :: a in entries ==> !I.Changes(cfg, entries[a], now)
    ensures I.Stored(I.CleanedEntries(cfg, entries, now)) == I.Stored(entries) <==>
      forall a :: a in entries ==> I.Prune(cfg, entries[a].strikes, now) == entries[a].strikes
  {
    hide I.Prune, I.Survives;
    var cleaned := I.CleanedEntries(cfg, entries, now);
    assert cleaned.Keys == entries.Keys;
    if I.Stored(cleaned) == I.Stored(entries) {
      forall a | a in entries ensures I.Prune(cfg, entries[a].strikes, now) == entries[a].strikes {
        assert I.Stored(cleaned)[a] == I.Stored(entries)[a];
      }
    }
  }

  /** The step changes a record in memory and keeps it from the file. */
  ghost predicate AddressWithheld(cfg: I.Config, s: I.State, e: IR.Event)
  {
    match e.op
    case Attempt(addr, _) =>
      && cfg.Enabled() && cfg.Tracked(addr) && addr.Unmap() in s.entries
      && !LookupSaves(cfg, s.entries[addr.Unmap()], e.now) && !LookupIsIdle(cfg, s.entries[addr.Unmap()], e.now)
    case Legitimate(addr, _) =>
      && cfg.Enabled() && cfg.legitimatePerStrike > 0 && addr.Valid() && addr.Unmap() in s.entries
      && !LegitimateSaves(cfg, s.entries[addr.Unmap()], e.now) && !LegitimateIsIdle(s.entries[addr.Unmap()])
    case List(_) =>
      && cfg.Enabled()
      && (forall a :: a in s.entries ==> !I.Changes(cfg, s.entries[a], e.now))
      && (exists a :: a in s.entries && I.Prune(cfg, s.entries[a].strikes, e.now) != s.entries[a].strikes)
    case Rejection(_, _, _, _, _, _, _) => false
    case Block(_, _, _) => false
    case Unblock(_, _) => false
    case FlushFile(_) => false
    case Defer => false
  }

  /** The step asks for the file to be written. */
  ghost predicate AddressAsks(cfg: I.Config, s: I.State, e: IR.Event)
  {
    match e.op
    case Rejection(addr, _, _, exempt, _, _, _) => cfg.Enabled() && cfg.Tracked(addr) && !exempt
    case Legitimate(addr, _) =>
      && cfg.Enabled() && cfg.legitimatePerStrike > 0 && addr.Valid() && addr.Unmap() in s.entries
      && LegitimateSaves(cfg, s.entries[addr.Unmap()], e.now)
    case Attempt(addr, _) =>
      cfg.Enabled() && cfg.Tracked(addr) && addr.Unmap() in s.entries && LookupSaves(cfg, s.entries[addr.Unmap()], e.now)
    case Block(addr, _, _) => cfg.Enabled() && cfg.Tracked(addr) && I.ManualDuration(cfg) > 0
    case Unblock(addr, _) => addr.Valid() && addr.Unmap() in s.entries
    case List(_) => cfg.Enabled() && exists a :: a in s.entries && I.Changes(cfg, s.entries[a], e.now)
    case FlushFile(_) => s.dirty
    case Defer => false
  }

  /** How the write of a step, the last of them if it has two, ends. */
  function AddressOutcome(e: IR.Event): Outcome
  {
    match e.op
    case Rejection(_, _, _, _, _, _, second) => second
    case Legitimate(_, write) => write
    case Attempt(_, write) => write
    case Block(_, _, write) => write
    case Unblock(_, write) => write
    case List(write) => write
    case FlushFile(write) => write
    case Defer => Written
  }

  /** A write is completed that succeeds, or fails late and is not undone. */
  predicate Completes(undoes: bool, o: Outcome) { o == Written || (o == FailedAfterReplace && !undoes) }

  ghost predicate AddressWrote(cfg: I.Config, s: I.State, e: IR.Event)
  {
    AddressAsks(cfg, s, e) && Completes(e.op.Block? || e.op.Unblock?, AddressOutcome(e))
  }

  /** Whatever file a step begins with, it leaves one that holds everything if it completes a write. */
  lemma AddressWriteCompletes(cfg: I.Config, s: I.State, e: IR.Event)
    requires cfg.hasFile && !s.deferred && AddressWrote(cfg, s, e)
    ensures I.AllWritten(IR.Step(cfg, s, e))
  {
    hide I.Stored, I.CleanedEntries, I.Rejected, I.MakeRoom, I.Changes, I.ManualRecord, I.Prune, I.Credited;
  }

  /** A step that asks for no write spoils the file if and only if it withholds a change. */
  lemma AddressQuietStep(cfg: I.Config, s: I.State, e: IR.Event)
    requires cfg.hasFile && !s.deferred && I.AllWritten(s) && !AddressAsks(cfg, s, e)
    ensures I.AllWritten(IR.Step(cfg, s, e)) <==> !AddressWithheld(cfg, s, e)
  {
    hide I.Stored, I.CleanedEntries, I.Prune, I.Survives, I.Changes, I.Credited, LegitimateIsIdle, LookupIsIdle;
    match e.op {
      case Attempt(addr, _) =>
        if cfg.Enabled() && cfg.Tracked(addr) && addr.Unmap() in s.entries {
          LookupIsWrittenIff(cfg, s, e.now, addr);
        }
      case Legitimate(addr, _) =>
        if cfg.Enabled() && cfg.legitimatePerStrike > 0 && addr.Valid() && addr.Unmap() in s.entries {
          LegitimateIsWrittenIff(cfg, s, e.now, addr);
        }
      case List(_) =>
        if cfg.Enabled() {
          ListIsWrittenIff(cfg, s, e.now);
        }
      case Rejection(_, _, _, _, _, _, _) =>
      case Block(_, _, _) =>
      case Unblock(_, _) =>
      case FlushFile(_) =>
      case Defer =>
    }
  }

  /** Over every operation: an immediate step whose writes succeed leaves a file that holds everything if and only
      if it does not withhold a change. */
  lemma AddressStepIsWrittenIff(cfg: I.Config, s: I.State, e: IR.Event)
    requires cfg.hasFile && !s.deferred && I.AllWritten(s) && F.Succeeds(e)
    ensures I.AllWritten(IR.Step(cfg, s, e)) <==> !AddressWithheld(cfg, s, e)
  {
    hide IR.Step, I.AllWritten, I.Prune, I.Changes;
    if AddressAsks(cfg, s, e) {
      AddressWriteCompletes(cfg, s, e);
    } else {
      AddressQuietStep(cfg, s, e);
    }
  }

  /** A blocked address whose strike has aged out: legitimate mail drops its credit in memory only, and listing the
      active blocks drops the strike in memory only. */
  lemma AgedStrikesAreNotWritten(addr: N.Addr)
    requires addr.Valid()
    ensures var cfg := I.Config(3600, 3, 100, 2592000, true, 300, 3, 10000, true, (x: N.Addr) => false);
      var a, r := addr.Unmap(), I.Record([5], I.Repeat, 1000, "unwanted", 1.0, 2, 5, 0);
      var start := I.State(map[a := r], false, false, map[a := r]);
      var credited, listed := I.RecordLegitimate(cfg, start, 500, addr, Written), I.ListActive(cfg, start, 500, Written).0;
      && I.AllWritten(start)
      && credited.entries == map[a := r.(strikes := [], legitimate := 0)] && credited.disk == map[a := r]
      && listed.entries == map[a := r.(strikes := [])] && listed.disk == map[a := r]
  {
    var cfg := I.Config(3600, 3, 100, 2592000, true, 300, 3, 10000, true, (x: N.Addr) => false);
    var a, r := addr.Unmap(), I.Record([5], I.Repeat, 1000, "unwanted", 1.0, 2, 5, 0);
    assert I.Prune(cfg, [5], 500) == [] by {
      LiveNone([5], I.TIME, I.WindowStart(cfg, 500));
    }
    hide I.Prune;
    assert I.CleanedEntries(cfg, map[a := r], 500) == map[a := r.(strikes := [])];
    assert !I.Changes(cfg, r, 500);
  }

  // ---------------------------------------------------------------- correspondents: accepted inbound mail

  /** The entries that accepted mail of a correspondent touches. */
  predicate Touches(cfg: C.Config, s: C.State, sender: string, recipients: seq<string>, k: C.Key)
  {
    k in s.entries && C.Touched(cfg, s.entries[k], cfg.normalize(sender), Canonical(cfg.normalize, recipients))
  }

  /** Something is stale, or some touched entry has not been saved for an interval. */
  ghost predicate TouchSaves(cfg: C.Config, s: C.State, sender: string, recipients: seq<string>, now: int)
  {
    || C.AnyStale(cfg, s.entries, now)
    || exists k :: Touches(cfg, s, sender, recipients, k) && C.Due(cfg, s.entries[k], now)
  }

  ghost predicate TouchIsIdle(cfg: C.Config, s: C.State, sender: string, recipients: seq<string>, now: int)
  {
    forall k :: Touches(cfg, s, sender, recipients, k) ==> s.entries[k].lastActivity == now
  }

  /** From a file that holds everything, immediately noting activity leaves one if and only if something is stale,
      some touched entry has not been saved for an interval, or no touched entry changes. */
  lemma TouchIsWrittenIff(cfg: C.Config, s: C.State, now: int, sender: string, recipients: seq<string>)
    requires cfg.useAllowlist && cfg.normalize(sender) != "" && !s.deferred && C.AllWritten(s)
    ensures C.AllWritten(C.TouchInbound(cfg, s, now, sender, recipients, Written).0) <==>
      TouchSaves(cfg, s, sender, recipients, now) || TouchIsIdle(cfg, s, sender, recipients, now)
  {
    hide C.Stale, C.Due, C.Touched, Canonical;
    var c, rs := cfg.normalize(sender), Canonical(cfg.normalize, recipients);
    var current := C.Current(cfg, s.entries, now);
    var touched := C.TouchedEntries(cfg, current, c, rs, now);
    if !C.AnyStale(cfg, s.entries, now) {
      assert current == s.entries;
      if forall k :: Touches(cfg, s, sender, recipients, k) ==> !C.Due(cfg, s.entries[k], now) {
        StoredTouched(cfg, s.entries, c, rs, now);
      }
    }
    CD.StoredMarked(touched);
  }

  lemma StoredTouched(cfg: C.Config, entries: map<C.Key, C.Entry>, c: string, rs: set<string>, now: int)
    ensures C.Stored(C.TouchedEntries(cfg, entries, c, rs, now)) == C.Stored(entries) <==>
      forall k :: k in entries && C.Touched(cfg, entries[k], c, rs) ==> entries[k].lastActivity == now
  {
    hide C.Touched;
    var touched := C.TouchedEntries(cfg, entries, c, rs, now);
    if C.Stored(touched) == C.Stored(entries) {
      forall k | k in entries && C.Touched(cfg, entries[k], c, rs) ensures entries[k].lastActivity == now {
        assert C.Stored(touched)[k] == C.Stored(entries)[k];
      }
    }
  }

  /** A relationship permitted by hand whose correspondent writes one second later. */
  lemma PromptTouchIsNotWritten(cfg: C.Config, address: string)
    requires cfg.useAllowlist && cfg.maxEntries >= 1 && cfg.normalize(address) != "" && cfg.interval > 1
    requires cfg.staleAfter == 0 || cfg.staleAfter > 1
    ensures var k := C.Key(cfg.normalize(address), cfg.normalize(address));
      var permitted := C.AddManual(cfg, C.State(map[], false, false, map[]), 1, address, address, k, Written).0;
      var s := C.TouchInbound(cfg, permitted, 2, address, [address], Written).0;
      && C.AllWritten(permitted) && !s.deferred && !s.dirty
      && k in s.entries && s.entries[k].lastActivity == 2 && k in s.disk && s.disk[k].lastActivity == 1
  {
    var y := cfg.normalize(address);
    var k := C.Key(y, y);
    assert C.Current(cfg, map[], 1) == map[];
    var e := C.Entry(y, y, 1, 1, 1, C.Manual, 0);
    var permitted := C.AddManual(cfg, C.State(map[], false, false, map[]), 1, address, address, k, Written).0;
    assert permitted.entries == map[k := e];
    assert cfg.normalize([address][0]) in Canonical(cfg.normalize, [address]);
    assert C.Current(cfg, map[k := e], 2) == map[k := e];
    assert !C.AnyStale(cfg, map[k := e], 2);
    assert forall x :: x in permitted.entries ==> !C.Due(cfg, permitted.entries[x], 2);
  }

  // ---------------------------------------------------------------- correspondents: loops over recipients

  /** The turn of a recipient, judged by the entries before the loop, asks for a save: its entry is new and may be
      added, is promoted or counted, or has not been saved for an interval. */
  predicate TurnSaves(cfg: C.Config, entries: map<C.Key, C.Entry>, loop: C.Loop, recipient: string, now: int)
  {
    var k := loop.KeyFor(recipient);
    match loop
    case Learning(_) => k !in entries || entries[k].kind == C.Inbound || C.Due(cfg, entries[k], now)
    case Evidence(_, qualifying) =>
      if k in entries && C.Qualified(cfg, entries[k]) then C.Due(cfg, entries[k], now) else qualifying
  }

  /** The turn of a recipient notes activity of this entry. */
  predicate Notes(cfg: C.Config, loop: C.Loop, e: C.Entry) { loop.Learning? || C.Qualified(cfg, e) }

  /** An outbound entry counts nothing; learning makes sure of it. */
  function Noted(loop: C.Loop, e: C.Entry, now: int): C.Entry
  {
    e.(lastActivity := now, count := if loop.Learning? && e.kind == C.Outbound then 0 else e.count)
  }

  predicate TurnIsIdle(cfg: C.Config, entries: map<C.Key, C.Entry>, loop: C.Loop, recipient: string, now: int)
  {
    var k := loop.KeyFor(recipient);
    k in entries && Notes(cfg, loop, entries[k]) ==>
      entries[k].lastActivity == now && (loop.Learning? && entries[k].kind == C.Outbound ==> entries[k].count == 0)
  }

  predicate NotedIn(cfg: C.Config, loop: C.Loop, visited: set<string>, k: C.Key, e: C.Entry)
  {
    Notes(cfg, loop, e) && exists r :: r in visited && loop.KeyFor(r) == k
  }

  /** What a loop leaves when no turn asks for a save. */
  function NotedEntries(cfg: C.Config, entries: map<C.Key, C.Entry>, loop: C.Loop, visited: set<string>, now: int): map<C.Key, C.Entry>
  {
    map k | k in entries :: if NotedIn(cfg, loop, visited, k, entries[k]) then Noted(loop, entries[k], now) else entries[k]
  }

  ghost predicate SomeTurnSaves(cfg: C.Config, entries: map<C.Key, C.Entry>, loop: C.Loop, visited: set<string>, now: int)
  {
    exists r :: r in visited && TurnSaves(cfg, entries, loop, r, now)
  }

  /** Whether a loop asks for a save can be told beforehand, recipient by recipient, whatever the order. */
  lemma {:induction false} TurnsSaveIff(cfg: C.Config, entries: map<C.Key, C.Entry>, loop: C.Loop, choices: seq<C.Choice>, now: int)
    ensures C.TurnsSave(cfg, entries, loop, choices, now) <==> SomeTurnSaves(cfg, entries, loop, C.Visited(choices), now)
    ensures !C.TurnsSave(cfg, entries, loop, choices, now) ==>
      C.Turns(cfg, entries, loop, choices, now) == NotedEntries(cfg, entries, loop, C.Visited(choices), now)
  {
    hide C.LearnTurn, C.EvidenceTurn, C.Take, TurnSaves, NotedEntries;
    if choices == [] {
      NotedNowhere(cfg, entries, loop, now);
    } else {
      var front, c := choices[..|choices| - 1], choices[|choices| - 1];
      TurnsSaveIff(cfg, entries, loop, front, now);
      VisitedSnoc(choices);
      if !C.TurnsSave(cfg, entries, loop, front, now) {
        OneMoreTurn(cfg, entries, loop, C.Visited(front), c, now);
      }
    }
  }

  lemma VisitedSnoc(choices: seq<C.Choice>)
    requires choices != []
    ensures C.Visited(choices) == C.Visited(choices[..|choices| - 1]) + {choices[|choices| - 1].recipient}
  {
    var front := choices[..|choices| - 1];
    assert forall i :: 0 <= i < |front| ==> front[i] == choices[i];
  }

  lemma NotedNowhere(cfg: C.Config, entries: map<C.Key, C.Entry>, loop: C.Loop, now: int)
    ensures NotedEntries(cfg, entries, loop, {}, now) == entries
    ensures C.Visited([]) == {}
  {
  }

  lemma OneMoreTurn(cfg: C.Config, entries: map<C.Key, C.Entry>, loop: C.Loop, visited: set<string>, c: C.Choice, now: int)
    ensures var before := NotedEntries(cfg, entries, loop, visited, now);
      var t := loop.TurnFor(cfg, before, c.recipient, now);
      && (t.Put? && t.save <==> TurnSaves(cfg, entries, loop, c.recipient, now))
      && (!(t.Put? && t.save) ==>
            C.Take(cfg, before, loop.KeyFor(c.recipient), t, c.victim) == NotedEntries(cfg, entries, loop, visited + {c.recipient}, now))
  {
    var before := NotedEntries(cfg, entries, loop, visited, now);
    var k := loop.KeyFor(c.recipient);
    var t := loop.TurnFor(cfg, before, c.recipient, now);
    if !(t.Put? && t.save) {
      var after := C.Take(cfg, before, k, t, c.victim);
      var noted := NotedEntries(cfg, entries, loop, visited + {c.recipient}, now);
      assert after.Keys == noted.Keys;
      forall x | x in entries ensures after[x] == noted[x] {
      }
    }
  }

  lemma StoredNoted(cfg: C.Config, entries: map<C.Key, C.Entry>, loop: C.Loop, visited: set<string>, now: int)
    ensures C.Stored(NotedEntries(cfg, entries, loop, visited, now)) == C.Stored(entries) <==>
      forall r :: r in visited ==> TurnIsIdle(cfg, entries, loop, r, now)
  {
    hide C.Qualified;
    var noted := NotedEntries(cfg, entries, loop, visited, now);
    if C.Stored(noted) == C.Stored(entries) {
      forall r | r in visited ensures TurnIsIdle(cfg, entries, loop, r, now) {
        if loop.KeyFor(r) in entries {
          assert C.Stored(noted)[loop.KeyFor(r)] == C.Stored(entries)[loop.KeyFor(r)];
        }
      }
    }
    if forall r :: r in visited ==> TurnIsIdle(cfg, entries, loop, r, now) {
      assert noted == entries;
    }
  }

  /** From a file that holds everything, an immediate loop over recipients leaves one if and only if something is
      stale, the turn of some recipient asks for a save, or the turn of none changes its entry. */
  lemma LoopIsWrittenIff(cfg: C.Config, s: C.State, loop: C.Loop, choices: seq<C.Choice>, now: int)
    requires !s.deferred && C.AllWritten(s)
    ensures C.AllWritten(C.RunLoop(cfg, s, loop, choices, now, Written).0) <==>
      || C.AnyStale(cfg, s.entries, now)
      || SomeTurnSaves(cfg, s.entries, loop, C.Visited(choices), now)
      || (forall r :: r in C.Visited(choices) ==> TurnIsIdle(cfg, s.entries, loop, r, now))
  {
    hide C.Turns, C.TurnsSave, C.AnyStale, C.Current, C.Stored, C.Marked, SomeTurnSaves, TurnIsIdle, NotedEntries;
    CD.StoredMarked(C.Turns(cfg, C.Current(cfg, s.entries, now), loop, choices, now));
    if !C.AnyStale(cfg, s.entries, now) {
      CD.NothingStale(cfg, s.entries, now);
      TurnsSaveIff(cfg, s.entries, loop, choices, now);
      StoredNoted(cfg, s.entries, loop, C.Visited(choices), now);
    }
  }

  /** The step changes an entry in memory and keeps it from the file. */
  ghost predicate CorrespondentWithheld(cfg: C.Config, s: C.State, e: CR.Event)
  {
    if CR.RunsLoop(cfg, e) then
      var loop, members := CR.LoopOf(cfg, e), CR.MembersOf(cfg, e);
      && !C.AnyStale(cfg, s.entries, e.now) && !SomeTurnSaves(cfg, s.entries, loop, members, e.now)
      && exists r :: r in members && !TurnIsIdle(cfg, s.entries, loop, r, e.now)
    else
      && e.op.Touch? && cfg.useAllowlist && cfg.normalize(e.op.sender) != ""
      && !TouchSaves(cfg, s, e.op.sender, e.op.recipients, e.now) && !TouchIsIdle(cfg, s, e.op.sender, e.op.recipients, e.now)
  }

  ghost predicate CorrespondentAsks(cfg: C.Config, s: C.State, e: CR.Event)
  {
    var current := C.Current(cfg, s.entries, e.now);
    match e.op
    case Outgoing(_, _, _, _) => LoopAsks(cfg, s, e)
    case Touch(sender, recipients, _) =>
      cfg.useAllowlist && cfg.normalize(sender) != "" && TouchSaves(cfg, s, sender, recipients, e.now)
    case Classified(sender, recipients, complete, classification, score, min, _, _, _) =>
      || LoopAsks(cfg, s, e)
      || (&& C.Classifiable(cfg, sender, recipients, complete) && classification != "legitimate"
          && (|| C.AnyStale(cfg, s.entries, e.now)
              || (&& classification == "unwanted" && score >= min
                  && exists k :: k in current && C.Discredited(cfg, current[k], cfg.normalize(sender), Canonical(cfg.normalize, recipients)))))
    case Permit(sender, recipient, _, _) => cfg.normalize(sender) != "" && cfg.normalize(recipient) != ""
    case Revoke(sender, recipient, _) =>
      && cfg.normalize(sender) != "" && (recipient == "*" || cfg.normalize(recipient) != "")
      && (|| C.AnyStale(cfg, s.entries, e.now)
          || exists k :: k in current && C.Deleted(current[k], cfg.normalize(sender), recipient == "*", cfg.normalize(recipient)))
    case Ask(sender, _, _) => cfg.useAllowlist && cfg.normalize(sender) != "" && C.AnyStale(cfg, s.entries, e.now)
    case FlushFile(_) => s.dirty
    case Defer => false
  }

  ghost predicate LoopAsks(cfg: C.Config, s: C.State, e: CR.Event)
  {
    CR.RunsLoop(cfg, e) &&
    (C.AnyStale(cfg, s.entries, e.now) || SomeTurnSaves(cfg, s.entries, CR.LoopOf(cfg, e), CR.MembersOf(cfg, e), e.now))
  }

  function CorrespondentOutcome(e: CR.Event): Outcome { if e.op.Defer? then Written else e.op.write }

  ghost predicate CorrespondentWrote(cfg: C.Config, s: C.State, e: CR.Event)
  {
    CorrespondentAsks(cfg, s, e) && Completes(e.op.Permit? || e.op.Revoke?, CorrespondentOutcome(e))
  }

  ghost predicate VisitsAll(cfg: C.Config, e: CR.Event)
  {
    CR.RunsLoop(cfg, e) ==> C.Visits(e.op.choices, CR.MembersOf(cfg, e))
  }

  lemma SaveCompletes(s: C.State, o: Outcome)
    requires !s.deferred && o != Failed
    ensures C.AllWritten(C.Save(s, o))
  {
    CD.StoredMarked(s.entries);
  }

  lemma LoopCompletes(cfg: C.Config, s: C.State, e: CR.Event)
    requires !s.deferred && LoopAsks(cfg, s, e) && VisitsAll(cfg, e) && CorrespondentOutcome(e) != Failed
    ensures C.AllWritten(CR.Step(cfg, s, e))
  {
    hide C.Turns, C.TurnsSave, C.AnyStale, C.Current, C.AllWritten, C.Save, SomeTurnSaves, CR.MembersOf, CR.LoopOf;
    CD.StepRunsLoop(cfg, s, e);
    var loop, current := CR.LoopOf(cfg, e), C.Current(cfg, s.entries, e.now);
    SaveCompletes(s.(entries := C.Turns(cfg, current, loop, e.op.choices, e.now)), e.op.write);
    if !C.AnyStale(cfg, s.entries, e.now) {
      CD.NothingStale(cfg, s.entries, e.now);
      TurnsSaveIff(cfg, s.entries, loop, e.op.choices, e.now);
    }
    hide CR.Step;
  }

  lemma CorrespondentWriteCompletes(cfg: C.Config, s: C.State, e: CR.Event)
    requires !s.deferred && CorrespondentWrote(cfg, s, e) && VisitsAll(cfg, e)
    ensures C.AllWritten(CR.Step(cfg, s, e))
  {
    hide C.AnyStale, C.Current, C.MakeRoom, C.ManualEntry, C.RunLoop, C.Matches, C.Save, C.AllWritten, C.Touched, C.Due,
      C.Discredited, C.Deleted, Canonical, C.Distinct, C.Remaining, C.TouchedEntries, LoopAsks;
    if LoopAsks(cfg, s, e) {
      LoopCompletes(cfg, s, e);
    } else {
      OtherWriteCompletes(cfg, s, e);
    }
  }

  lemma OtherWriteCompletes(cfg: C.Config, s: C.State, e: CR.Event)
    requires !s.deferred && CorrespondentWrote(cfg, s, e) && !LoopAsks(cfg, s, e)
    ensures C.AllWritten(CR.Step(cfg, s, e))
  {
    hide C.AnyStale, C.Current, C.MakeRoom, C.ManualEntry, C.RunLoop, C.Matches, C.Save, C.AllWritten, C.Touched, C.Due,
      C.Discredited, C.Deleted, Canonical, C.Distinct, C.TouchedEntries, C.Remaining, LoopAsks;
    var current, o := C.Current(cfg, s.entries, e.now), CorrespondentOutcome(e);
    if !C.AnyStale(cfg, s.entries, e.now) {
      CD.NothingStale(cfg, s.entries, e.now);
    }
    match e.op {
      case Outgoing(_, _, _, _) =>
      case Touch(sender, recipients, _) =>
        SaveCompletes(s.(entries := C.TouchedEntries(cfg, current, cfg.normalize(sender), Canonical(cfg.normalize, recipients), e.now)), o);
      case Classified(sender, recipients, _, _, _, _, _, _, _) =>
        SaveCompletes(s.(entries := current), o);
        SaveCompletes(s.(entries := C.Remaining(cfg, current, cfg.normalize(sender), Canonical(cfg.normalize, recipients))), o);
      case Permit(_, _, victim, _) =>
        var k := CR.HandKey(cfg, e);
        SaveCompletes(s.(entries := C.MakeRoom(cfg, current, k, victim)[k := C.ManualEntry(current, k, e.now)]), o);
      case Revoke(sender, recipient, _) =>
        RevokeSaves(cfg, s, e);
        SaveCompletes(s.(entries := current - Revoked(cfg, s, e)), o);
      case Ask(_, _, _) => SaveCompletes(s.(entries := current), o);
      case FlushFile(_) => FlushCompletes(s, o);
      case Defer =>
    }
  }

  /** The relationships that a command removes. */
  function Revoked(cfg: C.Config, s: C.State, e: CR.Event): set<C.Key>
    requires e.op.Revoke?
  {
    var current, c, all, l := C.Current(cfg, s.entries, e.now), cfg.normalize(e.op.sender), e.op.recipient == "*", cfg.normalize(e.op.recipient);
    set k | k in current && C.Deleted(current[k], c, all, l)
  }

  lemma RevokeSaves(cfg: C.Config, s: C.State, e: CR.Event)
    requires e.op.Revoke? && CorrespondentAsks(cfg, s, e)
    ensures var saved := C.Save(s.(entries := C.Current(cfg, s.entries, e.now) - Revoked(cfg, s, e)), e.op.write);
      CR.Step(cfg, s, e) == if C.SaveFails(s, e.op.write) then saved.(entries := s.entries) else saved
  {
    hide C.AnyStale, C.Current, C.Deleted, C.Save;
    var current, c, all, l := C.Current(cfg, s.entries, e.now), cfg.normalize(e.op.sender), e.op.recipient == "*", cfg.normalize(e.op.recipient);
    assert forall k :: k in current && C.Deleted(current[k], c, all, l) ==> k in Revoked(cfg, s, e);
  }

  lemma FlushCompletes(s: C.State, o: Outcome)
    requires !s.deferred && s.dirty && o != Failed
    ensures C.AllWritten(C.Flush(s, o))
  {
    CD.StoredMarked(s.entries);
  }

  lemma CorrespondentQuietStep(cfg: C.Config, s: C.State, e: CR.Event)
    requires !s.deferred && C.AllWritten(s) && VisitsAll(cfg, e) && !CorrespondentAsks(cfg, s, e)
    ensures C.AllWritten(CR.Step(cfg, s, e)) <==> !CorrespondentWithheld(cfg, s, e)
  {
    hide SomeTurnSaves, TurnIsIdle, TouchSaves, TouchIsIdle, C.AnyStale, C.RunLoop, C.TouchInbound, CR.Step, C.AllWritten, CR.LoopOf, CR.MembersOf,
      C.Current, C.Discredited, C.Deleted;
    if CR.RunsLoop(cfg, e) {
      QuietLoop(cfg, s, e);
    } else {
      QuietOther(cfg, s, e);
    }
  }

  lemma QuietLoop(cfg: C.Config, s: C.State, e: CR.Event)
    requires !s.deferred && C.AllWritten(s) && VisitsAll(cfg, e) && CR.RunsLoop(cfg, e) && !LoopAsks(cfg, s, e)
    ensures C.AllWritten(CR.Step(cfg, s, e)) <==> !CorrespondentWithheld(cfg, s, e)
  {
    hide C.Turns, C.TurnsSave, C.AnyStale, C.Current, C.AllWritten, C.Save, SomeTurnSaves, TurnIsIdle, CR.MembersOf, CR.LoopOf, CR.Step;
    var loop := CR.LoopOf(cfg, e);
    CD.StepRunsLoop(cfg, s, e);
    LoopIsWrittenIff(cfg, s, loop, e.op.choices, e.now);
    CD.NothingStale(cfg, s.entries, e.now);
    TurnsSaveIff(cfg, s.entries, loop, e.op.choices, e.now);
  }

  /** Outside of loops only noted activity changes anything without asking for a write. */
  lemma QuietOther(cfg: C.Config, s: C.State, e: CR.Event)
    requires !s.deferred && C.AllWritten(s) && !CR.RunsLoop(cfg, e) && !CorrespondentAsks(cfg, s, e)
    ensures C.AllWritten(CR.Step(cfg, s, e)) <==> !CorrespondentWithheld(cfg, s, e)
  {
    hide C.AnyStale, C.Current, C.MakeRoom, C.ManualEntry, C.Matches, C.Save, C.RunLoop, C.Discredited, C.Deleted, Canonical, C.Distinct,
      C.TouchedEntries, TouchIsIdle, C.Touched, C.Due, LoopAsks, C.Stored;
    if !C.AnyStale(cfg, s.entries, e.now) {
      CD.NothingStale(cfg, s.entries, e.now);
    }
    if e.op.Touch? && cfg.useAllowlist && cfg.normalize(e.op.sender) != "" {
      TouchIsWrittenIff(cfg, s, e.now, e.op.sender, e.op.recipients);
    } else if e.op.Classified? {
      var c, rs := cfg.normalize(e.op.sender), Canonical(cfg.normalize, e.op.recipients);
      assert (forall k :: k in s.entries ==> !C.Discredited(cfg, s.entries[k], c, rs)) ==> C.Remaining(cfg, s.entries, c, rs) == s.entries;
    } else if e.op.Revoke? {
      assert s.entries - {} == s.entries;
    }
  }

  /** Over every operation: an immediate step whose write succeeds leaves a file that holds everything if and only
      if it does not withhold a change. */
  lemma CorrespondentStepIsWrittenIff(cfg: C.Config, s: C.State, e: CR.Event)
    requires !s.deferred && C.AllWritten(s) && VisitsAll(cfg, e) && CorrespondentOutcome(e) == Written
    ensures C.AllWritten(CR.Step(cfg, s, e)) <==> !CorrespondentWithheld(cfg, s, e)
  {
    hide SomeTurnSaves, TurnIsIdle, TouchSaves, TouchIsIdle, C.AnyStale, CR.Step, C.AllWritten, CR.LoopOf, CR.MembersOf, C.Current,
      C.Discredited, C.Deleted;
    if CorrespondentAsks(cfg, s, e) {
      CorrespondentWriteCompletes(cfg, s, e);
    } else {
      CorrespondentQuietStep(cfg, s, e);
    }
  }

  /** A relationship saved at instant 1. One second later outgoing mail to its correspondent, and legitimate mail
      from it, note activity in memory only. */
  lemma PromptMailIsNotWritten(cfg: C.Config, local: string, remote: string, score: real, min: real, dkim: bool, victim: C.Key)
    requires cfg.learnRecipients && cfg.normalize(local) != "" && cfg.normalize(remote) != "" && cfg.interval > 1
    requires cfg.staleAfter == 0 || cfg.staleAfter > 1
    ensures var l, r := cfg.normalize(local), cfg.normalize(remote);
      var k, e := C.Key(l, r), C.Entry(l, r, 1, 1, 1, C.Outbound, 0);
      var start := C.State(map[k := e], false, false, map[k := e.(persisted := 0)]);
      var learned := C.Learn(cfg, start, 2, local, [remote], [C.Choice(r, victim)], Written).0;
      var recorded := C.RecordInbound(cfg, start, 2, remote, [local], true, "legitimate", score, min, dkim, [C.Choice(l, victim)], Written).0;
      && C.AllWritten(start) && C.Visits([C.Choice(r, victim)], C.Distinct(cfg, [remote], C.MAX_LEARNED))
      && C.Visits([C.Choice(l, victim)], Canonical(cfg.normalize, [local]))
      && learned == recorded == start.(entries := map[k := e.(lastActivity := 2)])
  {
    var l, r := cfg.normalize(local), cfg.normalize(remote);
    var k, e := C.Key(l, r), C.Entry(l, r, 1, 1, 1, C.Outbound, 0);
    var start := C.State(map[k := e], false, false, map[k := e.(persisted := 0)]);
    VisitedOne(C.Choice(r, victim));
    VisitedOne(C.Choice(l, victim));
    assert [remote][..0] == [] && C.Distinct(cfg, [], C.MAX_LEARNED) == {} && C.Distinct(cfg, [remote], C.MAX_LEARNED) == {r};
    assert cfg.normalize([local][0]) in Canonical(cfg.normalize, [local]);
    assert Canonical(cfg.normalize, [local]) == {l};
    LoopOverOne(cfg, start, k, C.Learning(l), C.Choice(r, victim));
    LoopOverOne(cfg, start, k, C.Evidence(r, C.Qualifying(cfg, score, dkim)), C.Choice(l, victim));
    hide C.RunLoop;
  }

  lemma VisitedOne(c: C.Choice)
    ensures C.Visits([c], {c.recipient})
  {
    assert [c][0] == c;
  }

  lemma LoopOverOne(cfg: C.Config, s: C.State, k: C.Key, loop: C.Loop, c: C.Choice)
    requires cfg.interval > 1 && (cfg.staleAfter == 0 || cfg.staleAfter > 1)
    requires s.entries == map[k := C.Entry(k.local, k.correspondent, 1, 1, 1, C.Outbound, 0)] && loop.KeyFor(c.recipient) == k
    ensures C.RunLoop(cfg, s, loop, [c], 2, Written).0 == s.(entries := map[k := s.entries[k].(lastActivity := 2)])
  {
    assert !C.AnyStale(cfg, s.entries, 2);
    CD.NothingStale(cfg, s.entries, 2);
    TurnsSaveIff(cfg, s.entries, loop, [c], 2);
    VisitedOne(c);
    assert !SomeTurnSaves(cfg, s.entries, loop, {c.recipient}, 2);
    assert NotedEntries(cfg, s.entries, loop, {c.recipient}, 2) == map[k := s.entries[k].(lastActivity := 2)] by {
      assert NotedIn(cfg, loop, {c.recipient}, k, s.entries[k]);
    }
    hide C.Turns, C.TurnsSave;
  }

  // ---------------------------------------------------------------- rejection history

  /** The rejection history withholds nothing: every immediate step whose write succeeds leaves a file that holds
      everything. */
  lemma RejectionStepIsWritten(cfg: R.Config, s: R.State, e: RR.Event)
    requires !s.deferred && R.AllWritten(s) && (e.op.Defer? || e.op.write == Written)
    ensures R.AllWritten(RR.Step(cfg, s, e))
  {
    hide Sort, R.Recordable, R.SenderOf, R.NewEntries, R.Pruned, R.For;
    if e.op.Query? && |R.Pruned(cfg, s.entries, e.now)| == |s.entries| {
      R.PrunedNothing(cfg, s.entries, e.now);
    }
  }
}
