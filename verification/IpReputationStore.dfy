/**
 The sending-IP reputation store as the Milter runs it: one mutable object whose
 methods update the record map and the file step by step. Each method is proved to
 perform the operation of the same name in `IpReputation`; a ghost result names the
 choice that the map iteration or the file system made.
 */
module IpReputationStore {
  import opened BoundedHistory
  import opened StateFile
  import opened IpReputation
  import opened NetworkAddress
  import Spec = IpReputation

  class Store {
    const cfg: Config
    const file: File<map<Addr, Record>>
    var entries: map<Addr, Record>
    var deferWrites: bool
    var dirty: bool

    ghost function View(): State
      reads this, file
    {
      State(entries, deferWrites, dirty, file.content)
    }

    ghost predicate WithinCapacity()
      reads this
    {
      cfg.Sane() && |entries| <= cfg.maxSize
    }

    constructor (cfg: Config, file: File<map<Addr, Record>>, now: int)
      ensures this.cfg == cfg && this.file == file
      ensures View() == State(if cfg.Enabled() && cfg.hasFile then Spec.Load(cfg, file.content, now) else map[],
                              false, false, file.content)
    {
      this.cfg := cfg;
      this.file := file;
      entries, deferWrites, dirty := map[], false, false;
      new;
      if cfg.Enabled() && cfg.hasFile {
        Load(now);
      }
    }

    method Load(now: int)
      requires entries == map[]
      modifies this
      ensures View() == old(View()).(entries := Spec.Load(cfg, file.content, now))
    {
      hide Survives, Loaded;
      var stored := file.content;
      if |stored| > cfg.maxSize {
        return;
      }
      var todo := stored.Keys;
      while todo != {}
        invariant todo <= stored.Keys
        invariant forall a :: a in entries <==> a in stored && a !in todo && Survives(cfg, stored[a], now)
        invariant forall a :: a in entries ==> entries[a] == Loaded(cfg, stored[a], now)
        modifies `entries
      {
        var a :| a in todo;
        todo := todo - {a};
        var kept, record := LoadRecord(stored[a], now);
        if kept {
          entries := entries[a := record];
        }
      }
    }

    /** One stored record as it is taken over, if it is. */
    method LoadRecord(stored: Record, now: int) returns (kept: bool, record: Record)
      ensures kept == Survives(cfg, stored, now)
      ensures kept ==> record == Loaded(cfg, stored, now)
    {
      var changed;
      kept, record, changed := LapseRecord(stored, now);
      if |record.strikes| > cfg.repeatThreshold {
        record := record.(strikes := record.strikes[|record.strikes| - cfg.repeatThreshold..]);
      }
      record := record.(persistedRefresh := now);
    }

    /** Keeps the strikes strictly inside the repeat window, compacting front to back. */
    method PruneStrikes(strikes: seq<int>, now: int) returns (kept: seq<int>)
      ensures kept == Prune(cfg, strikes, now)
    {
      if cfg.repeatThreshold == 0 || cfg.repeatWindow <= 0 {
        return [];
      }
      var cutoff := now - cfg.repeatWindow;
      kept := [];
      for i := 0 to |strikes|
        invariant kept == Live(strikes[..i], TIME, WindowStart(cfg, now))
      {
        assert strikes[..i + 1][..i] == strikes[..i];
        if strikes[i] > cutoff {
          kept := kept + [strikes[i]];
        }
      }
      assert strikes[..|strikes|] == strikes;
    }

    /** Brings one record up to date: prunes its strikes and ends a block that has run out. */
    method LapseRecord(was: Record, now: int) returns (kept: bool, record: Record, changed: bool)
      ensures kept == Survives(cfg, was, now)
      ensures kept ==> record == Cleaned(cfg, was, now)
      ensures changed == Changes(cfg, was, now)
    {
      var strikes := PruneStrikes(was.strikes, now);
      record := was.(strikes := strikes);
      changed := false;
      if record.level == Repeat && record.until <= now {
        return false, record, true;
      }
      if record.level == Short && record.until <= now {
        record := record.(level := NoBlock, until := 0);
        changed := true;
      }
      if record.level == NoBlock && strikes == [] {
        return false, record, true;
      }
      kept := true;
    }

    method WriteLocked() returns (ok: bool, ghost outcome: Outcome)
      modifies file
      ensures View() == WriteNow(cfg, old(View()), outcome)
      ensures ok <==> !cfg.hasFile || outcome == Written
    {
      if !cfg.hasFile {
        outcome := Written;
        return true, Written;
      }
      var all := map a | a in entries :: entries[a].(persistedRefresh := 0);
      var o := file.Write(all);
      return o == Written, o;
    }

    method SaveLocked() returns (ok: bool, ghost outcome: Outcome)
      modifies this, file
      ensures View() == Save(cfg, old(View()), outcome)
      ensures ok <==> !SaveFails(cfg, old(View()), outcome)
      ensures entries == old(entries)
    {
      if deferWrites {
        dirty := true;
        return true, Written;
      }
      ok, outcome := WriteLocked();
    }

    method FlushState() returns (ok: bool, ghost outcome: Outcome)
      modifies this, file
      ensures View() == Flush(cfg, old(View()), outcome)
    {
      if !dirty {
        return true, Written;
      }
      ok, outcome := WriteLocked();
      if ok {
        dirty := false;
      }
    }

    method EnableDeferredPersistence()
      modifies this
      ensures View() == old(View()).(deferred := true)
    {
      deferWrites := true;
    }

    method CleanupLocked(now: int) returns (ghost outcome: Outcome)
      modifies this, file
      ensures View() == Cleanup(cfg, old(View()), now, outcome)
    {
      ghost var before := entries;
      var changed := false;
      var todo := entries.Keys;
      while todo != {}
        invariant todo <= before.Keys
        invariant forall a :: a in entries <==> a in before && (a in todo || Survives(cfg, before[a], now))
        invariant forall a :: a in entries ==>
          entries[a] == if a in todo then before[a] else Cleaned(cfg, before[a], now)
        invariant changed <==> exists a :: a in before && a !in todo && Changes(cfg, before[a], now)
        modifies `entries
      {
        var a :| a in todo;
        todo := todo - {a};
        var kept, record, lapsed := LapseRecord(entries[a], now);
        changed := changed || lapsed;
        entries := if kept then entries[a := record] else entries - {a};
      }
      assert entries == CleanedEntries(cfg, before, now);
      outcome := Written;
      if changed {
        var _, o := SaveLocked();
        outcome := o;
      }
    }

    /** Removes one record, the least protected and among those the longest inactive. */
    method EvictOldestLocked() returns (ghost victim: Addr)
      modifies `entries
      ensures old(entries) == map[] ==> entries == old(entries)
      ensures old(entries) != map[] ==> IsVictim(old(entries), victim) && entries == old(entries) - {victim}
    {
      var found: Addr := Invalid;
      var seen := false;
      var todo := entries.Keys;
      while todo != {}
        invariant todo <= entries.Keys
        invariant seen <==> todo != entries.Keys
        invariant seen ==> found in entries && forall a :: a in entries && a !in todo ==> NoMoreProtected(entries[found], entries[a])
      {
        var a :| a in todo;
        todo := todo - {a};
        var rank := Rank(entries[a]);
        if !seen || rank < Rank(entries[found])
           || (rank == Rank(entries[found]) && entries[a].lastActivity < entries[found].lastActivity) {
          found := a;
        }
        seen := true;
      }
      victim := found;
      if seen {
        entries := entries - {found};
      } else {
        assert entries.Keys == {};
      }
    }

    /** Evicts one record if a new record for `a` would not fit. */
    method RoomFor(a: Addr) returns (ghost victim: Addr)
      requires WithinCapacity()
      modifies `entries
      ensures entries == MakeRoom(cfg, old(entries), a, victim)
      ensures EvictionIsLegal(cfg, old(entries), a, victim)
      ensures forall r: Record {:trigger entries[a := r]} :: |entries[a := r]| <= cfg.maxSize
    {
      victim := Invalid;
      if a !in entries && |entries| >= cfg.maxSize {
        victim := EvictOldestLocked();
      }
      forall r: Record {:trigger entries[a := r]} ensures |entries[a := r]| <= cfg.maxSize {
        RoomIsWithin(cfg, old(entries), a, victim, r);
      }
    }

    /** The record after one more rejection: a strike, and the block it earns. */
    method StrikeRecord(was: Record, now: int, classification: string, score: real) returns (record: Record)
      ensures record == Rejected(cfg, was, now, classification, score)
    {
      var strikes := PruneStrikes(was.strikes, now);
      if cfg.repeatThreshold > 0 {
        strikes := strikes + [now];
        if |strikes| > cfg.repeatThreshold {
          strikes := strikes[|strikes| - cfg.repeatThreshold..];
        }
      }
      record := was.(strikes := strikes, classification := classification, score := score, lastActivity := now,
                     legitimate := 0);
      if cfg.repeatThreshold > 0 && |strikes| >= cfg.repeatThreshold {
        record := record.(level := Repeat, until := now + cfg.repeatDuration);
      } else if cfg.shortDuration > 0 {
        record := record.(level := Short, until := now + cfg.shortDuration);
      }
      record := record.(persistedRefresh := now);
    }

    method Add(addr: Addr, classification: string, score: real, exempt: bool, now: int)
      returns (blocked: bool, ghost victim: Addr, ghost first: Outcome, ghost second: Outcome)
      requires WithinCapacity()
      modifies this, file
      ensures View() == Spec.Add(cfg, old(View()), now, addr, classification, score, exempt, victim, first, second)
      ensures cfg.Enabled() && cfg.Tracked(addr) && !exempt ==>
        EvictionIsLegal(cfg, CleanedEntries(cfg, old(entries), now), addr.Unmap(), victim)
      ensures WithinCapacity()
      ensures blocked ==> addr.Unmap() in entries && entries[addr.Unmap()].level != NoBlock
    {
      victim, first, second := Invalid, Written, Written;
      if !cfg.Enabled() || !addr.Valid() {
        return false, victim, first, second;
      }
      var a := addr.Unmap();
      if cfg.allowlisted(a) || exempt {
        return false, victim, first, second;
      }
      first := CleanupLocked(now);
      CleanupShrinks(cfg, old(entries), now);
      var record := if a in entries then entries[a] else EMPTY_RECORD;
      victim := RoomFor(a);
      record := StrikeRecord(record, now, classification, score);
      entries := entries[a := record];
      var _, o := SaveLocked();
      second := o;
      blocked := record.level != NoBlock;
    }

    method RecordLegitimate(addr: Addr, now: int) returns (ghost outcome: Outcome)
      modifies this, file
      ensures View() == Spec.RecordLegitimate(cfg, old(View()), now, addr, outcome)
    {
      outcome := Written;
      if !cfg.Enabled() || cfg.legitimatePerStrike <= 0 || !addr.Valid() {
        return;
      }
      var a := addr.Unmap();
      if a !in entries {
        return;
      }
      var record := entries[a];
      var strikes := PruneStrikes(record.strikes, now);
      record := record.(strikes := strikes);
      if strikes == [] {
        record := record.(legitimate := 0);
        if record.level == NoBlock || record.until <= now {
          entries := entries - {a};
          var _, o := SaveLocked();
          return o;
        }
        entries := entries[a := record];
        return;
      }
      record := record.(legitimate := record.legitimate + 1, lastActivity := now);
      if record.legitimate >= cfg.legitimatePerStrike {
        record := record.(strikes := strikes[1..], legitimate := 0);
      }
      if record.strikes == [] && record.level == NoBlock {
        entries := entries - {a};
      } else {
        entries := entries[a := record];
      }
      var _, o := SaveLocked();
      outcome := o;
    }

    method Lookup(addr: Addr, now: int) returns (answer: Answer, ghost outcome: Outcome)
      modifies this, file
      ensures (View(), answer) == Spec.Lookup(cfg, old(View()), now, addr, outcome)
    {
      outcome := Written;
      if !cfg.Enabled() || !addr.Valid() || cfg.allowlisted(addr.Unmap()) {
        return NotBlocked, outcome;
      }
      var a := addr.Unmap();
      if a !in entries {
        return NotBlocked, outcome;
      }
      var record := entries[a];
      var strikes := PruneStrikes(record.strikes, now);
      record := record.(strikes := strikes);
      if record.level != NoBlock && record.until <= now {
        if record.level == Repeat {
          entries := entries - {a};
        } else {
          record := record.(level := NoBlock, until := 0);
          if strikes == [] {
            entries := entries - {a};
          } else {
            entries := entries[a := record];
          }
        }
        var _, o := SaveLocked();
        return NotBlocked, o;
      }
      if record.level == NoBlock {
        if strikes == [] {
          entries := entries - {a};
          var _, o := SaveLocked();
          outcome := o;
        } else {
          entries := entries[a := record];
        }
        return NotBlocked, outcome;
      }
      if record.level == Repeat && cfg.refreshOnAttempt {
        var persist := now - record.persistedRefresh >= cfg.refreshInterval;
        record := record.(until := now + cfg.repeatDuration, lastActivity := now,
                          persistedRefresh := if persist then now else record.persistedRefresh);
        entries := entries[a := record];
        if persist {
          var _, o := SaveLocked();
          outcome := o;
        }
      } else {
        entries := entries[a := record];
      }
      answer := Blocked(record.until, record.classification, record.score, record.level, |record.strikes|);
    }

    /** Blocks an address by hand; a failed save restores the records as they were. */
    method ManualAdd(addr: Addr, now: int) returns (ok: bool, ghost victim: Addr, ghost outcome: Outcome)
      requires WithinCapacity()
      modifies this, file
      ensures (View(), ok) == Spec.ManualAdd(cfg, old(View()), now, addr, victim, outcome)
      ensures cfg.Enabled() && cfg.Tracked(addr) && ManualDuration(cfg) > 0 ==>
        EvictionIsLegal(cfg, old(entries), addr.Unmap(), victim)
      ensures WithinCapacity()
    {
      hide Stored, MakeRoom, EvictionIsLegal, IsVictim;
      victim, outcome := Invalid, Written;
      if !cfg.Enabled() || !addr.Valid() || cfg.allowlisted(addr.Unmap()) {
        return false, victim, outcome;
      }
      var a := addr.Unmap();
      var level, duration := Repeat, cfg.repeatDuration;
      if duration <= 0 {
        level, duration := Short, cfg.shortDuration;
      }
      if duration <= 0 {
        return false, victim, outcome;
      }
      var before := entries;
      victim := RoomFor(a);
      var record := if a in entries then entries[a] else EMPTY_RECORD;
      record := record.(level := level, until := now + duration, lastActivity := now, classification := "manual",
                        score := 1.0, legitimate := 0, persistedRefresh := now);
      assert record == ManualRecord(cfg, Find(entries, a), now);
      entries := entries[a := record];
      ghost var updated := View();
      ok, outcome := SaveLocked();
      assert View() == Save(cfg, updated, outcome);
      if !ok {
        entries := before;
      }
    }

    method ManualDelete(addr: Addr) returns (removed: bool, ghost outcome: Outcome)
      modifies this, file
      ensures (View(), removed) == Spec.ManualDelete(cfg, old(View()), addr, outcome)
    {
      if !addr.Valid() {
        return false, Written;
      }
      var a := addr.Unmap();
      var before := entries;
      if a !in entries {
        return false, Written;
      }
      entries := entries - {a};
      var saved, o := SaveLocked();
      if !saved {
        entries := before;
        return false, o;
      }
      return true, o;
    }

    method ListActive(now: int) returns (result: set<ActiveBlock>, ghost outcome: Outcome)
      modifies this, file
      ensures (View(), result) == Spec.ListActive(cfg, old(View()), now, outcome)
    {
      result, outcome := {}, Written;
      if !cfg.Enabled() {
        return;
      }
      outcome := CleanupLocked(now);
      var todo := entries.Keys;
      while todo != {}
        invariant todo <= entries.Keys
        invariant forall b :: b in result <==> b.addr !in todo && b in Active(entries, now)
      {
        var a :| a in todo;
        todo := todo - {a};
        if entries[a].level != NoBlock && entries[a].until > now {
          result := result + {ActiveBlock(a, entries[a].level, entries[a].until)};
        }
      }
      assert result == Active(entries, now);
    }
  }
}
