/**
 The correspondent allowlist as the Milter runs it: a map updated entry by entry and a
 file. Each method is proved to perform the operation of the same name in
 `Correspondents`; ghost results name the choices of map iteration and file system.
 */
module CorrespondentStore {
  import opened Addresses
  import opened StateFile
  import opened Correspondents
  import Spec = Correspondents

  class Store {
    const cfg: Config
    const file: File<map<Key, Entry>>
    var entries: map<Key, Entry>
    var deferWrites: bool
    var dirty: bool

    ghost function View(): State
      reads this, file
    {
      State(entries, deferWrites, dirty, file.content)
    }

    ghost predicate WithinCapacity()
      reads this
    {
      cfg.Sane() && |entries| <= cfg.maxEntries
    }

    constructor (cfg: Config, file: File<map<Key, Entry>>)
      ensures this.cfg == cfg && this.file == file
      ensures View() == State(map[], false, false, file.content)
    {
      this.cfg := cfg;
      this.file := file;
      entries, deferWrites, dirty := map[], false, false;
    }

    // -------------------------------------------------------------- saving

    method MarkActivityPersistedLocked()
      modifies `entries
      ensures entries == Marked(old(entries))
    {
      ghost var before := entries;
      var todo := entries.Keys;
      while todo != {}
        invariant todo <= before.Keys && entries.Keys == before.Keys
        invariant forall k :: k in entries ==> entries[k] == if k in todo then before[k] else Marked(before)[k]
        modifies `entries
      {
        var k :| k in todo;
        todo := todo - {k};
        entries := entries[k := entries[k].(persisted := entries[k].lastActivity)];
      }
    }

    method WriteLocked() returns (ok: bool, ghost outcome: Outcome)
      modifies this, file
      ensures View() == WriteNow(old(View()), outcome)
      ensures ok <==> outcome == Written
    {
      var all := map k | k in entries :: entries[k].(persisted := 0);
      var o := file.Write(all);
      outcome := o;
      if o != Written {
        return false, o;
      }
      MarkActivityPersistedLocked();
      ok := true;
    }

    method SaveLocked() returns (ok: bool, ghost outcome: Outcome)
      modifies this, file
      ensures View() == Save(old(View()), outcome)
      ensures ok <==> !SaveFails(old(View()), outcome)
    {
      if deferWrites {
        dirty := true;
        MarkActivityPersistedLocked();
        return true, Written;
      }
      ok, outcome := WriteLocked();
    }

    method FlushState() returns (ok: bool, ghost outcome: Outcome)
      modifies this, file
      ensures View() == Flush(old(View()), outcome)
    {
      if !dirty {
        return true, Written;
      }
      ok, outcome := WriteLocked();
      if ok {
        dirty := false;
      }
    }

    // -------------------------------------------------------------- ageing and eviction

    method RemoveStaleLocked(now: int) returns (removed: nat)
      modifies `entries
      ensures entries == Current(cfg, old(entries), now)
      ensures removed > 0 <==> AnyStale(cfg, old(entries), now)
    {
      removed := 0;
      if cfg.staleAfter <= 0 {
        assert entries == Current(cfg, entries, now);
        return;
      }
      ghost var before := entries;
      var cutoff := now - cfg.staleAfter;
      var todo := entries.Keys;
      while todo != {}
        invariant todo <= before.Keys
        invariant forall k :: k in entries <==> k in before && (k in todo || !Stale(cfg, before[k], now))
        invariant forall k :: k in entries ==> entries[k] == before[k]
        invariant removed > 0 <==> exists k :: k in before && k !in todo && Stale(cfg, before[k], now)
        modifies `entries
      {
        var k :| k in todo;
        todo := todo - {k};
        if Activity(entries[k]) < cutoff {
          entries := entries - {k};
          removed := removed + 1;
        }
      }
    }

    /** Removes one entry, unqualified before qualified, and among those the least recently active. */
    method EvictOldestLocked() returns (ghost victim: Key)
      requires entries != map[]
      modifies `entries
      ensures IsVictim(cfg, old(entries), victim) && entries == old(entries) - {victim}
    {
      var found := Key("", "");
      var seen := false;
      var todo := entries.Keys;
      while todo != {}
        invariant todo <= entries.Keys
        invariant seen <==> todo != entries.Keys
        invariant seen ==> found in entries
        invariant seen ==> forall k :: k in entries && k !in todo ==> NoMoreProtected(cfg, entries[found], entries[k])
      {
        var k :| k in todo;
        todo := todo - {k};
        var qualified := Qualified(cfg, entries[k]);
        if !seen || (Qualified(cfg, entries[found]) && !qualified)
           || (qualified == Qualified(cfg, entries[found]) && Activity(entries[k]) < Activity(entries[found])) {
          found := k;
        }
        seen := true;
      }
      assert entries.Keys != {};
      victim := found;
      entries := entries - {found};
    }

    /** Evicts entries for as long as a new one would not fit. */
    method RoomFor(k: Key) returns (ghost victim: Key)
      requires WithinCapacity() && k !in entries
      modifies `entries
      ensures entries == MakeRoom(cfg, old(entries), k, victim) && EvictionIsLegal(cfg, old(entries), k, victim)
      ensures |entries| < cfg.maxEntries
    {
      victim := k;
      ghost var before := entries;
      while |entries| >= cfg.maxEntries
        invariant entries == before || (NeedsRoom(cfg, before, k) && IsVictim(cfg, before, victim)
                                        && entries == before - {victim} && |entries| == |before| - 1)
        modifies `entries
      {
        assert entries != map[];
        victim := EvictOldestLocked();
        assert (before - {victim}).Keys == before.Keys - {victim};
      }
    }

    // -------------------------------------------------------------- loops over recipients

    method LearnRecipient(k: Key, now: int) returns (save: bool, ghost victim: Key)
      requires WithinCapacity()
      modifies `entries
      ensures var t := LearnTurn(cfg, old(entries), k, now);
        save == t.save && entries == Take(cfg, old(entries), k, t, victim)
      ensures EvictionIsLegal(cfg, old(entries), k, victim) && WithinCapacity()
    {
      victim := k;
      if k in entries {
        var entry := entries[k];
        var promoted := entry.kind != Outbound && entry.kind != Manual;
        entry := entry.(lastActivity := now);
        if entry.kind != Manual {
          entry := entry.(kind := Outbound, count := 0);
        }
        save := promoted || Due(cfg, entry, now);
        PutKeepsSize(entries, k, entry);
        entries := entries[k := entry];
        return;
      }
      victim := RoomFor(k);
      var entry := Entry(k.local, k.correspondent, now, now, 0, Outbound, 0);
      PutKeepsSize(entries, k, entry);
      entries := entries[k := entry];
      save := true;
    }

    method EvidenceRecipient(k: Key, qualifying: bool, now: int) returns (save: bool, ghost victim: Key)
      requires WithinCapacity()
      modifies `entries
      ensures var t := EvidenceTurn(cfg, old(entries), k, qualifying, now);
        save == (t.Put? && t.save) && entries == Take(cfg, old(entries), k, t, victim)
        && (t.Put? ==> EvictionIsLegal(cfg, old(entries), k, victim))
      ensures WithinCapacity()
    {
      victim, save := k, false;
      if k !in entries {
        if !qualifying {
          return;
        }
        victim := RoomFor(k);
        var entry := Entry(k.local, k.correspondent, now, now, 0, Inbound, 1);
        PutKeepsSize(entries, k, entry);
        entries := entries[k := entry];
        save := true;
        return;
      }
      var entry := entries[k];
      if Qualified(cfg, entry) {
        entry := entry.(lastActivity := now);
        save := Due(cfg, entry, now);
      } else if qualifying {
        entry := entry.(count := entry.count + 1, lastActivity := now);
        save := true;
      } else {
        return;
      }
      PutKeepsSize(entries, k, entry);
      entries := entries[k := entry];
    }

    method VisitRecipient(loop: Loop, r: string, now: int) returns (save: bool, ghost victim: Key)
      requires WithinCapacity()
      modifies `entries
      ensures var t := loop.TurnFor(cfg, old(entries), r, now);
        save == (t.Put? && t.save) && entries == Take(cfg, old(entries), loop.KeyFor(r), t, victim)
        && (t.Put? ==> EvictionIsLegal(cfg, old(entries), loop.KeyFor(r), victim))
      ensures WithinCapacity()
    {
      match loop {
        case Learning(_) => save, victim := LearnRecipient(loop.KeyFor(r), now);
        case Evidence(_, qualifying) => save, victim := EvidenceRecipient(loop.KeyFor(r), qualifying, now);
      }
    }

    method VisitRecipients(loop: Loop, members: set<string>, now: int) returns (save: bool, ghost choices: seq<Choice>)
      requires WithinCapacity()
      modifies `entries
      ensures entries == Turns(cfg, old(entries), loop, choices, now)
      ensures save == TurnsSave(cfg, old(entries), loop, choices, now)
      ensures LegalTurns(cfg, old(entries), loop, choices, now) && Visits(choices, members)
      ensures WithinCapacity()
    {
      hide LearnTurn, EvidenceTurn, Take, EvictionIsLegal, Turns, TurnsSave, LegalTurns, Visited;
      ghost var before := entries;
      save, choices := false, [];
      StartTurns(cfg, entries, loop, now);
      var todo := members;
      while todo != {}
        invariant todo <= members && |choices| + |todo| == |members| && Visited(choices) == members - todo
        invariant entries == Turns(cfg, before, loop, choices, now)
        invariant save == TurnsSave(cfg, before, loop, choices, now)
        invariant LegalTurns(cfg, before, loop, choices, now) && WithinCapacity()
        modifies `entries
      {
        var r :| r in todo;
        todo := todo - {r};
        var asked, victim := VisitRecipient(loop, r, now);
        save := save || asked;
        VisitedMore(choices, Choice(r, victim));
        TurnsMore(cfg, before, loop, choices, Choice(r, victim), now);
        choices := choices + [Choice(r, victim)];
      }
    }

    /** The common tail of both loops: drop stale entries, visit the recipients, save if anything asks. */
    method RunLoopLocked(loop: Loop, members: set<string>, now: int)
      returns (ok: bool, ghost choices: seq<Choice>, ghost outcome: Outcome)
      requires WithinCapacity()
      modifies this, file
      ensures (View(), ok) == RunLoop(cfg, old(View()), loop, choices, now, outcome)
      ensures LegalTurns(cfg, Current(cfg, old(entries), now), loop, choices, now) && Visits(choices, members)
      ensures WithinCapacity()
    {
      ok, outcome := true, Written;
      var removed := RemoveStaleLocked(now);
      SubmapIsSmaller(entries, old(entries));
      var save, order := VisitRecipients(loop, members, now);
      choices := order;
      if removed > 0 || save {
        MarkedKeepsSize(entries);
        ok, outcome := SaveLocked();
      }
    }

    // -------------------------------------------------------------- the operations

    method Learn(localAddress: string, recipients: seq<string>, now: int)
      returns (ok: bool, ghost choices: seq<Choice>, ghost outcome: Outcome)
      requires WithinCapacity()
      modifies this, file
      ensures (View(), ok) == Spec.Learn(cfg, old(View()), now, localAddress, recipients, choices, outcome)
      ensures Learns(cfg, localAddress, recipients) ==>
        Visits(choices, Distinct(cfg, recipients, MAX_LEARNED))
        && LegalTurns(cfg, Current(cfg, old(entries), now), Learning(cfg.normalize(localAddress)), choices, now)
      ensures WithinCapacity()
    {
      choices, outcome := [], Written;
      if !cfg.learnRecipients {
        return true, choices, outcome;
      }
      var local := cfg.normalize(localAddress);
      if local == "" {
        return false, choices, outcome;
      }
      var unique: set<string> := {};
      for i := 0 to |recipients|
        invariant unique == Distinct(cfg, recipients[..i], MAX_LEARNED)
      {
        assert recipients[..i + 1][..i] == recipients[..i];
        var recipient := cfg.normalize(recipients[i]);
        if |unique| >= MAX_LEARNED {
          DistinctIsFull(cfg, recipients, i + 1);
          break;
        }
        if recipient != "" {
          unique := unique + {recipient};
        }
      }
      assert recipients[..|recipients|] == recipients;
      if unique == {} {
        return true, choices, outcome;
      }
      ok, choices, outcome := RunLoopLocked(Learning(local), unique, now);
    }

    method TouchInbound(sender: string, recipients: seq<string>, now: int) returns (ok: bool, ghost outcome: Outcome)
      modifies this, file
      ensures (View(), ok) == Spec.TouchInbound(cfg, old(View()), now, sender, recipients, outcome)
    {
      ok, outcome := true, Written;
      var c := cfg.normalize(sender);
      if !cfg.useAllowlist || c == "" {
        return;
      }
      var rs := Collect(cfg.normalize, recipients);
      var removed := RemoveStaleLocked(now);
      ghost var current := entries;
      var persist := false;
      var todo := entries.Keys;
      while todo != {}
        invariant todo <= current.Keys && entries.Keys == current.Keys
        invariant forall k :: k in entries ==>
          entries[k] == if k in todo then current[k] else TouchedEntries(cfg, current, c, rs, now)[k]
        invariant persist <==> exists k :: k in current && k !in todo && Touched(cfg, current[k], c, rs) && Due(cfg, current[k], now)
        modifies `entries
      {
        var k :| k in todo;
        todo := todo - {k};
        var entry := entries[k];
        if Touched(cfg, entry, c, rs) {
          entry := entry.(lastActivity := now);
          persist := persist || Due(cfg, entry, now);
          entries := entries[k := entry];
        }
      }
      assert entries == TouchedEntries(cfg, current, c, rs, now);
      if removed > 0 || persist {
        ok, outcome := SaveLocked();
      }
    }

    method RecordInbound(sender: string, recipients: seq<string>, complete: bool, classification: string, score: real,
                         unwantedMinScore: real, dkimAligned: bool, now: int)
      returns (ok: bool, ghost choices: seq<Choice>, ghost outcome: Outcome)
      requires WithinCapacity()
      modifies this, file
      ensures (View(), ok) == Spec.RecordInbound(cfg, old(View()), now, sender, recipients, complete, classification, score,
                                                 unwantedMinScore, dkimAligned, choices, outcome)
      ensures classification == "legitimate" && Classifiable(cfg, sender, recipients, complete) ==>
        Visits(choices, Canonical(cfg.normalize, recipients))
        && LegalTurns(cfg, Current(cfg, old(entries), now),
                      Evidence(cfg.normalize(sender), Qualifying(cfg, score, dkimAligned)), choices, now)
      ensures WithinCapacity()
    {
      ok, choices, outcome := true, [], Written;
      var c := cfg.normalize(sender);
      var rs := Collect(cfg.normalize, recipients);
      if !complete || c == "" || rs == {} {
        return;
      }
      if classification == "legitimate" {
        var qualifying := cfg.learnSenders && score >= cfg.minScore && (!cfg.requireDKIM || dkimAligned);
        ok, choices, outcome := RunLoopLocked(Evidence(c, qualifying), rs, now);
        return;
      }
      ok, outcome := Discredit(c, rs, classification == "unwanted" && score >= unwantedMinScore, now);
    }

    /** What a message that is not legitimate does: stale entries go, and after a confident unwanted
        verdict the inbound-learned entries in scope. */
    method Discredit(c: string, rs: set<string>, removing: bool, now: int) returns (ok: bool, ghost outcome: Outcome)
      requires WithinCapacity()
      modifies this, file
      ensures var current := Current(cfg, old(entries), now);
        var s' := old(View()).(entries := if removing then Remaining(cfg, current, c, rs) else current);
        (View(), ok) ==
        if AnyStale(cfg, old(entries), now) || (removing && exists k :: k in current && Discredited(cfg, current[k], c, rs))
        then (Save(s', outcome), !SaveFails(old(View()), outcome)) else (s', true)
      ensures WithinCapacity()
    {
      ok, outcome := true, Written;
      var removed := RemoveStaleLocked(now);
      ghost var current := entries;
      var dropped := 0;
      if removing {
        var todo := entries.Keys;
        while todo != {}
          invariant todo <= current.Keys
          invariant forall k :: k in entries <==> k in current && (k in todo || !Discredited(cfg, current[k], c, rs))
          invariant forall k :: k in entries ==> entries[k] == current[k]
          invariant 0 <= dropped
          invariant dropped > 0 <==> exists k :: k in current && k !in todo && Discredited(cfg, current[k], c, rs)
          modifies `entries
        {
          var k :| k in todo;
          todo := todo - {k};
          if Discredited(cfg, entries[k], c, rs) {
            entries := entries - {k};
            dropped := dropped + 1;
          }
        }
      }
      assert removing ==> entries == Remaining(cfg, current, c, rs);
      SubmapIsSmaller(entries, old(entries));
      if removed > 0 || dropped > 0 {
        MarkedKeepsSize(entries);
        ok, outcome := SaveLocked();
      }
    }

    method PutManual(k: Key, now: int) returns (existed: bool, ghost victim: Key)
      requires WithinCapacity()
      modifies `entries
      ensures existed == (k in old(entries)) && EvictionIsLegal(cfg, old(entries), k, victim)
      ensures entries == MakeRoom(cfg, old(entries), k, victim)[k := ManualEntry(old(entries), k, now)]
      ensures WithinCapacity()
    {
      victim := k;
      existed := k in entries;
      var entry := Entry(k.local, k.correspondent, now, 0, 0, Manual, 0);
      if existed {
        entry := entries[k];
      } else {
        victim := RoomFor(k);
      }
      entry := entry.(lastActivity := now, kind := Manual, count := 0);
      PutKeepsSize(entries, k, entry);
      entries := entries[k := entry];
    }

    method AddManual(sender: string, recipient: string, now: int)
      returns (result: Result<bool>, ghost victim: Key, ghost outcome: Outcome)
      requires WithinCapacity()
      modifies this, file
      ensures (View(), result) == Spec.AddManual(cfg, old(View()), now, sender, recipient, victim, outcome)
      ensures cfg.normalize(sender) != "" && cfg.normalize(recipient) != "" ==>
        EvictionIsLegal(cfg, Current(cfg, old(entries), now), Key(cfg.normalize(recipient), cfg.normalize(sender)), victim)
      ensures WithinCapacity()
    {
      hide Current, MakeRoom, ManualEntry, EvictionIsLegal, AnyStale, Marked;
      var k := Key(cfg.normalize(recipient), cfg.normalize(sender));
      victim, outcome := k, Written;
      if k.correspondent == "" || k.local == "" {
        return Err, victim, outcome;
      }
      var before := entries;
      var _ := RemoveStaleLocked(now);
      CurrentIsSmaller(cfg, before, now);
      var existed, v := PutManual(k, now);
      victim := v;
      MarkedKeepsSize(entries);
      var saved, o := SaveLocked();
      outcome := o;
      if !saved {
        entries := before;
        return Err, victim, outcome;
      }
      result := Ok(!existed);
    }

    method DeleteManual(sender: string, recipient: string, now: int) returns (result: Result<nat>, ghost outcome: Outcome)
      modifies this, file
      ensures (View(), result) == Spec.DeleteManual(cfg, old(View()), now, sender, recipient, outcome)
    {
      outcome := Written;
      var c, all, l := cfg.normalize(sender), recipient == "*", cfg.normalize(recipient);
      if c == "" || (!all && l == "") {
        return Err, outcome;
      }
      var before := entries;
      var stale := RemoveStaleLocked(now);
      ghost var current := entries;
      var gone: set<Key> := {};
      var todo := entries.Keys;
      while todo != {}
        invariant todo <= current.Keys && gone <= current.Keys
        invariant forall k :: k in gone <==> k in current && k !in todo && Deleted(current[k], c, all, l)
        invariant entries == current - gone
        modifies `entries
      {
        var k :| k in todo;
        todo := todo - {k};
        if entries[k].correspondent == c && (all || entries[k].local == l) {
          entries := entries - {k};
          gone := gone + {k};
        }
      }
      assert gone == set k | k in current && Deleted(current[k], c, all, l);
      if gone != {} || stale > 0 {
        var saved, o := SaveLocked();
        outcome := o;
        if !saved {
          entries := before;
          return Err, outcome;
        }
      } else {
        assert entries == before;
      }
      result := Ok(|gone|);
    }

    method RemoveStale(now: int) returns (ghost outcome: Outcome)
      modifies this, file
      ensures View() == Spec.RemoveStale(cfg, old(View()), now, outcome)
    {
      outcome := Written;
      var removed := RemoveStaleLocked(now);
      if removed > 0 {
        var _, o := SaveLocked();
        outcome := o;
      }
    }

    method Match(sender: string, recipients: seq<string>, now: int) returns (result: MatchResult, ghost outcome: Outcome)
      modifies this, file
      ensures (View(), result) == Spec.Lookup(cfg, old(View()), now, sender, recipients, outcome)
    {
      outcome := Written;
      var c := cfg.normalize(sender);
      if !cfg.useAllowlist || c == "" {
        return MatchResult(false, false, 0, 0), outcome;
      }
      outcome := RemoveStale(now);
      if cfg.scope == Global {
        var known := false;
        var todo := entries.Keys;
        while todo != {} && !known
          invariant todo <= entries.Keys
          invariant known ==> exists k :: k in entries && entries[k].correspondent == c && Qualified(cfg, entries[k])
          invariant !known ==> forall k :: k in entries && k !in todo ==> !(entries[k].correspondent == c && Qualified(cfg, entries[k]))
        {
          var k :| k in todo;
          todo := todo - {k};
          known := entries[k].correspondent == c && Qualified(cfg, entries[k]);
        }
        return MatchResult(known, known, if known then 1 else 0, 1), outcome;
      }
      var rs := Collect(cfg.normalize, recipients);
      if rs == {} {
        return MatchResult(false, false, 0, 0), outcome;
      }
      var hits: set<string> := {};
      var todo := rs;
      while todo != {}
        invariant todo <= rs
        invariant forall r :: r in hits <==> r in rs && r !in todo && Key(r, c) in entries && Qualified(cfg, entries[Key(r, c)])
      {
        var r :| r in todo;
        todo := todo - {r};
        if Key(r, c) in entries && Qualified(cfg, entries[Key(r, c)]) {
          hits := hits + {r};
        }
      }
      assert hits == set r | r in rs && Key(r, c) in entries && Qualified(cfg, entries[Key(r, c)]);
      result := MatchResult(hits != {}, |hits| == |rs|, |hits|, |rs|);
    }

    // -------------------------------------------------------------- loading

    /** Fills the map from the entries of a file; tells whether any is not as it would be written. */
    method LoadEntries(stored: seq<StoredEntry>) returns (changed: bool)
      requires entries == map[]
      modifies `entries
      ensures entries == LoadAll(cfg, stored) && changed == AnyOutdated(cfg, stored)
    {
      changed := false;
      for i := 0 to |stored|
        invariant entries == LoadAll(cfg, stored[..i])
        invariant changed <==> exists j :: 0 <= j < i && Outdated(cfg, stored[j])
        modifies `entries
      {
        assert stored[..i + 1][..i] == stored[..i];
        var kept, entry, outdated := RereadEntry(stored[i]);
        changed := changed || outdated;
        if !kept {
          continue;
        }
        entries := entries[entry.KeyOf() := entry];
      }
      assert stored[..|stored|] == stored;
    }

    method RereadEntry(stored: StoredEntry) returns (kept: bool, entry: Entry, changed: bool)
      ensures kept == Reread(cfg, stored).Some? && changed == Outdated(cfg, stored)
      ensures kept ==> entry == Reread(cfg, stored).value
    {
      changed := false;
      entry := stored.entry.(correspondent := cfg.normalize(stored.entry.correspondent), local := cfg.normalize(stored.entry.local));
      if entry.correspondent == "" || entry.local == "" {
        return false, entry, true;
      }
      if entry.lastActivity == 0 {
        entry := entry.(lastActivity := entry.learnedAt);
        changed := true;
      }
      match stored.kind {
        case NoKind =>
          entry := entry.(kind := Outbound);
          changed := true;
        case OfKind(kind) => entry := entry.(kind := kind);
        case UnknownKind => return false, entry, true;
      }
      if (entry.kind == Outbound || entry.kind == Manual) && entry.count != 0 {
        entry := entry.(count := 0);
        changed := true;
      }
      entry := entry.(persisted := entry.lastActivity);
      kept := true;
    }

    /** Evicts until the entries fit. */
    method TrimLocked() returns (ghost victims: seq<Key>)
      modifies `entries
      ensures entries == Without(old(entries), victims) && LegalEvictions(cfg, old(entries), victims)
      ensures |entries| <= cfg.maxEntries
      ensures |victims| == if |old(entries)| > cfg.maxEntries then |old(entries)| - cfg.maxEntries else 0
    {
      victims := [];
      while |entries| > cfg.maxEntries
        invariant entries == Without(old(entries), victims) && LegalEvictions(cfg, old(entries), victims)
        invariant |entries| + |victims| == |old(entries)| && (victims != [] ==> |entries| >= cfg.maxEntries)
        modifies `entries
      {
        ghost var before := entries;
        var victim := EvictOldestLocked();
        assert (before - {victim}).Keys == before.Keys - {victim};
        assert (victims + [victim])[..|victims|] == victims;
        victims := victims + [victim];
      }
    }

    /** Takes over what was read from the file. */
    method Load(version: nat, stored: seq<StoredEntry>, now: int) returns (ok: bool, ghost victims: seq<Key>, ghost outcome: Outcome)
      requires entries == map[]
      modifies this, file
      ensures (View(), ok) == Spec.Load(cfg, old(View()), version, stored, now, victims, outcome)
      ensures LegalEvictions(cfg, Current(cfg, LoadAll(cfg, stored), now), victims)
      ensures |entries| <= cfg.maxEntries
    {
      hide LoadAll, AnyOutdated, AnyStale, Current, Without, LegalEvictions, Marked;
      ok, victims, outcome := true, [], Written;
      NoEvictions(cfg, Current(cfg, LoadAll(cfg, stored), now));
      if version != LEGACY_VERSION && version != FILE_VERSION {
        return false, victims, outcome;
      }
      var changed := version != FILE_VERSION;
      var outdated := LoadEntries(stored);
      var removed := RemoveStaleLocked(now);
      var tooMany := |entries| > cfg.maxEntries;
      victims := TrimLocked();
      MarkedKeepsSize(entries);
      if changed || outdated || removed > 0 || tooMany {
        ok, outcome := SaveLocked();
      }
    }
  }

  lemma NoEvictions(cfg: Config, entries: map<Key, Entry>)
    ensures Without(entries, []) == entries && LegalEvictions(cfg, entries, [])
  {
  }

  // ---------------------------------------------------------------- sizes and sets

  lemma {:induction false} SubmapIsSmaller(small: map<Key, Entry>, big: map<Key, Entry>)
    requires small.Keys <= big.Keys
    ensures |small| <= |big|
    decreases small
  {
    if k :| k in small.Keys {
      SubmapIsSmaller(small - {k}, big - {k});
      assert |small - {k}| == |small| - 1 by { assert (small - {k}).Keys == small.Keys - {k}; }
      assert |big - {k}| == |big| - 1 by { assert (big - {k}).Keys == big.Keys - {k}; }
    }
  }

  lemma CurrentIsSmaller(cfg: Config, entries: map<Key, Entry>, now: int)
    ensures |Current(cfg, entries, now)| <= |entries|
  {
    SubmapIsSmaller(Current(cfg, entries, now), entries);
  }

  lemma PutKeepsSize(entries: map<Key, Entry>, k: Key, e: Entry)
    ensures |entries[k := e]| == |entries| + if k in entries then 0 else 1
  {
    assert entries[k := e].Keys == entries.Keys + {k};
  }

  lemma MarkedKeepsSize(entries: map<Key, Entry>)
    ensures |Marked(entries)| == |entries|
  {
    assert Marked(entries).Keys == entries.Keys;
  }

  lemma VisitedMore(choices: seq<Choice>, c: Choice)
    ensures Visited(choices + [c]) == Visited(choices) + {c.recipient}
  {
    var more := choices + [c];
    forall r | r in Visited(choices) ensures r in Visited(more) {
      var i :| 0 <= i < |choices| && choices[i].recipient == r;
      assert more[i].recipient == r;
    }
    assert more[|choices|] == c;
  }

  lemma StartTurns(cfg: Config, entries: map<Key, Entry>, loop: Loop, now: int)
    ensures Turns(cfg, entries, loop, [], now) == entries && !TurnsSave(cfg, entries, loop, [], now)
    ensures LegalTurns(cfg, entries, loop, [], now) && Visited([]) == {}
  {
  }

  lemma TurnsMore(cfg: Config, entries: map<Key, Entry>, loop: Loop, choices: seq<Choice>, c: Choice, now: int)
    ensures var before := Turns(cfg, entries, loop, choices, now);
      var t := loop.TurnFor(cfg, before, c.recipient, now);
      && Turns(cfg, entries, loop, choices + [c], now) == Take(cfg, before, loop.KeyFor(c.recipient), t, c.victim)
      && TurnsSave(cfg, entries, loop, choices + [c], now) == (TurnsSave(cfg, entries, loop, choices, now) || (t.Put? && t.save))
      && (LegalTurns(cfg, entries, loop, choices + [c], now) <==>
            LegalTurns(cfg, entries, loop, choices, now)
            && (t.Put? ==> EvictionIsLegal(cfg, before, loop.KeyFor(c.recipient), c.victim)))
  {
    hide LearnTurn, EvidenceTurn, Take, EvictionIsLegal;
    assert (choices + [c])[..|choices|] == choices;
  }

  lemma {:induction false} DistinctIsFull(cfg: Config, recipients: seq<string>, i: nat)
    requires 0 < i <= |recipients| && |Distinct(cfg, recipients[..i - 1], MAX_LEARNED)| >= MAX_LEARNED
    ensures Distinct(cfg, recipients, MAX_LEARNED) == Distinct(cfg, recipients[..i - 1], MAX_LEARNED)
    decreases |recipients| - i
  {
    assert recipients[..i][..i - 1] == recipients[..i - 1];
    if i < |recipients| {
      DistinctIsFull(cfg, recipients, i + 1);
    } else {
      assert recipients[..i] == recipients;
    }
  }
}
