/**
 What the sending-IP reputation database answers and records, in numbers: who is blocked, until
 when and why; which strikes count; what evidence and administrators change; what is loaded.
 */
module IpReputationAnswers {
  import opened BoundedHistory
  import opened IpReputation
  import opened IpReputationRuns
  import opened NetworkAddress
  import opened Options
  import opened StateFile
  import H = IpReputationHistory

  /** Pruning keeps, in order, exactly the strikes that are less than the window ago. */
  lemma PruneKeepsRecent(cfg: Config, strikes: seq<int>, now: int) returns (kept: seq<nat>)
    requires cfg.repeatThreshold > 0 && cfg.repeatWindow > 0
    ensures |Prune(cfg, strikes, now)| == |kept|
    ensures forall j :: 0 <= j < |kept| ==> kept[j] < |strikes| && Prune(cfg, strikes, now)[j] == strikes[kept[j]]
    ensures forall j, k :: 0 <= j < k < |kept| ==> kept[j] < kept[k]
    ensures forall i :: i in kept <==> 0 <= i < |strikes| && now - strikes[i] < cfg.repeatWindow
  {
    kept := LivePositions(strikes, TIME, WindowStart(cfg, now));
  }

  /** How many strikes are kept: none without a threshold or a window. */
  lemma PruneCounts(cfg: Config, strikes: seq<int>, now: int)
    ensures |Prune(cfg, strikes, now)| ==
      if cfg.repeatThreshold > 0 && cfg.repeatWindow > 0 then |set i | 0 <= i < |strikes| && now - strikes[i] < cfg.repeatWindow| else 0
    ensures Prune(cfg, strikes, now) != [] <==>
      cfg.repeatThreshold > 0 && cfg.repeatWindow > 0 && exists i :: 0 <= i < |strikes| && now - strikes[i] < cfg.repeatWindow
  {
    H.RecentCount(cfg, strikes, now);
    if cfg.repeatThreshold > 0 && cfg.repeatWindow > 0 {
      var kept := PruneKeepsRecent(cfg, strikes, now);
      if kept != [] {
        assert kept[0] in kept;
      }
    }
  }

  // ---------------------------------------------------------------- lookups

  /** The feature is on and the peer is neither invalid nor exempt. */
  predicate Watched(cfg: Config, addr: Addr)
  {
    cfg.maxSize > 0 && (cfg.shortDuration > 0 || cfg.repeatThreshold > 0)
    && !addr.Invalid? && !cfg.allowlisted(if addr.V4In6? then V4(addr.bits) else addr)
  }

  function Plain(addr: Addr): Addr { if addr.V4In6? then V4(addr.bits) else addr }

  /** A peer is blocked exactly when it has a record with a block that ends after now; it is told the reason of the record,
      and a repeat block that attempts prolong ends a full repeat duration from now. */
  lemma LookupAnswer(cfg: Config, s: State, now: int, addr: Addr, w: Outcome)
    ensures var answer := Lookup(cfg, s, now, addr, w).1;
      && (answer.Blocked? <==> Watched(cfg, addr) && Plain(addr) in s.entries && s.entries[Plain(addr)].level != NoBlock
                               && s.entries[Plain(addr)].until > now)
      && (answer.Blocked? ==>
            var r := s.entries[Plain(addr)];
            && answer.level == r.level && answer.classification == r.classification && answer.score == r.score
            && answer.expires == (if r.level == Repeat && cfg.refreshOnAttempt then now + cfg.repeatDuration else r.until)
            && answer.strikeCount == |Prune(cfg, r.strikes, now)|)
  {
    hide Prune, Commit;
  }

  /** What an attempt makes of a record: an expired repeat block ends it, an expired short block ends with its strikes kept, a
      running repeat block is prolonged if that is configured, and nothing else changes but that old strikes go. A record
      without block and strikes goes. */
  lemma AttemptAnswer(cfg: Config, r: Record, now: int)
    ensures var kept, c := Prune(cfg, r.strikes, now), LookupChange(cfg, r, now).record;
      && (r.level == Repeat && r.until <= now ==> c == None)
      && (r.level == Short && r.until <= now ==> c == if kept == [] then None else Some(r.(strikes := kept, level := NoBlock, until := 0)))
      && (r.level == NoBlock ==> c == if kept == [] then None else Some(r.(strikes := kept)))
      && (r.until > now && (r.level == Short || (r.level == Repeat && !cfg.refreshOnAttempt)) ==> c == Some(r.(strikes := kept)))
      && (r.until > now && r.level == Repeat && cfg.refreshOnAttempt ==>
            c == Some(r.(strikes := kept, until := now + cfg.repeatDuration, lastActivity := now,
                         persistedRefresh := if now - r.persistedRefresh >= cfg.refreshInterval then now else r.persistedRefresh)))
  {
    hide Prune;
  }

  /** An attempt on a repeat block moves its end and activity to now; what it says and when it was last saved stay,
      unless the refresh interval is over. */
  lemma AttemptProlongs(cfg: Config, s: State, now: int, addr: Addr, w: Outcome)
    requires Watched(cfg, addr) && Plain(addr) in s.entries && cfg.refreshOnAttempt
    requires s.entries[Plain(addr)].level == Repeat && s.entries[Plain(addr)].until > now
    ensures var a, after := Plain(addr), Lookup(cfg, s, now, addr, w).0;
      && after.entries.Keys == s.entries.Keys && (forall b :: b in s.entries && b != a ==> after.entries[b] == s.entries[b])
      && after.entries[a].until == now + cfg.repeatDuration && after.entries[a].lastActivity == now && after.entries[a].level == Repeat
      && after.entries[a].persistedRefresh ==
           (if now - s.entries[a].persistedRefresh >= cfg.refreshInterval then now else s.entries[a].persistedRefresh)
      && (s.deferred && !s.dirty ==> (after.dirty <==> now - s.entries[a].persistedRefresh >= cfg.refreshInterval))
      && (s.deferred ==> after.disk == s.disk)
  {
    hide Prune;
  }

  // ---------------------------------------------------------------- rejections

  /** The record after a rejection: the recent strikes and this one, the last `repeatThreshold` of them, decide between
      a repeat block and a short one; legitimate credit starts over. */
  lemma RejectionAnswer(cfg: Config, r: Record, now: int, classification: string, score: real)
    ensures var r', kept := Rejected(cfg, r, now, classification, score), Prune(cfg, r.strikes, now);
      var n := |kept| + 1;
      && r'.classification == classification && r'.score == score && r'.lastActivity == now && r'.legitimate == 0
      && r'.persistedRefresh == now
      && (cfg.repeatThreshold == 0 ==> r'.strikes == [])
      && (cfg.repeatThreshold > 0 && n <= cfg.repeatThreshold ==> r'.strikes == kept + [now])
      && (0 < cfg.repeatThreshold < n ==> r'.strikes == (kept + [now])[n - cfg.repeatThreshold..])
      && (if 0 < cfg.repeatThreshold <= n then r'.level == Repeat && r'.until == now + cfg.repeatDuration
          else if cfg.shortDuration > 0 then r'.level == Short && r'.until == now + cfg.shortDuration
          else r'.level == r.level && r'.until == r.until)
  {
  }

  /** Only rejections of watched peers without an exempt host name are recorded; the record starts from what a
      cleanup leaves of the old one. */
  lemma RejectionIsRecorded(cfg: Config, s: State, e: Event)
    requires e.op.Rejection? && Legal(cfg, s, e)
    ensures !Watched(cfg, e.op.addr) || e.op.exempt ==> Step(cfg, s, e) == s
    ensures Watched(cfg, e.op.addr) && !e.op.exempt ==>
      var a, cleaned := Plain(e.op.addr), CleanedEntries(cfg, s.entries, e.now);
      a in Step(cfg, s, e).entries &&
      Step(cfg, s, e).entries[a] == Rejected(cfg, if a in cleaned then cleaned[a] else Record([], NoBlock, 0, "", 0.0, 0, 0, 0),
                                             e.now, e.op.classification, e.op.score)
  {
    hide Prune, Rejected, Cleanup, CleanedEntries;
    FateHolds(cfg, s, e, Plain(e.op.addr));
  }

  // ---------------------------------------------------------------- cleanup

  lemma RecordCleaned(cfg: Config, r: Record, now: int)
    ensures Survives(cfg, r, now) <==>
      (r.level != NoBlock && r.until > now) || (!(r.level == Repeat && r.until <= now) && Prune(cfg, r.strikes, now) != [])
    ensures Cleaned(cfg, r, now) ==
      var pruned := r.(strikes := Prune(cfg, r.strikes, now));
      if r.level == Short && r.until <= now then pruned.(level := NoBlock, until := 0) else pruned
  {
    hide Prune;
  }

  /** What a cleanup keeps: records with an unexpired block, and records with a recent strike that have no expired
      repeat block; it ends expired short blocks and keeps the rest of a record but its old strikes. */
  lemma CleanupAnswer(cfg: Config, entries: map<Addr, Record>, now: int, a: Addr)
    ensures var cleaned := CleanedEntries(cfg, entries, now);
      && (a in cleaned <==>
            (a in entries &&
             ((entries[a].level != NoBlock && entries[a].until > now)
              || (!(entries[a].level == Repeat && entries[a].until <= now) && Prune(cfg, entries[a].strikes, now) != []))))
      && (a in cleaned ==>
            var r, c := entries[a], cleaned[a];
            && c.strikes == Prune(cfg, r.strikes, now) && c.classification == r.classification && c.score == r.score
            && c.legitimate == r.legitimate && c.lastActivity == r.lastActivity && c.persistedRefresh == r.persistedRefresh
            && (if r.level == Short && r.until <= now then c.level == NoBlock && c.until == 0 else c.level == r.level && c.until == r.until))
  {
    hide Prune;
  }

  // ---------------------------------------------------------------- legitimate evidence

  /** What legitimate evidence makes of a record: without recent strikes it goes unless a block still runs; with some, the
      message counts, and the `legitimatePerStrike`-th forgives the oldest strike. It never touches the block. */
  lemma LegitimateAnswer(cfg: Config, r: Record, now: int)
    requires cfg.legitimatePerStrike > 0
    ensures var kept, c := Prune(cfg, r.strikes, now), LegitimateChange(cfg, r, now).record;
      && (kept == [] && (r.level == NoBlock || r.until <= now) ==> c == None)
      && (kept == [] && r.level != NoBlock && r.until > now ==> c == Some(r.(strikes := [], legitimate := 0)))
      && (kept != [] && r.legitimate + 1 < cfg.legitimatePerStrike ==>
            c == Some(r.(strikes := kept, legitimate := r.legitimate + 1, lastActivity := now)))
      && (kept != [] && r.legitimate + 1 >= cfg.legitimatePerStrike ==>
            c == if |kept| == 1 && r.level == NoBlock then None
                 else Some(r.(strikes := kept[1..], legitimate := 0, lastActivity := now)))
  {
    hide Prune;
  }

  /** Evidence counts only for a valid address with a record, in a feature that is on and gives credit. */
  lemma LegitimateIsRecorded(cfg: Config, s: State, now: int, addr: Addr, w: Outcome)
    ensures var after, a := RecordLegitimate(cfg, s, now, addr, w), Plain(addr);
      var counts := cfg.maxSize > 0 && (cfg.shortDuration > 0 || cfg.repeatThreshold > 0) && cfg.legitimatePerStrike > 0
                    && !addr.Invalid? && a in s.entries;
      && (!counts ==> after == s)
      && (counts ==> (a in after.entries <==> LegitimateChange(cfg, s.entries[a], now).record.Some?))
      && (counts && a in after.entries ==> LegitimateChange(cfg, s.entries[a], now).record == Some(after.entries[a]))
      && (forall b :: b != a ==> (b in after.entries <==> b in s.entries))
      && (forall b :: b != a && b in s.entries ==> after.entries[b] == s.entries[b])
  {
    hide LegitimateChange;
  }

  // ---------------------------------------------------------------- administrators

  /** A manual block of a watched address lasts the repeat duration, or the short one when that is not configured, and is
      reported to later lookups as manual with full score. */
  lemma ManualBlockHolds(cfg: Config, s: State, now: int, addr: Addr, victim: Addr, w: Outcome, later: int, w': Outcome)
    requires cfg.Sane() && now <= later
    ensures ManualAdd(cfg, s, now, addr, victim, w).1 <==>
      Watched(cfg, addr) && (cfg.repeatDuration > 0 || cfg.shortDuration > 0) && (s.deferred || !cfg.hasFile || w == Written)
    ensures !ManualAdd(cfg, s, now, addr, victim, w).1 ==> ManualAdd(cfg, s, now, addr, victim, w).0.entries == s.entries
    ensures ManualAdd(cfg, s, now, addr, victim, w).1 ==>
      var answer := Lookup(cfg, ManualAdd(cfg, s, now, addr, victim, w).0, later, addr, w').1;
      var until := now + if cfg.repeatDuration > 0 then cfg.repeatDuration else cfg.shortDuration;
      var a, after := Plain(addr), ManualAdd(cfg, s, now, addr, victim, w).0.entries;
      && a in after && after[a].lastActivity == now && after[a].legitimate == 0 && after[a].persistedRefresh == now
      && after[a].strikes == (if a in s.entries then s.entries[a].strikes else [])
      && (answer.Blocked? <==> later < until)
      && (answer.Blocked? ==> answer.classification == "manual" && answer.score == 1.0
                              && answer.level == (if cfg.repeatDuration > 0 then Repeat else Short) && answer.expires >= until)
  {
    hide Lookup, Prune;
    LookupAnswer(cfg, ManualAdd(cfg, s, now, addr, victim, w).0, later, addr, w');
  }

  /** A manual deletion of a recorded address removes its record and no other, unless the file cannot be written. */
  lemma ManualDeleteHolds(cfg: Config, s: State, addr: Addr, w: Outcome)
    ensures ManualDelete(cfg, s, addr, w).1 <==>
      !addr.Invalid? && Plain(addr) in s.entries && (s.deferred || !cfg.hasFile || w == Written)
    ensures ManualDelete(cfg, s, addr, w).0.entries ==
      if ManualDelete(cfg, s, addr, w).1 then (map a | a in s.entries && a != Plain(addr) :: s.entries[a]) else s.entries
  {
  }

  // ---------------------------------------------------------------- files

  /** What is loaded from a file: nothing when it holds too many records, else what a cleanup keeps of it, with at most
      the last `repeatThreshold` strikes and as if just saved. */
  lemma LoadAnswer(cfg: Config, disk: map<Addr, Record>, now: int, a: Addr)
    ensures var loaded, cleaned := Load(cfg, disk, now), CleanedEntries(cfg, disk, now);
      && (a in loaded <==> |disk| <= cfg.maxSize && a in cleaned)
      && (a in loaded ==>
            var n, strikes := |cleaned[a].strikes|, loaded[a].strikes;
            && strikes == cleaned[a].strikes[if n <= cfg.repeatThreshold then 0 else n - cfg.repeatThreshold..]
            && loaded[a] == cleaned[a].(strikes := strikes, persistedRefresh := now))
  {
    hide Prune;
  }
}
