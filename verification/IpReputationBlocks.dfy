/**
 Blocks over time: a reported block stays reported until it expires, lookups and
 legitimate evidence disturb nobody else, and the administrator's list agrees with
 what the Milter would enforce at that instant.
 */
module IpReputationBlocks {
  import opened BoundedHistory
  import opened Options
  import opened StateFile
  import opened IpReputation
  import opened NetworkAddress
  import opened IpReputationRuns
  import IpReputationAnswers

  ghost predicate BlockedUntil(s: State, a: Addr, expiry: int)
  {
    a in s.entries && s.entries[a].level != NoBlock && s.entries[a].until >= expiry
  }

  /** The events that may replace or remove the block of `a` before it expires. */
  predicate Touches(cfg: Config, s: State, e: Event, a: Addr)
  {
    ((e.op.Rejection? || e.op.Block? || e.op.Unblock?) && Key(e) == a) || Evicts(cfg, s, e, a)
  }

  lemma BlockSurvivesStep(cfg: Config, s: State, t: int, e: Event, a: Addr, expiry: int)
    requires EntriesOk(cfg, s.entries, t) && t <= e.now < expiry
    requires BlockedUntil(s, a, expiry) && !Touches(cfg, s, e, a)
    ensures BlockedUntil(Step(cfg, s, e), a, expiry)
  {
    hide Step, Prune;
    FateHolds(cfg, s, e, a);
    assert RecordOk(cfg, a, s.entries[a], t);
  }

  /** The answer an attempt receives. */
  function AnswerAt(cfg: Config, s0: State, es: seq<Event>, i: nat): Answer
    requires i < |es| && es[i].op.Attempt?
  {
    Lookup(cfg, AfterFrom(cfg, s0, es[..i]), es[i].now, es[i].op.addr, es[i].op.write).1
  }

  lemma AttemptLeavesBlock(cfg: Config, s0: State, es: seq<Event>, i: nat)
    requires i < |es| && es[i].op.Attempt? && AnswerAt(cfg, s0, es, i).Blocked?
    ensures cfg.Enabled() && BlockedUntil(AfterFrom(cfg, s0, es[..i + 1]), Key(es[i]), AnswerAt(cfg, s0, es, i).expires)
  {
    assert es[..i + 1][..i] == es[..i];
  }

  lemma {:induction false} BlockSurvives(cfg: Config, s0: State, start: int, es: seq<Event>, i: nat, j: nat, a: Addr, expiry: int)
    requires cfg.Sane() && StoreOk(cfg, s0, start) && RunFrom(cfg, s0, start, es) && i <= j <= |es|
    requires BlockedUntil(AfterFrom(cfg, s0, es[..i]), a, expiry)
    requires forall k :: i <= k < j ==> es[k].now < expiry && !Touches(cfg, AfterFrom(cfg, s0, es[..k]), es[k], a)
    ensures BlockedUntil(AfterFrom(cfg, s0, es[..j]), a, expiry)
  {
    hide Step, Touches, EntriesOk, Legal;
    if i < j {
      BlockSurvives(cfg, s0, start, es, i, j - 1, a, expiry);
      RunPrefix(cfg, s0, start, es, j);
      assert es[..j][..j - 1] == es[..j - 1];
      RunOk(cfg, s0, start, es[..j - 1]);
      BlockSurvivesStep(cfg, AfterFrom(cfg, s0, es[..j - 1]), ClockFrom(start, es[..j - 1]), es[j - 1], a, expiry);
    }
  }

  lemma {:induction false} ClockOrders(cfg: Config, s0: State, start: int, es: seq<Event>, k: nat, j: nat)
    requires RunFrom(cfg, s0, start, es) && k <= j < |es|
    ensures es[k].now <= es[j].now
  {
    hide Step, Legal;
    RunPrefix(cfg, s0, start, es, j + 1);
    assert es[..j + 1][..j] == es[..j];
    if k < j {
      ClockOrders(cfg, s0, start, es[..j + 1][..j], k, j - 1);
    }
  }

  /** Once an attempt was told that a block lasts until E, every later attempt of the same
      address before E is told of a block at least as long, unless something other than
      lookups, evidence and listings touched that address in between. */
  lemma BlockPersists(cfg: Config, s0: State, start: int, es: seq<Event>, i: nat, j: nat)
    requires cfg.Sane() && StoreOk(cfg, s0, start) && RunFrom(cfg, s0, start, es) && i < j < |es|
    requires es[i].op.Attempt? && es[j].op.Attempt? && Key(es[i]) == Key(es[j])
    requires AnswerAt(cfg, s0, es, i).Blocked? && es[j].now < AnswerAt(cfg, s0, es, i).expires
    requires forall k :: i < k < j ==> !Touches(cfg, AfterFrom(cfg, s0, es[..k]), es[k], Key(es[i]))
    ensures AnswerAt(cfg, s0, es, j).Blocked? && AnswerAt(cfg, s0, es, j).expires >= AnswerAt(cfg, s0, es, i).expires
  {
    hide AfterFrom, RunFrom, Step, Legal, Touches, EntriesOk, Lookup;
    var a, expiry := Key(es[i]), AnswerAt(cfg, s0, es, i).expires;
    AttemptLeavesBlock(cfg, s0, es, i);
    forall k | i < k < j ensures es[k].now < expiry {
      ClockOrders(cfg, s0, start, es, k, j);
    }
    BlockSurvives(cfg, s0, start, es, i + 1, j, a, expiry);
    RunPrefix(cfg, s0, start, es, j + 1);
    assert es[..j + 1][..j] == es[..j];
    RunPrefix(cfg, s0, start, es, j);
    RunOk(cfg, s0, start, es[..j]);
    BlockIsReported(cfg, AfterFrom(cfg, s0, es[..j]), ClockFrom(start, es[..j]), es[j].now, es[j].op.addr, es[j].op.write, expiry);
  }

  lemma BlockIsReported(cfg: Config, s: State, t: int, now: int, addr: Addr, write: Outcome, expiry: int)
    requires EntriesOk(cfg, s.entries, t) && t <= now < expiry && cfg.Enabled()
    requires BlockedUntil(s, addr.Unmap(), expiry)
    ensures var answer := Lookup(cfg, s, now, addr, write).1; answer.Blocked? && answer.expires >= expiry
  {
    assert RecordOk(cfg, addr.Unmap(), s.entries[addr.Unmap()], t);
  }

  /** A lookup never changes another address's answer, then or later. */
  lemma LookupIsolated(cfg: Config, s: State, now: int, addr: Addr, w: Outcome, other: Addr, later: int, w': Outcome)
    requires addr.Unmap() != other.Unmap()
    ensures Lookup(cfg, Lookup(cfg, s, now, addr, w).0, later, other, w').1 == Lookup(cfg, s, later, other, w').1
  {
    hide LookupChange;
  }

  lemma LookupBlocksIff(cfg: Config, s: State, now: int, addr: Addr, w: Outcome)
    ensures Lookup(cfg, s, now, addr, w).1.Blocked? <==>
      var a := addr.Unmap();
      cfg.Enabled() && cfg.Tracked(addr) && a in s.entries && s.entries[a].level != NoBlock && s.entries[a].until > now
  {
    hide Prune, Commit;
  }

  lemma LegitimateKeepsBlock(cfg: Config, r: Record, now: int)
    ensures var c := LegitimateChange(cfg, r, now).record;
      if c.Some? then c.value.level == r.level && c.value.until == r.until else r.level == NoBlock || r.until <= now
  {
    hide Prune;
  }

  /** Legitimate evidence creates no record and changes no decision, now or later. */
  lemma LegitimateEvidenceIsHarmless(cfg: Config, s: State, now: int, addr: Addr, w: Outcome, other: Addr, later: int, w': Outcome)
    requires now <= later
    ensures RecordLegitimate(cfg, s, now, addr, w).entries.Keys <= s.entries.Keys
    ensures Lookup(cfg, RecordLegitimate(cfg, s, now, addr, w), later, other, w').1.Blocked?
       <==> Lookup(cfg, s, later, other, w').1.Blocked?
  {
    hide LegitimateChange, Lookup;
    LookupBlocksIff(cfg, s, later, other, w');
    LookupBlocksIff(cfg, RecordLegitimate(cfg, s, now, addr, w), later, other, w');
    if addr.Unmap() in s.entries {
      LegitimateKeepsBlock(cfg, s.entries[addr.Unmap()], now);
    }
  }

  /** What a lookup reports is the record's block, perhaps prolonged. */
  lemma LookupReports(cfg: Config, s: State, now: int, addr: Addr, w: Outcome, t: int)
    requires Lookup(cfg, s, now, addr, w).1.Blocked? && addr.Unmap() in s.entries
    requires RecordOk(cfg, addr.Unmap(), s.entries[addr.Unmap()], t) && t <= now
    ensures var answer, r := Lookup(cfg, s, now, addr, w).1, s.entries[addr.Unmap()];
      answer.level == r.level && r.until <= answer.expires
  {
    hide Prune, Commit;
  }

  lemma ListedIff(cfg: Config, s: State, now: int, w: Outcome, a: Addr)
    requires cfg.Enabled()
    ensures var listed := ListActive(cfg, s, now, w).1;
      && (forall b :: b in listed && b.addr == a ==> a in s.entries && b == ActiveBlock(a, s.entries[a].level, s.entries[a].until))
      && ((exists b :: b in listed && b.addr == a) <==> a in s.entries && s.entries[a].level != NoBlock && s.entries[a].until > now)
  {
    hide Prune, Save, Changes;
    if a in s.entries && s.entries[a].level != NoBlock && s.entries[a].until > now {
      assert a in CleanedEntries(cfg, s.entries, now);
      assert ActiveBlock(a, s.entries[a].level, s.entries[a].until) in ListActive(cfg, s, now, w).1;
    }
  }

  /** The list of active blocks is exactly what lookups would enforce at that instant. */
  lemma ListMatchesLookup(cfg: Config, s0: State, start: int, es: seq<Event>, now: int, addr: Addr, w: Outcome, w': Outcome)
    requires cfg.Sane() && StoreOk(cfg, s0, start) && RunFrom(cfg, s0, start, es) && ClockFrom(start, es) <= now
    ensures var s := AfterFrom(cfg, s0, es); var listed := ListActive(cfg, s, now, w).1;
      var answer := Lookup(cfg, s, now, addr, w').1;
      && (answer.Blocked? <==> exists b :: b in listed && b.addr == addr.Unmap())
      && (forall b :: b in listed && b.addr == addr.Unmap() ==> b.level == answer.level && b.expires <= answer.expires)
  {
    hide AfterFrom, ListActive, Lookup;
    var s, a := AfterFrom(cfg, s0, es), addr.Unmap();
    RunOk(cfg, s0, start, es);
    LookupBlocksIff(cfg, s, now, addr, w');
    NothingWhenDisabled(cfg, s, now, w);
    if cfg.Enabled() && a in s.entries {
      ListedIff(cfg, s, now, w, a);
      assert RecordOk(cfg, a, s.entries[a], ClockFrom(start, es));
      assert addr.Valid() ==> cfg.Tracked(addr);
      if Lookup(cfg, s, now, addr, w').1.Blocked? {
        LookupReports(cfg, s, now, addr, w', ClockFrom(start, es));
      }
    } else if cfg.Enabled() {
      ListedIff(cfg, s, now, w, a);
    }
  }

  lemma NothingWhenDisabled(cfg: Config, s: State, now: int, w: Outcome)
    ensures !cfg.Enabled() ==> ListActive(cfg, s, now, w).1 == {}
  {
    hide Cleanup;
  }

  /** Restarting from what the store would write at this instant changes no decision, then or later. */
  lemma RestartKeepsDecisions(cfg: Config, s0: State, start: int, es: seq<Event>, now: int, later: int, addr: Addr, w: Outcome)
    requires StoreOk(cfg, s0, start) && RunFrom(cfg, s0, start, es) && cfg.Sane() && cfg.Enabled() && ClockFrom(start, es) <= now <= later
    ensures var s := AfterFrom(cfg, s0, es);
      var restarted := State(Load(cfg, Stored(s.entries), now), false, false, Stored(s.entries));
      Lookup(cfg, restarted, later, addr, w).1.Blocked? <==> Lookup(cfg, s, later, addr, w).1.Blocked?
  {
    hide AfterFrom, Lookup, Prune;
    RunOk(cfg, s0, start, es);
    var s := AfterFrom(cfg, s0, es);
    var restarted := State(Load(cfg, Stored(s.entries), now), false, false, Stored(s.entries));
    assert Stored(s.entries).Keys == s.entries.Keys;
    LookupBlocksIff(cfg, s, later, addr, w);
    LookupBlocksIff(cfg, restarted, later, addr, w);
  }

  /** A record that is gone after room was made for a new one had no block if any had none, no repeat block if any had
      none, and was of its kind the longest inactive: so a repeat block is only evicted when every candidate is one. */
  lemma EvictionSparesBlocks(cfg: Config, s: State, e: Event, a: Addr, b: Addr)
    requires Legal(cfg, s, e) && (e.op.Rejection? || e.op.Block?)
    requires a in Candidates(cfg, s, e) && b in Candidates(cfg, s, e) && a !in Step(cfg, s, e).entries
    ensures var kept := Candidates(cfg, s, e);
      && |kept| >= cfg.maxSize
      && (kept[a].level == Repeat ==> kept[b].level == Repeat)
      && (kept[a].level == Short ==> kept[b].level != NoBlock)
      && (kept[a].level == kept[b].level ==> kept[a].lastActivity <= kept[b].lastActivity)
    ensures Candidates(cfg, s, e) == if e.op.Rejection? then CleanedEntries(cfg, s.entries, e.now) else s.entries
  {
    hide Prune, Rejected, ManualRecord, Step;
    FateHolds(cfg, s, e, a);
  }

  /** A new rejection normally only lengthens a block. It shortens a repeat block exactly when the strikes still inside
      the window, with the new one, do not reach the threshold and the short block ends before the old one. */
  lemma RejectionShortens(cfg: Config, a: Addr, r: Record, t: int, now: int, classification: string, score: real)
    requires cfg.Sane() && RecordOk(cfg, a, r, t) && t <= now && r.level == Repeat
    ensures Rejected(cfg, r, now, classification, score).until < r.until <==>
      && (cfg.repeatThreshold == 0
          || (if cfg.repeatWindow > 0 then |set i | 0 <= i < |r.strikes| && now - r.strikes[i] < cfg.repeatWindow| else 0) + 1 < cfg.repeatThreshold)
      && cfg.shortDuration > 0 && now + cfg.shortDuration < r.until
  {
    IpReputationAnswers.PruneCounts(cfg, r.strikes, now);
    IpReputationAnswers.RejectionAnswer(cfg, r, now, classification, score);
    hide Rejected, Prune;
  }

  /** Two rejections, two legitimate messages that forgive both strikes, and one more rejection. */
  function ShorteningRun(a: Addr): seq<Event>
  {
    [Event(1, Rejection(a, "unwanted", 1.0, false, Addr.Invalid, Written, Written)),
     Event(2, Rejection(a, "unwanted", 1.0, false, Addr.Invalid, Written, Written)),
     Event(3, Legitimate(a, Written)), Event(4, Legitimate(a, Written)),
     Event(5, Rejection(a, "unwanted", 1.0, false, Addr.Invalid, Written, Written))]
  }

  /** One step of that run, seen on the record alone. */
  lemma RecordAfter(cfg: Config, s: State, e: Event, a: Addr, r: Option<Record>)
    requires cfg.Enabled() && cfg.Tracked(a) && a.Unmap() == a && Held(s.entries, a) == r
    requires (e.op.Rejection? && e.op.addr == a && !e.op.exempt) || (e.op.Legitimate? && e.op.addr == a && r.Some? && cfg.legitimatePerStrike > 0)
    ensures Held(Step(cfg, s, e).entries, a) ==
      if e.op.Legitimate? then LegitimateChange(cfg, r.value, e.now).record
      else Some(Rejected(cfg, if r.Some? && Survives(cfg, r.value, e.now) then Cleaned(cfg, r.value, e.now) else EMPTY_RECORD, e.now,
                         e.op.classification, e.op.score))
  {
    hide Step, Rejected, LegitimateChange, Survives, Cleaned;
    FateHolds(cfg, s, e, a);
  }

  /** The strikes of that run. */
  lemma FewStrikes(cfg: Config, now: int)
    requires cfg.repeatThreshold == 2 && cfg.repeatWindow == 100 && 1 <= now <= 5
    ensures Prune(cfg, [], now) == [] && Prune(cfg, [1], now) == [1] && Prune(cfg, [1, 2], now) == [1, 2] && Prune(cfg, [2], now) == [2]
  {
    assert [1][..0] == [] && [2][..0] == [] && [1, 2][..1] == [1];
  }

  /** From an empty store a repeat block that would last until 1002 is cut to a short one that ends at 15. */
  lemma ForgivenBlockIsShortened(a: Addr)
    requires a.Valid() && a.Unmap() == a
    ensures var cfg := Config(10, 2, 100, 1000, true, 300, 1, 5, true, (x: Addr) => false);
      var es := ShorteningRun(a);
      && cfg.Sane() && Run(cfg, es)
      && Held(After(cfg, es[..2]).entries, a) == Some(Record([1, 2], Repeat, 1002, "unwanted", 1.0, 0, 2, 2))
      && Held(After(cfg, es[..4]).entries, a) == Some(Record([], Repeat, 1002, "unwanted", 1.0, 0, 4, 2))
      && Held(After(cfg, es).entries, a) == Some(Record([5], Short, 15, "unwanted", 1.0, 0, 5, 5))
  {
    var cfg := Config(10, 2, 100, 1000, true, 300, 1, 5, true, (x: Addr) => false);
    var es := ShorteningRun(a);
    ShorteningSteps(cfg, a);
    ShorteningUnfolds(cfg, a);
  }

  /** The states of that run, one after the other. */
  function ShorteningState(cfg: Config, a: Addr, n: nat): State
    requires n <= 5
  {
    if n == 0 then EMPTY else Step(cfg, ShorteningState(cfg, a, n - 1), ShorteningRun(a)[n - 1])
  }

  lemma ShorteningSteps(cfg: Config, a: Addr)
    requires cfg == Config(10, 2, 100, 1000, true, 300, 1, 5, true, cfg.allowlisted) && cfg.Tracked(a) && a.Unmap() == a
    ensures Held(ShorteningState(cfg, a, 2).entries, a) == Some(Record([1, 2], Repeat, 1002, "unwanted", 1.0, 0, 2, 2))
    ensures Held(ShorteningState(cfg, a, 4).entries, a) == Some(Record([], Repeat, 1002, "unwanted", 1.0, 0, 4, 2))
    ensures Held(ShorteningState(cfg, a, 5).entries, a) == Some(Record([5], Short, 15, "unwanted", 1.0, 0, 5, 5))
    ensures forall n :: 0 <= n <= 5 ==> |ShorteningState(cfg, a, n).entries| <= 1
  {
    hide Step, Prune, Survives, Cleaned, Rejected, LegitimateChange;
    FewStrikes(cfg, 1);
    FewStrikes(cfg, 2);
    FewStrikes(cfg, 3);
    FewStrikes(cfg, 4);
    FewStrikes(cfg, 5);
    var r1 := Record([1], Short, 11, "unwanted", 1.0, 0, 1, 1);
    var r2 := Record([1, 2], Repeat, 1002, "unwanted", 1.0, 0, 2, 2);
    var r3, r4 := Record([2], Repeat, 1002, "unwanted", 1.0, 0, 3, 2), Record([], Repeat, 1002, "unwanted", 1.0, 0, 4, 2);
    assert [] + [1] == [1] && [1] + [2] == [1, 2] && [] + [5] == [5] && [1, 2][1..] == [2] && [2][1..] == [];
    IpReputationAnswers.RejectionAnswer(cfg, EMPTY_RECORD, 1, "unwanted", 1.0);
    IpReputationAnswers.RecordCleaned(cfg, r1, 2);
    IpReputationAnswers.RejectionAnswer(cfg, Cleaned(cfg, r1, 2), 2, "unwanted", 1.0);
    IpReputationAnswers.LegitimateAnswer(cfg, r2, 3);
    IpReputationAnswers.LegitimateAnswer(cfg, r3, 4);
    IpReputationAnswers.RecordCleaned(cfg, r4, 5);
    IpReputationAnswers.RejectionAnswer(cfg, Cleaned(cfg, r4, 5), 5, "unwanted", 1.0);
    var es := ShorteningRun(a);
    var s0, s1, s2 := ShorteningState(cfg, a, 0), ShorteningState(cfg, a, 1), ShorteningState(cfg, a, 2);
    var s3, s4, s5 := ShorteningState(cfg, a, 3), ShorteningState(cfg, a, 4), ShorteningState(cfg, a, 5);
    RecordAfter(cfg, s0, es[0], a, None);
    RecordAfter(cfg, s1, es[1], a, Held(s1.entries, a));
    RecordAfter(cfg, s2, es[2], a, Held(s2.entries, a));
    RecordAfter(cfg, s3, es[3], a, Held(s3.entries, a));
    RecordAfter(cfg, s4, es[4], a, Held(s4.entries, a));
    forall n | 0 <= n <= 5 ensures |ShorteningState(cfg, a, n).entries| <= 1 {
      OnlyOneRecord(cfg, a, n);
    }
  }

  lemma {:induction false} OnlyOneRecord(cfg: Config, a: Addr, n: nat)
    requires n <= 5 && cfg.maxSize == 5 && a.Unmap() == a
    ensures ShorteningState(cfg, a, n).entries.Keys <= {a} && |ShorteningState(cfg, a, n).entries| <= 1
  {
    if n > 0 {
      OnlyOneRecord(cfg, a, n - 1);
      var s, e := ShorteningState(cfg, a, n - 1), ShorteningRun(a)[n - 1];
      var s' := Step(cfg, s, e);
      hide Step;
      assert s' == ShorteningState(cfg, a, n);
      forall b | b in s'.entries ensures b == a {
        FateHolds(cfg, s, e, b);
      }
    }
    SubsetIsSmaller(ShorteningState(cfg, a, n).entries, a);
  }

  lemma SubsetIsSmaller(entries: map<Addr, Record>, a: Addr)
    requires entries.Keys <= {a}
    ensures |entries| <= 1
  {
    assert entries.Keys == {} || entries.Keys == {a};
  }

  lemma ShorteningUnfolds(cfg: Config, a: Addr)
    requires cfg.maxSize == 5 && forall n :: 0 <= n <= 5 ==> |ShorteningState(cfg, a, n).entries| <= 1
    ensures var es := ShorteningRun(a);
      Run(cfg, es) && forall n :: 0 <= n <= 5 ==> After(cfg, es[..n]) == ShorteningState(cfg, a, n)
  {
    var es := ShorteningRun(a);
    forall n | 0 <= n <= 5 ensures Run(cfg, es[..n]) && After(cfg, es[..n]) == ShorteningState(cfg, a, n) {
      ShorteningPrefix(cfg, a, n);
    }
    assert es[..5] == es;
  }

  lemma {:induction false} ShorteningPrefix(cfg: Config, a: Addr, n: nat)
    requires n <= 5 && cfg.maxSize == 5 && forall k :: 0 <= k <= 5 ==> |ShorteningState(cfg, a, k).entries| <= 1
    ensures Run(cfg, ShorteningRun(a)[..n]) && After(cfg, ShorteningRun(a)[..n]) == ShorteningState(cfg, a, n)
    ensures Clock(ShorteningRun(a)[..n]) == n
  {
    hide Step;
    var es := ShorteningRun(a);
    if n > 0 {
      ShorteningPrefix(cfg, a, n - 1);
      assert es[..n][..n - 1] == es[..n - 1];
      CleanupShrinks(cfg, ShorteningState(cfg, a, n - 1).entries, es[n - 1].now);
    }
  }
}
