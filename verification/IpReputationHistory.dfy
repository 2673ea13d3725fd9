/**
 The strike list of an address against the complete history of its rejections.

 `Past` is bookkeeping the program does not keep: for every record, the times of all
 rejections since that record was created. The stored strikes are always a suffix of
 it, and when legitimate credit is switched off they answer every question about the
 repeat window exactly as the complete past would.
 */
module IpReputationHistory {
  import opened BoundedHistory
  import opened Options
  import opened StateFile
  import opened IpReputation
  import opened NetworkAddress
  import opened IpReputationRuns

  /** Whether the record of `a` is still the one that existed before the event. */
  predicate Continues(cfg: Config, s: State, e: Event, a: Addr)
  {
    a in s.entries && (Strikes(cfg, e, a) ==> a in CleanedEntries(cfg, s.entries, e.now))
  }

  function PastAfter(cfg: Config, past: map<Addr, seq<int>>, s: State, e: Event): map<Addr, seq<int>>
  {
    map a | a in Step(cfg, s, e).entries ::
      (if Continues(cfg, s, e, a) && a in past then past[a] else []) + if Strikes(cfg, e, a) then [e.now] else []
  }

  /** The past after a run from `s`, whose records had the past `past`. */
  function Past(cfg: Config, s: State, past: map<Addr, seq<int>>, es: seq<Event>): map<Addr, seq<int>>
  {
    if es == [] then past
    else var front := es[..|es| - 1]; PastAfter(cfg, Past(cfg, s, past, front), AfterFrom(cfg, s, front), es[|es| - 1])
  }

  ghost predicate UpTo(times: seq<int>, t: int)
  {
    Chronological(times, TIME) && forall i :: 0 <= i < |times| ==> times[i] <= t
  }

  ghost predicate Suffix(part: seq<int>, whole: seq<int>)
  {
    |part| <= |whole| && part == whole[|whole| - |part|..]
  }

  /** What the stored strikes `r.strikes` owe to the past `p` at time `t`. */
  ghost predicate Faithful(cfg: Config, strikes: seq<int>, p: seq<int>, t: int)
  {
    && UpTo(p, t)
    && Suffix(strikes, p)
    && (cfg.legitimatePerStrike <= 0 ==> Tracks(p, strikes, cfg.repeatThreshold, TIME, WindowStart(cfg, t)))
  }

  lemma SuffixTrans(a: seq<int>, b: seq<int>, c: seq<int>)
    requires Suffix(a, b) && Suffix(b, c)
    ensures Suffix(a, c)
  {
  }

  lemma PruneSuffix(cfg: Config, strikes: seq<int>, now: int)
    requires Chronological(strikes, TIME)
    ensures Suffix(Prune(cfg, strikes, now), strikes)
  {
    var c := FindCut(strikes, TIME, WindowStart(cfg, now));
    LiveFromCut(strikes, c, TIME, WindowStart(cfg, now));
  }

  /** Pruning keeps the strikes faithful; without a repeat window it empties them. */
  lemma PruneFaithful(cfg: Config, strikes: seq<int>, p: seq<int>, t: int, now: int)
    requires Faithful(cfg, strikes, p, t) && t <= now
    ensures Faithful(cfg, Prune(cfg, strikes, now), p, now)
  {
    hide Chronological;
    ChronologicalFrom(p, |p| - |strikes|, TIME);
    PruneSuffix(cfg, strikes, now);
    SuffixTrans(Prune(cfg, strikes, now), strikes, p);
    if cfg.legitimatePerStrike <= 0 {
      if cfg.repeatThreshold != 0 && cfg.repeatWindow > 0 {
        TracksPruned(p, strikes, cfg.repeatThreshold, TIME, WindowStart(cfg, t), WindowStart(cfg, now));
      }
    }
  }

  lemma ForgiveFaithful(cfg: Config, strikes: seq<int>, p: seq<int>, t: int)
    requires Faithful(cfg, strikes, p, t) && cfg.legitimatePerStrike > 0 && strikes != []
    ensures Faithful(cfg, strikes[1..], p, t)
  {
  }

  lemma StruckFaithful(cfg: Config, strikes: seq<int>, p: seq<int>, t: int, now: int)
    requires Faithful(cfg, strikes, p, t) && t <= now
    ensures Faithful(cfg, Struck(cfg, strikes, now), p + [now], now)
  {
    PruneFaithful(cfg, strikes, p, t, now);
    var pruned := Prune(cfg, strikes, now);
    assert UpTo(p + [now], now);
    if cfg.repeatThreshold > 0 {
      assert Suffix(pruned + [now], p + [now]);
      SuffixTrans(LastN(cfg.repeatThreshold, pruned + [now]), pruned + [now], p + [now]);
      if cfg.legitimatePerStrike <= 0 {
        TracksAppended(p, pruned, [now], cfg.repeatThreshold, TIME, WindowStart(cfg, now));
      }
    }
  }

  ghost predicate AllFaithful(cfg: Config, s: State, past: map<Addr, seq<int>>, t: int)
  {
    && s.entries.Keys == past.Keys
    && forall a {:trigger Faithful(cfg, s.entries[a].strikes, past[a], t)} :: a in s.entries ==> Faithful(cfg, s.entries[a].strikes, past[a], t)
  }

  lemma FreshFaithful(cfg: Config, t: int)
    ensures Faithful(cfg, [], [], t)
  {
  }

  /** The strikes a step leaves behind, in terms of the strikes before it. */
  lemma FateStrikes(cfg: Config, s: State, e: Event, a: Addr)
    requires Fate(cfg, s, e, a).Some?
    ensures var now, strikes := Fate(cfg, s, e, a).value.strikes, Find(s.entries, a).strikes;
      if Strikes(cfg, e, a) then
        now == Struck(cfg, if Continues(cfg, s, e, a) then Prune(cfg, strikes, e.now) else [], e.now)
      else
        || now == strikes
        || now == Prune(cfg, strikes, e.now)
        || (cfg.legitimatePerStrike > 0 && Prune(cfg, strikes, e.now) != [] && now == Prune(cfg, strikes, e.now)[1..])
    ensures a !in s.entries && !Strikes(cfg, e, a) ==> Fate(cfg, s, e, a).value.strikes == []
  {
    hide Prune, Struck;
  }

  lemma StepFaithful(cfg: Config, s: State, past: map<Addr, seq<int>>, t: int, e: Event, a: Addr)
    requires AllFaithful(cfg, s, past, t) && t <= e.now && a in Step(cfg, s, e).entries
    ensures Faithful(cfg, Step(cfg, s, e).entries[a].strikes, PastAfter(cfg, past, s, e)[a], e.now)
  {
    hide Step, Faithful, Prune, Struck, Fate;
    FateHolds(cfg, s, e, a);
    FateStrikes(cfg, s, e, a);
    var p, strikes := [], [];
    if a in s.entries {
      p, strikes := past[a], s.entries[a].strikes;
    }
    if Continues(cfg, s, e, a) {
      PruneFaithful(cfg, strikes, p, t, e.now);
      StillFaithful(cfg, strikes, p, t, e.now);
      assert past[a] + [] == past[a];
      if cfg.legitimatePerStrike > 0 && Prune(cfg, strikes, e.now) != [] {
        ForgiveFaithful(cfg, Prune(cfg, strikes, e.now), p, e.now);
      }
      StruckFaithful(cfg, Prune(cfg, strikes, e.now), p, e.now, e.now);
    } else {
      FreshFaithful(cfg, e.now);
      StruckFaithful(cfg, [], [], e.now, e.now);
      var none: seq<int> := [];
      assert none + none == none;
    }
  }

  lemma StillFaithful(cfg: Config, strikes: seq<int>, p: seq<int>, t: int, now: int)
    requires Faithful(cfg, strikes, p, t) && t <= now
    ensures Faithful(cfg, strikes, p, now)
  {
  }

  /** In every run from a store whose strikes are faithful to some past they stay faithful to it and to the
      rejections since. */
  lemma {:induction false} StrikesFollowHistory(cfg: Config, s: State, past: map<Addr, seq<int>>, start: int, es: seq<Event>)
    requires AllFaithful(cfg, s, past, start) && RunFrom(cfg, s, start, es)
    ensures AllFaithful(cfg, AfterFrom(cfg, s, es), Past(cfg, s, past, es), ClockFrom(start, es))
  {
    hide Step, Faithful, Legal, Continues;
    if es != [] {
      var front, e := es[..|es| - 1], es[|es| - 1];
      StrikesFollowHistory(cfg, s, past, start, front);
      forall a | a in AfterFrom(cfg, s, es).entries
        ensures Faithful(cfg, AfterFrom(cfg, s, es).entries[a].strikes, Past(cfg, s, past, es)[a], e.now)
      {
        StepFaithful(cfg, AfterFrom(cfg, s, front), Past(cfg, s, past, front), ClockFrom(start, front), e, a);
      }
    }
  }

  /** An empty store is faithful to no past at all. */
  lemma EmptyIsFaithful(cfg: Config, t: int)
    ensures AllFaithful(cfg, EMPTY, map[], t)
  {
  }

  /** The past of a store that remembers nothing but its strikes. */
  function OwnPast(entries: map<Addr, Record>): map<Addr, seq<int>>
  {
    map a | a in entries :: entries[a].strikes
  }

  lemma {:induction false} RecentCount(cfg: Config, p: seq<int>, now: int)
    ensures |Live(p, TIME, WindowStart(cfg, now))| == |set i | 0 <= i < |p| && now - p[i] < cfg.repeatWindow|
  {
    var recent := set i | 0 <= i < |p| && now - p[i] < cfg.repeatWindow;
    if p == [] {
      assert recent == {};
    } else {
      var front, n := p[..|p| - 1], |p| - 1;
      RecentCount(cfg, front, now);
      assert recent == (set i | 0 <= i < |front| && now - front[i] < cfg.repeatWindow) + if now - p[n] < cfg.repeatWindow then {n} else {};
    }
  }

  /** Of a chronological past, those strictly inside the window are its last ones. */
  lemma WindowIsLast(cfg: Config, p: seq<int>, now: int)
    requires UpTo(p, now)
    ensures var n := |set i | 0 <= i < |p| && now - p[i] < cfg.repeatWindow|;
      n <= |p| && Live(p, TIME, WindowStart(cfg, now)) == p[|p| - n..]
  {
    var d := FindCut(p, TIME, WindowStart(cfg, now));
    LiveFromCut(p, d, TIME, WindowStart(cfg, now));
    RecentCount(cfg, p, now);
  }

  /** Without legitimate credit the lazily pruned and trimmed list is, at any later time, made of the last rejections
      of the whole past: as many as are less than the window ago, but at most `repeatThreshold`. */
  lemma StrikesAreTheWindow(cfg: Config, s: State, past: map<Addr, seq<int>>, start: int, es: seq<Event>, a: Addr, now: int)
    requires AllFaithful(cfg, s, past, start) && RunFrom(cfg, s, start, es)
    requires a in AfterFrom(cfg, s, es).entries && ClockFrom(start, es) <= now && cfg.legitimatePerStrike <= 0
    ensures a in Past(cfg, s, past, es)
    ensures var p := Past(cfg, s, past, es)[a];
      var n := |set i | 0 <= i < |p| && now - p[i] < cfg.repeatWindow|;
      var m := if n < cfg.repeatThreshold then n else cfg.repeatThreshold;
      n <= |p| && Prune(cfg, AfterFrom(cfg, s, es).entries[a].strikes, now) == p[|p| - m..]
  {
    hide AfterFrom, Past, Step;
    StrikesFollowHistory(cfg, s, past, start, es);
    var p, strikes := Past(cfg, s, past, es)[a], AfterFrom(cfg, s, es).entries[a].strikes;
    assert Faithful(cfg, strikes, p, ClockFrom(start, es));
    WindowIsLast(cfg, p, now);
    if cfg.repeatThreshold != 0 && cfg.repeatWindow > 0 {
      TrackedAnswer(p, strikes, cfg.repeatThreshold, TIME, WindowStart(cfg, ClockFrom(start, es)), WindowStart(cfg, now));
    } else if cfg.repeatWindow <= 0 {
      LiveNone(p, TIME, WindowStart(cfg, now));
    }
  }

  lemma StruckIsLive(cfg: Config, strikes: seq<int>, now: int)
    requires cfg.repeatThreshold > 0 && cfg.repeatWindow > 0
    ensures Prune(cfg, Struck(cfg, strikes, now), now) == Struck(cfg, strikes, now)
  {
    LiveMembers(strikes, TIME, WindowStart(cfg, now));
    var struck := Struck(cfg, strikes, now);
    forall i | 0 <= i < |struck| ensures TIME(struck[i]) >= WindowStart(cfg, now) {
      var all := Prune(cfg, strikes, now) + [now];
      assert struck[i] == all[|all| - |struck| + i];
    }
    LiveAll(struck, TIME, WindowStart(cfg, now));
  }

  /** What is left of a block when a rejection arrives. */
  lemma BlockBefore(cfg: Config, entries: map<Addr, Record>, a: Addr, now: int)
    ensures var before := Held(CleanedEntries(cfg, entries, now), a);
      if a in entries && entries[a].level != NoBlock && entries[a].until > now
      then before.Some? && before.value.level == entries[a].level && before.value.until == entries[a].until
      else before.Some? ==> before.value.level == NoBlock
  {
    hide Prune;
  }

  /** A recorded rejection escalates to a repeat block exactly when the whole past since the record was created, with
      this rejection, has `repeatThreshold` rejections less than the window ago. Otherwise it makes a short block, or
      leaves an unexpired one as it was. */
  lemma EscalationIsExact(cfg: Config, s: State, past: map<Addr, seq<int>>, start: int, es: seq<Event>, a: Addr)
    requires AllFaithful(cfg, s, past, start) && RunFrom(cfg, s, start, es) && es != [] && Strikes(cfg, es[|es| - 1], a)
    requires cfg.legitimatePerStrike <= 0 && cfg.repeatThreshold > 0 && cfg.repeatWindow > 0
    ensures a in Past(cfg, s, past, es) && a in AfterFrom(cfg, s, es).entries
    ensures var now, record := ClockFrom(start, es), AfterFrom(cfg, s, es).entries[a];
      var p, before := Past(cfg, s, past, es)[a], AfterFrom(cfg, s, es[..|es| - 1]).entries;
      if |set i | 0 <= i < |p| && now - p[i] < cfg.repeatWindow| >= cfg.repeatThreshold
      then record.level == Repeat && record.until == now + cfg.repeatDuration
      else if cfg.shortDuration > 0
      then record.level == Short && record.until == now + cfg.shortDuration
      else if a in before && before[a].level != NoBlock && before[a].until > now
      then record.level == before[a].level && record.until == before[a].until
      else record.level == NoBlock
  {
    hide Past, Step, Prune, Struck, CleanedEntries;
    var front, e := es[..|es| - 1], es[|es| - 1];
    FateHolds(cfg, AfterFrom(cfg, s, front), e, a);
    StrikesAreTheWindow(cfg, s, past, start, es, a, e.now);
    var before := Held(CleanedEntries(cfg, AfterFrom(cfg, s, front).entries, e.now), a);
    BlockBefore(cfg, AfterFrom(cfg, s, front).entries, a, e.now);
    StruckIsLive(cfg, if before.Some? then before.value.strikes else [], e.now);
  }

  // ---------------------------------------------------------------- legitimate credit

  /** What becomes of a record when legitimate messages arrive at these times. */
  function CreditedAt(cfg: Config, r: Record, times: seq<int>): Option<Record>
  {
    if times == [] then Some(r)
    else match CreditedAt(cfg, r, times[..|times| - 1])
         case None => None
         case Some(before) => LegitimateChange(cfg, before, times[|times| - 1]).record
  }

  lemma LiveMember(strikes: seq<int>, cutoff: int, i: nat)
    requires Live(strikes, TIME, cutoff) == strikes && i < |strikes|
    ensures TIME(strikes[i]) >= cutoff
  {
    hide Live;
    LiveMembers(strikes, TIME, cutoff);
    assert strikes[i] in strikes;
  }

  lemma SuffixStaysLive(cfg: Config, strikes: seq<int>, k: nat, now: int)
    requires Prune(cfg, strikes, now) == strikes && k < |strikes|
    ensures Prune(cfg, strikes[k..], now) == strikes[k..]
  {
    hide Live;
    var cutoff := WindowStart(cfg, now);
    forall i | 0 <= i < |strikes[k..]| ensures TIME(strikes[k..][i]) >= cutoff {
      LiveMember(strikes, cutoff, k + i);
    }
    LiveAll(strikes[k..], TIME, cutoff);
  }

  lemma NoWholeMultiple(n: nat, k: nat, per: nat, m: nat)
    requires n == k * per + m && n < per
    ensures k == 0
  {
    assert k >= 1 ==> k * per >= per;
  }

  /** While strikes are left and none ages out, every `legitimatePerStrike` legitimate messages forgive one,
      the oldest first; the block itself is untouched. */
  lemma {:induction false} CreditForgivesOldest(cfg: Config, r: Record, times: seq<int>, k: nat, m: nat)
    requires m < cfg.legitimatePerStrike && r.legitimate < cfg.legitimatePerStrike && k < |r.strikes|
    requires r.legitimate + |times| == k * cfg.legitimatePerStrike + m
    requires forall i :: 0 <= i < |times| ==> Prune(cfg, r.strikes, times[i]) == r.strikes
    ensures var c := CreditedAt(cfg, r, times);
      c.Some? && c.value.strikes == r.strikes[k..] && c.value.legitimate == m && c.value.level == r.level && c.value.until == r.until
    decreases |times|
  {
    hide Prune;
    var per := cfg.legitimatePerStrike;
    if times == [] {
      NoWholeMultiple(r.legitimate, k, per, m);
    } else {
      var front, now := times[..|times| - 1], times[|times| - 1];
      if m == 0 {
        assert k > 0 && (k - 1) * per == k * per - per;
      }
      var k', m' := if m > 0 then k else k - 1, if m > 0 then m - 1 else per - 1;
      CreditForgivesOldest(cfg, r, front, k', m');
      SuffixStaysLive(cfg, r.strikes, k', now);
      assert r.strikes[k'..][1..] == r.strikes[k' + 1..];
    }
  }
}
