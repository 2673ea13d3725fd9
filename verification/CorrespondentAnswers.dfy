/**
 What the correspondent allowlist answers and learns, read off its entries: who is known and to
 whom, what outgoing mail, classified mail and administrators leave behind.
 */
module CorrespondentAnswers {
  import opened Addresses
  import opened CorrespondentDurability
  import opened CorrespondentRuns
  import opened CorrespondentStore
  import opened Correspondents
  import opened Options
  import opened StateFile

  // ---------------------------------------------------------------- who is known

  /** The relationship has not been idle for longer than the configured time, if one is. */
  predicate Fresh(cfg: Config, e: Entry, now: int)
  {
    cfg.staleAfter <= 0 || (if e.lastActivity == 0 then e.learnedAt else e.lastActivity) >= now - cfg.staleAfter
  }

  /** A relationship with the correspondent that counts: by outgoing mail, by hand, or by enough legitimate messages. */
  predicate Vouches(cfg: Config, e: Entry, correspondent: string, now: int)
  {
    e.correspondent == correspondent && (e.kind == Outbound || e.kind == Manual || e.count >= cfg.minMessages) && Fresh(cfg, e, now)
  }

  predicate VouchesTo(cfg: Config, e: Entry, correspondent: string, local: string, now: int)
  {
    e.local == local && Vouches(cfg, e, correspondent, now)
  }

  /** The recipients as addresses; what is no address does not count. */
  function Locals(cfg: Config, recipients: seq<string>): set<string>
  {
    set i | 0 <= i < |recipients| && cfg.normalize(recipients[i]) != "" :: cfg.normalize(recipients[i])
  }

  ghost predicate KnownTo(cfg: Config, entries: map<Key, Entry>, correspondent: string, local: string, now: int)
  {
    exists k :: k in entries && VouchesTo(cfg, entries[k], correspondent, local, now)
  }

  /** A correspondent is known exactly when some relationship vouches for it, under per-sender scope to one of the
      recipients; all recipients match when each of at least one does; and the numbers count just these. */
  lemma MatchAnswer(cfg: Config, s: State, now: int, correspondent: string, recipients: seq<string>, write: Outcome)
    requires WellKeyed(s.entries)
    ensures var answer, c, locals := Lookup(cfg, s, now, correspondent, recipients, write).1, cfg.normalize(correspondent), Locals(cfg, recipients);
      if !cfg.useAllowlist || c == "" then answer == MatchResult(false, false, 0, 0)
      else if cfg.scope == Global then
        && (answer.known <==> exists k :: k in s.entries && Vouches(cfg, s.entries[k], c, now))
        && (answer.allMatched <==> answer.known) && answer.matched == (if answer.known then 1 else 0) && answer.total == 1
      else
        && (answer.known <==> exists r :: r in locals && KnownTo(cfg, s.entries, c, r, now))
        && (answer.allMatched <==> locals != {} && forall r :: r in locals ==> KnownTo(cfg, s.entries, c, r, now))
        && answer.matched == |set r | r in locals && KnownTo(cfg, s.entries, c, r, now)| && answer.total == |locals|
  {
    hide KnownTo, Vouches, Matches, Fresh, SameStanding;
    var c := cfg.normalize(correspondent);
    if cfg.useAllowlist && c != "" {
      var current := RemoveStale(cfg, s, now, write).entries;
      CurrentAnswers(cfg, s, now, write);
      hide RemoveStale;
      if cfg.scope == Global {
        GlobalMatches(cfg, s.entries, current, c, Locals(cfg, recipients), now);
      } else {
        PerSenderMatches(cfg, s.entries, current, c, Locals(cfg, recipients), now);
      }
    }
  }

  /** What a cleanup leaves of the entries. */
  ghost predicate Cleans(cfg: Config, entries: map<Key, Entry>, current: map<Key, Entry>, now: int)
  {
    && (forall k :: k in current <==> k in entries && Fresh(cfg, entries[k], now))
    && forall k :: k in current ==> SameStanding(entries[k], current[k])
  }

  lemma GlobalMatches(cfg: Config, entries: map<Key, Entry>, current: map<Key, Entry>, c: string, locals: set<string>, now: int)
    requires cfg.scope == Global && Cleans(cfg, entries, current, now)
    ensures var answer := Matches(cfg, current, c, locals);
      && (answer.known <==> exists k :: k in entries && Vouches(cfg, entries[k], c, now))
      && (answer.allMatched <==> answer.known) && answer.matched == (if answer.known then 1 else 0) && answer.total == 1
  {
    hide Vouches, Fresh, Qualified;
    if k :| k in entries && Vouches(cfg, entries[k], c, now) {
      VouchesIff(cfg, entries[k], c, now);
      assert k in current && SameStanding(entries[k], current[k]);
      QualifiedSame(cfg, entries[k], current[k]);
    }
    if k :| k in current && current[k].correspondent == c && Qualified(cfg, current[k]) {
      assert SameStanding(entries[k], current[k]);
      QualifiedSame(cfg, entries[k], current[k]);
      VouchesIff(cfg, entries[k], c, now);
    }
  }

  lemma QualifiedSame(cfg: Config, e: Entry, e': Entry)
    requires SameStanding(e, e')
    ensures Qualified(cfg, e) <==> Qualified(cfg, e')
  {
  }

  lemma PerSenderMatches(cfg: Config, entries: map<Key, Entry>, current: map<Key, Entry>, c: string, locals: set<string>, now: int)
    requires WellKeyed(entries) && cfg.scope == PerSender && Cleans(cfg, entries, current, now)
    ensures var answer := Matches(cfg, current, c, locals);
      && (answer.known <==> exists r :: r in locals && KnownTo(cfg, entries, c, r, now))
      && (answer.allMatched <==> locals != {} && forall r :: r in locals ==> KnownTo(cfg, entries, c, r, now))
      && answer.matched == |set r | r in locals && KnownTo(cfg, entries, c, r, now)| && answer.total == |locals|
  {
    hide KnownTo, Fresh, Qualified, SameStanding;
    forall r ensures KnownTo(cfg, entries, c, r, now) <==> Key(r, c) in current && Qualified(cfg, current[Key(r, c)]) {
      KnownToIff(cfg, entries, current, c, r, now);
    }
    var hits := set r | r in locals && Key(r, c) in current && Qualified(cfg, current[Key(r, c)]);
    assert hits == set r | r in locals && KnownTo(cfg, entries, c, r, now);
    if r :| r in hits {
      assert KnownTo(cfg, entries, c, r, now);
    }
    if r :| r in locals && KnownTo(cfg, entries, c, r, now) {
      assert r in hits;
    }
    if |hits| == |locals| {
      SameSize(hits, locals);
    }
    if forall r :: r in locals ==> KnownTo(cfg, entries, c, r, now) {
      assert hits == locals;
    }
  }

  lemma SameSize<T>(a: set<T>, b: set<T>)
    requires a <= b && |a| == |b|
    ensures a == b
  {
    assert |b - a| == |b| - |a|;
  }

  /** Asking drops nothing but stale relationships and changes nothing that counts. */
  lemma CurrentAnswers(cfg: Config, s: State, now: int, write: Outcome)
    ensures Cleans(cfg, s.entries, RemoveStale(cfg, s, now, write).entries, now)
  {
  }

  predicate SameStanding(e: Entry, e': Entry)
  {
    e'.local == e.local && e'.correspondent == e.correspondent && e'.kind == e.kind && e'.count == e.count
    && e'.learnedAt == e.learnedAt && e'.lastActivity == e.lastActivity
  }

  lemma VouchesIff(cfg: Config, e: Entry, c: string, now: int)
    ensures Vouches(cfg, e, c, now) <==> e.correspondent == c && Qualified(cfg, e) && Fresh(cfg, e, now)
  {
  }

  lemma KnownToIff(cfg: Config, entries: map<Key, Entry>, current: map<Key, Entry>, c: string, r: string, now: int)
    requires WellKeyed(entries) && Cleans(cfg, entries, current, now)
    ensures KnownTo(cfg, entries, c, r, now) <==> Key(r, c) in current && Qualified(cfg, current[Key(r, c)])
  {
    if k :| k in entries && VouchesTo(cfg, entries[k], c, r, now) {
      assert entries[k].KeyOf() == k;
    }
    var k := Key(r, c);
    if k in current && Qualified(cfg, current[k]) {
      assert entries[k].KeyOf() == k && VouchesTo(cfg, entries[k], c, r, now);
    }
  }

  /** The relationship was made by outgoing mail or by hand, or has earned its standing by qualifying messages. */
  predicate Earned(cfg: Config, k: Key, e: Entry, q: Credits)
  {
    e.kind == Outbound || e.kind == Manual || (k in q && q[k] >= cfg.minMessages)
  }

  /** Over every run from an allowlist that counts right: a sender is known exactly through a relationship that is fresh,
      in scope, and was made by outgoing mail, by hand, or by as many qualifying legitimate messages as are required. */
  lemma KnownMeansEarned(cfg: Config, s: State, q: Credits, start: int, es: seq<Event>, now: int, correspondent: string,
                         recipients: seq<string>, write: Outcome)
    requires cfg.Sane() && |s.entries| <= cfg.maxEntries && AllCounted(cfg, s.entries, q) && Run(cfg, s, start, es)
    requires cfg.useAllowlist && cfg.normalize(correspondent) != ""
    ensures var after, credits := After(cfg, s, es), CreditsAfter(cfg, s, q, es);
      Lookup(cfg, after, now, correspondent, recipients, write).1.known <==>
        exists k :: k in after.entries && k.correspondent == cfg.normalize(correspondent)
                    && (cfg.scope == PerSender ==> k.local in Locals(cfg, recipients))
                    && Fresh(cfg, after.entries[k], now) && Earned(cfg, k, after.entries[k], credits)
  {
    hide After, CreditsAfter, Run, Lookup, Fresh, Counted;
    CountsAreExact(cfg, s, q, start, es);
    var after, credits, c := After(cfg, s, es), CreditsAfter(cfg, s, q, es), cfg.normalize(correspondent);
    forall k | k in after.entries
      ensures after.entries[k].KeyOf() == k && (Vouches(cfg, after.entries[k], c, now) <==>
                k.correspondent == c && Fresh(cfg, after.entries[k], now) && Earned(cfg, k, after.entries[k], credits))
    {
      assert Counted(cfg, k, after.entries[k], credits);
      CountedEarned(cfg, k, after.entries[k], c, now, credits);
    }
    MatchAnswer(cfg, after, now, correspondent, recipients, write);
    hide Vouches, Earned;
    if cfg.scope == PerSender {
      if r :| r in Locals(cfg, recipients) && KnownTo(cfg, after.entries, c, r, now) {
        var k :| k in after.entries && VouchesTo(cfg, after.entries[k], c, r, now);
        assert after.entries[k].KeyOf() == k;
      }
      if k :| k in after.entries && k.correspondent == c && k.local in Locals(cfg, recipients)
              && Fresh(cfg, after.entries[k], now) && Earned(cfg, k, after.entries[k], credits) {
        assert after.entries[k].KeyOf() == k && VouchesTo(cfg, after.entries[k], c, k.local, now);
        assert KnownTo(cfg, after.entries, c, k.local, now);
      }
    }
  }

  lemma CountedEarned(cfg: Config, k: Key, e: Entry, c: string, now: int, q: Credits)
    requires cfg.Sane() && Counted(cfg, k, e, q)
    ensures e.KeyOf() == k
    ensures Vouches(cfg, e, c, now) <==> k.correspondent == c && Fresh(cfg, e, now) && Earned(cfg, k, e, q)
  {
  }

  // ---------------------------------------------------------------- administrators

  /** What is left are the fresh relationships but for some, as they were. */
  ghost predicate Spares(cfg: Config, entries: map<Key, Entry>, after: map<Key, Entry>, now: int, gone: set<Key>)
  {
    && WellKeyed(after)
    && (forall k :: k in after <==> k in entries && Fresh(cfg, entries[k], now) && k !in gone)
    && forall k :: k in after ==> SameStanding(entries[k], after[k])
  }

  /** A deletion is refused for what is no address, and undone when it cannot be written. Otherwise it spares exactly the
      fresh relationships of other senders and, unless all are meant, those to other recipients, and counts the rest. */
  lemma DeletionAnswer(cfg: Config, s: State, now: int, sender: string, recipient: string, write: Outcome)
    requires WellKeyed(s.entries)
    ensures var (after, answer), c, l := DeleteManual(cfg, s, now, sender, recipient, write), cfg.normalize(sender), cfg.normalize(recipient);
      var meant := set k | k in s.entries && Fresh(cfg, s.entries[k], now) && k.correspondent == c && (recipient == "*" || k.local == l);
      && (c == "" || (recipient != "*" && l == "") ==> answer == Err)
      && (c != "" && (recipient == "*" || l != "") ==>
            (answer == Err <==> !s.deferred && write != Written && (meant != {} || exists k :: k in s.entries && !Fresh(cfg, s.entries[k], now))))
      && (answer == Err ==> after.entries == s.entries)
      && (answer.Ok? ==> answer.value == |meant| && Spares(cfg, s.entries, after.entries, now, meant))
  {
    var c, l, all := cfg.normalize(sender), cfg.normalize(recipient), recipient == "*";
    FreshIff(cfg, s.entries, now);
    DeletedAre(cfg, s.entries, now, c, all, l);
    hide Stale, Fresh, Deleted, SameStanding, Marked, WellKeyed, WriteNow, Save, Current, Spares;
  }

  function Doomed(cfg: Config, entries: map<Key, Entry>, now: int, c: string, all: bool, l: string): set<Key>
  {
    set k | k in Current(cfg, entries, now) && Deleted(Current(cfg, entries, now)[k], c, all, l)
  }

  lemma DeletedAre(cfg: Config, entries: map<Key, Entry>, now: int, c: string, all: bool, l: string)
    requires WellKeyed(entries)
    ensures Doomed(cfg, entries, now, c, all, l)
         == set k | k in entries && Fresh(cfg, entries[k], now) && k.correspondent == c && (all || k.local == l)
    ensures var doomed := Doomed(cfg, entries, now, c, all, l);
      var left := Current(cfg, entries, now) - doomed;
      Spares(cfg, entries, left, now, doomed) && Spares(cfg, entries, Marked(left), now, doomed)
  {
    FreshIff(cfg, entries, now);
    hide Stale, Fresh;
    forall k | k in entries ensures k.correspondent == entries[k].correspondent && k.local == entries[k].local {
      assert entries[k].KeyOf() == k;
    }
  }

  lemma FreshIff(cfg: Config, entries: map<Key, Entry>, now: int)
    ensures forall k :: k in entries ==> (Stale(cfg, entries[k], now) <==> !Fresh(cfg, entries[k], now))
  {
  }

  /** The relationship is manual and active now, new unless a fresh one existed; the others are as they were, and at most
      one of them is gone, only to make room in a full allowlist. */
  ghost predicate Permits(cfg: Config, entries: map<Key, Entry>, after: map<Key, Entry>, k: Key, victim: Key, now: int)
  {
    var existed := k in entries && Fresh(cfg, entries[k], now);
    && k in after && after[k].kind == Manual && after[k].count == 0 && after[k].lastActivity == now
    && (!existed ==> after[k].local == k.local && after[k].correspondent == k.correspondent && after[k].learnedAt == now)
    && (existed ==> after[k].learnedAt == entries[k].learnedAt)
    && (forall x :: x in after && x != k ==> x in entries && Fresh(cfg, entries[x], now) && SameStanding(entries[x], after[x]))
    && (forall x :: x in entries && Fresh(cfg, entries[x], now) && x !in after ==>
          (x == victim && !existed && |Current(cfg, entries, now)| >= cfg.maxEntries))
  }

  lemma PutPermits(cfg: Config, entries: map<Key, Entry>, k: Key, victim: Key, now: int)
    ensures var current := Current(cfg, entries, now);
      var put := MakeRoom(cfg, current, k, victim)[k := ManualEntry(current, k, now)];
      Permits(cfg, entries, put, k, victim, now) && Permits(cfg, entries, Marked(put), k, victim, now)
  {
    FreshIff(cfg, entries, now);
    hide Stale, Fresh;
  }

  /** A relationship put by hand counts from then on, whatever it was before; a failed save undoes it. */
  lemma PermissionAnswer(cfg: Config, s: State, now: int, sender: string, recipient: string, victim: Key, write: Outcome)
    ensures var (after, answer) := AddManual(cfg, s, now, sender, recipient, victim, write);
      var k := Key(cfg.normalize(recipient), cfg.normalize(sender));
      && (answer == Err <==> k.local == "" || k.correspondent == "" || (!s.deferred && write != Written))
      && (answer == Err ==> after.entries == s.entries)
      && (answer.Ok? ==> Permits(cfg, s.entries, after.entries, k, victim, now)
                         && (answer.value <==> !(k in s.entries && Fresh(cfg, s.entries[k], now))))
  {
    FreshIff(cfg, s.entries, now);
    PutPermits(cfg, s.entries, Key(cfg.normalize(recipient), cfg.normalize(sender)), victim, now);
    hide Stale, Fresh, Permits, Marked, ManualEntry, MakeRoom;
  }

  // ---------------------------------------------------------------- outgoing mail

  /** The recipients that outgoing mail teaches: the first distinct ones, at most a hundred. */
  lemma {:induction false} DistinctAreFirst(cfg: Config, recipients: seq<string>, limit: nat) returns (n: nat)
    ensures n <= |recipients| && Distinct(cfg, recipients, limit) == Locals(cfg, recipients[..n])
    ensures |Distinct(cfg, recipients, limit)| <= limit
    ensures n == |recipients| || |Distinct(cfg, recipients, limit)| == limit
  {
    if recipients == [] {
      n := 0;
    } else {
      var front := recipients[..|recipients| - 1];
      n := DistinctAreFirst(cfg, front, limit);
      assert front[..n] == recipients[..n];
      if |Distinct(cfg, front, limit)| < limit {
        CanonicalSnoc(cfg.normalize, recipients, |recipients| - 1);
        n := |recipients|;
        assert recipients[..|recipients| - 1 + 1] == recipients;
      }
    }
  }

  /** What one relationship is after the loop over the recipients of outgoing mail: made or kept outbound, or kept manual,
      and active now, if it is with one of them; as it was otherwise. */
  ghost predicate LearnedAs(entries: map<Key, Entry>, after: map<Key, Entry>, local: string, visited: set<string>, now: int, k: Key)
  {
    k in after ==>
      if k.local == local && k.correspondent in visited then
        && after[k].local == local && after[k].correspondent == k.correspondent && after[k].lastActivity == now
        && (after[k].kind == Outbound || (after[k].kind == Manual && k in entries && entries[k].kind == Manual))
        && (after[k].kind == Outbound ==> after[k].count == 0)
        && (after[k].learnedAt == now || (k in entries && after[k].learnedAt == entries[k].learnedAt))
      else k in entries && SameStanding(entries[k], after[k])
  }

  lemma {:induction false} LearnedTurns(cfg: Config, entries: map<Key, Entry>, local: string, choices: seq<Choice>, now: int, k: Key)
    requires WellKeyed(entries)
    ensures LearnedAs(entries, Turns(cfg, entries, Learning(local), choices, now), local, Visited(choices), now, k)
  {
    if choices != [] {
      var front, c := choices[..|choices| - 1], choices[|choices| - 1];
      LearnedTurns(cfg, entries, local, front, now, k);
      VisitedSnoc(choices);
      var before := Turns(cfg, entries, Learning(local), front, now);
      assert k in before && k in entries ==> entries[k].KeyOf() == k;
      hide Turns, Visited;
    }
  }

  lemma VisitedSnoc(choices: seq<Choice>)
    requires choices != []
    ensures Visited(choices) == Visited(choices[..|choices| - 1]) + {choices[|choices| - 1].recipient}
  {
    var front := choices[..|choices| - 1];
    forall r | r in Visited(front) ensures r in Visited(choices) {
      var i :| 0 <= i < |front| && front[i].recipient == r;
      assert choices[i].recipient == r;
    }
    assert choices[|choices| - 1].recipient in Visited(choices);
  }

  /** With room for all, a loop evicts nobody, and outgoing mail teaches every recipient. */
  lemma {:induction false} RoomForAll(cfg: Config, entries: map<Key, Entry>, loop: Loop, choices: seq<Choice>, now: int)
    requires |entries| + |choices| <= cfg.maxEntries
    ensures var after := Turns(cfg, entries, loop, choices, now);
      && |after| <= |entries| + |choices| && entries.Keys <= after.Keys
      && (loop.Learning? ==> forall r :: r in Visited(choices) ==> Key(loop.local, r) in after)
  {
    if choices != [] {
      var front, c := choices[..|choices| - 1], choices[|choices| - 1];
      RoomForAll(cfg, entries, loop, front, now);
      VisitedSnoc(choices);
      var before, k := Turns(cfg, entries, loop, front, now), loop.KeyFor(c.recipient);
      TakenSize(cfg, before, k, loop.TurnFor(cfg, before, c.recipient, now), c.victim);
      hide Visited, EvidenceTurn;
    }
  }

  lemma TakenSize(cfg: Config, entries: map<Key, Entry>, k: Key, t: Turn, victim: Key)
    requires |entries| < cfg.maxEntries
    ensures var after := Take(cfg, entries, k, t, victim);
      entries.Keys <= after.Keys && |after| <= |entries| + 1 && (t.Put? ==> k in after)
  {
    if t.Put? {
      assert entries[k := t.entry].Keys == entries.Keys + {k};
    }
  }

  lemma LearnedMarked(cfg: Config, entries: map<Key, Entry>, after: map<Key, Entry>, local: string, visited: set<string>, now: int, k: Key)
    requires LearnedAs(entries, after, local, visited, now, k)
    ensures LearnedAs(entries, Marked(after), local, visited, now, k)
  {
  }

  /** What accepted authenticated mail makes of the entries; with room for all its recipients it forgets nobody but the stale. */
  ghost predicate Teaches(cfg: Config, entries: map<Key, Entry>, after: map<Key, Entry>, local: string, taught: set<string>, now: int)
  {
    && (forall k :: LearnedFresh(cfg, entries, after, local, taught, now, k))
    && (|entries| + |taught| <= cfg.maxEntries ==>
          (forall r :: r in taught ==> Key(local, r) in after)
          && forall k :: k in entries && Fresh(cfg, entries[k], now) ==> k in after)
  }

  lemma TurnsTeach(cfg: Config, entries: map<Key, Entry>, local: string, choices: seq<Choice>, now: int)
    requires WellKeyed(entries) && |choices| == |Visited(choices)|
    ensures var turned := Turns(cfg, Current(cfg, entries, now), Learning(local), choices, now);
      Teaches(cfg, entries, turned, local, Visited(choices), now) && Teaches(cfg, entries, Marked(turned), local, Visited(choices), now)
  {
    hide Fresh, LearnedAs, LearnedFresh, Turns, Marked;
    var current := Current(cfg, entries, now);
    var turned := Turns(cfg, current, Learning(local), choices, now);
    forall k ensures LearnedFresh(cfg, entries, turned, local, Visited(choices), now, k)
                     && LearnedFresh(cfg, entries, Marked(turned), local, Visited(choices), now, k) {
      LearnedTurns(cfg, current, local, choices, now, k);
      LearnedMarked(cfg, current, turned, local, Visited(choices), now, k);
      LearnedFromCurrent(cfg, entries, turned, local, Visited(choices), now, k);
      LearnedFromCurrent(cfg, entries, Marked(turned), local, Visited(choices), now, k);
    }
    MarkedKeys(turned);
    if |entries| + |choices| <= cfg.maxEntries {
      CurrentIsSmaller(cfg, entries, now);
      RoomForAll(cfg, current, Learning(local), choices, now);
      FreshIff(cfg, entries, now);
    }
  }

  /** Accepted authenticated mail teaches its first hundred distinct recipients, if that is configured and its sender is an
      address, and nothing else. */
  lemma LearningAnswer(cfg: Config, s: State, now: int, sender: string, recipients: seq<string>, choices: seq<Choice>, write: Outcome)
    requires WellKeyed(s.entries) && Visits(choices, Distinct(cfg, recipients, 100))
    ensures var (after, ok), local, taught := Learn(cfg, s, now, sender, recipients, choices, write), cfg.normalize(sender), Distinct(cfg, recipients, 100);
      if !cfg.learnRecipients || local == "" || taught == {} then after == s && (ok <==> !cfg.learnRecipients || local != "")
      else Teaches(cfg, s.entries, after.entries, local, taught, now)
  {
    hide Teaches, Turns, TurnsSave, Marked, Distinct, Current, AnyStale, WellKeyed;
    TurnsTeach(cfg, s.entries, cfg.normalize(sender), choices, now);
  }

  ghost predicate LearnedFresh(cfg: Config, entries: map<Key, Entry>, after: map<Key, Entry>, local: string, visited: set<string>,
                               now: int, k: Key)
  {
    && LearnedAs(entries, after, local, visited, now, k)
    && (k in after && !(k.local == local && k.correspondent in visited) ==> k in entries && Fresh(cfg, entries[k], now))
  }

  lemma LearnedFromCurrent(cfg: Config, entries: map<Key, Entry>, after: map<Key, Entry>, local: string, visited: set<string>,
                           now: int, k: Key)
    requires LearnedAs(Current(cfg, entries, now), after, local, visited, now, k)
    ensures LearnedFresh(cfg, entries, after, local, visited, now, k)
  {
    FreshIff(cfg, entries, now);
    hide Stale, Fresh;
  }

  lemma MarkedKeys(entries: map<Key, Entry>)
    ensures Marked(entries).Keys == entries.Keys
  {
  }

  // ---------------------------------------------------------------- classified mail

  /** Legitimate mail of a correspondent that counts notes its activity; of one that does not, qualifying mail adds to the
      count, other mail does nothing. */
  predicate Noted(cfg: Config, e: Entry, e': Entry, qualifying: bool, now: int)
  {
    && e'.local == e.local && e'.correspondent == e.correspondent && e'.kind == e.kind && e'.learnedAt == e.learnedAt
    && (if e.kind == Outbound || e.kind == Manual || e.count >= cfg.minMessages then e'.count == e.count && e'.lastActivity == now
        else if qualifying then e'.count == e.count + 1 && e'.lastActivity == now
        else e'.count == e.count && e'.lastActivity == e.lastActivity)
  }

  /** A relationship just learned from inbound mail. */
  predicate Met(e: Entry, k: Key, now: int)
  {
    e.KeyOf() == k && e.kind == Inbound && e.count == 1 && e.learnedAt == now && e.lastActivity == now
  }

  /** What one relationship is after a legitimate message: noted if it is with the sender and a recipient, new only if the
      message qualifies and the relationship did not exist or had been evicted; as it was otherwise. */
  ghost predicate EvidencedAs(cfg: Config, entries: map<Key, Entry>, after: map<Key, Entry>, c: string, qualifying: bool, visited: set<string>,
                              evicted: set<Key>, now: int, k: Key)
  {
    k in after ==>
      if k.correspondent == c && k.local in visited then
        || (k in entries && Noted(cfg, entries[k], after[k], qualifying, now))
        || (qualifying && (k !in entries || k in evicted) && Met(after[k], k, now))
      else k in entries && SameStanding(entries[k], after[k])
  }

  lemma {:induction false} VisitedOnce(choices: seq<Choice>)
    ensures |Visited(choices)| <= |choices|
    ensures choices != [] && |Visited(choices)| == |choices| ==>
      choices[|choices| - 1].recipient !in Visited(choices[..|choices| - 1]) && |Visited(choices[..|choices| - 1])| == |choices| - 1
  {
    hide Visited;
    if choices != [] {
      VisitedSnoc(choices);
      VisitedOnce(choices[..|choices| - 1]);
    } else {
      assert Visited(choices) == {} by { NoneVisited(choices); }
    }
  }

  lemma NoneVisited(choices: seq<Choice>)
    requires choices == []
    ensures Visited(choices) == {}
  {
  }

  lemma {:induction false} EvidencedTurns(cfg: Config, entries: map<Key, Entry>, c: string, qualifying: bool, choices: seq<Choice>, now: int, k: Key)
    requires WellKeyed(entries) && |Visited(choices)| == |choices|
    ensures var loop := Evidence(c, qualifying);
      EvidencedAs(cfg, entries, Turns(cfg, entries, loop, choices, now), c, qualifying, Visited(choices), EvictedBy(cfg, entries, loop, choices, now), now, k)
  {
    if choices != [] {
      var front, last, loop := choices[..|choices| - 1], choices[|choices| - 1], Evidence(c, qualifying);
      VisitedOnce(choices);
      VisitedSnoc(choices);
      EvidencedTurns(cfg, entries, c, qualifying, front, now, k);
      if k in entries && k !in EvictedBy(cfg, entries, loop, front, now) {
        TurnsRise(cfg, entries, loop, front, now, k);
      }
      assert k in entries ==> entries[k].KeyOf() == k;
      hide Turns, EvictedBy, Visited, Rises;
      EvidencedTurn(cfg, entries, Turns(cfg, entries, loop, front, now), c, qualifying, last, Visited(front), EvictedBy(cfg, entries, loop, front, now), now, k);
    }
  }

  lemma EvidencedTurn(cfg: Config, entries: map<Key, Entry>, before: map<Key, Entry>, c: string, qualifying: bool, last: Choice,
                      visited: set<string>, evicted: set<Key>, now: int, k: Key)
    requires EvidencedAs(cfg, entries, before, c, qualifying, visited, evicted, now, k) && last.recipient !in visited
    requires k in entries ==> entries[k].KeyOf() == k && (k in before || k in evicted)
    ensures var loop := Evidence(c, qualifying);
      EvidencedAs(cfg, entries, Take(cfg, before, loop.KeyFor(last.recipient), loop.TurnFor(cfg, before, last.recipient, now), last.victim),
                  c, qualifying, visited + {last.recipient}, evicted, now, k)
  {
  }

  /** What one legitimate message makes of the entries. */
  ghost predicate Evidences(cfg: Config, entries: map<Key, Entry>, after: map<Key, Entry>, c: string, qualifying: bool, locals: set<string>,
                            evicted: set<Key>, now: int)
  {
    && (forall k :: EvidencedFresh(cfg, entries, after, c, qualifying, locals, evicted, now, k))
    && (|entries| + |locals| <= cfg.maxEntries ==> forall k :: k in entries && Fresh(cfg, entries[k], now) ==> k in after)
  }

  ghost predicate EvidencedFresh(cfg: Config, entries: map<Key, Entry>, after: map<Key, Entry>, c: string, qualifying: bool, locals: set<string>,
                                 evicted: set<Key>, now: int, k: Key)
  {
    k in after ==>
      if k.correspondent == c && k.local in locals then
        || (k in entries && Fresh(cfg, entries[k], now) && Noted(cfg, entries[k], after[k], qualifying, now))
        || (qualifying && (k !in entries || !Fresh(cfg, entries[k], now) || k in evicted) && Met(after[k], k, now))
      else k in entries && Fresh(cfg, entries[k], now) && SameStanding(entries[k], after[k])
  }

  lemma EvidencedFromCurrent(cfg: Config, entries: map<Key, Entry>, after: map<Key, Entry>, c: string, qualifying: bool, locals: set<string>,
                             evicted: set<Key>, now: int, k: Key)
    requires EvidencedAs(cfg, Current(cfg, entries, now), after, c, qualifying, locals, evicted, now, k)
    ensures EvidencedFresh(cfg, entries, after, c, qualifying, locals, evicted, now, k)
    ensures EvidencedFresh(cfg, entries, Marked(after), c, qualifying, locals, evicted, now, k)
  {
    FreshIff(cfg, entries, now);
    hide Stale, Fresh;
  }

  lemma TurnsEvidence(cfg: Config, entries: map<Key, Entry>, c: string, qualifying: bool, choices: seq<Choice>, now: int)
    requires WellKeyed(entries) && |choices| == |Visited(choices)|
    ensures var current, loop := Current(cfg, entries, now), Evidence(c, qualifying);
      var turned, evicted := Turns(cfg, current, loop, choices, now), EvictedBy(cfg, current, loop, choices, now);
      && Evidences(cfg, entries, turned, c, qualifying, Visited(choices), evicted, now)
      && Evidences(cfg, entries, Marked(turned), c, qualifying, Visited(choices), evicted, now)
  {
    hide Fresh, EvidencedAs, EvidencedFresh, Turns, Marked, EvictedBy;
    var current, loop := Current(cfg, entries, now), Evidence(c, qualifying);
    var turned, evicted := Turns(cfg, current, loop, choices, now), EvictedBy(cfg, current, loop, choices, now);
    forall k ensures EvidencedFresh(cfg, entries, turned, c, qualifying, Visited(choices), evicted, now, k)
                     && EvidencedFresh(cfg, entries, Marked(turned), c, qualifying, Visited(choices), evicted, now, k) {
      EvidencedTurns(cfg, current, c, qualifying, choices, now, k);
      EvidencedFromCurrent(cfg, entries, turned, c, qualifying, Visited(choices), evicted, now, k);
    }
    MarkedKeys(turned);
    if |entries| + |choices| <= cfg.maxEntries {
      CurrentIsSmaller(cfg, entries, now);
      RoomForAll(cfg, current, loop, choices, now);
      FreshIff(cfg, entries, now);
    }
  }

  /** A legitimate message of which all recipients are known is evidence for its sender to each of them; whether it
      qualifies is decided by its score and, if that is required, by aligned DKIM. */
  lemma LegitimateMailAnswer(cfg: Config, s: State, now: int, sender: string, recipients: seq<string>, complete: bool, score: real,
                             min: real, dkim: bool, choices: seq<Choice>, write: Outcome)
    requires WellKeyed(s.entries) && Visits(choices, Locals(cfg, recipients))
    ensures var after, c, locals := RecordInbound(cfg, s, now, sender, recipients, complete, "legitimate", score, min, dkim, choices, write).0,
                                    cfg.normalize(sender), Locals(cfg, recipients);
      var qualifying := cfg.learnSenders && score >= cfg.minScore && (cfg.requireDKIM ==> dkim);
      if !complete || c == "" || locals == {} then after == s
      else
        Evidences(cfg, s.entries, after.entries, c, qualifying, locals,
                  EvictedBy(cfg, Current(cfg, s.entries, now), Evidence(c, qualifying), choices, now), now)
  {
    hide Evidences, EvictedBy, Turns, TurnsSave, Marked, Current, AnyStale, WellKeyed;
    var qualifying := cfg.learnSenders && score >= cfg.minScore && (cfg.requireDKIM ==> dkim);
    TurnsEvidence(cfg, s.entries, cfg.normalize(sender), qualifying, choices, now);
  }

  /** A confident unwanted verdict ends the inbound-learned relationships of the sender, under per-sender scope only those
      with the recipients; any other verdict but a legitimate one ends none. */
  lemma UnwantedMailAnswer(cfg: Config, s: State, now: int, sender: string, recipients: seq<string>, complete: bool, classification: string,
                           score: real, min: real, dkim: bool, choices: seq<Choice>, write: Outcome)
    requires WellKeyed(s.entries) && classification != "legitimate"
    ensures var after, c, locals := RecordInbound(cfg, s, now, sender, recipients, complete, classification, score, min, dkim, choices, write).0,
                                    cfg.normalize(sender), Locals(cfg, recipients);
      var gone := set k | k in s.entries && classification == "unwanted" && score >= min && k.correspondent == c
                          && s.entries[k].kind == Inbound && (cfg.scope == PerSender ==> k.local in locals);
      if !complete || c == "" || locals == {} then after == s else Spares(cfg, s.entries, after.entries, now, gone)
  {
    hide Marked, AnyStale, Stale, Spares, Current;
    var c, locals, removing := cfg.normalize(sender), Locals(cfg, recipients), classification == "unwanted" && score >= min;
    var gone := set k | k in s.entries && classification == "unwanted" && score >= min && k.correspondent == c
                        && s.entries[k].kind == Inbound && (cfg.scope == PerSender ==> k.local in locals);
    DiscreditedAre(cfg, s.entries, now, c, locals, removing, gone);
    hide Remaining;
  }

  lemma DiscreditedAre(cfg: Config, entries: map<Key, Entry>, now: int, c: string, locals: set<string>, removing: bool, gone: set<Key>)
    requires WellKeyed(entries)
    requires gone == set k | k in entries && removing && k.correspondent == c && entries[k].kind == Inbound && (cfg.scope == PerSender ==> k.local in locals)
    ensures var current := Current(cfg, entries, now);
      var left := if removing then Remaining(cfg, current, c, locals) else current;
      Spares(cfg, entries, left, now, gone) && Spares(cfg, entries, Marked(left), now, gone)
  {
    FreshIff(cfg, entries, now);
    hide Stale, Fresh;
    forall k | k in entries ensures k.correspondent == entries[k].correspondent && k.local == entries[k].local {
      assert entries[k].KeyOf() == k;
    }
  }

  // ---------------------------------------------------------------- accepted mail

  /** Accepted mail of a correspondent that counts, to recipients in scope, is activity of these relationships and of no others. */
  ghost predicate Touches(cfg: Config, entries: map<Key, Entry>, after: map<Key, Entry>, c: string, locals: set<string>, now: int)
  {
    && (forall k :: k in after <==> k in entries && Fresh(cfg, entries[k], now))
    && forall k :: k in after ==>
         if Vouches(cfg, entries[k], c, now) && (cfg.scope == PerSender ==> entries[k].local in locals)
         then SameStanding(entries[k].(lastActivity := now), after[k]) else SameStanding(entries[k], after[k])
  }

  lemma TouchedAre(cfg: Config, entries: map<Key, Entry>, c: string, locals: set<string>, now: int)
    ensures var touched := TouchedEntries(cfg, Current(cfg, entries, now), c, locals, now);
      Touches(cfg, entries, touched, c, locals, now) && Touches(cfg, entries, Marked(touched), c, locals, now)
  {
    FreshIff(cfg, entries, now);
    hide Stale, Fresh;
  }

  lemma AcceptedMailAnswer(cfg: Config, s: State, now: int, sender: string, recipients: seq<string>, write: Outcome)
    ensures var after, c := TouchInbound(cfg, s, now, sender, recipients, write).0, cfg.normalize(sender);
      if !cfg.useAllowlist || c == "" then after == s else Touches(cfg, s.entries, after.entries, c, Locals(cfg, recipients), now)
  {
    TouchedAre(cfg, s.entries, cfg.normalize(sender), Locals(cfg, recipients), now);
    hide Touches, TouchedEntries, Current, AnyStale, Marked, Touched, Due;
  }

  // ---------------------------------------------------------------- files

  /** A stored relationship with usable addresses and a known type is read as itself, in canonical addresses; one without
      a type is outbound, one without activity was active when it was learned, and only inbound ones have a count. */
  predicate ReadAs(cfg: Config, stored: StoredEntry, e: Entry)
  {
    var d := stored.entry;
    && e.local != "" && e.correspondent != "" && e.local == cfg.normalize(d.local) && e.correspondent == cfg.normalize(d.correspondent)
    && (stored.kind == OfKind(e.kind) || (stored.kind == NoKind && e.kind == Outbound))
    && e.learnedAt == d.learnedAt && e.lastActivity == (if d.lastActivity == 0 then d.learnedAt else d.lastActivity)
    && e.persisted == e.lastActivity && e.count == (if e.kind == Inbound then d.count else 0)
  }

  lemma RereadIff(cfg: Config, stored: StoredEntry, e: Entry)
    ensures Reread(cfg, stored) == Some(e) <==> ReadAs(cfg, stored, e)
  {
  }

  /** Of several entries of one relationship the last in the file is the one that is loaded. */
  lemma {:induction false} LoadedIsLast(cfg: Config, stored: seq<StoredEntry>, k: Key) returns (i: int)
    ensures k in LoadAll(cfg, stored) ==> 0 <= i < |stored| && LoadAll(cfg, stored)[k].KeyOf() == k && ReadAs(cfg, stored[i], LoadAll(cfg, stored)[k])
    ensures k !in LoadAll(cfg, stored) ==> i == -1
    ensures forall j, e :: i < j < |stored| && ReadAs(cfg, stored[j], e) ==> e.KeyOf() != k
  {
    hide ReadAs, Reread;
    i := -1;
    if stored != [] {
      var front, n := stored[..|stored| - 1], |stored| - 1;
      i := LoadedIsLast(cfg, front, k);
      forall e ensures Reread(cfg, stored[n]) == Some(e) <==> ReadAs(cfg, stored[n], e) {
        RereadIff(cfg, stored[n], e);
      }
      if Reread(cfg, stored[n]).Some? && Reread(cfg, stored[n]).value.KeyOf() == k {
        i := n;
      }
    }
  }

  /** Only the two known versions are read; what is stale is left out, and so is what was evicted for being too much. */
  lemma LoadAnswer(cfg: Config, s: State, version: nat, stored: seq<StoredEntry>, now: int, victims: seq<Key>, write: Outcome)
    requires s.entries == map[]
    ensures var (after, ok), all := Load(cfg, s, version, stored, now, victims, write), LoadAll(cfg, stored);
      && (version != 1 && version != 2 ==> after.entries == map[] && !ok)
      && (version == 1 || version == 2 ==>
            && (forall k :: k in after.entries ==> k in all && Fresh(cfg, all[k], now) && SameStanding(all[k], after.entries[k]))
            && (forall k :: k in all && Fresh(cfg, all[k], now) && k !in after.entries ==> k in victims))
  {
    var all := LoadAll(cfg, stored);
    FreshIff(cfg, all, now);
    WithoutKeeps(Current(cfg, all, now), victims);
    WithoutLoses(Current(cfg, all, now), victims);
    hide Fresh, Stale, LoadAll, Without, AnyOutdated, AnyStale;
  }

  /** The stored relationship is just what would be written for what it is read as, addresses aside. */
  predicate InForm(cfg: Config, d: StoredEntry)
  {
    && cfg.normalize(d.entry.local) != "" && cfg.normalize(d.entry.correspondent) != "" && d.kind.OfKind?
    && d.entry.lastActivity != 0 && (d.kind == OfKind(Inbound) || d.entry.count == 0)
  }

  predicate AllInForm(cfg: Config, stored: seq<StoredEntry>) { forall i :: 0 <= i < |stored| ==> InForm(cfg, stored[i]) }

  predicate AllFresh(cfg: Config, entries: map<Key, Entry>, now: int) { forall k :: k in entries ==> Fresh(cfg, entries[k], now) }

  /** A file of the present version is left alone exactly when everything in it is in form and nothing is left out. */
  lemma LoadRewrites(cfg: Config, s: State, version: nat, stored: seq<StoredEntry>, now: int, victims: seq<Key>)
    requires s.entries == map[] && !s.deferred && (version == 1 || version == 2)
    ensures var after := Load(cfg, s, version, stored, now, victims, Written).0;
      if version == 2 && AllInForm(cfg, stored) && AllFresh(cfg, LoadAll(cfg, stored), now) && victims == []
      then after.disk == s.disk else AllWritten(after)
  {
    hide LoadAll, Without, Current, Stored, Marked;
    var all := LoadAll(cfg, stored);
    FreshIff(cfg, all, now);
    forall i | 0 <= i < |stored| ensures Outdated(cfg, stored[i]) <==> !InForm(cfg, stored[i]) {
      InFormIff(cfg, stored[i]);
    }
    StoredMarked(Without(Current(cfg, all, now), victims));
    assert AnyOutdated(cfg, stored) <==> !AllInForm(cfg, stored);
    assert AnyStale(cfg, all, now) <==> !AllFresh(cfg, all, now);
  }

  lemma InFormIff(cfg: Config, d: StoredEntry)
    ensures Outdated(cfg, d) <==> !InForm(cfg, d)
  {
  }

  lemma {:induction false} WithoutLoses(entries: map<Key, Entry>, victims: seq<Key>)
    ensures forall k :: k in entries && k !in Without(entries, victims) ==> k in victims
  {
    if victims != [] {
      WithoutLoses(entries, victims[..|victims| - 1]);
    }
  }
}
