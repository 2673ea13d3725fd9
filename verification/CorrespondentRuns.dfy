/**
 What the correspondent allowlist guarantees over every run: trust in a relationship only
 rises, inbound learning counts exactly the qualifying messages, and capacity holds.
 */
module CorrespondentRuns {
  import opened Addresses
  import opened StateFile
  import opened Correspondents
  import opened CorrespondentStore

  datatype Op =
    | Outgoing(local: string, recipients: seq<string>, choices: seq<Choice>, write: Outcome)
    | Touch(sender: string, recipients: seq<string>, write: Outcome)
    | Classified(sender: string, recipients: seq<string>, complete: bool, classification: string, score: real,
                 unwantedMinScore: real, dkimAligned: bool, choices: seq<Choice>, write: Outcome)
    | Permit(sender: string, recipient: string, victim: Key, write: Outcome)
    | Revoke(sender: string, recipient: string, write: Outcome)
    | Ask(sender: string, recipients: seq<string>, write: Outcome)
    | FlushFile(write: Outcome)
    | Defer

  datatype Event = Event(now: int, op: Op)

  function Step(cfg: Config, s: State, e: Event): State
  {
    match e.op
    case Outgoing(local, recipients, choices, write) => Learn(cfg, s, e.now, local, recipients, choices, write).0
    case Touch(sender, recipients, write) => TouchInbound(cfg, s, e.now, sender, recipients, write).0
    case Classified(sender, recipients, complete, classification, score, min, dkim, choices, write) =>
      RecordInbound(cfg, s, e.now, sender, recipients, complete, classification, score, min, dkim, choices, write).0
    case Permit(sender, recipient, victim, write) => AddManual(cfg, s, e.now, sender, recipient, victim, write).0
    case Revoke(sender, recipient, write) => DeleteManual(cfg, s, e.now, sender, recipient, write).0
    case Ask(sender, recipients, write) => Lookup(cfg, s, e.now, sender, recipients, write).0
    case FlushFile(write) => Flush(s, write)
    case Defer => s.(deferred := true)
  }

  // ---------------------------------------------------------------- the shape of a step

  /** The loop over recipients an event runs, if any. */
  predicate RunsLoop(cfg: Config, e: Event)
  {
    match e.op
    case Outgoing(local, recipients, _, _) => Learns(cfg, local, recipients)
    case Classified(sender, recipients, complete, classification, _, _, _, _, _) =>
      Classifiable(cfg, sender, recipients, complete) && classification == "legitimate"
    case _ => false
  }

  function LoopOf(cfg: Config, e: Event): Loop
    requires RunsLoop(cfg, e)
  {
    if e.op.Outgoing? then Learning(cfg.normalize(e.op.local))
    else Evidence(cfg.normalize(e.op.sender), Qualifying(cfg, e.op.score, e.op.dkimAligned))
  }

  function MembersOf(cfg: Config, e: Event): set<string>
    requires RunsLoop(cfg, e)
  {
    if e.op.Outgoing? then Distinct(cfg, e.op.recipients, MAX_LEARNED) else Canonical(cfg.normalize, e.op.recipients)
  }

  predicate AddsByHand(cfg: Config, s: State, e: Event)
  {
    e.op.Permit? && cfg.normalize(e.op.sender) != "" && cfg.normalize(e.op.recipient) != "" && !SaveFails(s, e.op.write)
  }

  function HandKey(cfg: Config, e: Event): Key
    requires e.op.Permit?
  {
    Key(cfg.normalize(e.op.recipient), cfg.normalize(e.op.sender))
  }

  ghost predicate Legal(cfg: Config, s: State, e: Event)
  {
    var current := Current(cfg, s.entries, e.now);
    && (RunsLoop(cfg, e) ==> Visits(e.op.choices, MembersOf(cfg, e))
                             && LegalTurns(cfg, current, LoopOf(cfg, e), e.op.choices, e.now))
    && (AddsByHand(cfg, s, e) ==> EvictionIsLegal(cfg, current, HandKey(cfg, e), e.op.victim))
  }

  /** `after` holds entries of `before` only, unchanged but for activity noted or saved at `now`. */
  ghost predicate Carries(before: map<Key, Entry>, after: map<Key, Entry>, now: int)
  {
    forall k :: k in after ==> k in before && SameRelationship(before[k], after[k], now)
  }

  predicate SameRelationship(e: Entry, e': Entry, now: int)
  {
    && e'.KeyOf() == e.KeyOf() && e'.kind == e.kind && e'.count == e.count && e'.learnedAt == e.learnedAt
    && (e'.lastActivity == e.lastActivity || e'.lastActivity == now)
    && (e'.persisted == e.persisted || e'.persisted == e'.lastActivity)
  }

  /** Every step carries entries over, except for one loop over recipients or one entry put by hand. */
  ghost predicate Shape(cfg: Config, s: State, e: Event, after: map<Key, Entry>)
  {
    var current := Current(cfg, s.entries, e.now);
    if RunsLoop(cfg, e) then Carries(Turns(cfg, current, LoopOf(cfg, e), e.op.choices, e.now), after, e.now)
    else if AddsByHand(cfg, s, e) then
      var k := HandKey(cfg, e);
      Carries(MakeRoom(cfg, current, k, e.op.victim)[k := ManualEntry(current, k, e.now)], after, e.now)
    else Carries(s.entries, after, e.now)
  }

  lemma MarkedCarries(entries: map<Key, Entry>, now: int)
    ensures Carries(entries, Marked(entries), now) && Carries(entries, entries, now)
  {
  }

  lemma CurrentCarries(cfg: Config, entries: map<Key, Entry>, now: int)
    ensures Carries(entries, Current(cfg, entries, now), now) && Carries(entries, Marked(Current(cfg, entries, now)), now)
  {
  }

  lemma StepShape(cfg: Config, s: State, e: Event)
    ensures Shape(cfg, s, e, Step(cfg, s, e).entries)
  {
    hide Turns, TurnsSave, Current, AnyStale, MakeRoom, ManualEntry, Marked, Canonical, Distinct, TouchedEntries, Matches, Carries,
      WriteNow, Save;
    var s' := Step(cfg, s, e);
    MarkedCarries(s.entries, e.now);
    CurrentCarries(cfg, s.entries, e.now);
    match e.op {
      case Outgoing(_, _, choices, _) =>
        if RunsLoop(cfg, e) {
          MarkedCarries(Turns(cfg, Current(cfg, s.entries, e.now), LoopOf(cfg, e), choices, e.now), e.now);
        }
      case Touch(_, _, _) => TouchShape(cfg, s, e);
      case Classified(_, _, _, _, _, _, _, choices, _) =>
        if RunsLoop(cfg, e) {
          MarkedCarries(Turns(cfg, Current(cfg, s.entries, e.now), LoopOf(cfg, e), choices, e.now), e.now);
        } else {
          DiscreditShape(cfg, s, e);
        }
      case Permit(_, _, victim, _) =>
        var current := Current(cfg, s.entries, e.now);
        var k := HandKey(cfg, e);
        MarkedCarries(MakeRoom(cfg, current, k, victim)[k := ManualEntry(current, k, e.now)], e.now);
      case Revoke(_, _, _) => RevokeShape(cfg, s, e);
      case Ask(_, _, _) =>
      case FlushFile(_) =>
      case Defer =>
    }
  }

  lemma TouchShape(cfg: Config, s: State, e: Event)
    requires e.op.Touch?
    ensures Carries(s.entries, Step(cfg, s, e).entries, e.now)
  {
    hide AnyStale, Canonical, Touched, Due, Save, Stale;
  }

  lemma DiscreditShape(cfg: Config, s: State, e: Event)
    requires e.op.Classified? && !RunsLoop(cfg, e)
    ensures Carries(s.entries, Step(cfg, s, e).entries, e.now)
  {
    hide AnyStale, Canonical, Discredited, Save, Stale;
  }

  lemma RevokeShape(cfg: Config, s: State, e: Event)
    requires e.op.Revoke?
    ensures Carries(s.entries, Step(cfg, s, e).entries, e.now)
  {
    hide AnyStale, Canonical, Deleted, Save, Stale, Current;
    CurrentCarries(cfg, s.entries, e.now);
  }

  // ---------------------------------------------------------------- capacity

  lemma TakeWithin(cfg: Config, entries: map<Key, Entry>, k: Key, t: Turn, victim: Key)
    requires cfg.Sane() && |entries| <= cfg.maxEntries && (t.Put? ==> EvictionIsLegal(cfg, entries, k, victim))
    ensures |Take(cfg, entries, k, t, victim)| <= cfg.maxEntries
  {
    if t.Put? {
      var room := MakeRoom(cfg, entries, k, victim);
      PutKeepsSize(room, k, t.entry);
      if NeedsRoom(cfg, entries, k) {
        assert room.Keys == entries.Keys - {victim};
      }
    }
  }

  lemma {:induction false} TurnsWithin(cfg: Config, entries: map<Key, Entry>, loop: Loop, choices: seq<Choice>, now: int)
    requires cfg.Sane() && |entries| <= cfg.maxEntries && LegalTurns(cfg, entries, loop, choices, now)
    ensures |Turns(cfg, entries, loop, choices, now)| <= cfg.maxEntries
  {
    hide LearnTurn, EvidenceTurn, Take, EvictionIsLegal;
    if choices != [] {
      var front, c := choices[..|choices| - 1], choices[|choices| - 1];
      TurnsWithin(cfg, entries, loop, front, now);
      var before := Turns(cfg, entries, loop, front, now);
      TakeWithin(cfg, before, loop.KeyFor(c.recipient), loop.TurnFor(cfg, before, c.recipient, now), c.victim);
    }
  }

  lemma StepWithin(cfg: Config, s: State, e: Event)
    requires cfg.Sane() && |s.entries| <= cfg.maxEntries && Legal(cfg, s, e)
    ensures |Step(cfg, s, e).entries| <= cfg.maxEntries
  {
    hide Step, Turns, LegalTurns, Current, EvictionIsLegal, ManualEntry, MakeRoom, Visits;
    StepShape(cfg, s, e);
    var current, after := Current(cfg, s.entries, e.now), Step(cfg, s, e).entries;
    CurrentIsSmaller(cfg, s.entries, e.now);
    if RunsLoop(cfg, e) {
      TurnsWithin(cfg, current, LoopOf(cfg, e), e.op.choices, e.now);
      SubmapIsSmaller(after, Turns(cfg, current, LoopOf(cfg, e), e.op.choices, e.now));
    } else if AddsByHand(cfg, s, e) {
      var k := HandKey(cfg, e);
      TakeWithin(cfg, current, k, Put(ManualEntry(current, k, e.now), true), e.op.victim);
      SubmapIsSmaller(after, MakeRoom(cfg, current, k, e.op.victim)[k := ManualEntry(current, k, e.now)]);
    } else {
      SubmapIsSmaller(after, s.entries);
    }
  }

  // ---------------------------------------------------------------- what inbound learning counts

  /** Bookkeeping the program does not keep: the qualifying legitimate messages of each relationship
      since it was learned from inbound mail. */
  type Credits = map<Key, nat>

  function CreditTurns(cfg: Config, q: Credits, entries: map<Key, Entry>, loop: Loop, choices: seq<Choice>, now: int): Credits
  {
    if choices == [] then q
    else
      var front := choices[..|choices| - 1];
      var q' := CreditTurns(cfg, q, entries, loop, front, now);
      var before := Turns(cfg, entries, loop, front, now);
      var k := loop.KeyFor(choices[|choices| - 1].recipient);
      if loop.Evidence? && loop.qualifying then q'[k := if k in before && k in q' then q'[k] + 1 else 1] else q'
  }

  function CreditStep(cfg: Config, q: Credits, s: State, e: Event): Credits
  {
    if RunsLoop(cfg, e) then CreditTurns(cfg, q, Current(cfg, s.entries, e.now), LoopOf(cfg, e), e.op.choices, e.now) else q
  }

  function Min(a: nat, b: nat): nat { if a <= b then a else b }

  /** An inbound-learned entry counts its credits up to the required number; others count nothing. */
  predicate Counted(cfg: Config, k: Key, e: Entry, q: Credits)
  {
    && e.KeyOf() == k
    && if e.kind == Inbound then k in q && q[k] >= 1 && e.count == Min(cfg.minMessages, q[k]) else e.count == 0
  }

  ghost predicate AllCounted(cfg: Config, entries: map<Key, Entry>, q: Credits)
  {
    forall k {:trigger Counted(cfg, k, entries[k], q)} :: k in entries ==> Counted(cfg, k, entries[k], q)
  }

  lemma CarriedCounted(cfg: Config, before: map<Key, Entry>, after: map<Key, Entry>, now: int, q: Credits)
    requires AllCounted(cfg, before, q) && Carries(before, after, now)
    ensures AllCounted(cfg, after, q)
  {
    forall k | k in after ensures Counted(cfg, k, after[k], q) {
      assert Counted(cfg, k, before[k], q) && SameRelationship(before[k], after[k], now);
    }
  }

  lemma TurnCounted(cfg: Config, entries: map<Key, Entry>, loop: Loop, c: Choice, now: int, q: Credits)
    requires cfg.Sane() && AllCounted(cfg, entries, q)
    ensures var k := loop.KeyFor(c.recipient);
      var q' := if loop.Evidence? && loop.qualifying then q[k := if k in entries && k in q then q[k] + 1 else 1] else q;
      AllCounted(cfg, Take(cfg, entries, k, loop.TurnFor(cfg, entries, c.recipient, now), c.victim), q')
  {
    var k := loop.KeyFor(c.recipient);
    var after := Take(cfg, entries, k, loop.TurnFor(cfg, entries, c.recipient, now), c.victim);
    forall x | x in after && x in entries ensures x != k ==> after[x] == entries[x] && Counted(cfg, x, entries[x], q) {
      assert Counted(cfg, x, entries[x], q);
    }
    if k in entries {
      assert Counted(cfg, k, entries[k], q);
    }
  }

  lemma {:induction false} TurnsCounted(cfg: Config, entries: map<Key, Entry>, loop: Loop, choices: seq<Choice>, now: int, q: Credits)
    requires cfg.Sane() && AllCounted(cfg, entries, q)
    ensures AllCounted(cfg, Turns(cfg, entries, loop, choices, now), CreditTurns(cfg, q, entries, loop, choices, now))
  {
    hide LearnTurn, EvidenceTurn, Take, AllCounted;
    if choices != [] {
      var front, c := choices[..|choices| - 1], choices[|choices| - 1];
      TurnsCounted(cfg, entries, loop, front, now, q);
      TurnCounted(cfg, Turns(cfg, entries, loop, front, now), loop, c, now, CreditTurns(cfg, q, entries, loop, front, now));
    }
  }

  lemma StepCounted(cfg: Config, s: State, e: Event, q: Credits)
    requires cfg.Sane() && AllCounted(cfg, s.entries, q)
    ensures AllCounted(cfg, Step(cfg, s, e).entries, CreditStep(cfg, q, s, e))
  {
    hide Step, Turns, CreditTurns, Current, MakeRoom;
    StepShape(cfg, s, e);
    CurrentCarries(cfg, s.entries, e.now);
    var current, after := Current(cfg, s.entries, e.now), Step(cfg, s, e).entries;
    CarriedCounted(cfg, s.entries, current, e.now, q);
    if RunsLoop(cfg, e) {
      TurnsCounted(cfg, current, LoopOf(cfg, e), e.op.choices, e.now, q);
      CarriedCounted(cfg, Turns(cfg, current, LoopOf(cfg, e), e.op.choices, e.now), after, e.now, CreditStep(cfg, q, s, e));
    } else if AddsByHand(cfg, s, e) {
      var k := HandKey(cfg, e);
      PutCounted(cfg, current, k, e.op.victim, e.now, q);
      CarriedCounted(cfg, MakeRoom(cfg, current, k, e.op.victim)[k := ManualEntry(current, k, e.now)], after, e.now, q);
    } else {
      CarriedCounted(cfg, s.entries, after, e.now, q);
    }
  }

  lemma PutCounted(cfg: Config, entries: map<Key, Entry>, k: Key, victim: Key, now: int, q: Credits)
    requires AllCounted(cfg, entries, q)
    ensures AllCounted(cfg, MakeRoom(cfg, entries, k, victim)[k := ManualEntry(entries, k, now)], q)
  {
    if k in entries {
      assert Counted(cfg, k, entries[k], q);
    }
  }

  // ---------------------------------------------------------------- runs

  const EMPTY := State(map[], false, false, map[])

  function After(cfg: Config, s: State, es: seq<Event>): State
  {
    if es == [] then s else Step(cfg, After(cfg, s, es[..|es| - 1]), es[|es| - 1])
  }

  /** The credits after a run from `s`, whose entries had the credits `q`. */
  function CreditsAfter(cfg: Config, s: State, q: Credits, es: seq<Event>): Credits
  {
    if es == [] then q
    else
      var front := es[..|es| - 1];
      CreditStep(cfg, CreditsAfter(cfg, s, q, front), After(cfg, s, front), es[|es| - 1])
  }

  function Clock(start: int, es: seq<Event>): int { if es == [] then start else es[|es| - 1].now }

  ghost predicate Run(cfg: Config, s: State, start: int, es: seq<Event>)
  {
    es == [] ||
    (var front := es[..|es| - 1];
     Run(cfg, s, start, front) && Clock(start, front) <= Clock(start, es) && Legal(cfg, After(cfg, s, front), es[|es| - 1]))
  }

  /** In every run from an allowlist that counts right it stays within its capacity, an entry that was not
      learned from inbound mail counts nothing, and an inbound-learned one counts exactly the qualifying
      legitimate messages since it was created, up to the number required to qualify. */
  lemma {:induction false} CountsAreExact(cfg: Config, s: State, q: Credits, start: int, es: seq<Event>)
    requires cfg.Sane() && |s.entries| <= cfg.maxEntries && AllCounted(cfg, s.entries, q) && Run(cfg, s, start, es)
    ensures |After(cfg, s, es).entries| <= cfg.maxEntries
    ensures AllCounted(cfg, After(cfg, s, es).entries, CreditsAfter(cfg, s, q, es))
  {
    hide Step, Legal, CreditStep, AllCounted;
    if es != [] {
      var front := es[..|es| - 1];
      CountsAreExact(cfg, s, q, start, front);
      StepWithin(cfg, After(cfg, s, front), es[|es| - 1]);
      StepCounted(cfg, After(cfg, s, front), es[|es| - 1], CreditsAfter(cfg, s, q, front));
    }
  }

  /** An empty allowlist counts right. */
  lemma NoneCounted(cfg: Config)
    ensures AllCounted(cfg, EMPTY.entries, map[])
  {
  }

  /** Hence a relationship known from inbound mail alone has really earned it. */
  lemma QualifiedMeansEarned(cfg: Config, s: State, q: Credits, start: int, es: seq<Event>, k: Key)
    requires cfg.Sane() && |s.entries| <= cfg.maxEntries && AllCounted(cfg, s.entries, q) && Run(cfg, s, start, es)
    requires k in After(cfg, s, es).entries && After(cfg, s, es).entries[k].kind == Inbound
    ensures k in CreditsAfter(cfg, s, q, es)
    ensures Qualified(cfg, After(cfg, s, es).entries[k]) <==> CreditsAfter(cfg, s, q, es)[k] >= cfg.minMessages
  {
    hide After, CreditsAfter, Run;
    CountsAreExact(cfg, s, q, start, es);
    assert Counted(cfg, k, After(cfg, s, es).entries[k], CreditsAfter(cfg, s, q, es));
  }

  // ---------------------------------------------------------------- trust only rises

  function Trust(kind: Kind): nat { match kind case Inbound => 0 case Outbound => 1 case Manual => 2 }

  /** The relationships that a loop evicted to make room for others. */
  function EvictedBy(cfg: Config, entries: map<Key, Entry>, loop: Loop, choices: seq<Choice>, now: int): set<Key>
  {
    if choices == [] then {}
    else
      var front, c := choices[..|choices| - 1], choices[|choices| - 1];
      var before := Turns(cfg, entries, loop, front, now);
      EvictedBy(cfg, entries, loop, front, now)
      + if loop.TurnFor(cfg, before, c.recipient, now).Put? && NeedsRoom(cfg, before, loop.KeyFor(c.recipient))
        then {c.victim} else {}
  }

  /** Whoever a loop evicts was, at that turn, one of the least protected: a qualified relationship goes only
      when no unqualified one is left, and of equals the least recently active goes. */
  lemma {:induction false} QualifiedGoLast(cfg: Config, entries: map<Key, Entry>, loop: Loop, choices: seq<Choice>, now: int, k: Key)
    returns (i: nat)
    requires LegalTurns(cfg, entries, loop, choices, now) && k in EvictedBy(cfg, entries, loop, choices, now)
    ensures i < |choices| && choices[i].victim == k
    ensures var before := Turns(cfg, entries, loop, choices[..i], now);
      && k in before && |before| >= cfg.maxEntries
      && forall x :: x in before ==>
           if Qualified(cfg, before[k]) then Qualified(cfg, before[x]) && Activity(before[k]) <= Activity(before[x])
           else Qualified(cfg, before[x]) || Activity(before[k]) <= Activity(before[x])
  {
    hide LearnTurn, EvidenceTurn, Take;
    var front := choices[..|choices| - 1];
    if k in EvictedBy(cfg, entries, loop, front, now) {
      i := QualifiedGoLast(cfg, entries, loop, front, now, k);
      assert choices[..i] == front[..i];
    } else {
      i := |choices| - 1;
    }
  }

  /** The relationships an event ends: evicted, or stale. */
  function Ended(cfg: Config, s: State, e: Event): set<Key>
  {
    var current := Current(cfg, s.entries, e.now);
    (s.entries.Keys - current.Keys)
    + (if RunsLoop(cfg, e) then EvictedBy(cfg, current, LoopOf(cfg, e), e.op.choices, e.now) else {})
    + (if AddsByHand(cfg, s, e) && NeedsRoom(cfg, current, HandKey(cfg, e)) then {e.op.victim} else {})
  }

  predicate Rises(e: Entry, e': Entry)
  {
    e'.KeyOf() == e.KeyOf() && e'.learnedAt == e.learnedAt && Trust(e'.kind) >= Trust(e.kind)
  }

  lemma TurnRises(cfg: Config, entries: map<Key, Entry>, loop: Loop, c: Choice, now: int, k: Key)
    requires k in entries && (loop.TurnFor(cfg, entries, c.recipient, now).Put? && NeedsRoom(cfg, entries, loop.KeyFor(c.recipient)) ==> k != c.victim)
    ensures var after := Take(cfg, entries, loop.KeyFor(c.recipient), loop.TurnFor(cfg, entries, c.recipient, now), c.victim);
      k in after && Rises(entries[k], after[k])
  {
  }

  lemma {:induction false} TurnsRise(cfg: Config, entries: map<Key, Entry>, loop: Loop, choices: seq<Choice>, now: int, k: Key)
    requires k in entries && k !in EvictedBy(cfg, entries, loop, choices, now)
    ensures k in Turns(cfg, entries, loop, choices, now)
    ensures Rises(entries[k], Turns(cfg, entries, loop, choices, now)[k])
  {
    hide LearnTurn, EvidenceTurn, Take;
    if choices != [] {
      var front, c := choices[..|choices| - 1], choices[|choices| - 1];
      TurnsRise(cfg, entries, loop, front, now, k);
      TurnRises(cfg, Turns(cfg, entries, loop, front, now), loop, c, now, k);
    }
  }

  /** The trust in an existing relationship only rises, from inbound-learned to outbound to manual, for
      as long as it exists: no event that leaves it in place lowers it or restarts its age. */
  lemma TrustOnlyRises(cfg: Config, s: State, e: Event, k: Key)
    requires k in s.entries && k in Step(cfg, s, e).entries && k !in Ended(cfg, s, e)
    ensures Rises(s.entries[k], Step(cfg, s, e).entries[k])
  {
    hide Step, Turns, EvictedBy, Distinct, Canonical;
    StepShape(cfg, s, e);
    var current := Current(cfg, s.entries, e.now);
    assert k in current && current[k] == s.entries[k];
    if RunsLoop(cfg, e) {
      TurnsRise(cfg, current, LoopOf(cfg, e), e.op.choices, e.now, k);
    }
  }

  // ---------------------------------------------------------------- unwanted mail

  /** A confident unwanted verdict removes, beyond what had gone stale, exactly the inbound-learned
      relationships of the sender that are in scope. */
  lemma UnwantedRemovesExactly(cfg: Config, s: State, now: int, sender: string, recipients: seq<string>, score: real,
                               min: real, dkim: bool, choices: seq<Choice>, write: Outcome, k: Key)
    requires Classifiable(cfg, sender, recipients, true) && score >= min && k in s.entries
    ensures var after := RecordInbound(cfg, s, now, sender, recipients, true, "unwanted", score, min, dkim, choices, write).0;
      k !in after.entries <==>
        || Stale(cfg, s.entries[k], now)
        || (s.entries[k].kind == Inbound && s.entries[k].correspondent == cfg.normalize(sender)
            && (cfg.scope == Global || exists i :: 0 <= i < |recipients| && cfg.normalize(recipients[i]) != ""
                                                   && cfg.normalize(recipients[i]) == s.entries[k].local))
  {
  }

  /** An entry that makes a sender known. */
  lemma KnownThrough(cfg: Config, entries: map<Key, Entry>, c: string, recipients: set<string>, q: Credits) returns (k: Key)
    requires AllCounted(cfg, entries, q) && Matches(cfg, entries, c, recipients).known
    ensures k in entries && InScope(cfg, entries[k], c, recipients)
  {
    if cfg.scope == Global {
      k :| k in entries && entries[k].correspondent == c && Qualified(cfg, entries[k]);
    } else {
      var r :| r in recipients && Key(r, c) in entries && Qualified(cfg, entries[Key(r, c)]);
      k := Key(r, c);
    }
    assert Counted(cfg, k, entries[k], q);
  }

  /** Afterwards the sender is known to those recipients only through outbound or manual entries. */
  lemma UnwantedForgetsInbound(cfg: Config, s: State, now: int, sender: string, recipients: seq<string>, score: real,
                               min: real, dkim: bool, choices: seq<Choice>, write: Outcome, write': Outcome, q: Credits)
    requires Classifiable(cfg, sender, recipients, true) && score >= min && AllCounted(cfg, s.entries, q)
    ensures var after := RecordInbound(cfg, s, now, sender, recipients, true, "unwanted", score, min, dkim, choices, write).0;
      Lookup(cfg, after, now, sender, recipients, write').1.known ==>
        exists k :: k in s.entries && k.correspondent == cfg.normalize(sender) && s.entries[k].kind != Inbound
  {
    hide RecordInbound, Lookup, Matches, AllCounted, Canonical, Carries;
    var e := Event(now, Classified(sender, recipients, true, "unwanted", score, min, dkim, choices, write));
    var after := Step(cfg, s, e);
    DiscreditShape(cfg, s, e);
    CarriedCounted(cfg, s.entries, after.entries, now, q);
    var ask := Event(now, Ask(sender, recipients, write'));
    StepShape(cfg, after, ask);
    var asked := Step(cfg, after, ask);
    CarriedCounted(cfg, after.entries, asked.entries, now, q);
    if Lookup(cfg, after, now, sender, recipients, write').1.known {
      LookupAnswers(cfg, after, now, sender, recipients, write');
      var k := KnownThrough(cfg, asked.entries, cfg.normalize(sender), Canonical(cfg.normalize, recipients), q);
      InboundIsGone(cfg, s, e, asked.entries, after.entries, k, q);
    }
  }

  lemma LookupAnswers(cfg: Config, s: State, now: int, sender: string, recipients: seq<string>, write: Outcome)
    requires Lookup(cfg, s, now, sender, recipients, write).1.known
    ensures Matches(cfg, Lookup(cfg, s, now, sender, recipients, write).0.entries, cfg.normalize(sender),
                    Canonical(cfg.normalize, recipients)).known
  {
    hide Matches, RemoveStale;
  }

  lemma InboundIsGone(cfg: Config, s: State, e: Event, asked: map<Key, Entry>, after: map<Key, Entry>, k: Key, q: Credits)
    requires e.op.Classified? && e.op.classification == "unwanted" && e.op.score >= e.op.unwantedMinScore
    requires Classifiable(cfg, e.op.sender, e.op.recipients, e.op.complete)
    requires after == Step(cfg, s, e).entries && Carries(s.entries, after, e.now) && Carries(after, asked, e.now)
    requires AllCounted(cfg, s.entries, q) && k in asked
    requires InScope(cfg, asked[k], cfg.normalize(e.op.sender), Canonical(cfg.normalize, e.op.recipients))
    ensures k in s.entries && k.correspondent == cfg.normalize(e.op.sender) && s.entries[k].kind != Inbound
  {
    hide Canonical, AnyStale, Stale;
    assert k in after && SameRelationship(after[k], asked[k], e.now) && SameRelationship(s.entries[k], after[k], e.now);
    assert Counted(cfg, k, s.entries[k], q);
  }
}
