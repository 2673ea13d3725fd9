/**
 The correspondent allowlist: what each operation does to the relationships between
 local addresses and their correspondents.

 As for the IP reputation, every operation is a function of the state, its arguments and
 the choices it cannot make itself: the order in which a set of recipients is iterated,
 which of several equally old entries is evicted, and how a file write ends. The zero
 time is 0.
 */
module Correspondents {
  import opened Addresses
  import opened Options
  import opened StateFile

  datatype Kind = Inbound | Outbound | Manual

  datatype Key = Key(local: string, correspondent: string)

  datatype Entry = Entry(local: string, correspondent: string, learnedAt: int, lastActivity: int, persisted: int,
                         kind: Kind, count: nat)
  {
    function KeyOf(): Key { Key(local, correspondent) }
  }

  datatype Scope = Global | PerSender

  /** `normalize` maps an address to its canonical form, or to "" when it is not one. */
  datatype Config = Config(learnRecipients: bool, learnSenders: bool, useAllowlist: bool, requireDKIM: bool,
                           minScore: real, minMessages: nat, scope: Scope, staleAfter: int, interval: int,
                           maxEntries: nat, normalize: string -> string)
  {
    /** What configuration loading guarantees. */
    predicate Sane() { maxEntries >= 1 && minMessages >= 1 && interval >= 0 && staleAfter >= 0 }
  }

  datatype State = State(entries: map<Key, Entry>, deferred: bool, dirty: bool, disk: map<Key, Entry>)

  const MAX_LEARNED: nat := 100

  // ---------------------------------------------------------------- saving

  /** The file holds no record of when it was written. */
  function Stored(entries: map<Key, Entry>): map<Key, Entry>
  {
    map k | k in entries :: entries[k].(persisted := 0)
  }

  /** The file holds just what a write would leave in it. */
  predicate AllWritten(s: State) { s.disk == Stored(s.entries) }

  function Marked(entries: map<Key, Entry>): map<Key, Entry>
  {
    map k | k in entries :: entries[k].(persisted := entries[k].lastActivity)
  }

  function WriteNow(s: State, o: Outcome): (r: State)
    ensures r.entries == if o == Written then Marked(s.entries) else s.entries
    ensures r.deferred == s.deferred
  {
    match o
    case Written => s.(disk := Stored(s.entries), entries := Marked(s.entries))
    case Failed => s
    case FailedAfterReplace => s.(disk := Stored(s.entries))
  }

  function Save(s: State, o: Outcome): (r: State)
    ensures r.entries == if s.deferred || o == Written then Marked(s.entries) else s.entries
    ensures r.deferred == s.deferred
  {
    if s.deferred then s.(dirty := true, entries := Marked(s.entries)) else WriteNow(s, o)
  }

  predicate SaveFails(s: State, o: Outcome) { !s.deferred && o != Written }

  function Flush(s: State, o: Outcome): State
  {
    if s.dirty then WriteNow(s, o).(dirty := o != Written) else s
  }

  // ---------------------------------------------------------------- ageing and eviction

  function Activity(e: Entry): int { if e.lastActivity != 0 then e.lastActivity else e.learnedAt }

  predicate Stale(cfg: Config, e: Entry, now: int)
  {
    cfg.staleAfter > 0 && Activity(e) < now - cfg.staleAfter
  }

  function Current(cfg: Config, entries: map<Key, Entry>, now: int): map<Key, Entry>
  {
    map k | k in entries && !Stale(cfg, entries[k], now) :: entries[k]
  }

  predicate AnyStale(cfg: Config, entries: map<Key, Entry>, now: int)
  {
    exists k :: k in entries && Stale(cfg, entries[k], now)
  }

  predicate Qualified(cfg: Config, e: Entry)
  {
    e.kind != Inbound || e.count >= cfg.minMessages
  }

  /** Activity is written to the file only once per update interval. */
  predicate Due(cfg: Config, e: Entry, now: int)
  {
    cfg.interval == 0 || e.persisted == 0 || now >= e.persisted + cfg.interval
  }

  predicate NoMoreProtected(cfg: Config, e: Entry, other: Entry)
  {
    (!Qualified(cfg, e) && Qualified(cfg, other))
    || (Qualified(cfg, e) == Qualified(cfg, other) && Activity(e) <= Activity(other))
  }

  /** An entry eviction may pick: a lexicographic minimum of (qualified, activity). */
  ghost predicate IsVictim(cfg: Config, entries: map<Key, Entry>, v: Key)
  {
    v in entries && forall k :: k in entries ==> NoMoreProtected(cfg, entries[v], entries[k])
  }

  predicate NeedsRoom(cfg: Config, entries: map<Key, Entry>, k: Key)
  {
    k !in entries && |entries| >= cfg.maxEntries
  }

  function MakeRoom(cfg: Config, entries: map<Key, Entry>, k: Key, victim: Key): map<Key, Entry>
  {
    if NeedsRoom(cfg, entries, k) then entries - {victim} else entries
  }

  ghost predicate EvictionIsLegal(cfg: Config, entries: map<Key, Entry>, k: Key, victim: Key)
  {
    NeedsRoom(cfg, entries, k) ==> IsVictim(cfg, entries, victim)
  }

  // ---------------------------------------------------------------- one recipient at a time

  /** One turn of a loop over recipients: who, and who makes room if that is needed. */
  datatype Choice = Choice(recipient: string, victim: Key)

  /** What one turn does: nothing, replace an entry, or add one; and whether it asks for a save. */
  datatype Turn = Skip | Put(entry: Entry, save: bool)

  function LearnTurn(cfg: Config, entries: map<Key, Entry>, k: Key, now: int): Turn
  {
    if k in entries then
      var e := entries[k].(lastActivity := now);
      var e' := if e.kind != Manual then e.(kind := Outbound, count := 0) else e;
      Put(e', e.kind == Inbound || Due(cfg, e', now))
    else Put(Entry(k.local, k.correspondent, now, now, 0, Outbound, 0), true)
  }

  function EvidenceTurn(cfg: Config, entries: map<Key, Entry>, k: Key, qualifying: bool, now: int): Turn
  {
    if k !in entries then
      if qualifying then Put(Entry(k.local, k.correspondent, now, now, 0, Inbound, 1), true) else Skip
    else
      var e := entries[k];
      var touched := e.(lastActivity := now);
      if Qualified(cfg, e) then Put(touched, Due(cfg, touched, now))
      else if qualifying then Put(touched.(count := e.count + 1), true)
      else Skip
  }

  function Take(cfg: Config, entries: map<Key, Entry>, k: Key, t: Turn, victim: Key): map<Key, Entry>
  {
    if t.Skip? then entries else MakeRoom(cfg, entries, k, victim)[k := t.entry]
  }

  /** Which loop is run: over the recipients of outgoing mail, or those of a legitimate message. */
  datatype Loop = Learning(local: string) | Evidence(correspondent: string, qualifying: bool)
  {
    function KeyFor(recipient: string): Key
    {
      match this
      case Learning(local) => Key(local, recipient)
      case Evidence(correspondent, _) => Key(recipient, correspondent)
    }

    function TurnFor(cfg: Config, entries: map<Key, Entry>, recipient: string, now: int): Turn
    {
      match this
      case Learning(_) => LearnTurn(cfg, entries, KeyFor(recipient), now)
      case Evidence(_, qualifying) => EvidenceTurn(cfg, entries, KeyFor(recipient), qualifying, now)
    }
  }

  function Turns(cfg: Config, entries: map<Key, Entry>, loop: Loop, choices: seq<Choice>, now: int): map<Key, Entry>
  {
    if choices == [] then entries
    else
      var before := Turns(cfg, entries, loop, choices[..|choices| - 1], now);
      var c := choices[|choices| - 1];
      Take(cfg, before, loop.KeyFor(c.recipient), loop.TurnFor(cfg, before, c.recipient, now), c.victim)
  }

  function TurnsSave(cfg: Config, entries: map<Key, Entry>, loop: Loop, choices: seq<Choice>, now: int): bool
  {
    choices != [] &&
    (TurnsSave(cfg, entries, loop, choices[..|choices| - 1], now)
     || var before := Turns(cfg, entries, loop, choices[..|choices| - 1], now);
        var t := loop.TurnFor(cfg, before, choices[|choices| - 1].recipient, now);
        t.Put? && t.save)
  }

  /** Every eviction of the loop picks a legal victim. */
  ghost predicate LegalTurns(cfg: Config, entries: map<Key, Entry>, loop: Loop, choices: seq<Choice>, now: int)
  {
    choices == [] ||
    (LegalTurns(cfg, entries, loop, choices[..|choices| - 1], now) &&
     var before := Turns(cfg, entries, loop, choices[..|choices| - 1], now);
     var c := choices[|choices| - 1];
     loop.TurnFor(cfg, before, c.recipient, now).Put? ==>
       EvictionIsLegal(cfg, before, loop.KeyFor(c.recipient), c.victim))
  }

  function Visited(choices: seq<Choice>): set<string>
  {
    set i | 0 <= i < |choices| :: choices[i].recipient
  }

  /** The choices visit each member of a set once. */
  predicate Visits(choices: seq<Choice>, members: set<string>)
  {
    |choices| == |members| && Visited(choices) == members
  }

  // ---------------------------------------------------------------- the operations

  /** The distinct canonical recipients, at most `limit` of them. */
  function Distinct(cfg: Config, recipients: seq<string>, limit: nat): set<string>
  {
    if recipients == [] then {}
    else
      var front := Distinct(cfg, recipients[..|recipients| - 1], limit);
      var r := cfg.normalize(recipients[|recipients| - 1]);
      if |front| >= limit || r == "" then front else front + {r}
  }

  function RunLoop(cfg: Config, s: State, loop: Loop, choices: seq<Choice>, now: int, write: Outcome): (State, bool)
  {
    var current := Current(cfg, s.entries, now);
    var s' := s.(entries := Turns(cfg, current, loop, choices, now));
    if AnyStale(cfg, s.entries, now) || TurnsSave(cfg, current, loop, choices, now)
    then (Save(s', write), !SaveFails(s, write)) else (s', true)
  }

  predicate Learns(cfg: Config, local: string, recipients: seq<string>)
  {
    cfg.learnRecipients && cfg.normalize(local) != "" && Distinct(cfg, recipients, MAX_LEARNED) != {}
  }

  /** Learns the recipients of accepted authenticated mail. False reports an error. */
  function Learn(cfg: Config, s: State, now: int, local: string, recipients: seq<string>, choices: seq<Choice>,
                 write: Outcome): (State, bool)
  {
    if !Learns(cfg, local, recipients) then (s, !cfg.learnRecipients || cfg.normalize(local) != "")
    else RunLoop(cfg, s, Learning(cfg.normalize(local)), choices, now, write)
  }

  predicate InScope(cfg: Config, e: Entry, correspondent: string, recipients: set<string>)
  {
    e.correspondent == correspondent && (cfg.scope == PerSender ==> e.local in recipients)
  }

  predicate Touched(cfg: Config, e: Entry, correspondent: string, recipients: set<string>)
  {
    InScope(cfg, e, correspondent, recipients) && Qualified(cfg, e)
  }

  function TouchedEntries(cfg: Config, entries: map<Key, Entry>, correspondent: string, recipients: set<string>,
                          now: int): map<Key, Entry>
  {
    map k | k in entries ::
      if Touched(cfg, entries[k], correspondent, recipients) then entries[k].(lastActivity := now) else entries[k]
  }

  /** Notes activity of the matching relationships of accepted inbound mail. */
  function TouchInbound(cfg: Config, s: State, now: int, correspondent: string, recipients: seq<string>,
                        write: Outcome): (State, bool)
  {
    var c, rs := cfg.normalize(correspondent), Canonical(cfg.normalize, recipients);
    if !cfg.useAllowlist || c == "" then (s, true)
    else
      var current := Current(cfg, s.entries, now);
      var s' := s.(entries := TouchedEntries(cfg, current, c, rs, now));
      if AnyStale(cfg, s.entries, now)
         || (exists k :: k in current && Touched(cfg, current[k], c, rs) && Due(cfg, current[k], now))
      then (Save(s', write), !SaveFails(s, write)) else (s', true)
  }

  predicate Discredited(cfg: Config, e: Entry, correspondent: string, recipients: set<string>)
  {
    e.kind == Inbound && InScope(cfg, e, correspondent, recipients)
  }

  /** What a confident unwanted verdict leaves of the entries. */
  function Remaining(cfg: Config, entries: map<Key, Entry>, correspondent: string, recipients: set<string>): map<Key, Entry>
  {
    map k | k in entries && !Discredited(cfg, entries[k], correspondent, recipients) :: entries[k]
  }

  predicate Qualifying(cfg: Config, score: real, dkimAligned: bool)
  {
    cfg.learnSenders && score >= cfg.minScore && (!cfg.requireDKIM || dkimAligned)
  }

  predicate Classifiable(cfg: Config, correspondent: string, recipients: seq<string>, complete: bool)
  {
    complete && cfg.normalize(correspondent) != "" && Canonical(cfg.normalize, recipients) != {}
  }

  /** Learns from the classification of one inbound message. */
  function RecordInbound(cfg: Config, s: State, now: int, correspondent: string, recipients: seq<string>, complete: bool,
                         classification: string, score: real, unwantedMinScore: real, dkimAligned: bool,
                         choices: seq<Choice>, write: Outcome): (State, bool)
  {
    var c, rs := cfg.normalize(correspondent), Canonical(cfg.normalize, recipients);
    if !Classifiable(cfg, correspondent, recipients, complete) then (s, true)
    else
      if classification == "legitimate" then
        RunLoop(cfg, s, Evidence(c, Qualifying(cfg, score, dkimAligned)), choices, now, write)
      else
        var current := Current(cfg, s.entries, now);
        var removing := classification == "unwanted" && score >= unwantedMinScore;
        var s' := s.(entries := if removing then Remaining(cfg, current, c, rs) else current);
        if AnyStale(cfg, s.entries, now)
           || (removing && exists k :: k in current && Discredited(cfg, current[k], c, rs))
        then (Save(s', write), !SaveFails(s, write)) else (s', true)
  }

  datatype Result<T> = Ok(value: T) | Err

  function ManualEntry(entries: map<Key, Entry>, k: Key, now: int): Entry
  {
    var e := if k in entries then entries[k] else Entry(k.local, k.correspondent, now, 0, 0, Manual, 0);
    e.(lastActivity := now, kind := Manual, count := 0)
  }

  /** Adds a relationship by hand; a failed save restores the entries as they were. */
  function AddManual(cfg: Config, s: State, now: int, sender: string, recipient: string, victim: Key,
                     write: Outcome): (State, Result<bool>)
  {
    var k := Key(cfg.normalize(recipient), cfg.normalize(sender));
    if k.local == "" || k.correspondent == "" then (s, Err)
    else
      var current := Current(cfg, s.entries, now);
      var s' := Save(s.(entries := MakeRoom(cfg, current, k, victim)[k := ManualEntry(current, k, now)]), write);
      if SaveFails(s, write) then (s'.(entries := s.entries), Err) else (s', Ok(k !in current))
  }

  predicate Deleted(e: Entry, sender: string, all: bool, recipient: string)
  {
    e.correspondent == sender && (all || e.local == recipient)
  }

  /** Deletes one relationship, or all of a sender's; a failed save restores the entries. */
  function DeleteManual(cfg: Config, s: State, now: int, sender: string, recipient: string,
                        write: Outcome): (State, Result<nat>)
  {
    var c, all, l := cfg.normalize(sender), recipient == "*", cfg.normalize(recipient);
    if c == "" || (!all && l == "") then (s, Err)
    else
      var current := Current(cfg, s.entries, now);
      var gone := set k | k in current && Deleted(current[k], c, all, l);
      var s' := s.(entries := current - gone);
      if gone == {} && !AnyStale(cfg, s.entries, now) then (s', Ok(0))
      else
        var saved := Save(s', write);
        if SaveFails(s, write) then (saved.(entries := s.entries), Err) else (saved, Ok(|gone|))
  }

  /** Drops stale relationships before a question is answered. */
  function RemoveStale(cfg: Config, s: State, now: int, write: Outcome): State
  {
    var s' := s.(entries := Current(cfg, s.entries, now));
    if AnyStale(cfg, s.entries, now) then Save(s', write) else s'
  }

  datatype MatchResult = MatchResult(known: bool, allMatched: bool, matched: nat, total: nat)

  function Matches(cfg: Config, entries: map<Key, Entry>, c: string, recipients: set<string>): MatchResult
  {
    if cfg.scope == Global then
      var known := exists k :: k in entries && entries[k].correspondent == c && Qualified(cfg, entries[k]);
      MatchResult(known, known, if known then 1 else 0, 1)
    else
      var hits := set r | r in recipients && Key(r, c) in entries && Qualified(cfg, entries[Key(r, c)]);
      MatchResult(hits != {}, recipients != {} && |hits| == |recipients|, |hits|, |recipients|)
  }

  function Lookup(cfg: Config, s: State, now: int, correspondent: string, recipients: seq<string>,
                  write: Outcome): (State, MatchResult)
  {
    var c := cfg.normalize(correspondent);
    if !cfg.useAllowlist || c == "" then (s, MatchResult(false, false, 0, 0))
    else
      var s' := RemoveStale(cfg, s, now, write);
      (s', Matches(cfg, s'.entries, c, Canonical(cfg.normalize, recipients)))
  }

  // ---------------------------------------------------------------- loading

  const FILE_VERSION: nat := 2
  const LEGACY_VERSION: nat := 1

  /** The type of a relationship in a file; earlier files have none. */
  datatype StoredKind = NoKind | OfKind(kind: Kind) | UnknownKind

  /** An entry of a file. Its type is the stored one. */
  datatype StoredEntry = StoredEntry(entry: Entry, kind: StoredKind)
  {
    function KeyOf(): Key { entry.KeyOf() }
  }

  /** One stored entry as the store keeps it, addresses in canonical form; None when it is dropped. */
  function Reread(cfg: Config, stored: StoredEntry): Option<Entry>
  {
    var e := stored.entry;
    var kind := match stored.kind case OfKind(k) => k case _ => Outbound;
    if cfg.normalize(e.local) == "" || cfg.normalize(e.correspondent) == "" || stored.kind == UnknownKind then None
    else Some(e.(local := cfg.normalize(e.local), correspondent := cfg.normalize(e.correspondent), kind := kind,
                 lastActivity := Activity(e), persisted := Activity(e), count := if kind == Inbound then e.count else 0))
  }

  /** The entry is not in the form in which it would be written. */
  predicate Outdated(cfg: Config, stored: StoredEntry)
  {
    Reread(cfg, stored).None? || stored.kind == NoKind || stored.entry.lastActivity == 0
    || (Reread(cfg, stored).value.kind != Inbound && stored.entry.count != 0)
  }

  /** The entries of a file, in file order, a later one replacing an earlier one of the same relationship. */
  function LoadAll(cfg: Config, stored: seq<StoredEntry>): map<Key, Entry>
  {
    if stored == [] then map[]
    else
      var front := LoadAll(cfg, stored[..|stored| - 1]);
      match Reread(cfg, stored[|stored| - 1])
      case Some(e) => front[e.KeyOf() := e]
      case None => front
  }

  predicate AnyOutdated(cfg: Config, stored: seq<StoredEntry>)
  {
    exists i :: 0 <= i < |stored| && Outdated(cfg, stored[i])
  }

  function Without(entries: map<Key, Entry>, victims: seq<Key>): map<Key, Entry>
  {
    if victims == [] then entries else Without(entries, victims[..|victims| - 1]) - {victims[|victims| - 1]}
  }

  /** The victims are evicted one after the other, each for a reason. */
  ghost predicate LegalEvictions(cfg: Config, entries: map<Key, Entry>, victims: seq<Key>)
  {
    victims == [] ||
    (var front := victims[..|victims| - 1];
     LegalEvictions(cfg, entries, front) && |Without(entries, front)| > cfg.maxEntries
     && IsVictim(cfg, Without(entries, front), victims[|victims| - 1]))
  }

  /** Loading a readable file of some version: relationships that are stale or beyond the capacity are left out,
      and a file that is not as it would be written is written anew. False reports an error. */
  function Load(cfg: Config, s: State, version: nat, stored: seq<StoredEntry>, now: int, victims: seq<Key>, write: Outcome): (State, bool)
  {
    if version != LEGACY_VERSION && version != FILE_VERSION then (s, false)
    else
      var all := LoadAll(cfg, stored);
      var s' := s.(entries := Without(Current(cfg, all, now), victims));
      if version != FILE_VERSION || AnyOutdated(cfg, stored) || AnyStale(cfg, all, now) || victims != []
      then (Save(s', write), !SaveFails(s, write)) else (s', true)
  }

  /** Trimming a file that is too large keeps the best: nothing dropped was more protected than anything kept. */
  lemma {:induction false} TrimmingKeepsTheBest(cfg: Config, entries: map<Key, Entry>, victims: seq<Key>, v: Key, k: Key)
    requires LegalEvictions(cfg, entries, victims) && v in entries && v !in Without(entries, victims)
    requires k in Without(entries, victims)
    ensures k in entries && NoMoreProtected(cfg, entries[v], entries[k])
  {
    var front := victims[..|victims| - 1];
    WithoutKeeps(entries, front);
    if v !in Without(entries, front) {
      TrimmingKeepsTheBest(cfg, entries, front, v, k);
    }
  }

  lemma {:induction false} WithoutKeeps(entries: map<Key, Entry>, victims: seq<Key>)
    ensures forall k :: k in Without(entries, victims) ==> k in entries && Without(entries, victims)[k] == entries[k]
  {
    if victims != [] {
      WithoutKeeps(entries, victims[..|victims| - 1]);
    }
  }
}
