/**
 The sending-IP reputation database: what each operation does to its records.

 Times are integers read from a clock that never goes backwards; 0 is the zero
 time. Every operation is a function of the state, its arguments and the choices
 the operation cannot make itself: which of several equally old records the map
 iteration meets first, and how each file write ends.
 */
module IpReputation {
  import opened BoundedHistory
  import opened NetworkAddress
  import opened Options
  import opened StateFile

  datatype Level = NoBlock | Short | Repeat

  datatype Record = Record(strikes: seq<int>, level: Level, until: int, classification: string, score: real,
                           legitimate: nat, lastActivity: int, persistedRefresh: int)

  datatype Config = Config(shortDuration: int, repeatThreshold: nat, repeatWindow: int, repeatDuration: int,
                           refreshOnAttempt: bool, refreshInterval: int, legitimatePerStrike: int, maxSize: int, hasFile: bool,
                           allowlisted: Addr -> bool)
  {
    predicate Enabled() { maxSize > 0 && (shortDuration > 0 || repeatThreshold > 0) }
    /** An address that is not exempt; an invalid one counts as exempt. */
    predicate Tracked(a: Addr) { a.Valid() && !allowlisted(a.Unmap()) }
    /** What configuration loading guarantees, and that the refresh interval, a constant of the program, is positive. */
    predicate Sane() { maxSize >= 1 && refreshInterval >= 1 && shortDuration >= 0 && repeatWindow >= 0 && repeatDuration >= 0 }
  }

  datatype State = State(entries: map<Addr, Record>, deferred: bool, dirty: bool, disk: map<Addr, Record>)

  datatype Answer = NotBlocked | Blocked(expires: int, classification: string, score: real, level: Level, strikeCount: nat)

  datatype ActiveBlock = ActiveBlock(addr: Addr, level: Level, expires: int)

  const EMPTY_RECORD := Record([], NoBlock, 0, "", 0.0, 0, 0, 0)
  const TIME: int -> int := (t: int) => t

  // ---------------------------------------------------------------- strikes and saving

  /** The first instant that is still strictly inside the repeat window. */
  function WindowStart(cfg: Config, now: int): int { now - cfg.repeatWindow + 1 }

  function Prune(cfg: Config, strikes: seq<int>, now: int): seq<int>
  {
    if cfg.repeatThreshold == 0 || cfg.repeatWindow <= 0 then [] else Live(strikes, TIME, WindowStart(cfg, now))
  }

  /** The file never holds the time of the last persisted refresh. */
  function Stored(entries: map<Addr, Record>): map<Addr, Record>
  {
    map a | a in entries :: entries[a].(persistedRefresh := 0)
  }

  /** The file holds just what a write would leave in it. */
  predicate AllWritten(s: State) { s.disk == Stored(s.entries) }

  function WriteNow(cfg: Config, s: State, o: Outcome): (r: State)
    ensures r.entries == s.entries && r.deferred == s.deferred
  {
    if !cfg.hasFile || o == Failed then s else s.(disk := Stored(s.entries))
  }

  function Save(cfg: Config, s: State, o: Outcome): (r: State)
    ensures r.entries == s.entries && r.deferred == s.deferred
  {
    if s.deferred then s.(dirty := true) else WriteNow(cfg, s, o)
  }

  predicate SaveFails(cfg: Config, s: State, o: Outcome) { !s.deferred && cfg.hasFile && o != Written }

  function Flush(cfg: Config, s: State, o: Outcome): State
  {
    if !s.dirty then s
    else WriteNow(cfg, s, o).(dirty := cfg.hasFile && o != Written)
  }

  // ---------------------------------------------------------------- cleanup and eviction

  predicate Expired(r: Record, now: int) { r.level != NoBlock && r.until <= now }

  predicate Survives(cfg: Config, r: Record, now: int)
  {
    !(r.level == Repeat && r.until <= now)
    && (Prune(cfg, r.strikes, now) != [] || (r.level != NoBlock && r.until > now))
  }

  function Cleaned(cfg: Config, r: Record, now: int): Record
  {
    var pruned := r.(strikes := Prune(cfg, r.strikes, now));
    if r.level == Short && r.until <= now then pruned.(level := NoBlock, until := 0) else pruned
  }

  function CleanedEntries(cfg: Config, entries: map<Addr, Record>, now: int): map<Addr, Record>
  {
    map a | a in entries && Survives(cfg, entries[a], now) :: Cleaned(cfg, entries[a], now)
  }

  predicate Changes(cfg: Config, r: Record, now: int)
  {
    !Survives(cfg, r, now) || (r.level == Short && r.until <= now)
  }

  function Cleanup(cfg: Config, s: State, now: int, o: Outcome): (r: State)
    ensures r.entries == CleanedEntries(cfg, s.entries, now) && r.deferred == s.deferred
  {
    var cleaned := s.(entries := CleanedEntries(cfg, s.entries, now));
    if exists a :: a in s.entries && Changes(cfg, s.entries[a], now) then Save(cfg, cleaned, o) else cleaned
  }

  function Rank(r: Record): nat { match r.level case NoBlock => 0 case Short => 1 case Repeat => 2 }

  predicate NoMoreProtected(r: Record, other: Record)
  {
    Rank(r) < Rank(other) || (Rank(r) == Rank(other) && r.lastActivity <= other.lastActivity)
  }

  /** A record eviction may pick: a lexicographic minimum of (protection, last activity). */
  ghost predicate IsVictim(entries: map<Addr, Record>, v: Addr)
  {
    v in entries && forall a :: a in entries ==> NoMoreProtected(entries[v], entries[a])
  }

  function MakeRoom(cfg: Config, entries: map<Addr, Record>, a: Addr, victim: Addr): map<Addr, Record>
  {
    if a !in entries && |entries| >= cfg.maxSize then entries - {victim} else entries
  }

  /** The choice of victim is only meaningful when a new record meets a full store. */
  ghost predicate EvictionIsLegal(cfg: Config, entries: map<Addr, Record>, a: Addr, victim: Addr)
  {
    a !in entries && |entries| >= cfg.maxSize ==> IsVictim(entries, victim)
  }

  function Find(entries: map<Addr, Record>, a: Addr): Record
  {
    if a in entries then entries[a] else EMPTY_RECORD
  }

  // ---------------------------------------------------------------- the operations

  function Struck(cfg: Config, strikes: seq<int>, now: int): seq<int>
  {
    var pruned := Prune(cfg, strikes, now);
    if cfg.repeatThreshold > 0 then LastN(cfg.repeatThreshold, pruned + [now]) else pruned
  }

  function Rejected(cfg: Config, r: Record, now: int, classification: string, score: real): Record
  {
    var strikes := Struck(cfg, r.strikes, now);
    var r' := r.(strikes := strikes, classification := classification, score := score, lastActivity := now,
                 legitimate := 0, persistedRefresh := now);
    if cfg.repeatThreshold > 0 && |strikes| >= cfg.repeatThreshold then
      r'.(level := Repeat, until := now + cfg.repeatDuration)
    else if cfg.shortDuration > 0 then
      r'.(level := Short, until := now + cfg.shortDuration)
    else r'
  }

  /** Records a rejection. `exempt` says that the sender's confirmed reverse DNS is allowlisted. */
  function Add(cfg: Config, s: State, now: int, addr: Addr, classification: string, score: real, exempt: bool,
               victim: Addr, cleanupWrite: Outcome, write: Outcome): State
  {
    if !cfg.Enabled() || !cfg.Tracked(addr) || exempt then s
    else
      var a := addr.Unmap();
      var clean := Cleanup(cfg, s, now, cleanupWrite);
      var room := MakeRoom(cfg, clean.entries, a, victim);
      var record := Rejected(cfg, Find(clean.entries, a), now, classification, score);
      Save(cfg, clean.(entries := room[a := record]), write)
  }

  /** What happens to one existing record: its new value, or None when it is deleted. */
  datatype Change = Change(record: Option<Record>, save: bool)

  function Commit(cfg: Config, s: State, a: Addr, c: Change, write: Outcome): State
  {
    var s' := s.(entries := if c.record.Some? then s.entries[a := c.record.value] else s.entries - {a});
    if c.save then Save(cfg, s', write) else s'
  }

  function Credited(cfg: Config, r: Record, now: int): Record
  {
    var r' := r.(legitimate := r.legitimate + 1, lastActivity := now);
    if r'.legitimate >= cfg.legitimatePerStrike && r.strikes != []
    then r'.(strikes := r.strikes[1..], legitimate := 0) else r'
  }

  function LegitimateChange(cfg: Config, record: Record, now: int): Change
  {
    var r := record.(strikes := Prune(cfg, record.strikes, now));
    if r.strikes == [] then
      if r.level == NoBlock || r.until <= now then Change(None, true) else Change(Some(r.(legitimate := 0)), false)
    else
      var credited := Credited(cfg, r, now);
      Change(if credited.strikes == [] && credited.level == NoBlock then None else Some(credited), true)
  }

  /** Applies legitimate evidence to an existing record. */
  function RecordLegitimate(cfg: Config, s: State, now: int, addr: Addr, write: Outcome): State
  {
    var a := addr.Unmap();
    if !cfg.Enabled() || cfg.legitimatePerStrike <= 0 || !addr.Valid() || a !in s.entries then s
    else Commit(cfg, s, a, LegitimateChange(cfg, s.entries[a], now), write)
  }

  predicate RefreshDue(cfg: Config, r: Record, now: int) { now - r.persistedRefresh >= cfg.refreshInterval }

  function Refreshed(cfg: Config, r: Record, now: int): Record
  {
    r.(until := now + cfg.repeatDuration, lastActivity := now,
       persistedRefresh := if RefreshDue(cfg, r, now) then now else r.persistedRefresh)
  }

  function LookupChange(cfg: Config, record: Record, now: int): Change
  {
    var r := record.(strikes := Prune(cfg, record.strikes, now));
    if Expired(r, now) then
      Change(if r.level == Repeat || r.strikes == [] then None else Some(r.(level := NoBlock, until := 0)), true)
    else if r.level == NoBlock then
      if r.strikes == [] then Change(None, true) else Change(Some(r), false)
    else if r.level == Repeat && cfg.refreshOnAttempt then
      Change(Some(Refreshed(cfg, r, now)), RefreshDue(cfg, r, now))
    else Change(Some(r), false)
  }

  function Report(c: Change): Answer
  {
    match c.record
    case Some(r) =>
      if r.level == NoBlock then NotBlocked else Blocked(r.until, r.classification, r.score, r.level, |r.strikes|)
    case None => NotBlocked
  }

  /** Whether an address is blocked now. Asking may expire, refresh or remove its record. */
  function Lookup(cfg: Config, s: State, now: int, addr: Addr, write: Outcome): (State, Answer)
  {
    var a := addr.Unmap();
    if !cfg.Enabled() || !cfg.Tracked(addr) || a !in s.entries then (s, NotBlocked)
    else
      var c := LookupChange(cfg, s.entries[a], now);
      (Commit(cfg, s, a, c, write), Report(c))
  }

  /** The administrator's block: level, duration, or nothing when no duration is configured. */
  function ManualDuration(cfg: Config): int { if cfg.repeatDuration > 0 then cfg.repeatDuration else cfg.shortDuration }

  function ManualRecord(cfg: Config, r: Record, now: int): Record
  {
    r.(level := if cfg.repeatDuration > 0 then Repeat else Short, until := now + ManualDuration(cfg), lastActivity := now,
       classification := "manual", score := 1.0, legitimate := 0, persistedRefresh := now)
  }

  function ManualAdd(cfg: Config, s: State, now: int, addr: Addr, victim: Addr, write: Outcome): (State, bool)
  {
    if !cfg.Enabled() || !cfg.Tracked(addr) || ManualDuration(cfg) <= 0 then (s, false)
    else
      var a := addr.Unmap();
      var room := MakeRoom(cfg, s.entries, a, victim);
      var s' := Save(cfg, s.(entries := room[a := ManualRecord(cfg, Find(room, a), now)]), write);
      if SaveFails(cfg, s, write) then (s'.(entries := s.entries), false) else (s', true)
  }

  function ManualDelete(cfg: Config, s: State, addr: Addr, write: Outcome): (State, bool)
  {
    var a := addr.Unmap();
    if !addr.Valid() || a !in s.entries then (s, false)
    else
      var s' := Commit(cfg, s, a, Change(None, true), write);
      if SaveFails(cfg, s, write) then (s'.(entries := s.entries), false) else (s', true)
  }

  function Active(entries: map<Addr, Record>, now: int): set<ActiveBlock>
  {
    set a | a in entries && entries[a].level != NoBlock && entries[a].until > now
      :: ActiveBlock(a, entries[a].level, entries[a].until)
  }

  function ListActive(cfg: Config, s: State, now: int, write: Outcome): (State, set<ActiveBlock>)
  {
    if !cfg.Enabled() then (s, {})
    else
      var clean := Cleanup(cfg, s, now, write);
      (clean, Active(clean.entries, now))
  }

  // ---------------------------------------------------------------- loading

  /** What loading makes of one stored record that survives. */
  function Loaded(cfg: Config, r: Record, now: int): Record
  {
    Cleaned(cfg, r, now).(strikes := LastN(cfg.repeatThreshold, Prune(cfg, r.strikes, now)), persistedRefresh := now)
  }

  /** Loading a readable file: too many entries are an error that leaves the store empty. */
  function Load(cfg: Config, disk: map<Addr, Record>, now: int): map<Addr, Record>
  {
    if |disk| > cfg.maxSize then map[]
    else map a | a in disk && Survives(cfg, disk[a], now) :: Loaded(cfg, disk[a], now)
  }

  // ---------------------------------------------------------------- capacity and eviction

  lemma {:induction false} SubmapIsSmaller(small: map<Addr, Record>, big: map<Addr, Record>)
    requires small.Keys <= big.Keys
    ensures |small| <= |big|
    decreases small
  {
    if a :| a in small.Keys {
      SubmapIsSmaller(small - {a}, big - {a});
      assert |small - {a}| == |small| - 1 by { assert (small - {a}).Keys == small.Keys - {a}; }
      assert |big - {a}| == |big| - 1 by { assert (big - {a}).Keys == big.Keys - {a}; }
    }
  }

  lemma CleanupShrinks(cfg: Config, entries: map<Addr, Record>, now: int)
    ensures |CleanedEntries(cfg, entries, now)| <= |entries|
  {
    SubmapIsSmaller(CleanedEntries(cfg, entries, now), entries);
  }

  /** Making room leaves space for one more record. */
  lemma RoomIsWithin(cfg: Config, entries: map<Addr, Record>, a: Addr, victim: Addr, r: Record)
    requires cfg.maxSize >= 1 && |entries| <= cfg.maxSize && EvictionIsLegal(cfg, entries, a, victim)
    ensures |MakeRoom(cfg, entries, a, victim)[a := r]| <= cfg.maxSize
  {
    var room := MakeRoom(cfg, entries, a, victim);
    if a !in entries && |entries| >= cfg.maxSize {
      assert room.Keys == entries.Keys - {victim};
    }
    assert room[a := r].Keys == room.Keys + {a};
  }
}
