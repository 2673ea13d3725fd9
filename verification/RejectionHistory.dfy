/**
 The rejection history: the entries of recently rejected mail, oldest first, pruned
 when they expire, trimmed to a maximum number and kept in one file.
 */
module RejectionHistory {
  import opened Addresses
  import opened BoundedHistory
  import opened StableSort
  import opened StateFile

  datatype Entry = Entry(sender: string, recipient: string, at: int, reason: string)

  /** `normalize` maps an address to its canonical form, or to "" when it is not one. */
  datatype Config = Config(expiry: int, maxEntries: nat, normalize: string -> string)

  datatype State = State(entries: seq<Entry>, deferred: bool, dirty: bool, disk: seq<Entry>)

  const AT: Entry -> int := (e: Entry) => e.at
  const NEWEST_FIRST: Entry -> int := (e: Entry) => -e.at

  function Cutoff(cfg: Config, now: int): int { now - cfg.expiry }

  function Pruned(cfg: Config, entries: seq<Entry>, now: int): seq<Entry>
  {
    Live(entries, AT, Cutoff(cfg, now))
  }

  /** The file holds just what a write would leave in it. */
  predicate AllWritten(s: State) { s.disk == Sort(s.entries, AT) }

  function WriteNow(s: State, o: Outcome): State
  {
    if o == Failed then s else s.(disk := Sort(s.entries, AT))
  }

  function Save(s: State, o: Outcome): State
  {
    if s.deferred then s.(dirty := true) else WriteNow(s, o)
  }

  predicate SaveFails(s: State, o: Outcome) { !s.deferred && o != Written }

  function Flush(s: State, o: Outcome): State
  {
    if s.dirty then WriteNow(s, o).(dirty := o != Written) else s
  }

  lemma PrunedNothing(cfg: Config, entries: seq<Entry>, now: int)
    requires |Pruned(cfg, entries, now)| == |entries|
    ensures Pruned(cfg, entries, now) == entries
  {
    LiveSame(entries, AT, Cutoff(cfg, now));
  }

  // ---------------------------------------------------------------- adding

  /** The visible sender if it is an address, else the envelope sender, else "". */
  function SenderOf(cfg: Config, visible: string, envelope: string): string
  {
    if cfg.normalize(visible) != "" then cfg.normalize(visible) else cfg.normalize(envelope)
  }

  /** An order in which a set may be iterated: each member once. */
  ghost predicate Enumerates(order: seq<string>, members: set<string>)
  {
    && |order| == |members|
    && forall x :: x in order <==> x in members
  }

  function NewEntries(sender: string, order: seq<string>, now: int, reason: string): seq<Entry>
  {
    seq(|order|, i requires 0 <= i < |order| => Entry(sender, order[i], now, reason))
  }

  predicate Recordable(cfg: Config, visible: string, envelope: string, recipients: seq<string>)
  {
    cfg.expiry > 0 && SenderOf(cfg, visible, envelope) != "" && Canonical(cfg.normalize, recipients) != {}
  }

  /** Records one entry per distinct recipient; a failed save restores the entries as they were. */
  function Add(cfg: Config, s: State, now: int, visible: string, envelope: string, recipients: seq<string>,
               order: seq<string>, reason: string, write: Outcome): (State, bool)
  {
    if !Recordable(cfg, visible, envelope, recipients) then (s, true)
    else
      var more := NewEntries(SenderOf(cfg, visible, envelope), order, now, reason);
      var s' := Save(s.(entries := LastN(cfg.maxEntries, Pruned(cfg, s.entries, now) + more)), write);
      if SaveFails(s, write) then (s'.(entries := s.entries), false) else (s', true)
  }

  // ---------------------------------------------------------------- listing

  function For(entries: seq<Entry>, all: bool, recipient: string): seq<Entry>
  {
    if entries == [] then []
    else
      var last := entries[|entries| - 1];
      For(entries[..|entries| - 1], all, recipient) + if all || last.recipient == recipient then [last] else []
  }

  /** Newest first, entries of the same instant in the order they were recorded. */
  function Listing(cfg: Config, live: seq<Entry>, recipient: string): seq<Entry>
  {
    if cfg.expiry <= 0 || (recipient != "*" && cfg.normalize(recipient) == "") then []
    else Sort(For(live, recipient == "*", cfg.normalize(recipient)), NEWEST_FIRST)
  }

  function List(cfg: Config, s: State, now: int, recipient: string, write: Outcome): (State, seq<Entry>)
  {
    if cfg.expiry <= 0 || (recipient != "*" && cfg.normalize(recipient) == "") then (s, [])
    else
      var live := Pruned(cfg, s.entries, now);
      var s' := s.(entries := live);
      (if |live| != |s.entries| then Save(s', write) else s', Listing(cfg, live, recipient))
  }

  // ---------------------------------------------------------------- loading

  function Reread(cfg: Config, stored: seq<Entry>): seq<Entry>
  {
    if stored == [] then []
    else
      var last := stored[|stored| - 1];
      var e := last.(sender := cfg.normalize(last.sender), recipient := cfg.normalize(last.recipient));
      Reread(cfg, stored[..|stored| - 1]) + if e.sender != "" && e.recipient != "" && e.at != 0 then [e] else []
  }

  function Load(cfg: Config, disk: seq<Entry>, now: int): seq<Entry>
  {
    LastN(cfg.maxEntries, Sort(Pruned(cfg, Reread(cfg, disk), now), AT))
  }
}
