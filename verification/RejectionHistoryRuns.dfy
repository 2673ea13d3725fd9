/**
 The rejection history against its whole past. `Recorded` collects every entry that was
 ever successfully recorded; the store forgets most of them, lazily and in place, yet
 answers every listing as if it had kept them all and looked at the newest `maxEntries`
 of those that have not expired.
 */
module RejectionHistoryRuns {
  import opened Addresses
  import opened BoundedHistory
  import opened StableSort
  import opened StateFile
  import opened RejectionHistory

  datatype Op =
    | Reject(visible: string, envelope: string, recipients: seq<string>, order: seq<string>, reason: string, write: Outcome)
    | Query(recipient: string, write: Outcome)
    | FlushFile(write: Outcome)
    | Defer

  datatype Event = Event(now: int, op: Op)

  function Step(cfg: Config, s: State, e: Event): State
  {
    match e.op
    case Reject(visible, envelope, recipients, order, reason, write) =>
      Add(cfg, s, e.now, visible, envelope, recipients, order, reason, write).0
    case Query(recipient, write) => List(cfg, s, e.now, recipient, write).0
    case FlushFile(write) => Flush(s, write)
    case Defer => s.(deferred := true)
  }

  /** What an event adds to the past: nothing when the save failed and the add was undone. */
  function Recording(cfg: Config, s: State, e: Event): seq<Entry>
  {
    match e.op
    case Reject(visible, envelope, recipients, order, reason, write) =>
      if Recordable(cfg, visible, envelope, recipients) && !SaveFails(s, write)
      then NewEntries(SenderOf(cfg, visible, envelope), order, e.now, reason) else []
    case _ => []
  }

  const EMPTY := State([], false, false, [])

  function After(cfg: Config, s: State, es: seq<Event>): State
  {
    if es == [] then s else Step(cfg, After(cfg, s, es[..|es| - 1]), es[|es| - 1])
  }

  /** Everything recorded after a run from `s`, whose entries had the past `past`. */
  function Recorded(cfg: Config, s: State, past: seq<Entry>, es: seq<Event>): seq<Entry>
  {
    if es == [] then past
    else var front := es[..|es| - 1]; Recorded(cfg, s, past, front) + Recording(cfg, After(cfg, s, front), es[|es| - 1])
  }

  function Clock(start: int, es: seq<Event>): int { if es == [] then start else es[|es| - 1].now }

  /** The clock never goes back. */
  ghost predicate Run(start: int, es: seq<Event>)
  {
    es == [] || (Run(start, es[..|es| - 1]) && Clock(start, es[..|es| - 1]) <= Clock(start, es))
  }

  ghost predicate UpTo(entries: seq<Entry>, t: int)
  {
    Chronological(entries, AT) && forall i :: 0 <= i < |entries| ==> 1 <= entries[i].at <= t
  }

  ghost predicate Follows(cfg: Config, entries: seq<Entry>, past: seq<Entry>, t: int)
  {
    UpTo(past, t) && Tracks(past, entries, cfg.maxEntries, AT, Cutoff(cfg, t))
  }

  lemma FollowsPruned(cfg: Config, entries: seq<Entry>, past: seq<Entry>, t: int, now: int)
    requires Follows(cfg, entries, past, t) && t <= now
    ensures Follows(cfg, Pruned(cfg, entries, now), past, now)
  {
    TracksPruned(past, entries, cfg.maxEntries, AT, Cutoff(cfg, t), Cutoff(cfg, now));
  }

  lemma FollowsStill(cfg: Config, entries: seq<Entry>, past: seq<Entry>, t: int, now: int)
    requires Follows(cfg, entries, past, t) && t <= now
    ensures Follows(cfg, entries, past, now)
  {
    hide Chronological;
  }

  lemma FollowsAppended(cfg: Config, entries: seq<Entry>, past: seq<Entry>, more: seq<Entry>, now: int)
    requires Follows(cfg, entries, past, now) && 1 <= now && forall i :: 0 <= i < |more| ==> more[i].at == now
    ensures Follows(cfg, LastN(cfg.maxEntries, entries + more), past + more, now)
  {
    TracksAppended(past, entries, more, cfg.maxEntries, AT, Cutoff(cfg, now));
  }

  lemma StepFollows(cfg: Config, s: State, past: seq<Entry>, t: int, e: Event)
    requires Follows(cfg, s.entries, past, t) && 1 <= t <= e.now
    ensures Follows(cfg, Step(cfg, s, e).entries, past + Recording(cfg, s, e), e.now)
  {
    hide Follows, Pruned, Recordable, SenderOf;
    FollowsStill(cfg, s.entries, past, t, e.now);
    FollowsPruned(cfg, s.entries, past, t, e.now);
    assert past + [] == past;
    FollowsAppended(cfg, Pruned(cfg, s.entries, e.now), past, Recording(cfg, s, e), e.now);
  }

  /** In every run from a store that follows some past the entries follow it and everything recorded since. The
      clock starts after the zero time. */
  lemma {:induction false} EntriesFollowPast(cfg: Config, s: State, past: seq<Entry>, start: int, es: seq<Event>)
    requires Follows(cfg, s.entries, past, start) && 1 <= start && Run(start, es)
    ensures Follows(cfg, After(cfg, s, es).entries, Recorded(cfg, s, past, es), Clock(start, es))
    ensures start <= Clock(start, es)
  {
    hide Step, Recording, Follows;
    if es != [] {
      var front := es[..|es| - 1];
      EntriesFollowPast(cfg, s, past, start, front);
      StepFollows(cfg, After(cfg, s, front), Recorded(cfg, s, past, front), Clock(start, front), es[|es| - 1]);
    }
  }

  /** What a complete history would show at `now`: its last `maxEntries` unexpired entries. */
  function Remembered(cfg: Config, past: seq<Entry>, now: int): seq<Entry>
  {
    LastN(cfg.maxEntries, Live(past, AT, Cutoff(cfg, now)))
  }

  /** Listing a store shows exactly the remembered entries of the recipient from the past it follows, newest
      first and stable. */
  lemma FollowingListing(cfg: Config, s: State, past: seq<Entry>, t: int, now: int, recipient: string, write: Outcome)
    requires Follows(cfg, s.entries, past, t) && t <= now
    requires cfg.expiry > 0 && (recipient == "*" || cfg.normalize(recipient) != "")
    ensures IsStableSort(For(Remembered(cfg, past, now), recipient == "*", cfg.normalize(recipient)),
                         List(cfg, s, now, recipient, write).1, NEWEST_FIRST)
  {
    TrackedAnswer(past, s.entries, cfg.maxEntries, AT, Cutoff(cfg, t), Cutoff(cfg, now));
    SortIsStable(For(Remembered(cfg, past, now), recipient == "*", cfg.normalize(recipient)), NEWEST_FIRST);
  }

  /** Listing at any time of any run shows exactly the remembered entries of the recipient, despite lazy pruning,
      trimming, and adds undone because a write failed. The past of an empty store is empty; that of a loaded one
      are its entries. */
  lemma ListingIsTheHistory(cfg: Config, s: State, past: seq<Entry>, start: int, es: seq<Event>, now: int,
                            recipient: string, write: Outcome)
    requires Follows(cfg, s.entries, past, start) && 1 <= start && Run(start, es) && Clock(start, es) <= now
    requires cfg.expiry > 0 && (recipient == "*" || cfg.normalize(recipient) != "")
    ensures IsStableSort(For(Remembered(cfg, Recorded(cfg, s, past, es), now), recipient == "*", cfg.normalize(recipient)),
                         List(cfg, After(cfg, s, es), now, recipient, write).1, NEWEST_FIRST)
  {
    hide After, Recorded, Follows;
    EntriesFollowPast(cfg, s, past, start, es);
    FollowingListing(cfg, After(cfg, s, es), Recorded(cfg, s, past, es), Clock(start, es), now, recipient, write);
  }

  lemma EmptyFollows(cfg: Config, t: int)
    ensures Follows(cfg, EMPTY.entries, [], t)
  {
  }

  /** A loaded store follows its own entries, whatever the file holds, unless that is from the future or from
      before the zero time. */
  lemma LoadedFollows(cfg: Config, disk: seq<Entry>, now: int)
    requires forall i :: 0 <= i < |disk| ==> 0 <= disk[i].at <= now
    ensures Follows(cfg, Load(cfg, disk, now), Load(cfg, disk, now), now)
  {
    hide Live, Sort;
    var reread := Reread(cfg, disk);
    RereadTimes(cfg, disk, now);
    var live := Pruned(cfg, reread, now);
    LiveMembers(reread, AT, Cutoff(cfg, now));
    var sorted := Sort(live, AT);
    SortIsStable(live, AT);
    forall i | 0 <= i < |sorted| ensures 1 <= sorted[i].at <= now {
      SortMembers(live, AT, sorted[i]);
      assert sorted[i] in reread;
    }
    var loaded := Load(cfg, disk, now);
    assert loaded == sorted[|sorted| - |loaded|..];
    ChronologicalFrom(sorted, |sorted| - |loaded|, AT);
  }

  lemma {:induction false} RereadTimes(cfg: Config, disk: seq<Entry>, now: int)
    requires forall i :: 0 <= i < |disk| ==> 0 <= disk[i].at <= now
    ensures forall e :: e in Reread(cfg, disk) ==> 1 <= e.at <= now
  {
    if disk != [] {
      RereadTimes(cfg, disk[..|disk| - 1], now);
    }
  }

  // ---------------------------------------------------------------- writing and reloading

  /** The entry reads back as it was written: its addresses are their own canonical form. */
  predicate RereadsAsIs(cfg: Config, e: Entry)
  {
    cfg.normalize(e.sender) == e.sender && e.sender != "" && cfg.normalize(e.recipient) == e.recipient && e.recipient != ""
  }

  ghost predicate AllRereadAsIs(cfg: Config, s: seq<Entry>)
  {
    forall i :: 0 <= i < |s| ==> RereadsAsIs(cfg, s[i])
  }

  ghost predicate Dated(s: seq<Entry>)
  {
    forall i :: 0 <= i < |s| ==> s[i].at != 0
  }

  lemma PrunedConcat(cfg: Config, a: seq<Entry>, b: seq<Entry>, now: int)
    ensures Pruned(cfg, a + b, now) == Pruned(cfg, a, now) + Pruned(cfg, b, now)
  {
    hide Live;
    LiveConcat(a, b, AT, Cutoff(cfg, now));
  }

  /** Rereading and pruning commute. */
  lemma {:induction false} RereadPruned(cfg: Config, s: seq<Entry>, now: int)
    ensures Pruned(cfg, Reread(cfg, s), now) == Reread(cfg, Pruned(cfg, s, now))
  {
    if s == [] {
      assert Reread(cfg, s) == s && Pruned(cfg, s, now) == s;
    } else {
      hide Reread, RereadOne, Pruned, Live;
      var front, last := s[..|s| - 1], s[|s| - 1];
      RereadPruned(cfg, front, now);
      PrunedSnoc(cfg, front, last, now);
      assert s == front + [last];
      RereadSnoc(cfg, front, last);
      PrunedConcat(cfg, Reread(cfg, front), RereadOne(cfg, last), now);
      PrunedOne(cfg, last, now);
      if last.at >= Cutoff(cfg, now) {
        RereadSnoc(cfg, Pruned(cfg, front, now), last);
      } else {
        assert Pruned(cfg, Reread(cfg, front), now) + [] == Pruned(cfg, Reread(cfg, front), now);
      }
    }
  }

  lemma PrunedSnoc(cfg: Config, front: seq<Entry>, last: Entry, now: int)
    ensures Pruned(cfg, front + [last], now) == if last.at >= Cutoff(cfg, now) then Pruned(cfg, front, now) + [last] else Pruned(cfg, front, now)
  {
    assert (front + [last])[..|front|] == front;
  }

  lemma PrunedOne(cfg: Config, e: Entry, now: int)
    ensures Pruned(cfg, RereadOne(cfg, e), now) == if e.at >= Cutoff(cfg, now) then RereadOne(cfg, e) else []
  {
    if e.at >= Cutoff(cfg, now) {
      LiveAll(RereadOne(cfg, e), AT, Cutoff(cfg, now));
    } else {
      LiveNone(RereadOne(cfg, e), AT, Cutoff(cfg, now));
    }
  }

  function RereadOne(cfg: Config, e: Entry): seq<Entry>
  {
    var e' := e.(sender := cfg.normalize(e.sender), recipient := cfg.normalize(e.recipient));
    if e'.sender != "" && e'.recipient != "" && e'.at != 0 then [e'] else []
  }

  lemma RereadSnoc(cfg: Config, s: seq<Entry>, e: Entry)
    ensures Reread(cfg, s + [e]) == Reread(cfg, s) + RereadOne(cfg, e)
  {
    assert (s + [e])[..|s|] == s;
  }

  lemma {:induction false} RereadShrinks(cfg: Config, s: seq<Entry>)
    ensures |Reread(cfg, s)| <= |s|
    ensures Chronological(s, AT) ==> Chronological(Reread(cfg, s), AT)
    ensures Chronological(s, AT) ==> forall i :: 0 <= i < |Reread(cfg, s)| ==> Reread(cfg, s)[i].at <= s[|s| - 1].at
  {
    if s != [] {
      RereadShrinks(cfg, s[..|s| - 1]);
    }
  }

  /** Rereading is the identity exactly on entries that reread as they are. */
  lemma {:induction false} RereadIdentity(cfg: Config, s: seq<Entry>)
    requires Dated(s)
    ensures Reread(cfg, s) == s <==> AllRereadAsIs(cfg, s)
  {
    hide Reread, RereadOne;
    if s == [] {
      assert Reread(cfg, s) == s by { RereadShrinks(cfg, s); }
    } else {
      var front, last := s[..|s| - 1], s[|s| - 1];
      RereadIdentity(cfg, front);
      RereadShrinks(cfg, front);
      RereadSnoc(cfg, front, last);
      RereadOneAsIs(cfg, last);
      assert s == front + [last];
      SameParts(Reread(cfg, front), RereadOne(cfg, last), front, last);
    }
  }

  lemma RereadOneAsIs(cfg: Config, e: Entry)
    requires e.at != 0
    ensures |RereadOne(cfg, e)| <= 1 && (RereadOne(cfg, e) == [e] <==> RereadsAsIs(cfg, e))
  {
    if RereadOne(cfg, e) == [e] {
      assert RereadOne(cfg, e)[0] == e;
    }
  }

  lemma SameParts(a: seq<Entry>, b: seq<Entry>, front: seq<Entry>, last: Entry)
    requires |a| <= |front| && |b| <= 1
    ensures a + b == front + [last] <==> a == front && b == [last]
  {
    if a + b == front + [last] {
      assert |a| == |front| && |b| == 1;
      assert a == (a + b)[..|a|] && b == (a + b)[|a|..];
    }
  }

  lemma {:induction false} ForEverybody(s: seq<Entry>, recipient: string)
    ensures For(s, true, recipient) == s
  {
    if s != [] {
      ForEverybody(s[..|s| - 1], recipient);
    }
  }

  lemma {:induction false} ClassReversed(s: seq<Entry>, k: int)
    ensures Class(s, NEWEST_FIRST, -k) == Class(s, AT, k)
  {
    if s != [] {
      ClassReversed(s[..|s| - 1], k);
    }
  }

  /** Two chronological lists with the same newest-first listing are the same list. */
  lemma ListingDetermines(s: seq<Entry>, t: seq<Entry>)
    requires Chronological(s, AT) && Chronological(t, AT) && Sort(s, NEWEST_FIRST) == Sort(t, NEWEST_FIRST)
    ensures s == t
  {
    hide Chronological;
    SortIsStable(s, NEWEST_FIRST);
    SortIsStable(t, NEWEST_FIRST);
    forall k ensures Class(s, AT, k) == Class(t, AT, k) {
      ClassReversed(s, k);
      ClassReversed(t, k);
      assert Class(Sort(s, NEWEST_FIRST), NEWEST_FIRST, -k) == Class(s, NEWEST_FIRST, -k);
    }
    ChronologicalIsSorted(s);
    ChronologicalIsSorted(t);
    StableSortIsUnique(s, t, AT);
  }

  lemma ChronologicalIsSorted(s: seq<Entry>)
    requires Chronological(s, AT)
    ensures SortedBy(s, AT)
  {
  }

  lemma FollowingList(cfg: Config, entries: seq<Entry>, past: seq<Entry>, t: int)
    requires Follows(cfg, entries, past, t)
    ensures Chronological(entries, AT) && Dated(entries) && |entries| <= cfg.maxEntries
  {
    hide Chronological;
    ChronologicalFrom(past, |past| - |entries|, AT);
  }

  /** Writing the file and loading it again keeps every unexpired entry, and every listing, exactly
      when each unexpired entry's addresses are their own canonical form. (An address that the
      normaliser accepts once but not again, such as one with a quoted local part, is lost.) */
  lemma ReloadIsExact(cfg: Config, s: State, past: seq<Entry>, start: int, es: seq<Event>, now: int)
    requires Follows(cfg, s.entries, past, start) && 1 <= start && Run(start, es) && Clock(start, es) <= now && cfg.expiry > 0
    ensures var live := Pruned(cfg, After(cfg, s, es).entries, now);
      var reloaded := Load(cfg, Sort(After(cfg, s, es).entries, AT), now);
      && (AllRereadAsIs(cfg, live) ==> reloaded == live)
      && (Listing(cfg, Pruned(cfg, reloaded, now), "*") == Listing(cfg, live, "*") <==> AllRereadAsIs(cfg, live))
  {
    hide After, Recorded, Follows, Chronological, AllRereadAsIs, Dated, Sort;
    EntriesFollowPast(cfg, s, past, start, es);
    var entries, all, t := After(cfg, s, es).entries, Recorded(cfg, s, past, es), Clock(start, es);
    FollowsPruned(cfg, entries, all, t, now);
    FollowingList(cfg, entries, all, t);
    var live := Pruned(cfg, entries, now);
    FollowingList(cfg, live, all, now);
    var reread := Reread(cfg, live);
    RereadShrinks(cfg, live);
    RereadPruned(cfg, entries, now);
    RereadIdentity(cfg, live);
    ChronologicalIsSorted(entries);
    ChronologicalIsSorted(reread);
    SortedIsFixed(entries, AT);
    SortedIsFixed(reread, AT);
    PrunedTwice(cfg, live, entries, now);
    RereadPruned(cfg, live, now);
    ForEverybody(live, cfg.normalize("*"));
    ForEverybody(reread, cfg.normalize("*"));
    if Listing(cfg, Pruned(cfg, reread, now), "*") == Listing(cfg, live, "*") {
      ListingDetermines(reread, live);
    }
  }

  /** An address whose canonical form is not its own: the first rejection of mail from it to itself is listed
      before a restart and not, or not so, after it. */
  lemma UnsettledIsLost(cfg: Config, address: string, now: int, reason: string)
    requires cfg.expiry > 0 && cfg.maxEntries >= 1 && now >= 1
    requires var y := cfg.normalize(address); y != "" && cfg.normalize(y) != y
    ensures var y := cfg.normalize(address);
      var es := [Event(now, Reject(address, address, [address], [y], reason, Written))];
      var s := After(cfg, EMPTY, es);
      && Run(1, es) && s.entries == [Entry(y, y, now, reason)] && AllWritten(s)
      && Listing(cfg, Pruned(cfg, Load(cfg, s.disk, now), now), "*") != Listing(cfg, Pruned(cfg, s.entries, now), "*")
  {
    var y := cfg.normalize(address);
    var e := Entry(y, y, now, reason);
    var es := [Event(now, Reject(address, address, [address], [y], reason, Written))];
    assert es[..0] == [] && Run(1, es[..0]) && After(cfg, EMPTY, es[..0]) == EMPTY;
    FirstRejection(cfg, address, now, reason);
    assert Sort([e], AT) == [e];
    EmptyFollows(cfg, 1);
    ReloadIsExact(cfg, EMPTY, [], 1, es, now);
    assert Pruned(cfg, [e], now) == [e] by {
      assert [e][..0] == [];
    }
    assert !RereadsAsIs(cfg, [e][0]);
  }

  lemma FirstRejection(cfg: Config, address: string, now: int, reason: string)
    requires cfg.expiry > 0 && cfg.maxEntries >= 1 && cfg.normalize(address) != ""
    ensures var y := cfg.normalize(address);
      var s := Step(cfg, EMPTY, Event(now, Reject(address, address, [address], [y], reason, Written)));
      s.entries == [Entry(y, y, now, reason)] && s.disk == s.entries
  {
    var y := cfg.normalize(address);
    assert cfg.normalize([address][0]) in Canonical(cfg.normalize, [address]);
    assert NewEntries(y, [y], now, reason) == [Entry(y, y, now, reason)];
    assert Pruned(cfg, [], now) + [Entry(y, y, now, reason)] == [Entry(y, y, now, reason)];
    assert Sort([Entry(y, y, now, reason)], AT) == [Entry(y, y, now, reason)];
  }

  lemma PrunedTwice(cfg: Config, live: seq<Entry>, entries: seq<Entry>, now: int)
    requires live == Pruned(cfg, entries, now)
    ensures Pruned(cfg, live, now) == live
  {
    LiveMembers(entries, AT, Cutoff(cfg, now));
    forall i | 0 <= i < |live| ensures AT(live[i]) >= Cutoff(cfg, now) {
      assert live[i] in live;
    }
    LiveAll(live, AT, Cutoff(cfg, now));
  }
}
