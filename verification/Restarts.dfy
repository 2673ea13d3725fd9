/**
 The stores over several lives of the program. Each life loads the file that the one before
 it left, and runs on. The bookkeeping that the run theorems are about goes on across restarts
 when a life ends with its file up to date, as an orderly shutdown leaves it: rejections,
 strikes and credits earned before a restart still count after it.
 */
module Restarts {
  import opened BoundedHistory
  import opened Options
  import opened StableSort
  import opened StateFile
  import C = Correspondents
  import CD = CorrespondentDurability
  import CR = CorrespondentRuns
  import F = IpReputationFile
  import H = IpReputationHistory
  import I = IpReputation
  import IR = IpReputationRuns
  import N = NetworkAddress
  import R = RejectionHistory
  import RR = RejectionHistoryRuns

  /** From one start of the program to the next: the time at which it loads its file, and what happens then. */
  datatype Life<E> = Life(boot: int, es: seq<E>)

  // ---------------------------------------------------------------- rejection history

  function RejectionsBorn(cfg: R.Config, s: R.State, boot: int): R.State
  {
    R.State(R.Load(cfg, s.disk, boot), false, false, s.disk)
  }

  /** What several lives leave behind, the first of them starting with the file of `s`. */
  function RejectionsLeft(cfg: R.Config, s: R.State, lives: seq<Life<RR.Event>>): R.State
  {
    if lives == [] then s
    else var l := lives[|lives| - 1]; RR.After(cfg, RejectionsBorn(cfg, RejectionsLeft(cfg, s, lives[..|lives| - 1]), l.boot), l.es)
  }

  /** Everything recorded after them, in whichever life that was. */
  function RejectionsTold(cfg: R.Config, s: R.State, past: seq<R.Entry>, lives: seq<Life<RR.Event>>): seq<R.Entry>
  {
    if lives == [] then past
    else
      var front, l := lives[..|lives| - 1], lives[|lives| - 1];
      RR.Recorded(cfg, RejectionsBorn(cfg, RejectionsLeft(cfg, s, front), l.boot), RejectionsTold(cfg, s, past, front), l.es)
  }

  function RejectionsEnd(start: int, lives: seq<Life<RR.Event>>): int
  {
    if lives == [] then start else RR.Clock(lives[|lives| - 1].boot, lives[|lives| - 1].es)
  }

  /** Each life is left with its entries in the file, in addresses that are their own canonical form, and the
      clock does not go back from one to the next. */
  ghost predicate RejectionLives(cfg: R.Config, s: R.State, start: int, lives: seq<Life<RR.Event>>)
  {
    lives == [] ||
    (var front, l := lives[..|lives| - 1], lives[|lives| - 1];
     && RejectionLives(cfg, s, start, front) && RejectionsEnd(start, front) <= l.boot && RR.Run(l.boot, l.es)
     && RejectionsInFile(cfg, RejectionsLeft(cfg, s, front), l.boot))
  }

  ghost predicate RejectionsInFile(cfg: R.Config, s: R.State, boot: int)
  {
    R.AllWritten(s) && RR.AllRereadAsIs(cfg, R.Pruned(cfg, s.entries, boot))
  }

  /** A restart from a file that holds everything forgets nothing that matters. */
  lemma RestartFollows(cfg: R.Config, s: R.State, past: seq<R.Entry>, t: int, boot: int)
    requires RR.Follows(cfg, s.entries, past, t) && 1 <= t <= boot && cfg.expiry > 0 && RejectionsInFile(cfg, s, boot)
    ensures RR.Follows(cfg, RejectionsBorn(cfg, s, boot).entries, past, boot)
  {
    hide RR.Follows, R.Load, R.Pruned, RR.AllRereadAsIs;
    RR.ReloadIsExact(cfg, s, past, t, [], boot);
    RR.FollowsPruned(cfg, s.entries, past, t, boot);
  }

  lemma {:induction false} LivesFollow(cfg: R.Config, s: R.State, past: seq<R.Entry>, start: int, lives: seq<Life<RR.Event>>)
    requires RR.Follows(cfg, s.entries, past, start) && 1 <= start && cfg.expiry > 0 && RejectionLives(cfg, s, start, lives)
    ensures RR.Follows(cfg, RejectionsLeft(cfg, s, lives).entries, RejectionsTold(cfg, s, past, lives), RejectionsEnd(start, lives))
    ensures start <= RejectionsEnd(start, lives)
  {
    hide RR.Follows, RejectionsBorn, RR.After, RR.Recorded, RejectionsInFile, RR.Run, RR.Clock;
    if lives != [] {
      var front, l := lives[..|lives| - 1], lives[|lives| - 1];
      LivesFollow(cfg, s, past, start, front);
      var before, told := RejectionsLeft(cfg, s, front), RejectionsTold(cfg, s, past, front);
      RestartFollows(cfg, before, told, RejectionsEnd(start, front), l.boot);
      RR.EntriesFollowPast(cfg, RejectionsBorn(cfg, before, l.boot), told, l.boot, l.es);
    }
  }

  /** Restarts do not show: after any number of lives a listing shows exactly the remembered entries of everything
      the first of them knew and any of them recorded. */
  lemma ListingSurvivesRestarts(cfg: R.Config, s: R.State, past: seq<R.Entry>, start: int, lives: seq<Life<RR.Event>>, now: int,
                                recipient: string, write: Outcome)
    requires RR.Follows(cfg, s.entries, past, start) && 1 <= start && RejectionLives(cfg, s, start, lives)
    requires RejectionsEnd(start, lives) <= now && cfg.expiry > 0 && (recipient == "*" || cfg.normalize(recipient) != "")
    ensures var all := RR.Remembered(cfg, RejectionsTold(cfg, s, past, lives), now);
      IsStableSort(R.For(all, recipient == "*", cfg.normalize(recipient)),
                   R.List(cfg, RejectionsLeft(cfg, s, lives), now, recipient, write).1, R.NEWEST_FIRST)
  {
    hide RejectionsLeft, RejectionsTold, RR.Follows, RejectionLives;
    LivesFollow(cfg, s, past, start, lives);
    RR.FollowingListing(cfg, RejectionsLeft(cfg, s, lives), RejectionsTold(cfg, s, past, lives), RejectionsEnd(start, lives), now,
                        recipient, write);
  }

  // ---------------------------------------------------------------- sending-IP reputation

  type Pasts = map<N.Addr, seq<int>>

  function AddressesBorn(cfg: I.Config, s: I.State, boot: int): I.State
  {
    I.State(I.Load(cfg, s.disk, boot), false, false, s.disk)
  }

  function AddressesLeft(cfg: I.Config, s: I.State, lives: seq<Life<IR.Event>>): I.State
  {
    if lives == [] then s
    else var l := lives[|lives| - 1]; IR.AfterFrom(cfg, AddressesBorn(cfg, AddressesLeft(cfg, s, lives[..|lives| - 1]), l.boot), l.es)
  }

  /** The past of the records that a restart keeps. */
  function Remaining(past: Pasts, s: I.State): Pasts
  {
    map a | a in past && a in s.entries :: past[a]
  }

  /** The rejections of each address since its record was created, in whichever life that was. */
  function PastLeft(cfg: I.Config, s: I.State, past: Pasts, lives: seq<Life<IR.Event>>): Pasts
  {
    if lives == [] then past
    else
      var front, l := lives[..|lives| - 1], lives[|lives| - 1];
      var born := AddressesBorn(cfg, AddressesLeft(cfg, s, front), l.boot);
      H.Past(cfg, born, Remaining(PastLeft(cfg, s, past, front), born), l.es)
  }

  function AddressesEnd(start: int, lives: seq<Life<IR.Event>>): int
  {
    if lives == [] then start else IR.ClockFrom(lives[|lives| - 1].boot, lives[|lives| - 1].es)
  }

  /** Each life is left with a file that shows its records, and the clock does not go back. */
  ghost predicate AddressLives(cfg: I.Config, s: I.State, start: int, lives: seq<Life<IR.Event>>)
  {
    lives == [] ||
    (var front, l := lives[..|lives| - 1], lives[|lives| - 1];
     var before := AddressesLeft(cfg, s, front);
     && AddressLives(cfg, s, start, front) && AddressesEnd(start, front) <= l.boot
     && F.DiskShows(cfg, before.disk, before.entries, AddressesEnd(start, front))
     && IR.RunFrom(cfg, AddressesBorn(cfg, before, l.boot), l.boot, l.es))
  }

  /** A restart keeps the strikes of every record it keeps faithful to the same past. */
  lemma RestartIsFaithful(cfg: I.Config, s: I.State, past: Pasts, t: int, boot: int)
    requires H.AllFaithful(cfg, s, past, t) && F.DiskShows(cfg, s.disk, s.entries, t) && t <= boot
    ensures var born := AddressesBorn(cfg, s, boot); H.AllFaithful(cfg, born, Remaining(past, born), boot)
  {
    hide H.Faithful, I.Prune, I.Survives, F.StrikesShown;
    var born := AddressesBorn(cfg, s, boot);
    forall a | a in born.entries ensures a in past && H.Faithful(cfg, born.entries[a].strikes, past[a], boot) {
      var d := s.disk[a];
      if a !in s.entries {
        F.DeadStaysDead(cfg, d, t, boot);
        assert false;
      }
      assert F.Shows(cfg, d, s.entries[a], t);
      F.ShownStrikes(cfg, d.strikes, s.entries[a].strikes, t, boot);
      H.PruneFaithful(cfg, s.entries[a].strikes, past[a], t, boot);
    }
  }

  /** Strikes survive restarts: over any number of lives they are faithful to the rejections since the record was
      created. */
  lemma {:induction false} StrikesSurviveRestarts(cfg: I.Config, s: I.State, past: Pasts, start: int, lives: seq<Life<IR.Event>>)
    requires H.AllFaithful(cfg, s, past, start) && AddressLives(cfg, s, start, lives)
    ensures H.AllFaithful(cfg, AddressesLeft(cfg, s, lives), PastLeft(cfg, s, past, lives), AddressesEnd(start, lives))
  {
    hide H.AllFaithful, F.DiskShows, AddressesBorn, Remaining, IR.RunFrom, IR.AfterFrom, IR.ClockFrom, H.Past;
    if lives != [] {
      var front, l := lives[..|lives| - 1], lives[|lives| - 1];
      StrikesSurviveRestarts(cfg, s, past, start, front);
      var before, told := AddressesLeft(cfg, s, front), PastLeft(cfg, s, past, front);
      RestartIsFaithful(cfg, before, told, AddressesEnd(start, front), l.boot);
      var born := AddressesBorn(cfg, before, l.boot);
      H.StrikesFollowHistory(cfg, born, Remaining(told, born), l.boot, l.es);
    }
  }

  /** Hence, without legitimate credit, a repeat block is decided by the rejections of all lives together. */
  lemma WindowSurvivesRestarts(cfg: I.Config, s: I.State, past: Pasts, start: int, lives: seq<Life<IR.Event>>, a: N.Addr, now: int)
    requires H.AllFaithful(cfg, s, past, start) && AddressLives(cfg, s, start, lives) && cfg.legitimatePerStrike <= 0
    requires a in AddressesLeft(cfg, s, lives).entries && AddressesEnd(start, lives) <= now
    ensures a in PastLeft(cfg, s, past, lives)
    ensures var p := PastLeft(cfg, s, past, lives)[a];
      var n := |set i | 0 <= i < |p| && now - p[i] < cfg.repeatWindow|;
      var m := if n < cfg.repeatThreshold then n else cfg.repeatThreshold;
      n <= |p| && I.Prune(cfg, AddressesLeft(cfg, s, lives).entries[a].strikes, now) == p[|p| - m..]
  {
    hide AddressesLeft, PastLeft, AddressLives, I.Prune, Live;
    StrikesSurviveRestarts(cfg, s, past, start, lives);
    H.StrikesAreTheWindow(cfg, AddressesLeft(cfg, s, lives), PastLeft(cfg, s, past, lives), AddressesEnd(start, lives), [], a, now);
  }

  /** A loaded store is faithful to its own strikes, whatever the file holds, unless that is out of order or from
      the future. */
  lemma LoadedIsFaithful(cfg: I.Config, s: I.State, now: int)
    requires F.FileInOrder(s.disk, now)
    ensures var born := AddressesBorn(cfg, s, now); H.AllFaithful(cfg, born, H.OwnPast(born.entries), now)
  {
    hide F.DiskShows, I.Load;
    F.LoadedIsShown(cfg, s.disk, now);
    var born := AddressesBorn(cfg, s, now);
    forall a | a in born.entries ensures H.Faithful(cfg, born.entries[a].strikes, H.OwnPast(born.entries)[a], now) {
      assert F.InOrder(cfg, born.entries[a].strikes, now);
    }
  }

  // ---------------------------------------------------------------- correspondents

  /** A life of the correspondent allowlist also chooses how its file is read, trimmed and saved anew. */
  datatype Reading = Reading(life: Life<CR.Event>, stored: seq<C.StoredEntry>, victims: seq<C.Key>, write: Outcome)

  function CorrespondentsBorn(cfg: C.Config, s: C.State, r: Reading): C.State
  {
    C.Load(cfg, C.State(map[], false, false, s.disk), C.FILE_VERSION, r.stored, r.life.boot, r.victims, r.write).0
  }

  function CorrespondentsLeft(cfg: C.Config, s: C.State, lives: seq<Reading>): C.State
  {
    if lives == [] then s
    else
      var r := lives[|lives| - 1];
      CR.After(cfg, CorrespondentsBorn(cfg, CorrespondentsLeft(cfg, s, lives[..|lives| - 1]), r), r.life.es)
  }

  function CreditsLeft(cfg: C.Config, s: C.State, q: CR.Credits, lives: seq<Reading>): CR.Credits
  {
    if lives == [] then q
    else
      var front, r := lives[..|lives| - 1], lives[|lives| - 1];
      CR.CreditsAfter(cfg, CorrespondentsBorn(cfg, CorrespondentsLeft(cfg, s, front), r), CreditsLeft(cfg, s, q, front), r.life.es)
  }

  /** The file holds nothing but relationships of the store, with their types and counts, and no address in it has
      another address for its canonical form. */
  ghost predicate CountsInFile(cfg: C.Config, s: C.State)
  {
    forall k {:trigger SameInFile(cfg, s, k)} :: k in s.disk ==> SameInFile(cfg, s, k)
  }

  predicate SameInFile(cfg: C.Config, s: C.State, k: C.Key)
  {
    && k in s.disk && k in s.entries && s.disk[k].KeyOf() == k && CD.Settled(cfg, s.disk[k])
    && s.disk[k].kind == s.entries[k].kind && s.disk[k].count == s.entries[k].count
  }

  /** The file is read entry by entry and trimmed to the capacity. */
  ghost predicate IsRead(cfg: C.Config, s: C.State, r: Reading)
  {
    CD.Lists(r.stored, s.disk) && |CorrespondentsBorn(cfg, s, r).entries| <= cfg.maxEntries
  }

  ghost predicate CorrespondentLives(cfg: C.Config, s: C.State, lives: seq<Reading>)
  {
    lives == [] ||
    (var front, r := lives[..|lives| - 1], lives[|lives| - 1];
     var before := CorrespondentsLeft(cfg, s, front);
     && CorrespondentLives(cfg, s, front) && CountsInFile(cfg, before) && IsRead(cfg, before, r)
     && CR.Run(cfg, CorrespondentsBorn(cfg, before, r), r.life.boot, r.life.es))
  }

  lemma {:induction false} LoadedKeys(cfg: C.Config, stored: seq<C.StoredEntry>)
    ensures CD.WellKeyed(C.LoadAll(cfg, stored))
  {
    if stored != [] {
      LoadedKeys(cfg, stored[..|stored| - 1]);
    }
  }

  lemma BornCounted(cfg: C.Config, s: C.State, r: Reading, q: CR.Credits)
    requires CR.AllCounted(cfg, C.LoadAll(cfg, r.stored), q)
    ensures CR.AllCounted(cfg, CorrespondentsBorn(cfg, s, r).entries, q)
  {
    hide C.LoadAll, C.Current, C.Without, C.AnyOutdated, C.AnyStale, CR.Counted;
    var all := C.LoadAll(cfg, r.stored);
    CD.CurrentCarriesOver(cfg, all, r.life.boot);
    C.WithoutKeeps(C.Current(cfg, all, r.life.boot), r.victims);
    MarkedCounted(cfg, C.Without(C.Current(cfg, all, r.life.boot), r.victims), q);
  }

  lemma MarkedCounted(cfg: C.Config, entries: map<C.Key, C.Entry>, q: CR.Credits)
    requires CR.AllCounted(cfg, entries, q)
    ensures CR.AllCounted(cfg, C.Marked(entries), q)
  {
    CR.MarkedCarries(entries, 0);
    CR.CarriedCounted(cfg, entries, C.Marked(entries), 0, q);
  }

  /** What is read from the file of a store counts what the store counted. */
  lemma RestartCounts(cfg: C.Config, s: C.State, q: CR.Credits, stored: seq<C.StoredEntry>)
    requires CR.AllCounted(cfg, s.entries, q) && CountsInFile(cfg, s) && CD.Lists(stored, s.disk)
    ensures CR.AllCounted(cfg, C.LoadAll(cfg, stored), q)
  {
    hide C.LoadAll, CD.KeysOf;
    LoadedKeys(cfg, stored);
    var all := C.LoadAll(cfg, stored);
    forall l | l in all ensures CR.Counted(cfg, l, all[l], q) {
      var i := CD.LoadedFrom(cfg, stored, l);
      var k := stored[i].KeyOf();
      assert SameInFile(cfg, s, k);
      assert CR.Counted(cfg, k, s.entries[k], q);
    }
  }

  /** Credits survive restarts: over any number of lives capacity holds, and an inbound-learned relationship counts
      exactly the qualifying messages since it was created, up to the number required. */
  lemma {:induction false} CountsSurviveRestarts(cfg: C.Config, s: C.State, q: CR.Credits, lives: seq<Reading>)
    requires cfg.Sane() && |s.entries| <= cfg.maxEntries && CR.AllCounted(cfg, s.entries, q) && CorrespondentLives(cfg, s, lives)
    ensures |CorrespondentsLeft(cfg, s, lives).entries| <= cfg.maxEntries
    ensures CR.AllCounted(cfg, CorrespondentsLeft(cfg, s, lives).entries, CreditsLeft(cfg, s, q, lives))
  {
    hide CR.AllCounted, CountsInFile, CorrespondentsBorn, CR.After, CR.CreditsAfter, CR.Run, CD.Lists, C.LoadAll;
    if lives != [] {
      var front, r := lives[..|lives| - 1], lives[|lives| - 1];
      CountsSurviveRestarts(cfg, s, q, front);
      var before, q' := CorrespondentsLeft(cfg, s, front), CreditsLeft(cfg, s, q, front);
      RestartCounts(cfg, before, q', r.stored);
      BornCounted(cfg, before, r, q');
      CR.CountsAreExact(cfg, CorrespondentsBorn(cfg, before, r), q', r.life.boot, r.life.es);
    }
  }

  /** The credits of an allowlist that remembers nothing but its counts. */
  function OwnCredits(entries: map<C.Key, C.Entry>): CR.Credits
  {
    map k | k in entries && entries[k].kind == C.Inbound :: entries[k].count
  }

  /** What is read from any file counts right by its own counts if these are within what qualifies. */
  lemma LoadedCounts(cfg: C.Config, stored: seq<C.StoredEntry>)
    requires forall i :: 0 <= i < |stored| && stored[i].kind == C.OfKind(C.Inbound) ==> 1 <= stored[i].entry.count <= cfg.minMessages
    ensures CR.AllCounted(cfg, C.LoadAll(cfg, stored), OwnCredits(C.LoadAll(cfg, stored)))
  {
    hide C.LoadAll;
    LoadedKeys(cfg, stored);
    var all := C.LoadAll(cfg, stored);
    forall l | l in all ensures CR.Counted(cfg, l, all[l], OwnCredits(all)) {
      var i := CD.LoadedFrom(cfg, stored, l);
    }
  }
}
