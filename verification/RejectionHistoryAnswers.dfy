/**
 What the rejection history records of a rejection and shows of the past, in numbers: who is
 named as the sender, which entries still count and in what order they are shown.
 */
module RejectionHistoryAnswers {
  import opened Addresses
  import opened BoundedHistory
  import opened RejectionHistory
  import opened RejectionHistoryRuns
  import opened StableSort
  import opened StateFile

  // ---------------------------------------------------------------- recording

  /** A rejection is recorded if the history is on, a sender is known and some recipient is an address, unless the file cannot be
      written: one entry for each distinct recipient, under the visible sender when that is an address, else the envelope's. */
  lemma RecordingAnswer(cfg: Config, s: State, e: Event)
    requires e.op.Reject? && Enumerates(e.op.order, Canonical(cfg.normalize, e.op.recipients))
    ensures var visible, envelope, recorded := cfg.normalize(e.op.visible), cfg.normalize(e.op.envelope), Recording(cfg, s, e);
      var locals := set i | 0 <= i < |e.op.recipients| && cfg.normalize(e.op.recipients[i]) != "" :: cfg.normalize(e.op.recipients[i]);
      && (cfg.expiry <= 0 || (visible == "" && envelope == "") || (!s.deferred && e.op.write != Written) ==> recorded == [])
      && (cfg.expiry > 0 && (visible != "" || envelope != "") && (s.deferred || e.op.write == Written) ==>
            && |recorded| == |locals|
            && (forall r :: r in locals <==> exists i :: 0 <= i < |recorded| && recorded[i].recipient == r)
            && (forall i :: 0 <= i < |recorded| ==> recorded[i].sender == (if visible != "" then visible else envelope))
            && (forall i :: 0 <= i < |recorded| ==> recorded[i].at == e.now && recorded[i].reason == e.op.reason))
  {
    var order, locals := e.op.order, Canonical(cfg.normalize, e.op.recipients);
    if Recordable(cfg, e.op.visible, e.op.envelope, e.op.recipients) && !SaveFails(s, e.op.write) {
      var recorded := Recording(cfg, s, e);
      forall r | r in locals ensures exists i :: 0 <= i < |recorded| && recorded[i].recipient == r {
        var i :| 0 <= i < |order| && order[i] == r;
        assert recorded[i].recipient == r;
      }
    }
    hide Canonical;
  }

  // ---------------------------------------------------------------- listing

  lemma {:induction false} UnexpiredCount(cfg: Config, past: seq<Entry>, now: int)
    ensures |Live(past, AT, Cutoff(cfg, now))| == |set i | 0 <= i < |past| && now - past[i].at <= cfg.expiry|
  {
    var unexpired := set i | 0 <= i < |past| && now - past[i].at <= cfg.expiry;
    if past == [] {
      assert unexpired == {};
    } else {
      var front, n := past[..|past| - 1], |past| - 1;
      UnexpiredCount(cfg, front, now);
      assert unexpired == (set i | 0 <= i < |front| && now - front[i].at <= cfg.expiry) + if now - past[n].at <= cfg.expiry then {n} else {};
    }
  }

  /** Of a chronological past, the remembered entries are its last ones: as many as have not expired, but at most `maxEntries`. */
  lemma RememberedIsLast(cfg: Config, past: seq<Entry>, now: int)
    requires Chronological(past, AT)
    ensures var n := |set i | 0 <= i < |past| && now - past[i].at <= cfg.expiry|;
      var m := if n < cfg.maxEntries then n else cfg.maxEntries;
      n <= |past| && Remembered(cfg, past, now) == past[|past| - m..]
  {
    var d := FindCut(past, AT, Cutoff(cfg, now));
    LiveFromCut(past, d, AT, Cutoff(cfg, now));
    UnexpiredCount(cfg, past, now);
  }

  lemma {:induction false} ForCounts(s: seq<Entry>, all: bool, recipient: string, e: Entry)
    ensures multiset(For(s, all, recipient))[e] == if all || e.recipient == recipient then multiset(s)[e] else 0
  {
    if s != [] {
      var front, last := s[..|s| - 1], s[|s| - 1];
      ForCounts(front, all, recipient, e);
      assert s == front + [last];
      var more := if all || last.recipient == recipient then [last] else [];
      assert multiset(For(front, all, recipient) + more) == multiset(For(front, all, recipient)) + multiset(more);
    }
  }

  lemma {:induction false} InsertCounts(sorted: seq<Entry>, x: Entry, key: Entry -> int)
    ensures multiset(Insert(sorted, x, key)) == multiset(sorted) + multiset{x}
  {
    if !(sorted == [] || key(sorted[|sorted| - 1]) <= key(x)) {
      InsertCounts(sorted[..|sorted| - 1], x, key);
      assert sorted == sorted[..|sorted| - 1] + [sorted[|sorted| - 1]];
    }
  }

  lemma {:induction false} SortCounts(s: seq<Entry>, key: Entry -> int)
    ensures multiset(Sort(s, key)) == multiset(s)
  {
    if s != [] {
      SortCounts(s[..|s| - 1], key);
      InsertCounts(Sort(s[..|s| - 1], key), s[|s| - 1], key);
      assert s == s[..|s| - 1] + [s[|s| - 1]];
    }
  }

  /** A listing at any time of any run shows, newest first, of the last entries of everything recorded, as many as have not
      expired but at most `maxEntries`, exactly those for the recipient, or all for an asterisk. */
  lemma ListingAnswer(cfg: Config, s: State, past: seq<Entry>, start: int, es: seq<Event>, now: int, recipient: string, write: Outcome)
    requires Follows(cfg, s.entries, past, start) && 1 <= start && Run(start, es) && Clock(start, es) <= now
    ensures var shown, told := List(cfg, After(cfg, s, es), now, recipient, write).1, Recorded(cfg, s, past, es);
      var n := |set i | 0 <= i < |told| && now - told[i].at <= cfg.expiry|;
      var m := if n < cfg.maxEntries then n else cfg.maxEntries;
      if cfg.expiry <= 0 || (recipient != "*" && cfg.normalize(recipient) == "") then shown == []
      else
        && n <= |told|
        && (forall i, j :: 0 <= i < j < |shown| ==> shown[i].at >= shown[j].at)
        && (forall e :: multiset(shown)[e] ==
              if recipient == "*" || e.recipient == cfg.normalize(recipient) then multiset(told[|told| - m..])[e] else 0)
  {
    hide After, Recorded, Follows, Run;
    if cfg.expiry > 0 && (recipient == "*" || cfg.normalize(recipient) != "") {
      var told, r := Recorded(cfg, s, past, es), cfg.normalize(recipient);
      EntriesFollowPast(cfg, s, past, start, es);
      assert Chronological(told, AT) by { FollowedIsChronological(cfg, After(cfg, s, es).entries, told, Clock(start, es)); }
      RememberedIsLast(cfg, told, now);
      ShownCounts(cfg, After(cfg, s, es), told, Clock(start, es), now, recipient, write);
    }
  }

  lemma FollowedIsChronological(cfg: Config, entries: seq<Entry>, past: seq<Entry>, t: int)
    requires Follows(cfg, entries, past, t)
    ensures Chronological(past, AT)
  {
  }

  lemma ShownCounts(cfg: Config, s: State, past: seq<Entry>, t: int, now: int, recipient: string, write: Outcome)
    requires Follows(cfg, s.entries, past, t) && t <= now && cfg.expiry > 0 && (recipient == "*" || cfg.normalize(recipient) != "")
    ensures var shown := List(cfg, s, now, recipient, write).1;
      && (forall i, j :: 0 <= i < j < |shown| ==> shown[i].at >= shown[j].at)
      && (forall e :: multiset(shown)[e] ==
            if recipient == "*" || e.recipient == cfg.normalize(recipient) then multiset(Remembered(cfg, past, now))[e] else 0)
  {
    TrackedAnswer(past, s.entries, cfg.maxEntries, AT, Cutoff(cfg, t), Cutoff(cfg, now));
    var chosen := For(Remembered(cfg, past, now), recipient == "*", cfg.normalize(recipient));
    assert List(cfg, s, now, recipient, write).1 == Sort(chosen, NEWEST_FIRST);
    hide For, Sort, Follows, Live, LastN;
    SortIsStable(chosen, NEWEST_FIRST);
    SortCounts(chosen, NEWEST_FIRST);
    forall e: Entry ensures multiset(chosen)[e] ==
                       if recipient == "*" || e.recipient == cfg.normalize(recipient) then multiset(Remembered(cfg, past, now))[e] else 0 {
      ForCounts(Remembered(cfg, past, now), recipient == "*", cfg.normalize(recipient), e);
    }
  }
}
