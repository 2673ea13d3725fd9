/** The rejection history as the Milter runs it: a list updated in place and a file. */
module RejectionHistoryStore {
  import opened Addresses
  import opened BoundedHistory
  import opened StableSort
  import opened StateFile
  import opened RejectionHistory
  import Spec = RejectionHistory

  class Store {
    const cfg: Config
    const file: File<seq<Entry>>
    var entries: seq<Entry>
    var deferWrites: bool
    var dirty: bool

    ghost function View(): State
      reads this, file
    {
      State(entries, deferWrites, dirty, file.content)
    }

    constructor (cfg: Config, file: File<seq<Entry>>, now: int)
      ensures this.cfg == cfg && this.file == file
      ensures View() == State(if cfg.expiry <= 0 then [] else Spec.Load(cfg, file.content, now), false, false, file.content)
    {
      this.cfg := cfg;
      this.file := file;
      entries, deferWrites, dirty := [], false, false;
      new;
      if cfg.expiry > 0 {
        Load(now);
      }
    }

    method Load(now: int)
      requires entries == []
      modifies this
      ensures View() == old(View()).(entries := Spec.Load(cfg, file.content, now))
    {
      hide Reread, Live;
      ReadEntries(file.content);
      var _ := PruneLocked(now);
      entries := Sort(entries, AT);
      if |entries| > cfg.maxEntries {
        entries := entries[|entries| - cfg.maxEntries..];
      }
    }

    /** Fills the list from what a file holds. */
    method ReadEntries(stored: seq<Entry>)
      requires entries == []
      modifies `entries
      ensures entries == Reread(cfg, stored)
    {
      for i := 0 to |stored|
        invariant entries == Reread(cfg, stored[..i])
        modifies `entries
      {
        assert stored[..i + 1][..i] == stored[..i];
        var entry := stored[i].(sender := cfg.normalize(stored[i].sender), recipient := cfg.normalize(stored[i].recipient));
        if entry.sender != "" && entry.recipient != "" && entry.at != 0 {
          entries := entries + [entry];
        }
      }
      assert stored[..|stored|] == stored;
    }

    /** Compacts the list to the entries that have not expired. */
    method PruneLocked(now: int) returns (changed: bool)
      modifies `entries
      ensures entries == Pruned(cfg, old(entries), now)
      ensures changed <==> |entries| != |old(entries)|
    {
      var cutoff := now - cfg.expiry;
      var kept := [];
      for i := 0 to |entries|
        invariant kept == Pruned(cfg, entries[..i], now)
      {
        assert entries[..i + 1][..i] == entries[..i];
        if !(entries[i].at < cutoff) {
          kept := kept + [entries[i]];
        }
      }
      assert entries[..|entries|] == entries;
      changed := |kept| != |entries|;
      entries := kept;
    }

    method WriteLocked() returns (ok: bool, ghost outcome: Outcome)
      modifies file
      ensures View() == WriteNow(old(View()), outcome)
      ensures ok <==> outcome == Written
    {
      var sorted := Sort(entries, AT);
      var o := file.Write(sorted);
      return o == Written, o;
    }

    method SaveLocked() returns (ok: bool, ghost outcome: Outcome)
      modifies this, file
      ensures View() == Save(old(View()), outcome)
      ensures ok <==> !SaveFails(old(View()), outcome)
    {
      if deferWrites {
        dirty := true;
        return true, Written;
      }
      ok, outcome := WriteLocked();
    }

    method FlushState() returns (ok: bool, ghost outcome: Outcome)
      modifies this, file
      ensures View() == Flush(old(View()), outcome)
    {
      if !dirty {
        return true, Written;
      }
      ok, outcome := WriteLocked();
      if ok {
        dirty := false;
      }
    }

    /** Appends one entry per recipient, in whatever order the set yields them. */
    method AppendEntries(sender: string, unique: set<string>, now: int, reason: string) returns (ghost order: seq<string>)
      modifies `entries
      ensures Enumerates(order, unique)
      ensures entries == old(entries) + NewEntries(sender, order, now, reason)
    {
      order := [];
      var todo := unique;
      while todo != {}
        invariant todo <= unique && |order| + |todo| == |unique|
        invariant forall x :: x in order <==> x in unique && x !in todo
        invariant entries == old(entries) + NewEntries(sender, order, now, reason)
        modifies `entries
      {
        var recipient :| recipient in todo;
        todo := todo - {recipient};
        entries := entries + [Entry(sender, recipient, now, reason)];
        order := order + [recipient];
      }
    }

    method Add(visible: string, envelope: string, recipients: seq<string>, reason: string, now: int)
      returns (ok: bool, ghost order: seq<string>, ghost outcome: Outcome)
      modifies this, file
      ensures (View(), ok) == Spec.Add(cfg, old(View()), now, visible, envelope, recipients, order, reason, outcome)
      ensures Recordable(cfg, visible, envelope, recipients) ==> Enumerates(order, Canonical(cfg.normalize, recipients))
    {
      hide Canonical, Live, NewEntries, Enumerates;
      order, outcome := [], Written;
      if cfg.expiry <= 0 {
        return true, order, outcome;
      }
      var sender := cfg.normalize(visible);
      if sender == "" {
        sender := cfg.normalize(envelope);
      }
      if sender == "" {
        return true, order, outcome;
      }
      var unique := Collect(cfg.normalize, recipients);
      if unique == {} {
        return true, order, outcome;
      }
      var before := entries;
      var _ := PruneLocked(now);
      order := AppendEntries(sender, unique, now, reason);
      if |entries| > cfg.maxEntries {
        entries := entries[|entries| - cfg.maxEntries..];
      }
      ok, outcome := SaveLocked();
      if !ok {
        entries := before;
      }
    }

    method List(recipient: string, now: int) returns (result: seq<Entry>, ghost outcome: Outcome)
      modifies this, file
      ensures (View(), result) == Spec.List(cfg, old(View()), now, recipient, outcome)
    {
      outcome := Written;
      if cfg.expiry <= 0 {
        return [], outcome;
      }
      var all := recipient == "*";
      var wanted := cfg.normalize(recipient);
      if !all && wanted == "" {
        return [], outcome;
      }
      var changed := PruneLocked(now);
      if changed {
        var _, o := SaveLocked();
        outcome := o;
      }
      result := [];
      for i := 0 to |entries|
        invariant result == For(entries[..i], all, wanted)
      {
        assert entries[..i + 1][..i] == entries[..i];
        if all || entries[i].recipient == wanted {
          result := result + [entries[i]];
        }
      }
      assert entries[..|entries|] == entries;
      result := Sort(result, NEWEST_FIRST);
    }
  }
}
