/**
 Writes that fail after the new content is in place. The operations that undo themselves
 when saving fails then leave the file ahead of memory: it keeps what was undone.
 */
module LateFailures {
  import opened Addresses
  import opened BoundedHistory
  import opened StableSort
  import opened StateFile
  import C = Correspondents
  import CD = CorrespondentDurability
  import I = IpReputation
  import N = NetworkAddress
  import R = RejectionHistory

  // ---------------------------------------------------------------- sending-IP reputation

  /** What blocking an address by hand would leave. */
  function Blocking(cfg: I.Config, s: I.State, now: int, addr: N.Addr, victim: N.Addr): map<N.Addr, I.Record>
  {
    var room := I.MakeRoom(cfg, s.entries, addr.Unmap(), victim);
    room[addr.Unmap() := I.ManualRecord(cfg, I.Find(room, addr.Unmap()), now)]
  }

  /** After an immediate manual block file and memory agree unless the write failed late with something new. */
  lemma ManualBlockAgreesIff(cfg: I.Config, s: I.State, now: int, addr: N.Addr, victim: N.Addr, write: Outcome)
    requires cfg.Enabled() && cfg.hasFile && cfg.Tracked(addr) && I.ManualDuration(cfg) > 0 && !s.deferred && I.AllWritten(s)
    ensures I.AllWritten(I.ManualAdd(cfg, s, now, addr, victim, write).0) <==>
      write != FailedAfterReplace || I.Stored(Blocking(cfg, s, now, addr, victim)) == I.Stored(s.entries)
  {
    hide I.MakeRoom, I.ManualRecord, I.Stored;
  }

  /** After an immediate manual deletion they agree unless the write failed late. */
  lemma ManualUnblockAgreesIff(cfg: I.Config, s: I.State, addr: N.Addr, write: Outcome)
    requires cfg.hasFile && addr.Valid() && addr.Unmap() in s.entries && !s.deferred && I.AllWritten(s)
    ensures I.AllWritten(I.ManualDelete(cfg, s, addr, write).0) <==> write != FailedAfterReplace
  {
    assert addr.Unmap() in I.Stored(s.entries) && addr.Unmap() !in I.Stored(s.entries - {addr.Unmap()});
    hide I.Stored;
  }

  /** An address blocked in the file only. */
  lemma UndoneBlockIsKept(addr: N.Addr)
    requires addr.Valid()
    ensures var cfg := I.Config(3600, 3, 2592000, 2592000, true, 300, 3, 10000, true, (x: N.Addr) => false);
      var s := I.ManualAdd(cfg, I.State(map[], false, false, map[]), 5, addr, addr, FailedAfterReplace).0;
      s.entries == map[] && addr.Unmap() in s.disk && s.disk[addr.Unmap()].level == I.Repeat
  {
  }

  // ---------------------------------------------------------------- correspondents

  function Permitting(cfg: C.Config, s: C.State, now: int, sender: string, recipient: string, victim: C.Key): map<C.Key, C.Entry>
  {
    var k, current := C.Key(cfg.normalize(recipient), cfg.normalize(sender)), C.Current(cfg, s.entries, now);
    C.MakeRoom(cfg, current, k, victim)[k := C.ManualEntry(current, k, now)]
  }

  lemma ManualPermitAgreesIff(cfg: C.Config, s: C.State, now: int, sender: string, recipient: string, victim: C.Key, write: Outcome)
    requires cfg.normalize(sender) != "" && cfg.normalize(recipient) != "" && !s.deferred && C.AllWritten(s)
    ensures C.AllWritten(C.AddManual(cfg, s, now, sender, recipient, victim, write).0) <==>
      write != FailedAfterReplace || C.Stored(Permitting(cfg, s, now, sender, recipient, victim)) == C.Stored(s.entries)
  {
    CD.StoredMarked(Permitting(cfg, s, now, sender, recipient, victim));
    hide C.MakeRoom, C.ManualEntry, C.Current, C.Stored, C.Marked;
  }

  /** What deleting relationships by hand removes, stale ones included. */
  function Revoking(cfg: C.Config, s: C.State, now: int, sender: string, recipient: string): map<C.Key, C.Entry>
  {
    var current := C.Current(cfg, s.entries, now);
    current - set k | k in current && C.Deleted(current[k], cfg.normalize(sender), recipient == "*", cfg.normalize(recipient))
  }

  lemma ManualRevokeAgreesIff(cfg: C.Config, s: C.State, now: int, sender: string, recipient: string, write: Outcome)
    requires cfg.normalize(sender) != "" && (recipient == "*" || cfg.normalize(recipient) != "") && !s.deferred && C.AllWritten(s)
    ensures C.AllWritten(C.DeleteManual(cfg, s, now, sender, recipient, write).0) <==>
      write != FailedAfterReplace || Revoking(cfg, s, now, sender, recipient) == s.entries
  {
    var current, left := C.Current(cfg, s.entries, now), Revoking(cfg, s, now, sender, recipient);
    CD.StoredMarked(left);
    if !C.AnyStale(cfg, s.entries, now) {
      CD.NothingStale(cfg, s.entries, now);
    }
    RevokingKeeps(cfg, s, now, sender, recipient);
    if left != s.entries {
      FewerStored(left, s.entries);
    }
    assert current - {} == current;
    hide C.Current, C.Stored, C.Marked, C.AnyStale, C.Deleted;
  }

  lemma RevokingKeeps(cfg: C.Config, s: C.State, now: int, sender: string, recipient: string)
    ensures var left := Revoking(cfg, s, now, sender, recipient);
      left.Keys <= s.entries.Keys && forall k :: k in left ==> left[k] == s.entries[k]
  {
    hide C.Deleted, C.Stale;
  }

  lemma FewerStored(few: map<C.Key, C.Entry>, many: map<C.Key, C.Entry>)
    requires few != many && few.Keys <= many.Keys && forall k :: k in few ==> few[k] == many[k]
    ensures C.Stored(few) != C.Stored(many)
  {
    assert C.Stored(few).Keys == few.Keys && C.Stored(many).Keys == many.Keys;
    assert few.Keys == many.Keys ==> few == many;
  }

  /** A relationship permitted in the file only. */
  lemma UndonePermissionIsKept(cfg: C.Config, address: string)
    requires cfg.maxEntries >= 1 && cfg.normalize(address) != ""
    ensures var k := C.Key(cfg.normalize(address), cfg.normalize(address));
      var s := C.AddManual(cfg, C.State(map[], false, false, map[]), 5, address, address, k, FailedAfterReplace).0;
      s.entries == map[] && k in s.disk && s.disk[k].kind == C.Manual
  {
    assert C.Current(cfg, map[], 5) == map[];
  }

  // ---------------------------------------------------------------- rejection history

  function Recording(cfg: R.Config, s: R.State, now: int, visible: string, envelope: string, order: seq<string>,
                     reason: string): seq<R.Entry>
  {
    LastN(cfg.maxEntries, R.Pruned(cfg, s.entries, now) + R.NewEntries(R.SenderOf(cfg, visible, envelope), order, now, reason))
  }

  lemma RecordedAgreesIff(cfg: R.Config, s: R.State, now: int, visible: string, envelope: string, recipients: seq<string>,
                          order: seq<string>, reason: string, write: Outcome)
    requires R.Recordable(cfg, visible, envelope, recipients) && !s.deferred && R.AllWritten(s)
    ensures R.AllWritten(R.Add(cfg, s, now, visible, envelope, recipients, order, reason, write).0) <==>
      write != FailedAfterReplace || Sort(Recording(cfg, s, now, visible, envelope, order, reason), R.AT) == Sort(s.entries, R.AT)
  {
    hide Sort, R.Pruned, R.NewEntries, R.SenderOf, R.Recordable;
  }

  /** An entry in the file only. */
  lemma UndoneRecordIsKept(cfg: R.Config, address: string, reason: string)
    requires cfg.maxEntries >= 1 && cfg.expiry > 0 && cfg.normalize(address) != ""
    ensures var s := R.Add(cfg, R.State([], false, false, []), 5, address, "", [address], [cfg.normalize(address)], reason, FailedAfterReplace).0;
      s.entries == [] && s.disk == [R.Entry(cfg.normalize(address), cfg.normalize(address), 5, reason)]
  {
    var y := cfg.normalize(address);
    assert Canonical(cfg.normalize, [address]) == {y} by {
      assert cfg.normalize([address][0]) in Canonical(cfg.normalize, [address]);
    }
    var e := R.Entry(y, y, 5, reason);
    assert R.NewEntries(y, [y], 5, reason) == [e];
    assert R.Pruned(cfg, [], 5) + [e] == [e];
    assert Sort([e], R.AT) == [e];
  }
}
