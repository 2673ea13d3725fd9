/**
 The whole life of a server: its three stores are loaded from their files, deferral begins,
 and the transition system of module Serve runs over them, in every interleaving of
 sessions, periodic flushes and cancellation, until it returns. What it leaves are files
 that the next life can start from.
 */
module Shutdown {
  import opened Options
  import opened StableSort
  import opened StateFile
  import opened DeferredStores
  import C = Correspondents
  import CD = CorrespondentDurability
  import CR = CorrespondentRuns
  import I = IpReputation
  import IB = IpReputationDurability
  import IF = IpReputationFile
  import IR = IpReputationRuns
  import N = NetworkAddress
  import R = RejectionHistory
  import RR = RejectionHistoryRuns
  import Serve

  datatype Config = Config(addresses: I.Config, correspondents: C.Config, rejections: R.Config)
  {
    /** What configuration loading guarantees, with a file for the reputation database. */
    predicate Sane() { addresses.Sane() && addresses.hasFile && correspondents.interval >= 0 }
  }

  datatype System = System(server: Serve.State, addresses: I.State, correspondents: C.State, rejections: R.State, clock: int)

  /** A move of the server itself, or an operation of a session on one of the stores. */
  datatype Action =
    | Server(step: Serve.Step)
    | OnAddresses(session: nat, addressEvent: IR.Event)
    | OnCorrespondents(session: nat, correspondentEvent: CR.Event)
    | OnRejections(session: nat, rejectionEvent: RR.Event)

  const ADDRESSES: nat := 0
  const CORRESPONDENTS: nat := 1
  const REJECTIONS: nat := 2

  predicate Enabled(s: System, a: Action)
  {
    match a
    case Server(step) => !step.Change? && Serve.Enabled(s.server, step)
    case OnAddresses(id, e) => Serve.Enabled(s.server, Serve.Change(id, ADDRESSES)) && s.clock <= e.now && !e.op.FlushFile?
    case OnCorrespondents(id, e) => Serve.Enabled(s.server, Serve.Change(id, CORRESPONDENTS)) && s.clock <= e.now && !e.op.FlushFile?
    case OnRejections(id, e) => Serve.Enabled(s.server, Serve.Change(id, REJECTIONS)) && s.clock <= e.now && !e.op.FlushFile?
  }

  /** Which store a step flushes, and how its write ends. */
  function Flushes(server: Serve.State, step: Serve.Step): Option<(nat, Outcome)>
    requires Serve.Enabled(server, step)
  {
    match step
    case TickFlush(write) => Some((server.flusher.next, write))
    case FinalFlush(write) => Some((server.main.next, write))
    case _ => None
  }

  function Noted(server: Serve.State, id: nat, store: nat, dirty: bool): Serve.State
    requires Serve.Enabled(server, Serve.Change(id, store))
  {
    if dirty then Serve.Next(server, Serve.Change(id, store)) else server
  }

  function Next(cfg: Config, s: System, a: Action): System
    requires Enabled(s, a)
  {
    match a
    case Server(step) =>
      var s' := s.(server := Serve.Next(s.server, step));
      (match Flushes(s.server, step)
       case None => s'
       case Some((store, write)) =>
         if store == ADDRESSES then s'.(addresses := IR.Step(cfg.addresses, s.addresses, IR.Event(s.clock, IR.FlushFile(write))))
         else if store == CORRESPONDENTS then
           s'.(correspondents := CR.Step(cfg.correspondents, s.correspondents, CR.Event(s.clock, CR.FlushFile(write))))
         else s'.(rejections := RR.Step(cfg.rejections, s.rejections, RR.Event(s.clock, RR.FlushFile(write)))))
    case OnAddresses(id, e) =>
      var after := IR.Step(cfg.addresses, s.addresses, e);
      s.(addresses := after, clock := e.now, server := Noted(s.server, id, ADDRESSES, after.dirty))
    case OnCorrespondents(id, e) =>
      var after := CR.Step(cfg.correspondents, s.correspondents, e);
      s.(correspondents := after, clock := e.now, server := Noted(s.server, id, CORRESPONDENTS, after.dirty))
    case OnRejections(id, e) =>
      var after := RR.Step(cfg.rejections, s.rejections, e);
      s.(rejections := after, clock := e.now, server := Noted(s.server, id, REJECTIONS, after.dirty))
  }

  predicate Possible(cfg: Config, s: System, actions: seq<Action>)
    decreases |actions|
  {
    actions == [] || (Enabled(s, actions[0]) && Possible(cfg, Next(cfg, s, actions[0]), actions[1..]))
  }

  function Exec(cfg: Config, s: System, actions: seq<Action>): System
    requires Possible(cfg, s, actions)
    decreases |actions|
  {
    if actions == [] then s else Exec(cfg, Next(cfg, s, actions[0]), actions[1..])
  }

  // ---------------------------------------------------------------- starting

  /** What a server starts from: its files, the entries read from the correspondent file with the choices of
      loading them, and when each store was loaded before the server began to serve. */
  datatype Boot = Boot(addresses: map<N.Addr, I.Record>, addressesAt: int,
                       correspondents: map<C.Key, C.Entry>, version: nat, stored: seq<C.StoredEntry>, correspondentsAt: int,
                       victims: seq<C.Key>, write: Outcome,
                       rejections: seq<R.Entry>, rejectionsAt: int, now: int)

  function LoadedAddresses(cfg: Config, b: Boot): I.State
  {
    I.State(if cfg.addresses.Enabled() then I.Load(cfg.addresses, b.addresses, b.addressesAt) else map[], true, false, b.addresses)
  }

  function LoadedCorrespondents(cfg: Config, b: Boot): C.State
  {
    var empty := C.State(map[], false, false, b.correspondents);
    C.Load(cfg.correspondents, empty, b.version, b.stored, b.correspondentsAt, b.victims, b.write).0.(deferred := true)
  }

  function LoadedRejections(cfg: Config, b: Boot): R.State
  {
    var entries := if cfg.rejections.expiry > 0 then R.Load(cfg.rejections, b.rejections, b.rejectionsAt) else [];
    R.State(entries, true, false, b.rejections)
  }

  /** The stores as they are loaded, with deferral switched on. */
  function Start(cfg: Config, b: Boot): System
  {
    System(Serve.INITIAL, LoadedAddresses(cfg, b), LoadedCorrespondents(cfg, b), LoadedRejections(cfg, b), b.now)
  }

  /** The clock has not gone back since the files were written: their strikes are in order, and nothing in them
      is in the future. */
  ghost predicate BootOk(b: Boot)
  {
    && 0 <= b.addressesAt <= b.now && 0 <= b.correspondentsAt <= b.now
    && IF.FileInOrder(b.addresses, b.addressesAt)
    && (forall k :: k in b.correspondents ==> CD.Dated(b.correspondents[k], b.correspondentsAt))
    && (forall i :: 0 <= i < |b.stored| ==> CD.Dated(b.stored[i].entry, b.correspondentsAt))
  }

  // ---------------------------------------------------------------- the account of the stores

  /** The server's account of the stores is right. */
  ghost predicate Consistent(cfg: Config, b: Boot, s: System)
  {
    && Serve.Inv(s.server) && 0 <= s.clock
    && AddressesSeen(cfg.addresses, b.addresses, s.addresses, s.clock, s.server.stores[ADDRESSES])
    && CorrespondentsSeen(cfg.correspondents, LoadedCorrespondents(cfg, b), s.correspondents, s.clock, s.server.stores[CORRESPONDENTS])
    && RejectionsSeen(LoadedRejections(cfg, b), s.rejections, s.server.stores[REJECTIONS])
  }

  lemma SeenLater(cfg: Config, b: Boot, s: System, t: int, now: int)
    requires t <= now && 0 <= t && |s.server.stores| == Serve.STORES
    ensures AddressesSeen(cfg.addresses, b.addresses, s.addresses, t, s.server.stores[ADDRESSES]) ==>
      AddressesSeen(cfg.addresses, b.addresses, s.addresses, now, s.server.stores[ADDRESSES])
    ensures CorrespondentsSeen(cfg.correspondents, LoadedCorrespondents(cfg, b), s.correspondents, t, s.server.stores[CORRESPONDENTS]) ==>
      CorrespondentsSeen(cfg.correspondents, LoadedCorrespondents(cfg, b), s.correspondents, now, s.server.stores[CORRESPONDENTS])
  {
    hide IF.AllInOrder, IF.FileInOrder, IF.DiskShows, IF.OnlyUnsaved, CD.Ahead, CD.AllTimely, CorrespondentsShown, LoadedCorrespondents;
    var seen := s.server.stores[ADDRESSES];
    if AddressesSeen(cfg.addresses, b.addresses, s.addresses, t, seen) {
      StillInOrder(cfg.addresses, s.addresses, t, now);
      IF.NothingToSave(cfg.addresses, s.addresses, now);
      if seen.saved == seen.changes && cfg.addresses.Enabled() {
        IF.UnsavedKeepsShown(cfg.addresses, AddressFile(cfg.addresses, s.addresses, seen), s.addresses, t, s.addresses, now);
      }
    }
    if CD.AllTimely(s.correspondents.entries, t) {
      CD.StillTimely(s.correspondents.entries, t, now);
    }
  }

  lemma StartAddresses(cfg: Config, b: Boot)
    requires cfg.Sane() && BootOk(b)
    ensures AddressesSeen(cfg.addresses, b.addresses, LoadedAddresses(cfg, b), b.addressesAt, Serve.NEW_STORE)
  {
    hide IF.FileInOrder, IF.DiskShows, I.Load;
    IF.LoadedIsShown(cfg.addresses, b.addresses, b.addressesAt);
  }

  lemma StartCorrespondents(cfg: Config, b: Boot)
    requires BootOk(b)
    ensures CorrespondentsSeen(cfg.correspondents, LoadedCorrespondents(cfg, b), LoadedCorrespondents(cfg, b), b.correspondentsAt, Serve.NEW_STORE)
  {
    CD.LoadedIsSteady(cfg.correspondents, b.correspondents, b.version, b.stored, b.correspondentsAt, b.victims, b.write);
    hide LoadedCorrespondents, C.Load, CD.Steady;
    assert LoadedCorrespondents(cfg, b) == C.Load(cfg.correspondents, C.State(map[], false, false, b.correspondents), b.version, b.stored,
      b.correspondentsAt, b.victims, b.write).0.(deferred := true) by { CorrespondentsUnfold(cfg, b); }
  }

  lemma CorrespondentsUnfold(cfg: Config, b: Boot)
    ensures LoadedCorrespondents(cfg, b) == C.Load(cfg.correspondents, C.State(map[], false, false, b.correspondents), b.version, b.stored,
      b.correspondentsAt, b.victims, b.write).0.(deferred := true)
  {
    hide C.Load;
  }

  lemma StartIsConsistent(cfg: Config, b: Boot)
    requires cfg.Sane() && BootOk(b)
    ensures Consistent(cfg, b, Start(cfg, b))
  {
    hide AddressesSeen, CorrespondentsSeen, LoadedAddresses, LoadedCorrespondents, BootOk;
    var s := Start(cfg, b);
    assert s.server.stores[ADDRESSES] == Serve.NEW_STORE;
    StartAddresses(cfg, b);
    StartCorrespondents(cfg, b);
    assert 0 <= b.addressesAt <= b.now && 0 <= b.correspondentsAt <= b.now by { BootTimes(b); }
    SeenLater(cfg, b, s, b.addressesAt, b.now);
    SeenLater(cfg, b, s, b.correspondentsAt, b.now);
  }

  lemma BootTimes(b: Boot)
    requires BootOk(b)
    ensures 0 <= b.addressesAt <= b.now && 0 <= b.correspondentsAt <= b.now
  {
  }

  lemma ServerMoves(cfg: Config, b: Boot, s: System, step: Serve.Step)
    requires cfg.Sane() && Consistent(cfg, b, s) && Enabled(s, Server(step))
    ensures Consistent(cfg, b, Next(cfg, s, Server(step)))
  {
    hide AddressesSeen, CorrespondentsSeen, RejectionsSeen, IR.Step, CR.Step, RR.Step, Serve.Inv, LoadedCorrespondents, LoadedRejections;
    Serve.StepKeepsInv(s.server, step);
    var flushed := Flushes(s.server, step);
    if flushed.Some? {
      var write := flushed.value.1;
      AddressesAreServed(cfg.addresses, b.addresses, s.addresses, s.clock, IR.Event(s.clock, IR.FlushFile(write)), s.server.stores[ADDRESSES]);
      CorrespondentsAreServed(cfg.correspondents, LoadedCorrespondents(cfg, b), s.correspondents, s.clock,
                              CR.Event(s.clock, CR.FlushFile(write)), s.server.stores[CORRESPONDENTS]);
      RejectionsAreServed(cfg.rejections, LoadedRejections(cfg, b), s.rejections, RR.Event(s.clock, RR.FlushFile(write)),
                          s.server.stores[REJECTIONS]);
    }
  }

  lemma NotedIs(server: Serve.State, id: nat, store: nat, dirty: bool)
    requires Serve.Inv(server) && Serve.Enabled(server, Serve.Change(id, store))
    ensures var noted := Noted(server, id, store, dirty);
      Serve.Inv(noted) && noted.stores == server.stores[store := Observed(server.stores[store], dirty)]
  {
    hide Serve.Inv;
    Serve.StepKeepsInv(server, Serve.Change(id, store));
  }

  lemma NextIsConsistent(cfg: Config, b: Boot, s: System, a: Action)
    requires cfg.Sane() && Consistent(cfg, b, s) && Enabled(s, a)
    ensures Consistent(cfg, b, Next(cfg, s, a))
  {
    hide AddressesSeen, CorrespondentsSeen, RejectionsSeen, IR.Step, CR.Step, RR.Step, Serve.Inv, Noted, LoadedCorrespondents, LoadedRejections;
    assert |s.server.stores| == Serve.STORES;
    match a {
      case Server(step) => ServerMoves(cfg, b, s, step);
      case OnAddresses(id, e) =>
        NotedIs(s.server, id, ADDRESSES, IR.Step(cfg.addresses, s.addresses, e).dirty);
        SeenLater(cfg, b, s, s.clock, e.now);
        AddressesAreServed(cfg.addresses, b.addresses, s.addresses, s.clock, e, s.server.stores[ADDRESSES]);
      case OnCorrespondents(id, e) =>
        NotedIs(s.server, id, CORRESPONDENTS, CR.Step(cfg.correspondents, s.correspondents, e).dirty);
        SeenLater(cfg, b, s, s.clock, e.now);
        CorrespondentsAreServed(cfg.correspondents, LoadedCorrespondents(cfg, b), s.correspondents, s.clock, e, s.server.stores[CORRESPONDENTS]);
      case OnRejections(id, e) =>
        NotedIs(s.server, id, REJECTIONS, RR.Step(cfg.rejections, s.rejections, e).dirty);
        SeenLater(cfg, b, s, s.clock, e.now);
        RejectionsAreServed(cfg.rejections, LoadedRejections(cfg, b), s.rejections, e, s.server.stores[REJECTIONS]);
    }
  }

  lemma {:induction false} ExecIsConsistent(cfg: Config, b: Boot, s: System, actions: seq<Action>)
    requires cfg.Sane() && Consistent(cfg, b, s) && Possible(cfg, s, actions)
    ensures Consistent(cfg, b, Exec(cfg, s, actions))
    decreases |actions|
  {
    hide Next, Consistent, Enabled;
    if actions != [] {
      NextIsConsistent(cfg, b, s, actions[0]);
      ExecIsConsistent(cfg, b, Next(cfg, s, actions[0]), actions[1..]);
    }
  }

  // ---------------------------------------------------------------- the lag of repeat blocks

  ghost predicate BlocksConsistent(cfg: Config, extra: nat, s: System)
  {
    Serve.Inv(s.server) && BlocksSeen(cfg.addresses, extra, s.addresses, s.clock, s.server.stores[ADDRESSES])
  }

  lemma BlocksLater(cfg: Config, extra: nat, s: System, now: int)
    requires BlocksConsistent(cfg, extra, s) && s.clock <= now
    ensures BlocksSeen(cfg.addresses, extra, s.addresses, now, s.server.stores[ADDRESSES])
  {
    hide IB.AllBehind, Serve.Inv;
    forall a | a in s.addresses.entries ensures IB.Timed(cfg.addresses, extra, a, s.addresses.entries[a], now) {
      assert IB.Timed(cfg.addresses, extra, a, s.addresses.entries[a], s.clock);
    }
  }

  lemma NextBlocks(cfg: Config, extra: nat, s: System, a: Action)
    requires cfg.Sane() && IB.Bounded(cfg.addresses, extra) && BlocksConsistent(cfg, extra, s) && Enabled(s, a)
    ensures BlocksConsistent(cfg, extra, Next(cfg, s, a))
  {
    hide BlocksSeen, IR.Step, CR.Step, RR.Step, Serve.Inv, Noted;
    assert |s.server.stores| == Serve.STORES by { Stores(s.server); }
    match a {
      case Server(step) =>
        Serve.StepKeepsInv(s.server, step);
        var flushed := Flushes(s.server, step);
        if flushed.Some? {
          BlocksAreServed(cfg.addresses, extra, s.addresses, s.clock, IR.Event(s.clock, IR.FlushFile(flushed.value.1)), s.server.stores[ADDRESSES]);
        }
      case OnAddresses(id, e) =>
        NotedIs(s.server, id, ADDRESSES, IR.Step(cfg.addresses, s.addresses, e).dirty);
        BlocksAreServed(cfg.addresses, extra, s.addresses, s.clock, e, s.server.stores[ADDRESSES]);
      case OnCorrespondents(id, e) =>
        NotedIs(s.server, id, CORRESPONDENTS, CR.Step(cfg.correspondents, s.correspondents, e).dirty);
        BlocksLater(cfg, extra, s, e.now);
      case OnRejections(id, e) =>
        NotedIs(s.server, id, REJECTIONS, RR.Step(cfg.rejections, s.rejections, e).dirty);
        BlocksLater(cfg, extra, s, e.now);
    }
  }

  lemma {:induction false} ExecBlocks(cfg: Config, extra: nat, s: System, actions: seq<Action>)
    requires cfg.Sane() && IB.Bounded(cfg.addresses, extra) && BlocksConsistent(cfg, extra, s) && Possible(cfg, s, actions)
    ensures BlocksConsistent(cfg, extra, Exec(cfg, s, actions))
    decreases |actions|
  {
    hide Next, BlocksConsistent, Enabled;
    if actions != [] {
      NextBlocks(cfg, extra, s, actions[0]);
      ExecBlocks(cfg, extra, Next(cfg, s, actions[0]), actions[1..]);
    }
  }

  lemma StartBlocks(cfg: Config, extra: nat, b: Boot)
    requires cfg.Sane() && cfg.addresses.Enabled() && BootOk(b) && IB.Recent(cfg.addresses, extra, b.addresses, b.addressesAt)
    ensures BlocksConsistent(cfg, extra, Start(cfg, b))
  {
    IB.LoadedLags(cfg.addresses, extra, b.addresses, b.addressesAt);
    hide I.Load, IB.AllBehind, LoadedCorrespondents, LoadedRejections, IB.Recent;
    var s := Start(cfg, b);
    assert s.server.stores[ADDRESSES] == Serve.NEW_STORE;
    assert BlocksConsistent(cfg, extra, s.(clock := b.addressesAt));
    BlocksLater(cfg, extra, s.(clock := b.addressesAt), b.now);
  }

  // ---------------------------------------------------------------- what a shutdown leaves

  /** Every change that any session made is in the files: the rejection history entry by entry; every correspondent
      relationship, with an activity less than one update interval old; and every address, its strikes, level,
      short block and all, a repeat block as of some lookup. A store that nobody changed is what was loaded, and so
      is its file. */
  ghost predicate FilesShowStores(cfg: Config, b: Boot, s: System)
  {
    && |s.server.stores| == Serve.STORES
    && (if s.server.stores[REJECTIONS].changes == 0
        then s.rejections.entries == LoadedRejections(cfg, b).entries && s.rejections.disk == b.rejections
        else s.rejections.disk == Sort(s.rejections.entries, R.AT))
    && (if s.server.stores[CORRESPONDENTS].changes == 0
        then AllShown(C.Stored(LoadedCorrespondents(cfg, b).entries), s.correspondents.entries)
             && s.correspondents.disk == LoadedCorrespondents(cfg, b).disk
        else AllShown(s.correspondents.disk, s.correspondents.entries))
    && (forall k :: k in s.correspondents.entries ==> CD.Ahead(cfg.correspondents, s.correspondents.entries[k]))
    && (s.server.stores[ADDRESSES].changes == 0 ==> s.addresses.disk == b.addresses)
    && (cfg.addresses.Enabled() ==>
          IF.DiskShows(cfg.addresses, AddressFile(cfg.addresses, s.addresses, s.server.stores[ADDRESSES]), s.addresses.entries, s.clock))
  }

  /** Loaded from any files the clock agrees with, and returning because its context was cancelled with the final
      writes succeeding, the server leaves files that show everything its stores hold. */
  lemma NothingIsLost(cfg: Config, b: Boot, actions: seq<Action>)
    requires cfg.Sane() && BootOk(b) && Possible(cfg, Start(cfg, b), actions)
    ensures var end := Exec(cfg, Start(cfg, b), actions);
      end.server.main.Returned? && end.server.main.cancelled && end.server.main.ok ==> FilesShowStores(cfg, b, end)
  {
    hide Exec, Possible, Sort, Start, BootOk;
    StartIsConsistent(cfg, b);
    ExecIsConsistent(cfg, b, Start(cfg, b), actions);
    var end := Exec(cfg, Start(cfg, b), actions);
    if end.server.main.Returned? && end.server.main.cancelled && end.server.main.ok {
      assert Serve.Durable(end.server);
      DurableIsShown(cfg, b, end);
    }
  }

  lemma DurableIsShown(cfg: Config, b: Boot, s: System)
    requires Consistent(cfg, b, s) && Serve.Durable(s.server)
    ensures FilesShowStores(cfg, b, s)
  {
    hide Sort, Serve.Inv, CD.AllTimely, IF.AllInOrder, IF.FileInOrder, IF.DiskShows, LoadedCorrespondents, AllShown, CD.Ahead;
    assert |s.server.stores| == Serve.STORES by { Stores(s.server); }
  }

  lemma Stores(s: Serve.State)
    requires Serve.Inv(s)
    ensures |s.stores| == Serve.STORES
  {
  }

  /** Under the exact condition of `IpReputationDurability.LagIsBoundedIff` the expiry of every repeat block left in
      the file is less than one refresh interval, and `extra`, behind the one in memory. */
  lemma BlocksAreNotLost(cfg: Config, extra: nat, b: Boot, actions: seq<Action>)
    requires cfg.Sane() && BootOk(b) && Possible(cfg, Start(cfg, b), actions)
    requires cfg.addresses.Enabled() && IB.Bounded(cfg.addresses, extra) && IB.Recent(cfg.addresses, extra, b.addresses, b.addressesAt)
    ensures var end := Exec(cfg, Start(cfg, b), actions);
      end.server.main.Returned? && end.server.main.cancelled && end.server.main.ok && |end.server.stores| == Serve.STORES ==>
        IB.BlocksFollow(cfg.addresses, extra, AddressFile(cfg.addresses, end.addresses, end.server.stores[ADDRESSES]), end.addresses.entries)
  {
    hide Exec, Possible, Start, BootOk, IB.Recent, IB.AllTimed, IB.AllBehind, IB.BlocksFollow;
    StartBlocks(cfg, extra, b);
    ExecBlocks(cfg, extra, Start(cfg, b), actions);
    var end := Exec(cfg, Start(cfg, b), actions);
    if end.server.main.Returned? && end.server.main.cancelled && end.server.main.ok {
      assert Serve.Durable(end.server);
      IB.LaggingFollows(cfg.addresses, extra, AddressFile(cfg.addresses, end.addresses, end.server.stores[ADDRESSES]), end.addresses.entries, end.clock);
    }
  }

  /** A server can be started again from the files that any moment of its life leaves, shut down or not. */
  lemma FilesCanBeLoaded(cfg: Config, b: Boot, actions: seq<Action>, next: Boot)
    requires cfg.Sane() && BootOk(b) && Possible(cfg, Start(cfg, b), actions)
    requires var end := Exec(cfg, Start(cfg, b), actions);
      && next.addresses == end.addresses.disk && next.correspondents == end.correspondents.disk && CD.Lists(next.stored, end.correspondents.disk)
      && end.clock <= next.addressesAt <= next.now && end.clock <= next.correspondentsAt <= next.now
    ensures BootOk(next)
  {
    hide Exec, Possible, Start, BootOk, AddressesShown, CorrespondentsShown, CD.KeysOf;
    StartIsConsistent(cfg, b);
    ExecIsConsistent(cfg, b, Start(cfg, b), actions);
    var end := Exec(cfg, Start(cfg, b), actions);
    FilesOk(cfg, b, end, next);
  }

  lemma FilesOk(cfg: Config, b: Boot, s: System, next: Boot)
    requires Consistent(cfg, b, s)
    requires next.addresses == s.addresses.disk && next.correspondents == s.correspondents.disk && CD.Lists(next.stored, s.correspondents.disk)
    requires s.clock <= next.addressesAt <= next.now && s.clock <= next.correspondentsAt <= next.now
    ensures BootOk(next)
  {
    hide AddressesShown, CorrespondentsShown, CD.KeysOf, Serve.Inv, LoadedCorrespondents, CD.Steady, IF.AllInOrder;
    forall i | 0 <= i < |next.stored| ensures CD.Dated(next.stored[i].entry, next.correspondentsAt) {
      assert next.stored[i] == CD.AsWritten(s.correspondents.disk[next.stored[i].KeyOf()]);
    }
  }
}
