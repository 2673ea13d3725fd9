/**
 Shutdown durability: the accept loop, its sessions, the periodic flusher and the
 cancellation of the server, interleaved in every possible way.

 Each of the three stores is reduced to what durability needs: how many changes were
 marked for saving, how many of them its file holds, and the dirty flag. A store's
 operations and its flush are atomic, because each holds the store's lock.
 */
module Serve {
  import opened StateFile

  const STORES: nat := 3

  datatype Store = Store(changes: nat, saved: nat, dirty: bool)

  /** Where the accept loop and its deferred shutdown stand. `drained` records whether any session
      could still be running when the loop was left; `ok` whether every final write succeeded. */
  datatype Main =
    | Accepting
    | Waiting
    | Stopping(cancelled: bool, drained: bool)
    | Joining(cancelled: bool, drained: bool)
    | Flushing(cancelled: bool, drained: bool, next: nat, ok: bool)
    | Returned(cancelled: bool, drained: bool, ok: bool)

  datatype Flusher = Selecting | Ticking(next: nat) | Exited

  datatype State = State(main: Main, flusher: Flusher, cancelled: bool, stopped: bool,
                         sessions: set<nat>, waitGroup: nat, stores: seq<Store>)

  datatype Step =
    | Accept(id: nat)
    | AcceptFails
    | SessionsDone
    | StopFlusher
    | JoinFlusher
    | FinalFlush(write: Outcome)
    | Return
    | Cancel
    | Tick
    | TickFlush(write: Outcome)
    | FlusherStops
    | Change(id: nat, store: nat)
    | SessionEnds(id: nat)

  const NEW_STORE := Store(0, 0, false)
  const INITIAL := State(Accepting, Selecting, false, false, {}, 0, [NEW_STORE, NEW_STORE, NEW_STORE])

  function Flushed(s: Store, o: Outcome): Store
  {
    if !s.dirty || o == Failed then s
    else s.(saved := s.changes, dirty := o != Written)
  }

  function Marked(s: Store): Store { s.(changes := s.changes + 1, dirty := true) }

  predicate Enabled(s: State, step: Step)
  {
    && |s.stores| == STORES
    && match step
       case Accept(id) => s.main.Accepting? && id !in s.sessions
       case AcceptFails => s.main.Accepting?
       case SessionsDone => s.main.Waiting? && s.waitGroup == 0
       case StopFlusher => s.main.Stopping?
       case JoinFlusher => s.main.Joining? && s.flusher.Exited?
       case FinalFlush(_) => s.main.Flushing? && s.main.next < STORES
       case Return => s.main.Flushing? && s.main.next == STORES
       case Cancel => true
       case Tick => s.flusher.Selecting?
       case TickFlush(_) => s.flusher.Ticking? && s.flusher.next < STORES
       case FlusherStops => s.flusher.Selecting? && (s.cancelled || s.stopped)
       case Change(id, store) => id in s.sessions && store < STORES
       case SessionEnds(id) => id in s.sessions && s.waitGroup > 0
  }

  function Next(s: State, step: Step): State
    requires Enabled(s, step)
  {
    match step
    case Accept(id) => s.(sessions := s.sessions + {id}, waitGroup := s.waitGroup + 1)
    case AcceptFails => s.(main := if s.cancelled then Waiting else Stopping(false, s.sessions == {}))
    case SessionsDone => s.(main := Stopping(true, true))
    case StopFlusher => s.(main := Joining(s.main.cancelled, s.main.drained), stopped := true)
    case JoinFlusher => s.(main := Main.Flushing(s.main.cancelled, s.main.drained, 0, true))
    case FinalFlush(write) =>
      var i := s.main.next;
      s.(stores := s.stores[i := Flushed(s.stores[i], write)],
         main := s.main.(next := i + 1, ok := s.main.ok && (!s.stores[i].dirty || write == Written)))
    case Return => s.(main := Returned(s.main.cancelled, s.main.drained, s.main.ok))
    case Cancel => s.(cancelled := true)
    case Tick => s.(flusher := Ticking(0))
    case TickFlush(write) =>
      var i := s.flusher.next;
      s.(stores := s.stores[i := Flushed(s.stores[i], write)],
         flusher := if i + 1 == STORES then Selecting else Ticking(i + 1))
    case FlusherStops => s.(flusher := Exited)
    case Change(_, store) => s.(stores := s.stores[store := Marked(s.stores[store])])
    case SessionEnds(id) => s.(sessions := s.sessions - {id}, waitGroup := s.waitGroup - 1)
  }

  /** `steps` is an interleaving that can happen from `s`. */
  predicate Possible(s: State, steps: seq<Step>)
    decreases |steps|
  {
    steps == [] || (Enabled(s, steps[0]) && Possible(Next(s, steps[0]), steps[1..]))
  }

  function Exec(s: State, steps: seq<Step>): State
    requires Possible(s, steps)
    decreases |steps|
  {
    if steps == [] then s else Exec(Next(s, steps[0]), steps[1..])
  }

  predicate Durable(s: State)
  {
    forall i :: 0 <= i < |s.stores| ==> s.stores[i].saved == s.stores[i].changes
  }

  /** A clean store has everything on disk. */
  ghost predicate StoresOk(stores: seq<Store>)
  {
    |stores| == STORES && forall i :: 0 <= i < STORES ==>
      stores[i].saved <= stores[i].changes && (!stores[i].dirty ==> stores[i].saved == stores[i].changes)
  }

  /** No session can run any more. */
  predicate Drained(m: Main)
  {
    (m.Stopping? || m.Joining? || m.Flushing? || m.Returned?) && m.drained
  }

  ghost predicate Inv(s: State)
  {
    && StoresOk(s.stores)
    && s.waitGroup == |s.sessions|
    && (s.flusher.Ticking? ==> s.flusher.next < STORES)
    && (Drained(s.main) ==> s.sessions == {})
    && ((s.main.Stopping? || s.main.Joining? || s.main.Flushing? || s.main.Returned?) && s.main.cancelled ==> s.main.drained)
    && (s.main.Flushing? || s.main.Returned? ==> s.flusher.Exited?)
    && (s.main.Flushing? ==> s.main.next <= STORES)
    && (s.main.Flushing? && s.main.drained && s.main.ok ==>
          forall i :: 0 <= i < s.main.next ==> s.stores[i].saved == s.stores[i].changes)
    && (s.main.Returned? && s.main.drained && s.main.ok ==> Durable(s))
  }

  lemma SessionKeepsInv(s: State, step: Step)
    requires Inv(s) && Enabled(s, step) && (step.Accept? || step.SessionEnds? || step.Change?)
    ensures Inv(Next(s, step))
  {
    match step {
      case Accept(id) => assert |s.sessions + {id}| == |s.sessions| + 1;
      case SessionEnds(id) => assert |s.sessions - {id}| == |s.sessions| - 1;
      case _ =>
    }
  }

  lemma FlushKeepsInv(s: State, step: Step)
    requires Inv(s) && Enabled(s, step) && (step.TickFlush? || step.FinalFlush?)
    ensures Inv(Next(s, step))
  {
  }

  lemma LoopKeepsInv(s: State, step: Step)
    requires Inv(s) && Enabled(s, step) && (step.AcceptFails? || step.SessionsDone? || step.StopFlusher? || step.JoinFlusher? || step.Return?)
    ensures Inv(Next(s, step))
  {
    if step.SessionsDone? {
      assert s.sessions == {};
    }
  }

  lemma SignalKeepsInv(s: State, step: Step)
    requires Inv(s) && Enabled(s, step) && (step.Cancel? || step.Tick? || step.FlusherStops?)
    ensures Inv(Next(s, step))
  {
  }

  lemma StepKeepsInv(s: State, step: Step)
    requires Inv(s) && Enabled(s, step)
    ensures Inv(Next(s, step))
  {
    hide Inv, Next, Enabled;
    if step.Accept? || step.SessionEnds? || step.Change? {
      SessionKeepsInv(s, step);
    } else if step.TickFlush? || step.FinalFlush? {
      FlushKeepsInv(s, step);
    } else if step.Cancel? || step.Tick? || step.FlusherStops? {
      SignalKeepsInv(s, step);
    } else {
      LoopKeepsInv(s, step);
    }
  }

  lemma {:induction false} ExecKeepsInv(s: State, steps: seq<Step>)
    requires Inv(s) && Possible(s, steps)
    ensures Inv(Exec(s, steps))
    decreases |steps|
  {
    if steps != [] {
      StepKeepsInv(s, steps[0]);
      ExecKeepsInv(Next(s, steps[0]), steps[1..]);
    }
  }

  /** When serving ends because the context was cancelled and the final flush succeeds, every change
      any session ever marked is on disk, whatever the interleaving. */
  lemma CancelledServerIsDurable(steps: seq<Step>)
    requires Possible(INITIAL, steps)
    ensures var s := Exec(INITIAL, steps);
      s.main.Returned? && s.main.cancelled && s.main.ok ==> Durable(s) && s.sessions == {} && s.flusher.Exited?
  {
    ExecKeepsInv(INITIAL, steps);
  }

  // ---------------------------------------------------------------- returning on an accept error

  /** How a session that outlives the accept loop loses its work: let the flusher finish, flush
      everything successfully, and only then mark a change. */
  function FinishTicking(f: Flusher): seq<Step>
    decreases if f.Ticking? && f.next < STORES then STORES - f.next else 0
  {
    match f
    case Ticking(next) =>
      if next + 1 < STORES then [TickFlush(Written)] + FinishTicking(Ticking(next + 1)) else [TickFlush(Written), FlusherStops]
    case Selecting => [FlusherStops]
    case Exited => []
  }

  lemma {:induction false} FlusherCanFinish(s: State)
    requires Inv(s) && s.stopped
    ensures Possible(s, FinishTicking(s.flusher))
    ensures var t := Exec(s, FinishTicking(s.flusher));
      t.flusher.Exited? && t.main == s.main && t.sessions == s.sessions && Inv(t)
    decreases if s.flusher.Ticking? && s.flusher.next < STORES then STORES - s.flusher.next else 0
  {
    var steps := FinishTicking(s.flusher);
    if s.flusher.Ticking? {
      var t := Next(s, TickFlush(Written));
      StepKeepsInv(s, TickFlush(Written));
      if s.flusher.next + 1 < STORES {
        FlusherCanFinish(t);
        assert steps[1..] == FinishTicking(t.flusher);
      } else {
        StepKeepsInv(t, FlusherStops);
        assert steps[1..] == [FlusherStops] && steps[1..][1..] == [];
        assert Exec(t, [FlusherStops]) == Next(t, FlusherStops);
      }
    } else if s.flusher.Selecting? {
      StepKeepsInv(s, FlusherStops);
      assert steps[1..] == [];
    }
  }

  lemma {:induction false} ExecConcat(s: State, a: seq<Step>, b: seq<Step>)
    requires Possible(s, a) && Possible(Exec(s, a), b)
    ensures Possible(s, a + b) && Exec(s, a + b) == Exec(Exec(s, a), b)
    decreases |a|
  {
    if a == [] {
      assert a + b == b;
    } else {
      assert (a + b)[0] == a[0] && (a + b)[1..] == a[1..] + b;
      ExecConcat(Next(s, a[0]), a[1..], b);
    }
  }

  lemma ExecCons(s: State, step: Step, rest: seq<Step>)
    requires Enabled(s, step) && Possible(Next(s, step), rest)
    ensures Possible(s, [step] + rest) && Exec(s, [step] + rest) == Exec(Next(s, step), rest)
  {
    assert ([step] + rest)[1..] == rest;
  }

  /** The final flush of all stores, none of which fails. */
  function FinalFlushes(n: nat): seq<Step>
  {
    if n == 0 then [] else [FinalFlush(Written)] + FinalFlushes(n - 1)
  }

  lemma {:induction false} FinalFlushesRun(s: State, n: nat)
    requires Inv(s) && s.main.Flushing? && s.main.ok && s.main.next + n == STORES
    ensures Possible(s, FinalFlushes(n))
    ensures var t := Exec(s, FinalFlushes(n)); Inv(t) && t.main == s.main.(next := STORES) && t.sessions == s.sessions
    decreases n
  {
    if n > 0 {
      StepKeepsInv(s, FinalFlush(Written));
      var t := Next(s, FinalFlush(Written));
      FinalFlushesRun(t, n - 1);
      hide Next, Enabled, Inv;
      ExecCons(s, FinalFlush(Written), FinalFlushes(n - 1));
    }
  }

  lemma LateChangeIsLost(s: State, id: nat)
    requires Inv(s) && s.main.Flushing? && s.main.ok && s.main.next == STORES && id in s.sessions
    ensures Possible(s, [Change(id, 0), Return])
    ensures var t := Exec(s, [Change(id, 0), Return]); t.main.Returned? && t.main.ok && !Durable(t)
  {
    var s1 := Next(s, Change(id, 0));
    var s2 := Next(s1, Return);
    assert s2.stores[0].saved < s2.stores[0].changes;
    ExecCons(s1, Return, []);
    ExecCons(s, Change(id, 0), [Return]);
  }

  function LastSteps(id: nat): seq<Step>
  {
    [JoinFlusher] + (FinalFlushes(STORES) + [Change(id, 0), Return])
  }

  lemma LastStepsLose(s: State, id: nat)
    requires Inv(s) && s.main.Joining? && s.flusher.Exited? && id in s.sessions
    ensures Possible(s, LastSteps(id))
    ensures var t := Exec(s, LastSteps(id)); t.main.Returned? && t.main.ok && !Durable(t)
  {
    hide FinalFlushes, Exec, Possible, Durable;
    StepKeepsInv(s, JoinFlusher);
    var joined := Next(s, JoinFlusher);
    FinalFlushesRun(joined, STORES);
    var flushed := Exec(joined, FinalFlushes(STORES));
    hide Inv, Next, Enabled;
    LateChangeIsLost(flushed, id);
    ExecConcat(joined, FinalFlushes(STORES), [Change(id, 0), Return]);
    ExecCons(s, JoinFlusher, FinalFlushes(STORES) + [Change(id, 0), Return]);
  }

  /** The accept loop also returns, without waiting, when accepting fails on its own. Then the promise
      holds for every continuation exactly when no session is left at that moment. */
  lemma AcceptErrorIsDurableIffDrained(s: State)
    requires Inv(s) && s.main.Accepting? && !s.cancelled
    ensures s.sessions == {} <==>
      forall steps :: Possible(Next(s, AcceptFails), steps) ==>
        var t := Exec(Next(s, AcceptFails), steps); t.main.Returned? && t.main.ok ==> Durable(t)
  {
    var failed := Next(s, AcceptFails);
    StepKeepsInv(s, AcceptFails);
    if s.sessions == {} {
      forall steps | Possible(failed, steps)
        ensures var t := Exec(failed, steps); t.main.Returned? && t.main.ok ==> Durable(t)
      {
        ExecKeepsInv(failed, steps);
        StaysDrained(failed, steps);
      }
    } else {
      var id :| id in s.sessions;
      var stopping := Next(failed, StopFlusher);
      StepKeepsInv(failed, StopFlusher);
      FlusherCanFinish(stopping);
      var finished := Exec(stopping, FinishTicking(stopping.flusher));
      LastStepsLose(finished, id);
      ExecConcat(stopping, FinishTicking(stopping.flusher), LastSteps(id));
      var rest := FinishTicking(stopping.flusher) + LastSteps(id);
      ExecCons(failed, StopFlusher, rest);
      assert !Durable(Exec(failed, [StopFlusher] + rest));
    }
  }

  lemma {:induction false} StaysDrained(s: State, steps: seq<Step>)
    requires Drained(s.main) && Possible(s, steps)
    ensures Drained(Exec(s, steps).main)
    decreases |steps|
  {
    if steps != [] {
      StaysDrained(Next(s, steps[0]), steps[1..]);
    }
  }
}
