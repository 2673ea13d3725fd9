/**
 The common core of the lazily pruned, capacity-trimmed event lists of the
 Milter: the strike list of one IP address and the rejection history.

 A store never keeps its whole past. It keeps a suffix of it that it prunes when
 it happens to look and trims when it grows past a limit. `Tracks` says what such
 a suffix must satisfy, and `TrackedAnswer` that it then answers every later
 question exactly as the complete history would.
 */
module BoundedHistory {

  /** The elements whose time is at or after `cutoff`, in their original order. */
  function Live<T>(s: seq<T>, at: T -> int, cutoff: int): seq<T>
  {
    if s == [] then []
    else
      var last := s[|s| - 1];
      Live(s[..|s| - 1], at, cutoff) + if at(last) >= cutoff then [last] else []
  }

  function LastN<T>(n: nat, s: seq<T>): seq<T>
  {
    if |s| <= n then s else s[|s| - n..]
  }

  ghost predicate Chronological<T>(s: seq<T>, at: T -> int)
  {
    forall i, j :: 0 <= i < j < |s| ==> at(s[i]) <= at(s[j])
  }

  /** `kept` is a suffix of `full` of at most `n` elements, and whatever precedes it
      in `full` is either older than `cutoff` or beyond the last `n` elements. */
  ghost predicate Tracks<T>(full: seq<T>, kept: seq<T>, n: nat, at: T -> int, cutoff: int)
  {
    && |kept| <= n
    && |kept| <= |full|
    && kept == full[|full| - |kept|..]
    && (|kept| < |full| ==> |kept| == n || at(full[|full| - |kept| - 1]) < cutoff)
  }

  lemma ChronologicalFrom<T>(s: seq<T>, d: nat, at: T -> int)
    requires d <= |s| && Chronological(s, at)
    ensures Chronological(s[d..], at)
  {
    forall i, j | 0 <= i < j < |s[d..]| ensures at(s[d..][i]) <= at(s[d..][j]) {
      assert s[d..][i] == s[d + i] && s[d..][j] == s[d + j];
    }
  }

  lemma {:induction false} LiveConcat<T>(a: seq<T>, b: seq<T>, at: T -> int, cutoff: int)
    ensures Live(a + b, at, cutoff) == Live(a, at, cutoff) + Live(b, at, cutoff)
    decreases |b|
  {
    if b == [] {
      assert a + b == a;
    } else {
      var front := b[..|b| - 1];
      assert (a + b)[..|a + b| - 1] == a + front;
      LiveConcat(a, front, at, cutoff);
    }
  }

  lemma {:induction false} LiveNone<T>(s: seq<T>, at: T -> int, cutoff: int)
    requires forall i :: 0 <= i < |s| ==> at(s[i]) < cutoff
    ensures Live(s, at, cutoff) == []
  {
    if s != [] {
      LiveNone(s[..|s| - 1], at, cutoff);
    }
  }

  lemma {:induction false} LiveAll<T>(s: seq<T>, at: T -> int, cutoff: int)
    requires forall i :: 0 <= i < |s| ==> at(s[i]) >= cutoff
    ensures Live(s, at, cutoff) == s
  {
    if s != [] {
      LiveAll(s[..|s| - 1], at, cutoff);
    }
  }

  /** Pruning keeps members only: nothing is invented and everything live survives. */
  lemma {:induction false} LiveMembers<T>(s: seq<T>, at: T -> int, cutoff: int)
    ensures forall x :: x in Live(s, at, cutoff) <==> x in s && at(x) >= cutoff
    ensures |Live(s, at, cutoff)| <= |s|
  {
    if s != [] {
      LiveMembers(s[..|s| - 1], at, cutoff);
      assert s == s[..|s| - 1] + [s[|s| - 1]];
    }
  }

  /** Pruning that drops nothing changes nothing. */
  lemma {:induction false} LiveSame<T>(s: seq<T>, at: T -> int, cutoff: int)
    requires |Live(s, at, cutoff)| == |s|
    ensures Live(s, at, cutoff) == s
  {
    if s != [] {
      LiveMembers(s[..|s| - 1], at, cutoff);
      LiveSame(s[..|s| - 1], at, cutoff);
    }
  }

  /** Live elements of a list cut at `d`: dead before the cut and live after it. */
  lemma LiveFromCut<T>(s: seq<T>, d: nat, at: T -> int, cutoff: int)
    requires d <= |s|
    requires forall i :: 0 <= i < d ==> at(s[i]) < cutoff
    requires forall i :: d <= i < |s| ==> at(s[i]) >= cutoff
    ensures Live(s, at, cutoff) == s[d..]
  {
    var front, back := s[..d], s[d..];
    LiveNone(front, at, cutoff);
    LiveAll(back, at, cutoff);
    LiveConcat(front, back, at, cutoff);
    assert s == front + back;
  }

  /** In a chronological list the live elements are those from some cut on. */
  lemma {:induction false} FindCut<T>(s: seq<T>, at: T -> int, cutoff: int) returns (d: nat)
    requires Chronological(s, at)
    ensures d <= |s|
    ensures forall i :: 0 <= i < d ==> at(s[i]) < cutoff
    ensures forall i :: d <= i < |s| ==> at(s[i]) >= cutoff
  {
    if s == [] || at(s[|s| - 1]) < cutoff {
      d := |s|;
    } else {
      d := FindCut(s[..|s| - 1], at, cutoff);
    }
  }

  /** The strictly increasing positions of the live elements of any list: pruning keeps just these, in order. */
  lemma {:induction false} LivePositions<T>(s: seq<T>, at: T -> int, cutoff: int) returns (kept: seq<nat>)
    ensures |Live(s, at, cutoff)| == |kept|
    ensures forall j :: 0 <= j < |kept| ==> kept[j] < |s| && Live(s, at, cutoff)[j] == s[kept[j]]
    ensures forall j, k :: 0 <= j < k < |kept| ==> kept[j] < kept[k]
    ensures forall i :: i in kept <==> 0 <= i < |s| && at(s[i]) >= cutoff
  {
    if s == [] {
      kept := [];
    } else {
      var n := |s| - 1;
      var before := LivePositions(s[..n], at, cutoff);
      kept := before + if at(s[n]) >= cutoff then [n] else [];
      forall i ensures i in kept <==> 0 <= i < |s| && at(s[i]) >= cutoff {
        assert i in kept <==> i in before || (i == n && at(s[n]) >= cutoff);
        assert 0 <= i < n ==> s[..n][i] == s[i];
      }
    }
  }

  lemma LastNOfConcat<T>(n: nat, a: seq<T>, b: seq<T>)
    requires |b| == n || (a == [] && |b| <= n)
    ensures LastN(n, a + b) == b
  {
  }

  /** Forgetting early is harmless: the kept suffix answers any later question as
      the last `n` live elements of the complete history. */
  lemma TrackedAnswer<T>(full: seq<T>, kept: seq<T>, n: nat, at: T -> int, cutoff: int, later: int)
    requires Chronological(full, at) && Tracks(full, kept, n, at, cutoff) && cutoff <= later
    ensures Live(kept, at, later) == LastN(n, Live(full, at, later))
  {
    var d := |full| - |kept|;
    var front := full[..d];
    assert full == front + kept;
    LiveConcat(front, kept, at, later);
    if d > 0 && at(full[d - 1]) >= later {
      forall i | 0 <= i < |kept| ensures at(kept[i]) >= later {
        assert kept[i] == full[d + i];
      }
      LiveAll(kept, at, later);
      LastNOfConcat(n, Live(front, at, later), kept);
    } else {
      LiveNone(front, at, later);
      LiveMembers(kept, at, later);
      LastNOfConcat(n, [], Live(kept, at, later));
    }
  }

  lemma TracksPruned<T>(full: seq<T>, kept: seq<T>, n: nat, at: T -> int, cutoff: int, later: int)
    requires Chronological(full, at) && Tracks(full, kept, n, at, cutoff) && cutoff <= later
    ensures Tracks(full, Live(kept, at, later), n, at, later)
  {
    var c := FindCut(full, at, later);
    TracksFromCut(full, kept, n, at, cutoff, later, c);
  }

  lemma TracksFromCut<T>(full: seq<T>, kept: seq<T>, n: nat, at: T -> int, cutoff: int, later: int, c: nat)
    requires Tracks(full, kept, n, at, cutoff) && cutoff <= later && c <= |full|
    requires forall i :: 0 <= i < c ==> at(full[i]) < later
    requires forall i :: c <= i < |full| ==> at(full[i]) >= later
    ensures Tracks(full, Live(kept, at, later), n, at, later)
  {
    var d := |full| - |kept|;
    if c <= d {
      LiveAll(kept, at, later);
    } else {
      LiveFromCut(kept, c - d, at, later);
      assert kept[c - d..] == full[c..];
    }
  }

  lemma TracksAppended<T>(full: seq<T>, kept: seq<T>, more: seq<T>, n: nat, at: T -> int, cutoff: int)
    requires Tracks(full, kept, n, at, cutoff)
    ensures Tracks(full + more, LastN(n, kept + more), n, at, cutoff)
  {
    var trimmed := LastN(n, kept + more);
    assert trimmed == (full + more)[|full + more| - |trimmed|..];
  }
}
