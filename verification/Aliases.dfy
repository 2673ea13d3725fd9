/**
 Ownership of a sender address by alias: a chain of single-target aliases must lead from
 the sender's local part to the authenticated identity.
 */
module Aliases {
  import opened Options

  datatype Address = Address(local: string, domain: string)

  /** The library functions the check is built on. `normalize` yields "" for what is no address. */
  datatype Env = Env(normalize: string -> string, parse: string -> Option<Address>, trimLower: string -> string,
                     validName: string -> bool)

  datatype Verdict = Owned | InvalidAddress | OtherDomain | NotALocalName | Unreadable | Cycle | NoMapping | TooDeep

  const MAX_HOPS: nat := 16

  /** Where `n` hops lead from `start`; None when the chain ends before. */
  function Hops(aliases: map<string, string>, start: string, n: nat): Option<string>
  {
    if n == 0 then Some(start)
    else match Hops(aliases, start, n - 1)
         case Some(x) => if x in aliases then Some(aliases[x]) else None
         case None => None
  }

  ghost predicate Reaches(aliases: map<string, string>, start: string, goal: string, n: nat)
  {
    Hops(aliases, start, n) == Some(goal)
  }

  lemma {:induction false} EndedStaysEnded(aliases: map<string, string>, start: string, n: nat, m: nat)
    requires Hops(aliases, start, n).None? && n <= m
    ensures Hops(aliases, start, m).None?
  {
    if n < m {
      EndedStaysEnded(aliases, start, n, m - 1);
    }
  }

  /** Once two positions of the chain agree, it repeats from there on for ever. */
  lemma {:induction false} ChainRepeats(aliases: map<string, string>, start: string, i: nat, j: nat, n: nat) returns (m: nat)
    requires i < j <= n && Hops(aliases, start, i) == Hops(aliases, start, j)
    ensures m < j && Hops(aliases, start, m) == Hops(aliases, start, n)
  {
    if n == j {
      m := i;
    } else {
      m := ChainRepeats(aliases, start, i, j, n - 1);
      if m + 1 < j {
        m := m + 1;
      } else {
        m := i;
      }
    }
  }

  /** Follows the aliases from `start`, which is not yet the goal. */
  method Walk(aliases: map<string, string>, start: string, wanted: string) returns (v: Verdict)
    requires start != wanted
    ensures v == Owned <==> exists n: nat :: n <= 16 && Reaches(aliases, start, wanted, n)
    ensures v == Cycle || v == NoMapping ==> forall n: nat :: !Reaches(aliases, start, wanted, n)
    ensures v == TooDeep ==> Hops(aliases, start, 16).Some?
    ensures v == Owned || v == Cycle || v == NoMapping || v == TooDeep
  {
    var current := start;
    var seen: set<string> := {};
    for depth := 0 to MAX_HOPS
      invariant Hops(aliases, start, depth) == Some(current)
      invariant forall x :: x in seen ==> exists i: nat :: i < depth && Reaches(aliases, start, x, i)
      invariant forall i: nat :: i <= depth ==> !Reaches(aliases, start, wanted, i)
    {
      if current in seen {
        ghost var i: nat :| i < depth && Reaches(aliases, start, current, i);
        forall n: nat ensures !Reaches(aliases, start, wanted, n) {
          if n > depth {
            var m := ChainRepeats(aliases, start, i, depth, n);
            assert !Reaches(aliases, start, wanted, m);
          }
        }
        return Cycle;
      }
      seen := seen + {current};
      assert Reaches(aliases, start, current, depth);
      if current !in aliases {
        forall n: nat ensures !Reaches(aliases, start, wanted, n) {
          if n > depth {
            EndedStaysEnded(aliases, start, depth + 1, n);
          }
        }
        return NoMapping;
      }
      var next := aliases[current];
      if next == wanted {
        assert Reaches(aliases, start, wanted, depth + 1);
        return Owned;
      }
      current := next;
    }
    v := TooDeep;
  }

  /** The identity as a local name: its local part when it is an address in the right domain. */
  function Wanted(env: Env, identity: string, domain: string): string
  {
    var plain := env.trimLower(identity);
    match env.parse(plain)
    case Some(a) => if env.trimLower(a.domain) == env.trimLower(domain) then env.trimLower(a.local) else plain
    case None => plain
  }

  /** Whether the authenticated identity owns the sender address. Both must be addresses, the sender in the domain of the
      command address, and the identity, or its local part when it is an address in that domain, a valid name. With readable
      aliases the sender is then owned exactly when that name is its local part or at most 16 hops away; and when the chain
      cycles or ends, no number of hops would ever reach it. */
  method SenderOwnedViaAliases(env: Env, aliases: Option<map<string, string>>, sender: string, identity: string,
                               command: string) returns (v: Verdict)
    ensures var from, to := env.parse(env.normalize(sender)), env.parse(env.normalize(command));
      var same := env.normalize(sender) != "" && env.normalize(command) != "" && from.Some? && to.Some?
                  && env.trimLower(from.value.domain) == env.trimLower(to.value.domain);
      if !same then v == InvalidAddress || v == OtherDomain
      else
        var plain, local := env.trimLower(identity), env.trimLower(from.value.local);
        var address := env.parse(plain);
        var wanted := if address.Some? && env.trimLower(address.value.domain) == env.trimLower(to.value.domain)
                      then env.trimLower(address.value.local) else plain;
        if !env.validName(wanted) then v == NotALocalName
        else if aliases.None? then v == if local == wanted then Owned else Unreadable
        else
          && (v == Owned <==> exists n: nat :: n <= 16 && Reaches(aliases.value, local, wanted, n))
          && (v == Cycle || v == NoMapping ==> forall n: nat :: !Reaches(aliases.value, local, wanted, n))
          && (v == Owned || v == Cycle || v == NoMapping || v == TooDeep)
  {
    var from, to := env.normalize(sender), env.normalize(command);
    if from == "" || to == "" {
      return InvalidAddress;
    }
    var senderAddress, commandAddress := env.parse(from), env.parse(to);
    if senderAddress.None? || commandAddress.None?
       || env.trimLower(senderAddress.value.domain) != env.trimLower(commandAddress.value.domain) {
      return OtherDomain;
    }
    var wanted := Wanted(env, identity, commandAddress.value.domain);
    if !env.validName(wanted) {
      return NotALocalName;
    }
    var current := env.trimLower(senderAddress.value.local);
    if current == wanted {
      assert aliases.Some? ==> Reaches(aliases.value, current, wanted, 0);
      return Owned;
    }
    if aliases.None? {
      return Unreadable;
    }
    v := Walk(aliases.value, current, wanted);
  }
}
