/**
 The payload of a macro command: one byte naming the command the macros belong to, then
 name and value pairs, each part ended by a NUL. Only the authenticated identity and the
 name of the mail server are of interest, and each may appear at most once.
 */
module Macros {
  import opened Options
  import opened Wire
  import opened Payloads

  const MAX_PAIRS: nat := 128
  const MAX_IDENTITY: nat := 1024
  const MAX_HOSTNAME: nat := 253

  datatype Values = Values(identity: Option<bytes>, hostname: Option<bytes>)
  const NOTHING := Values(None, None)

  datatype Parsed = Valid(target: byte, values: Values) | Malformed

  datatype Pair = Pair(name: bytes, value: bytes)

  // ---------------------------------------------------------------- names

  function LowerByte(b: byte): byte { if 65 <= b <= 90 then b + 32 else b }

  /** Equality up to the case of ASCII letters. */
  predicate EqualFold(a: bytes, b: bytes)
  {
    |a| == |b| && forall i :: 0 <= i < |a| ==> LowerByte(a[i]) == LowerByte(b[i])
  }

  predicate Brace(b: byte) { b == 123 || b == 125 }

  /** The name without surrounding braces. */
  function TrimBraces(s: bytes): bytes
    decreases |s|
  {
    if s != [] && Brace(s[0]) then TrimBraces(s[1..])
    else if s != [] && Brace(s[|s| - 1]) then TrimBraces(s[..|s| - 1])
    else s
  }

  const AUTH_AUTHEN: bytes := [97, 117, 116, 104, 95, 97, 117, 116, 104, 101, 110]
  const J: bytes := [106]

  predicate IsIdentity(name: bytes) { EqualFold(TrimBraces(name), AUTH_AUTHEN) }
  predicate IsHostname(name: bytes) { !IsIdentity(name) && EqualFold(TrimBraces(name), J) }

  lemma {:induction false} TrimmedCore(left: bytes, core: bytes, right: bytes)
    requires (forall i :: 0 <= i < |left| ==> Brace(left[i])) && (forall i :: 0 <= i < |right| ==> Brace(right[i]))
    requires core != [] ==> !Brace(core[0]) && !Brace(core[|core| - 1])
    ensures TrimBraces(left + core + right) == core
    decreases |left| + |right|
  {
    var s := left + core + right;
    if left != [] {
      assert s[1..] == left[1..] + core + right;
      TrimmedCore(left[1..], core, right);
    } else if right != [] {
      if core == [] {
        assert s == right && s[1..] == [] + core + right[1..];
        TrimmedCore([], core, right[1..]);
      } else {
        assert s[..|s| - 1] == [] + core + right[..|right| - 1] && s[0] == core[0];
        TrimmedCore([], core, right[..|right| - 1]);
      }
    } else {
      assert s == core;
    }
  }

  /** Whatever braces surround it, a name is that of the identity when it spells auth_authen in any case, and
      that of the mail server's host name when it is a j in any case. */
  lemma NamesIff(left: bytes, core: bytes, right: bytes)
    requires (forall i :: 0 <= i < |left| ==> left[i] == 123 || left[i] == 125)
    requires (forall i :: 0 <= i < |right| ==> right[i] == 123 || right[i] == 125)
    requires core != [] ==> core[0] != 123 && core[0] != 125 && core[|core| - 1] != 123 && core[|core| - 1] != 125
    ensures IsIdentity(left + core + right) <==>
      var spelled: bytes := [97, 117, 116, 104, 95, 97, 117, 116, 104, 101, 110];
      |core| == 11 && forall i :: 0 <= i < 11 ==> core[i] == spelled[i] || (spelled[i] != 95 && core[i] as int + 32 == spelled[i] as int)
    ensures IsHostname(left + core + right) <==> core == [106] || core == [74]
  {
    TrimmedCore(left, core, right);
    if |core| == 1 && (core[0] == 106 || core[0] == 74) {
      assert core == [core[0]];
    }
  }

  // ---------------------------------------------------------------- what a valid payload is

  function Encode(pairs: seq<Pair>): bytes
  {
    if pairs == [] then [] else pairs[0].name + [0] + pairs[0].value + [0] + Encode(pairs[1..])
  }

  predicate Named(pairs: seq<Pair>)
  {
    forall i :: 0 <= i < |pairs| ==> pairs[i].name != [] && NoNul(pairs[i].name) && NoNul(pairs[i].value)
  }

  /** The values of the pairs with the name of interest, in order. */
  function Identities(pairs: seq<Pair>): seq<bytes>
  {
    if pairs == [] then [] else (if IsIdentity(pairs[0].name) then [pairs[0].value] else []) + Identities(pairs[1..])
  }

  function Hostnames(pairs: seq<Pair>): seq<bytes>
  {
    if pairs == [] then [] else (if IsHostname(pairs[0].name) then [pairs[0].value] else []) + Hostnames(pairs[1..])
  }

  /** At most one value, within its limit. */
  predicate OneWithin(values: seq<bytes>, limit: nat)
  {
    |values| <= 1 && forall i :: 0 <= i < |values| ==> |values[i]| <= limit
  }

  predicate WellFormed(pairs: seq<Pair>)
  {
    && Named(pairs) && |pairs| <= 128 && OneWithin(Identities(pairs), 1024) && OneWithin(Hostnames(pairs), 253)
  }

  function First(values: seq<bytes>): Option<bytes> { if values == [] then None else Some(values[0]) }

  function ValuesOf(pairs: seq<Pair>): Values { Values(First(Identities(pairs)), First(Hostnames(pairs))) }

  // ---------------------------------------------------------------- parsing

  /** What one more pair does to the values found so far; None when it is not allowed. */
  function Note(v: Values, p: Pair): Option<Values>
  {
    if IsIdentity(p.name) then
      if v.identity.Some? || |p.value| > MAX_IDENTITY then None else Some(v.(identity := Some(p.value)))
    else if IsHostname(p.name) then
      if v.hostname.Some? || |p.value| > MAX_HOSTNAME then None else Some(v.(hostname := Some(p.value)))
    else Some(v)
  }

  datatype CutResult = Cut(pair: Pair, rest: bytes) | NoPair

  /** The first pair and what follows it. */
  function CutPair(rest: bytes): (cut: CutResult)
    ensures cut.Cut? ==> |cut.rest| < |rest|
  {
    var n := FirstNul(rest);
    if n >= |rest| || n == 0 then NoPair
    else
      var tail := rest[n + 1..];
      var m := FirstNul(tail);
      if m >= |tail| then NoPair else Cut(Pair(rest[..n], tail[..m]), tail[m + 1..])
  }

  /** The pairs from some point on, given how many came before and what they carried. */
  function ParsePairs(rest: bytes, pairs: nat, v: Values): Option<Values>
    decreases |rest|
  {
    if rest == [] then Some(v)
    else if pairs >= MAX_PAIRS then None
    else
      match CutPair(rest)
      case NoPair => None
      case Cut(pair, more) =>
        match Note(v, pair)
        case Some(v') => ParsePairs(more, pairs + 1, v')
        case None => None
  }

  function Parse(payload: bytes): Parsed
  {
    if payload == [] then Malformed
    else
      match ParsePairs(payload[1..], 0, NOTHING)
      case Some(v) => Valid(payload[0], v)
      case None => Malformed
  }

  /** One turn of the loop. */
  lemma ParseStep(rest: bytes, pairs: nat, v: Values)
    ensures ParsePairs(rest, pairs, v) ==
      if rest == [] then Some(v)
      else if pairs >= MAX_PAIRS || CutPair(rest).NoPair? || Note(v, CutPair(rest).pair).None? then None
      else ParsePairs(CutPair(rest).rest, pairs + 1, Note(v, CutPair(rest).pair).value)
  {
    hide Note, CutPair;
  }

  method TakePair(remainder: bytes) returns (cut: CutResult)
    ensures cut == CutPair(remainder)
  {
    var n := FirstNul(remainder);
    if n >= |remainder| || n == 0 {
      return NoPair;
    }
    var name, rest := remainder[..n], remainder[n + 1..];
    var m := FirstNul(rest);
    if m >= |rest| {
      return NoPair;
    }
    cut := Cut(Pair(name, rest[..m]), rest[m + 1..]);
  }

  method NoteMacro(values: Values, pair: Pair) returns (noted: Option<Values>)
    ensures noted == Note(values, pair)
  {
    var macroName := TrimBraces(pair.name);
    if EqualFold(macroName, AUTH_AUTHEN) {
      if values.identity.Some? || |pair.value| > MAX_IDENTITY {
        return None;
      }
      return Some(values.(identity := Some(pair.value)));
    }
    if EqualFold(macroName, J) {
      if values.hostname.Some? || |pair.value| > MAX_HOSTNAME {
        return None;
      }
      return Some(values.(hostname := Some(pair.value)));
    }
    noted := Some(values);
  }

  /** The parser as the Milter runs it, one pair per turn of a loop. */
  method ParseSessionMacros(payload: bytes) returns (result: Parsed)
    ensures result == Parse(payload)
  {
    if payload == [] {
      return Malformed;
    }
    var target, remainder := payload[0], payload[1..];
    if remainder == [] {
      return Valid(target, NOTHING);
    }
    if remainder[|remainder| - 1] != 0 {
      UnterminatedFails(remainder, 0, NOTHING);
      return Malformed;
    }
    var values := ParseAllPairs(remainder);
    result := if values.Some? then Valid(target, values.value) else Malformed;
  }

  method ParseAllPairs(all: bytes) returns (result: Option<Values>)
    ensures result == ParsePairs(all, 0, NOTHING)
  {
    hide Note, CutPair, ParsePairs;
    var remainder, values, pairs := all, NOTHING, 0;
    while remainder != []
      invariant ParsePairs(all, 0, NOTHING) == ParsePairs(remainder, pairs, values)
      decreases |remainder|
    {
      ParseStep(remainder, pairs, values);
      if pairs >= MAX_PAIRS {
        return None;
      }
      var cut := TakePair(remainder);
      if cut.NoPair? {
        return None;
      }
      var noted := NoteMacro(values, cut.pair);
      if noted.None? {
        return None;
      }
      remainder, values, pairs := cut.rest, noted.value, pairs + 1;
    }
    ParseStep(remainder, pairs, values);
    result := Some(values);
  }

  /** A last field without its NUL is never accepted, so checking for it first changes nothing. */
  lemma {:induction false} UnterminatedFails(rest: bytes, pairs: nat, v: Values)
    requires rest != [] && rest[|rest| - 1] != 0
    ensures ParsePairs(rest, pairs, v).None?
    decreases |rest|
  {
    hide Note;
    match CutPair(rest) {
      case Cut(p, more) =>
        if Note(v, p).Some? {
          UnterminatedFails(more, pairs + 1, Note(v, p).value);
        }
      case NoPair =>
    }
  }

  // ---------------------------------------------------------------- accepting exactly the valid payloads

  /** The values after noting pairs one after another; None as soon as one is not allowed. */
  function NoteAll(v: Values, pairs: seq<Pair>): Option<Values>
    decreases |pairs|
  {
    if pairs == [] then Some(v)
    else match Note(v, pairs[0])
         case Some(v') => NoteAll(v', pairs[1..])
         case None => None
  }

  lemma FirstPair(p: Pair, more: bytes)
    requires p.name != [] && NoNul(p.name) && NoNul(p.value)
    ensures CutPair(p.name + [0] + p.value + [0] + more) == Cut(p, more)
  {
    hide FirstNul;
    var rest := p.name + [0] + p.value + [0] + more;
    var tail := p.value + [0] + more;
    assert rest == p.name + [0] + tail;
    FirstNulOf(p.name, tail);
    assert rest[|p.name| + 1..] == tail && rest[..|p.name|] == p.name;
    FirstNulOf(p.value, more);
    assert tail[..|p.value|] == p.value && tail[|p.value| + 1..] == more;
  }

  lemma CutIsPair(rest: bytes)
    requires CutPair(rest).Cut?
    ensures var p := CutPair(rest).pair;
      p.name != [] && NoNul(p.name) && NoNul(p.value) && rest == p.name + [0] + p.value + [0] + CutPair(rest).rest
  {
    hide FirstNul;
    var n := FirstNul(rest);
    var tail := rest[n + 1..];
    var m := FirstNul(tail);
    assert rest == rest[..n] + [0] + tail && tail == tail[..m] + [0] + tail[m + 1..];
  }

  /** Parsing an encoded list notes its pairs in order. */
  lemma {:induction false} ParseEncoded(pairs: seq<Pair>, done: nat, v: Values)
    requires Named(pairs) && done + |pairs| <= MAX_PAIRS
    ensures ParsePairs(Encode(pairs), done, v) == NoteAll(v, pairs)
  {
    hide Note, CutPair;
    if pairs != [] {
      FirstPair(pairs[0], Encode(pairs[1..]));
      var next := Note(v, pairs[0]);
      if next.Some? {
        ParseEncoded(pairs[1..], done + 1, next.value);
      }
    }
  }

  /** Whatever parses is an encoded list of at most the allowed number of pairs. */
  lemma {:induction false} ParsedIsEncoded(rest: bytes, done: nat, v: Values) returns (pairs: seq<Pair>)
    requires ParsePairs(rest, done, v).Some?
    ensures rest == Encode(pairs) && Named(pairs) && (done <= MAX_PAIRS ==> done + |pairs| <= MAX_PAIRS)
    decreases |rest|
  {
    hide Note, CutPair;
    if rest == [] {
      pairs := [];
    } else {
      var p, more := CutPair(rest).pair, CutPair(rest).rest;
      CutIsPair(rest);
      var others := ParsedIsEncoded(more, done + 1, Note(v, p).value);
      pairs := [p] + others;
      assert pairs[1..] == others;
    }
  }

  predicate OkAfter(prior: Option<bytes>, values: seq<bytes>, limit: nat)
  {
    if prior.Some? then values == [] else OneWithin(values, limit)
  }

  function Merge(prior: Option<bytes>, values: seq<bytes>): Option<bytes>
  {
    if prior.Some? then prior else First(values)
  }

  /** Noting pairs succeeds exactly when nothing of interest repeats or is too long. */
  lemma {:induction false} NoteAllIs(v: Values, pairs: seq<Pair>)
    ensures NoteAll(v, pairs) ==
      if OkAfter(v.identity, Identities(pairs), MAX_IDENTITY) && OkAfter(v.hostname, Hostnames(pairs), MAX_HOSTNAME)
      then Some(Values(Merge(v.identity, Identities(pairs)), Merge(v.hostname, Hostnames(pairs)))) else None
    decreases |pairs|
  {
    hide IsIdentity, IsHostname;
    if pairs != [] {
      assert IsHostname(pairs[0].name) ==> !IsIdentity(pairs[0].name) by { NotBoth(pairs[0].name); }
      OneMore(v.identity, pairs[0].value, Identities(pairs[1..]), MAX_IDENTITY);
      OneMore(v.hostname, pairs[0].value, Hostnames(pairs[1..]), MAX_HOSTNAME);
      assert [] + Identities(pairs[1..]) == Identities(pairs[1..]) && [] + Hostnames(pairs[1..]) == Hostnames(pairs[1..]);
      var next := Note(v, pairs[0]);
      if next.Some? {
        NoteAllIs(next.value, pairs[1..]);
      }
    }
  }

  lemma NotBoth(name: bytes)
    ensures IsHostname(name) ==> !IsIdentity(name)
  {
  }

  lemma OneMore(prior: Option<bytes>, value: bytes, values: seq<bytes>, limit: nat)
    ensures OkAfter(prior, [value] + values, limit) <==> prior.None? && |value| <= limit && values == []
    ensures prior.None? ==> Merge(prior, [value] + values) == Some(value)
  {
    assert ([value] + values)[0] == value;
    if prior.None? && |value| <= limit && values == [] {
      assert [value] + values == [value];
    }
  }

  /** A macro payload is accepted exactly when it is a target byte followed by the encoding of a list of at
      most 128 named pairs with at most one identity, of at most 1024 bytes, and one host name, of at most 253; and what is
      returned is that target with those values. */
  lemma ParseIff(payload: bytes, target: byte, values: Values)
    ensures Parse(payload) == Valid(target, values) <==>
      exists pairs :: WellFormed(pairs) && payload == [target] + Encode(pairs) && values == ValuesOf(pairs)
  {
    hide Note, ParsePairs, Identities, Hostnames, IsIdentity, IsHostname, Encode;
    if Parse(payload) == Valid(target, values) {
      var pairs := ParsedIsEncoded(payload[1..], 0, NOTHING);
      ParseEncoded(pairs, 0, NOTHING);
      NoteAllIs(NOTHING, pairs);
      assert payload == [target] + Encode(pairs);
    }
    if pairs :| WellFormed(pairs) && payload == [target] + Encode(pairs) && values == ValuesOf(pairs) {
      ParseEncoded(pairs, 0, NOTHING);
      NoteAllIs(NOTHING, pairs);
      assert payload[1..] == Encode(pairs);
    }
  }
}
