/**
 The bounded copy of a message: selected headers within a byte budget, and the first bytes
 of the body however the mail server splits it into chunks.
 */
module Message {
  import opened Wire
  import opened Payloads

  const MAX_HEADER_BYTES: nat := 32768
  const MAX_VALUE_BYTES: nat := 8192

  /** How header names and values are normalised, and which headers are kept. */
  datatype Rules = Rules(canonical: bytes -> bytes, trim: bytes -> bytes, retained: bytes -> bool)

  datatype State = State(headers: map<bytes, seq<bytes>>, body: bytes, truncated: bool, bodyTruncated: bool,
                         maxBytes: int, bodySize: nat, headerSize: nat)

  function New(maxBytes: int): State { State(map[], [], false, false, maxBytes, 0, 0) }

  // ---------------------------------------------------------------- one header, one chunk

  function Values(headers: map<bytes, seq<bytes>>, name: bytes): seq<bytes>
  {
    if name in headers then headers[name] else []
  }

  function EntrySize(name: bytes, value: bytes): nat { |name| + |value| + 2 }

  function Cut(value: bytes): bytes { if |value| > MAX_VALUE_BYTES then value[..MAX_VALUE_BYTES] else value }

  function WithHeader(rules: Rules, s: State, h: Header): State
  {
    var name, value := rules.canonical(h.name), rules.trim(h.value);
    if !rules.retained(name) then s
    else
      var s' := s.(truncated := s.truncated || |value| > MAX_VALUE_BYTES);
      if s.headerSize + EntrySize(name, Cut(value)) > MAX_HEADER_BYTES then s'.(truncated := true)
      else s'.(headerSize := s.headerSize + EntrySize(name, Cut(value)),
               headers := s.headers[name := Values(s.headers, name) + [Cut(value)]])
  }

  function WithBody(s: State, p: bytes): State
  {
    var remaining := s.maxBytes - s.bodySize;
    if remaining <= 0 then s.(truncated := true, bodyTruncated := true)
    else if |p| > remaining then
      s.(truncated := true, bodyTruncated := true, bodySize := s.bodySize + remaining, body := s.body + p[..remaining])
    else s.(bodySize := s.bodySize + |p|, body := s.body + p)
  }

  // ---------------------------------------------------------------- the object

  class Message {
    const rules: Rules
    const maxBytes: int
    var headers: map<bytes, seq<bytes>>
    var body: bytes
    var truncated: bool
    var bodyTruncated: bool
    var bodySize: nat
    var headerSize: nat

    ghost function View(): State
      reads this
    {
      State(headers, body, truncated, bodyTruncated, maxBytes, bodySize, headerSize)
    }

    constructor (rules: Rules, maxBytes: int)
      ensures this.rules == rules && View() == New(maxBytes)
    {
      this.rules, this.maxBytes := rules, maxBytes;
      headers, body, truncated, bodyTruncated, bodySize, headerSize := map[], [], false, false, 0, 0;
    }

    method AddHeader(name: bytes, value: bytes)
      modifies this
      ensures View() == WithHeader(rules, old(View()), Header(name, value))
    {
      var n := rules.canonical(name);
      if !rules.retained(n) {
        return;
      }
      var v := rules.trim(value);
      if |v| > MAX_VALUE_BYTES {
        v := v[..MAX_VALUE_BYTES];
        truncated := true;
      }
      var entrySize := |n| + |v| + 2;
      if headerSize + entrySize > MAX_HEADER_BYTES {
        truncated := true;
        return;
      }
      headerSize := headerSize + entrySize;
      headers := headers[n := Values(headers, n) + [v]];
    }

    method AddBody(p: bytes)
      modifies this
      ensures View() == WithBody(old(View()), p)
    {
      var remaining := maxBytes - bodySize;
      if remaining <= 0 {
        truncated, bodyTruncated := true, true;
        return;
      }
      var kept := p;
      if |p| > remaining {
        kept := p[..remaining];
        truncated, bodyTruncated := true, true;
      }
      bodySize := bodySize + |kept|;
      body := body + kept;
    }
  }

  // ---------------------------------------------------------------- bodies

  function Concat(chunks: seq<bytes>): bytes
  {
    if chunks == [] then [] else Concat(chunks[..|chunks| - 1]) + chunks[|chunks| - 1]
  }

  function WithBodies(s: State, chunks: seq<bytes>): State
  {
    if chunks == [] then s else WithBody(WithBodies(s, chunks[..|chunks| - 1]), chunks[|chunks| - 1])
  }

  function Take(s: bytes, n: int): bytes { if n <= 0 then [] else if n >= |s| then s else s[..n] }

  /** The retained body is the first `maxBytes` bytes of the whole body, whatever the chunks are. It is
      flagged as truncated exactly when something was cut or a chunk, even an empty one, arrived when
      no room was left. */
  lemma {:induction false} BodyIsPrefix(s: State, chunks: seq<bytes>)
    requires s.body == [] && s.bodySize == 0 && !s.bodyTruncated
    ensures var t := WithBodies(s, chunks);
      && t.body <= Concat(chunks)
      && |t.body| == (if s.maxBytes <= 0 then 0 else if |Concat(chunks)| > s.maxBytes then s.maxBytes else |Concat(chunks)|)
      && t.body == Take(Concat(chunks), s.maxBytes) && t.bodySize == |t.body| && t.maxBytes == s.maxBytes
      && (t.bodyTruncated <==>
            chunks != [] && (|Concat(chunks)| > s.maxBytes || |Concat(chunks[..|chunks| - 1])| >= s.maxBytes))
      && t.headers == s.headers && t.headerSize == s.headerSize
  {
    if chunks != [] {
      var front, last := chunks[..|chunks| - 1], chunks[|chunks| - 1];
      BodyIsPrefix(s, front);
      var b := Concat(front);
      if |b| < s.maxBytes && |b + last| > s.maxBytes {
        assert b + last[..s.maxBytes - |b|] == (b + last)[..s.maxBytes];
      } else if |b| >= s.maxBytes > 0 {
        assert (b + last)[..s.maxBytes] == b[..s.maxBytes];
      }
      if front != [] {
        assert |Concat(front)| >= |Concat(front[..|front| - 1])|;
      }
    }
  }

  /** Two ways of splitting the same body retain the same bytes. */
  lemma SplitDoesNotMatter(s: State, chunks: seq<bytes>, chunks': seq<bytes>)
    requires s.body == [] && s.bodySize == 0 && !s.bodyTruncated && Concat(chunks) == Concat(chunks')
    ensures WithBodies(s, chunks).body == WithBodies(s, chunks').body
  {
    BodyIsPrefix(s, chunks);
    BodyIsPrefix(s, chunks');
  }

  // ---------------------------------------------------------------- headers

  function WithHeaders(rules: Rules, s: State, hs: seq<Header>): State
  {
    if hs == [] then s else WithHeader(rules, WithHeaders(rules, s, hs[..|hs| - 1]), hs[|hs| - 1])
  }

  /** All values of a retained name, in the order received. */
  function AllValues(rules: Rules, hs: seq<Header>, name: bytes): seq<bytes>
  {
    if hs == [] then []
    else
      var last := hs[|hs| - 1];
      AllValues(rules, hs[..|hs| - 1], name)
      + if rules.canonical(last.name) == name && rules.retained(name) then [rules.trim(last.value)] else []
  }

  /** The bytes that keeping every retained header would take. */
  function TotalSize(rules: Rules, hs: seq<Header>): nat
  {
    if hs == [] then 0
    else
      var last := hs[|hs| - 1];
      TotalSize(rules, hs[..|hs| - 1])
      + if rules.retained(rules.canonical(last.name)) then |rules.canonical(last.name)| + |rules.trim(last.value)| + 2 else 0
  }

  predicate Fits(rules: Rules, h: Header)
  {
    !rules.retained(rules.canonical(h.name)) || |rules.trim(h.value)| <= 8192
  }

  predicate AllFit(rules: Rules, hs: seq<Header>)
  {
    forall i :: 0 <= i < |hs| ==> Fits(rules, hs[i])
  }

  /** One more header: its first 8192 bytes are kept if, with the name and two bytes more, the budget of 32768 bytes holds
      them; whatever is cut or left out is flagged, and what was kept before stays. */
  lemma HeaderAnswer(rules: Rules, s: State, h: Header)
    ensures var t, name, value := WithHeader(rules, s, h), rules.canonical(h.name), rules.trim(h.value);
      var kept := if |value| <= 8192 then |value| else 8192;
      if !rules.retained(name) then t == s
      else if s.headerSize + |name| + kept + 2 > 32768 then t == s.(truncated := true)
      else
        && (t.truncated <==> s.truncated || |value| > 8192) && t.headerSize == s.headerSize + |name| + kept + 2
        && |Values(t.headers, name)| == |Values(s.headers, name)| + 1
        && Values(s.headers, name) <= Values(t.headers, name)
        && |Values(t.headers, name)[|Values(s.headers, name)|]| == kept && Values(t.headers, name)[|Values(s.headers, name)|] <= value
        && (forall other :: other != name ==> Values(t.headers, other) == Values(s.headers, other))
        && t.body == s.body && t.bodySize == s.bodySize && t.bodyTruncated == s.bodyTruncated && t.maxBytes == s.maxBytes
  {
  }

  /** The header budget holds, and the truncation flag tells exactly whether anything was lost: without it
      every retained header is there with all its values in order; it is set just when a value exceeds its
      limit or the headers together exceed theirs. */
  lemma {:induction false} HeadersAreKept(rules: Rules, maxBytes: int, hs: seq<Header>)
    ensures var t := WithHeaders(rules, New(maxBytes), hs);
      && t.headerSize <= 32768 && t.headerSize <= TotalSize(rules, hs)
      && (t.truncated <==> TotalSize(rules, hs) > 32768 || !AllFit(rules, hs))
      && (!t.truncated ==> t.headerSize == TotalSize(rules, hs)
                           && forall name :: Values(t.headers, name) == AllValues(rules, hs, name))
  {
    if hs != [] {
      var front, last := hs[..|hs| - 1], hs[|hs| - 1];
      HeadersAreKept(rules, maxBytes, front);
      assert AllFit(rules, hs) <==> AllFit(rules, front) && Fits(rules, last);
    }
  }
}
