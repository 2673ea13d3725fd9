/** The NUL-terminated fields that milter command payloads are made of. */
module Payloads {
  import opened NetworkAddress
  import opened Options
  import opened Wire

  predicate NoNul(s: bytes) { 0 !in s }

  /** The position of the first NUL, or |s| when there is none. */
  function FirstNul(s: bytes): (n: nat)
    ensures n <= |s| && NoNul(s[..n]) && (n < |s| ==> s[n] == 0)
  {
    if s == [] || s[0] == 0 then 0
    else
      var n := FirstNul(s[1..]);
      assert s[..n + 1] == [s[0]] + s[1..][..n];
      n + 1
  }

  lemma {:induction false} FirstNulOf(a: bytes, b: bytes)
    requires NoNul(a)
    ensures FirstNul(a + [0] + b) == |a|
  {
    if a != [] {
      assert (a + [0] + b)[1..] == a[1..] + [0] + b;
      FirstNulOf(a[1..], b);
    }
  }

  // ---------------------------------------------------------------- headers, names and addresses

  datatype Header = Header(name: bytes, value: bytes)

  function HeaderPayload(name: bytes, value: bytes): bytes { name + [0] + value + [0] }

  /** A header command carries a non-empty name and a value, each ended by a NUL. */
  function ParseHeader(payload: bytes): Option<Header>
  {
    var n := FirstNul(payload);
    if n >= |payload| || n == 0 then None
    else
      var rest := payload[n + 1..];
      if rest == [] || rest[|rest| - 1] != 0 || !NoNul(rest[..|rest| - 1]) then None
      else Some(Header(payload[..n], rest[..|rest| - 1]))
  }

  lemma HeaderParses(name: bytes, value: bytes)
    requires name != [] && NoNul(name) && NoNul(value)
    ensures ParseHeader(HeaderPayload(name, value)) == Some(Header(name, value))
  {
    hide FirstNul;
    var payload := HeaderPayload(name, value);
    assert payload == name + [0] + (value + [0]);
    FirstNulOf(name, value + [0]);
    assert payload[|name| + 1..] == value + [0] && payload[..|name|] == name;
    assert (value + [0])[..|value|] == value;
  }

  lemma ParsedHeader(payload: bytes)
    requires ParseHeader(payload).Some?
    ensures var h := ParseHeader(payload).value;
      h.name != [] && NoNul(h.name) && NoNul(h.value) && payload == HeaderPayload(h.name, h.value)
  {
    var n := FirstNul(payload);
    var rest := payload[n + 1..];
    assert payload == payload[..n] + [0] + rest && rest == rest[..|rest| - 1] + [0];
  }

  /** Parsing a header succeeds exactly on what a sender writes for that header. */
  lemma ParseHeaderIff(payload: bytes, name: bytes, value: bytes)
    ensures ParseHeader(payload) == Some(Header(name, value)) <==>
      name != [] && NoNul(name) && NoNul(value) && payload == HeaderPayload(name, value)
  {
    hide ParseHeader, HeaderPayload;
    if name != [] && NoNul(name) && NoNul(value) {
      HeaderParses(name, value);
    }
    if ParseHeader(payload).Some? {
      ParsedHeader(payload);
    }
  }

  /** The text before the first NUL, which may be followed by ESMTP arguments. */
  function ParseEnvelopeAddress(payload: bytes): Option<bytes>
  {
    var n := FirstNul(payload);
    if n >= |payload| || n == 0 then None else Some(payload[..n])
  }

  function ParseHostname(payload: bytes): Option<bytes>
  {
    var n := FirstNul(payload);
    if n >= |payload| then None else Some(payload[..n])
  }

  function ParseIdentity(payload: bytes): Option<bytes>
  {
    if payload == [] || payload[|payload| - 1] != 0 || !NoNul(payload[..|payload| - 1]) then None
    else Some(payload[..|payload| - 1])
  }

  /** The address of CONNECT: after the host name a family, a port of two bytes and the text of an address of that family,
      which `parse` reads. An IPv4-mapped address fits either family and is taken as the IPv4 address behind it. */
  function ConnectIP(parse: bytes -> Addr, payload: bytes): Addr
  {
    var n := FirstNul(payload);
    if n >= |payload| || |payload| - n - 1 < 4 then Addr.Invalid
    else
      var rest := payload[n + 1..];
      var family, text := rest[0], rest[3..];
      if family != 52 && family != 54 then Addr.Invalid
      else if |text| < 2 || text[|text| - 1] != 0 || !NoNul(text[..|text| - 1]) then Addr.Invalid
      else
        var a := parse(text[..|text| - 1]);
        if (family == 52 && !a.V4? && !a.V4In6?) || (family == 54 && !a.V6? && !a.V4In6?) then Addr.Invalid else a.Unmap()
  }

  /** A family, its address, and what it is taken for. */
  predicate Announces(family: byte, a: Addr, peer: Addr)
  {
    || (family == 52 && a.V4? && peer == a)
    || (family == 54 && a.V6? && peer == a)
    || ((family == 52 || family == 54) && a.V4In6? && peer == V4(a.bits))
  }

  /** A peer has an address exactly as its CONNECT spells one out, byte for byte. */
  lemma ConnectIPOf(parse: bytes -> Addr, host: bytes, family: byte, port: bytes, text: bytes, peer: Addr)
    requires 0 !in host && |port| == 2 && 0 !in text && text != [] && peer.Valid()
    ensures ConnectIP(parse, host + [0] + [family] + port + text + [0]) == peer <==> Announces(family, parse(text), peer)
  {
    var rest := [family] + port + text + [0];
    var payload := host + [0] + rest;
    assert host + [0] + [family] + port + text + [0] == payload;
    FirstNulOf(host, rest);
    assert payload[|host| + 1..] == rest && rest[3..] == text + [0] && (text + [0])[..|text|] == text;
  }

  lemma ConnectIPForm(parse: bytes -> Addr, payload: bytes) returns (host: bytes, family: byte, port: bytes, text: bytes)
    requires ConnectIP(parse, payload).Valid()
    ensures payload == host + [0] + [family] + port + text + [0] && 0 !in host && |port| == 2 && 0 !in text && text != []
    ensures Announces(family, parse(text), ConnectIP(parse, payload))
  {
    var n := FirstNul(payload);
    var rest := payload[n + 1..];
    host, family, port, text := payload[..n], rest[0], rest[1..3], rest[3..|rest| - 1];
    FourParts(rest);
    assert rest[3..][..|rest| - 4] == text;
    assert payload == host + [0] + rest;
    hide FirstNul, ConnectIP;
    assert host + [0] + ([family] + port + text + [0]) == host + [0] + [family] + port + text + [0];
  }

  lemma FourParts(rest: bytes)
    requires |rest| >= 4 && rest[|rest| - 1] == 0
    ensures rest == [rest[0]] + rest[1..3] + rest[3..|rest| - 1] + [0]
  {
  }

  /** The text of MAIL and RCPT is what precedes the first NUL, and there must be some. */
  lemma ParseEnvelopeAddressIff(payload: bytes, address: bytes)
    ensures ParseEnvelopeAddress(payload) == Some(address) <==>
      address != [] && 0 !in address && |payload| > |address| && payload[..|address|] == address && payload[|address|] == 0
  {
    var n := FirstNul(payload);
    if 0 !in address && |payload| > |address| && payload[..|address|] == address && payload[|address|] == 0 {
      FirstNulOf(address, payload[|address| + 1..]);
      assert payload == address + [0] + payload[|address| + 1..];
    }
  }

  /** The host name of CONNECT is what precedes the first NUL, and may be empty. */
  lemma ParseHostnameIff(payload: bytes, name: bytes)
    ensures ParseHostname(payload) == Some(name) <==>
      0 !in name && |payload| > |name| && payload[..|name|] == name && payload[|name|] == 0
  {
    var n := FirstNul(payload);
    if 0 !in name && |payload| > |name| && payload[..|name|] == name && payload[|name|] == 0 {
      FirstNulOf(name, payload[|name| + 1..]);
      assert payload == name + [0] + payload[|name| + 1..];
    }
  }

  /** The identity of HELO is all but its only NUL, which comes last. */
  lemma ParseIdentityIff(payload: bytes, identity: bytes)
    ensures ParseIdentity(payload) == Some(identity) <==> 0 !in identity && payload == identity + [0]
  {
    if ParseIdentity(payload).Some? {
      assert payload == payload[..|payload| - 1] + [0];
    }
  }
}
