/**
 Milter frames on a byte stream: a big-endian 32-bit length and that many bytes, sent
 through a writer that may accept fewer bytes than offered and read through a reader that
 may deliver fewer bytes than asked for.
 */
module Wire {
  import opened Options

  type byte = b: int | 0 <= b < 256
  type bytes = seq<byte>

  const MAX_FRAME: nat := 0x100_0000

  // ---------------------------------------------------------------- the format

  function Encode32(n: nat): (header: bytes)
    requires n < 0x1_0000_0000
    ensures |header| == 4
  {
    [n / 0x100_0000, n / 0x1_0000 % 0x100, n / 0x100 % 0x100, n % 0x100]
  }

  function Decode32(header: bytes): (n: nat)
    requires |header| == 4
    ensures n < 0x1_0000_0000
  {
    var b0: int, b1: int, b2: int, b3: int := header[0], header[1], header[2], header[3];
    b0 * 0x100_0000 + b1 * 0x1_0000 + b2 * 0x100 + b3
  }

  lemma Decode32Encode32(n: nat)
    requires n < 0x1_0000_0000
    ensures Decode32(Encode32(n)) == n
  {
    assert n / 0x1_0000 == n / 0x100 / 0x100 && n / 0x100_0000 == n / 0x100 / 0x100 / 0x100;
  }

  lemma Encode32Decode32(header: bytes)
    requires |header| == 4
    ensures Encode32(Decode32(header)) == header
  {
    var n := Decode32(header);
    var b0: int, b1: int, b2: int, b3: int := header[0], header[1], header[2], header[3];
    assert n / 0x100 == b0 * 0x1_0000 + b1 * 0x100 + b2 && n % 0x100 == b3;
    assert n / 0x1_0000 == b0 * 0x100 + b1 && n / 0x100_0000 == b0;
    assert Encode32(n) == [header[0], header[1], header[2], header[3]];
  }

  /** The length is stored in 32 bits: a longer payload would wrap around. */
  function Frame(payload: bytes): bytes
  {
    Encode32(|payload| % 0x1_0000_0000) + payload
  }

  predicate Sendable(payload: bytes) { 1 <= |payload| <= MAX_FRAME }

  datatype Received =
    | Payload(frame: bytes, rest: bytes)
    | BadLength(length: nat)
    | Incomplete

  /** What the first frame on a stream is, once every byte the peer sends has arrived. */
  function Decode(stream: bytes): Received
  {
    if |stream| < 4 then Incomplete
    else
      var n := Decode32(stream[..4]);
      if n == 0 || n > MAX_FRAME then BadLength(n)
      else if |stream| < 4 + n then Incomplete
      else Payload(stream[4..4 + n], stream[4 + n..])
  }

  lemma FrameDecodes(payload: bytes, rest: bytes)
    requires Sendable(payload)
    ensures Decode(Frame(payload) + rest) == Payload(payload, rest)
  {
    hide Encode32, Decode32;
    var stream := Frame(payload) + rest;
    Decode32Encode32(|payload|);
    assert stream[..4] == Encode32(|payload|);
    assert stream[4..4 + |payload|] == payload && stream[4 + |payload|..] == rest;
  }

  lemma DecodedIsFrame(stream: bytes)
    requires Decode(stream).Payload?
    ensures Sendable(Decode(stream).frame) && stream == Frame(Decode(stream).frame) + Decode(stream).rest
  {
    hide Encode32, Decode32;
    var n := Decode32(stream[..4]);
    Encode32Decode32(stream[..4]);
    assert Frame(stream[4..4 + n]) == stream[..4] + stream[4..4 + n];
    assert stream == stream[..4] + stream[4..4 + n] + stream[4 + n..];
  }

  /** Decoding yields a payload exactly when the stream starts with the frame of a sendable payload. */
  lemma DecodeIffFrame(stream: bytes, payload: bytes, rest: bytes)
    ensures Decode(stream) == Payload(payload, rest) <==> Sendable(payload) && stream == Frame(payload) + rest
  {
    hide Decode, Frame;
    if Sendable(payload) {
      FrameDecodes(payload, rest);
    }
    if Decode(stream).Payload? {
      DecodedIsFrame(stream);
    }
  }

  /** A frame is the length of its payload, most significant byte first, and the payload. */
  lemma FrameBytes(payload: bytes)
    requires 1 <= |payload| <= 16_777_216
    ensures |Frame(payload)| == 4 + |payload| && Frame(payload)[4..] == payload
    ensures var f := Frame(payload);
      f[0] as int * 16_777_216 + f[1] as int * 65_536 + f[2] as int * 256 + f[3] as int == |payload|
  {
    var n, f := |payload|, Frame(payload);
    assert n % 0x1_0000_0000 == n;
    assert f[0] as int == n / 0x100_0000 && f[1] as int == n / 0x1_0000 % 0x100 && f[2] as int == n / 0x100 % 0x100 && f[3] as int == n % 0x100;
    hide Frame, Encode32;
    Weights(n);
  }

  lemma Weights(n: nat)
    requires n < 0x1_0000_0000
    ensures n == n / 0x100_0000 * 0x100_0000 + n / 0x1_0000 % 0x100 * 0x1_0000 + n / 0x100 % 0x100 * 0x100 + n % 0x100
  {
    var a, b := n / 0x100, n / 0x100 / 0x100;
    assert n / 0x1_0000 == b && n / 0x100_0000 == b / 0x100;
    assert n == a * 0x100 + n % 0x100 && a == b * 0x100 + a % 0x100 && b == b / 0x100 * 0x100 + b % 0x100;
  }

  /** What a stream begins with, by the weights of its first four bytes. */
  lemma DecodedBytes(stream: bytes)
    ensures |stream| < 4 ==> Decode(stream) == Incomplete
    ensures |stream| >= 4 ==>
      var n: nat := stream[0] as int * 16_777_216 + stream[1] as int * 65_536 + stream[2] as int * 256 + stream[3] as int;
      && (Decode(stream) == BadLength(n) <==> n == 0 || n > 16_777_216)
      && (Decode(stream).Payload? <==> 1 <= n <= 16_777_216 && 4 + n <= |stream|)
      && (Decode(stream).Payload? ==> Decode(stream) == Payload(stream[4..4 + n], stream[4 + n..]))
  {
  }

  function EncodeAll(payloads: seq<bytes>): bytes
  {
    if payloads == [] then [] else Frame(payloads[0]) + EncodeAll(payloads[1..])
  }

  /** All frames of a stream up to its end or the first one that cannot be read. */
  function DecodeAll(stream: bytes): seq<bytes>
    decreases |stream|
  {
    match Decode(stream)
    case Payload(frame, rest) => if |rest| < |stream| then [frame] + DecodeAll(rest) else []
    case _ => []
  }

  /** Any sequence of sendable payloads is read back unchanged, and so is what an interrupted
      sender had completed before: a partial frame at the end adds nothing. */
  lemma {:induction false} FramesRoundTrip(payloads: seq<bytes>, partial: bytes)
    requires forall i :: 0 <= i < |payloads| ==> Sendable(payloads[i])
    requires Decode(partial).Incomplete?
    ensures DecodeAll(EncodeAll(payloads) + partial) == payloads
  {
    if payloads == [] {
      assert EncodeAll(payloads) + partial == partial;
    } else {
      var rest := EncodeAll(payloads[1..]) + partial;
      assert EncodeAll(payloads) + partial == Frame(payloads[0]) + rest;
      DecodeIffFrame(Frame(payloads[0]) + rest, payloads[0], rest);
      FramesRoundTrip(payloads[1..], partial);
    }
  }

  lemma FramePrefixIsIncomplete(payload: bytes, n: nat)
    requires Sendable(payload) && n < |Frame(payload)|
    ensures Decode(Frame(payload)[..n]).Incomplete?
  {
    if n >= 4 {
      Decode32Encode32(|payload|);
      assert Frame(payload)[..n][..4] == Encode32(|payload|);
    }
  }

  /** A sender that is interrupted anywhere within a frame has delivered exactly what it completed before. */
  lemma InterruptedSenderDelivers(payloads: seq<bytes>, last: bytes, n: nat)
    requires (forall i :: 0 <= i < |payloads| ==> Sendable(payloads[i])) && Sendable(last) && n < |Frame(last)|
    ensures DecodeAll(EncodeAll(payloads) + Frame(last)[..n]) == payloads
  {
    hide Decode, Frame, DecodeAll, EncodeAll;
    FramePrefixIsIncomplete(last, n);
    FramesRoundTrip(payloads, Frame(last)[..n]);
  }

  predicate AllSendable(payloads: seq<bytes>) { forall i :: 0 <= i < |payloads| ==> Sendable(payloads[i]) }

  /** The first payload of a length that a receiver refuses ends what it receives. */
  lemma {:induction false} UnsendableStops(payloads: seq<bytes>)
    requires forall i :: 0 <= i < |payloads| ==> |payloads[i]| < 0x1_0000_0000
    requires !AllSendable(payloads)
    ensures |DecodeAll(EncodeAll(payloads))| < |payloads|
  {
    hide Encode32, Decode32;
    var first, rest := payloads[0], EncodeAll(payloads[1..]);
    if Sendable(first) {
      DecodeIffFrame(Frame(first) + rest, first, rest);
      UnsendableStops(payloads[1..]);
    } else {
      Decode32Encode32(|first|);
      assert (Frame(first) + rest)[..4] == Encode32(|first|);
    }
  }

  /** Payloads whose length fits the length field all arrive if and only if all are sendable. */
  lemma AllArriveIff(payloads: seq<bytes>)
    requires forall i :: 0 <= i < |payloads| ==> |payloads[i]| < 0x1_0000_0000
    ensures AllSendable(payloads) <==> DecodeAll(EncodeAll(payloads)) == payloads
    ensures !AllSendable(payloads) ==> |DecodeAll(EncodeAll(payloads))| < |payloads|
  {
    hide DecodeAll, EncodeAll;
    if AllSendable(payloads) {
      FramesRoundTrip(payloads, []);
      assert EncodeAll(payloads) + [] == EncodeAll(payloads);
    } else {
      UnsendableStops(payloads);
    }
  }

  // ---------------------------------------------------------------- writing

  class Writer {
    var sent: bytes

    constructor ()
      ensures sent == []
    {
      sent := [];
    }

    /** Accepts some prefix of what it is offered, possibly nothing, and may report an error. */
    method Write(payload: bytes) returns (written: nat, failed: bool)
      modifies this
      ensures written <= |payload| && sent == old(sent) + payload[..written]
    {
      written :| written <= |payload|;
      failed := *;
      sent := sent + payload[..written];
    }
  }

  /** Writes until everything is accepted. On an error a proper or full prefix was sent. */
  method WriteAll(w: Writer, payload: bytes) returns (ok: bool, ghost sent: nat)
    modifies w
    ensures sent <= |payload| && w.sent == old(w.sent) + payload[..sent]
    ensures ok ==> sent == |payload|
  {
    var rest := payload;
    sent := 0;
    while |rest| > 0
      invariant sent <= |payload| && rest == payload[sent..]
      invariant w.sent == old(w.sent) + payload[..sent]
      decreases |rest|
    {
      var written, failed := w.Write(rest);
      assert payload[..sent] + rest[..written] == payload[..sent + written];
      sent := sent + written;
      if failed {
        return false, sent;
      }
      if written <= 0 {
        return false, sent;
      }
      rest := rest[written..];
    }
    ok := true;
  }

  method WriteFrame(w: Writer, payload: bytes) returns (ok: bool, ghost sent: nat)
    modifies w
    ensures sent <= |Frame(payload)| && w.sent == old(w.sent) + Frame(payload)[..sent]
    ensures ok ==> w.sent == old(w.sent) + Frame(payload)
  {
    var header := Encode32(|payload| % 0x1_0000_0000);
    ok, sent := WriteAll(w, header);
    if !ok {
      assert Frame(payload)[..sent] == header[..sent];
      return;
    }
    ghost var more: nat;
    ok, more := WriteAll(w, payload);
    sent := 4 + more;
    assert Frame(payload)[..sent] == header + payload[..more];
    assert Frame(payload)[..|Frame(payload)|] == Frame(payload);
  }

  // ---------------------------------------------------------------- reading

  datatype ReadError = NoError | EndOfFile | UnexpectedEnd | BadFrame | Failure

  class Reader {
    ghost const stream: bytes
    var pending: bytes

    ghost predicate Valid()
      reads this
    {
      |pending| <= |stream| && pending == stream[|stream| - |pending|..]
    }

    constructor (stream: bytes)
      ensures Valid() && pending == stream && this.stream == stream
    {
      this.stream := stream;
      pending := stream;
    }

    /** Delivers at least one and at most `max` bytes, the end of the stream, or a failure. */
    method Read(max: nat) returns (chunk: bytes, err: ReadError)
      requires Valid() && max > 0
      modifies this
      ensures Valid() && old(pending) == chunk + pending && |chunk| <= max
      ensures err == NoError <==> chunk != []
      ensures err == EndOfFile ==> pending == []
      ensures err == NoError || err == EndOfFile || err == Failure
    {
      if * {
        return [], Failure;
      }
      if pending == [] {
        return [], EndOfFile;
      }
      var n :| 1 <= n <= max && n <= |pending|;
      chunk, pending := pending[..n], pending[n..];
      err := NoError;
    }
  }

  lemma ConcatMoves(a: bytes, b: bytes, c: bytes)
    ensures a + (b + c) == (a + b) + c
  {
  }

  /** Reads exactly `count` bytes, however the reader splits them, or reports why it cannot. */
  method ReadFull(r: Reader, count: nat) returns (data: bytes, err: ReadError)
    requires r.Valid()
    modifies r
    ensures r.Valid() && old(r.pending) == data + r.pending && |data| <= count
    ensures err == NoError <==> |data| == count
    ensures err == EndOfFile ==> data == [] && r.pending == []
    ensures err == UnexpectedEnd ==> data != [] && r.pending == []
    ensures err != BadFrame
  {
    data := [];
    while |data| < count
      invariant r.Valid() && old(r.pending) == data + r.pending && |data| <= count
      decreases count - |data|
    {
      var chunk, e := r.Read(count - |data|);
      ConcatMoves(data, chunk, r.pending);
      data := data + chunk;
      if e == EndOfFile {
        return data, if data == [] then EndOfFile else UnexpectedEnd;
      }
      if e == Failure {
        return data, Failure;
      }
    }
    err := NoError;
  }

  /** Reads one frame; `progress` counts the bytes consumed. Unless the reader itself fails, the
      outcome is the one `Decode` gives for everything still to come. */
  method ReadFrameProgress(r: Reader) returns (frame: Option<bytes>, progress: nat, err: ReadError)
    requires r.Valid()
    modifies r
    ensures r.Valid() && progress <= |old(r.pending)| && r.pending == old(r.pending)[progress..]
    ensures frame.Some? <==> err == NoError
    ensures err == NoError ==> Decode(old(r.pending)) == Payload(frame.value, r.pending)
    ensures err == BadFrame ==> Decode(old(r.pending)).BadLength? && progress == 4
    ensures err == EndOfFile || err == UnexpectedEnd ==> Decode(old(r.pending)).Incomplete? && r.pending == []
  {
    var header, e := ReadFull(r, 4);
    if e != NoError {
      return None, |header|, e;
    }
    assert old(r.pending)[..4] == header;
    var length := Decode32(header);
    if length == 0 || length > MAX_FRAME {
      return None, 4, BadFrame;
    }
    var body, e' := ReadFull(r, length);
    progress, err := 4 + |body|, e';
    frame := if e' == NoError then Some(body) else None;
    assert old(r.pending) == header + body + r.pending;
  }

  // ---------------------------------------------------------------- both ends together

  lemma {:induction false} EncodeSnoc(payloads: seq<bytes>, p: bytes)
    ensures EncodeAll(payloads + [p]) == EncodeAll(payloads) + Frame(p)
  {
    if payloads == [] {
      assert [p][1..] == [];
    } else {
      assert (payloads + [p])[1..] == payloads[1..] + [p];
      EncodeSnoc(payloads[1..], p);
    }
  }

  lemma DecodeAllNext(stream: bytes)
    ensures match Decode(stream)
      case Payload(frame, rest) => |rest| < |stream| && DecodeAll(stream) == [frame] + DecodeAll(rest)
      case _ => DecodeAll(stream) == []
  {
    hide Encode32, Decode32;
  }

  /** Reads frames until the stream ends or cannot be read on. */
  method ReceiveAll(r: Reader) returns (frames: seq<bytes>, err: ReadError)
    requires r.Valid()
    modifies r
    ensures err != NoError
    ensures err != Failure ==> frames == DecodeAll(old(r.pending))
  {
    hide Decode, DecodeAll;
    frames := [];
    while true
      invariant r.Valid() && DecodeAll(old(r.pending)) == frames + DecodeAll(r.pending)
      decreases |r.pending|
    {
      DecodeAllNext(r.pending);
      var frame, _, e := ReadFrameProgress(r);
      if e != NoError {
        return frames, e;
      }
      frames := frames + [frame.value];
    }
  }

  /** Whatever short writes the one side makes and however the other side's reads are split: if no
      write and no read fails, the payloads arrive unchanged. */
  method Relay(payloads: seq<bytes>) returns (arrived: seq<bytes>, ok: bool)
    requires forall i :: 0 <= i < |payloads| ==> Sendable(payloads[i])
    ensures ok ==> arrived == payloads
  {
    var w := new Writer();
    for i := 0 to |payloads|
      invariant w.sent == EncodeAll(payloads[..i])
    {
      var written, _ := WriteFrame(w, payloads[i]);
      if !written {
        return [], false;
      }
      EncodeSnoc(payloads[..i], payloads[i]);
      assert payloads[..i + 1] == payloads[..i] + [payloads[i]];
    }
    assert payloads[..|payloads|] == payloads;
    var r := new Reader(w.sent);
    var err;
    arrived, err := ReceiveAll(r);
    ok := err != Failure;
    assert EncodeAll(payloads) + [] == EncodeAll(payloads);
    FramesRoundTrip(payloads, []);
  }
}
