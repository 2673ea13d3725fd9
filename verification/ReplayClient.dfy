/**
 The replay tool's side of the session: the commands it sends for one stored message, and
 the proof that the Milter answers each of them the way the tool expects.
 */
module ReplayClient {
  import opened NetworkAddress
  import opened Options
  import opened Payloads
  import opened Session
  import opened SessionRuns
  import opened Wire
  import M = Message

  const CHUNK: nat := 65536

  /** What the tool sends for one message. Header names and values may still contain NULs. */
  datatype Job = Job(connectPayload: bytes, helo: bytes, sender: bytes, recipient: bytes, headers: seq<Header>, body: bytes)

  function Send(command: byte, payload: bytes): Input { Input(command, payload, true) }

  function StripNul(s: bytes): (r: bytes)
    ensures NoNul(r)
  {
    if s == [] then [] else (if s[0] == 0 then [] else [s[0]]) + StripNul(s[1..])
  }

  /** Stripping byte by byte: NULs go, all else stays. */
  lemma {:induction false} StripByte(s: bytes, b: byte)
    ensures StripNul([]) == []
    ensures StripNul(s + [b]) == StripNul(s) + if b == 0 then [] else [b]
  {
    if s == [] {
      assert [] + [b] == [b] && [b][1..] == [];
    } else {
      StripByte(s[1..], b);
      assert (s + [b])[1..] == s[1..] + [b];
    }
  }

  function Clean(h: Header): Header { Header(StripNul(h.name), StripNul(h.value)) }

  function HeaderInputs(hs: seq<Header>): seq<Input>
  {
    if hs == [] then []
    else HeaderInputs(hs[..|hs| - 1]) + [Send(HEADER, HeaderPayload(Clean(hs[|hs| - 1]).name, Clean(hs[|hs| - 1]).value))]
  }

  /** The body in pieces of 64 KiB. */
  function Chunks(body: bytes): seq<bytes>
    decreases |body|
  {
    if body == [] then [] else if |body| <= CHUNK then [body] else [body[..CHUNK]] + Chunks(body[CHUNK..])
  }

  function BodyInputs(chunks: seq<bytes>): seq<Input>
  {
    if chunks == [] then [] else BodyInputs(chunks[..|chunks| - 1]) + [Send(BODY, chunks[|chunks| - 1])]
  }

  /** An address in angle brackets, as the tool puts it into MAIL and RCPT. */
  function Bracketed(address: bytes): bytes { [60] + address + [62] }

  function Opening(job: Job): seq<Input>
  {
    [Send(NEGOTIATE, Encode32(6) + Encode32(0) + Encode32(0)), Send(CONNECT, job.connectPayload), Send(HELO, job.helo + [0]),
     Send(ABORT, []), Send(HELO, job.helo + [0]),
     Send(MAIL, Bracketed(job.sender) + [0]), Send(RECIPIENT, Bracketed(job.recipient) + [0])]
  }

  function UpToEndOfBody(job: Job): seq<Input>
  {
    Opening(job) + HeaderInputs(job.headers) + [Send(END_HEADERS, [])] + BodyInputs(Chunks(job.body))
  }

  function Script(job: Job): seq<Input> { UpToEndOfBody(job) + [Send(END_BODY, [])] }

  /** The commands before the first header, byte for byte. */
  lemma OpeningBytes(job: Job)
    ensures Opening(job) ==
      [Input(79, [0, 0, 0, 6, 0, 0, 0, 0, 0, 0, 0, 0], true), Input(67, job.connectPayload, true), Input(72, job.helo + [0], true),
       Input(65, [], true), Input(72, job.helo + [0], true), Input(77, [60] + job.sender + [62, 0], true),
       Input(82, [60] + job.recipient + [62, 0], true)]
  {
    assert Encode32(6) == [0, 0, 0, 6] && Encode32(0) == [0, 0, 0, 0];
    assert Encode32(6) + Encode32(0) + Encode32(0) == [0, 0, 0, 6, 0, 0, 0, 0, 0, 0, 0, 0];
    assert Bracketed(job.sender) + [0] == [60] + job.sender + [62, 0];
    assert Bracketed(job.recipient) + [0] == [60] + job.recipient + [62, 0];
  }

  /** Every piece of the body but the last has 65536 bytes, and no piece is empty. */
  lemma {:induction false} PieceSizes(body: bytes)
    ensures forall i :: 0 <= i < |Chunks(body)| ==> 1 <= |Chunks(body)[i]| <= 65536
    ensures forall i :: 0 <= i < |Chunks(body)| - 1 ==> |Chunks(body)[i]| == 65536
    decreases |body|
  {
    if |body| > CHUNK {
      PieceSizes(body[CHUNK..]);
    }
  }

  /** All answers of a run, in order. */
  function Answers(env: Env, s: State, inputs: seq<Input>): seq<bytes>
  {
    if inputs == [] then []
    else
      var front := inputs[..|inputs| - 1];
      Answers(env, s, front)
      + match After(env, s, front) case Some(t) => Step(env, t, inputs[|inputs| - 1]).answers case None => []
  }

  lemma {:induction false} AnswersConcat(env: Env, s: State, a: seq<Input>, b: seq<Input>)
    requires After(env, s, a).Some?
    ensures Answers(env, s, a + b) == Answers(env, s, a) + Answers(env, After(env, s, a).value, b)
    decreases |b|
  {
    hide Step;
    if b == [] {
      assert a + b == a;
    } else {
      var front := b[..|b| - 1];
      assert (a + b)[..|a + b| - 1] == a + front;
      AnswersConcat(env, s, a, front);
      AfterConcat(env, s, a, front);
    }
  }

  predicate AllContinue(answers: seq<bytes>)
  {
    forall i :: 0 <= i < |answers| ==> answers[i] == CONTINUE_REPLY
  }

  // ---------------------------------------------------------------- cutting the body

  lemma {:induction false} ConcatCons(first: bytes, more: seq<bytes>)
    ensures M.Concat([first] + more) == first + M.Concat(more)
    decreases |more|
  {
    var all := [first] + more;
    if more == [] {
      assert all[..0] == [];
    } else {
      assert all[..|all| - 1] == [first] + more[..|more| - 1];
      ConcatCons(first, more[..|more| - 1]);
    }
  }

  /** The pieces make up the body again. */
  lemma {:induction false} ChunksAreTheBody(body: bytes)
    ensures M.Concat(Chunks(body)) == body
    decreases |body|
  {
    if body != [] {
      if |body| <= CHUNK {
        assert [body][..0] == [];
      } else {
        ChunksAreTheBody(body[CHUNK..]);
        ConcatCons(body[..CHUNK], Chunks(body[CHUNK..]));
        assert body == body[..CHUNK] + body[CHUNK..];
      }
    }
  }

  // ---------------------------------------------------------------- one command after another

  lemma Nothing(env: Env, s: State)
    ensures After(env, s, []) == Some(s) && Answers(env, s, []) == []
  {
  }

  lemma AfterOne(env: Env, s: State, inputs: seq<Input>, i: Input)
    ensures After(env, s, inputs + [i]).Some? <==>
      After(env, s, inputs).Some? && Step(env, After(env, s, inputs).value, i).Continues?
  {
    hide Step;
    assert (inputs + [i])[..|inputs|] == inputs;
  }

  /** One more command that continues. */
  lemma Extend(env: Env, s: State, inputs: seq<Input>, t: State, i: Input, u: State, answers: seq<bytes>)
    requires After(env, s, inputs) == Some(t) && Step(env, t, i) == Continues(u, answers, [])
    ensures After(env, s, inputs + [i]) == Some(u)
    ensures Answers(env, s, inputs + [i]) == Answers(env, s, inputs) + answers
  {
    hide Step;
    assert (inputs + [i])[..|inputs|] == inputs;
  }

  // ---------------------------------------------------------------- the headers and the body

  function CleanAll(hs: seq<Header>): seq<Header> { seq(|hs|, i requires 0 <= i < |hs| => Clean(hs[i])) }

  predicate AllNamed(hs: seq<Header>) { forall i :: 0 <= i < |hs| ==> Clean(hs[i]).name != [] }

  function WithHeaders(env: Env, s: State, hs: seq<Header>): State
  {
    s.(txn := s.txn.(message := M.WithHeaders(env.rules, s.txn.message, CleanAll(hs))))
  }

  /** The header commands survive exactly when every name is non-empty once NULs are removed. */
  lemma {:induction false} HeadersSurvive(env: Env, s: State, hs: seq<Header>)
    requires s.phase == Envelope
    ensures After(env, s, HeaderInputs(hs)).Some? <==> AllNamed(hs)
    ensures AllNamed(hs) ==> After(env, s, HeaderInputs(hs)) == Some(WithHeaders(env, s, hs))
    ensures AllNamed(hs) ==> AllContinue(Answers(env, s, HeaderInputs(hs)))
  {
    hide ParseHeader, HeaderPayload, StripNul, M.WithHeader, Step, After, Answers, Clean;
    var all := HeaderInputs(hs);
    Nothing(env, s);
    if hs == [] {
      assert CleanAll(hs) == [];
    } else {
      var front, last := hs[..|hs| - 1], hs[|hs| - 1];
      HeadersSurvive(env, s, front);
      assert all[..|all| - 1] == HeaderInputs(front);
      assert CleanAll(hs)[..|hs| - 1] == CleanAll(front);
      assert AllNamed(hs) <==> AllNamed(front) && Clean(last).name != [];
      var i := Send(HEADER, HeaderPayload(Clean(last).name, Clean(last).value));
      assert all == HeaderInputs(front) + [i];
      AfterOne(env, s, HeaderInputs(front), i);
      if AllNamed(front) {
        CleanParts(last);
        HeaderAccepted(env, WithHeaders(env, s, front), Clean(last));
        if AllNamed(hs) {
          Extend(env, s, HeaderInputs(front), WithHeaders(env, s, front), i, WithHeaders(env, s, hs), [CONTINUE_REPLY]);
        }
      }
    }
  }

  lemma CleanParts(h: Header)
    ensures NoNul(Clean(h).name) && NoNul(Clean(h).value)
  {
  }

  lemma HeaderAccepted(env: Env, s: State, h: Header)
    requires s.phase == Envelope && NoNul(h.name) && NoNul(h.value)
    ensures var r := Step(env, s, Send(HEADER, HeaderPayload(h.name, h.value)));
      if h.name == [] then r == ProtocolError()
      else r == Continues(s.(txn := s.txn.(message := M.WithHeader(env.rules, s.txn.message, h))), [CONTINUE_REPLY], [])
  {
    hide ParseHeader, HeaderPayload, M.WithHeader;
    ParseHeaderIff(HeaderPayload(h.name, h.value), h.name, h.value);
    if h.name == [] {
      EmptyNameFails(h.value);
    }
  }

  lemma EmptyNameFails(value: bytes)
    ensures ParseHeader(HeaderPayload([], value)).None?
  {
    assert HeaderPayload([], value)[0] == 0;
  }

  function WithChunks(s: State, chunks: seq<bytes>): State
  {
    s.(txn := s.txn.(message := M.WithBodies(s.txn.message, chunks)))
  }

  lemma {:induction false} BodySurvives(env: Env, s: State, chunks: seq<bytes>)
    requires s.phase == Body
    ensures After(env, s, BodyInputs(chunks)) == Some(WithChunks(s, chunks))
    ensures AllContinue(Answers(env, s, BodyInputs(chunks)))
  {
    hide M.WithBody, Step, After, Answers;
    Nothing(env, s);
    if chunks != [] {
      var front, last := chunks[..|chunks| - 1], chunks[|chunks| - 1];
      BodySurvives(env, s, front);
      ChunkAccepted(env, WithChunks(s, front), last);
      Extend(env, s, BodyInputs(front), WithChunks(s, front), Send(BODY, last), WithChunks(s, chunks), [CONTINUE_REPLY]);
    }
  }

  lemma ChunkAccepted(env: Env, s: State, chunk: bytes)
    requires s.phase == Body
    ensures Step(env, s, Send(BODY, chunk))
         == Continues(s.(txn := s.txn.(message := M.WithBody(s.txn.message, chunk))), [CONTINUE_REPLY], [])
  {
    hide M.WithBody;
  }

  // ---------------------------------------------------------------- the whole script

  /** The addresses are plain text, the peer is not blocked and the recipient is not refused. */
  predicate Welcome(env: Env, job: Job)
  {
    && NoNul(job.sender) && NoNul(job.recipient)
    && !(env.enforce && env.blocked(ConnectIP(env.parseIP, job.connectPayload)))
    && !(env.commandRecipient(Bracketed(job.recipient)) && env.denial(NO_AUTH, Bracketed(job.sender)).Some?)
  }

  lemma AddressParses(address: bytes)
    requires NoNul(address)
    ensures ParseEnvelopeAddress(Bracketed(address) + [0]) == Some(Bracketed(address))
  {
    hide FirstNul;
    var b := Bracketed(address);
    assert NoNul(b);
    assert b + [0] == b + [0] + [];
    FirstNulOf(b, []);
  }

  /** The connection after the opening commands. */
  function OpenedConn(env: Env, job: Job): Conn
  {
    Helo(env, Helo(env, Connected(env, NO_CONN, job.connectPayload), job.helo + [0]), job.helo + [0])
  }

  function OpenedState(env: Env, job: Job): State
  {
    State(Envelope, OpenedConn(env, job), FreshTxn(env).(sender := Bracketed(job.sender), recipients := [Bracketed(job.recipient)]))
  }

  lemma NegotiationAccepted(env: Env)
    ensures Step(env, Initial(env), Send(NEGOTIATE, Encode32(6) + Encode32(0) + Encode32(0)))
         == Continues(Initial(env).(phase := Connection), [OptionAnswer(6)], [])
  {
    hide Encode32, Decode32;
    Decode32Encode32(6);
    assert (Encode32(6) + Encode32(0) + Encode32(0))[..4] == Encode32(6);
  }

  function GreetedState(env: Env, job: Job): State { State(Connection, OpenedConn(env, job), FreshTxn(env)) }

  lemma GreetingAccepted(env: Env, job: Job)
    ensures After(env, Initial(env), Opening(job)[..5]) == Some(GreetedState(env, job))
    ensures Answers(env, Initial(env), Opening(job)[..5]) == [OptionAnswer(6), CONTINUE_REPLY, CONTINUE_REPLY, CONTINUE_REPLY]
  {
    hide After, Answers, Encode32, Bracketed, Helo, Connected, OptionAnswer;
    var o := Opening(job);
    var s0 := Initial(env);
    var none: seq<Input> := [];
    Nothing(env, s0);
    NegotiationAccepted(env);
    var s1 := s0.(phase := Connection);
    Extend(env, s0, none, s0, o[0], s1, [OptionAnswer(6)]);
    var s2 := s1.(conn := Connected(env, NO_CONN, job.connectPayload));
    Extend(env, s0, none + [o[0]], s1, o[1], s2, [CONTINUE_REPLY]);
    var s3 := s2.(conn := Helo(env, s2.conn, job.helo + [0]));
    Extend(env, s0, none + [o[0]] + [o[1]], s2, o[2], s3, [CONTINUE_REPLY]);
    Extend(env, s0, none + [o[0]] + [o[1]] + [o[2]], s3, o[3], s3, []);
    Extend(env, s0, none + [o[0]] + [o[1]] + [o[2]] + [o[3]], s3, o[4], GreetedState(env, job), [CONTINUE_REPLY]);
    assert o[..5] == none + [o[0]] + [o[1]] + [o[2]] + [o[3]] + [o[4]];
  }

  lemma OpeningAccepted(env: Env, job: Job)
    requires Welcome(env, job)
    ensures Run(env, Opening(job)) == Some(OpenedState(env, job))
    ensures Answers(env, Initial(env), Opening(job))
         == [OptionAnswer(6), CONTINUE_REPLY, CONTINUE_REPLY, CONTINUE_REPLY, CONTINUE_REPLY, CONTINUE_REPLY]
  {
    hide After, Answers, Encode32, ParseEnvelopeAddress, Bracketed, Helo, Connected, OptionAnswer;
    var o, s0, s4 := Opening(job), Initial(env), GreetedState(env, job);
    GreetingAccepted(env, job);
    AddressParses(job.sender);
    AddressParses(job.recipient);
    var c := Connected(env, NO_CONN, job.connectPayload);
    ConnectedParts(env, job.connectPayload);
    HeloParts(env, c, job.helo + [0]);
    HeloParts(env, Helo(env, c, job.helo + [0]), job.helo + [0]);
    var s5 := s4.(phase := Envelope, txn := FreshTxn(env).(sender := Bracketed(job.sender)));
    Extend(env, s0, o[..5], s4, o[5], s5, [CONTINUE_REPLY]);
    var s6 := OpenedState(env, job);
    assert AddRecipient(s5.txn, Bracketed(job.recipient)) == s6.txn;
    Extend(env, s0, o[..5] + [o[5]], s5, o[6], s6, [CONTINUE_REPLY]);
    assert o == o[..5] + [o[5]] + [o[6]];
  }

  lemma ConnectedParts(env: Env, payload: bytes)
    ensures Connected(env, NO_CONN, payload).peerIP == ConnectIP(env.parseIP, payload) && Connected(env, NO_CONN, payload).auth == NO_AUTH
  {
  }

  lemma HeloParts(env: Env, c: Conn, payload: bytes)
    ensures Helo(env, c, payload).peerIP == c.peerIP && Helo(env, c, payload).auth == c.auth
  {
  }

  /** A welcome script whose header names are all usable reaches the end of the body with every command answered as
      the tool expects, and the message then judged is the one that was stored: its cleaned headers, and the first
      `maxBytes` bytes of its body. With an unusable name it fails. */
  lemma ScriptIsAnswered(env: Env, job: Job)
    requires Welcome(env, job)
    ensures Run(env, Script(job)).Some? <==> AllNamed(job.headers)
    ensures AllNamed(job.headers) ==>
      var end := Run(env, UpToEndOfBody(job));
      var answers := Answers(env, Initial(env), Script(job));
      && end.Some? && end.value.phase == Body && end.value.conn == OpenedConn(env, job)
      && end.value.txn.sender == Bracketed(job.sender) && end.value.txn.recipients == [Bracketed(job.recipient)]
      && end.value.txn.message.headers == M.WithHeaders(env.rules, M.New(env.maxBytes), CleanAll(job.headers)).headers
      && end.value.txn.message.body == M.Take(job.body, env.maxBytes)
      && |answers| > 1 && answers[0] == OptionAnswer(6) && AllContinue(answers[1..|answers| - 1])
      && answers[|answers| - 1] == Decide(env, end.value).answer
      && Run(env, Script(job)) == Some(State(Connection, OpenedConn(env, job), FreshTxn(env)))
  {
    hide After, Answers, Opening, HeaderInputs, BodyInputs, Chunks, Decide, M.WithHeaders, M.WithBodies, AllNamed, CleanAll, OptionAnswer;
    var s0, s1 := Initial(env), OpenedState(env, job);
    var opening, hs, cs := Opening(job), HeaderInputs(job.headers), BodyInputs(Chunks(job.body));
    OpeningAccepted(env, job);
    HeadersSurvive(env, s1, job.headers);
    AfterConcat(env, s0, opening, hs);
    var endHeaders, endBody := Send(END_HEADERS, []), Send(END_BODY, []);
    if AllNamed(job.headers) {
      var s2 := WithHeaders(env, s1, job.headers);
      AnswersConcat(env, s0, opening, hs);
      var s3 := s2.(phase := Body);
      Extend(env, s0, opening + hs, s2, endHeaders, s3, [CONTINUE_REPLY]);
      BodySurvives(env, s3, Chunks(job.body));
      var s4 := WithChunks(s3, Chunks(job.body));
      AfterConcat(env, s0, opening + hs + [endHeaders], cs);
      AnswersConcat(env, s0, opening + hs + [endHeaders], cs);
      Finish(env, s0, UpToEndOfBody(job), s4);
      MessageArrives(env, job, s2.txn.message, s4.txn.message);
      assert Answers(env, s0, Script(job)) == [OptionAnswer(6)]
        + ([CONTINUE_REPLY, CONTINUE_REPLY, CONTINUE_REPLY, CONTINUE_REPLY, CONTINUE_REPLY] + Answers(env, s1, hs)
           + [CONTINUE_REPLY] + Answers(env, s3, cs)) + [Decide(env, s4).answer];
    } else {
      AfterConcat(env, s0, opening + hs, [endHeaders]);
      AfterConcat(env, s0, opening + hs + [endHeaders], cs);
      AfterConcat(env, s0, UpToEndOfBody(job), [endBody]);
    }
  }

  lemma Finish(env: Env, s: State, inputs: seq<Input>, t: State)
    requires After(env, s, inputs) == Some(t) && t.phase == Body
    ensures After(env, s, inputs + [Send(END_BODY, [])]) == Some(Reset(env, t, Connection))
    ensures Answers(env, s, inputs + [Send(END_BODY, [])]) == Answers(env, s, inputs) + [Decide(env, t).answer]
  {
    hide Decide;
    assert (inputs + [Send(END_BODY, [])])[..|inputs|] == inputs;
  }

  lemma MessageArrives(env: Env, job: Job, m: M.State, m': M.State)
    requires m == M.WithHeaders(env.rules, M.New(env.maxBytes), CleanAll(job.headers)) && m' == M.WithBodies(m, Chunks(job.body))
    ensures m'.headers == m.headers && m'.body == M.Take(job.body, env.maxBytes)
  {
    hide M.WithHeaders, M.WithBodies, Chunks;
    HeadersLeaveBody(env, CleanAll(job.headers));
    M.BodyIsPrefix(m, Chunks(job.body));
    ChunksAreTheBody(job.body);
  }

  // ---------------------------------------------------------------- over the wire

  function FrameOf(i: Input): bytes { [i.command] + i.payload }

  function Frames(inputs: seq<Input>): seq<bytes> { seq(|inputs|, i requires 0 <= i < |inputs| => FrameOf(inputs[i])) }

  /** A frame as the session takes it apart. */
  function InputOf(frame: bytes): Input { if frame == [] then Send(0, []) else Send(frame[0], frame[1..]) }

  function InputsOf(frames: seq<bytes>): seq<Input> { seq(|frames|, i requires 0 <= i < |frames| => InputOf(frames[i])) }

  /** Where the session stands after a replay; None when the tool cannot pack a length, or a frame is refused, or the
      session ends on the way. */
  function Replay(env: Env, job: Job): Option<State>
  {
    var frames := Frames(Script(job));
    if exists i :: 0 <= i < |frames| && |frames[i]| >= 0x1_0000_0000 then None
    else
      var received := DecodeAll(EncodeAll(frames));
      if |received| < |frames| then None else Run(env, InputsOf(received))
  }

  predicate AllSent(inputs: seq<Input>) { forall i :: 0 <= i < |inputs| ==> inputs[i].sent }

  lemma FramesAreInputs(inputs: seq<Input>)
    requires AllSent(inputs)
    ensures InputsOf(Frames(inputs)) == inputs
  {
    forall i | 0 <= i < |inputs| ensures InputOf(FrameOf(inputs[i])) == inputs[i] {
      assert FrameOf(inputs[i])[1..] == inputs[i].payload;
    }
  }

  lemma {:induction false} HeadersAreSent(hs: seq<Header>)
    ensures AllSent(HeaderInputs(hs))
  {
    hide HeaderPayload, Clean;
    if hs != [] {
      HeadersAreSent(hs[..|hs| - 1]);
    }
  }

  lemma {:induction false} ChunksAreSent(chunks: seq<bytes>)
    ensures AllSent(BodyInputs(chunks))
  {
    if chunks != [] {
      ChunksAreSent(chunks[..|chunks| - 1]);
    }
  }

  lemma ScriptIsSent(job: Job)
    ensures AllSent(Script(job))
  {
    hide Encode32, Bracketed, Chunks, HeaderInputs, BodyInputs;
    HeadersAreSent(job.headers);
    ChunksAreSent(Chunks(job.body));
  }

  /** A welcome replay succeeds if and only if every header name is usable and every command with its payload fits
      into a frame. Then the session has seen exactly the script: each command is answered as the tool expects, and
      the message judged is the stored one. */
  lemma ReplayIsFaithful(env: Env, job: Job)
    requires Welcome(env, job)
    ensures Replay(env, job).Some? <==> AllNamed(job.headers) && AllSendable(Frames(Script(job)))
    ensures Replay(env, job).Some? ==>
      var end := Run(env, UpToEndOfBody(job));
      var answers := Answers(env, Initial(env), Script(job));
      && Replay(env, job) == Run(env, Script(job))
      && end.Some? && end.value.phase == Body && end.value.conn == OpenedConn(env, job)
      && end.value.txn.sender == Bracketed(job.sender) && end.value.txn.recipients == [Bracketed(job.recipient)]
      && end.value.txn.message.headers == M.WithHeaders(env.rules, M.New(env.maxBytes), CleanAll(job.headers)).headers
      && end.value.txn.message.body == M.Take(job.body, env.maxBytes)
      && |answers| > 1 && answers[0] == OptionAnswer(6) && AllContinue(answers[1..|answers| - 1])
      && answers[|answers| - 1] == Decide(env, end.value).answer
      && Run(env, Script(job)) == Some(State(Connection, OpenedConn(env, job), FreshTxn(env)))
  {
    hide After, Run, Answers, Script, UpToEndOfBody, Decide, M.WithHeaders, AllNamed, CleanAll, OptionAnswer, Frames, DecodeAll, EncodeAll,
      InputsOf, OpenedConn, Bracketed;
    var frames := Frames(Script(job));
    ScriptIsAnswered(env, job);
    ScriptIsSent(job);
    FramesAreInputs(Script(job));
    if forall i :: 0 <= i < |frames| ==> |frames[i]| < 0x1_0000_0000 {
      AllArriveIff(frames);
    } else {
      var i :| 0 <= i < |frames| && |frames[i]| >= 0x1_0000_0000;
      assert !Sendable(frames[i]);
    }
  }

  /** A usable header too long for a frame: the session takes every command, but never this one. */
  lemma LongHeaderFails(env: Env, job: Job, value: bytes)
    requires Welcome(env, job) && job.headers == [Header([65], value)] && NoNul(value) && |value| >= MAX_FRAME
    ensures AllNamed(job.headers) && Run(env, Script(job)).Some? && Replay(env, job).None?
  {
    hide Run, Script;
    var h := Header([65], value);
    StripNothing([65]);
    StripNothing(value);
    ScriptIsAnswered(env, job);
    ReplayIsFaithful(env, job);
    var at := |Opening(job)|;
    HeaderInScript(job, at);
    assert Frames(Script(job))[at] == FrameOf(Script(job)[at]);
  }

  lemma {:induction false} StripNothing(s: bytes)
    requires NoNul(s)
    ensures StripNul(s) == s
  {
    if s != [] {
      StripNothing(s[1..]);
    }
  }

  lemma HeaderInScript(job: Job, at: nat)
    requires |job.headers| == 1 && at == |Opening(job)|
    ensures at < |Script(job)|
    ensures Script(job)[at] == Send(HEADER, HeaderPayload(Clean(job.headers[0]).name, Clean(job.headers[0]).value))
  {
    hide Encode32, Bracketed, Chunks, BodyInputs, HeaderPayload, Clean, Opening;
    var hs := HeaderInputs(job.headers);
    assert HeaderInputs(job.headers[..0]) == [];
    assert hs == [Send(HEADER, HeaderPayload(Clean(job.headers[0]).name, Clean(job.headers[0]).value))];
  }
}
