/** The socket reader: frames of a 53-byte text header and a payload, put together from whatever sizes
    the socket delivers. The text parse of a header is a function the model leaves open. */
module SocketReader {
  import opened Common
  import opened Wire

  const BUFFER_SIZE := 4096
  const HEADER_LENGTH_SIZE := 53

  type word32 = x: int | 0 <= x < 0x1_0000_0000

  type MessageType = nat

  datatype Header = Header(payloadLength: int32, messageType: MessageType)

  type HeaderParse = bytes -> Option<Header>

  datatype Message = Message(messageType: MessageType, data: bytes)

  /** The payload length is signed in the header and unsigned everywhere else. */
  function Unsigned(n: int32): word32 { n % 0x1_0000_0000 }

  /** The length of the frame, in unsigned arithmetic. */
  function Expected(h: Header): word32 { (HEADER_LENGTH_SIZE + Unsigned(h.payloadLength)) % 0x1_0000_0000 }

  // ----- the reader, as values -----

  /** `held` is what was received of the current frame. */
  datatype State = State(messageType: MessageType, held: bytes, payloadLength: word32, expected: word32)

  function Fresh(t: MessageType): State { State(t, [], 0, HEADER_LENGTH_SIZE) }

  /** How much the next receive asks for. */
  function Wanted(st: State): int { st.expected - |st.held| }

  function Extracted(parse: HeaderParse, st: State): State {
    if |st.held| >= HEADER_LENGTH_SIZE && st.payloadLength == 0 then
      match parse(st.held[..HEADER_LENGTH_SIZE])
      case None => st
      case Some(h) =>
        st.(payloadLength := Unsigned(h.payloadLength),
            expected := (st.expected + Unsigned(h.payloadLength)) % 0x1_0000_0000,
            messageType := h.messageType)
    else st
  }

  function Complete(st: State): bool { |st.held| > 0 && |st.held| >= st.expected }

  function Data(st: State): bytes {
    Cut(if st.payloadLength == 0 || |st.held| < HEADER_LENGTH_SIZE then st.held else st.held[HEADER_LENGTH_SIZE..])
  }

  datatype Result = Result(messages: seq<Message>, state: State)

  function Dispatched(st: State): Result {
    if Complete(st) then Result([Message(st.messageType, Data(st))], Fresh(st.messageType)) else Result([], st)
  }

  function Step(parse: HeaderParse, st: State, chunk: bytes): Result {
    Dispatched(Extracted(parse, st.(held := st.held + chunk)))
  }

  function Flatten(chunks: seq<bytes>): bytes {
    if chunks == [] then [] else Flatten(chunks[..|chunks| - 1]) + chunks[|chunks| - 1]
  }

  function Run(parse: HeaderParse, st: State, chunks: seq<bytes>): Result {
    if chunks == [] then Result([], st)
    else
      var before := Run(parse, st, chunks[..|chunks| - 1]);
      var now := Step(parse, before.state, chunks[|chunks| - 1]);
      Result(before.messages + now.messages, now.state)
  }

  /** No receive returns more than was asked for. */
  predicate Received(parse: HeaderParse, st: State, chunks: seq<bytes>) {
    chunks != [] ==>
      var front := chunks[..|chunks| - 1];
      Received(parse, st, front) && |chunks[|chunks| - 1]| <= Wanted(Run(parse, st, front).state)
  }

  // ----- the reference: whole frames, one after the other -----

  /** `rest` is the beginning of a frame that is not complete yet; `oversized` says that the next frame
      does not fit the buffer. */
  datatype Outcome = Outcome(messages: seq<Message>, messageType: MessageType, rest: bytes, oversized: bool)

  /** What a stream begins with: too little to tell, part of a frame, a frame that does not fit, or a
      whole frame of `size` bytes. */
  datatype Front =
    | Short
    | Part(messageType: MessageType)
    | Oversized(messageType: MessageType)
    | Whole(message: Message, size: nat)

  /** A header that does not parse, or announces nothing, is itself the message. */
  function FrontOf(parse: HeaderParse, t: MessageType, s: bytes): (f: Front)
    ensures f.Whole? ==> HEADER_LENGTH_SIZE <= f.size <= |s|
  {
    if |s| < HEADER_LENGTH_SIZE then Short
    else
      var header := s[..HEADER_LENGTH_SIZE];
      match parse(header)
      case None => Whole(Message(t, Cut(header)), HEADER_LENGTH_SIZE)
      case Some(h) =>
        var end := Expected(h);
        if end >= BUFFER_SIZE then Oversized(h.messageType)
        else if end <= HEADER_LENGTH_SIZE then
          Whole(Message(h.messageType, if h.payloadLength == 0 then Cut(header) else []), HEADER_LENGTH_SIZE)
        else if |s| < end then Part(h.messageType)
        else Whole(Message(h.messageType, Cut(s[HEADER_LENGTH_SIZE..end])), end)
  }

  function Frames(parse: HeaderParse, t: MessageType, s: bytes): Outcome
    decreases |s|
  {
    match FrontOf(parse, t, s)
    case Short => Outcome([], t, s, false)
    case Part(next) => Outcome([], next, s, false)
    case Oversized(next) => Outcome([], next, s, true)
    case Whole(m, n) =>
      var o := Frames(parse, m.messageType, s[n..]);
      o.(messages := [m] + o.messages)
  }

  /** The reader state that stands for an unfinished frame. */
  function StateOf(parse: HeaderParse, t: MessageType, rest: bytes): State {
    Extracted(parse, State(t, rest, 0, HEADER_LENGTH_SIZE))
  }

  /** The beginning of a frame that is not complete and fits the buffer. */
  predicate Unfinished(parse: HeaderParse, t: MessageType, rest: bytes) {
    match FrontOf(parse, t, rest)
    case Short => true
    case Part(next) => t == next
    case _ => false
  }

  lemma {:induction false} FramesLeave(parse: HeaderParse, t: MessageType, s: bytes)
    ensures var o := Frames(parse, t, s); !o.oversized ==> Unfinished(parse, o.messageType, o.rest)
    decreases |s|
  {
    hide Cut;
    var f := FrontOf(parse, t, s);
    if f.Whole? {
      FramesLeave(parse, f.message.messageType, s[f.size..]);
    }
  }

  /** What follows does not change a whole frame, nor the type of a frame whose header is there. */
  lemma FrontKeeps(parse: HeaderParse, t: MessageType, s: bytes, more: bytes)
    ensures var f := FrontOf(parse, t, s);
            && (f.Whole? ==> FrontOf(parse, t, s + more) == f && (s + more)[f.size..] == s[f.size..] + more)
            && (f.Oversized? ==> FrontOf(parse, t, s + more) == f)
            && (f.Part? ==> !FrontOf(parse, t, s + more).Short?
                            && FrontOf(parse, t, s + more) == FrontOf(parse, f.messageType, s + more))
  {
    hide Cut;
    if |s| >= HEADER_LENGTH_SIZE {
      assert (s + more)[..HEADER_LENGTH_SIZE] == s[..HEADER_LENGTH_SIZE];
      var f := FrontOf(parse, t, s);
      if f.Whole? {
        assert (s + more)[HEADER_LENGTH_SIZE..f.size] == s[HEADER_LENGTH_SIZE..f.size];
      }
    }
  }

  /** Parsing can stop anywhere and go on with what was left. */
  lemma {:induction false} FramesSplit(parse: HeaderParse, t: MessageType, s: bytes, more: bytes)
    requires !Frames(parse, t, s).oversized
    ensures var o := Frames(parse, t, s);
            var r := Frames(parse, o.messageType, o.rest + more);
            Frames(parse, t, s + more) == r.(messages := o.messages + r.messages)
    decreases |s|
  {
    FrontKeeps(parse, t, s, more);
    hide FrontOf;
    var f, o := FrontOf(parse, t, s), Frames(parse, t, s);
    var r := Frames(parse, o.messageType, o.rest + more);
    if f.Whole? {
      FramesSplit(parse, f.message.messageType, s[f.size..], more);
      var later := Frames(parse, f.message.messageType, s[f.size..]);
      assert [f.message] + (later.messages + r.messages) == o.messages + r.messages;
    } else {
      assert o.messages + r.messages == r.messages;
    }
  }

  /** The result of a receive after which `s` is what was received of the frame. */
  function Continued(parse: HeaderParse, t: MessageType, s: bytes): Result {
    match FrontOf(parse, t, s)
    case Whole(m, n) => Result([m], Fresh(m.messageType))
    case Part(next) => Result([], StateOf(parse, next, s))
    case _ => Result([], StateOf(parse, t, s))
  }

  /** A receive before the header is complete, or one that completes it. */
  lemma StepInHeader(parse: HeaderParse, t: MessageType, rest: bytes, chunk: bytes)
    requires |rest| < HEADER_LENGTH_SIZE && |chunk| <= Wanted(StateOf(parse, t, rest))
    requires !FrontOf(parse, t, rest + chunk).Oversized?
    ensures Step(parse, StateOf(parse, t, rest), chunk) == Continued(parse, t, rest + chunk)
  {
    var s := rest + chunk;
    assert Cut([]) == [];
    hide Cut;
    if |s| == HEADER_LENGTH_SIZE {
      assert s[..HEADER_LENGTH_SIZE] == s && s[HEADER_LENGTH_SIZE..] == [];
    }
  }

  /** A receive after the header. */
  lemma StepInPayload(parse: HeaderParse, t: MessageType, rest: bytes, chunk: bytes)
    requires |rest| >= HEADER_LENGTH_SIZE && Unfinished(parse, t, rest)
    requires |chunk| <= Wanted(StateOf(parse, t, rest))
    ensures Step(parse, StateOf(parse, t, rest), chunk) == Continued(parse, t, rest + chunk)
  {
    var s := rest + chunk;
    hide Cut;
    assert s[HEADER_LENGTH_SIZE..] == s[HEADER_LENGTH_SIZE..|s|];
    assert s[..HEADER_LENGTH_SIZE] == rest[..HEADER_LENGTH_SIZE];
  }

  /** A frame never holds more than was asked for. */
  lemma FrontIsWhole(parse: HeaderParse, t: MessageType, rest: bytes, chunk: bytes)
    requires Unfinished(parse, t, rest) && |chunk| <= Wanted(StateOf(parse, t, rest))
    ensures var f := FrontOf(parse, t, rest + chunk); f.Whole? ==> f.size == |rest + chunk|
  {
    hide Cut;
    if |rest| >= HEADER_LENGTH_SIZE {
      assert (rest + chunk)[..HEADER_LENGTH_SIZE] == rest[..HEADER_LENGTH_SIZE];
    }
  }

  /** One receive continues an unfinished frame by exactly what the reference makes of it. */
  lemma StepIsFrames(parse: HeaderParse, t: MessageType, rest: bytes, chunk: bytes)
    requires Unfinished(parse, t, rest) && |chunk| <= Wanted(StateOf(parse, t, rest))
    requires !Frames(parse, t, rest + chunk).oversized
    ensures var o := Frames(parse, t, rest + chunk);
            Step(parse, StateOf(parse, t, rest), chunk) == Result(o.messages, StateOf(parse, o.messageType, o.rest))
  {
    hide Cut;
    var s, f := rest + chunk, FrontOf(parse, t, rest + chunk);
    if |rest| < HEADER_LENGTH_SIZE {
      StepInHeader(parse, t, rest, chunk);
    } else {
      StepInPayload(parse, t, rest, chunk);
    }
    FrontIsWhole(parse, t, rest, chunk);
    if f.Whole? {
      assert s[f.size..] == [];
      assert Frames(parse, t, s) == Outcome([f.message], f.message.messageType, [], false);
    }
    hide FrontOf, Frames, Step;
  }

  /** However the stream is cut into receives: the messages are those of the reference, and the state
      left behind is the unfinished frame the reference leaves. */
  lemma {:induction false} ChunkingIndependence(parse: HeaderParse, t: MessageType, chunks: seq<bytes>)
    requires Received(parse, Fresh(t), chunks)
    requires !Frames(parse, t, Flatten(chunks)).oversized
    ensures var o := Frames(parse, t, Flatten(chunks));
            && Unfinished(parse, o.messageType, o.rest)
            && Run(parse, Fresh(t), chunks) == Result(o.messages, StateOf(parse, o.messageType, o.rest))
    decreases chunks
  {
    FramesLeave(parse, t, Flatten(chunks));
    if chunks != [] {
      var front, last := chunks[..|chunks| - 1], chunks[|chunks| - 1];
      NotOversized(parse, t, Flatten(front), last);
      var o := Frames(parse, t, Flatten(front));
      FramesSplit(parse, t, Flatten(front), last);
      hide Frames, FrontOf, Step, StateOf, Unfinished;
      ChunkingIndependence(parse, t, front);
      StepIsFrames(parse, o.messageType, o.rest, last);
    }
  }

  lemma {:induction false} NotOversized(parse: HeaderParse, t: MessageType, s: bytes, more: bytes)
    requires !Frames(parse, t, s + more).oversized
    ensures !Frames(parse, t, s).oversized
    decreases |s|
  {
    hide Cut;
    var f := FrontOf(parse, t, s);
    FrontKeeps(parse, t, s, more);
    if f.Whole? {
      NotOversized(parse, f.message.messageType, s[f.size..], more);
    }
  }

  /** Two ways of cutting the same stream give the same messages and the same state. */
  lemma {:induction false} CutsDoNotMatter(parse: HeaderParse, t: MessageType, a: seq<bytes>, b: seq<bytes>)
    requires Flatten(a) == Flatten(b) && Received(parse, Fresh(t), a) && Received(parse, Fresh(t), b)
    requires !Frames(parse, t, Flatten(a)).oversized
    ensures Run(parse, Fresh(t), a) == Run(parse, Fresh(t), b)
  {
    ChunkingIndependence(parse, t, a);
    ChunkingIndependence(parse, t, b);
  }

  // ----- senders -----

  datatype Frame = Frame(header: bytes, payload: bytes)

  predicate FrameOk(parse: HeaderParse, f: Frame) {
    && |f.header| == 53 && 0 < |f.payload| <= 4042
    && parse(f.header).Some? && parse(f.header).value.payloadLength == |f.payload|
  }

  function Encoded(frames: seq<Frame>): bytes {
    if frames == [] then [] else frames[0].header + frames[0].payload + Encoded(frames[1..])
  }

  function MessagesOf(parse: HeaderParse, frames: seq<Frame>): seq<Message> {
    if frames == [] then []
    else
      var h := parse(frames[0].header);
      (if h.Some? then [Message(h.value.messageType, Cut(frames[0].payload))] else []) + MessagesOf(parse, frames[1..])
  }

  /** A frame does not fit when header and payload, added up as unsigned 32-bit numbers, take 4096 bytes or more. */
  lemma OversizedIs(parse: HeaderParse, t: MessageType, s: bytes)
    ensures FrontOf(parse, t, s).Oversized? <==>
              && |s| >= 53 && parse(s[..53]).Some?
              && (53 + parse(s[..53]).value.payloadLength) % 0x1_0000_0000 >= 4096
  {
    if |s| >= 53 && parse(s[..53]).Some? {
      Wrapped(parse(s[..53]).value.payloadLength);
    }
    hide Cut;
  }

  lemma Wrapped(n: int32)
    ensures Expected(Header(n, 0)) == (53 + n) % 0x1_0000_0000
    ensures forall t :: Expected(Header(n, t)) == Expected(Header(n, 0))
  {
    assert Unsigned(n) == if n < 0 then n + 0x1_0000_0000 else n;
  }

  /** A header that does not parse is a message of the last type known, and one that announces no payload is a
      message of its own type; either is the text of the header itself. One that announces less than nothing, but
      leaves something to expect, is an empty message. */
  lemma HeadersAlone(parse: HeaderParse, t: MessageType, header: bytes)
    requires |header| == 53
    ensures parse(header).None? ==> Run(parse, Fresh(t), [header]) == Result([Message(t, Cut(header))], Fresh(t))
    ensures parse(header).Some? && parse(header).value.payloadLength == 0 ==>
              var u := parse(header).value.messageType;
              Run(parse, Fresh(t), [header]) == Result([Message(u, Cut(header))], Fresh(u))
    ensures parse(header).Some? && -53 <= parse(header).value.payloadLength < 0 ==>
              var u := parse(header).value.messageType; Run(parse, Fresh(t), [header]) == Result([Message(u, [])], Fresh(u))
  {
    assert header[..53] == header && header[53..] == [] && [header][..0] == [] && [] + header == header;
    assert Run(parse, Fresh(t), []) == Result([], Fresh(t));
    assert Cut([]) == [];
    hide Cut;
  }

  /** Frames of up to 4042 payload bytes come out one message each, in order, cut at the first zero byte. */
  lemma {:induction false} FramesRoundTrip(parse: HeaderParse, t: MessageType, frames: seq<Frame>)
    requires forall f | f in frames :: FrameOk(parse, f)
    ensures var o := Frames(parse, t, Encoded(frames));
            o.messages == MessagesOf(parse, frames) && o.rest == [] && !o.oversized
    decreases frames
  {
    if frames != [] {
      var f, s, later := frames[0], Encoded(frames), Encoded(frames[1..]);
      assert FrameOk(parse, f);
      var h := parse(f.header).value;
      assert s == f.header + (f.payload + later);
      assert s[..HEADER_LENGTH_SIZE] == f.header;
      assert s[HEADER_LENGTH_SIZE..Expected(h)] == f.payload && s[Expected(h)..] == later;
      hide Cut;
      FramesRoundTrip(parse, h.messageType, frames[1..]);
    }
  }

  // ----- frames that do not fit the buffer -----

  /** The reader in a frame that does not fit: every receive goes to the front of the buffer. */
  datatype Window = Window(messageType: MessageType, buffer: bytes, received: nat, expected: nat)

  datatype Overflow = More(window: Window) | Finished(message: Message)

  /** A receive and the zero byte put behind it. A receive of all 4096 bytes, which has that byte written past
      the buffer, is not modelled. */
  function Overwritten(buffer: bytes, chunk: bytes): bytes
    requires |chunk| < |buffer|
  {
    chunk + [0] + buffer[|chunk| + 1..]
  }

  /** What stands in the buffer after the place of the header. */
  function Visible(buffer: bytes): bytes { if |buffer| < HEADER_LENGTH_SIZE then [] else Cut(buffer[HEADER_LENGTH_SIZE..]) }

  function WindowStep(w: Window, chunk: bytes): Overflow
    requires |chunk| < |w.buffer|
  {
    var after := w.(buffer := Overwritten(w.buffer, chunk), received := w.received + |chunk|);
    if after.received >= w.expected then Finished(Message(w.messageType, Visible(after.buffer))) else More(after)
  }

  /** Chunks of less than the buffer that together are what the frame lacks, the last of them not empty. */
  predicate Completes(w: Window, chunks: seq<bytes>)
    decreases chunks
  {
    if chunks == [] then false
    else
      && |chunks[0]| < |w.buffer|
      && if |chunks| == 1 then w.received + |chunks[0]| == w.expected
         else w.received + |chunks[0]| < w.expected && Completes(WindowStep(w, chunks[0]).window, chunks[1..])
  }

  function WindowRun(w: Window, chunks: seq<bytes>): Overflow
    requires Completes(w, chunks)
    decreases chunks
  {
    if |chunks| == 1 then WindowStep(w, chunks[0]) else WindowRun(WindowStep(w, chunks[0]).window, chunks[1..])
  }

  /** The last receive that reaches past the place of the header, from there on. */
  function Shown(before: bytes, chunks: seq<bytes>): bytes
    decreases chunks
  {
    if chunks == [] then before else Shown(if |chunks[0]| >= HEADER_LENGTH_SIZE then Visible(chunks[0]) else before, chunks[1..])
  }

  lemma {:induction false} CutAtZero(s: bytes, rest: bytes)
    ensures Cut(s + [0] + rest) == Cut(s)
  {
    if s != [] {
      assert (s + [0] + rest)[1..] == s[1..] + [0] + rest;
      CutAtZero(s[1..], rest);
    }
  }

  lemma OverwrittenShows(buffer: bytes, chunk: bytes)
    requires HEADER_LENGTH_SIZE < |buffer| && |chunk| < |buffer|
    ensures Visible(Overwritten(buffer, chunk)) == if |chunk| >= HEADER_LENGTH_SIZE then Visible(chunk) else Visible(buffer)
  {
    var after, rest := Overwritten(buffer, chunk), buffer[|chunk| + 1..];
    if |chunk| >= HEADER_LENGTH_SIZE {
      assert after[HEADER_LENGTH_SIZE..] == chunk[HEADER_LENGTH_SIZE..] + [0] + rest;
      CutAtZero(chunk[HEADER_LENGTH_SIZE..], rest);
    } else {
      assert after[HEADER_LENGTH_SIZE..] == buffer[HEADER_LENGTH_SIZE..];
    }
  }

  /** The message of a frame that does not fit is not its payload, but what the last receive long enough to
      reach past the place of the header left there. */
  lemma {:induction false} OversizedShowsLastReceive(w: Window, chunks: seq<bytes>)
    requires HEADER_LENGTH_SIZE < |w.buffer| && Completes(w, chunks)
    ensures WindowRun(w, chunks) == Finished(Message(w.messageType, Shown(Visible(w.buffer), chunks)))
    decreases chunks
  {
    OverwrittenShows(w.buffer, chunks[0]);
    hide Overwritten, Visible;
    if |chunks| == 1 {
      assert chunks[1..] == [];
    } else {
      assert |Overwritten(w.buffer, chunks[0])| == |w.buffer| by { OverwrittenLength(w.buffer, chunks[0]); }
      OversizedShowsLastReceive(WindowStep(w, chunks[0]).window, chunks[1..]);
    }
  }

  lemma OverwrittenLength(buffer: bytes, chunk: bytes)
    requires |chunk| < |buffer|
    ensures |Overwritten(buffer, chunk)| == |buffer|
  {
  }

  /** So there it does matter how the stream is cut: the same 4043 bytes give two different messages. */
  lemma CutsMatterWhenOversized(w: Window, s: bytes)
    requires |w.buffer| == BUFFER_SIZE && w.received + 4043 == w.expected && |s| == 4043 && 0 !in s
    ensures Completes(w, [s]) && Completes(w, [s[..4000], s[4000..]]) && Flatten([s]) == Flatten([s[..4000], s[4000..]])
    ensures WindowRun(w, [s]) != WindowRun(w, [s[..4000], s[4000..]])
  {
    var a, b := s[..4000], s[4000..];
    OverwrittenLength(w.buffer, a);
    assert [a, b][1..] == [b] && [s][1..] == [];
    FlattenTwo(a, b);
    assert a + b == s;
    OversizedShowsLastReceive(w, [s]);
    OversizedShowsLastReceive(w, [a, b]);
    CutKeeps(s[HEADER_LENGTH_SIZE..]);
    CutKeeps(a[HEADER_LENGTH_SIZE..]);
    ShownTwo(Visible(w.buffer), a, b);
    ShownOne(Visible(w.buffer), s);
    hide Cut, Overwritten, Shown, WindowRun;
    assert |Visible(s)| == 3990 && |Visible(a)| == 3947;
  }

  lemma FlattenOne(a: bytes)
    ensures Flatten([a]) == a
  {
    assert [a][..0] == [];
    assert Flatten([]) + a == a;
  }

  lemma FlattenTwo(a: bytes, b: bytes)
    ensures Flatten([a, b]) == a + b == Flatten([a + b])
  {
    FlattenOne(a);
    FlattenOne(a + b);
    assert [a, b][..1] == [a];
    assert Flatten([a, b]) == Flatten([a]) + b;
  }

  lemma ShownOne(before: bytes, s: bytes)
    requires |s| >= HEADER_LENGTH_SIZE
    ensures Shown(before, [s]) == Visible(s)
  {
    assert [s][1..] == [];
  }

  lemma ShownTwo(before: bytes, a: bytes, b: bytes)
    requires |a| >= HEADER_LENGTH_SIZE > |b|
    ensures Shown(before, [a, b]) == Visible(a)
  {
    assert [a, b][1..] == [b] && [b][1..] == [];
    assert Shown(before, [a, b]) == Shown(Visible(a), [b]);
    assert Shown(Visible(a), [b]) == Shown(Visible(a), []);
  }

  // ----- the reader, in place -----

  class SocketReaderServer {
    const parse: HeaderParse
    const payloadBuffer: array<byte>
    var messageIdentifier: MessageType
    var bytesAlreadyReceived: nat
    var payloadLength: word32
    var expectedAmountOfBytes: word32

    function Value(): State
      requires bytesAlreadyReceived <= payloadBuffer.Length
      reads this, payloadBuffer
    {
      State(messageIdentifier, payloadBuffer[..bytesAlreadyReceived], payloadLength, expectedAmountOfBytes)
    }

    /** The frame fits the buffer and is not complete. */
    predicate Valid()
      reads this
    {
      && payloadBuffer.Length == BUFFER_SIZE
      && bytesAlreadyReceived < expectedAmountOfBytes < BUFFER_SIZE
      && (if payloadLength != 0 then bytesAlreadyReceived >= HEADER_LENGTH_SIZE
          else expectedAmountOfBytes == HEADER_LENGTH_SIZE)
    }

    constructor (parse: HeaderParse, start: MessageType)
      ensures Valid() && Value() == Fresh(start) && this.parse == parse
      ensures fresh(payloadBuffer)
    {
      this.parse := parse;
      payloadBuffer := new byte[BUFFER_SIZE](i => 0);
      messageIdentifier, bytesAlreadyReceived, payloadLength, expectedAmountOfBytes := start, 0, 0, HEADER_LENGTH_SIZE;
    }

    method ResetCounters()
      requires payloadBuffer.Length == BUFFER_SIZE
      modifies this
      ensures Valid() && Value() == Fresh(old(messageIdentifier))
    {
      bytesAlreadyReceived := 0;
      payloadLength := 0;
      expectedAmountOfBytes := HEADER_LENGTH_SIZE;
    }

    /** The receive call: puts the delivered bytes at `position`, and nothing else. */
    method ReceiveBytes(position: nat, delivered: bytes)
      requires position + |delivered| <= payloadBuffer.Length
      modifies payloadBuffer
      ensures payloadBuffer[..] == old(payloadBuffer[..position]) + delivered + old(payloadBuffer[position + |delivered|..])
    {
      ghost var was := payloadBuffer[..];
      for i := 0 to |delivered|
        invariant payloadBuffer[..] == was[..position] + delivered[..i] + was[position + i..]
      {
        payloadBuffer[position + i] := delivered[i];
      }
    }

    /** The frame does not fit the buffer; some zero byte still ends what can be read from it. */
    predicate Oversized()
      reads this, payloadBuffer
    {
      && payloadBuffer.Length == BUFFER_SIZE <= expectedAmountOfBytes
      && HEADER_LENGTH_SIZE <= bytesAlreadyReceived < expectedAmountOfBytes && payloadLength != 0
      && 0 in payloadBuffer[HEADER_LENGTH_SIZE..]
    }

    function AsWindow(): Window
      reads this, payloadBuffer
    {
      Window(messageIdentifier, payloadBuffer[..], bytesAlreadyReceived, expectedAmountOfBytes)
    }

    /** What a receive asks for: what the frame lacks, but no more than the buffer. */
    function Requested(): int
      reads this
    {
      var lacking := expectedAmountOfBytes - bytesAlreadyReceived;
      if expectedAmountOfBytes >= BUFFER_SIZE && lacking > BUFFER_SIZE then BUFFER_SIZE else lacking
    }

    /** The string constructor: reads on from `offset` to the first zero byte. */
    method ReadString(offset: nat, ghost end: nat) returns (s: bytes)
      requires offset <= end < payloadBuffer.Length && payloadBuffer[end] == 0
      ensures s == Cut(payloadBuffer[offset..end])
    {
      s := [];
      var i := offset;
      while payloadBuffer[i] != 0
        invariant offset <= i <= end
        invariant s + Cut(payloadBuffer[i..end]) == Cut(payloadBuffer[offset..end])
        decreases end - i
      {
        assert payloadBuffer[i..end][1..] == payloadBuffer[i + 1..end];
        s := s + [payloadBuffer[i]];
        i := i + 1;
      }
    }

    method ExtractHeaderContent()
      requires payloadBuffer.Length == BUFFER_SIZE && (payloadLength == 0 ==> bytesAlreadyReceived <= BUFFER_SIZE)
      modifies this
      ensures bytesAlreadyReceived == old(bytesAlreadyReceived)
      ensures bytesAlreadyReceived <= BUFFER_SIZE ==> Value() == Extracted(parse, old(Value()))
      ensures old(payloadLength) != 0 ==>
                payloadLength == old(payloadLength) && expectedAmountOfBytes == old(expectedAmountOfBytes)
                && messageIdentifier == old(messageIdentifier)
    {
      if bytesAlreadyReceived >= HEADER_LENGTH_SIZE && payloadLength == 0 {
        assert payloadBuffer[..HEADER_LENGTH_SIZE] == Value().held[..HEADER_LENGTH_SIZE];
        var header := parse(payloadBuffer[..HEADER_LENGTH_SIZE]);
        if header.Some? {
          payloadLength := Unsigned(header.value.payloadLength);
          expectedAmountOfBytes := (expectedAmountOfBytes + payloadLength) % 0x1_0000_0000;
          messageIdentifier := header.value.messageType;
        }
      }
    }

    /** `end` is where a zero byte ends what is read. */
    method DispatchMessage(ghost end: nat) returns (sent: seq<Message>)
      requires payloadBuffer.Length == BUFFER_SIZE && end < BUFFER_SIZE && payloadBuffer[end] == 0
      requires payloadLength != 0 ==> HEADER_LENGTH_SIZE <= end
      modifies this
      ensures var offset := if old(payloadLength) != 0 then HEADER_LENGTH_SIZE else 0;
              if 0 < old(bytesAlreadyReceived) && old(expectedAmountOfBytes) <= old(bytesAlreadyReceived)
              then Valid() && Value() == Fresh(old(messageIdentifier))
                   && sent == [Message(old(messageIdentifier), Cut(payloadBuffer[offset..end]))]
              else sent == [] && unchanged(this)
    {
      sent := [];
      if bytesAlreadyReceived > 0 && bytesAlreadyReceived >= expectedAmountOfBytes {
        var headerOffset := if payloadLength != 0 then HEADER_LENGTH_SIZE else 0;
        var data := ReadString(headerOffset, end);
        sent := [Message(messageIdentifier, data)];
        ResetCounters();
      }
    }

    /** The callback while the frame fits. `delivered` is what one receive returns, or nothing when it fails; a
        failed receive drops the frame. */
    method ReceivePart(delivered: Option<bytes>) returns (sent: seq<Message>)
      requires Valid()
      requires delivered.Some? ==> |delivered.value| <= Wanted(Value())
      modifies this, payloadBuffer
      ensures bytesAlreadyReceived < BUFFER_SIZE == payloadBuffer.Length
      ensures Result(sent, Value()) ==
              if delivered.None? then Result([], Fresh(old(messageIdentifier)))
              else Step(parse, old(Value()), delivered.value)
      ensures Valid() || (Oversized() && Visible(payloadBuffer[..]) == [])
    {
      sent := [];
      if delivered.None? {
        ResetCounters();
      } else {
        ghost var before := Value();
        ReceiveBytes(bytesAlreadyReceived, delivered.value);
        bytesAlreadyReceived := bytesAlreadyReceived + |delivered.value|;
        payloadBuffer[bytesAlreadyReceived] := 0;
        ghost var grown := before.(held := before.held + delivered.value);
        assert payloadBuffer[..bytesAlreadyReceived] == grown.held;
        ExtractHeaderContent();
        ghost var st := Value();
        assert st == Extracted(parse, grown);
        ghost var end := bytesAlreadyReceived;
        sent := DispatchMessage(end);
        if Complete(st) {
          assert payloadBuffer[(if st.payloadLength != 0 then HEADER_LENGTH_SIZE else 0)..end]
              == if st.payloadLength != 0 then st.held[HEADER_LENGTH_SIZE..] else st.held;
        } else if expectedAmountOfBytes >= BUFFER_SIZE {
          assert bytesAlreadyReceived == HEADER_LENGTH_SIZE;
          assert payloadBuffer[HEADER_LENGTH_SIZE..][0] == 0;
        }
      }
    }

    /** The callback in a frame that does not fit: all goes to the front of the buffer. */
    method ReceiveOversized(delivered: Option<bytes>) returns (sent: seq<Message>)
      requires Oversized()
      requires delivered.Some? ==> |delivered.value| <= Requested() && |delivered.value| < BUFFER_SIZE
      modifies this, payloadBuffer
      ensures delivered.None? ==> sent == [] && Valid() && Value() == Fresh(old(messageIdentifier))
      ensures delivered.Some? ==>
                match WindowStep(old(AsWindow()), delivered.value)
                case More(w) => sent == [] && Oversized() && AsWindow() == w
                case Finished(m) => sent == [m] && Valid() && Value() == Fresh(old(messageIdentifier))
    {
      sent := [];
      if delivered.None? {
        ResetCounters();
      } else {
        var chunk := delivered.value;
        ghost var was := payloadBuffer[..];
        ReceiveBytes(0, chunk);
        bytesAlreadyReceived := bytesAlreadyReceived + |chunk|;
        payloadBuffer[|chunk|] := 0;
        assert payloadBuffer[..] == Overwritten(was, chunk);
        ghost var end := StillEnds(was, chunk);
        ExtractHeaderContent();
        assert payloadBuffer[..][end] == 0;
        hide Cut;
        sent := DispatchMessage(end);
        VisibleUpTo(payloadBuffer[..], end);
        assert payloadBuffer[HEADER_LENGTH_SIZE..end] == payloadBuffer[..][HEADER_LENGTH_SIZE..end];
        hide Overwritten;
      }
    }

    /** The callback, with its test for a frame that does not fit. */
    method OnSocketReadable(available: bool, delivered: Option<bytes>) returns (sent: seq<Message>)
      requires Valid() || Oversized()
      requires delivered.Some? ==> |delivered.value| <= Requested() && |delivered.value| < BUFFER_SIZE
      modifies this, payloadBuffer
      ensures Valid() || Oversized()
      ensures !available ==> sent == [] && unchanged(this) && unchanged(payloadBuffer)
      ensures available && delivered.None? ==> sent == [] && Valid() && Value() == Fresh(old(messageIdentifier))
      ensures available && delivered.Some? && old(Valid()) ==>
                && bytesAlreadyReceived < BUFFER_SIZE == payloadBuffer.Length
                && Result(sent, Value()) == Step(parse, old(Value()), delivered.value)
      ensures available && delivered.Some? && old(Oversized()) ==>
                match WindowStep(old(AsWindow()), delivered.value)
                case More(w) => sent == [] && Oversized() && AsWindow() == w
                case Finished(m) => sent == [m] && Valid() && Value() == Fresh(old(messageIdentifier))
    {
      sent := [];
      if available {
        if expectedAmountOfBytes >= BUFFER_SIZE {
          sent := ReceiveOversized(delivered);
        } else {
          sent := ReceivePart(delivered);
        }
      }
    }
  }

  /** Some zero byte still ends what can be read after a receive. */
  lemma StillEnds(buffer: bytes, chunk: bytes) returns (end: nat)
    requires |buffer| == BUFFER_SIZE && |chunk| < BUFFER_SIZE && 0 in buffer[HEADER_LENGTH_SIZE..]
    ensures HEADER_LENGTH_SIZE <= end < BUFFER_SIZE && Overwritten(buffer, chunk)[end] == 0
  {
    if |chunk| >= HEADER_LENGTH_SIZE {
      end := |chunk|;
    } else {
      var i :| 0 <= i < |buffer[HEADER_LENGTH_SIZE..]| && buffer[HEADER_LENGTH_SIZE..][i] == 0;
      end := HEADER_LENGTH_SIZE + i;
    }
  }

  lemma VisibleUpTo(buffer: bytes, end: nat)
    requires HEADER_LENGTH_SIZE <= end < |buffer| && buffer[end] == 0
    ensures Visible(buffer) == Cut(buffer[HEADER_LENGTH_SIZE..end])
  {
    CutShorter(buffer[HEADER_LENGTH_SIZE..], end - HEADER_LENGTH_SIZE);
    assert buffer[HEADER_LENGTH_SIZE..][..end - HEADER_LENGTH_SIZE] == buffer[HEADER_LENGTH_SIZE..end];
    hide Cut;
  }

  lemma {:induction false} CutShorter(s: bytes, i: nat)
    requires i < |s| && s[i] == 0
    ensures Cut(s[..i]) == Cut(s)
    decreases i
  {
    if i > 0 && s[0] != 0 {
      assert s[..i][1..] == s[1..][..i - 1];
      CutShorter(s[1..], i - 1);
    }
  }
}
