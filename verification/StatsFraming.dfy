/** The framing between the preloaded library and the statistics collector: `$`, the length of the
    report in hexadecimal, a space, the report. One static buffer serves all sockets. */
module StatsFraming {
  import opened Common
  import opened Wire

  const DOLLAR: byte := 36
  const SPACE: byte := 32
  const SEND_BUFFER_SIZE := 256
  const BUFFER_SIZE := 257
  const HEADER_LENGTH := 3

  // ----- sending -----

  function Digit(n: nat): byte
    requires n < 16
  {
    if n < 10 then 48 + n else 87 + n
  }

  function Hex(n: nat): bytes { if n < 16 then [Digit(n)] else Hex(n / 16) + [Digit(n % 16)] }

  /** The `%02x` conversion: at least two digits. */
  function Hex2(n: nat): bytes { if n < 16 then [48, Digit(n)] else Hex(n) }

  /** `data` is a C string: what follows its first zero byte is not part of it. */
  function Frame(data: bytes): bytes { [DOLLAR] + (Hex2(|Cut(data)|) + ([SPACE] + Cut(data))) }

  lemma {:induction false} HexHasNoZero(n: nat)
    ensures 0 !in Hex(n) && |Hex(n)| >= 1 && (n >= 16 ==> |Hex(n)| >= 2) && (n >= 256 ==> |Hex(n)| >= 3)
    decreases n
  {
    if n >= 16 {
      HexHasNoZero(n / 16);
    }
  }

  lemma FrameHasNoZero(data: bytes)
    ensures 0 !in Frame(data) && |Frame(data)| == 2 + |Hex2(|Cut(data)|)| + |Cut(data)|
  {
    CutKeeps(data);
    HexHasNoZero(|Cut(data)|);
  }

  lemma HexOfByte(n: nat)
    requires n < 256
    ensures Hex2(n) == [Digit(n / 16), Digit(n % 16)]
  {
    assert n >= 16 ==> Hex(n / 16) == [Digit(n / 16)];
  }

  /** Formats the frame into the send buffer and sends the string found there. The buffer holds frames
      of reports of up to 251 bytes. */
  method SendData(sendBuffer: array<byte>, data: bytes) returns (sent: bytes)
    requires sendBuffer.Length == SEND_BUFFER_SIZE && |Cut(data)| <= 251
    modifies sendBuffer
    ensures sent == Frame(data)
  {
    var text := Frame(data);
    FrameHasNoZero(data);
    HexOfByte(|Cut(data)|);
    for i := 0 to |text|
      invariant sendBuffer[..i] == text[..i]
    {
      sendBuffer[i] := text[i];
    }
    sendBuffer[|text|] := 0;
    assert sendBuffer[..|text|] == text;
    var length := 0;
    while sendBuffer[length] != 0
      invariant length <= |text|
      invariant sendBuffer[..|text|] == text && sendBuffer[|text|] == 0
      decreases |text| - length
    {
      assert length < |text|;
      length := length + 1;
    }
    sent := sendBuffer[..length];
  }

  // ----- receiving -----

  function HexValue(c: byte): Option<int> {
    if 48 <= c <= 57 then Some(c - 48)
    else if 97 <= c <= 102 then Some(c - 87)
    else if 65 <= c <= 70 then Some(c - 55)
    else None
  }

  predicate IsBlank(c: byte) { c == 32 || 9 <= c <= 13 }

  /** What `%x` makes of two characters; a text that is no number leaves the length zero. A sign counts:
      the length may be negative. */
  function ScanHex(a: byte, b: byte): int {
    match HexValue(a)
    case Some(high) =>
      (match HexValue(b)
       case Some(low) => 16 * high + low
       case None => high)
    case None =>
      match HexValue(b)
      case Some(low) => if IsBlank(a) || a == 43 then low else if a == 45 then -low else 0
      case None => 0
  }

  /** What the next message of a stream is: not all there, a stray byte, a report, or a negative length. */
  datatype Reading = Incomplete | Stray(rest: bytes) | Report(data: bytes, rest: bytes) | Wild

  function ReadFrame(s: bytes): Reading {
    if s == [] then Incomplete
    else if s[0] != DOLLAR then Stray(s[1..])
    else if |s| < 1 + HEADER_LENGTH then Incomplete
    else
      var length := ScanHex(s[1], s[2]);
      var end := 1 + HEADER_LENGTH + length;
      if length < 0 then Wild
      else if |s| < end then Incomplete
      else Report(s[1 + HEADER_LENGTH..end], s[end..])
  }

  type Socket = nat

  /** The bytes waiting at each socket, and the reports passed on, in order. */
  datatype State = State(streams: map<Socket, bytes>, reports: seq<(Socket, bytes)>)

  function Stream(st: State, socket: Socket): bytes { if socket in st.streams then st.streams[socket] else [] }

  function Serve(st: State, socket: Socket): State {
    match ReadFrame(Stream(st, socket))
    case Report(data, rest) => State(st.streams[socket := rest], st.reports + [(socket, data)])
    case Stray(rest) => st.(streams := st.streams[socket := rest])
    case _ => st
  }

  function ServeAll(st: State, schedule: seq<Socket>): State {
    if schedule == [] then st else Serve(ServeAll(st, schedule[..|schedule| - 1]), schedule[|schedule| - 1])
  }

  /** What `%x` is given when only `h` bytes of the header are read: the buffer still begins with the flag and
      the zero byte put behind it, and ends where the space should be. */
  function ScannedLength(s: bytes, h: nat): int
    requires h < |s|
  {
    ScanHex(if h >= 1 then s[1] else DOLLAR, if h >= 2 then s[2] else 0)
  }

  /** Reads of `h` bytes of the header and `n` of the report, as far as the stream has them. */
  predicate CanRead(s: bytes, h: nat, n: nat) {
    && s != []
    && (s[0] == DOLLAR ==> h <= HEADER_LENGTH && 1 + h + n <= |s| && n <= ScannedLength(s, h) < BUFFER_SIZE)
  }

  /** One turn for a socket, whatever its reads return. */
  function ServeReads(st: State, socket: Socket, h: nat, n: nat): State
    requires CanRead(Stream(st, socket), h, n)
  {
    var s := Stream(st, socket);
    if s[0] != DOLLAR then st.(streams := st.streams[socket := s[1..]])
    else State(st.streams[socket := s[1 + h + n..]], st.reports + [(socket, s[1 + h..1 + h + n])])
  }

  /** The collector: its sockets, its one buffer, and what it passed on. */
  class Collector {
    const buffer: array<byte>
    var streams: map<Socket, bytes>
    var reports: seq<(Socket, bytes)>

    function Value(): State
      reads this
    {
      State(streams, reports)
    }

    constructor (streams: map<Socket, bytes>)
      ensures Value() == State(streams, []) && buffer.Length == BUFFER_SIZE && fresh(buffer)
    {
      buffer := new byte[BUFFER_SIZE](i => 0);
      this.streams, reports := streams, [];
    }

    /** A read that returns `count` bytes, which go to the front of the buffer. */
    method ReadBytes(socket: Socket, count: nat)
      requires count <= buffer.Length && count <= |Stream(Value(), socket)| && socket in streams
      modifies this, buffer
      ensures buffer[..] == old(streams[socket])[..count] + old(buffer[count..])
      ensures streams == old(streams)[socket := old(streams[socket])[count..]] && reports == old(reports)
    {
      var data := streams[socket];
      ghost var was := buffer[..];
      for i := 0 to count
        invariant buffer[..i] == data[..i]
        invariant forall j | i <= j < buffer.Length :: buffer[j] == was[j]
        invariant streams == old(streams) && reports == old(reports)
      {
        buffer[i] := data[i];
      }
      assert buffer[count..] == was[count..] && buffer[..] == buffer[..count] + buffer[count..];
      streams := streams[socket := data[count..]];
    }

    /** One turn of the receiver loop for a readable socket; `h` and `n` are what the second and the third
        read return. */
    method ProcessMessage(socket: Socket, h: nat, n: nat)
      requires buffer.Length == BUFFER_SIZE && socket in streams && CanRead(streams[socket], h, n)
      modifies this, buffer
      ensures Value() == ServeReads(old(Value()), socket, h, n)
    {
      ghost var s := streams[socket];
      ReadBytes(socket, 1);
      assert buffer[..][0] == s[0];
      buffer[1] := 0;
      if buffer[0] == DOLLAR {
        assert streams[socket] == s[1..];
        ReadReport(socket, h, n);
        assert s[1..][h..h + n] == s[1 + h..1 + h + n] && s[1..][h + n..] == s[1 + h + n..];
      }
    }

    /** The rest of the header, and the length it announces. */
    method ReadLength(socket: Socket, h: nat) returns (length: int)
      requires buffer.Length == BUFFER_SIZE && socket in streams && buffer[0] == DOLLAR && buffer[1] == 0
      requires h <= HEADER_LENGTH && h <= |streams[socket]|
      modifies this, buffer
      ensures length == ScannedLength([DOLLAR] + old(streams[socket]), h)
      ensures streams == old(streams)[socket := old(streams[socket])[h..]] && reports == old(reports)
    {
      ghost var s := streams[socket];
      ReadBytes(socket, h);
      assert buffer[..][0] == (if h >= 1 then s[0] else DOLLAR) && buffer[..][1] == if h >= 2 then s[1] else 0;
      buffer[HEADER_LENGTH - 1] := 0;
      length := ScanHex(buffer[0], buffer[1]);
    }

    /** The report itself, with a zero byte put behind it when something was read. */
    method ReadText(socket: Socket, n: nat) returns (text: bytes)
      requires buffer.Length == BUFFER_SIZE && socket in streams && n < BUFFER_SIZE && n <= |streams[socket]|
      modifies this, buffer
      ensures text == old(streams[socket])[..n]
      ensures streams == old(streams)[socket := old(streams[socket])[n..]] && reports == old(reports)
    {
      ReadBytes(socket, n);
      text := buffer[..n];
      assert text == buffer[..][..n];
      if n > 0 {
        buffer[n] := 0;
      }
    }

    /** The part of a message after its first byte. */
    method ReadReport(socket: Socket, h: nat, n: nat)
      requires buffer.Length == BUFFER_SIZE && socket in streams && buffer[0] == DOLLAR && buffer[1] == 0
      requires CanRead([DOLLAR] + streams[socket], h, n)
      modifies this, buffer
      ensures var s := old(streams[socket]);
              reports == old(reports) + [(socket, s[h..h + n])] && streams == old(streams)[socket := s[h + n..]]
    {
      hide ScanHex;
      ghost var s, was := streams[socket], streams;
      var length := ReadLength(socket, h);
      assert n <= length < BUFFER_SIZE && streams[socket] == s[h..];
      hide CanRead, ScannedLength;
      var text := ReadText(socket, n);
      Slices(s, h, n);
      assert streams == was[socket := s[h + n..]];
      reports := reports + [(socket, text)];
    }
  }

  lemma Slices(s: bytes, h: nat, n: nat)
    requires h + n <= |s|
    ensures s[h..][n..] == s[h + n..] && s[h..][..n] == s[h..h + n]
  {
  }

  /** With full reads a turn takes a whole message, or a stray byte. */
  lemma FullReadsServe(st: State, socket: Socket)
    requires ReadFrame(Stream(st, socket)).Report? || ReadFrame(Stream(st, socket)).Stray?
    ensures var s := Stream(st, socket);
            var n := if s[0] == DOLLAR then ScanHex(s[1], s[2]) else 0;
            n >= 0 && CanRead(s, HEADER_LENGTH, n) && ServeReads(st, socket, HEADER_LENGTH, n) == Serve(st, socket)
  {
    var s := Stream(st, socket);
    if s[0] == DOLLAR {
      assert ScanHex(s[1], s[2]) <= 255;
    }
  }

  /** Of a whole message only full reads make that: whichever read falls short, what is passed on or what is left in
      the stream differs. Nothing can go wrong with a stray byte. */
  lemma OnlyFullReadsServe(st: State, socket: Socket, h: nat, n: nat)
    requires ReadFrame(Stream(st, socket)).Report? || ReadFrame(Stream(st, socket)).Stray?
    requires CanRead(Stream(st, socket), h, n)
    ensures var message := ReadFrame(Stream(st, socket));
            ServeReads(st, socket, h, n) == Serve(st, socket) <==>
              message.Stray? || (h == HEADER_LENGTH && n == |message.data|)
  {
    var s, message := Stream(st, socket), ReadFrame(Stream(st, socket));
    var t, u := ServeReads(st, socket, h, n), Serve(st, socket);
    if message.Report? {
      assert |t.streams[socket]| == |s| - 1 - h - n && |u.streams[socket]| == |s| - 1 - HEADER_LENGTH - |message.data|;
      assert t.reports[|st.reports|] == (socket, s[1 + h..1 + h + n]) && u.reports[|st.reports|] == (socket, message.data);
    }
    hide ScanHex;
  }

  /** Without them it need not: one byte of the header too few makes the space part of the report. */
  lemma ShortReadsMatter()
    ensures exists st: State, data: bytes ::
              && Good(data) && Stream(st, 0) == Frame(data)
              && CanRead(Stream(st, 0), 2, 1) && ServeReads(st, 0, 2, 1).reports == [(0, [SPACE])] != [(0, data)]
  {
    var data: bytes := [65];
    CutKeeps(data);
    HexOfByte(1);
    var s := Frame(data);
    assert s == [DOLLAR, 48, 49, SPACE, 65];
    var st := State(map[0 := s], []);
    assert Stream(st, 0) == s && s[3..4] == [SPACE] && ScannedLength(s, 2) == 1;
    assert ServeReads(st, 0, 2, 1).reports == [(0, [SPACE])];
    assert Good(data);
  }

  // ----- the text of a frame -----

  /** A frame is a dollar sign, the length in two small hexadecimal digits, a space, and the report. */
  lemma FrameText(data: bytes)
    requires |Cut(data)| < 256
    ensures var n := |Cut(data)|;
            var digits := "0123456789abcdef";
            Frame(data) == ['$' as int, digits[n / 16] as int, digits[n % 16] as int, ' ' as int] + Cut(data)
  {
    var n := |Cut(data)|;
    HexOfByte(n);
    DigitText(n / 16);
    DigitText(n % 16);
    hide Cut, Hex2, Digit;
  }

  lemma DigitText(n: nat)
    requires n < 16
    ensures Digit(n) == "0123456789abcdef"[n] as int
    ensures HexValue("0123456789abcdef"[n] as int) == Some(n) && HexValue("0123456789ABCDEF"[n] as int) == Some(n)
  {
  }

  lemma HexCharacters(c: byte)
    ensures HexValue(c).Some? ==>
              exists n | 0 <= n < 16 :: c == "0123456789abcdef"[n] as int || c == "0123456789ABCDEF"[n] as int
  {
    if HexValue(c).Some? {
      var n := HexValue(c).value;
      DigitText(n);
      assert c == "0123456789abcdef"[n] as int || c == "0123456789ABCDEF"[n] as int;
    }
  }

  /** What `%x` makes of two characters: two digits, or the first alone; or the second, behind a blank or a sign. */
  lemma ScannedText(a: byte, b: byte)
    ensures HexValue(a).Some? && HexValue(b).Some? ==> ScanHex(a, b) == 16 * HexValue(a).value + HexValue(b).value
    ensures HexValue(a).Some? && HexValue(b).None? ==> ScanHex(a, b) == HexValue(a).value
    ensures HexValue(b).Some? && a in {' ' as int, '+' as int, 9, 10, 11, 12, 13} ==> ScanHex(a, b) == HexValue(b).value
    ensures HexValue(b).Some? && a == '-' as int ==> ScanHex(a, b) == -HexValue(b).value
    ensures HexValue(a).None? && a !in {' ' as int, '+' as int, '-' as int, 9, 10, 11, 12, 13} ==> ScanHex(a, b) == 0
    ensures HexValue(a).None? && HexValue(b).None? ==> ScanHex(a, b) == 0
  {
  }

  // ----- the round trip -----

  lemma DigitScans(n: nat)
    requires n < 16
    ensures HexValue(Digit(n)) == Some(n)
  {
  }

  lemma LengthScans(n: nat)
    requires n < 256
    ensures ScanHex(Digit(n / 16), Digit(n % 16)) == n
  {
    DigitScans(n / 16);
    DigitScans(n % 16);
  }

  lemma HeadReads(high: byte, low: byte, d: bytes, rest: bytes)
    requires ScanHex(high, low) == |d|
    ensures ReadFrame([DOLLAR, high, low, SPACE] + (d + rest)) == Report(d, rest)
  {
    var s := [DOLLAR, high, low, SPACE] + (d + rest);
    assert s[4..4 + |d|] == d && s[4 + |d|..] == rest;
    hide ScanHex;
  }

  lemma FrameReads(data: bytes, rest: bytes)
    requires |Cut(data)| <= 255
    ensures ReadFrame(Frame(data) + rest) == Report(Cut(data), rest)
  {
    var n := |Cut(data)|;
    HexOfByte(n);
    LengthScans(n);
    assert Frame(data) + rest == [DOLLAR, Digit(n / 16), Digit(n % 16), SPACE] + (Cut(data) + rest);
    hide *;
    HeadReads(Digit(n / 16), Digit(n % 16), Cut(data), rest);
  }

  /** A report comes through as it was, and leaves the stream at the next frame, exactly when it is a
      string of at most 255 bytes. */
  lemma FrameRoundTrip(data: bytes, rest: bytes)
    ensures ReadFrame(Frame(data) + rest) == Report(data, rest) <==> 0 !in data && |data| <= 255
  {
    CutKeeps(data);
    if 0 !in data && |data| <= 255 {
      FrameReads(data, rest);
    } else if 0 in data {
      if |Cut(data)| <= 255 {
        FrameReads(data, rest);
      } else {
        ReadIsShort(Frame(data) + rest);
        CutIsShorter(data);
      }
    } else {
      ReadIsShort(Frame(data) + rest);
    }
  }

  lemma ReadIsShort(s: bytes)
    ensures ReadFrame(s).Report? ==> |ReadFrame(s).data| <= 255
  {
  }

  lemma {:induction false} CutIsShorter(data: bytes)
    ensures |Cut(data)| <= |data|
  {
    if data != [] && data[0] != 0 {
      CutIsShorter(data[1..]);
    }
  }

  // ----- streams -----

  predicate Good(data: bytes) { 0 !in data && |data| <= 255 }

  function Frames(reports: seq<bytes>): bytes {
    if reports == [] then [] else Frame(reports[0]) + Frames(reports[1..])
  }

  /** The reports that came from one socket, in the order they were passed on. */
  function From(reports: seq<(Socket, bytes)>, socket: Socket): seq<bytes> {
    if reports == [] then []
    else
      var (s, data) := reports[|reports| - 1];
      From(reports[..|reports| - 1], socket) + if s == socket then [data] else []
  }

  /** The reports of `socket` are split between those passed on and those still in its stream. */
  ghost predicate Split(st: State, socket: Socket, all: seq<bytes>) {
    exists k: nat | k <= |all| :: From(st.reports, socket) == all[..k] && Stream(st, socket) == Frames(all[k..])
  }

  /** Serving one socket leaves the reports and the stream of every other one alone. */
  lemma ServeOther(st: State, socket: Socket, other: Socket)
    requires other != socket
    ensures From(Serve(st, other).reports, socket) == From(st.reports, socket)
    ensures Stream(Serve(st, other), socket) == Stream(st, socket)
  {
    var t := Serve(st, other);
    assert |t.reports| > |st.reports| ==> t.reports[..|t.reports| - 1] == st.reports;
    hide ReadFrame;
  }

  lemma ServeNext(st: State, socket: Socket, data: bytes, rest: bytes)
    requires Stream(st, socket) == Frame(data) + rest && Good(data)
    ensures From(Serve(st, socket).reports, socket) == From(st.reports, socket) + [data]
    ensures Stream(Serve(st, socket), socket) == rest
  {
    FrameRoundTrip(data, rest);
    hide ReadFrame, Frame;
    var t := Serve(st, socket);
    assert t.reports[..|t.reports| - 1] == st.reports;
  }

  lemma ServeSplits(st: State, socket: Socket, other: Socket, all: seq<bytes>)
    requires Split(st, socket, all) && forall d | d in all :: Good(d)
    ensures Split(Serve(st, other), socket, all)
  {
    var k: nat :| k <= |all| && From(st.reports, socket) == all[..k] && Stream(st, socket) == Frames(all[k..]);
    if other != socket {
      ServeOther(st, socket, other);
      hide Serve, From, Stream, Frames;
    } else if k < |all| {
      assert all[k] in all && all[k..][1..] == all[k + 1..];
      ServeNext(st, socket, all[k], Frames(all[k + 1..]));
      hide Serve, From, Stream, Frames;
      assert all[..k] + [all[k]] == all[..k + 1];
    } else {
      assert all[k..] == [];
    }
  }

  lemma {:induction false} SchedulesSplit(st: State, socket: Socket, all: seq<bytes>, schedule: seq<Socket>)
    requires Split(st, socket, all) && forall d | d in all :: Good(d)
    ensures Split(ServeAll(st, schedule), socket, all)
    decreases schedule
  {
    if schedule != [] {
      SchedulesSplit(st, socket, all, schedule[..|schedule| - 1]);
      hide Split, Serve;
      ServeSplits(ServeAll(st, schedule[..|schedule| - 1]), socket, schedule[|schedule| - 1], all);
    }
  }

  /** The collector before anything was read, when each socket was sent its list of reports. */
  function Start(sent: map<Socket, seq<bytes>>): State { State(map s | s in sent :: Frames(sent[s]), []) }

  /** However the sockets are served: from each one come the first of its reports, in order, and the rest
      is still in its stream; when the stream has been read to the end, all of them came. */
  lemma {:induction false} StreamsRoundTrip(sent: map<Socket, seq<bytes>>, schedule: seq<Socket>, socket: Socket)
    requires socket in sent && forall d | d in sent[socket] :: Good(d)
    ensures var st := ServeAll(Start(sent), schedule);
            && From(st.reports, socket) <= sent[socket]
            && Stream(st, socket) == Frames(sent[socket][|From(st.reports, socket)|..])
            && (Stream(st, socket) == [] ==> From(st.reports, socket) == sent[socket])
  {
    StartSplits(sent, socket);
    hide Start, ServeAll, Split, Frames, From, Stream;
    SchedulesSplit(Start(sent), socket, sent[socket], schedule);
    SplitParts(ServeAll(Start(sent), schedule), socket, sent[socket]);
  }

  lemma StartSplits(sent: map<Socket, seq<bytes>>, socket: Socket)
    requires socket in sent
    ensures Split(Start(sent), socket, sent[socket])
  {
    var all := sent[socket];
    assert all[0..] == all;
    assert From(Start(sent).reports, socket) == all[..0] && Stream(Start(sent), socket) == Frames(all[0..]);
  }

  lemma SplitParts(st: State, socket: Socket, all: seq<bytes>)
    requires Split(st, socket, all)
    ensures From(st.reports, socket) <= all
    ensures Stream(st, socket) == Frames(all[|From(st.reports, socket)|..])
    ensures Stream(st, socket) == [] ==> From(st.reports, socket) == all
  {
    var k: nat :| k <= |all| && From(st.reports, socket) == all[..k] && Stream(st, socket) == Frames(all[k..]);
    assert |From(st.reports, socket)| == k;
    assert k < |all| ==> Frames(all[k..]) != [];
    hide Frames, From;
  }
}
