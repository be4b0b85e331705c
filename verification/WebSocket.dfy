/** The payload of a sniffed WebSocket text frame, unmasked in place in the packet it came in. */
module WebSocket {
  import opened Common

  type packet = seq<bv8>

  const MASK_SIZE := 4

  /** The constants compared with packet bytes are plain `char`s: their value depends on its signedness. */
  function DataFrameMask(signedChar: bool): int { if signedChar then -127 else 129 }

  function CText(s: packet): packet {
    if s == [] || s[0] == 0 then [] else [s[0]] + CText(s[1..])
  }

  /** What `%.*s` prints: at most `n` bytes, and none from the first zero byte on. */
  function Printed(s: packet, n: nat): packet
    requires n <= |s|
  {
    CText(s[..n])
  }

  // ----- decoding -----

  /** Where the parts of a recognised frame are: its length field, its mask, its data. */
  datatype Layout = Layout(masked: bool, length: nat, maskAt: nat, dataAt: nat) | Unhandled

  function LayoutOf(p: packet): Layout
    requires |p| >= 2 && (p[1] & 0x7f == 126 ==> |p| >= 4)
  {
    var masked := p[1] & 0x80 == 0x80;
    var short := (p[1] & 0x7f) as int;
    if short == 127 then Unhandled
    else
      var maskAt := if short == 126 then 4 else 2;
      var length := if short == 126 then 256 * (p[2] as int) + p[3] as int else short;
      Layout(masked, length, maskAt, if masked then maskAt + MASK_SIZE else maskAt)
  }

  /** The packet holds the whole frame, as the code takes for granted. */
  predicate Complete(p: packet) {
    && |p| >= 2 && (p[1] & 0x7f == 126 ==> |p| >= 4)
    && match LayoutOf(p) case Unhandled => true case Layout(_, n, _, at) => at + n <= |p|
  }

  predicate Recognised(signedChar: bool, p: packet)
    requires p != []
  {
    p[0] as int == DataFrameMask(signedChar)
  }

  function Masked(data: packet, mask: packet): (r: packet)
    requires |mask| == MASK_SIZE
    ensures |r| == |data|
  {
    seq(|data|, i requires 0 <= i < |data| => data[i] ^ mask[i % MASK_SIZE])
  }

  /** The packet after its data was unmasked where it stands. */
  function Unmasked(p: packet): packet
    requires Complete(p)
  {
    match LayoutOf(p)
    case Unhandled => p
    case Layout(masked, n, maskAt, at) =>
      if masked then p[..at] + Masked(p[at..at + n], p[maskAt..at]) + p[at + n..] else p
  }

  function Decoded(signedChar: bool, p: packet): Option<packet>
    requires p != [] && (Recognised(signedChar, p) ==> Complete(p))
  {
    if !Recognised(signedChar, p) then Some(Printed(p, |p|))
    else
      match LayoutOf(p)
      case Unhandled => None
      case Layout(_, n, _, at) => Some(Printed(Unmasked(p)[at..], n))
  }

  function After(signedChar: bool, p: packet): packet
    requires p != [] && (Recognised(signedChar, p) ==> Complete(p))
  {
    if Recognised(signedChar, p) then Unmasked(p) else p
  }

  /** Steps over the length field. `offset` is left on its last byte. */
  method ReadHead(payload: array<bv8>) returns (masked: bool, payloadLength: nat, offset: nat, handled: bool)
    requires Complete(payload[..])
    ensures handled <==> LayoutOf(payload[..]).Layout?
    ensures handled ==>
              var at := if masked then offset + 1 + MASK_SIZE else offset + 1;
              LayoutOf(payload[..]) == Layout(masked, payloadLength, offset + 1, at)
  {
    offset, handled := 1, true;
    var second := payload[offset];
    masked := second & 0x80 == 0x80;
    payloadLength := (second & 0x7f) as int;
    if payloadLength == 126 {
      var high, low := payload[offset + 1] as int, payload[offset + 2] as int;
      offset := offset + 2;
      payloadLength := 256 * high + low;
    } else if payloadLength == 127 {
      handled := false;
    }
  }

  /** Steps through the packet with a moving offset. A frame can only be recognised when `char` is
      unsigned, so the mask bit is tested as an unsigned value. */
  method DecodeWebsockFrame(signedChar: bool, payload: array<bv8>) returns (r: Option<packet>)
    requires payload.Length > 0
    requires Recognised(signedChar, payload[..]) ==> Complete(payload[..])
    modifies payload
    ensures r == Decoded(signedChar, old(payload[..]))
    ensures payload[..] == After(signedChar, old(payload[..]))
  {
    var offset, payloadLength := 0, payload.Length;
    if payload[offset] as int == DataFrameMask(signedChar) {
      var masked, handled;
      masked, payloadLength, offset, handled := ReadHead(payload);
      hide LayoutOf;
      if !handled {
        return None;
      }
      if masked {
        var mask := payload[offset + 1..offset + 1 + MASK_SIZE];
        offset := offset + MASK_SIZE;
        Unmask(payload, offset + 1, payloadLength, mask);
      }
      offset := offset + 1;
    }
    r := Some(Printed(payload[offset..], payloadLength));
  }

  /** The loop that XORs the mask into the packet. */
  method Unmask(payload: array<bv8>, start: nat, length: nat, mask: packet)
    requires start + length <= payload.Length && |mask| == MASK_SIZE
    modifies payload
    ensures payload[..] == old(payload[..start]) + Masked(old(payload[start..start + length]), mask)
                           + old(payload[start + length..])
  {
    ghost var data := payload[start..start + length];
    for i := 0 to length
      invariant payload[..start] == old(payload[..start])
      invariant payload[start + i..] == old(payload[start + i..])
      invariant forall j | 0 <= j < i :: payload[start + j] == data[j] ^ mask[j % MASK_SIZE]
    {
      assert payload[start + i] == payload[start + i..][0] == data[i];
      payload[start + i] := payload[start + i] ^ mask[i % MASK_SIZE];
      assert payload[start + i + 1..] == old(payload[start + i..])[1..];
    }
    assert payload[start..start + length] == Masked(data, mask);
    assert payload[..] == payload[..start] + payload[start..start + length] + payload[start + length..];
  }

  // ----- frames as RFC 6455 builds them -----

  /** The length of the data (section 5.2), in seven bits or in sixteen. */
  datatype LengthField = Short(n: bv8) | Wide(high: bv8, low: bv8)

  predicate Announces(f: LengthField, length: nat) {
    match f
    case Short(n) => n as int == length < 126
    case Wide(high, low) => 256 * (high as int) + low as int == length
  }

  predicate FrameOk(data: packet, mask: Option<packet>, f: LengthField) {
    Announces(f, |data|) && (mask.Some? ==> |mask.value| == MASK_SIZE)
  }

  /** What a frame carries on the wire (section 5.3). */
  function OnWire(data: packet, mask: Option<packet>): packet
    requires mask.Some? ==> |mask.value| == MASK_SIZE
  {
    match mask case None => data case Some(m) => Masked(data, m)
  }

  /** An unfragmented text frame. */
  function TextFrame(data: packet, mask: Option<packet>, f: LengthField): packet
    requires FrameOk(data, mask, f)
  {
    FrameHead(mask.Some?, f) + MaskBytes(mask) + OnWire(data, mask)
  }

  function FrameHead(masked: bool, f: LengthField): packet {
    var bit: bv8 := if masked then 0x80 else 0;
    match f
    case Short(n) => [0x81, bit | n]
    case Wide(high, low) => [0x81, bit | 126, high, low]
  }

  function MaskBytes(mask: Option<packet>): packet { if mask.Some? then mask.value else [] }

  lemma MaskTwice(data: packet, mask: packet)
    requires |mask| == MASK_SIZE
    ensures Masked(Masked(data, mask), mask) == data
  {
    forall i | 0 <= i < |data| ensures Masked(Masked(data, mask), mask)[i] == data[i] {
      XorTwice(data[i], mask[i % MASK_SIZE]);
    }
  }

  lemma XorTwice(a: bv8, b: bv8)
    ensures a ^ b ^ b == a
  {
  }

  lemma LengthBits(x: bv8)
    requires x < 0x80
    ensures (0x80 | x) & 0x80 == 0x80 && (0x80 | x) & 0x7f == x
    ensures (0 | x) & 0x80 == 0 && (0 | x) & 0x7f == x
  {
  }

  function MaskAt(f: LengthField): nat { if f.Wide? then 4 else 2 }

  function DataAt(mask: Option<packet>, f: LengthField): nat { MaskAt(f) + if mask.Some? then MASK_SIZE else 0 }

  /** The first bytes of a frame say where its parts are. */
  lemma HeadLayout(data: packet, mask: Option<packet>, f: LengthField, p: packet)
    requires FrameOk(data, mask, f) && |p| >= MaskAt(f) && p[..MaskAt(f)] == FrameHead(mask.Some?, f)
    ensures |p| >= 2 && p[0] == 0x81 && (p[1] & 0x7f == 126 ==> |p| >= 4)
    ensures LayoutOf(p) == Layout(mask.Some?, |data|, MaskAt(f), DataAt(mask, f))
  {
    var head := FrameHead(mask.Some?, f);
    assert p[0] == p[..MaskAt(f)][0] == head[0] && p[1] == p[..MaskAt(f)][1] == head[1];
    match f
    case Short(n) => LengthBits(n);
    case Wide(high, low) =>
      LengthBits(126);
      assert p[2] == p[..4][2] == high && p[3] == p[..4][3] == low;
  }

  lemma Pieces(a: packet, b: packet, c: packet, d: packet)
    ensures var p := a + b + c + d;
            && p[..|a|] == a && p[|a|..|a| + |b|] == b && p[|a| + |b|..|a| + |b| + |c|] == c
  {
  }

  lemma FrameParts(data: packet, mask: Option<packet>, f: LengthField, extra: packet)
    requires FrameOk(data, mask, f)
    ensures var p, at := TextFrame(data, mask, f) + extra, DataAt(mask, f);
            && Complete(p) && p[0] == 0x81
            && LayoutOf(p) == Layout(mask.Some?, |data|, MaskAt(f), at)
            && (mask.Some? ==> p[at - MASK_SIZE..at] == mask.value)
            && p[at..at + |data|] == OnWire(data, mask)
  {
    assert |FrameHead(mask.Some?, f)| == MaskAt(f) && |OnWire(data, mask)| == |data|;
    assert |MaskBytes(mask)| == DataAt(mask, f) - MaskAt(f);
    Pieces(FrameHead(mask.Some?, f), MaskBytes(mask), OnWire(data, mask), extra);
    hide LayoutOf, Announces, FrameHead, OnWire, Masked;
    HeadLayout(data, mask, f, TextFrame(data, mask, f) + extra);
  }

  lemma DataComesOut(data: packet, mask: Option<packet>, p: packet, at: nat)
    requires Complete(p) && (mask.Some? ==> |mask.value| == MASK_SIZE <= at)
    requires LayoutOf(p) == Layout(mask.Some?, |data|, if mask.Some? then at - MASK_SIZE else at, at)
    requires mask.Some? ==> p[at - MASK_SIZE..at] == mask.value
    requires p[at..at + |data|] == OnWire(data, mask)
    ensures |Unmasked(p)| == |p| && Unmasked(p)[at..][..|data|] == data
  {
    hide LayoutOf;
    if mask.Some? {
      MaskTwice(data, mask.value);
      hide Masked;
      assert Unmasked(p) == p[..at] + (data + p[at + |data|..]);
    }
  }

  /** With unsigned plain `char`, a text frame decodes to its data up to the first zero byte, masked or
      not, whichever length field it has and whatever follows it in the packet; so it decodes to its
      data exactly when that holds no zero byte. */
  lemma {:induction false} FrameRoundTrip(data: packet, mask: Option<packet>, f: LengthField, extra: packet)
    requires FrameOk(data, mask, f)
    ensures var p := TextFrame(data, mask, f) + extra;
            && Complete(p)
            && Decoded(false, p) == Some(CText(data))
            && (Decoded(false, p) == Some(data) <==> 0 !in data)
  {
    var p, at := TextFrame(data, mask, f) + extra, DataAt(mask, f);
    FrameParts(data, mask, f, extra);
    DataComesOut(data, mask, p, at);
    CTextKeeps(data);
    assert Recognised(false, p);
    hide TextFrame, LayoutOf, CText, Unmasked, Complete, Recognised, DataAt, MaskAt;
    assert Decoded(false, p) == Some(Printed(Unmasked(p)[at..], |data|));
  }

  /** The packet is left with the data unmasked where it stands, and nothing else changed. */
  lemma UnmaskedInPlace(data: packet, mask: Option<packet>, f: LengthField, extra: packet)
    requires FrameOk(data, mask, f)
    ensures After(false, TextFrame(data, mask, f) + extra) == FrameHead(mask.Some?, f) + MaskBytes(mask) + data + extra
  {
    var head, wire := FrameHead(mask.Some?, f) + MaskBytes(mask), OnWire(data, mask);
    var p, at := TextFrame(data, mask, f) + extra, DataAt(mask, f);
    FrameParts(data, mask, f, extra);
    assert |head| == at && |wire| == |data| && p == head + wire + extra;
    assert p[..at] == head && p[at + |data|..] == extra;
    if mask.Some? {
      MaskTwice(data, mask.value);
    }
    hide LayoutOf, Masked, TextFrame, FrameHead, MaskBytes, Announces;
  }

  lemma {:induction false} CTextKeeps(s: packet)
    ensures CText(s) == s <==> 0 !in s
  {
    if s != [] && s[0] != 0 {
      CTextKeeps(s[1..]);
    }
  }

  /** A length announced in 64 bits is given up on. */
  lemma LongFramesAreUnhandled(p: packet)
    requires |p| >= 2 && p[0] == 0x81 && p[1] & 0x7f == 127
    ensures Complete(p) && Decoded(false, p) == None
  {
    assert (127 as bv8) as int == 127;
  }

  /** With unsigned plain `char`, a packet that does not begin with 0x81, such as that of a handshake, is printed as it
      is, up to its first zero byte. */
  lemma OtherPacketsArePrinted(p: packet)
    requires p != [] && p[0] != 0x81
    ensures Decoded(false, p) == Some(CText(p)) && After(false, p) == p
  {
    assert p[..|p|] == p;
    assert (0x81 as bv8) as int == 129;
    ByteOf(p[0]);
  }

  lemma ByteOf(b: bv8)
    ensures b as int == 129 ==> b == 0x81
  {
  }

  /** With signed plain `char` no frame is ever recognised: the packet itself is printed, header and all. */
  lemma SignedCharSeesNoFrames(p: packet)
    requires p != []
    ensures Decoded(true, p) == Some(CText(p)) && After(true, p) == p
  {
    assert p[..|p|] == p;
  }

  lemma SignedCharLosesData()
    ensures var frame := TextFrame([0x48, 0x69], None, Short(2));
            Decoded(false, frame) == Some([0x48, 0x69]) && Decoded(true, frame) != Some([0x48, 0x69])
  {
    var data: packet := [0x48, 0x69];
    assert (2 as bv8) as int == 2;
    var frame := TextFrame(data, None, Short(2));
    FrameRoundTrip(data, None, Short(2), []);
    assert frame + [] == frame;
    SignedCharSeesNoFrames(frame);
    assert frame[0] == 0x81;
  }

  /** The byte at position `i` of a frame. */
  function FrameByte(data: packet, mask: Option<packet>, f: LengthField, i: nat): bv8
    requires FrameOk(data, mask, f) && i < DataAt(mask, f) + |data|
  {
    var m, at := MaskAt(f), DataAt(mask, f);
    if i < m then FrameHead(mask.Some?, f)[i]
    else if i < at then mask.value[i - m]
    else if mask.Some? then data[i - at] ^ mask.value[(i - at) % MASK_SIZE]
    else data[i - at]
  }

  lemma FrameBytes(data: packet, mask: Option<packet>, f: LengthField)
    requires FrameOk(data, mask, f)
    ensures var frame := TextFrame(data, mask, f);
            && |frame| == DataAt(mask, f) + |data|
            && forall i | 0 <= i < |frame| :: frame[i] == FrameByte(data, mask, f, i)
  {
    var head, wire := FrameHead(mask.Some?, f), OnWire(data, mask);
    assert |head| == MaskAt(f) && |wire| == |data| && |MaskBytes(mask)| == DataAt(mask, f) - MaskAt(f);
    assert forall i | 0 <= i < |data| ::
             wire[i] == if mask.Some? then data[i] ^ mask.value[i % MASK_SIZE] else data[i];
    hide Announces, FrameHead, OnWire, Masked;
    ThreeParts(head, MaskBytes(mask), wire);
  }

  lemma ThreeParts(a: packet, b: packet, c: packet)
    ensures var s := a + b + c;
            && |s| == |a| + |b| + |c|
            && forall i | 0 <= i < |s| ::
                 s[i] == if i < |a| then a[i] else if i < |a| + |b| then b[i - |a|] else c[i - |a| - |b|]
  {
  }

  /** The data begins as its own frame does, header, mask and all, with no zero byte, and where it ends the frame
      has one. */
  predicate MimicsFrame(data: packet, mask: Option<packet>, f: LengthField)
    requires FrameOk(data, mask, f)
  {
    && 0 !in data
    && (forall i | 0 <= i < |data| :: data[i] == FrameByte(data, mask, f, i))
    && FrameByte(data, mask, f, |data|) == 0
  }

  lemma {:induction false} CTextIs(s: packet, t: packet)
    requires |t| < |s|
    ensures CText(s) == t <==> 0 !in t && s[..|t|] == t && s[|t|] == 0
  {
    if t == [] {
      assert s[..0] == t;
    } else if s[0] != 0 && s[0] == t[0] {
      CTextIs(s[1..], t[1..]);
      assert s[1..][..|t| - 1] == s[..|t|][1..] && t == [t[0]] + t[1..] && s[..|t|] == [s[0]] + s[..|t|][1..];
    }
  }

  /** So a frame comes through as its data exactly when the data mimics the frame. */
  lemma SignedCharIsAccident(data: packet, mask: Option<packet>, f: LengthField)
    requires FrameOk(data, mask, f)
    ensures Decoded(true, TextFrame(data, mask, f)) == Some(data) <==> MimicsFrame(data, mask, f)
  {
    var frame := TextFrame(data, mask, f);
    FrameBytes(data, mask, f);
    assert DataAt(mask, f) >= 2;
    hide TextFrame, FrameByte, Decoded, CText, FrameOk, DataAt;
    SignedCharSeesNoFrames(frame);
    CTextIs(frame, data);
    PrefixIs(frame, data);
  }

  lemma PrefixIs(s: packet, t: packet)
    requires |t| < |s|
    ensures s[..|t|] == t <==> forall i | 0 <= i < |t| :: t[i] == s[i]
  {
  }

  /** Without a mask only two bytes of data do: 0x81 and 126, with a length field of sixteen bits. */
  lemma UnmaskedAccident(data: packet, f: LengthField)
    requires FrameOk(data, None, f)
    ensures Decoded(true, TextFrame(data, None, f)) == Some(data) <==> data == [0x81, 126] && f.Wide?
  {
    SignedCharIsAccident(data, None, f);
    var n := |data|;
    if MimicsFrame(data, None, f) {
      assert n < DataAt(None, f);
    }
    if f.Wide? && data == [0x81, 126] {
      assert f.high == 0;
    }
  }

  lemma SignedCharAccidentHappens()
    ensures exists data: packet, mask: Option<packet>, f: LengthField ::
              FrameOk(data, mask, f) && Decoded(true, TextFrame(data, mask, f)) == Some(data)
  {
    var data, mask: packet := [0x81, 0x83, 7], [7, 0, 1, 1];
    assert (3 as bv8) as int == 3;
    var f := Short(3);
    assert FrameOk(data, Some(mask), f);
    var frame := TextFrame(data, Some(mask), f);
    assert frame[..4] == [0x81, 0x83, 7, 0];
    assert frame == [0x81, 0x83, 7, 0] + frame[4..];
    CTextOfThree(0x81, 0x83, 7, frame[4..]);
    SignedCharIsAccident(data, Some(mask), f);
  }

  lemma CTextOfThree(a: bv8, b: bv8, c: bv8, rest: packet)
    requires a != 0 && b != 0 && c != 0
    ensures CText([a, b, c, 0] + rest) == [a, b, c]
  {
    var s := [a, b, c, 0] + rest;
    assert s[1..] == [b, c, 0] + rest && s[1..][1..] == [c, 0] + rest && s[1..][1..][1..] == [0] + rest;
    assert CText([0] + rest) == [];
    assert CText([c, 0] + rest) == [c];
  }
}
