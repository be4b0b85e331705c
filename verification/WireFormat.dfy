/** The wire primitives against the Encoding guide itself: which bytes they write and which they accept, with the
    numbers written out. */
module WireFormat {
  import opened Wire

  // ----- varints -----

  /** The number made of the low seven bits of each byte, least significant first. */
  function Groups(s: bytes): nat { if s == [] then 0 else s[0] % 128 + 128 * Groups(s[1..]) }

  /** The high bit is set on all bytes but the last. */
  predicate IsVarint(s: bytes) { s != [] && s[|s| - 1] < 128 && forall i | 0 <= i < |s| - 1 :: s[i] >= 128 }

  /** A number is written as the shortest varint of it. */
  lemma {:induction false} VarintIsShortest(v: nat)
    ensures var s := Varint(v); IsVarint(s) && Groups(s) == v && (|s| > 1 ==> s[|s| - 1] != 0)
  {
    var s := Varint(v);
    if v < 128 {
      assert Groups(s[1..]) == 0;
    } else {
      var rest := Varint(v / 128);
      VarintIsShortest(v / 128);
      assert s[1..] == rest && s[|s| - 1] == rest[|rest| - 1];
      assert forall i | 0 < i < |s| - 1 :: s[i] == rest[i - 1];
    }
  }

  lemma {:induction false} ReadsUpTo(s: bytes, rest: bytes, n: nat)
    requires IsVarint(s)
    ensures ReadVarintUpTo(s + rest, n) == if |s| <= n then Got(Groups(s), rest) else Malformed
    decreases n
  {
    assert (s + rest)[1..] == s[1..] + rest && (s + rest)[0] == s[0];
    if |s| == 1 {
      assert s[1..] == [] && [] + rest == rest;
    } else if n > 0 {
      var t := s[1..];
      assert t[|t| - 1] == s[|s| - 1] && forall i | 0 <= i < |t| - 1 :: t[i] == s[i + 1];
      ReadsUpTo(t, rest, n - 1);
    }
  }

  /** Any varint of up to ten bytes is read, shortest or not, and bits that do not fit are dropped. */
  lemma ReadsVarint(s: bytes, rest: bytes)
    requires IsVarint(s)
    ensures ReadVarint64(s + rest) == if |s| <= 10 then Got(Groups(s) % 0x1_0000_0000_0000_0000, rest) else Malformed
    ensures ReadVarint32(s + rest) == if |s| <= 10 then Got(Groups(s) % 0x1_0000_0000, rest) else Malformed
  {
    ReadsUpTo(s, rest, 10);
    hide ReadVarintUpTo, Groups, IsVarint;
  }

  lemma {:induction false} RejectsUpTo(s: bytes, n: nat)
    ensures ReadVarintUpTo(s, n).Malformed? <==> forall i | 0 <= i < |s| && i < n :: s[i] >= 128
    decreases n
  {
    if n > 0 && s != [] && s[0] >= 128 {
      RejectsUpTo(s[1..], n - 1);
      if i :| 0 <= i < |s| && i < n && s[i] < 128 {
        assert s[1..][i - 1] < 128;
      }
      if ReadVarintUpTo(s, n).Got? {
        var i :| 0 <= i < |s[1..]| && i < n - 1 && s[1..][i] < 128;
        assert s[i + 1] < 128;
      }
    }
  }

  /** Nothing else is: ten bytes without an end, or the end of the input before one, are malformed. */
  lemma RejectsVarint(s: bytes)
    ensures ReadVarint64(s).Malformed? <==> forall i | 0 <= i < |s| && i < 10 :: s[i] >= 128
    ensures ReadVarint32(s).Malformed? <==> ReadVarint64(s).Malformed?
  {
    RejectsUpTo(s, 10);
    hide ReadVarintUpTo;
  }

  /** A length is at most 2^31 - 1 and at most what is left. */
  lemma ReadsLength(s: bytes, rest: bytes)
    requires IsVarint(s) && |s| <= 10
    ensures var n := Groups(s) % 0x1_0000_0000;
            ReadLengthDelimited(s + rest) ==
            if n >= 0x8000_0000 || n > |rest| then Malformed else Got(rest[..n], rest[n..])
  {
    ReadsVarint(s, rest);
    hide Groups, IsVarint;
  }

  /** The 64 bits of a signed number. */
  lemma SignedBits(v: int64, u: uint64)
    ensures SignExtend(v) == (if v < 0 then v + 0x1_0000_0000_0000_0000 else v)
    ensures ToInt64(u) == (if u < 0x8000_0000_0000_0000 then u else u - 0x1_0000_0000_0000_0000)
  {
  }

  // ----- records -----

  /** The bytes of a record: eight times its number plus its wire type, and its value. */
  function RecordBytes(u: Unknown): bytes
    decreases u
  {
    match u
    case UVarint(n, v) => Varint(8 * n) + Varint(v)
    case UFixed64(n, raw) => Varint(8 * n + 1) + raw
    case ULength(n, raw) => Varint(8 * n + 2) + (Varint(|raw|) + raw)
    case UGroup(n, fields) => Varint(8 * n + 3) + (RecordsBytes(fields) + Varint(8 * n + 4))
    case UFixed32(n, raw) => Varint(8 * n + 5) + raw
  }

  function RecordsBytes(us: seq<Unknown>): bytes
    decreases us
  {
    if us == [] then [] else RecordBytes(us[0]) + RecordsBytes(us[1..])
  }

  lemma {:induction false} RecordFormat(u: Unknown)
    ensures SerializeUnknown(u) == RecordBytes(u)
    decreases u
  {
    if u.UGroup? {
      RecordsFormat(u.fields);
    }
    hide Varint;
  }

  lemma {:induction false} RecordsFormat(us: seq<Unknown>)
    ensures SerializeUnknowns(us) == RecordsBytes(us)
    decreases us
  {
    if us != [] {
      RecordFormat(us[0]);
      RecordsFormat(us[1..]);
      hide SerializeUnknown, RecordBytes;
    }
  }

  /** A C string is what comes before the first zero byte. */
  lemma {:induction false} CutIsPrefix(s: bytes)
    ensures var t := Cut(s); 0 !in t && t <= s && (|t| < |s| ==> s[|t|] == 0)
  {
    if s != [] && s[0] != 0 {
      CutIsPrefix(s[1..]);
    }
  }

  // ----- what ends a message -----

  /** A tag with wire type four ends a group if it carries its number, and spoils it if it carries another. */
  lemma GroupEnds(num: nat, n: nat, rest: bytes, depth: nat)
    requires 1 <= n < 0x2000_0000
    ensures ReadGroup(num, Varint(8 * n + 4) + rest, depth) == if n == num then Got([], rest) else Malformed
  {
    ReadTagRoundTrip(8 * n + 4, rest);
    assert (8 * n + 4) % 8 == 4 && (8 * n + 4) / 8 == n;
    hide ReadTag, Varint, SkipField;
  }

  /** Groups nested deeper than the recursion budget, wire types six and seven, and field number zero are malformed. */
  lemma SpoiltTags(num: nat, s: bytes, depth: nat)
    requires num < 0x2000_0000
    ensures SkipField(8 * num + 3, s, 0).Malformed?
    ensures SkipField(8 * num + 6, s, depth).Malformed? && SkipField(8 * num + 7, s, depth).Malformed?
    ensures SkipField(8 * num + 4, s, depth).Malformed?
    ensures forall t | 0 <= t < 8 :: SkipField(t, s, depth).Malformed?
  {
  }
}
