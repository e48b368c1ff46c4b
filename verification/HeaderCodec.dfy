/** The wire form of DataSampleHeader (dds/DCPS/DataSampleHeader.cpp): operator<<,
    add_cfentries, init and partial. */
module HeaderCodec {
  import opened Basics
  import Digits

  type U32 = x: int | 0 <= x < 0x1_0000_0000
  type I32 = x: int | -0x8000_0000 <= x < 0x8000_0000
  type Guid = g: seq<Byte> | |g| == 16 witness seq(16, _ => 0)

  const MESSAGE_ID_MAX := 12
  const SUBMESSAGE_ID_MAX := 5

  const BYTE_ORDER_FLAG := 0
  const COHERENT_CHANGE_FLAG := 1
  const HISTORIC_SAMPLE_FLAG := 2
  const LIFESPAN_DURATION_FLAG := 3
  const GROUP_COHERENT_FLAG := 4
  const CONTENT_FILTER_FLAG := 5
  const SEQUENCE_REPAIR_FLAG := 6
  const MORE_FRAGMENTS_FLAG := 7
  const CDR_ENCAP_FLAG := 0
  const KEY_ONLY_FLAG := 1

  /** The first flags byte, in bit order, then the second one, then the fields. */
  datatype Header = Header(
    messageId: Byte, submessageId: Byte,
    littleEndian: bool, coherentChange: bool, historicSample: bool, lifespanDuration: bool,
    groupCoherent: bool, contentFilter: bool, sequenceRepair: bool, moreFragments: bool,
    cdrEncapsulation: bool, keyFieldsOnly: bool,
    messageLength: U32, sequenceHigh: I32, sequenceLow: U32,
    sourceSec: I32, sourceNanosec: U32, lifespanSec: I32, lifespanNanosec: U32,
    publicationId: Guid, publisherId: Guid, entries: seq<Guid>)

  // ----- bytes and words -----

  function Word(little: bool, v: U32): (b: seq<Byte>)
    ensures |b| == 4
  {
    var high := v / 0x100;
    var higher := high / 0x100;
    if little then [v % 0x100, high % 0x100, higher % 0x100, higher / 0x100]
    else [higher / 0x100, higher % 0x100, high % 0x100, v % 0x100]
  }

  function WordAt(little: bool, b: seq<Byte>, p: nat): U32
    requires p + 4 <= |b|
  {
    var x0: int, x1: int, x2: int, x3: int := b[p], b[p + 1], b[p + 2], b[p + 3];
    if little then x0 + 0x100 * x1 + 0x1_0000 * x2 + 0x100_0000 * x3
    else x3 + 0x100 * x2 + 0x1_0000 * x1 + 0x100_0000 * x0
  }

  /** Two's complement. */
  function Unsigned(v: I32): U32 {
    if v < 0 then v + 0x1_0000_0000 else v
  }

  function Signed(v: U32): I32 {
    if v >= 0x8000_0000 then v - 0x1_0000_0000 else v
  }

  /** A byte from its bits, the bit of weight one first. */
  function Packed(bits: seq<bool>): (v: nat)
    ensures v < Digits.Power(2, |bits|)
  {
    if bits == [] then 0 else (if bits[0] then 1 else 0) + 2 * Packed(bits[1..])
  }

  predicate BitOf(v: nat, n: nat) {
    if n == 0 then v % 2 == 1 else BitOf(v / 2, n - 1)
  }

  function Unpacked(v: Byte): (bits: seq<bool>)
    ensures |bits| == 8
  {
    seq(8, n requires 0 <= n < 8 => BitOf(v, n))
  }

  function FlagBits(h: Header): seq<bool> {
    [h.littleEndian, h.coherentChange, h.historicSample, h.lifespanDuration,
     h.groupCoherent, h.contentFilter, h.sequenceRepair, h.moreFragments]
  }

  function FlagBits2(h: Header): seq<bool> {
    [h.cdrEncapsulation, h.keyFieldsOnly]
  }

  function Flags(h: Header): Byte {
    assert Digits.Power(2, 8) == 0x100;
    Packed(FlagBits(h))
  }

  function Flags2(h: Header): Byte {
    assert Digits.Power(2, 2) == 4;
    Packed(FlagBits2(h))
  }

  function Concat(guids: seq<Guid>): (b: seq<Byte>)
    ensures |b| == 16 * |guids|
  {
    if guids == [] then [] else guids[0] + Concat(guids[1..])
  }

  // ----- encoding -----

  /** operator<<: the fixed part and the optional lifespan and publisher id. */
  function Prefix(h: Header): (b: seq<Byte>)
    ensures |b| == 24
  {
    [h.messageId, h.submessageId, Flags(h), Flags2(h)]
    + Word(h.littleEndian, h.messageLength)
    + Word(h.littleEndian, Unsigned(h.sequenceHigh)) + Word(h.littleEndian, h.sequenceLow)
    + Word(h.littleEndian, Unsigned(h.sourceSec)) + Word(h.littleEndian, h.sourceNanosec)
  }

  function Lifespan(h: Header): seq<Byte> {
    if h.lifespanDuration then Word(h.littleEndian, Unsigned(h.lifespanSec)) + Word(h.littleEndian, h.lifespanNanosec) else []
  }

  function Publisher(h: Header): seq<Byte> {
    if h.groupCoherent then h.publisherId else []
  }

  function EncodeFixed(h: Header): seq<Byte> {
    Prefix(h) + Lifespan(h) + h.publicationId + Publisher(h)
  }

  /** add_cfentries. */
  function EncodeEntries(h: Header): seq<Byte>
    requires |h.entries| < 0x1_0000_0000
  {
    if h.contentFilter then Word(h.littleEndian, |h.entries|) + Concat(h.entries) else []
  }

  function Encode(h: Header): seq<Byte>
    requires |h.entries| < 0x1_0000_0000
  {
    EncodeFixed(h) + EncodeEntries(h)
  }

  /** What a header object holding was reads from h: init leaves an absent optional field as it was. */
  function Received(was: Header, h: Header): Header {
    h.(lifespanSec := if h.lifespanDuration then h.lifespanSec else was.lifespanSec,
       lifespanNanosec := if h.lifespanDuration then h.lifespanNanosec else was.lifespanNanosec,
       publisherId := if h.groupCoherent then h.publisherId else was.publisherId,
       entries := if h.contentFilter then h.entries else was.entries)
  }

  // ----- decoding -----

  /** max_marshaled_size less the optional fields that are absent. */
  function FixedLength(flags: seq<bool>): (n: nat)
    requires |flags| == 8
    ensures 40 <= n <= 64
  {
    64 - (if flags[LIFESPAN_DURATION_FLAG] then 0 else 8) - (if flags[GROUP_COHERENT_FLAG] then 0 else 16)
  }

  function GuidAt(b: seq<Byte>, p: nat): Guid
    requires p + 16 <= |b|
  {
    b[p..p + 16]
  }

  function GuidsAt(b: seq<Byte>, p: nat, n: nat): (g: seq<Guid>)
    requires p + 16 * n <= |b|
    ensures |g| == n
    decreases n
  {
    if n == 0 then [] else [GuidAt(b, p)] + GuidsAt(b, p + 16, n - 1)
  }

  /** The fields before the content filter entries, each at the offset the flags give it. */
  function FixedAt(was: Header, b: seq<Byte>, f: seq<bool>, g: seq<bool>): Header
    requires |f| == 8 && |g| == 8 && |b| >= FixedLength(f)
  {
    var little, life, group := f[BYTE_ORDER_FLAG], f[LIFESPAN_DURATION_FLAG], f[GROUP_COHERENT_FLAG];
    var pub := if life then 32 else 24;
    Header(b[0], b[1],
           little, f[COHERENT_CHANGE_FLAG], f[HISTORIC_SAMPLE_FLAG], life, group,
           f[CONTENT_FILTER_FLAG], f[SEQUENCE_REPAIR_FLAG], f[MORE_FRAGMENTS_FLAG],
           g[CDR_ENCAP_FLAG], g[KEY_ONLY_FLAG],
           WordAt(little, b, 4), Signed(WordAt(little, b, 8)), WordAt(little, b, 12),
           Signed(WordAt(little, b, 16)), WordAt(little, b, 20),
           if life then Signed(WordAt(little, b, 24)) else was.lifespanSec,
           if life then WordAt(little, b, 28) else was.lifespanNanosec,
           GuidAt(b, pub), if group then GuidAt(b, pub + 16) else was.publisherId, was.entries)
  }

  /** The length of the header at the start of b, given its flags, or None when b ends inside it. */
  function LengthAt(b: seq<Byte>, f: seq<bool>): (n: Option<nat>)
    requires |f| == 8
    ensures n.Some? ==> FixedLength(f) <= n.value <= |b|
  {
    var fixed := FixedLength(f);
    if |b| < fixed then None
    else if !f[CONTENT_FILTER_FLAG] then Some(fixed)
    else if |b| < fixed + 4 then None
    else
      var n := fixed + 4 + 16 * WordAt(f[BYTE_ORDER_FLAG], b, fixed);
      if |b| < n then None else Some(n)
  }

  /** fixed completed with the content filter entries at p. */
  function WithEntries(fixed: Header, b: seq<Byte>, p: nat): Header
    requires fixed.contentFilter ==> p + 4 <= |b| && p + 4 + 16 * WordAt(fixed.littleEndian, b, p) <= |b|
  {
    if fixed.contentFilter then fixed.(entries := GuidsAt(b, p + 4, WordAt(fixed.littleEndian, b, p))) else fixed
  }

  function HeaderLength(b: seq<Byte>): (n: Option<nat>)
    ensures n.Some? ==> 40 <= n.value <= |b|
  {
    if |b| < 4 then None else LengthAt(b, Unpacked(b[2]))
  }

  /** What a header object holding was holds after reading b. */
  function Decode(was: Header, b: seq<Byte>): Header
    requires HeaderLength(b).Some?
  {
    WithEntries(FixedAt(was, b, Unpacked(b[2]), Unpacked(b[3])), b, FixedLength(Unpacked(b[2])))
  }

  // ----- round trip -----

  lemma {:induction false} WordRoundTrip(little: bool, v: U32, b: seq<Byte>, p: nat)
    requires p + 4 <= |b| && b[p..p + 4] == Word(little, v)
    ensures WordAt(little, b, p) == v
  {
    var w := Word(little, v);
    assert b[p] == w[0] && b[p + 1] == w[1] && b[p + 2] == w[2] && b[p + 3] == w[3];
  }

  lemma {:induction false} BitRoundTrip(bits: seq<bool>, n: nat)
    requires n < |bits|
    ensures BitOf(Packed(bits), n) == bits[n]
  {
    Halves(if bits[0] then 1 else 0, Packed(bits[1..]));
    if n > 0 {
      BitRoundTrip(bits[1..], n - 1);
    }
  }

  lemma {:induction false} Halves(bit: nat, rest: nat)
    requires bit < 2
    ensures (bit + 2 * rest) % 2 == bit && (bit + 2 * rest) / 2 == rest
  {
  }

  lemma {:induction false} UnpackRoundTrip(bits: seq<bool>)
    requires |bits| <= 8 && Packed(bits) < 0x100
    ensures Unpacked(Packed(bits))[..|bits|] == bits
  {
    forall n | 0 <= n < |bits| ensures Unpacked(Packed(bits))[n] == bits[n] {
      BitRoundTrip(bits, n);
    }
  }

  /** Reading GUIDs back from where they were written. */
  lemma {:induction false} GuidsRoundTrip(guids: seq<Guid>, b: seq<Byte>, p: nat)
    requires p + 16 * |guids| <= |b| && b[p..p + 16 * |guids|] == Concat(guids)
    ensures GuidsAt(b, p, |guids|) == guids
  {
    if guids != [] {
      var all := b[p..p + 16 * |guids|];
      assert all[..16] == guids[0] && all[16..] == Concat(guids[1..]);
      assert b[p..p + 16] == all[..16];
      assert b[p + 16..p + 16 + 16 * |guids[1..]|] == all[16..];
      GuidsRoundTrip(guids[1..], b, p + 16);
      assert guids == [guids[0]] + guids[1..];
    }
  }

  /** Where operator<< puts each field. */
  predicate HoldsPrefix(h: Header, b: seq<Byte>) {
    var e := h.littleEndian;
    && |b| >= 24
    && b[..4] == [h.messageId, h.submessageId, Flags(h), Flags2(h)]
    && b[4..8] == Word(e, h.messageLength)
    && b[8..12] == Word(e, Unsigned(h.sequenceHigh)) && b[12..16] == Word(e, h.sequenceLow)
    && b[16..20] == Word(e, Unsigned(h.sourceSec)) && b[20..24] == Word(e, h.sourceNanosec)
  }

  predicate HoldsOptional(h: Header, b: seq<Byte>) {
    var pub := 24 + |Lifespan(h)|;
    && |b| >= pub + 16 + |Publisher(h)|
    && b[24..pub] == Lifespan(h)
    && b[pub..pub + 16] == h.publicationId
    && b[pub + 16..pub + 16 + |Publisher(h)|] == Publisher(h)
  }

  lemma {:induction false} PrefixIsHeld(h: Header, rest: seq<Byte>)
    ensures HoldsPrefix(h, Prefix(h) + rest)
  {
    var e := h.littleEndian;
    SixOfFour([h.messageId, h.submessageId, Flags(h), Flags2(h)], Word(e, h.messageLength),
              Word(e, Unsigned(h.sequenceHigh)), Word(e, h.sequenceLow),
              Word(e, Unsigned(h.sourceSec)), Word(e, h.sourceNanosec), rest);
  }

  lemma {:induction false} SixOfFour(a: seq<Byte>, b: seq<Byte>, c: seq<Byte>, d: seq<Byte>, e: seq<Byte>, f: seq<Byte>,
                                     rest: seq<Byte>)
    requires |a| == |b| == |c| == |d| == |e| == |f| == 4
    ensures var all := a + b + c + d + e + f + rest;
            && all[..4] == a && all[4..8] == b && all[8..12] == c
            && all[12..16] == d && all[16..20] == e && all[20..24] == f
  {
  }

  lemma {:induction false} Regroup(a: seq<Byte>, b: seq<Byte>, c: seq<Byte>, d: seq<Byte>, rest: seq<Byte>)
    ensures a + b + c + d + rest == a + (b + c + d + rest)
    ensures var all := a + b + c + d + rest;
            var p, q := |a| + |b|, |a| + |b| + |c|;
            all[|a|..p] == b && all[p..q] == c && all[q..q + |d|] == d
  {
  }

  lemma {:induction false} FixedIsHeld(h: Header, rest: seq<Byte>)
    ensures HoldsPrefix(h, EncodeFixed(h) + rest) && HoldsOptional(h, EncodeFixed(h) + rest)
    ensures |EncodeFixed(h)| == FixedLength(FlagBits(h))
  {
    PrefixIsHeld(h, Lifespan(h) + h.publicationId + Publisher(h) + rest);
    Regroup(Prefix(h), Lifespan(h), h.publicationId, Publisher(h), rest);
  }

  /** The fields as WordAt and GuidAt find them. */
  predicate Readable(h: Header, b: seq<Byte>) {
    var e, pub := h.littleEndian, if h.lifespanDuration then 32 else 24;
    && |b| >= pub + 16 + (if h.groupCoherent then 16 else 0)
    && b[0] == h.messageId && b[1] == h.submessageId
    && WordAt(e, b, 4) == h.messageLength
    && WordAt(e, b, 8) == Unsigned(h.sequenceHigh) && WordAt(e, b, 12) == h.sequenceLow
    && WordAt(e, b, 16) == Unsigned(h.sourceSec) && WordAt(e, b, 20) == h.sourceNanosec
    && (h.lifespanDuration ==>
          WordAt(e, b, 24) == Unsigned(h.lifespanSec) && WordAt(e, b, 28) == h.lifespanNanosec)
    && GuidAt(b, pub) == h.publicationId
    && (h.groupCoherent ==> GuidAt(b, pub + 16) == h.publisherId)
  }

  lemma {:induction false} FixedIsReadable(h: Header, b: seq<Byte>)
    requires HoldsPrefix(h, b) && HoldsOptional(h, b)
    ensures Readable(h, b)
  {
    var e, lead := h.littleEndian, b[..4];
    assert b[0] == lead[0] && b[1] == lead[1];
    WordRoundTrip(e, h.messageLength, b, 4);
    WordRoundTrip(e, Unsigned(h.sequenceHigh), b, 8);
    WordRoundTrip(e, h.sequenceLow, b, 12);
    WordRoundTrip(e, Unsigned(h.sourceSec), b, 16);
    WordRoundTrip(e, h.sourceNanosec, b, 20);
    if h.lifespanDuration {
      var life := b[24..32];
      assert b[24..28] == life[..4] && b[28..32] == life[4..];
      WordRoundTrip(e, Unsigned(h.lifespanSec), b, 24);
      WordRoundTrip(e, h.lifespanNanosec, b, 28);
    }
  }

  lemma {:induction false} LeadRoundTrip(h: Header, b: seq<Byte>)
    requires HoldsPrefix(h, b) && HoldsOptional(h, b)
    ensures Unpacked(b[2]) == FlagBits(h)
    ensures Unpacked(b[3])[0] == h.cdrEncapsulation && Unpacked(b[3])[1] == h.keyFieldsOnly
  {
    var lead := b[..4];
    assert b[2] == lead[2] && b[3] == lead[3];
    UnpackRoundTrip(FlagBits(h));
    UnpackRoundTrip(FlagBits2(h));
    var g := Unpacked(b[3]);
    assert g[0] == g[..2][0] && g[1] == g[..2][1];
  }

  lemma {:induction false} ReadableRoundTrip(was: Header, h: Header, b: seq<Byte>, g: seq<bool>)
    requires Readable(h, b) && |g| == 8 && g[0] == h.cdrEncapsulation && g[1] == h.keyFieldsOnly
    ensures FixedLength(FlagBits(h)) <= |b|
    ensures FixedAt(was, b, FlagBits(h), g) == Received(was, h).(entries := was.entries)
  {
  }

  lemma {:induction false} EntriesRoundTrip(h: Header, b: seq<Byte>, p: nat)
    requires |h.entries| < 0x1_0000_0000 && h.contentFilter
    requires p + 4 + 16 * |h.entries| <= |b| && b[p..p + 4 + 16 * |h.entries|] == EncodeEntries(h)
    ensures WordAt(h.littleEndian, b, p) == |h.entries|
    ensures GuidsAt(b, p + 4, |h.entries|) == h.entries
  {
    var entries := EncodeEntries(h);
    assert b[p..p + 4] == entries[..4];
    WordRoundTrip(h.littleEndian, |h.entries|, b, p);
    assert b[p + 4..p + 4 + 16 * |h.entries|] == entries[4..];
    GuidsRoundTrip(h.entries, b, p + 4);
  }

  predicate HoldsEntries(h: Header, b: seq<Byte>, p: nat) {
    h.contentFilter ==>
      && p + 4 + 16 * |h.entries| <= |b| && WordAt(h.littleEndian, b, p) == |h.entries|
      && GuidsAt(b, p + 4, |h.entries|) == h.entries
  }

  lemma {:induction false} CompleteRoundTrip(was: Header, h: Header, b: seq<Byte>, p: nat)
    requires p == FixedLength(FlagBits(h)) <= |b| && HoldsEntries(h, b, p)
    ensures LengthAt(b, FlagBits(h)) == Some(if h.contentFilter then p + 4 + 16 * |h.entries| else p)
    ensures WithEntries(Received(was, h).(entries := was.entries), b, p) == Received(was, h)
  {
  }

  lemma {:induction false} ReadBack(was: Header, h: Header, b: seq<Byte>, p: nat)
    requires p == FixedLength(FlagBits(h)) && Readable(h, b) && HoldsEntries(h, b, p)
    requires Unpacked(b[2]) == FlagBits(h)
    requires Unpacked(b[3])[0] == h.cdrEncapsulation && Unpacked(b[3])[1] == h.keyFieldsOnly
    ensures HeaderLength(b) == Some(if h.contentFilter then p + 4 + 16 * |h.entries| else p)
    ensures Decode(was, b) == Received(was, h)
  {
    ReadableRoundTrip(was, h, b, Unpacked(b[3]));
    CompleteRoundTrip(was, h, b, p);
  }

  predicate Holds(h: Header, b: seq<Byte>)
    requires |h.entries| < 0x1_0000_0000
  {
    var p := FixedLength(FlagBits(h));
    && HoldsPrefix(h, b) && HoldsOptional(h, b)
    && p + |EncodeEntries(h)| <= |b| && b[p..p + |EncodeEntries(h)|] == EncodeEntries(h)
  }

  lemma {:induction false} EncodingIsHeld(h: Header, rest: seq<Byte>)
    requires |h.entries| < 0x1_0000_0000
    ensures Holds(h, Encode(h) + rest) && |Encode(h)| == FixedLength(FlagBits(h)) + |EncodeEntries(h)|
  {
    var b, entries := Encode(h) + rest, EncodeEntries(h);
    assert b == EncodeFixed(h) + (entries + rest);
    FixedIsHeld(h, entries + rest);
  }

  lemma {:induction false} HeldRoundTrip(was: Header, h: Header, b: seq<Byte>)
    requires |h.entries| < 0x1_0000_0000 && Holds(h, b)
    ensures HeaderLength(b) == Some(FixedLength(FlagBits(h)) + |EncodeEntries(h)|)
    ensures Decode(was, b) == Received(was, h)
  {
    var p := FixedLength(FlagBits(h));
    LeadRoundTrip(h, b);
    FixedIsReadable(h, b);
    HeldEntries(h, b, p);
    ReadBack(was, h, b, p);
  }

  lemma {:induction false} HeldEntries(h: Header, b: seq<Byte>, p: nat)
    requires |h.entries| < 0x1_0000_0000 && p + |EncodeEntries(h)| <= |b| && b[p..p + |EncodeEntries(h)|] == EncodeEntries(h)
    ensures HoldsEntries(h, b, p) && |EncodeEntries(h)| == (if h.contentFilter then 4 + 16 * |h.entries| else 0)
  {
    if h.contentFilter {
      EntriesRoundTrip(h, b, p);
    }
  }

  /** init reads back every field that operator<< and add_cfentries wrote, in either byte order
      and whatever follows the header, and stops exactly at its end. */
  lemma {:induction false} HeaderRoundTrip(was: Header, h: Header, rest: seq<Byte>)
    requires |h.entries| < 0x1_0000_0000
    ensures HeaderLength(Encode(h) + rest) == Some(|Encode(h)|)
    ensures Decode(was, Encode(h) + rest) == Received(was, h)
  {
    EncodingIsHeld(h, rest);
    HeldRoundTrip(was, h, Encode(h) + rest);
  }

  /** A complete header is not affected by what follows it. */
  lemma {:induction false} LengthIsStable(p: seq<Byte>, q: seq<Byte>)
    requires p <= q && HeaderLength(p).Some?
    ensures HeaderLength(q) == HeaderLength(p)
  {
    assert q == p + q[|p|..];
  }
}
