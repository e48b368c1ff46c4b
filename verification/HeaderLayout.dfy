/** The bytes of a sample header, in terms of numbers: byte order, flag bits, two's complement and the order of fields. */
module HeaderLayouts {
  import opened Basics
  import opened HeaderCodec
  import opened HeaderReader
  import opened Fragmentation
  import Digits

  /** Big-endian is the digits in base 256, the highest first; little-endian is the same bytes the other way round. */
  lemma {:induction false} ByteOrder(v: U32)
    ensures Word(false, v) == Digits.Expand(256, 4, v)
    ensures forall i :: 0 <= i < 4 ==> Word(true, v)[i] == Word(false, v)[3 - i]
  {
    var v1, v2, v3 := v / 0x100, v / 0x100 / 0x100, v / 0x100 / 0x100 / 0x100;
    assert Digits.Expand(256, 1, v3) == [] + [v3 % 256];
    assert Digits.Expand(256, 2, v2) == [v3 % 256] + [v2 % 256];
    assert Digits.Expand(256, 3, v1) == [v3 % 256, v2 % 256] + [v1 % 256];
    assert Digits.Expand(256, 4, v) == [v3 % 256, v2 % 256, v1 % 256] + [v % 256];
  }

  /** Reading does the same in the other direction. */
  lemma {:induction false} ByteOrderRead(b: seq<Byte>, p: nat)
    requires p + 4 <= |b|
    ensures WordAt(false, b, p) == Digits.Value(256, b[p..p + 4])
    ensures WordAt(true, b, p) == Digits.Value(256, Reverse(b[p..p + 4]))
  {
    FourDigits(b[p], b[p + 1], b[p + 2], b[p + 3]);
    FourDigits(b[p + 3], b[p + 2], b[p + 1], b[p]);
    assert b[p..p + 4] == [b[p], b[p + 1], b[p + 2], b[p + 3]];
    assert Reverse(b[p..p + 4]) == [b[p + 3], b[p + 2], b[p + 1], b[p]];
  }

  lemma {:induction false} FourDigits(a: Byte, b: Byte, c: Byte, d: Byte)
    ensures Digits.Value(256, [a, b, c, d]) == ((a * 256 + b) * 256 + c) * 256 + d
  {
    Digits.ValueOfAppended(256, [], a);
    Digits.ValueOfAppended(256, [a], b);
    Digits.ValueOfAppended(256, [a, b], c);
    Digits.ValueOfAppended(256, [a, b, c], d);
    assert [] + [a] == [a] && [a] + [b] == [a, b] && [a, b] + [c] == [a, b, c] && [a, b, c] + [d] == [a, b, c, d];
  }

  /** A signed number and what is written for it differ by a multiple of the word size. */
  lemma {:induction false} TwosComplement(v: I32, u: U32)
    ensures Unsigned(v) == u <==> (u - v) % 0x1_0000_0000 == 0
    ensures Signed(u) == v <==> (u - v) % 0x1_0000_0000 == 0
  {
  }

  function Bit(flag: bool): nat {
    if flag then 1 else 0
  }

  /** mask_flag: the flag numbered n is the bit of weight two to the n. */
  lemma {:induction false} FlagsAreWeighted(h: Header)
    ensures Flags(h) == Bit(h.littleEndian) + 2 * Bit(h.coherentChange) + 4 * Bit(h.historicSample)
                        + 8 * Bit(h.lifespanDuration) + 16 * Bit(h.groupCoherent) + 32 * Bit(h.contentFilter)
                        + 64 * Bit(h.sequenceRepair) + 128 * Bit(h.moreFragments)
  {
    PackedEight(h.littleEndian, h.coherentChange, h.historicSample, h.lifespanDuration,
                h.groupCoherent, h.contentFilter, h.sequenceRepair, h.moreFragments, FlagBits(h));
  }

  lemma {:induction false} Flags2AreWeighted(h: Header)
    ensures Flags2(h) == Bit(h.cdrEncapsulation) + 2 * Bit(h.keyFieldsOnly)
  {
    PackedTwo(h.cdrEncapsulation, h.keyFieldsOnly, [], FlagBits2(h));
  }

  lemma {:induction false} PackedEight(a: bool, b: bool, c: bool, d: bool, e: bool, f: bool, g: bool, h: bool, all: seq<bool>)
    requires all == [a, b, c, d, e, f, g, h]
    ensures Packed(all) == Bit(a) + 2 * Bit(b) + 4 * Bit(c) + 8 * Bit(d) + 16 * Bit(e) + 32 * Bit(f) + 64 * Bit(g) + 128 * Bit(h)
  {
    var high := [e, f, g, h];
    PackedFour(a, b, c, d, high, all);
    PackedFour(e, f, g, h, [], high);
  }

  lemma {:induction false} PackedTwo(a: bool, b: bool, rest: seq<bool>, all: seq<bool>)
    requires all == [a, b] + rest
    ensures Packed(all) == Bit(a) + 2 * Bit(b) + 4 * Packed(rest)
  {
    assert all[1..] == [b] + rest && ([b] + rest)[1..] == rest;
  }

  lemma {:induction false} PackedFour(a: bool, b: bool, c: bool, d: bool, rest: seq<bool>, all: seq<bool>)
    requires all == [a, b, c, d] + rest
    ensures Packed(all) == Bit(a) + 2 * Bit(b) + 4 * Bit(c) + 8 * Bit(d) + 16 * Packed(rest)
  {
    PackedTwo(a, b, [c, d] + rest, all);
    PackedTwo(c, d, rest, [c, d] + rest);
  }

  /** The entries stand one after the other. */
  lemma {:induction false} EntryBytes(guids: seq<Guid>, i: nat, j: nat)
    requires i < |guids| && j < 16
    ensures 16 * i + j < |Concat(guids)| && Concat(guids)[16 * i + j] == guids[i][j]
  {
    if i > 0 { EntryBytes(guids[1..], i - 1, j); }
  }

  /** A little-endian header with every optional field and one entry. */
  function FullHeader(pub: Guid, group: Guid, entry: Guid): Header {
    Header(10, 4, true, false, true, true, true, true, false, true, false, true,
           0x01020304, -2, 0x0A0B0C0D, 1, 2, 3, 0x8000_0000, pub, group, [entry])
  }

  /** A big-endian header without optional fields. */
  function PlainHeader(pub: Guid, group: Guid): Header {
    Header(0, 0, false, false, false, false, false, false, true, false, true, false,
           0x01020304, -2, 0x0A0B0C0D, 1, 2, 3, 4, pub, group, [])
  }

  lemma {:induction false} FullExample(pub: Guid, group: Guid, entry: Guid)
    ensures var h := FullHeader(pub, group, entry);
      && Prefix(h) == [10, 4, 0xBD, 0x02] + [4, 3, 2, 1] + [0xFE, 0xFF, 0xFF, 0xFF] + [0x0D, 0x0C, 0x0B, 0x0A]
                      + [1, 0, 0, 0] + [2, 0, 0, 0]
      && Encode(h) == Prefix(h) + ([3, 0, 0, 0] + [0, 0, 0, 0x80]) + pub + group + ([1, 0, 0, 0] + entry)
  {
    FlagsAreWeighted(FullHeader(pub, group, entry));
    Flags2AreWeighted(FullHeader(pub, group, entry));
    assert Concat([entry]) == entry + [] == entry;
  }

  lemma {:induction false} PlainExample(pub: Guid, group: Guid)
    ensures var h := PlainHeader(pub, group);
      && Prefix(h) == [0, 0, 0x40, 0x01] + [1, 2, 3, 4] + [0xFF, 0xFF, 0xFF, 0xFE] + [0x0A, 0x0B, 0x0C, 0x0D]
                      + [0, 0, 0, 1] + [0, 0, 0, 2]
      && Encode(h) == Prefix(h) + [] + pub + [] + []
  {
    FlagsAreWeighted(PlainHeader(pub, group));
    Flags2AreWeighted(PlainHeader(pub, group));
    assert Word(false, 0x01020304) == [1, 2, 3, 4] && Word(false, Unsigned(-2)) == [0xFF, 0xFF, 0xFF, 0xFE];
    assert Word(false, 0x0A0B0C0D) == [0x0A, 0x0B, 0x0C, 0x0D];
    assert Word(false, Unsigned(1)) == [0, 0, 0, 1] && Word(false, 2) == [0, 0, 0, 2];
  }

  /** d has the fields of h, and an optional field that h does not have as it was. */
  predicate HasFields(was: Header, h: Header, d: Header) {
    && d.messageId == h.messageId && d.submessageId == h.submessageId
    && FlagBits(d) == FlagBits(h) && FlagBits2(d) == FlagBits2(h)
    && d.messageLength == h.messageLength && d.sequenceHigh == h.sequenceHigh && d.sequenceLow == h.sequenceLow
    && d.sourceSec == h.sourceSec && d.sourceNanosec == h.sourceNanosec && d.publicationId == h.publicationId
    && (h.lifespanDuration ==> d.lifespanSec == h.lifespanSec && d.lifespanNanosec == h.lifespanNanosec)
    && (!h.lifespanDuration ==> d.lifespanSec == was.lifespanSec && d.lifespanNanosec == was.lifespanNanosec)
    && (h.groupCoherent ==> d.publisherId == h.publisherId) && (!h.groupCoherent ==> d.publisherId == was.publisherId)
    && (h.contentFilter ==> d.entries == h.entries) && (!h.contentFilter ==> d.entries == was.entries)
  }

  lemma {:induction false} ReceivedHasFields(was: Header, h: Header)
    ensures HasFields(was, h, Received(was, h))
  {
  }

  /** What init leaves in each field when it reads an encoded header and whatever follows. */
  lemma {:induction false} FieldsRead(was: Header, h: Header, rest: seq<Byte>)
    requires |h.entries| < 0x1_0000_0000
    ensures HeaderLength(Encode(h) + rest).Some? && HasFields(was, h, Decode(was, Encode(h) + rest))
  {
    HeaderRoundTrip(was, h, rest);
    ReceivedHasFields(was, h);
  }

  // ----- the ids -----

  datatype MessageId =
    | SampleData | DataWriterLiveliness | InstanceRegistration | UnregisterInstance | DisposeInstance
    | GracefulDisconnect | RequestAck | SampleAck | EndCoherentChanges | TransportControl
    | DisposeUnregisterInstance | EndHistoricSamples

  datatype SubMessageId = SubMessageNone | MulticastSyn | MulticastSynAck | MulticastNak | MulticastNakAck

  function MessageCode(id: MessageId): Byte {
    match id
    case SampleData => 0
    case DataWriterLiveliness => 1
    case InstanceRegistration => 2
    case UnregisterInstance => 3
    case DisposeInstance => 4
    case GracefulDisconnect => 5
    case RequestAck => 6
    case SampleAck => 7
    case EndCoherentChanges => 8
    case TransportControl => 9
    case DisposeUnregisterInstance => 10
    case EndHistoricSamples => 11
  }

  function SubMessageCode(id: SubMessageId): Byte {
    match id
    case SubMessageNone => 0
    case MulticastSyn => 1
    case MulticastSynAck => 2
    case MulticastNak => 3
    case MulticastNakAck => 4
  }

  function MessageIdOf(code: Byte): MessageId
    requires code < MESSAGE_ID_MAX
  {
    [SampleData, DataWriterLiveliness, InstanceRegistration, UnregisterInstance, DisposeInstance, GracefulDisconnect,
     RequestAck, SampleAck, EndCoherentChanges, TransportControl, DisposeUnregisterInstance, EndHistoricSamples][code]
  }

  function SubMessageIdOf(code: Byte): SubMessageId
    requires code < SUBMESSAGE_ID_MAX
  {
    [SubMessageNone, MulticastSyn, MulticastSynAck, MulticastNak, MulticastNakAck][code]
  }

  /** The bytes that pass the tests of partial are exactly the codes of the enumerators. */
  lemma {:induction false} CodesAreIds(code: Byte)
    ensures code < MESSAGE_ID_MAX <==> exists id :: MessageCode(id) == code
    ensures code < SUBMESSAGE_ID_MAX <==> exists id :: SubMessageCode(id) == code
  {
    if code < MESSAGE_ID_MAX { assert MessageCode(MessageIdOf(code)) == code; }
    if code < SUBMESSAGE_ID_MAX { assert SubMessageCode(SubMessageIdOf(code)) == code; }
  }

  /** A header is detected when all of it is there, whichever of the enumerators its ids are. */
  lemma {:induction false} EveryIdIsDetected(h: Header, id: MessageId, sub: SubMessageId, rest: seq<Byte>, received: seq<Byte>)
    requires |h.entries| < 0x1_0000_0000 && h.messageId == MessageCode(id) && h.submessageId == SubMessageCode(sub)
    requires received <= Encode(h) + rest
    ensures Incomplete(received) <==> |received| < |Encode(h)|
  {
    PartialIffShort(h, rest, received);
  }
}
