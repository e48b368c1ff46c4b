/** DataSampleHeader read from received data (dds/DCPS/DataSampleHeader.cpp): init, mb_peek and partial.  The sequential
    reader is proved to read what HeaderCodec decodes, and partial to tell whether all of a header has arrived. */
module HeaderReader {
  import opened Basics
  import opened HeaderCodec

  /** A chain of message blocks, each with the bytes between its read and write pointers. */
  type Chain = seq<seq<Byte>>

  // ----- init in four stages -----

  function Lead(h: Header, b: seq<Byte>): Header
    requires |b| >= 4
  {
    var f, g := Unpacked(b[2]), Unpacked(b[3]);
    h.(messageId := b[0], submessageId := b[1],
       littleEndian := f[BYTE_ORDER_FLAG], coherentChange := f[COHERENT_CHANGE_FLAG],
       historicSample := f[HISTORIC_SAMPLE_FLAG], lifespanDuration := f[LIFESPAN_DURATION_FLAG],
       groupCoherent := f[GROUP_COHERENT_FLAG], contentFilter := f[CONTENT_FILTER_FLAG],
       sequenceRepair := f[SEQUENCE_REPAIR_FLAG], moreFragments := f[MORE_FRAGMENTS_FLAG],
       cdrEncapsulation := g[CDR_ENCAP_FLAG], keyFieldsOnly := g[KEY_ONLY_FLAG])
  }

  function Numbers(h: Header, b: seq<Byte>): Header
    requires |b| >= 24
  {
    var e := h.littleEndian;
    h.(messageLength := WordAt(e, b, 4),
       sequenceHigh := Signed(WordAt(e, b, 8)), sequenceLow := WordAt(e, b, 12),
       sourceSec := Signed(WordAt(e, b, 16)), sourceNanosec := WordAt(e, b, 20))
  }

  function LifespanEnd(h: Header): nat {
    if h.lifespanDuration then 32 else 24
  }

  function Lifetime(h: Header, b: seq<Byte>): Header
    requires |b| >= LifespanEnd(h)
  {
    h.(lifespanSec := if h.lifespanDuration then Signed(WordAt(h.littleEndian, b, 24)) else h.lifespanSec,
       lifespanNanosec := if h.lifespanDuration then WordAt(h.littleEndian, b, 28) else h.lifespanNanosec)
  }

  function IdsEnd(h: Header, p: nat): nat {
    p + (if h.groupCoherent then 32 else 16)
  }

  function Ids(h: Header, b: seq<Byte>, p: nat): Header
    requires |b| >= IdsEnd(h, p)
  {
    h.(publicationId := GuidAt(b, p), publisherId := if h.groupCoherent then GuidAt(b, p + 16) else h.publisherId)
  }

  function Optional(h: Header, b: seq<Byte>): Header
    requires |b| >= IdsEnd(h, LifespanEnd(h))
  {
    var e, p := h.littleEndian, LifespanEnd(h);
    h.(lifespanSec := if h.lifespanDuration then Signed(WordAt(e, b, 24)) else h.lifespanSec,
       lifespanNanosec := if h.lifespanDuration then WordAt(e, b, 28) else h.lifespanNanosec,
       publicationId := GuidAt(b, p),
       publisherId := if h.groupCoherent then GuidAt(b, p + 16) else h.publisherId)
  }

  lemma {:induction false} OptionalInTwoStages(h: Header, b: seq<Byte>)
    requires |b| >= IdsEnd(h, LifespanEnd(h))
    ensures Ids(Lifetime(h, b), b, LifespanEnd(h)) == Optional(h, b)
  {
  }

  predicate SameLead(a: Header, b: Header) {
    && a.messageId == b.messageId && a.submessageId == b.submessageId
    && a.littleEndian == b.littleEndian && a.coherentChange == b.coherentChange && a.historicSample == b.historicSample
    && a.lifespanDuration == b.lifespanDuration && a.groupCoherent == b.groupCoherent && a.contentFilter == b.contentFilter
    && a.sequenceRepair == b.sequenceRepair && a.moreFragments == b.moreFragments
    && a.cdrEncapsulation == b.cdrEncapsulation && a.keyFieldsOnly == b.keyFieldsOnly
  }

  predicate SameNumbers(a: Header, b: Header) {
    && a.messageLength == b.messageLength && a.sequenceHigh == b.sequenceHigh && a.sequenceLow == b.sequenceLow
    && a.sourceSec == b.sourceSec && a.sourceNanosec == b.sourceNanosec
  }

  predicate SameOptional(a: Header, b: Header) {
    && a.lifespanSec == b.lifespanSec && a.lifespanNanosec == b.lifespanNanosec
    && a.publicationId == b.publicationId && a.publisherId == b.publisherId && a.entries == b.entries
  }

  lemma {:induction false} SameInAllParts(a: Header, b: Header)
    requires SameLead(a, b) && SameNumbers(a, b) && SameOptional(a, b)
    ensures a == b
  {
  }

  /** The flags after the first two stages. */
  lemma {:induction false} FlagsOfStages(was: Header, b: seq<Byte>)
    requires |b| >= 24
    ensures var h, f := Numbers(Lead(was, b), b), Unpacked(b[2]);
      && h.littleEndian == f[BYTE_ORDER_FLAG] && h.lifespanDuration == f[LIFESPAN_DURATION_FLAG]
      && h.groupCoherent == f[GROUP_COHERENT_FLAG] && IdsEnd(h, LifespanEnd(h)) == FixedLength(f)
  {
  }

  lemma {:induction false} LeadOfStages(was: Header, b: seq<Byte>)
    requires |b| >= 24 && |b| >= FixedLength(Unpacked(b[2]))
    ensures SameLead(Numbers(Lead(was, b), b), FixedAt(was, b, Unpacked(b[2]), Unpacked(b[3])))
  {
    NumbersKeepLead(Lead(was, b), b);
    LeadIsFixed(was, b);
  }

  lemma {:induction false} NumbersKeepLead(h: Header, b: seq<Byte>)
    requires |b| >= 24
    ensures SameLead(Numbers(h, b), h)
  {
  }

  lemma {:induction false} LeadIsFixed(was: Header, b: seq<Byte>)
    requires |b| >= 4 && |b| >= FixedLength(Unpacked(b[2]))
    ensures SameLead(Lead(was, b), FixedAt(was, b, Unpacked(b[2]), Unpacked(b[3])))
  {
  }

  lemma {:induction false} NumbersOfStages(was: Header, b: seq<Byte>)
    requires |b| >= 24 && |b| >= FixedLength(Unpacked(b[2]))
    ensures SameNumbers(Numbers(Lead(was, b), b), FixedAt(was, b, Unpacked(b[2]), Unpacked(b[3])))
  {
    FlagsOfStages(was, b);
  }

  /** The last stage, on any header with the flags of b that still has the optional fields of was. */
  lemma {:induction false} OptionalOfStages(was: Header, h: Header, b: seq<Byte>, f: seq<bool>, g: seq<bool>)
    requires |f| == 8 && |g| == 8 && |b| >= FixedLength(f) && SameOptional(h, was)
    requires h.littleEndian == f[BYTE_ORDER_FLAG] && h.lifespanDuration == f[LIFESPAN_DURATION_FLAG]
    requires h.groupCoherent == f[GROUP_COHERENT_FLAG]
    ensures SameOptional(Optional(h, b), FixedAt(was, b, f, g))
    ensures SameLead(Optional(h, b), h) && SameNumbers(Optional(h, b), h)
  {
  }

  lemma {:induction false} StagesAreFixed(was: Header, b: seq<Byte>)
    requires |b| >= 24
    ensures var h := Numbers(Lead(was, b), b);
            && IdsEnd(h, LifespanEnd(h)) == FixedLength(Unpacked(b[2]))
            && (|b| >= FixedLength(Unpacked(b[2])) ==>
                  Optional(h, b) == FixedAt(was, b, Unpacked(b[2]), Unpacked(b[3])))
  {
    FlagsOfStages(was, b);
    if |b| >= FixedLength(Unpacked(b[2])) {
      var h, f, g := Numbers(Lead(was, b), b), Unpacked(b[2]), Unpacked(b[3]);
      LeadOfStages(was, b);
      NumbersOfStages(was, b);
      OptionalOfStages(was, h, b, f, g);
      SameInAllParts(Optional(h, b), FixedAt(was, b, f, g));
    }
  }

  class DataSampleHeader {
    var header: Header
    var marshaledSize: nat

    /** The ids and the two flags bytes. */
    method ReadLead(buffer: seq<Byte>) returns (good: bool)
      modifies this
      ensures good == (|buffer| >= 4)
      ensures marshaledSize <= |buffer| && (good ==> marshaledSize == 4)
      ensures good ==> header == Lead(old(header), buffer)
    {
      good, marshaledSize := false, 0;
      if |buffer| < marshaledSize + 1 { return; }
      header := header.(messageId := buffer[marshaledSize]);
      marshaledSize := marshaledSize + 1;
      if |buffer| < marshaledSize + 1 { return; }
      header := header.(submessageId := buffer[marshaledSize]);
      marshaledSize := marshaledSize + 1;
      if |buffer| < marshaledSize + 1 { return; }
      var f := Unpacked(buffer[marshaledSize]);
      marshaledSize := marshaledSize + 1;
      header := header.(
        littleEndian := f[BYTE_ORDER_FLAG], coherentChange := f[COHERENT_CHANGE_FLAG],
        historicSample := f[HISTORIC_SAMPLE_FLAG], lifespanDuration := f[LIFESPAN_DURATION_FLAG],
        groupCoherent := f[GROUP_COHERENT_FLAG], contentFilter := f[CONTENT_FILTER_FLAG],
        sequenceRepair := f[SEQUENCE_REPAIR_FLAG], moreFragments := f[MORE_FRAGMENTS_FLAG]);
      if |buffer| < marshaledSize + 1 { return; }
      var g := Unpacked(buffer[marshaledSize]);
      marshaledSize := marshaledSize + 1;
      header := header.(cdrEncapsulation := g[CDR_ENCAP_FLAG], keyFieldsOnly := g[KEY_ONLY_FLAG]);
      good := true;
    }

    /** The next four bytes as an unsigned number in the header's byte order. */
    method ReadWord(buffer: seq<Byte>) returns (good: bool, value: U32)
      requires marshaledSize <= |buffer|
      modifies this`marshaledSize
      ensures good == (old(marshaledSize) + 4 <= |buffer|)
      ensures marshaledSize == old(marshaledSize) + (if good then 4 else 0)
      ensures good ==> value == WordAt(header.littleEndian, buffer, old(marshaledSize))
    {
      good, value := marshaledSize + 4 <= |buffer|, 0;
      if good {
        value := WordAt(header.littleEndian, buffer, marshaledSize);
        marshaledSize := marshaledSize + 4;
      }
    }

    method ReadGuid(buffer: seq<Byte>) returns (good: bool, value: Guid)
      requires marshaledSize <= |buffer|
      modifies this`marshaledSize
      ensures good == (old(marshaledSize) + 16 <= |buffer|)
      ensures marshaledSize == old(marshaledSize) + (if good then 16 else 0)
      ensures good ==> value == GuidAt(buffer, old(marshaledSize))
    {
      good, value := marshaledSize + 16 <= |buffer|, seq(16, _ => 0);
      if good {
        value := GuidAt(buffer, marshaledSize);
        marshaledSize := marshaledSize + 16;
      }
    }

    /** The message length, sequence number and source timestamp. */
    method ReadNumbers(buffer: seq<Byte>) returns (good: bool)
      requires marshaledSize == 4 <= |buffer|
      modifies this
      ensures good == (|buffer| >= 24)
      ensures marshaledSize <= |buffer| && (good ==> marshaledSize == 24)
      ensures good ==> header == Numbers(old(header), buffer)
    {
      var v: U32;
      good, v := ReadWord(buffer);
      if !good { return; }
      header := header.(messageLength := v);
      if marshaledSize + 8 > |buffer| { return false; }
      var high, low := WordAt(header.littleEndian, buffer, marshaledSize), WordAt(header.littleEndian, buffer, marshaledSize + 4);
      header := header.(sequenceHigh := Signed(high), sequenceLow := low);
      marshaledSize := marshaledSize + 8;
      good, v := ReadWord(buffer);
      if !good { return; }
      header := header.(sourceSec := Signed(v));
      good, v := ReadWord(buffer);
      if !good { return; }
      header := header.(sourceNanosec := v);
    }

    method ReadLifespan(buffer: seq<Byte>) returns (good: bool)
      requires marshaledSize == 24 <= |buffer|
      modifies this
      ensures good == (|buffer| >= LifespanEnd(old(header)))
      ensures marshaledSize <= |buffer| && (good ==> marshaledSize == LifespanEnd(old(header)))
      ensures good ==> header == Lifetime(old(header), buffer)
    {
      good := true;
      if header.lifespanDuration {
        var v: U32;
        good, v := ReadWord(buffer);
        if !good { return; }
        header := header.(lifespanSec := Signed(v));
        good, v := ReadWord(buffer);
        if !good { return; }
        header := header.(lifespanNanosec := v);
      }
    }

    /** The publication id and the optional publisher id. */
    method ReadIds(buffer: seq<Byte>) returns (good: bool)
      requires marshaledSize <= |buffer|
      modifies this
      ensures good == (|buffer| >= IdsEnd(old(header), old(marshaledSize)))
      ensures marshaledSize <= |buffer| && (good ==> marshaledSize == IdsEnd(old(header), old(marshaledSize)))
      ensures good ==> header == Ids(old(header), buffer, old(marshaledSize))
    {
      var id: Guid;
      good, id := ReadGuid(buffer);
      if !good { return; }
      header := header.(publicationId := id);
      if header.groupCoherent {
        good, id := ReadGuid(buffer);
        if !good { return; }
        header := header.(publisherId := id);
      }
    }

    /** The optional lifespan, then the ids. */
    method ReadOptional(buffer: seq<Byte>) returns (good: bool)
      requires marshaledSize == 24 <= |buffer|
      modifies this
      ensures var h := old(header);
              var end := IdsEnd(h, LifespanEnd(h));
              && good == (|buffer| >= end)
              && marshaledSize <= |buffer| && (good ==> marshaledSize == end && header == Optional(h, buffer))
    {
      good := ReadLifespan(buffer);
      if good {
        good := ReadIds(buffer);
        if good {
          OptionalInTwoStages(old(header), buffer);
        }
      }
    }

    /** Everything before the content filter entries. */
    method ReadFixed(buffer: seq<Byte>) returns (good: bool)
      modifies this
      ensures marshaledSize <= |buffer|
      ensures good == (|buffer| >= 4 && |buffer| >= FixedLength(Unpacked(buffer[2])))
      ensures good ==> marshaledSize == FixedLength(Unpacked(buffer[2]))
      ensures good ==> header == FixedAt(old(header), buffer, Unpacked(buffer[2]), Unpacked(buffer[3]))
    {
      good := ReadLead(buffer);
      if good {
        good := ReadNumbers(buffer);
        if good {
          good := ReadOptional(buffer);
          StagesAreFixed(old(header), buffer);
        }
      }
    }

    /** init: field after field, stopping at the first one that is not complete. */
    method Init(buffer: seq<Byte>)
      modifies this
      ensures HeaderLength(buffer).None? ==> marshaledSize <= |buffer|
      ensures HeaderLength(buffer).Some? ==> marshaledSize == HeaderLength(buffer).value
      ensures HeaderLength(buffer).Some? ==> header == Decode(old(header), buffer)
    {
      var good := ReadFixed(buffer);
      if good && header.contentFilter {
        var n: U32;
        good, n := ReadWord(buffer);
        if good && |buffer| >= marshaledSize + 16 * n {
          header := header.(entries := GuidsAt(buffer, marshaledSize, n));
          marshaledSize := marshaledSize + 16 * n;
        } else if good {
          marshaledSize := marshaledSize - 4;
        }
      }
    }
  }

  // ----- streaming header detection -----

  /** The bytes of the chain from block i on. */
  function Bytes(chain: Chain, i: nat): seq<Byte>
    requires i <= |chain|
    decreases |chain| - i
  {
    if i == |chain| then [] else chain[i] + Bytes(chain, i + 1)
  }

  /** total_length. */
  method TotalLength(chain: Chain) returns (n: nat)
    ensures n == |Bytes(chain, 0)|
  {
    n := 0;
    var i := |chain|;
    while i > 0
      invariant 0 <= i <= |chain| && n == |Bytes(chain, i)|
    {
      i := i - 1;
      n := n + |chain[i]|;
    }
  }

  /** mb_peek of one byte: the byte at offset, if there is one. */
  method PeekByte(chain: Chain, offset: nat) returns (found: bool, value: Byte)
    ensures found == (offset < |Bytes(chain, 0)|)
    ensures found ==> value == Bytes(chain, 0)[offset]
  {
    var i, left := 0, offset;
    while i < |chain|
      invariant 0 <= i <= |chain| && offset - left + |Bytes(chain, i)| == |Bytes(chain, 0)|
      invariant 0 <= left <= offset && Bytes(chain, 0)[offset - left..] == Bytes(chain, i)
    {
      if |chain[i]| > left {
        assert Bytes(chain, i)[left] == chain[i][left];
        return true, chain[i][left];
      }
      assert Bytes(chain, i)[|chain[i]|..] == Bytes(chain, i + 1);
      i, left := i + 1, left - |chain[i]|;
    }
    return false, 0;
  }

  /** mb_peek of a four byte number: the block that holds its first byte, then the bytes from there on
      through any number of blocks. */
  method PeekWord(chain: Chain, offset: nat, little: bool) returns (found: bool, value: U32)
    ensures found == (offset + 4 <= |Bytes(chain, 0)|)
    ensures found ==> value == WordAt(little, Bytes(chain, 0), offset)
  {
    var i, left := 0, offset;
    while i < |chain|
      invariant 0 <= i <= |chain| && offset - left + |Bytes(chain, i)| == |Bytes(chain, 0)|
      invariant 0 <= left <= offset && Bytes(chain, 0)[offset - left..] == Bytes(chain, i)
    {
      if |chain[i]| > left {
        found, value := CopyWord(chain, i, left, little);
        return;
      }
      assert Bytes(chain, i)[|chain[i]|..] == Bytes(chain, i + 1);
      i, left := i + 1, left - |chain[i]|;
    }
    return false, 0;
  }

  /** mb_copy: the word at offset in the chain that starts with block i. */
  method CopyWord(chain: Chain, i: nat, offset: nat, little: bool) returns (found: bool, value: U32)
    requires i < |chain| && offset < |chain[i]|
    ensures found == (offset + 4 <= |Bytes(chain, i)|)
    ensures found ==> value == WordAt(little, Bytes(chain, i), offset)
  {
    var j, at := i, offset;
    var word: seq<Byte> := [];
    while j < |chain| && |word| < 4
      invariant i <= j <= |chain| && |word| <= 4 && 0 <= at <= (if j < |chain| then |chain[j]| else 0)
      invariant at <= |Bytes(chain, j)|
      invariant offset + |word| + |Bytes(chain, j)| - at == |Bytes(chain, i)|
      invariant Bytes(chain, i)[offset..] == word + Bytes(chain, j)[at..]
      decreases |chain| - j, if j < |chain| then |chain[j]| - at else 0
    {
      if at == |chain[j]| {
        assert Bytes(chain, j)[at..] == Bytes(chain, j + 1);
        j, at := j + 1, 0;
      } else {
        assert Bytes(chain, j)[at..] == [chain[j][at]] + Bytes(chain, j)[at + 1..];
        assert word + Bytes(chain, j)[at..] == (word + [chain[j][at]]) + Bytes(chain, j)[at + 1..];
        word, at := word + [chain[j][at]], at + 1;
      }
    }
    found, value := |word| == 4, 0;
    if found {
      assert Bytes(chain, i)[offset..offset + 4] == word;
      value := WordAt(little, word, 0);
    }
  }

  /** What partial is for: the received bytes do not yet hold a whole header with valid ids. */
  predicate Incomplete(b: seq<Byte>) {
    |b| <= 2 || b[0] >= MESSAGE_ID_MAX || b[1] >= SUBMESSAGE_ID_MAX || HeaderLength(b).None?
  }

  /** partial. */
  method Partial(chain: Chain) returns (partial: bool)
    ensures partial == Incomplete(Bytes(chain, 0))
  {
    var len := TotalLength(chain);
    if len <= 2 { return true; }
    var found, id := PeekByte(chain, 0);
    if !found || id >= MESSAGE_ID_MAX { return true; }
    found, id := PeekByte(chain, 1);
    if !found || id >= SUBMESSAGE_ID_MAX { return true; }
    var flags: Byte;
    found, flags := PeekByte(chain, 2);
    if !found { return true; }
    var f := Unpacked(flags);
    var expected := 64;
    if !f[LIFESPAN_DURATION_FLAG] { expected := expected - 8; }
    if !f[GROUP_COHERENT_FLAG] { expected := expected - 16; }
    if f[CONTENT_FILTER_FLAG] {
      var seqLen: U32;
      found, seqLen := PeekWord(chain, expected, f[BYTE_ORDER_FLAG]);
      if !found { return true; }
      expected := expected + 4 + 16 * seqLen;
    }
    return len < expected;
  }

  /** For every prefix of an encoded header and whatever follows it, received in blocks of any sizes,
      partial is true exactly when the prefix ends inside the header. */
  lemma {:induction false} PartialIffShort(h: Header, rest: seq<Byte>, received: seq<Byte>)
    requires |h.entries| < 0x1_0000_0000 && h.messageId < MESSAGE_ID_MAX && h.submessageId < SUBMESSAGE_ID_MAX
    requires received <= Encode(h) + rest
    ensures Incomplete(received) <==> |received| < |Encode(h)|
  {
    var all := Encode(h) + rest;
    HeaderRoundTrip(h, h, rest);
    if HeaderLength(received).Some? {
      LengthIsStable(received, all);
    }
    if |received| >= |Encode(h)| {
      assert received == Encode(h) + received[|Encode(h)|..];
      HeaderRoundTrip(h, h, received[|Encode(h)|..]);
    }
  }

  /** A header with an id out of range is reported as partial however much of it arrives. */
  lemma {:induction false} InvalidIdsStayPartial(h: Header, rest: seq<Byte>)
    requires |h.entries| < 0x1_0000_0000
    ensures Incomplete(Encode(h) + rest) <==> h.messageId >= MESSAGE_ID_MAX || h.submessageId >= SUBMESSAGE_ID_MAX
  {
    HeaderRoundTrip(h, h, rest);
  }
}
