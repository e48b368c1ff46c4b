/** b32h_encode and b32h_decode (dds/DCPS/FileSystemStorage.cpp): Base32Hex, section 7 of RFC 4648.  A chunk of up to five
    bytes is one number, written with eight characters or with fewer and padding; the names of files and directories
    are encoded chunk by chunk. */
module Base32Hex {
  import opened Basics
  import opened Digits

  // ----- one chunk: up to five bytes, eight characters -----

  function Lookup(d: nat): char
    requires d < 32
  {
    if d < 10 then '0' + d as char else 'A' + (d - 10) as char
  }

  predicate InAlphabet(c: char) {
    '0' <= c <= '9' || 'A' <= c <= 'V'
  }

  function Index(c: char): (d: nat)
    requires InAlphabet(c)
    ensures d < 32 && Lookup(d) == c
  {
    if c <= '9' then c as int - '0' as int else 10 + c as int - 'A' as int
  }

  lemma {:induction false} IndexOfLookup(d: nat)
    requires d < 32
    ensures InAlphabet(Lookup(d)) && Index(Lookup(d)) == d
  {
  }

  /** How many characters n bytes need. */
  function Needed(n: nat): nat
    requires 1 <= n <= 5
  {
    if n == 5 then 8 else [0, 2, 4, 5, 7][n]
  }

  /** How many bytes n characters before the padding give. */
  function Given(n: nat): nat
    requires n <= 8
  {
    if n == 8 then 5 else [0, 0, 1, 0, 2, 3, 0, 4][n]
  }

  /** The chunk as a number: missing bytes are zero. */
  function Chunk(s: seq<Byte>): nat
    requires |s| <= 5
  {
    Value(256, s + Zeros(5 - |s|))
  }

  function EncodeChunk(s: seq<Byte>): (e: string)
    requires 1 <= |s| <= 5
    ensures |e| == 8
  {
    var ds := Expand(32, 8, Chunk(s));
    var n := Needed(|s|);
    seq(8, i requires 0 <= i < 8 => if i < n then Lookup(ds[i] % 32) else '=')
  }

  /** The characters before the first padding character. */
  function Unpadded(e: string): (n: nat)
    ensures n <= |e| && (forall i :: 0 <= i < n ==> e[i] != '=') && (n < |e| ==> e[n] == '=')
  {
    if e == "" || e[0] == '=' then 0
    else
      var n := Unpadded(e[1..]);
      assert forall i :: 1 <= i < n + 1 ==> e[i] == e[1..][i - 1];
      n + 1
  }

  predicate Readable(e: string) {
    forall i :: 0 <= i < |e| ==> e[i] == '=' || InAlphabet(e[i])
  }

  function Indices(e: string, n: nat): (ds: seq<nat>)
    requires n <= |e| && Readable(e) && n <= Unpadded(e)
    ensures |ds| == n && Below(32, ds)
  {
    seq(n, i requires 0 <= i < n => Index(e[i]))
  }

  /** The number that the first i characters stand for. */
  function NumberOf(e: string, i: nat): nat
    requires |e| == 8 && Readable(e) && i <= Unpadded(e)
  {
    Value(32, Indices(e, i) + Zeros(8 - i))
  }

  /** The number that the characters stand for: missing ones are zero. */
  function Number(e: string): nat
    requires |e| == 8 && Readable(e)
  {
    NumberOf(e, Unpadded(e))
  }

  function DecodeChunk(e: string): seq<nat>
    requires |e| == 8 && Readable(e)
  {
    Expand(256, 5, Number(e))[..Given(Unpadded(e))]
  }

  lemma {:induction false} ChunkIsMultiple(s: seq<Byte>) returns (w: nat)
    requires 1 <= |s| <= 5
    ensures Chunk(s) == w * Power(32, 8 - Needed(|s|))
  {
    ValueOfPadded(256, s, 5 - |s|);
    var x := Value(256, s);
    match |s| {
      case 1 => assert Power(256, 4) == 4 * Power(32, 6); w := x * 4;
      case 2 => assert Power(256, 3) == 16 * Power(32, 4); w := x * 16;
      case 3 => assert Power(256, 2) == 2 * Power(32, 3); w := x * 2;
      case 4 => assert Power(256, 1) == 8 * Power(32, 1); w := x * 8;
      case _ => assert Power(256, 0) == Power(32, 0) == 1; w := x;
    }
  }

  /** The characters that are left out stand for zeros. */
  lemma {:induction false} LeftOutAreZero(s: seq<Byte>)
    requires 1 <= |s| <= 5
    ensures var n := Needed(|s|); Expand(32, 8, Chunk(s)) == Expand(32, 8, Chunk(s))[..n] + Zeros(8 - n)
  {
    var n := Needed(|s|);
    var w := ChunkIsMultiple(s);
    ExpandOfMultiple(32, 8, w, 8 - n);
  }

  lemma {:induction false} EncodedUnpadded(s: seq<Byte>)
    requires 1 <= |s| <= 5
    ensures Readable(EncodeChunk(s)) && Unpadded(EncodeChunk(s)) == Needed(|s|)
    ensures Indices(EncodeChunk(s), Needed(|s|)) == Expand(32, 8, Chunk(s))[..Needed(|s|)]
  {
    var e, ds, n := EncodeChunk(s), Expand(32, 8, Chunk(s)), Needed(|s|);
    ChunkBound(s);
    forall i | 0 <= i < n ensures InAlphabet(e[i]) && Index(e[i]) == ds[i] {
      IndexOfLookup(ds[i]);
    }
    UnpaddedIs(e, n);
  }

  lemma {:induction false} UnpaddedIs(e: string, n: nat)
    requires n <= |e| && (forall i :: 0 <= i < n ==> e[i] != '=') && (n < |e| ==> e[n] == '=')
    ensures Unpadded(e) == n
  {
  }

  lemma {:induction false} ChunkBound(s: seq<Byte>)
    requires |s| <= 5
    ensures Chunk(s) < Power(32, 8) && Below(32, Expand(32, 8, Chunk(s))) && Value(32, Expand(32, 8, Chunk(s))) == Chunk(s)
    ensures Below(256, s + Zeros(5 - |s|))
  {
    ValueBound(256, s + Zeros(5 - |s|));
    assert Power(256, 5) == Power(32, 8);
    ValueOfExpand(32, 8, Chunk(s));
  }

  lemma {:induction false} PaddedRoundTrip(s: seq<Byte>)
    requires |s| <= 5
    ensures Expand(256, 5, Chunk(s))[..|s|] == s
  {
    var all := s + Zeros(5 - |s|);
    ExpandOfValue(256, all);
    assert all[..|s|] == s;
  }

  lemma {:induction false} NumberRoundTrip(s: seq<Byte>)
    requires 1 <= |s| <= 5
    ensures Readable(EncodeChunk(s)) && Number(EncodeChunk(s)) == Chunk(s) && Given(Unpadded(EncodeChunk(s))) == |s|
  {
    EncodedUnpadded(s);
    LeftOutAreZero(s);
    ChunkBound(s);
  }

  lemma {:induction false} ChunkRoundTrip(s: seq<Byte>)
    requires 1 <= |s| <= 5
    ensures Readable(EncodeChunk(s)) && DecodeChunk(EncodeChunk(s)) == s
  {
    NumberRoundTrip(s);
    PaddedRoundTrip(s);
  }

  /** The bytes gathered into one number, the first one highest. */
  method Gather(block: seq<Byte>) returns (chunk: nat)
    requires 1 <= |block| <= 5
    ensures chunk == Chunk(block)
  {
    var i := 0;
    chunk := 0;
    ValueOfPadded(256, [], 5);
    assert block[..0] == [];
    while i < |block|
      invariant 0 <= i <= |block| && chunk == Value(256, block[..i] + Zeros(5 - i))
    {
      ValueOfNext(256, block[..i], block[i], 4 - i);
      assert block[..i] + [block[i]] == block[..i + 1];
      chunk, i := chunk + block[i] * Power(256, 4 - i), i + 1;
    }
    assert block[..i] == block;
  }

  lemma {:induction false} CharacterAt(block: seq<Byte>, i: nat)
    requires 1 <= |block| <= 5 && i < Needed(|block|)
    ensures Power(32, 7 - i) > 0 && EncodeChunk(block)[i] == Lookup(Chunk(block) / Power(32, 7 - i) % 32)
  {
    DigitAt(32, 8, Chunk(block), i);
  }

  method EncodeBlock(block: seq<Byte>) returns (e: string)
    requires 1 <= |block| <= 5
    ensures e == EncodeChunk(block)
  {
    var chunk := Gather(block);
    var limit := Needed(|block|);
    e := "";
    var i := 0;
    while i < limit
      invariant 0 <= i <= limit && e == EncodeChunk(block)[..i]
    {
      CharacterAt(block, i);
      e := e + [Lookup(chunk / Power(32, 7 - i) % 32)];
      i := i + 1;
    }
    e := e + seq(8 - limit, _ => '=');
  }

  lemma {:induction false} NextIndex(e: string, i: nat)
    requires |e| == 8 && Readable(e) && i < Unpadded(e)
    ensures NumberOf(e, i + 1) == NumberOf(e, i) + Index(e[i]) * Power(32, 7 - i)
  {
    ValueOfNext(32, Indices(e, i), Index(e[i]), 7 - i);
    assert Indices(e, i) + [Index(e[i])] == Indices(e, i + 1);
  }

  lemma {:induction false} NoIndex(e: string)
    requires |e| == 8 && Readable(e)
    ensures NumberOf(e, 0) == 0
  {
    ValueOfPadded(32, [], 8);
    assert Indices(e, 0) == [];
  }

  /** The characters before the padding gathered into one number. */
  method GatherIndices(e: string) returns (chunk: nat, i: nat)
    requires |e| == 8 && Readable(e)
    ensures i == Unpadded(e) && chunk == Number(e)
  {
    chunk, i := 0, 0;
    NoIndex(e);
    while i < 8 && e[i] != '='
      invariant 0 <= i <= Unpadded(e) && chunk == NumberOf(e, i)
    {
      assert i < Unpadded(e);
      NextIndex(e, i);
      chunk, i := chunk + Index(e[i]) * Power(32, 7 - i), i + 1;
    }
  }

  /** The character that is looked at after the gathering is the one after the block when there is no padding. */
  method DecodeBlock(e: string, after: char) returns (bytes: seq<nat>)
    requires |e| == 8 && Readable(e) && (Unpadded(e) == 8 ==> after != '=')
    ensures bytes == DecodeChunk(e)
  {
    var chunk, i := GatherIndices(e);
    var limit := if (if i < 8 then e[i] else after) == '=' then [0, 0, 1, 0, 2, 3, 0, 4][i] else 5;
    bytes := [];
    var j := 0;
    while j < limit
      invariant 0 <= j <= limit == Given(Unpadded(e)) <= 5 && bytes == Expand(256, 5, chunk)[..j]
    {
      DigitAt(256, 5, chunk, j);
      bytes := bytes + [chunk / Power(256, 4 - j) % 256];
      j := j + 1;
    }
  }

  // ----- whole names -----

  function Encoded(s: seq<Byte>): string {
    if s == [] then ""
    else
      var n := if |s| < 5 then |s| else 5;
      EncodeChunk(s[..n]) + Encoded(s[n..])
  }

  function Decoded(e: string): seq<nat>
    requires |e| % 8 == 0 && Readable(e)
  {
    if e == "" then [] else DecodeChunk(e[..8]) + Decoded(e[8..])
  }

  lemma {:induction false} FiveMore(n: nat)
    ensures (n + 5 + 4) / 5 == (n + 4) / 5 + 1
  {
  }

  /** Eight characters for every five bytes or part of five. */
  lemma {:induction false} EncodedLength(s: seq<Byte>)
    ensures |Encoded(s)| == 8 * ((|s| + 4) / 5)
  {
    if |s| >= 5 {
      EncodedLength(s[5..]);
      FiveMore(|s[5..]|);
    } else if s != [] {
      assert s[|s|..] == [];
    }
  }

  lemma {:induction false} EncodedReads(s: seq<Byte>)
    ensures |Encoded(s)| % 8 == 0 && Readable(Encoded(s))
  {
    EncodedLength(s);
    if s != [] {
      var n := if |s| < 5 then |s| else 5;
      EncodedUnpadded(s[..n]);
      EncodedReads(s[n..]);
    }
  }

  /** Every name comes back from its encoding, and the encoding uses the alphabet and the padding character only. */
  lemma {:induction false} RoundTrip(s: seq<Byte>)
    ensures |Encoded(s)| % 8 == 0 && Readable(Encoded(s)) && Decoded(Encoded(s)) == s
  {
    EncodedReads(s);
    if s != [] {
      var n := if |s| < 5 then |s| else 5;
      ChunkRoundTrip(s[..n]);
      RoundTrip(s[n..]);
      DecodedFirst(EncodeChunk(s[..n]), Encoded(s[n..]));
      assert s == s[..n] + s[n..];
    }
  }

  lemma {:induction false} DecodedFirst(chunk: string, rest: string)
    requires |chunk| == 8 && |rest| % 8 == 0 && Readable(chunk) && Readable(rest)
    ensures |chunk + rest| % 8 == 0 && Readable(chunk + rest)
    ensures Decoded(chunk + rest) == DecodeChunk(chunk) + Decoded(rest)
  {
    var e := chunk + rest;
    assert e[..8] == chunk && e[8..] == rest;
  }

  lemma {:induction false} EncodingIsInjective(s: seq<Byte>, t: seq<Byte>)
    requires Encoded(s) == Encoded(t)
    ensures s == t
  {
    RoundTrip(s);
    RoundTrip(t);
  }

  lemma {:induction false} EncodedStep(encoded: string, rest: seq<Byte>, n: nat)
    requires rest != [] && n == if |rest| < 5 then |rest| else 5
    ensures encoded + Encoded(rest) == encoded + EncodeChunk(rest[..n]) + Encoded(rest[n..])
  {
    var e, more := EncodeChunk(rest[..n]), Encoded(rest[n..]);
    assert encoded + (e + more) == encoded + e + more;
  }

  /** b32h_encode. */
  method Encode(decoded: seq<Byte>) returns (encoded: string)
    ensures encoded == Encoded(decoded)
  {
    encoded := "";
    var rest := decoded;
    while rest != []
      invariant encoded + Encoded(rest) == Encoded(decoded)
      decreases |rest|
    {
      var n := if |rest| < 5 then |rest| else 5;
      var e := EncodeBlock(rest[..n]);
      EncodedStep(encoded, rest, n);
      encoded, rest := encoded + e, rest[n..];
    }
  }

  lemma {:induction false} OneBlockLess(n: nat)
    requires n % 8 == 0 && n > 0
    ensures n >= 8 && (n - 8) % 8 == 0
  {
  }

  /** No block without padding is followed by a padding character, where the code would index its table of eight at 8. */
  predicate StaysInTable(e: string) {
    |e| > 8 ==> (Unpadded(e[..8]) == 8 ==> e[8] != '=') && StaysInTable(e[8..])
  }

  lemma {:induction false} EncodedStaysInTable(s: seq<Byte>)
    ensures StaysInTable(Encoded(s))
  {
    if |s| > 5 {
      var next := s[5..][..if |s| - 5 < 5 then |s| - 5 else 5];
      EncodedUnpadded(next);
      EncodedStaysInTable(s[5..]);
      var e := Encoded(s);
      assert e[8..] == Encoded(s[5..]);
      assert e[8] == e[8..][0] == EncodeChunk(next)[0];
    } else if s != [] {
      assert s[|s|..] == [];
    }
  }

  /** b32h_decode. */
  method Decode(encoded: string) returns (decoded: seq<nat>)
    requires |encoded| % 8 == 0 && Readable(encoded) && StaysInTable(encoded)
    ensures decoded == Decoded(encoded)
  {
    decoded := [];
    var rest := encoded;
    while rest != ""
      invariant |rest| % 8 == 0 && Readable(rest) && StaysInTable(rest) && decoded + Decoded(rest) == Decoded(encoded)
      decreases |rest|
    {
      OneBlockLess(|rest|);
      var bytes := DecodeBlock(rest[..8], if |rest| > 8 then rest[8] else '\0');
      decoded, rest := decoded + bytes, rest[8..];
    }
  }
}
