/** What Base32Hex is for: the encodings of names of one length sort as the names do (section 7 of RFC 4648). */
module Base32Order {
  import opened Basics
  import opened Digits
  import opened Base32Hex
  import opened NameSupply

  /** The alphabet in ascending order. */
  lemma {:induction false} LookupAscends(d: nat, e: nat)
    requires d < e < 32
    ensures Lookup(d) < Lookup(e)
  {
  }

  /** As many characters as five bits each need, and as many bytes as those fill. */
  lemma {:induction false} NeededIs(n: nat)
    requires 1 <= n <= 5
    ensures Needed(n) == (8 * n + 4) / 5 && Given(Needed(n)) == n == 5 * Needed(n) / 8
  {
  }

  /** No other number of characters before the padding gives bytes. */
  lemma {:induction false} GivenIff(n: nat, m: nat)
    requires n <= 8 && m > 0
    ensures Given(n) == m <==> m <= 5 && Needed(m) == n
  {
  }

  // ----- examples of section 10 of RFC 4648 -----

  lemma {:induction false} FourMore(front: seq<nat>, a: nat, b: nat, c: nat, d: nat, ds: seq<nat>)
    requires ds == front + [a, b, c, d]
    ensures Value(32, ds) == (((Value(32, front) * 32 + a) * 32 + b) * 32 + c) * 32 + d
  {
    assert front + [a] + [b] + [c] + [d] == ds;
    ValueOfAppended(32, front, a);
    ValueOfAppended(32, front + [a], b);
    ValueOfAppended(32, front + [a] + [b], c);
    ValueOfAppended(32, front + [a] + [b] + [c], d);
  }

  /** The characters are looked up with the digits of the chunk. */
  lemma {:induction false} CharactersOf(block: seq<Byte>, ds: seq<nat>)
    requires 1 <= |block| <= 5 && |ds| == 8 && Below(32, ds) && Chunk(block) == Value(32, ds)
    ensures forall i :: 0 <= i < 8 ==> EncodeChunk(block)[i] == if i < Needed(|block|) then Lookup(ds[i]) else '='
  {
    ExpandOfValue(32, ds);
  }

  lemma {:induction false} ChunkIs(a: Byte, b: Byte, c: Byte, d: Byte, e: Byte, block: seq<Byte>)
    requires 1 <= |block| <= 5 && block + Zeros(5 - |block|) == [a, b, c, d, e]
    ensures Chunk(block) == (((a * 256 + b) * 256 + c) * 256 + d) * 256 + e
  {
    var none: seq<nat> := [];
    assert none + [a] == [a] && [a] + [b] == [a, b] && [a, b] + [c] == [a, b, c];
    assert [a, b, c] + [d] == [a, b, c, d] && [a, b, c, d] + [e] == [a, b, c, d, e];
    ValueOfAppended(256, none, a);
    ValueOfAppended(256, [a], b);
    ValueOfAppended(256, [a, b], c);
    ValueOfAppended(256, [a, b, c], d);
    ValueOfAppended(256, [a, b, c, d], e);
  }

  /** "f". */
  lemma {:induction false} OneByte()
    ensures Encoded([0x66]) == "CO======"
  {
    var block: seq<Byte>, front, ds := [0x66], [12, 24, 0, 0], [12, 24, 0, 0, 0, 0, 0, 0];
    ChunkIs(0x66, 0, 0, 0, 0, block);
    FourMore([], 12, 24, 0, 0, front);
    FourMore(front, 0, 0, 0, 0, ds);
    CharactersOf(block, ds);
    assert EncodeChunk(block) == "CO======";
    assert block[..1] == block && block[1..] == [] && "CO======" + "" == "CO======";
  }

  /** "fooba". */
  lemma {:induction false} FiveBytes()
    ensures EncodeChunk([0x66, 0x6F, 0x6F, 0x62, 0x61]) == "CPNMUOJ1"
  {
    var block: seq<Byte>, ds := [0x66, 0x6F, 0x6F, 0x62, 0x61], [12, 25, 23, 22, 30, 24, 19, 1];
    FiveByteDigits(block, ds);
    CharactersOf(block, ds);
  }

  lemma {:induction false} FiveByteDigits(block: seq<Byte>, ds: seq<nat>)
    requires block == [0x66, 0x6F, 0x6F, 0x62, 0x61] && ds == [12, 25, 23, 22, 30, 24, 19, 1]
    ensures Chunk(block) == Value(32, ds)
  {
    var front := [12, 25, 23, 22];
    ChunkIs(0x66, 0x6F, 0x6F, 0x62, 0x61, block);
    FourMore([], 12, 25, 23, 22, front);
    FourMore(front, 30, 24, 19, 1, ds);
  }

  /** "r", the sixth byte. */
  lemma {:induction false} LastByte()
    ensures Encoded([0x72]) == "E8======"
  {
    var block: seq<Byte>, front, ds := [0x72], [14, 8, 0, 0], [14, 8, 0, 0, 0, 0, 0, 0];
    ChunkIs(0x72, 0, 0, 0, 0, block);
    FourMore([], 14, 8, 0, 0, front);
    FourMore(front, 0, 0, 0, 0, ds);
    CharactersOf(block, ds);
    assert EncodeChunk(block) == "E8======";
    assert block[..1] == block && block[1..] == [] && "E8======" + "" == "E8======";
  }

  /** "foobar". */
  lemma {:induction false} SixBytes()
    ensures Encoded([0x66, 0x6F, 0x6F, 0x62, 0x61, 0x72]) == "CPNMUOJ1" + "E8======"
  {
    var name: seq<Byte> := [0x66, 0x6F, 0x6F, 0x62, 0x61, 0x72];
    FiveBytes();
    LastByte();
    assert name[..5] == [0x66, 0x6F, 0x6F, 0x62, 0x61] && name[5..] == [0x72];
  }

  // ----- the order -----

  /** Position k is the first difference, and a is lower there. */
  predicate LowerAt(a: seq<nat>, b: seq<nat>, k: nat) {
    k < |a| == |b| && a[..k] == b[..k] && a[k] < b[k]
  }

  predicate Lower(a: seq<nat>, b: seq<nat>) {
    exists k :: 0 <= k < |a| && LowerAt(a, b, k)
  }

  predicate LowerTextAt(a: string, b: string, k: nat) {
    k < |a| == |b| && a[..k] == b[..k] && a[k] < b[k]
  }

  predicate LowerText(a: string, b: string) {
    exists k :: 0 <= k < |a| && LowerTextAt(a, b, k)
  }

  lemma {:induction false} SomeDifference(a: seq<nat>, b: seq<nat>, k: nat)
    requires k <= |a| == |b| && a[..k] == b[..k]
    ensures a == b || Lower(a, b) || Lower(b, a)
    decreases |a| - k
  {
    if k == |a| {
      assert a == a[..k] == b[..k] == b;
    } else if a[k] == b[k] {
      assert a[..k + 1] == a[..k] + [a[k]] == b[..k] + [b[k]] == b[..k + 1];
      SomeDifference(a, b, k + 1);
    } else {
      assert LowerAt(a, b, k) || LowerAt(b, a, k);
    }
  }

  lemma {:induction false} StepUp(x: nat, y: nat, base: nat, d: nat, e: nat)
    requires x < y && d < base
    ensures x * base + d < y * base + e
  {
    assert y * base == x * base + (y - x) * base;
    AtLeastOnce(y - x, base);
  }

  /** Lists of digits compare as their values do. */
  lemma {:induction false} ValueOrder(base: nat, a: seq<nat>, b: seq<nat>, k: nat)
    requires base > 0 && Below(base, a) && Below(base, b) && LowerAt(a, b, k)
    ensures Value(base, a) < Value(base, b)
  {
    var n := |a| - 1;
    var x, y := a[..n], b[..n];
    if k < n {
      assert x[..k] == a[..k] == b[..k] == y[..k];
      ValueOrder(base, x, y, k);
      StepUp(Value(base, x), Value(base, y), base, a[n], b[n]);
    }
  }

  lemma {:induction false} ExpandOrder(base: nat, n: nat, x: nat, y: nat)
    requires base > 0 && x < y < Power(base, n)
    ensures Lower(Expand(base, n, x), Expand(base, n, y))
  {
    var a, b := Expand(base, n, x), Expand(base, n, y);
    ValueOfExpand(base, n, x);
    ValueOfExpand(base, n, y);
    assert a[..0] == b[..0];
    SomeDifference(a, b, 0);
    if Lower(b, a) {
      var k :| 0 <= k < |b| && LowerAt(b, a, k);
      ValueOrder(base, b, a, k);
    }
  }

  lemma {:induction false} ChunkOrder(a: seq<Byte>, b: seq<Byte>, k: nat)
    requires 1 <= |a| == |b| <= 5 && LowerAt(a, b, k)
    ensures Chunk(a) < Chunk(b)
  {
    var x, y := a + Zeros(5 - |a|), b + Zeros(5 - |b|);
    assert x[..k] == a[..k] == b[..k] == y[..k] && x[k] < y[k];
    ChunkBound(a);
    ChunkBound(b);
    ValueOrder(256, x, y, k);
  }

  lemma {:induction false} ZeroAfter(s: seq<Byte>, i: nat)
    requires 1 <= |s| <= 5 && i < 8
    ensures i >= Needed(|s|) ==> Expand(32, 8, Chunk(s))[i] == 0
  {
    LeftOutAreZero(s);
  }

  lemma {:induction false} DigitOrder(a: seq<Byte>, b: seq<Byte>, k: nat) returns (j: nat)
    requires 1 <= |a| == |b| <= 5 && LowerAt(a, b, k)
    ensures j < Needed(|a|) && LowerAt(Expand(32, 8, Chunk(a)), Expand(32, 8, Chunk(b)), j)
  {
    var x, y := Expand(32, 8, Chunk(a)), Expand(32, 8, Chunk(b));
    ChunkOrder(a, b, k);
    ChunkBound(b);
    ExpandOrder(32, 8, Chunk(a), Chunk(b));
    j :| 0 <= j < |x| && LowerAt(x, y, j);
    ZeroAfter(b, j);
  }

  lemma {:induction false} CharacterIs(s: seq<Byte>, i: nat)
    requires 1 <= |s| <= 5 && i < 8
    ensures Expand(32, 8, Chunk(s))[i] < 32
    ensures EncodeChunk(s)[i] == if i < Needed(|s|) then Lookup(Expand(32, 8, Chunk(s))[i]) else '='
  {
    ChunkBound(s);
  }

  /** Chunks of one length compare as their encodings do. */
  lemma {:induction false} EncodedChunkOrder(a: seq<Byte>, b: seq<Byte>, k: nat) returns (j: nat)
    requires 1 <= |a| == |b| <= 5 && LowerAt(a, b, k)
    ensures LowerTextAt(EncodeChunk(a), EncodeChunk(b), j)
  {
    j := DigitOrder(a, b, k);
    var x, y, e, f := Expand(32, 8, Chunk(a)), Expand(32, 8, Chunk(b)), EncodeChunk(a), EncodeChunk(b);
    CharacterIs(a, j);
    CharacterIs(b, j);
    LookupAscends(x[j], y[j]);
    forall i | 0 <= i < j ensures e[i] == f[i] {
      CharacterIs(a, i);
      CharacterIs(b, i);
      assert x[i] == x[..j][i] == y[..j][i] == y[i];
    }
    assert e[..j] == f[..j];
  }

  lemma {:induction false} InFront(e: string, f: string, g: string, h: string, j: nat)
    requires |e| == |f| && |g| == |h| && LowerTextAt(e, f, j)
    ensures LowerTextAt(e + g, f + h, j)
  {
    assert (e + g)[..j] == e[..j] && (f + h)[..j] == f[..j];
  }

  lemma {:induction false} Behind(e: string, g: string, h: string, j: nat)
    requires LowerTextAt(g, h, j)
    ensures LowerTextAt(e + g, e + h, |e| + j)
  {
    assert (e + g)[..|e| + j] == e + g[..j] && (e + h)[..|e| + j] == e + h[..j];
  }

  lemma {:induction false} EncodingAscends(a: Name, b: Name, k: nat) returns (j: nat)
    requires LowerAt(a, b, k)
    ensures LowerTextAt(Encoded(a), Encoded(b), j)
    decreases |a|
  {
    var n := if |a| < 5 then |a| else 5;
    EncodedLength(a[n..]);
    EncodedLength(b[n..]);
    if k < n {
      assert a[..n][..k] == a[..k] == b[..k] == b[..n][..k];
      j := EncodedChunkOrder(a[..n], b[..n], k);
      InFront(EncodeChunk(a[..n]), EncodeChunk(b[..n]), Encoded(a[n..]), Encoded(b[n..]), j);
    } else {
      var x, y := a[n..], b[n..];
      assert a[..n] == a[..k][..n] == b[..k][..n] == b[..n];
      assert x[..k - n] == a[..k][n..] == b[..k][n..] == y[..k - n];
      var i := EncodingAscends(x, y, k - n);
      Behind(EncodeChunk(a[..n]), Encoded(x), Encoded(y), i);
      j := 8 + i;
    }
  }

  lemma {:induction false} LessIsLower(a: Name, b: Name)
    requires |a| == |b|
    ensures Less(a, b) <==> Lower(a, b)
  {
    if Less(a, b) {
      var k :| 0 <= k < |b| && Differ(a, b, k);
      assert LowerAt(a, b, k);
    }
    if Lower(a, b) {
      var k :| 0 <= k < |a| && LowerAt(a, b, k);
      assert Differ(a, b, k);
    }
  }

  lemma {:induction false} TextIsAsymmetric(e: string, f: string)
    requires LowerText(e, f)
    ensures !LowerText(f, e) && e != f
  {
    var j :| 0 <= j < |e| && LowerTextAt(e, f, j);
    forall k | 0 <= k < |f| ensures !LowerTextAt(f, e, k) {
      if j < k {
        assert f[..k][j] == f[j] && e[..k][j] == e[j];
      } else if k < j {
        assert e[k] == e[..j][k] == f[..j][k] == f[k];
      }
    }
  }

  /** Names of one length sort as their encodings do. */
  lemma {:induction false} EncodingKeepsOrder(a: Name, b: Name)
    requires |a| == |b|
    ensures Less(a, b) <==> LowerText(Encoded(a), Encoded(b))
  {
    LessIsLower(a, b);
    LessIsLower(b, a);
    LessIsTotal(a, b);
    if Lower(a, b) {
      var k :| 0 <= k < |a| && LowerAt(a, b, k);
      var j := EncodingAscends(a, b, k);
    } else if Lower(b, a) {
      var k :| 0 <= k < |b| && LowerAt(b, a, k);
      var j := EncodingAscends(b, a, k);
      TextIsAsymmetric(Encoded(b), Encoded(a));
    }
  }

  /** The order of names as it is usually defined. */
  predicate Lexicographic(a: Name, b: Name) {
    b != [] && (a == [] || a[0] < b[0] || (a[0] == b[0] && Lexicographic(a[1..], b[1..])))
  }

  lemma {:induction false} LessIsLexicographic(a: Name, b: Name)
    ensures Less(a, b) <==> Lexicographic(a, b)
  {
    if a == [] {
      if b != [] { assert Differ(a, b, 0); }
    } else if b != [] {
      if a[0] == b[0] {
        LessTails(a, b);
        LessIsLexicographic(a[1..], b[1..]);
      } else if a[0] < b[0] {
        assert Differ(a, b, 0);
      } else {
        forall k | 0 <= k < |b| ensures !Differ(a, b, k) {
          if 0 < k <= |a| { assert a[..k][0] == a[0] && b[..k][0] == b[0]; }
        }
      }
    }
  }

  lemma {:induction false} LessTails(a: Name, b: Name)
    requires a != [] && b != [] && a[0] == b[0]
    ensures Less(a, b) <==> Less(a[1..], b[1..])
  {
    var x, y := a[1..], b[1..];
    if Less(a, b) {
      var k :| 0 <= k < |b| && Differ(a, b, k);
      assert k > 0 && x[..k - 1] == a[..k][1..] == b[..k][1..] == y[..k - 1];
      assert Differ(x, y, k - 1);
    }
    if Less(x, y) {
      var k :| 0 <= k < |y| && Differ(x, y, k);
      assert a[..k + 1] == [a[0]] + x[..k] == [b[0]] + y[..k] == b[..k + 1];
      assert Differ(a, b, k + 1);
    }
  }
}
