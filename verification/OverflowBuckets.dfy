/** Overflow buckets and physical paths (dds/DCPS/FileSystemStorage.cpp): overflow_dir_name, the counts in
    overflow_ and the way a path gives its bucket back.  The physical name of a subdirectory is its encoding or, when
    it is long, a cut encoding with a serial number. */
module OverflowBuckets {
  import opened Base32Hex
  import opened Digits
  import opened NameSupply

  const MAX_FILES_PER_DIR := 512
  const MAX_FILE_NAME := 150
  const MAX_FILE_NAME_ENCODED := 240
  const MAX_OVERFLOW_DIR := 9999

  // ----- paths -----

  function DigitChar(d: nat): char
    requires d < 10
  {
    '0' + d as char
  }

  /** The decimal digits of n, padded with zeros to width. */
  function Padded(width: nat, n: nat): (s: string)
    ensures |s| == width
  {
    var ds := Expand(10, width, n);
    seq(width, i requires 0 <= i < width => DigitChar(ds[i] % 10))
  }

  function OverflowDirName(n: nat): string {
    "_overflow." + Padded(4, n) + "/"
  }

  predicate IsDigit(c: char) {
    '0' <= c <= '9'
  }

  /** atoi from position i on. */
  function Atoi(s: string, i: nat, sofar: nat): nat
    requires i <= |s|
    decreases |s| - i
  {
    if i < |s| && IsDigit(s[i]) then Atoi(s, i + 1, sofar * 10 + (s[i] as int - '0' as int)) else sofar
  }

  /** The bucket that removing reads from a physical path. */
  function BucketOf(phys: string): nat {
    if "_overflow." <= phys then Atoi(phys, 10, 0) else 0
  }

  function Prefix(bucket: nat): string {
    if bucket == 0 then "" else OverflowDirName(bucket)
  }

  lemma {:induction false} AtoiStep(s: string, i: nat, sofar: nat, d: nat)
    requires i < |s| && d < 10 && s[i] == DigitChar(d)
    ensures Atoi(s, i, sofar) == Atoi(s, i + 1, sofar * 10 + d)
  {
  }

  /** s holds the digits ds from p on, and then something else. */
  predicate HoldsDigits(s: string, p: nat, ds: seq<nat>) {
    && p + |ds| < |s| && !IsDigit(s[p + |ds|]) && Below(10, ds)
    && forall k :: 0 <= k < |ds| ==> s[p + k] == DigitChar(ds[k])
  }

  lemma {:induction false} AtoiReadsDigits(s: string, p: nat, ds: seq<nat>, i: nat)
    requires HoldsDigits(s, p, ds) && i <= |ds|
    ensures Atoi(s, p + i, Value(10, ds[..i])) == Value(10, ds)
    decreases |ds| - i
  {
    if i == |ds| {
      assert ds[..i] == ds;
    } else {
      AtoiStep(s, p + i, Value(10, ds[..i]), ds[i]);
      assert ds[..i + 1] == ds[..i] + [ds[i]];
      ValueOfAppended(10, ds[..i], ds[i]);
      AtoiReadsDigits(s, p, ds, i + 1);
    }
  }

  /** atoi reads back the number that was padded to the width, and stops at the character after it. */
  lemma {:induction false} AtoiReadsBack(s: string, p: nat, width: nat, n: nat)
    requires p + width < |s| && n < Power(10, width)
    requires s[p..p + width] == Padded(width, n) && !IsDigit(s[p + width])
    ensures Atoi(s, p, 0) == n
  {
    var ds := Expand(10, width, n);
    ValueOfExpand(10, width, n);
    forall k | 0 <= k < width ensures s[p + k] == DigitChar(ds[k]) {
      assert s[p + k] == s[p..p + width][k];
    }
    AtoiReadsDigits(s, p, ds, 0);
  }

  /** Every bucket number comes back from the paths in that bucket. */
  lemma {:induction false} BucketReadsBack(bucket: nat, base: string)
    requires bucket <= MAX_OVERFLOW_DIR && (base != "" ==> base[0] != '_')
    ensures BucketOf(Prefix(bucket) + base) == bucket
  {
    var s := Prefix(bucket) + base;
    if bucket == 0 {
      assert s == base;
    } else {
      assert Power(10, 4) == 10000;
      assert s[10..14] == Padded(4, bucket) && s[14] == '/';
      AtoiReadsBack(s, 10, 4, bucket);
    }
  }

  lemma {:induction false} EncodedStart(name: Name, suffix: string)
    requires suffix != "" ==> name != []
    ensures var base := Encoded(name) + suffix; base != "" ==> base[0] != '_'
  {
    RoundTrip(name);
  }

  /** The decimal digits of a bucket number, the highest first. */
  lemma {:induction false} BucketDigits(a: nat, b: nat, c: nat, d: nat)
    requires a < 10 && b < 10 && c < 10 && d < 10
    ensures var n := 1000 * a + 100 * b + 10 * c + d;
      OverflowDirName(n) == "_overflow." + [DigitChar(a), DigitChar(b), DigitChar(c), DigitChar(d)] + "/"
  {
    FourDigits(a, b, c, d, 1000 * a + 100 * b + 10 * c + d);
  }

  lemma {:induction false} FourDigits(a: nat, b: nat, c: nat, d: nat, n: nat)
    requires a < 10 && b < 10 && c < 10 && d < 10 && n == 1000 * a + 100 * b + 10 * c + d
    ensures Expand(10, 4, n) == [a, b, c, d]
  {
    OneDigitMore(0, 0, a, a);
    OneDigitMore(1, a, 10 * a + b, b);
    OneDigitMore(2, 10 * a + b, 100 * a + 10 * b + c, c);
    OneDigitMore(3, 100 * a + 10 * b + c, n, d);
  }

  lemma {:induction false} OneDigitMore(width: nat, q: nat, n: nat, d: nat)
    requires d < 10 && n == q * 10 + d
    ensures Expand(10, width + 1, n) == Expand(10, width, q) + [d]
  {
    Divide(q, 10, d);
  }

  // ----- the directory entry of a name -----

  /** The physical name of a subdirectory: a long name is cut and gets a serial number. */
  function DirBase(name: Name, serial: nat): string {
    if |name| < MAX_FILE_NAME then Encoded(name)
    else Encoded(name[..MAX_FILE_NAME]) + "." + Padded(5, serial)
  }

  const MAX_SERIAL := 99999

  /** The numbers for a long name in bucket b have run out. */
  predicate SerialsUsedUp(longNames: map<string, nat>, b: nat, name: Name)
    requires |name| >= MAX_FILE_NAME
  {
    NextSerial(longNames, SerialKey(b, name)) == MAX_SERIAL
  }

  /** The next number of a physical name that is cut. */
  function NextSerial(longNames: map<string, nat>, key: string): nat {
    if key in longNames then longNames[key] else 0
  }

  function SerialKey(b: nat, name: Name): string
    requires |name| >= MAX_FILE_NAME
  {
    Prefix(b) + Encoded(name[..MAX_FILE_NAME])
  }

  /** Where a new subdirectory goes in bucket b, and the counters afterwards: a long name takes the next number. */
  predicate Located(before: map<string, nat>, after: map<string, nat>, b: nat, name: Name, phys: string) {
    if |name| < MAX_FILE_NAME then phys == Prefix(b) + Encoded(name) && after == before
    else
      var key := SerialKey(b, name);
      var serial := NextSerial(before, key);
      phys == key + "." + Padded(5, serial) && after == before[key := serial + 1]
  }

  lemma {:induction false} IsLocated(before: map<string, nat>, after: map<string, nat>, b: nat, name: Name, serial: nat, phys: string)
    requires phys == Prefix(b) + DirBase(name, serial)
    requires |name| < MAX_FILE_NAME ==> after == before
    requires |name| >= MAX_FILE_NAME ==>
      serial == NextSerial(before, SerialKey(b, name)) && after == before[SerialKey(b, name) := serial + 1]
    ensures Located(before, after, b, name, phys)
  {
  }

  lemma {:induction false} KeysTellBuckets(b: nat, x: Name, c: nat, y: Name)
    requires b <= MAX_OVERFLOW_DIR && c <= MAX_OVERFLOW_DIR && |x| >= MAX_FILE_NAME && |y| >= MAX_FILE_NAME
    ensures SerialKey(b, x) == SerialKey(c, y) <==> b == c && x[..MAX_FILE_NAME] == y[..MAX_FILE_NAME]
  {
    var u, v := x[..MAX_FILE_NAME], y[..MAX_FILE_NAME];
    EncodedStart(u, "");
    EncodedStart(v, "");
    assert Encoded(u) + "" == Encoded(u) && Encoded(v) + "" == Encoded(v);
    BucketReadsBack(b, Encoded(u));
    BucketReadsBack(c, Encoded(v));
    if SerialKey(b, x) == SerialKey(c, y) {
      assert Encoded(u) == SerialKey(b, x)[|Prefix(b)|..] == Encoded(v);
      EncodingIsInjective(u, v);
    }
  }

  /** Creating a subdirectory takes the next number of its beginning in its bucket, and no other. */
  lemma {:induction false} SerialsAreCounted(before: map<string, nat>, after: map<string, nat>, b: nat, name: Name, phys: string, c: nat, other: Name)
    requires Located(before, after, b, name, phys) && b <= MAX_OVERFLOW_DIR && c <= MAX_OVERFLOW_DIR && |other| >= MAX_FILE_NAME
    ensures NextSerial(after, SerialKey(c, other)) == NextSerial(before, SerialKey(c, other)) +
      (if |name| >= MAX_FILE_NAME && b == c && name[..MAX_FILE_NAME] == other[..MAX_FILE_NAME] then 1 else 0)
  {
    if |name| >= MAX_FILE_NAME { KeysTellBuckets(b, name, c, other); }
  }

  /** Scanning tells the two kinds of names apart by the length of the physical name alone, and decodes the short ones. */
  lemma {:induction false} ScanSeparates(name: Name, serial: nat)
    ensures |DirBase(name, serial)| <= MAX_FILE_NAME_ENCODED <==> |name| < MAX_FILE_NAME
    ensures |name| < MAX_FILE_NAME ==>
              var base := DirBase(name, serial); |base| % 8 == 0 && Readable(base) && Decoded(base) == name
  {
    if |name| < MAX_FILE_NAME {
      ShortLength(|name|);
      EncodedLength(name);
      RoundTrip(name);
    } else {
      EncodedLength(name[..MAX_FILE_NAME]);
    }
  }

  lemma {:induction false} ShortLength(n: nat)
    requires n < 150
    ensures 8 * ((n + 4) / 5) <= 240
  {
  }

  lemma {:induction false} PaddedIsInjective(width: nat, s: nat, t: nat)
    requires s < Power(10, width) && t < Power(10, width) && Padded(width, s) == Padded(width, t)
    ensures s == t
  {
    ValueOfExpand(10, width, s);
    ValueOfExpand(10, width, t);
    var a, b := Expand(10, width, s), Expand(10, width, t);
    forall i | 0 <= i < width ensures a[i] == b[i] {
      assert Padded(width, s)[i] == DigitChar(a[i]) && Padded(width, t)[i] == DigitChar(b[i]);
    }
    assert a == b;
  }

  /** Two subdirectories of one bucket have the same physical name only if both names are cut to the same
      beginning and have the same number. */
  lemma {:induction false} DirBaseIsInjective(a: Name, s: nat, b: Name, t: nat)
    requires DirBase(a, s) == DirBase(b, t) && s <= 99999 && t <= 99999
    ensures a == b || (|a| >= MAX_FILE_NAME && |b| >= MAX_FILE_NAME && a[..MAX_FILE_NAME] == b[..MAX_FILE_NAME] && s == t)
  {
    ScanSeparates(a, s);
    ScanSeparates(b, t);
    if |a| < MAX_FILE_NAME {
      EncodingIsInjective(a, b);
    } else {
      var x, y := Encoded(a[..MAX_FILE_NAME]), Encoded(b[..MAX_FILE_NAME]);
      EncodedLength(a[..MAX_FILE_NAME]);
      EncodedLength(b[..MAX_FILE_NAME]);
      assert x == DirBase(a, s)[..240] && y == DirBase(b, t)[..240];
      EncodingIsInjective(a[..MAX_FILE_NAME], b[..MAX_FILE_NAME]);
      assert Padded(5, s) == DirBase(a, s)[241..] && Padded(5, t) == DirBase(b, t)[241..];
      assert Power(10, 5) == 100000;
      PaddedIsInjective(5, s, t);
    }
  }

  /** The dot sets the physical name of a long subdirectory apart from every encoding. */
  lemma {:induction false} DirBaseIsNoEncoding(a: Name, s: nat, b: Name)
    requires DirBase(a, s) == Encoded(b)
    ensures a == b
  {
    if |a| < MAX_FILE_NAME {
      EncodingIsInjective(a, b);
    } else {
      LongBaseHasDot(a, s);
      RoundTrip(b);
    }
  }

  lemma {:induction false} LongBaseHasDot(a: Name, s: nat)
    requires |a| >= MAX_FILE_NAME
    ensures |DirBase(a, s)| > 240 && DirBase(a, s)[240] == '.'
  {
    EncodedLength(a[..MAX_FILE_NAME]);
    var head, tail := Encoded(a[..MAX_FILE_NAME]), Padded(5, s);
    assert (head + "." + tail)[|head|] == '.';
  }

  // ----- counts -----

  datatype Bucket = Bucket(number: nat, count: nat)

  /** overflow_ as the map's iterators see it. */
  predicate Sorted(o: seq<Bucket>) {
    forall i, j :: 0 <= i < j < |o| ==> o[i].number < o[j].number
  }

  function CountFrom(o: seq<Bucket>, b: nat, i: nat): nat
    requires i <= |o|
    decreases |o| - i
  {
    if i == |o| then 0 else if o[i].number == b then o[i].count else CountFrom(o, b, i + 1)
  }

  function Count(o: seq<Bucket>, b: nat): nat {
    CountFrom(o, b, 0)
  }

  predicate Uses(o: seq<Bucket>, b: nat) {
    exists i :: 0 <= i < |o| && o[i].number == b
  }

  lemma {:induction false} CountAt(o: seq<Bucket>, i: nat, k: nat)
    requires Sorted(o) && i <= k < |o|
    ensures CountFrom(o, o[k].number, i) == o[k].count
    decreases k - i
  {
    if i < k {
      CountAt(o, i + 1, k);
    }
  }

  lemma {:induction false} CountUnused(o: seq<Bucket>, b: nat, i: nat)
    requires i <= |o| && forall j :: i <= j < |o| ==> o[j].number != b
    ensures CountFrom(o, b, i) == 0
    decreases |o| - i
  {
    if i < |o| {
      CountUnused(o, b, i + 1);
    }
  }

  /** Counts are decided by number and count alone. */
  lemma {:induction false} CountAgrees(o: seq<Bucket>, p: seq<Bucket>, b: nat, i: nat, j: nat)
    requires i <= |o| && j <= |p| && o[i..] == p[j..]
    ensures CountFrom(o, b, i) == CountFrom(p, b, j)
    decreases |o| - i
  {
    assert |o| - i == |o[i..]| == |p[j..]| == |p| - j;
    if i < |o| {
      assert o[i] == o[i..][0] == p[j..][0] == p[j];
      assert o[i + 1..] == o[i..][1..] == p[j..][1..] == p[j + 1..];
      CountAgrees(o, p, b, i + 1, j + 1);
    }
  }

  lemma {:induction false} CountUpdated(o: seq<Bucket>, k: nat, count: nat, b: nat, i: nat)
    requires Sorted(o) && i <= k < |o|
    ensures CountFrom(o[k := Bucket(o[k].number, count)], b, i) == if b == o[k].number then count else CountFrom(o, b, i)
    decreases k - i
  {
    var p := o[k := Bucket(o[k].number, count)];
    if i < k {
      CountUpdated(o, k, count, b, i + 1);
    } else {
      CountAgrees(o, p, b, k + 1, k + 1);
    }
  }

  lemma {:induction false} CountInserted(o: seq<Bucket>, k: nat, new_: Bucket, b: nat, i: nat)
    requires i <= k <= |o| && (forall j :: 0 <= j < |o| ==> o[j].number != new_.number)
    ensures var p := o[..k] + [new_] + o[k..];
            CountFrom(p, b, i) == if b == new_.number then new_.count else CountFrom(o, b, i)
    decreases k - i
  {
    var p := o[..k] + [new_] + o[k..];
    if i < k {
      assert p[i] == o[i];
      CountInserted(o, k, new_, b, i + 1);
    } else {
      assert p[k] == new_ && p[k + 1..] == o[k..];
      CountAgrees(p, o, b, k + 1, k);
    }
  }

  lemma {:induction false} CountErased(o: seq<Bucket>, k: nat, b: nat, i: nat)
    requires Sorted(o) && i <= k < |o|
    ensures var p := o[..k] + o[k + 1..];
            CountFrom(p, b, i) == if b == o[k].number then 0 else CountFrom(o, b, i)
    decreases k - i
  {
    var p := o[..k] + o[k + 1..];
    if i < k {
      assert p[i] == o[i];
      CountErased(o, k, b, i + 1);
    } else {
      assert p[k..] == o[k + 1..];
      CountAgrees(p, o, b, k, k + 1);
      if b == o[k].number {
        CountUnused(o, b, k + 1);
      }
    }
  }

  // ----- entries -----

  /** The names in m that are placed in bucket b. */
  function Placed(m: map<Name, string>, b: nat): set<Name> {
    set n | n in m && BucketOf(m[n]) == b
  }

  lemma {:induction false} PlacedAfterAdd(m: map<Name, string>, n: Name, phys: string, b: nat)
    requires n !in m
    ensures |Placed(m[n := phys], b)| == |Placed(m, b)| + (if BucketOf(phys) == b then 1 else 0)
  {
    var was, now := Placed(m, b), Placed(m[n := phys], b);
    forall x ensures x in now <==> x in was || (x == n && BucketOf(phys) == b) {}
    if BucketOf(phys) == b {
      assert now == was + {n};
    } else {
      assert now == was;
    }
  }

  lemma {:induction false} PlacedAfterRemove(m: map<Name, string>, n: Name, b: nat)
    requires n in m
    ensures |Placed(m - {n}, b)| == |Placed(m, b)| - (if BucketOf(m[n]) == b then 1 else 0)
  {
    var was, now := Placed(m, b), Placed(m - {n}, b);
    if BucketOf(m[n]) == b {
      assert now == was - {n} && n in was;
    } else {
      assert now == was;
    }
  }
}
