/** The entries of one directory (dds/DCPS/FileSystemStorage.cpp): add_entry, make_new_file, create_next_file,
    make_new_subdir and removing.  The counts are the numbers of entries placed in each
    bucket, every serial number in use is below the counter of its name, and no two entries share a path. */
module Directories {
  import opened Base32Hex
  import opened NameSupply
  import opened OverflowBuckets

  /** F followed by fourteen zeros. */
  function DefaultFileName(): Name {
    [0x46] + seq(14, _ => 0x30)
  }

  /** The default name or, when there are files, the last name incremented. */
  predicate IsNextName(names: set<Name>, name: Name) {
    if names == {} then name == DefaultFileName() else exists last :: last in names && IsLast(names, last) && Follows(last, name)
  }

  datatype Outcome = Created(phys: string) | NameTaken | OutOfRange | BucketsFull | LongNameOutOfRange

  /** The map overflow_: a first bucket 0, no empty bucket but that one, and no count above the limit. */
  predicate ValidBuckets(o: seq<Bucket>) {
    && Sorted(o) && (o != [] ==> o[0].number == 0)
    && (forall i :: 0 <= i < |o| ==> o[i].number <= MAX_OVERFLOW_DIR && o[i].count <= MAX_FILES_PER_DIR)
    && (forall i :: 1 <= i < |o| ==> o[i].count > 0)
  }

  /** Every bucket number up to the limit is used and full. */
  predicate Exhausted(o: seq<Bucket>) {
    |o| == MAX_OVERFLOW_DIR + 1 && (forall i :: 0 <= i < |o| ==> o[i].count == MAX_FILES_PER_DIR)
  }

  /** b is where the next entry goes: the lowest bucket with room or, when all are full, the lowest unused number. */
  predicate IsNext(o: seq<Bucket>, b: nat) {
    && (forall i :: 0 <= i < |o| && o[i].number < b ==> o[i].count == MAX_FILES_PER_DIR)
    && if Uses(o, b) then Count(o, b) < MAX_FILES_PER_DIR
       else (forall i :: 0 <= i < |o| ==> o[i].count == MAX_FILES_PER_DIR) && (forall k :: 0 <= k < b ==> Uses(o, k))
  }

  predicate HasRoom(o: seq<Bucket>, b: nat) {
    Uses(o, b) && Count(o, b) < MAX_FILES_PER_DIR
  }

  /** The next entry goes into the lowest bucket that has room or, when none has, the lowest number that is not used. */
  lemma {:induction false} NextIsLowest(o: seq<Bucket>, b: nat)
    requires Sorted(o) && IsNext(o, b)
    ensures forall c: nat :: HasRoom(o, c) ==> b <= c && HasRoom(o, b)
    ensures !HasRoom(o, b) ==> !Uses(o, b) && forall c: nat :: c < b ==> Uses(o, c)
  {
    forall c: nat | HasRoom(o, c) ensures b <= c && HasRoom(o, b) {
      var i :| 0 <= i < |o| && o[i].number == c;
      CountAt(o, 0, i);
    }
  }

  /** p has one entry more than o, in bucket b. */
  ghost predicate OneMore(o: seq<Bucket>, p: seq<Bucket>, b: nat) {
    forall k: nat :: Count(p, k) == Count(o, k) + (if k == b then 1 else 0)
  }

  lemma {:induction false} Climb(o: seq<Bucket>, g: nat, i: nat)
    requires Sorted(o) && FirstGap(o, g) && g <= i < |o|
    ensures o[i].number >= i + 1
  {
    if i > g {
      Climb(o, g, i - 1);
    }
  }

  /** The first unused number is out of range exactly when every number up to the limit is used. */
  lemma {:induction false} GapInRange(o: seq<Bucket>, g: nat)
    requires ValidBuckets(o) && o != [] && FirstGap(o, g)
    ensures g <= MAX_OVERFLOW_DIR <==> |o| != MAX_OVERFLOW_DIR + 1
    ensures g <= MAX_OVERFLOW_DIR + 1
  {
    if g < |o| {
      Climb(o, g, |o| - 1);
    } else {
      assert o[g - 1].number == g - 1;
    }
  }

  lemma {:induction false} Bumped(o: seq<Bucket>, i: nat)
    requires ValidBuckets(o) && i < |o| && o[i].count < MAX_FILES_PER_DIR
    requires forall j :: 0 <= j < i ==> o[j].count == MAX_FILES_PER_DIR
    ensures var p := o[i := Bucket(o[i].number, o[i].count + 1)];
            ValidBuckets(p) && OneMore(o, p, o[i].number) && IsNext(o, o[i].number)
  {
    CountAt(o, 0, i);
    forall k: nat {
      CountUpdated(o, i, o[i].count + 1, k, 0);
    }
  }

  /** The numbers below g are all used and g is not. */
  predicate FirstGap(o: seq<Bucket>, g: nat) {
    g <= |o| && (forall j :: 0 <= j < g ==> o[j].number == j) && (g < |o| ==> o[g].number > g)
  }

  lemma {:induction false} OpenedIsNext(o: seq<Bucket>, g: nat)
    requires ValidBuckets(o) && o != [] && FirstGap(o, g)
    requires forall j :: 0 <= j < |o| ==> o[j].count == MAX_FILES_PER_DIR
    ensures IsNext(o, g) && (forall j :: 0 <= j < |o| ==> o[j].number != g) && g > 0
  {
    forall k | 0 <= k < g ensures Uses(o, k) {
      assert o[k].number == k;
    }
  }

  lemma {:induction false} OpenedIsOneMore(o: seq<Bucket>, g: nat)
    requires g <= |o| && forall j :: 0 <= j < |o| ==> o[j].number != g
    ensures OneMore(o, o[..g] + [Bucket(g, 1)] + o[g..], g)
  {
    CountUnused(o, g, 0);
    forall k: nat {
      CountInserted(o, g, Bucket(g, 1), k, 0);
    }
  }

  lemma {:induction false} OpenedIsValid(o: seq<Bucket>, g: nat)
    requires ValidBuckets(o) && o != [] && FirstGap(o, g) && 0 < g <= MAX_OVERFLOW_DIR
    ensures ValidBuckets(o[..g] + [Bucket(g, 1)] + o[g..])
  {
  }

  /** Every bucket's count is the number of entries placed in it. */
  ghost predicate Counted(o: seq<Bucket>, files: map<Name, string>, dirs: map<Name, string>) {
    forall b: nat :: Count(o, b) == |Placed(files, b)| + |Placed(dirs, b)|
  }

  /** A count without an entry. */
  lemma {:induction false} OneTooMany(o: seq<Bucket>, p: seq<Bucket>, b: nat, files: map<Name, string>, dirs: map<Name, string>)
    requires Counted(o, files, dirs) && OneMore(o, p, b)
    ensures !Counted(p, files, dirs)
  {
    assert Count(p, b) == Count(o, b) + 1;
  }

  /** One more entry in the map m in bucket b balances one more in the count. */
  lemma {:induction false} AddBalances(o: seq<Bucket>, p: seq<Bucket>, files: map<Name, string>, dirs: map<Name, string>,
                                       name: Name, phys: string)
    requires name !in files && name !in dirs && OneMore(o, p, BucketOf(phys)) && Counted(o, files, dirs)
    ensures Counted(p, files[name := phys], dirs) && Counted(p, files, dirs[name := phys])
  {
    forall b: nat {
      PlacedAfterAdd(files, name, phys, b);
    }
    forall b: nat {
      PlacedAfterAdd(dirs, name, phys, b);
    }
  }

  /** Every file is where its name and its bucket say. */
  predicate FilesInPlace(files: map<Name, string>) {
    forall n :: n in files ==> n != [] && files[n] == Prefix(BucketOf(files[n])) + Encoded(n)
  }

  /** A subdirectory is where its name, its bucket and its number say, and its number was given out before. */
  predicate DirInPlace(n: Name, phys: string, serial: nat, longNames: map<string, nat>) {
    && n != [] && phys == Prefix(BucketOf(phys)) + DirBase(n, serial) && serial <= MAX_SERIAL
    && (|n| >= MAX_FILE_NAME ==> serial < NextSerial(longNames, SerialKey(BucketOf(phys), n)))
  }

  predicate DirsInPlace(dirs: map<Name, string>, serials: map<Name, nat>, longNames: map<string, nat>) {
    && (forall n :: n in dirs ==> n in serials && DirInPlace(n, dirs[n], serials[n], longNames))
    && (forall key :: key in longNames ==> longNames[key] <= MAX_SERIAL)
  }

  predicate Distinct(dirs: map<Name, string>) {
    forall a, b :: a in dirs && b in dirs && a != b ==> dirs[a] != dirs[b]
  }

  predicate InPlace(files: map<Name, string>, dirs: map<Name, string>, serials: map<Name, nat>, longNames: map<string, nat>) {
    files.Keys !! dirs.Keys && FilesInPlace(files) && DirsInPlace(dirs, serials, longNames) && Distinct(dirs)
  }

  /** The path with a number that was never given out is the path of no subdirectory. */
  lemma {:induction false} NewPathIsFree(dirs: map<Name, string>, serials: map<Name, nat>, longNames: map<string, nat>,
                                         name: Name, phys: string, serial: nat, n: Name)
    requires DirsInPlace(dirs, serials, longNames) && n in dirs && name !in dirs && serial <= MAX_SERIAL
    requires phys == Prefix(BucketOf(phys)) + DirBase(name, serial)
    requires |name| >= MAX_FILE_NAME ==> serial == NextSerial(longNames, SerialKey(BucketOf(phys), name))
    ensures dirs[n] != phys
  {
    if dirs[n] == phys {
      var p := |Prefix(BucketOf(phys))|;
      assert DirBase(name, serial) == phys[p..] == DirBase(n, serials[n]);
      DirBaseIsInjective(name, serial, n, serials[n]);
    }
  }

  /** before and after a number was given out for name in bucket b. */
  predicate SerialTaken(before: map<string, nat>, after: map<string, nat>, b: nat, name: Name, serial: nat) {
    && serial < MAX_SERIAL
    && if |name| < MAX_FILE_NAME then after == before
       else serial == NextSerial(before, SerialKey(b, name)) && after == before[SerialKey(b, name) := serial + 1]
  }

  lemma {:induction false} NewDirKeepsPlaces(files: map<Name, string>, dirs: map<Name, string>, serials: map<Name, nat>,
                                             before: map<string, nat>, after: map<string, nat>,
                                             name: Name, phys: string, serial: nat)
    requires InPlace(files, dirs, serials, before) && name !in dirs && name !in files && name != []
    requires phys == Prefix(BucketOf(phys)) + DirBase(name, serial)
    requires SerialTaken(before, after, BucketOf(phys), name, serial)
    ensures InPlace(files, dirs[name := phys], serials[name := serial], after)
  {
    forall n | n in dirs ensures dirs[n] != phys && DirInPlace(n, dirs[n], serials[n], after) {
      NewPathIsFree(dirs, serials, before, name, phys, serial, n);
      StillInPlace(n, dirs[n], serials[n], before, after, BucketOf(phys), name, serial);
    }
  }

  lemma {:induction false} StillInPlace(n: Name, path: string, number: nat, before: map<string, nat>, after: map<string, nat>,
                                        b: nat, name: Name, serial: nat)
    requires DirInPlace(n, path, number, before) && SerialTaken(before, after, b, name, serial)
    ensures DirInPlace(n, path, number, after)
  {
  }

  lemma {:induction false} NewFileKeepsPlaces(files: map<Name, string>, dirs: map<Name, string>, serials: map<Name, nat>,
                                              longNames: map<string, nat>, name: Name, phys: string)
    requires InPlace(files, dirs, serials, longNames) && name !in dirs
    requires name != [] && phys == Prefix(BucketOf(phys)) + Encoded(name)
    ensures InPlace(files[name := phys], dirs, serials, longNames)
  {
  }

  lemma {:induction false} RemovalKeepsPlaces(files: map<Name, string>, dirs: map<Name, string>, serials: map<Name, nat>,
                                              longNames: map<string, nat>, child: Name)
    requires InPlace(files, dirs, serials, longNames)
    ensures InPlace(files - {child}, dirs, serials, longNames) && InPlace(files, dirs - {child}, serials, longNames)
  {
  }

  lemma {:induction false} RemoveBalances(o: seq<Bucket>, p: seq<Bucket>, files: map<Name, string>, dirs: map<Name, string>,
                                          child: Name)
    requires Counted(o, files, dirs)
    ensures child in files && OneMore(p, o, BucketOf(files[child])) ==> Counted(p, files - {child}, dirs)
    ensures child in dirs && OneMore(p, o, BucketOf(dirs[child])) ==> Counted(p, files, dirs - {child})
  {
    forall b: nat ensures child in files ==> |Placed(files - {child}, b)| == |Placed(files, b)| - (if BucketOf(files[child]) == b then 1 else 0) {
      if child in files { PlacedAfterRemove(files, child, b); }
    }
    forall b: nat ensures child in dirs ==> |Placed(dirs - {child}, b)| == |Placed(dirs, b)| - (if BucketOf(dirs[child]) == b then 1 else 0) {
      if child in dirs { PlacedAfterRemove(dirs, child, b); }
    }
  }

  /** IsNext names one bucket. */
  lemma {:induction false} NextIsUnique(o: seq<Bucket>, a: nat, b: nat)
    requires Sorted(o) && IsNext(o, a) && IsNext(o, b)
    ensures a == b
  {
    if a < b {
      NextIsNotAbove(o, a, b);
    } else if b < a {
      NextIsNotAbove(o, b, a);
    }
  }

  /** The name is long, and the bucket it would go into has no number left for it. */
  ghost predicate NumbersUsedUp(o: seq<Bucket>, longNames: map<string, nat>, name: Name) {
    |name| >= MAX_FILE_NAME && exists b: nat :: IsNext(o, b) && SerialsUsedUp(longNames, b, name)
  }

  lemma {:induction false} NextDecides(o: seq<Bucket>, p: seq<Bucket>, bucket: nat, longNames: map<string, nat>, name: Name)
    requires Sorted(o) && IsNext(o, bucket) && OneMore(o, p, bucket)
    ensures NumbersUsedUp(o, longNames, name) <==> |name| >= MAX_FILE_NAME && SerialsUsedUp(longNames, bucket, name)
    ensures forall b: nat :: IsNext(o, b) ==> OneMore(o, p, b)
  {
    forall b: nat | IsNext(o, b) ensures b == bucket {
      NextIsUnique(o, b, bucket);
    }
  }

  lemma {:induction false} NextIsNotAbove(o: seq<Bucket>, a: nat, b: nat)
    requires Sorted(o) && IsNext(o, a) && a < b
    ensures !IsNext(o, b)
  {
    if Uses(o, a) {
      var i :| 0 <= i < |o| && o[i].number == a;
      CountAt(o, 0, i);
    } else if Uses(o, b) {
      var i :| 0 <= i < |o| && o[i].number == b;
      CountAt(o, 0, i);
    }
  }

  class Directory {
    var overflow: seq<Bucket>
    var files: map<Name, string>
    var dirs: map<Name, string>
    var longNames: map<string, nat>
    ghost var serials: map<Name, nat>

    /** Every bucket's count is the number of entries placed in it. */
    ghost predicate Balanced()
      reads this
    {
      Counted(overflow, files, dirs)
    }

    ghost predicate Valid()
      reads this
    {
      ValidBuckets(overflow) && Balanced() && InPlace(files, dirs, serials, longNames)
    }

    constructor ()
      ensures Valid() && files == map[] && dirs == map[] && overflow == [] && longNames == map[]
    {
      overflow, files, dirs, longNames, serials := [], map[], map[], map[], map[];
    }

    /** The first bucket with room, or else the first unused number. */
    static method FindBucket(o: seq<Bucket>) returns (i: nat, unused: nat)
      requires ValidBuckets(o) && o != []
      ensures i <= |o| && (forall j :: 0 <= j < i ==> o[j].count == MAX_FILES_PER_DIR)
      ensures i < |o| ==> o[i].count < MAX_FILES_PER_DIR
      ensures i == |o| ==> FirstGap(o, unused)
    {
      var foundGap: bool, lastSeen: nat := false, 0;
      i, unused := 0, 0;
      while i < |o|
        invariant 0 <= i <= |o|
        invariant forall j :: 0 <= j < i ==> o[j].count == MAX_FILES_PER_DIR
        invariant foundGap ==> FirstGap(o, unused)
        invariant !foundGap ==> (forall j :: 0 <= j < i ==> o[j].number == j) && lastSeen == (if i == 0 then 0 else i - 1)
      {
        if o[i].count < MAX_FILES_PER_DIR {
          return;
        }
        assert i > 0 ==> o[i - 1].number < o[i].number;
        if !foundGap && o[i].number > lastSeen + 1 {
          foundGap, unused := true, lastSeen + 1;
        }
        lastSeen := o[i].number;
        i := i + 1;
      }
      if !foundGap {
        unused := lastSeen + 1;
      }
    }

    /** add_entry. */
    method AddEntry() returns (ok: bool, bucket: nat)
      requires ValidBuckets(overflow)
      modifies this`overflow
      ensures ok <==> !Exhausted(old(overflow))
      ensures !ok ==> overflow == old(overflow)
      ensures ok ==> ValidBuckets(overflow) && OneMore(old(overflow), overflow, bucket)
      ensures ok ==> bucket <= MAX_OVERFLOW_DIR && IsNext(old(overflow), bucket)
      ensures ok ==> forall b :: HasRoom(old(overflow), b) ==> bucket <= b && HasRoom(old(overflow), bucket)
      ensures ok && !HasRoom(old(overflow), bucket) ==> !Uses(old(overflow), bucket) && forall b: nat :: b < bucket ==> Uses(old(overflow), b)
    {
      if overflow == [] {
        NextIsLowest(overflow, 0);
        overflow := [Bucket(0, 1)];
        return true, 0;
      }
      var i, unused := FindBucket(overflow);
      if i < |overflow| {
        Bumped(overflow, i);
        bucket := overflow[i].number;
        NextIsLowest(overflow, bucket);
        overflow := overflow[i := Bucket(bucket, overflow[i].count + 1)];
        return true, bucket;
      }
      GapInRange(overflow, unused);
      if unused > MAX_OVERFLOW_DIR {
        return false, 0;
      }
      OpenedIsNext(overflow, unused);
      NextIsLowest(overflow, unused);
      OpenedIsOneMore(overflow, unused);
      OpenedIsValid(overflow, unused);
      overflow := overflow[..unused] + [Bucket(unused, 1)] + overflow[unused..];
      return true, unused;
    }

    /** make_new_file, for a name that is not the name of a file. */
    method MakeNewFile(name: Name) returns (r: Outcome)
      requires Valid() && name !in files && name != []
      modifies this`overflow, this`files
      ensures r.NameTaken? <==> name in dirs
      ensures r.BucketsFull? <==> name !in dirs && Exhausted(old(overflow))
      ensures !r.Created? ==> r.NameTaken? || r.BucketsFull?
      ensures !r.Created? ==> overflow == old(overflow) && files == old(files)
      ensures r.Created? ==> files == old(files)[name := r.phys] && IsNext(old(overflow), BucketOf(r.phys))
      ensures Valid()
    {
      if name in dirs {
        return NameTaken;
      }
      var ok, bucket := AddEntry();
      if !ok {
        return BucketsFull;
      }
      var phys := EnterFile(name, bucket, old(overflow));
      return Created(phys);
    }

    /** The file enters the map under its path, once it is counted in its bucket. */
    method EnterFile(name: Name, bucket: nat, ghost before: seq<Bucket>) returns (phys: string)
      requires ValidBuckets(overflow) && bucket <= MAX_OVERFLOW_DIR && OneMore(before, overflow, bucket)
      requires Counted(before, files, dirs) && InPlace(files, dirs, serials, longNames)
      requires name !in dirs && name !in files && name != []
      modifies this`files
      ensures Valid() && files == old(files)[name := phys] && BucketOf(phys) == bucket
    {
      phys := Prefix(bucket) + Encoded(name);
      EncodedStart(name, "");
      assert Encoded(name) + "" == Encoded(name);
      BucketReadsBack(bucket, Encoded(name));
      AddBalances(before, overflow, files, dirs, name, phys);
      NewFileKeepsPlaces(files, dirs, serials, longNames, name, phys);
      files := files[name := phys];
    }

    /** The name after the last one, if that one can be incremented. */
    static method NextName(names: set<Name>) returns (ok: bool, last: Name, next: Name)
      requires names != {} && forall n :: n in names ==> n != [] && Ascii(n)
      ensures IsLast(names, last) && (ok <==> Room(last) > 0)
      ensures ok ==> next != [] && Ascii(next) && Room(next) == Room(last) - 1
      ensures ok ==> Follows(last, next) && next !in names && forall n :: n in names ==> Less(n, next)
    {
      ghost var some := LastExists(names);
      last :| last in names && IsLast(names, last);
      assert IsLast(names, last);
      ok, next := Increment(last);
      if ok {
        forall n: Name | n in names ensures Less(n, next) {
          if n != last {
            LessIsTransitive(n, last, next);
          }
        }
        LessIsIrreflexive(next);
      }
    }

    /** The name of the next file, if there is one. */
    static method ChooseName(names: set<Name>) returns (ok: bool, name: Name)
      requires forall n :: n in names ==> n != [] && Ascii(n)
      ensures !ok <==> exists last :: IsFinal(names, last)
      ensures !ok ==> IsFinal(names, name)
      ensures ok ==> name != [] && Ascii(name) && IsNextName(names, name) && forall n :: n in names ==> Less(n, name)
      ensures ok ==> name !in names
    {
      if names == {} {
        return true, DefaultFileName();
      }
      var last, next;
      ok, last, next := NextName(names);
      forall other | IsLast(names, other) ensures other == last { LastIsUnique(names, other, last); }
      name := if ok then next else last;
      assert !ok ==> IsFinal(names, last);
    }

    /** create_next_file. */
    method CreateNextFile() returns (r: Outcome, name: Name)
      requires Valid() && forall n :: n in files ==> Ascii(n)
      modifies this`overflow, this`files
      ensures Valid() && (r.Created? ==> files == old(files)[name := r.phys])
      ensures r.Created? ==> Ascii(name) && (forall n :: n in old(files) ==> Less(n, name))
      ensures !r.Created? ==> files == old(files) && overflow == old(overflow)
      ensures r.OutOfRange? <==> exists last :: IsFinal(old(files).Keys, last)
      ensures r.OutOfRange? ==> IsFinal(old(files).Keys, name)
      ensures !r.OutOfRange? ==> IsNextName(old(files).Keys, name)
      ensures !r.OutOfRange? ==> (r.Created? <==> name !in dirs && !Exhausted(old(overflow)))
    {
      var ok;
      ok, name := ChooseName(files.Keys);
      if !ok {
        return OutOfRange, name;
      }
      r := MakeNewFile(name);
    }

    /** The next number of a physical name that is cut. */
    method TakeSerial(key: string) returns (ok: bool, serial: nat)
      modifies this`longNames
      ensures serial == NextSerial(old(longNames), key)
      ensures ok <==> serial != MAX_SERIAL
      ensures longNames == if ok then old(longNames)[key := serial + 1] else old(longNames)
    {
      serial := NextSerial(longNames, key);
      ok := serial != MAX_SERIAL;
      if ok {
        longNames := longNames[key := serial + 1];
      }
    }

    /** make_new_subdir, for a name that is not the name of a subdirectory. A name too long to encode is cut and numbered;
        when its numbers have run out the entry is counted already, and the counts are wrong from then on. */
    method MakeNewSubdir(name: Name) returns (r: Outcome)
      requires Valid() && name !in dirs && name != []
      modifies this
      ensures files == old(files) && (!r.Created? ==> dirs == old(dirs))
      ensures r.NameTaken? <==> name in files
      ensures r.BucketsFull? <==> name !in files && Exhausted(old(overflow))
      ensures r.NameTaken? || r.BucketsFull? ==> overflow == old(overflow) && Valid()
      ensures r.Created? ==> Valid() && dirs == old(dirs)[name := r.phys] && IsNext(old(overflow), BucketOf(r.phys))
      ensures r.Created? ==> Located(old(longNames), longNames, BucketOf(r.phys), name, r.phys)
      ensures !r.Created? ==> longNames == old(longNames)
      ensures r.LongNameOutOfRange? ==> !Balanced()
      ensures r.LongNameOutOfRange? ==> forall b: nat :: IsNext(old(overflow), b) ==> OneMore(old(overflow), overflow, b)
      ensures r.LongNameOutOfRange? <==>
                name !in files && !Exhausted(old(overflow)) && NumbersUsedUp(old(overflow), old(longNames), name)
      ensures !r.OutOfRange?
    {
      if name in files {
        return NameTaken;
      }
      var ok, bucket := AddEntry();
      if !ok {
        return BucketsFull;
      }
      NextDecides(old(overflow), overflow, bucket, longNames, name);
      r := Enter(name, bucket, old(overflow));
      if r.LongNameOutOfRange? {
        OneTooMany(old(overflow), overflow, bucket, files, dirs);
      }
    }

    /** The subdirectory enters the map under its path, once it is counted in its bucket. */
    method Enter(name: Name, bucket: nat, ghost before: seq<Bucket>) returns (r: Outcome)
      requires ValidBuckets(overflow) && bucket <= MAX_OVERFLOW_DIR && OneMore(before, overflow, bucket)
      requires Counted(before, files, dirs) && InPlace(files, dirs, serials, longNames)
      requires name !in dirs && name !in files && name != []
      modifies this`dirs, this`serials, this`longNames
      ensures r.Created? || r.LongNameOutOfRange?
      ensures r.LongNameOutOfRange? <==> |name| >= MAX_FILE_NAME && SerialsUsedUp(old(longNames), bucket, name)
      ensures r.LongNameOutOfRange? ==> dirs == old(dirs) && longNames == old(longNames)
      ensures r.Created? ==> Valid() && dirs == old(dirs)[name := r.phys] && BucketOf(r.phys) == bucket
      ensures r.Created? ==> Located(old(longNames), longNames, bucket, name, r.phys)
    {
      var ok, serial := true, 0;
      if |name| >= MAX_FILE_NAME {
        ok, serial := TakeSerial(SerialKey(bucket, name));
      }
      if !ok {
        return LongNameOutOfRange;
      }
      var phys := Prefix(bucket) + DirBase(name, serial);
      IsLocated(old(longNames), longNames, bucket, name, serial, phys);
      DirBaseStart(name, serial);
      BucketReadsBack(bucket, DirBase(name, serial));
      AddBalances(before, overflow, files, dirs, name, phys);
      NewDirKeepsPlaces(files, dirs, serials, old(longNames), longNames, name, phys, serial);
      dirs, serials := dirs[name := phys], serials[name := serial];
      return Created(phys);
    }

    /** removing. */
    method Removing(child: Name, file: bool)
      requires Valid()
      modifies this`overflow, this`files, this`dirs
      ensures Valid()
      ensures file ==> files == old(files) - {child} && dirs == old(dirs)
      ensures !file ==> dirs == old(dirs) - {child} && files == old(files)
    {
      if file {
        RemoveFile(child);
      } else {
        RemoveDir(child);
      }
    }

    method RemoveFile(child: Name)
      requires Valid()
      modifies this`overflow, this`files
      ensures Valid() && files == old(files) - {child}
    {
      if child in files {
        var bucket := BucketOf(files[child]);
        assert child in Placed(files, bucket);
        overflow := OneLess(overflow, bucket);
        RemoveBalances(old(overflow), overflow, files, dirs, child);
        RemovalKeepsPlaces(files, dirs, serials, longNames, child);
      }
      assert child !in files ==> files - {child} == files;
      files := files - {child};
    }

    method RemoveDir(child: Name)
      requires Valid()
      modifies this`overflow, this`dirs
      ensures Valid() && dirs == old(dirs) - {child}
    {
      if child in dirs {
        var bucket := BucketOf(dirs[child]);
        assert child in Placed(dirs, bucket);
        overflow := OneLess(overflow, bucket);
        RemoveBalances(old(overflow), overflow, files, dirs, child);
        RemovalKeepsPlaces(files, dirs, serials, longNames, child);
      }
      assert child !in dirs ==> dirs - {child} == dirs;
      dirs := dirs - {child};
    }

    /** The count of a bucket goes down by one, and a bucket other than 0 goes with its last entry. */
    static method OneLess(o: seq<Bucket>, bucket: nat) returns (p: seq<Bucket>)
      requires ValidBuckets(o) && Count(o, bucket) > 0
      ensures ValidBuckets(p) && OneMore(p, o, bucket)
    {
      var i := FindNumber(o, bucket);
      CountAt(o, 0, i);
      p := o[i := Bucket(bucket, o[i].count - 1)];
      forall b: nat {
        CountUpdated(o, i, o[i].count - 1, b, 0);
      }
      if p[i].count == 0 && bucket > 0 {
        forall b: nat {
          CountErased(p, i, b, 0);
        }
        p := p[..i] + p[i + 1..];
      }
    }

    static method FindNumber(o: seq<Bucket>, bucket: nat) returns (i: nat)
      requires Count(o, bucket) > 0
      ensures i < |o| && o[i].number == bucket
    {
      i := 0;
      while o[i].number != bucket
        invariant i < |o| && CountFrom(o, bucket, i) > 0
        decreases |o| - i
      {
        i := i + 1;
      }
    }
  }

  lemma {:induction false} DirBaseStart(name: Name, serial: nat)
    requires name != []
    ensures DirBase(name, serial) != "" ==> DirBase(name, serial)[0] != '_'
  {
    if |name| < MAX_FILE_NAME {
      EncodedStart(name, "");
      assert Encoded(name) + "" == Encoded(name);
    } else {
      var head, tail := Encoded(name[..MAX_FILE_NAME]), Padded(5, serial);
      EncodedStart(name[..MAX_FILE_NAME], "." + tail);
      assert head + "." + tail == head + ("." + tail);
    }
  }

  /** No two entries of a directory, files or subdirectories, share a physical path, in whatever buckets they are. */
  lemma {:induction false} PathsAreDistinct(d: Directory, a: Name, b: Name)
    requires d.Valid()
    ensures a in d.files && b in d.files && a != b ==> d.files[a] != d.files[b]
    ensures a in d.dirs && b in d.dirs && a != b ==> d.dirs[a] != d.dirs[b]
    ensures a in d.files && b in d.dirs ==> d.files[a] != d.dirs[b]
  {
    if a in d.files && b in d.files && d.files[a] == d.files[b] {
      FilePaths(a, b, d.files[a], d.files[b]);
    }
    if a in d.files && b in d.dirs {
      FileIsNoDir(a, d.files[a], b, d.dirs[b], d.serials[b]);
    }
  }

  lemma {:induction false} FileIsNoDir(a: Name, path: string, b: Name, other: string, serial: nat)
    requires path == Prefix(BucketOf(path)) + Encoded(a) && other == Prefix(BucketOf(other)) + DirBase(b, serial) && a != b
    ensures path != other
  {
    if path == other {
      var p := |Prefix(BucketOf(path))|;
      assert Encoded(a) == path[p..] == DirBase(b, serial);
      DirBaseIsNoEncoding(b, serial, a);
    }
  }

  lemma {:induction false} FilePaths(a: Name, b: Name, path: string, other: string)
    requires path == Prefix(BucketOf(path)) + Encoded(a) && other == Prefix(BucketOf(other)) + Encoded(b)
    requires path == other
    ensures a == b
  {
    var p := Prefix(BucketOf(path));
    assert Encoded(a) == path[|p|..] == Encoded(b);
    EncodingIsInjective(a, b);
  }

  /** An empty directory places its next entry in bucket 0. */
  lemma {:induction false} EmptyTakesZero(o: seq<Bucket>)
    requires ValidBuckets(o) && Counted(o, map[], map[])
    ensures IsNext(o, 0) && !Exhausted(o)
  {
    forall i | 0 <= i < |o| ensures o[i].count == 0 {
      CountAt(o, 0, i);
      assert Count(o, o[i].number) == 0;
    }
  }

  /** Creating and removing a long name again and again uses up its numbers: the next creation fails, and the entry that it
      counted does not exist. */
  method SerialsRunOut(name: Name) returns (d: Directory)
    requires |name| >= MAX_FILE_NAME
    ensures d.files == map[] && d.dirs == map[] && Count(d.overflow, 0) == 1 && !d.Balanced()
  {
    d := new Directory();
    var i := 0;
    while i < MAX_SERIAL
      invariant 0 <= i <= MAX_SERIAL && fresh(d) && d.Valid() && d.files == map[] && d.dirs == map[]
      invariant NextSerial(d.longNames, SerialKey(0, name)) == i
    {
      CreateAndRemove(d, name);
      i := i + 1;
    }
    EmptyTakesZero(d.overflow);
    var r := d.MakeNewSubdir(name);
    assert r.LongNameOutOfRange?;
  }

  /** One number of the name less. */
  method CreateAndRemove(d: Directory, name: Name)
    requires d.Valid() && d.files == map[] && d.dirs == map[] && |name| >= MAX_FILE_NAME
    requires NextSerial(d.longNames, SerialKey(0, name)) < MAX_SERIAL
    modifies d
    ensures d.Valid() && d.files == map[] && d.dirs == map[]
    ensures NextSerial(d.longNames, SerialKey(0, name)) == NextSerial(old(d.longNames), SerialKey(0, name)) + 1
  {
    EmptyTakesZero(d.overflow);
    forall b: nat | IsNext(d.overflow, b) ensures b == 0 { NextIsUnique(d.overflow, b, 0); }
    var r := d.MakeNewSubdir(name);
    assert r.Created?;
    d.Removing(name, false);
    assert map[name := r.phys] - {name} == map[];
  }

  /** How many of n entries that are never removed are in bucket b. */
  function InBucket(n: nat, b: nat): nat {
    if n >= MAX_FILES_PER_DIR * (b + 1) then MAX_FILES_PER_DIR
    else if n <= MAX_FILES_PER_DIR * b then 0
    else n - MAX_FILES_PER_DIR * b
  }

  ghost predicate InOrder(o: seq<Bucket>, n: nat) {
    forall b: nat :: Count(o, b) == InBucket(n, b)
  }

  lemma {:induction false} NextInOrder(o: seq<Bucket>, n: nat)
    requires ValidBuckets(o) && InOrder(o, n)
    ensures IsNext(o, n / MAX_FILES_PER_DIR)
  {
    var q := n / MAX_FILES_PER_DIR;
    forall i | 0 <= i < |o| ensures o[i].count == InBucket(n, o[i].number) && o[i].number <= q {
      CountAt(o, 0, i);
      assert Count(o, o[i].number) == InBucket(n, o[i].number);
    }
    forall k: nat | k < q ensures Uses(o, k) {
      assert Count(o, k) == InBucket(n, k) == MAX_FILES_PER_DIR;
      if !Uses(o, k) { CountUnused(o, k, 0); }
    }
    assert Count(o, q) == InBucket(n, q);
  }

  lemma {:induction false} MoreInOrder(o: seq<Bucket>, n: nat, p: seq<Bucket>)
    requires InOrder(o, n) && OneMore(o, p, n / MAX_FILES_PER_DIR)
    ensures InOrder(p, n + 1)
  {
    var q := n / MAX_FILES_PER_DIR;
    forall b: nat ensures Count(p, b) == InBucket(n + 1, b) {
      assert Count(o, b) == InBucket(n, b) && Count(p, b) == Count(o, b) + (if b == q then 1 else 0);
      InBucketGrows(n, b);
    }
  }

  lemma {:induction false} InBucketGrows(n: nat, b: nat)
    ensures InBucket(n + 1, b) == InBucket(n, b) + (if b == n / MAX_FILES_PER_DIR then 1 else 0)
  {
  }

  lemma {:induction false} ExhaustedInOrder(o: seq<Bucket>, n: nat)
    requires ValidBuckets(o) && InOrder(o, n) && n < MAX_FILES_PER_DIR * (MAX_OVERFLOW_DIR + 1)
    ensures !Exhausted(o)
  {
    if |o| == MAX_OVERFLOW_DIR + 1 {
      var i := |o| - 1;
      NumbersClimb(o, i);
      CountAt(o, 0, i);
      assert Count(o, o[i].number) == InBucket(n, o[i].number);
    }
  }

  lemma {:induction false} NumbersClimb(o: seq<Bucket>, i: nat)
    requires Sorted(o) && i < |o|
    ensures o[i].number >= i
  {
    if i > 0 { NumbersClimb(o, i - 1); }
  }

  predicate Different(names: seq<Name>) {
    forall i, j :: 0 <= i < j < |names| ==> names[i] != names[j]
  }

  /** The files are the first n names, each in the bucket of its place. */
  ghost predicate InPlaceOf(files: map<Name, string>, names: seq<Name>, n: nat)
    requires n <= |names|
  {
    && (forall x :: x in files ==> x in names[..n])
    && forall i :: 0 <= i < n ==> names[i] in files && BucketOf(files[names[i]]) == i / MAX_FILES_PER_DIR
  }

  lemma {:induction false} PlacedNext(files: map<Name, string>, names: seq<Name>, n: nat, phys: string)
    requires Different(names) && n < |names| && InPlaceOf(files, names, n) && BucketOf(phys) == n / MAX_FILES_PER_DIR
    ensures InPlaceOf(files[names[n] := phys], names, n + 1)
  {
    assert names[..n + 1] == names[..n] + [names[n]];
  }

  lemma {:induction false} NextIsNew(files: map<Name, string>, names: seq<Name>, n: nat)
    requires Different(names) && n < |names| && InPlaceOf(files, names, n)
    ensures names[n] !in files
  {
    assert names[n] !in names[..n];
  }

  /** Files that are created one after the other go into bucket 0, 512 of them, then into bucket 1, and so on. */
  method CreateInOrder(names: seq<Name>) returns (d: Directory)
    requires Different(names) && (forall i :: 0 <= i < |names| ==> names[i] != [])
    requires |names| <= MAX_FILES_PER_DIR * (MAX_OVERFLOW_DIR + 1)
    ensures d.Valid() && d.dirs == map[] && InOrder(d.overflow, |names|)
    ensures forall i :: 0 <= i < |names| ==> names[i] in d.files && BucketOf(d.files[names[i]]) == i / MAX_FILES_PER_DIR
  {
    d := new Directory();
    var n := 0;
    while n < |names|
      invariant 0 <= n <= |names| && fresh(d) && d.Valid() && d.dirs == map[] && InOrder(d.overflow, n)
      invariant InPlaceOf(d.files, names, n)
    {
      ghost var files := d.files;
      NextIsNew(files, names, n);
      CreateNext(d, names[n], n);
      PlacedNext(files, names, n, d.files[names[n]]);
      n := n + 1;
    }
  }

  method CreateNext(d: Directory, name: Name, n: nat)
    requires d.Valid() && d.dirs == map[] && InOrder(d.overflow, n) && name !in d.files && name != []
    requires n < MAX_FILES_PER_DIR * (MAX_OVERFLOW_DIR + 1)
    modifies d
    ensures d.Valid() && d.dirs == map[] && InOrder(d.overflow, n + 1)
    ensures name in d.files && d.files == old(d.files)[name := d.files[name]] && BucketOf(d.files[name]) == n / MAX_FILES_PER_DIR
  {
    ghost var before := d.overflow;
    NextInOrder(before, n);
    ExhaustedInOrder(before, n);
    var r := d.MakeNewFile(name);
    assert r.Created?;
    NextIsUnique(before, BucketOf(r.phys), n / MAX_FILES_PER_DIR);
    OneFileMore(before, d.overflow, old(d.files), d.dirs, name, r.phys);
    MoreInOrder(before, n, d.overflow);
  }

  lemma {:induction false} OneFileMore(o: seq<Bucket>, p: seq<Bucket>, files: map<Name, string>, dirs: map<Name, string>, name: Name, phys: string)
    requires name !in files && Counted(o, files, dirs) && Counted(p, files[name := phys], dirs)
    ensures OneMore(o, p, BucketOf(phys))
  {
    forall k: nat ensures Count(p, k) == Count(o, k) + (if k == BucketOf(phys) then 1 else 0) {
      PlacedAfterAdd(files, name, phys, k);
    }
  }

  /** The default name leaves room for 1106 more. */
  lemma {:induction false} DefaultRoom()
    ensures Ascii(DefaultFileName()) && Room(DefaultFileName()) == 1106
  {
    ZerosRoom(DefaultFileName(), 1);
  }

  lemma {:induction false} ZerosRoom(name: Name, i: nat)
    requires i <= |name| && Ascii(name) && forall j :: i <= j < |name| ==> name[j] == 0x30
    ensures RoomFrom(name, i) == 79 * (|name| - i)
    decreases |name| - i
  {
    if i < |name| {
      ZerosRoom(name, i + 1);
    }
  }
}
