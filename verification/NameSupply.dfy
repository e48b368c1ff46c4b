/** The order of names and the next name after the last one (dds/DCPS/FileSystemStorage.cpp): increment.  Room counts how
    often a name can still be incremented; create_next_file takes its names from here. */
module NameSupply {
  import opened Basics

  type Name = seq<Byte>

  const LAST := 0x7F

  /** The order of std::map on strings: the first difference decides, and a prefix comes first. */
  predicate Less(a: Name, b: Name) {
    exists k :: 0 <= k < |b| && Differ(a, b, k)
  }

  predicate Differ(a: Name, b: Name, k: nat) {
    k < |b| && k <= |a| && a[..k] == b[..k] && (k < |a| ==> a[k] < b[k])
  }

  lemma {:induction false} LessIsTransitive(a: Name, b: Name, c: Name)
    requires Less(a, b) && Less(b, c)
    ensures Less(a, c)
  {
    var j :| 0 <= j < |b| && Differ(a, b, j);
    var k :| 0 <= k < |c| && Differ(b, c, k);
    var n := if j < k then j else k;
    assert a[..n] == a[..j][..n] == b[..j][..n] == b[..n] == b[..k][..n] == c[..k][..n] == c[..n];
    if j < k {
      assert b[j] == b[..k][j] == c[..k][j];
    } else if k < j {
      assert a[k] == a[..j][k] == b[..j][k];
    }
    assert Differ(a, c, n);
  }

  lemma {:induction false} LessIsIrreflexive(a: Name)
    ensures !Less(a, a)
  {
  }

  lemma {:induction false} LessIsTotal(a: Name, b: Name)
    ensures Less(a, b) || a == b || Less(b, a)
  {
    TotalFrom(a, b, 0);
  }

  lemma {:induction false} TotalFrom(a: Name, b: Name, k: nat)
    requires k <= |a| && k <= |b| && a[..k] == b[..k]
    ensures Less(a, b) || a == b || Less(b, a)
    decreases |a| - k
  {
    if k == |a| && k == |b| {
      assert a == a[..k] == b[..k] == b;
    } else if k == |a| {
      assert Differ(a, b, k);
    } else if k == |b| {
      assert Differ(b, a, k);
    } else if a[k] == b[k] {
      assert a[..k + 1] == a[..k] + [a[k]] == b[..k] + [b[k]] == b[..k + 1];
      TotalFrom(a, b, k + 1);
    } else if a[k] < b[k] {
      assert Differ(a, b, k);
    } else {
      assert Differ(b, a, k);
    }
  }

  /** The last key of a sorted map. */
  predicate IsLast(names: set<Name>, last: Name) {
    last in names && forall n :: n in names ==> n == last || Less(n, last)
  }

  lemma {:induction false} LastExists(names: set<Name>) returns (last: Name)
    requires names != {}
    ensures IsLast(names, last)
    decreases |names|
  {
    var n :| n in names;
    if names == {n} {
      last := n;
    } else {
      var others := names - {n};
      assert names == others + {n};
      var m := LastExists(others);
      LessIsTotal(n, m);
      if Less(m, n) {
        last := n;
        forall x | x in names ensures x == last || Less(x, last) {
          if x != n && x != m {
            LessIsTransitive(x, m, n);
          }
        }
      } else {
        last := m;
      }
    }
  }

  // ----- increment -----

  predicate Ascii(name: Name) {
    forall i :: 0 <= i < |name| ==> name[i] <= LAST
  }

  /** How far the characters from i on are from the last one, all together. */
  function RoomFrom(name: Name, i: nat): (room: nat)
    requires i <= |name| && Ascii(name)
    decreases |name| - i
  {
    if i == |name| then 0 else LAST - name[i] + RoomFrom(name, i + 1)
  }

  /** The first character is never changed. */
  function Room(name: Name): nat
    requires name != [] && Ascii(name)
  {
    RoomFrom(name, 1)
  }

  lemma {:induction false} RoomAtEnd(name: Name, i: nat)
    requires i <= |name| && Ascii(name)
    requires forall j :: i <= j < |name| ==> name[j] == LAST
    ensures RoomFrom(name, i) == 0
    decreases |name| - i
  {
    if i < |name| {
      RoomAtEnd(name, i + 1);
    }
  }

  lemma {:induction false} RoomAfter(name: Name, i: nat, k: nat)
    requires i <= k < |name| && Ascii(name) && name[k] < LAST
    ensures var next := name[k := name[k] + 1]; Ascii(next) && RoomFrom(next, i) == RoomFrom(name, i) - 1
    decreases |name| - i
  {
    var next := name[k := name[k] + 1];
    if i < k {
      RoomAfter(name, i + 1, k);
    } else {
      RoomSame(name, next, k + 1);
    }
  }

  lemma {:induction false} RoomSame(a: Name, b: Name, i: nat)
    requires i <= |a| == |b| && Ascii(a) && Ascii(b) && a[i..] == b[i..]
    ensures RoomFrom(a, i) == RoomFrom(b, i)
    decreases |a| - i
  {
    if i < |a| {
      assert a[i] == a[i..][0] == b[i..][0] == b[i];
      assert a[i + 1..] == a[i..][1..] == b[i..][1..] == b[i + 1..];
      RoomSame(a, b, i + 1);
    }
  }

  /** b is a with its last character that can go up, other than the first, one higher. */
  predicate Follows(a: Name, b: Name) {
    exists k :: 1 <= k < |a| && FollowsAt(a, b, k)
  }

  predicate FollowsAt(a: Name, b: Name, k: nat) {
    && 1 <= k < |a| == |b| && b[..k] == a[..k] && b[k] == a[k] + 1 <= LAST
    && forall j :: k < j < |a| ==> b[j] == a[j] == LAST
  }

  /** The name after which there is none. */
  predicate IsFinal(names: set<Name>, last: Name) {
    IsLast(names, last) && last != [] && Ascii(last) && Room(last) == 0
  }

  lemma {:induction false} LastIsUnique(names: set<Name>, a: Name, b: Name)
    requires IsLast(names, a) && IsLast(names, b)
    ensures a == b
  {
    if a != b {
      LessIsTransitive(a, b, a);
      LessIsIrreflexive(a);
    }
  }

  /** increment: the last character that is not the last of all, other than the first character, goes up by one.
      The new name is above the old one and its room is one less; it fails exactly when there is no room. */
  method Increment(logical: Name) returns (ok: bool, next: Name)
    requires logical != [] && Ascii(logical)
    ensures ok <==> Room(logical) > 0
    ensures ok ==> |next| == |logical| && next[0] == logical[0] && Ascii(next) && Less(logical, next)
    ensures ok ==> Room(next) == Room(logical) - 1 && Follows(logical, next)
    ensures !ok ==> next == logical
  {
    next := logical;
    var i := |logical| - 1;
    while i >= 1
      invariant 0 <= i < |logical|
      invariant forall j :: i < j < |logical| ==> logical[j] == LAST
    {
      if logical[i] < LAST {
        next := logical[i := logical[i] + 1];
        RoomAfter(logical, 1, i);
        assert Differ(logical, next, i) && FollowsAt(logical, next, i);
        return true, next;
      }
      i := i - 1;
    }
    RoomAtEnd(logical, 1);
    return false, next;
  }

  /** A name after k successful increments has k less room, so the names from one name on run out after exactly as many
      steps as it has room, and each is above all before it. */
  method NamesFrom(first: Name) returns (names: seq<Name>)
    requires first != [] && Ascii(first)
    ensures |names| == Room(first) + 1 && names[0] == first
    ensures forall i, j :: 0 <= i < j < |names| ==> Less(names[i], names[j])
  {
    names := [first];
    var ok, next := Increment(first);
    var last := first;
    while ok
      invariant names != [] && last == names[|names| - 1] && last != [] && Ascii(last) && names[0] == first
      invariant |names| + Room(last) == Room(first) + 1
      invariant forall i, j :: 0 <= i < j < |names| ==> Less(names[i], names[j])
      invariant ok <==> Room(last) > 0
      invariant ok ==> next != [] && Ascii(next) && Less(last, next) && Room(next) == Room(last) - 1
      decreases Room(last)
    {
      forall i | 0 <= i < |names| ensures Less(names[i], next) {
        if i < |names| - 1 {
          LessIsTransitive(names[i], last, next);
        }
      }
      names, last := names + [next], next;
      ok, next := Increment(last);
    }
  }
}
