/** Values shared by every part of the model: return codes, optional pointers,
    the DDS entities the registry refers to, and the "first element that
    satisfies a test" cursor loop that all the lookups share. */
module Common {

  datatype Option<+T> = None | Some(value: T)

  /** The DDS return codes that the modelled functions can produce. */
  datatype ReturnCode = Ok | Error | BadParameter | PreconditionNotMet | OutOfResources

  newtype Byte = x: int | 0 <= x < 256

  const KEY_HASH_LENGTH := 16
  const GID_LENGTH := 24

  /** The key hash carried by a DDS instance handle. */
  type KeyHash = s: seq<Byte> | |s| == KEY_HASH_LENGTH witness seq(KEY_HASH_LENGTH, _ => 0)

  /** A ROS 2 GID: a key hash padded with zeros. */
  type Gid = s: seq<Byte> | |s| == GID_LENGTH witness seq(GID_LENGTH, _ => 0)

  const ZERO_GID: Gid := [0, 0, 0, 0, 0, 0, 0, 0, 0, 0, 0, 0, 0, 0, 0, 0, 0, 0, 0, 0, 0, 0, 0, 0]

  /** The key hash at the start, and zeros after it. */
  function IhToGid(ih: KeyHash): (gid: Gid)
    ensures forall i :: 0 <= i < 16 ==> gid[i] == ih[i]
    ensures forall i :: 16 <= i < 24 ==> gid[i] == 0
  {
    ih + seq(GID_LENGTH - KEY_HASH_LENGTH, _ => 0)
  }

  /** DDS entities. An entity is its pointer identity together with the topic
      name and instance handle that DDS fixes when it creates the entity. */
  datatype Reader = Reader(id: nat, topic: string, ih: KeyHash)
  datatype Writer = Writer(id: nat, topic: string, ih: KeyHash)
  datatype Participant = Participant(id: nat, ih: KeyHash)

  /** Distinct key hashes give distinct GIDs: the padding loses nothing. */
  lemma IhToGidInjective(a: KeyHash, b: KeyHash)
    requires IhToGid(a) == IhToGid(b)
    ensures a == b
  {
    assert a == IhToGid(a)[..KEY_HASH_LENGTH];
    assert b == IhToGid(b)[..KEY_HASH_LENGTH];
  }

  /** Index of the first element of s that satisfies p, if there is one. */
  function FirstIndex<T>(s: seq<T>, p: T -> bool): (r: Option<nat>)
    ensures r.None? ==> forall i :: 0 <= i < |s| ==> !p(s[i])
    ensures r.Some? ==> r.value < |s| && p(s[r.value]) && forall i :: 0 <= i < r.value ==> !p(s[i])
  {
    if s == [] then None
    else if p(s[0]) then Some(0)
    else
      var rest := FirstIndex(s[1..], p);
      match rest
      case None => assert forall i :: 1 <= i < |s| ==> s[i] == s[1..][i - 1]; None
      case Some(i) => assert forall j :: 1 <= j < |s| ==> s[j] == s[1..][j - 1]; Some(i + 1)
  }

  ghost predicate NoDup<T>(s: seq<T>) {
    forall i, j :: 0 <= i < j < |s| ==> s[i] != s[j]
  }

  function RemoveAt<T>(s: seq<T>, i: nat): (r: seq<T>)
    requires i < |s|
    ensures |r| == |s| - 1
    ensures forall j :: 0 <= j < |r| ==> r[j] == s[if j < i then j else j + 1]
  {
    seq(|s| - 1, j requires 0 <= j < |s| - 1 => s[if j < i then j else j + 1])
  }

  /** How many elements of s satisfy p. */
  function Count<T>(s: seq<T>, p: T -> bool): nat {
    if s == [] then 0 else (if p(s[0]) then 1 else 0) + Count(s[1..], p)
  }

  lemma {:induction false} CountConcat<T>(a: seq<T>, b: seq<T>, p: T -> bool)
    ensures Count(a + b, p) == Count(a, p) + Count(b, p)
  {
    if a == [] {
      assert a + b == b;
    } else {
      CountConcat(a[1..], b, p);
      assert (a + b)[1..] == a[1..] + b;
    }
  }

  lemma RemoveAtIsConcat<T>(s: seq<T>, i: nat)
    requires i < |s|
    ensures RemoveAt(s, i) == s[..i] + s[i + 1..]
  {
    var r, t := RemoveAt(s, i), s[..i] + s[i + 1..];
    assert forall j :: 0 <= j < |r| ==> r[j] == t[j];
  }

  lemma CountRemoveAt<T>(s: seq<T>, i: nat, p: T -> bool)
    requires i < |s|
    ensures Count(RemoveAt(s, i), p) == Count(s, p) - (if p(s[i]) then 1 else 0)
  {
    CountSplit(s, i, p);
    CountConcat(s[..i], s[i + 1..], p);
    RemoveAtIsConcat(s, i);
  }

  lemma CountUpdate<T>(s: seq<T>, i: nat, x: T, p: T -> bool)
    requires i < |s|
    ensures Count(s[i := x], p) == Count(s, p) - (if p(s[i]) then 1 else 0) + (if p(x) then 1 else 0)
  {
    CountSplit(s, i, p);
    CountSplit(s[i := x], i, p);
    assert s[i := x][..i] == s[..i] && s[i := x][i + 1..] == s[i + 1..];
  }

  lemma CountSplit<T>(s: seq<T>, i: nat, p: T -> bool)
    requires i < |s|
    ensures Count(s, p) == Count(s[..i], p) + (if p(s[i]) then 1 else 0) + Count(s[i + 1..], p)
  {
    CountConcat(s[..i], s[i..], p);
    assert s == s[..i] + s[i..];
    assert s[i..][1..] == s[i + 1..];
  }

  lemma {:induction false} CountBound<T>(s: seq<T>, p: T -> bool)
    ensures Count(s, p) <= |s|
    ensures Count(s, p) == 0 <==> forall x :: x in s ==> !p(x)
  {
    if s != [] {
      CountBound(s[1..], p);
      assert s == [s[0]] + s[1..];
    }
  }

  /** The elements of s that satisfy p, in order. */
  function Filter<T(!new)>(s: seq<T>, p: T -> bool): (r: seq<T>)
    ensures |r| == Count(s, p)
    ensures forall x :: x in r <==> x in s && p(x)
  {
    if s == [] then []
    else
      assert s == [s[0]] + s[1..];
      (if p(s[0]) then [s[0]] else []) + Filter(s[1..], p)
  }

  lemma {:induction false} FilterSnoc<T(!new)>(s: seq<T>, x: T, p: T -> bool)
    ensures Filter(s + [x], p) == Filter(s, p) + (if p(x) then [x] else [])
  {
    if s == [] {
      assert ([x] + [])[1..] == [];
    } else {
      assert (s + [x])[1..] == s[1..] + [x];
      FilterSnoc(s[1..], x, p);
    }
  }

  lemma {:induction false} FilterWhole<T(!new)>(s: seq<T>, p: T -> bool)
    requires |Filter(s, p)| == |s|
    ensures forall x :: x in s ==> p(x)
  {
    if s != [] {
      assert s == [s[0]] + s[1..];
      CountBound(s[1..], p);
      FilterWhole(s[1..], p);
    }
  }

  lemma {:induction false} FilterAll<T(!new)>(s: seq<T>, p: T -> bool)
    requires forall x :: x in s ==> p(x)
    ensures Filter(s, p) == s
  {
    if s != [] {
      assert s == [s[0]] + s[1..];
      FilterAll(s[1..], p);
    }
  }

  /** Members of a sequence after removing or replacing one position. */
  lemma RemoveAtElements<T>(s: seq<T>, i: nat)
    requires i < |s|
    ensures |RemoveAt(s, i)| == |s| - 1
    ensures forall j :: 0 <= j < |s| - 1 ==> RemoveAt(s, i)[j] == s[if j < i then j else j + 1]
  {}

  lemma RemoveAtNoDup<T>(s: seq<T>, i: nat)
    requires NoDup(s) && i < |s|
    ensures NoDup(RemoveAt(s, i)) && s[i] !in RemoveAt(s, i)
    ensures forall x :: x in s && x != s[i] <==> x in RemoveAt(s, i)
  {
    RemoveAtElements(s, i);
    forall x | x in s && x != s[i]
      ensures x in RemoveAt(s, i)
    {
      var j :| 0 <= j < |s| && s[j] == x;
      assert RemoveAt(s, i)[if j < i then j else j - 1] == x;
    }
  }

  lemma {:induction false} Pigeonhole<T>(a: seq<T>, b: seq<T>)
    requires NoDup(a) && NoDup(b) && |a| == |b| && forall i :: 0 <= i < |a| ==> a[i] in b
    ensures forall x :: x in b ==> x in a
  {
    if a != [] {
      var last := |a| - 1;
      var j :| 0 <= j < |b| && b[j] == a[last];
      RemoveAtNoDup(b, j);
      Pigeonhole(a[..last], RemoveAt(b, j));
      assert a == a[..last] + [a[last]];
    }
  }
}
