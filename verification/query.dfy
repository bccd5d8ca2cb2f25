/** Relational query primitives shared by every listing of the ledger:
    ORDER BY on a timestamp (a stable sort on an integer key) and LIMIT
    (with SQLite's rule that a negative limit means "no limit"). */
module Query {

  /** `s` is ordered by `key`, smallest first. */
  predicate SortedBy<T>(s: seq<T>, key: T -> int) {
    forall i, j :: 0 <= i < j < |s| ==> key(s[i]) <= key(s[j])
  }

  /** Inserts `x` into the sorted `s` in front of the first element whose
      key is not smaller. */
  function Insert<T(==,!new)>(x: T, s: seq<T>, key: T -> int): (r: seq<T>)
    requires SortedBy(s, key)
    ensures SortedBy(r, key)
    ensures multiset(r) == multiset(s) + multiset{x}
    ensures forall y :: y in r <==> y in s || y == x
  {
    if |s| == 0 then [x]
    else if key(x) <= key(s[0]) then
      ConsSorted(x, s, key);
      [x] + s
    else
      assert s == [s[0]] + s[1..];
      HeadSmallest(s, key);
      var rest := Insert(x, s[1..], key);
      ConsSorted(s[0], rest, key);
      [s[0]] + rest
  }

  /** The head of a sorted sequence has a key no larger than any later
      element's. */
  lemma HeadSmallest<T>(s: seq<T>, key: T -> int)
    requires SortedBy(s, key) && |s| > 0
    ensures forall y :: y in s[1..] ==> key(s[0]) <= key(y)
  {
    forall y | y in s[1..] ensures key(s[0]) <= key(y) {
      var k :| 0 <= k < |s[1..]| && s[1..][k] == y;
      assert s[k + 1] == y;
    }
  }

  /** Putting an element no larger than any of a sorted sequence's in front
      keeps it sorted. */
  lemma ConsSorted<T>(h: T, t: seq<T>, key: T -> int)
    requires SortedBy(t, key)
    requires forall y :: y in t ==> key(h) <= key(y)
    ensures SortedBy([h] + t, key)
  {
    var r := [h] + t;
    forall i, j | 0 <= i < j < |r| ensures key(r[i]) <= key(r[j]) {
      assert r[j] == t[j - 1];
      if i == 0 {
        assert t[j - 1] in t;
      } else {
        assert r[i] == t[i - 1];
      }
    }
  }

  /** Insertion sort on `key`, smallest first. */
  function SortBy<T(==,!new)>(s: seq<T>, key: T -> int): (r: seq<T>)
    ensures SortedBy(r, key)
    ensures multiset(r) == multiset(s)
    ensures forall x :: x in r <==> x in s
  {
    if |s| == 0 then []
    else
      assert s == [s[0]] + s[1..];
      Insert(s[0], SortBy(s[1..], key), key)
  }

  /** `ORDER BY t DESC` as a key for the ascending sorts here: a later
      timestamp gives a smaller key. */
  function Descending(t: nat): int { -(t as int) }

  /** How many of `n` rows a LIMIT clause lets through: SQLite reads a
      negative limit as "no upper bound". */
  function LimitCount(limit: int, n: nat): (k: nat)
    ensures k <= n
    ensures limit >= 0 ==> k <= limit
    ensures k == n || k == limit
  {
    if limit < 0 || limit >= n then n else limit
  }

  /** In a sorted sequence every element of a prefix has a key no larger
      than any element after it. */
  lemma PrefixBelowRest<T>(t: seq<T>, k: nat, key: T -> int)
    requires SortedBy(t, key) && k <= |t|
    ensures multiset(t) == multiset(t[..k]) + multiset(t[k..])
    ensures forall x, y :: x in multiset(t) - multiset(t[..k]) && y in t[..k] ==> key(y) <= key(x)
  {
    assert t == t[..k] + t[k..];
    forall x, y | x in multiset(t) - multiset(t[..k]) && y in t[..k]
      ensures key(y) <= key(x)
    {
      assert x in multiset(t[k..]);
      assert x in t[k..];
      var j :| k <= j < |t| && t[j] == x;
      var i :| 0 <= i < k && t[i] == y;
    }
  }

  /** ORDER BY key ASC LIMIT limit: the `limit` rows with the smallest keys,
      in key order. */
  function TopBy<T(==,!new)>(s: seq<T>, key: T -> int, limit: int): (r: seq<T>)
    ensures |r| == LimitCount(limit, |s|)
    ensures SortedBy(r, key)
    ensures multiset(r) <= multiset(s)
    ensures forall x :: x in r ==> x in s
    ensures forall x, y :: x in multiset(s) - multiset(r) && y in r ==> key(y) <= key(x)
  {
    var t := SortBy(s, key);
    var k := LimitCount(limit, |s|);
    PrefixBelowRest(t, k, key);
    t[..k]
  }

  /** A LIMIT that lets every row through loses none of them. */
  lemma AllKept<T>(s: seq<T>, r: seq<T>)
    requires multiset(r) <= multiset(s) && |r| == |s|
    ensures forall x :: x in s ==> x in r
  {
    var d := multiset(s) - multiset(r);
    assert multiset(s) == multiset(r) + d;
    assert |d| == 0;
    assert d == multiset{};
    forall x | x in s ensures x in r {
      assert x in multiset(s);
    }
  }

  /** A row whose key is smaller than that of some row TopBy returned is
      itself returned. */
  lemma TopByKeepsSmaller<T(!new)>(s: seq<T>, key: T -> int, limit: int)
    ensures forall x, y :: x in s && y in TopBy(s, key, limit) && key(x) < key(y) ==>
              x in TopBy(s, key, limit)
  {
    var r := TopBy(s, key, limit);
    forall x, y | x in s && y in r && key(x) < key(y)
      ensures x in r
    {
      assert x in multiset(s);
    }
  }

  /** Applies `f` to every element of `s`, in order. */
  function Map<T>(s: seq<T>, f: T -> T): (r: seq<T>)
    ensures |r| == |s|
    ensures forall i :: 0 <= i < |s| ==> r[i] == f(s[i])
  {
    seq(|s|, i requires 0 <= i < |s| => f(s[i]))
  }

  /** `f` never changes an element's sort key. */
  ghost predicate KeepsKey<T(!new)>(f: T -> T, key: T -> int) {
    forall x :: key(f(x)) == key(x)
  }

  /** A map that keeps the key keeps a sorted sequence sorted. */
  lemma MapSorted<T(!new)>(s: seq<T>, f: T -> T, key: T -> int)
    requires SortedBy(s, key) && KeepsKey(f, key)
    ensures SortedBy(Map(s, f), key)
  {
    var m := Map(s, f);
    forall i, j | 0 <= i < j < |m| ensures key(m[i]) <= key(m[j]) {
      assert key(m[i]) == key(s[i]) && key(m[j]) == key(s[j]);
    }
  }

  /** Mapping the tail is the tail of the mapped sequence. */
  lemma MapTail<T>(s: seq<T>, f: T -> T)
    requires |s| > 0
    ensures Map(s, f) == [f(s[0])] + Map(s[1..], f)
  {
  }

  /** Mapping a prefix is the prefix of the mapped sequence. */
  lemma MapPrefix<T>(s: seq<T>, f: T -> T, k: nat)
    requires k <= |s|
    ensures Map(s[..k], f) == Map(s, f)[..k]
  {
  }

  /** Insertion only compares keys, so it commutes with a map that keeps
      them. */
  lemma {:induction false} InsertMap<T(!new)>(x: T, s: seq<T>, key: T -> int, f: T -> T)
    requires SortedBy(s, key) && KeepsKey(f, key)
    ensures SortedBy(Map(s, f), key)
    ensures Insert(f(x), Map(s, f), key) == Map(Insert(x, s, key), f)
  {
    MapSorted(s, f, key);
    if |s| > 0 {
      MapTail(s, f);
      assert key(f(x)) == key(x) && key(f(s[0])) == key(s[0]);
      if key(x) > key(s[0]) {
        assert SortedBy(s[1..], key);
        InsertMap(x, s[1..], key, f);
        MapTail([s[0]] + Insert(x, s[1..], key), f);
        assert ([s[0]] + Insert(x, s[1..], key))[1..] == Insert(x, s[1..], key);
      } else {
        MapTail([x] + s, f);
        assert ([x] + s)[1..] == s;
      }
    }
  }

  /** Sorting commutes with a map that keeps the key. */
  lemma {:induction false} SortMap<T(!new)>(s: seq<T>, key: T -> int, f: T -> T)
    requires KeepsKey(f, key)
    ensures SortBy(Map(s, f), key) == Map(SortBy(s, key), f)
  {
    if |s| > 0 {
      MapTail(s, f);
      assert Map(s, f)[1..] == Map(s[1..], f);
      SortMap(s[1..], key, f);
      InsertMap(s[0], SortBy(s[1..], key), key, f);
    }
  }

  /** ORDER BY ... LIMIT commutes with a map that keeps the key: the same
      rows come back in the same order, each mapped. */
  lemma TopMap<T(!new)>(s: seq<T>, key: T -> int, limit: int, f: T -> T)
    requires KeepsKey(f, key)
    ensures TopBy(Map(s, f), key, limit) == Map(TopBy(s, key, limit), f)
  {
    var k := LimitCount(limit, |s|);
    var t := SortBy(s, key);
    assert SortBy(Map(s, f), key) == Map(t, f) by {
      SortMap(s, key, f);
    }
    assert Map(t[..k], f) == Map(t, f)[..k] by {
      MapPrefix(t, f, k);
    }
    TopIsPrefix(s, key, limit);
    TopIsPrefix(Map(s, f), key, limit);
  }

  /** TopBy keeps the first rows of the sorted sequence. */
  lemma TopIsPrefix<T(!new)>(s: seq<T>, key: T -> int, limit: int)
    ensures LimitCount(limit, |s|) <= |SortBy(s, key)|
    ensures TopBy(s, key, limit) == SortBy(s, key)[..LimitCount(limit, |s|)]
  {
    var t := SortBy(s, key);
    var k := LimitCount(limit, |s|);
    assert |t| == |s| by {
      assert |multiset(t)| == |multiset(s)|;
    }
  }

  /** No element occurs twice in `s`. */
  ghost predicate Distinct<T>(s: seq<T>) {
    forall i, j :: 0 <= i < j < |s| ==> s[i] != s[j]
  }

  /** The tail of a sequence without repeats has none and lacks the head. */
  lemma DistinctTail<T>(s: seq<T>)
    requires Distinct(s) && |s| > 0
    ensures Distinct(s[1..])
    ensures s[0] !in s[1..]
  {
    forall i, j | 0 <= i < j < |s[1..]| ensures s[1..][i] != s[1..][j] {
      assert s[1..][i] == s[i + 1] && s[1..][j] == s[j + 1];
    }
    forall k | 0 <= k < |s[1..]| ensures s[1..][k] != s[0] {
      assert s[1..][k] == s[k + 1];
    }
  }

  /** In a sequence without repeats every element occurs at most once. */
  lemma {:induction false} DistinctOnce<T>(s: seq<T>, x: T)
    requires Distinct(s)
    ensures multiset(s)[x] <= 1
  {
    if |s| > 0 {
      assert s == [s[0]] + s[1..];
      DistinctTail(s);
      DistinctOnce(s[1..], x);
    }
  }

  /** A sequence without repeats has as many elements as its set: COUNT(*)
      over distinct rows counts each once. */
  lemma {:induction false} DistinctCard<T>(s: seq<T>)
    requires Distinct(s)
    ensures |set x | x in s| == |s|
  {
    if |s| > 0 {
      DistinctTail(s);
      DistinctCard(s[1..]);
      assert (set x | x in s) == {s[0]} + (set x | x in s[1..]) by {
        assert s == [s[0]] + s[1..];
      }
    }
  }

  /** An element at two positions occurs at least twice. */
  lemma Twice<T>(s: seq<T>, i: nat, j: nat)
    requires i < j < |s| && s[i] == s[j]
    ensures multiset(s)[s[i]] >= 2
  {
    assert s == s[..j] + [s[j]] + s[j + 1..];
    assert s[i] in s[..j];
  }

  /** A sub-multiset of a sequence without repeats has no repeats: ORDER
      BY and LIMIT never duplicate a row. */
  lemma DistinctSub<T>(s: seq<T>, r: seq<T>)
    requires Distinct(s)
    requires multiset(r) <= multiset(s)
    ensures Distinct(r)
  {
    forall i, j | 0 <= i < j < |r| ensures r[i] != r[j] {
      if r[i] == r[j] {
        Twice(r, i, j);
        DistinctOnce(s, r[i]);
        assert false;
      }
    }
  }

  /** When no two elements of `s` agree on `f`, neither do two different
      elements of `s` picked out by `r`. */
  lemma ProjectionDistinct<T, U>(s: seq<T>, r: seq<T>, f: T -> U)
    requires forall i, j :: 0 <= i < j < |s| ==> f(s[i]) != f(s[j])
    requires Distinct(r)
    requires forall x :: x in r ==> x in s
    ensures forall i, j :: 0 <= i < j < |r| ==> f(r[i]) != f(r[j])
  {
    forall i, j | 0 <= i < j < |r| ensures f(r[i]) != f(r[j]) {
      assert r[i] in s && r[j] in s;
      var a :| 0 <= a < |s| && s[a] == r[i];
      var b :| 0 <= b < |s| && s[b] == r[j];
      assert a != b;
    }
  }
}
