/** Python's string order and its stable sort with a string key. */
module Sorting {

  /** Lexicographic order by code point. */
  predicate Less(a: string, b: string) {
    b != [] && (a == [] || a[0] < b[0] || (a[0] == b[0] && Less(a[1..], b[1..])))
  }

  lemma {:induction false} LessTotal(a: string, b: string)
    ensures a == b ==> !Less(a, b) && !Less(b, a)
    ensures a != b ==> Less(a, b) == !Less(b, a)
  {
    if a != [] && b != [] {
      LessTotal(a[1..], b[1..]);
      assert a == [a[0]] + a[1..] && b == [b[0]] + b[1..];
    }
  }

  lemma {:induction false} LessTransitive(a: string, b: string, c: string)
    requires Less(a, b) && Less(b, c)
    ensures Less(a, c)
  {
    if a != [] && a[0] == b[0] && b[0] == c[0] {
      LessTransitive(a[1..], b[1..], c[1..]);
    }
  }

  /** At k the strings differ for the first time, and the first one has the smaller character there. */
  ghost predicate SmallerAt(a: string, b: string, k: int) {
    0 <= k < |a| && k < |b| && a[..k] == b[..k] && a[k] < b[k]
  }

  /** One string comes before another exactly when it is a proper prefix of it, or has the smaller character
      where the two first differ. */
  lemma {:induction false} LessIff(a: string, b: string)
    ensures Less(a, b) <==> a < b || exists k :: SmallerAt(a, b, k)
  {
    if a != [] && b != [] {
      var s, t := a[1..], b[1..];
      LessIff(s, t);
      assert a == [a[0]] + s && b == [b[0]] + t;
      if a[0] == b[0] {
        assert a < b <==> s < t;
        SmallerAtTail(a, b);
      } else if a[0] < b[0] {
        assert SmallerAt(a, b, 0);
      } else {
        forall k ensures !SmallerAt(a, b, k) {
          assert 0 < k && k < |a| && k < |b| ==> a[..k][0] == a[0] && b[..k][0] == b[0];
        }
      }
    }
  }

  lemma SmallerAtTail(a: string, b: string)
    requires a != [] && b != [] && a[0] == b[0]
    ensures (exists k :: SmallerAt(a, b, k)) <==> exists k :: SmallerAt(a[1..], b[1..], k)
  {
    if k :| SmallerAt(a, b, k) {
      assert k > 0;
      assert a[..k] == [a[0]] + a[1..][..k - 1] && b[..k] == [b[0]] + b[1..][..k - 1];
      assert a[1..][..k - 1] == a[..k][1..] && b[1..][..k - 1] == b[..k][1..];
      assert SmallerAt(a[1..], b[1..], k - 1);
    }
    if k :| SmallerAt(a[1..], b[1..], k) {
      assert a[..k + 1] == [a[0]] + a[1..][..k] && b[..k + 1] == [b[0]] + b[1..][..k];
      assert SmallerAt(a, b, k + 1);
    }
  }

  /** The key of a list of strings sorted as they are. */
  function Id(s: string): string {
    s
  }

  ghost predicate Sorted<T>(s: seq<T>, key: T -> string) {
    forall i, j :: 0 <= i < j < |s| ==> !Less(key(s[j]), key(s[i]))
  }

  ghost predicate StrictlySorted<T>(s: seq<T>, key: T -> string) {
    forall i, j :: 0 <= i < j < |s| ==> Less(key(s[i]), key(s[j]))
  }

  function Insert<T>(x: T, s: seq<T>, key: T -> string): seq<T> {
    if s != [] && Less(key(s[0]), key(x)) then [s[0]] + Insert(x, s[1..], key) else [x] + s
  }

  /** `sorted(s, key=key)`: an element is placed before the later elements with an equal key. */
  function Sort<T>(s: seq<T>, key: T -> string): seq<T> {
    if s == [] then [] else Insert(s[0], Sort(s[1..], key), key)
  }

  ghost function WithKey<T>(s: seq<T>, key: T -> string, k: string): seq<T> {
    if s == [] then [] else (if key(s[0]) == k then [s[0]] else []) + WithKey(s[1..], key, k)
  }

  lemma {:induction false} InsertElements<T>(x: T, s: seq<T>, key: T -> string)
    ensures multiset(Insert(x, s, key)) == multiset([x] + s)
    ensures forall y :: y in Insert(x, s, key) ==> y == x || y in s
  {
    if s != [] && Less(key(s[0]), key(x)) {
      InsertElements(x, s[1..], key);
      assert s == [s[0]] + s[1..];
    }
  }

  lemma {:induction false} InsertSorted<T>(x: T, s: seq<T>, key: T -> string)
    requires Sorted(s, key)
    ensures Sorted(Insert(x, s, key), key)
  {
    if s != [] && Less(key(s[0]), key(x)) {
      InsertSorted(x, s[1..], key);
      InsertElements(x, s[1..], key);
      LessTotal(key(x), key(s[0]));
      SortedCons(s[0], Insert(x, s[1..], key), key);
    } else {
      forall y | y in s ensures !Less(key(y), key(x)) {
        if Less(key(y), key(x)) {
          LessBelow(key(s[0]), key(y), key(x));
        }
      }
      SortedCons(x, s, key);
    }
  }

  lemma SortedCons<T>(x: T, s: seq<T>, key: T -> string)
    requires Sorted(s, key) && forall y :: y in s ==> !Less(key(y), key(x))
    ensures Sorted([x] + s, key)
  {
  }

  lemma LessBelow(a: string, b: string, c: string)
    requires !Less(b, a) && Less(b, c)
    ensures Less(a, c)
  {
    LessTotal(a, b);
    if a != b {
      LessTransitive(a, b, c);
    }
  }

  lemma {:induction false} InsertStable<T>(x: T, s: seq<T>, key: T -> string, k: string)
    ensures WithKey(Insert(x, s, key), key, k) == WithKey([x] + s, key, k)
  {
    assert ([x] + s)[1..] == s;
    if s != [] && Less(key(s[0]), key(x)) {
      InsertStable(x, s[1..], key, k);
      LessTotal(key(x), key(s[0]));
      assert ([x] + s[1..])[1..] == s[1..];
    }
  }

  /** Sorting orders the list, keeps its elements, and keeps the order of elements with equal keys. */
  lemma {:induction false} SortLaws<T>(s: seq<T>, key: T -> string, k: string)
    ensures Sorted(Sort(s, key), key)
    ensures multiset(Sort(s, key)) == multiset(s)
    ensures WithKey(Sort(s, key), key, k) == WithKey(s, key, k)
  {
    if s != [] {
      SortLaws(s[1..], key, k);
      InsertSorted(s[0], Sort(s[1..], key), key);
      InsertElements(s[0], Sort(s[1..], key), key);
      InsertStable(s[0], Sort(s[1..], key), key, k);
      assert s == [s[0]] + s[1..];
      assert ([s[0]] + Sort(s[1..], key))[1..] == Sort(s[1..], key);
    }
  }

  lemma SortMembers<T>(s: seq<T>, key: T -> string)
    ensures |Sort(s, key)| == |s|
    ensures forall x :: x in Sort(s, key) <==> x in s
  {
    SortLaws(s, key, "");
    assert |multiset(Sort(s, key))| == |multiset(s)|;
    assert forall x :: x in s <==> x in multiset(s);
    assert forall x :: x in Sort(s, key) <==> x in multiset(Sort(s, key));
  }

  lemma {:induction false} SortOfSorted<T>(s: seq<T>, key: T -> string)
    requires Sorted(s, key)
    ensures Sort(s, key) == s
  {
    if s != [] {
      SortOfSorted(s[1..], key);
      assert s == [s[0]] + s[1..];
    }
  }

  ghost predicate DistinctKeys<T>(s: seq<T>, key: T -> string) {
    forall i, j :: 0 <= i < j < |s| ==> key(s[i]) != key(s[j])
  }

  /** The sort of a list with distinct keys is strictly sorted. */
  lemma {:induction false} SortStrict<T>(s: seq<T>, key: T -> string)
    requires DistinctKeys(s, key)
    ensures StrictlySorted(Sort(s, key), key)
  {
    if s != [] {
      SortStrict(s[1..], key);
      SortLaws(s[1..], key, "");
      var t := Sort(s[1..], key);
      forall x | x in t ensures key(x) != key(s[0]) {
        assert x in multiset(s[1..]);
      }
      InsertStrict(s[0], t, key);
    }
  }

  lemma {:induction false} InsertStrict<T>(x: T, s: seq<T>, key: T -> string)
    requires StrictlySorted(s, key)
    requires forall y :: y in s ==> key(y) != key(x)
    ensures StrictlySorted(Insert(x, s, key), key)
  {
    if s != [] && Less(key(s[0]), key(x)) {
      InsertStrict(x, s[1..], key);
      InsertElements(x, s[1..], key);
      var t := Insert(x, s[1..], key);
      assert s == [s[0]] + s[1..];
      forall j | 0 <= j < |t| ensures Less(key(s[0]), key(t[j])) {
        assert t[j] in t;
        if t[j] != x {
          var k :| 0 <= k < |s| - 1 && s[1..][k] == t[j];
        }
      }
    } else {
      forall j | 0 <= j < |s| ensures Less(key(x), key(s[j])) {
        assert s[0] in s;
        LessTotal(key(x), key(s[0]));
        if j > 0 {
          LessTransitive(key(x), key(s[0]), key(s[j]));
        }
      }
    }
  }

  /** A strictly sorted list is determined by its elements. */
  lemma {:induction false} StrictlySortedUnique<T>(s: seq<T>, t: seq<T>, key: T -> string)
    requires StrictlySorted(s, key) && StrictlySorted(t, key)
    requires forall x :: x in s <==> x in t
    ensures s == t
  {
    assert |s| > 0 ==> s[0] in t;
    assert |t| > 0 ==> t[0] in s;
    if s != [] {
      assert s[0] in t && t[0] in s;
      LessTotal(key(s[0]), key(t[0]));
      forall x ensures x in s[1..] <==> x in t[1..] {
        LessTotal(key(x), key(x));
        assert x in s <==> x == s[0] || x in s[1..];
        assert x in t <==> x == t[0] || x in t[1..];
        assert x in s[1..] ==> x != s[0];
        assert x in t[1..] ==> x != t[0];
      }
      StrictlySortedUnique(s[1..], t[1..], key);
      assert s == [s[0]] + s[1..] && t == [t[0]] + t[1..];
    }
  }
}
