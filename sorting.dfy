/** Python's `list.sort(key=...)` on string keys: a stable sort under the
    lexicographic order of code points, modelled as insertion sort. */
module StableSort {

  import opened Collections

  /** `a < b` on Python strings. */
  predicate StrLess(a: string, b: string)
    decreases |a|
  {
    if b == [] then false
    else if a == [] then true
    else a[0] < b[0] || (a[0] == b[0] && StrLess(a[1..], b[1..]))
  }

  lemma {:induction false} StrLessIrreflexive(a: string)
    ensures !StrLess(a, a)
    decreases |a|
  {
    if a != [] {
      StrLessIrreflexive(a[1..]);
    }
  }

  lemma {:induction false} StrLessTransitive(a: string, b: string, c: string)
    requires StrLess(a, b) && StrLess(b, c)
    ensures StrLess(a, c)
    decreases |a|
  {
    if a != [] && a[0] == b[0] && b[0] == c[0] {
      StrLessTransitive(a[1..], b[1..], c[1..]);
    }
  }

  lemma {:induction false} StrLessTrichotomy(a: string, b: string)
    ensures StrLess(a, b) || a == b || StrLess(b, a)
    decreases |a|
  {
    if a != [] && b != [] && a[0] == b[0] {
      StrLessTrichotomy(a[1..], b[1..]);
      if a[1..] == b[1..] {
        assert a == [a[0]] + a[1..] && b == [b[0]] + b[1..];
      }
    }
  }

  /** No element has a smaller key than one before it. */
  ghost predicate SortedBy<T>(key: T -> string, xs: seq<T>) {
    forall j, k :: 0 <= j < k < |xs| ==> !StrLess(key(xs[k]), key(xs[j]))
  }

  /** Places `x` after every element whose key is not greater than its own. */
  function Insert<T>(key: T -> string, x: T, s: seq<T>): (r: seq<T>)
    ensures multiset(r) == multiset(s) + multiset{x}
    ensures |r| == |s| + 1
  {
    if s == [] then [x]
    else if StrLess(key(x), key(s[0])) then [x] + s
    else
      assert s == [s[0]] + s[1..];
      [s[0]] + Insert(key, x, s[1..])
  }

  /** `xs.sort(key=key)` */
  function SortByKey<T>(key: T -> string, xs: seq<T>): (sorted: seq<T>)
    ensures |sorted| == |xs|
  {
    if xs == [] then [] else Insert(key, xs[|xs| - 1], SortByKey(key, xs[..|xs| - 1]))
  }

  lemma {:induction false} InsertSorted<T>(key: T -> string, x: T, s: seq<T>)
    requires SortedBy(key, s)
    ensures SortedBy(key, Insert(key, x, s))
  {
    if s != [] {
      var r := Insert(key, x, s);
      if StrLess(key(x), key(s[0])) {
        forall k | 0 < k < |r|
          ensures !StrLess(key(r[k]), key(x))
        {
          if StrLess(key(r[k]), key(x)) {
            StrLessTransitive(key(r[k]), key(x), key(s[0]));
            assert r[k] == s[k - 1];
            if k - 1 == 0 {
              StrLessIrreflexive(key(s[0]));
            }
          }
        }
      } else {
        var rest := Insert(key, x, s[1..]);
        InsertSorted(key, x, s[1..]);
        forall k | 0 <= k < |rest|
          ensures !StrLess(key(rest[k]), key(s[0]))
        {
          assert rest[k] in multiset(rest);
          if rest[k] != x {
            assert rest[k] in multiset(s[1..]);
            var m :| 0 <= m < |s[1..]| && s[1..][m] == rest[k];
            assert s[m + 1] == rest[k];
          }
        }
        assert r == [s[0]] + rest;
      }
    }
  }

  /** The result is sorted by key. */
  lemma {:induction false} SortByKeySorted<T>(key: T -> string, xs: seq<T>)
    ensures SortedBy(key, SortByKey(key, xs))
  {
    if xs != [] {
      SortByKeySorted(key, xs[..|xs| - 1]);
      InsertSorted(key, xs[|xs| - 1], SortByKey(key, xs[..|xs| - 1]));
    }
  }

  /** The result is a permutation of the input. */
  lemma {:induction false} SortByKeyPermutes<T>(key: T -> string, xs: seq<T>)
    ensures multiset(SortByKey(key, xs)) == multiset(xs)
  {
    if xs != [] {
      SortByKeyPermutes(key, xs[..|xs| - 1]);
      assert xs == xs[..|xs| - 1] + [xs[|xs| - 1]];
    }
  }

  /** The elements with key `k`, in order. */
  function WithKey<T>(key: T -> string, k: string, xs: seq<T>): seq<T> {
    if xs == [] then [] else (if key(xs[0]) == k then [xs[0]] else []) + WithKey(key, k, xs[1..])
  }

  lemma {:induction false} WithKeyAppend<T>(key: T -> string, k: string, a: seq<T>, b: seq<T>)
    ensures WithKey(key, k, a + b) == WithKey(key, k, a) + WithKey(key, k, b)
  {
    if a == [] {
      assert a + b == b;
    } else {
      var head := if key(a[0]) == k then [a[0]] else [];
      calc {
        WithKey(key, k, a + b);
        { assert (a + b)[0] == a[0]; }
        head + WithKey(key, k, (a + b)[1..]);
        { assert (a + b)[1..] == a[1..] + b; }
        head + WithKey(key, k, a[1..] + b);
        { WithKeyAppend(key, k, a[1..], b); }
        head + (WithKey(key, k, a[1..]) + WithKey(key, k, b));
        (head + WithKey(key, k, a[1..])) + WithKey(key, k, b);
      }
    }
  }

  lemma {:induction false} WithKeyNone<T>(key: T -> string, k: string, xs: seq<T>)
    requires forall m :: 0 <= m < |xs| ==> key(xs[m]) != k
    ensures WithKey(key, k, xs) == []
  {
    if xs != [] {
      WithKeyNone(key, k, xs[1..]);
    }
  }

  /** In a sorted sequence nothing shares a key smaller than the first. */
  lemma KeysAboveFirst<T>(key: T -> string, x: T, s: seq<T>)
    requires SortedBy(key, s) && s != [] && StrLess(key(x), key(s[0]))
    ensures forall m :: 0 <= m < |s| ==> key(s[m]) != key(x)
  {
    StrLessIrreflexive(key(x));
  }

  /** The elements with `x`'s own key, then `x`. */
  function Appended<T>(key: T -> string, k: string, s: seq<T>, x: T): seq<T> {
    WithKey(key, k, s) + (if key(x) == k then [x] else [])
  }

  /** `x` placed in front of larger keys comes after everything with its key: there is nothing. */
  lemma InsertFrontStable<T>(key: T -> string, x: T, s: seq<T>, k: string)
    requires SortedBy(key, s) && s != [] && StrLess(key(x), key(s[0]))
    ensures WithKey(key, k, [x] + s) == Appended(key, k, s, x)
  {
    assert ([x] + s)[0] == x;
    assert ([x] + s)[1..] == s;
    if key(x) == k {
      KeysAboveFirst(key, x, s);
      WithKeyNone(key, k, s);
    }
  }

  /** Passing over `s[0]` keeps it ahead of `x`. */
  lemma InsertPastStable<T>(key: T -> string, x: T, s: seq<T>, k: string, rest: seq<T>)
    requires s != []
    requires WithKey(key, k, rest) == Appended(key, k, s[1..], x)
    ensures WithKey(key, k, [s[0]] + rest) == Appended(key, k, s, x)
  {
    assert ([s[0]] + rest)[0] == s[0];
    assert ([s[0]] + rest)[1..] == rest;
  }

  /** Inserting puts `x` after every element with an equal key. */
  lemma {:induction false} InsertStable<T>(key: T -> string, x: T, s: seq<T>, k: string)
    requires SortedBy(key, s)
    ensures WithKey(key, k, Insert(key, x, s)) == Appended(key, k, s, x)
  {
    if s == [] {
      WithKeyOfOne(key, k, x);
    } else if StrLess(key(x), key(s[0])) {
      InsertFrontStable(key, x, s, k);
    } else {
      var rest := Insert(key, x, s[1..]);
      InsertStable(key, x, s[1..], k);
      InsertPastStable(key, x, s, k, rest);
    }
  }

  /** Stability: the elements sharing any one key keep their input order. */
  lemma {:induction false} SortByKeyStable<T>(key: T -> string, xs: seq<T>, k: string)
    ensures WithKey(key, k, SortByKey(key, xs)) == WithKey(key, k, xs)
  {
    if xs != [] {
      var front, last := xs[..|xs| - 1], xs[|xs| - 1];
      var sorted := SortByKey(key, front);
      SortByKeySorted(key, front);
      assert xs == front + [last];
      calc {
        WithKey(key, k, SortByKey(key, xs));
        WithKey(key, k, Insert(key, last, sorted));
        { InsertStable(key, last, sorted, k); }
        WithKey(key, k, sorted) + (if key(last) == k then [last] else []);
        { SortByKeyStable(key, front, k); WithKeyOfOne(key, k, last); }
        WithKey(key, k, front) + WithKey(key, k, [last]);
        { WithKeyAppend(key, k, front, [last]); }
        WithKey(key, k, xs);
      }
    }
  }

  lemma WithKeyOfOne<T>(key: T -> string, k: string, x: T)
    ensures WithKey(key, k, [x]) == (if key(x) == k then [x] else [])
  {
    assert [x][1..] == [];
  }

  /** Sorting commutes with a renaming `f` that keeps keys. */
  lemma {:induction false} InsertMap<T, U>(key: T -> string, key': U -> string, f: T -> U, x: T, s: seq<T>)
    requires forall y :: key'(f(y)) == key(y)
    ensures MapSeq(f, Insert(key, x, s)) == Insert(key', f(x), MapSeq(f, s))
  {
    if s != [] {
      assert MapSeq(f, s)[0] == f(s[0]);
      assert MapSeq(f, s)[1..] == MapSeq(f, s[1..]);
      if !StrLess(key(x), key(s[0])) {
        InsertMap(key, key', f, x, s[1..]);
      }
    }
  }

  lemma {:induction false} SortByKeyMap<T, U>(key: T -> string, key': U -> string, f: T -> U, xs: seq<T>)
    requires forall y :: key'(f(y)) == key(y)
    ensures MapSeq(f, SortByKey(key, xs)) == SortByKey(key', MapSeq(f, xs))
  {
    if xs != [] {
      var n := |xs| - 1;
      SortByKeyMap(key, key', f, xs[..n]);
      InsertMap(key, key', f, xs[n], SortByKey(key, xs[..n]));
      assert MapSeq(f, xs)[..n] == MapSeq(f, xs[..n]);
    }
  }
}
