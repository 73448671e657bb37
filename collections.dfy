/** Sequences used as database tables: row filters, `.single()`, updates in
    place of matching rows, keys that must be distinct, and sorting by a key. */
module Collections {

  datatype Option<T> = None | Some(value: T)

  /** The rows of `s` that satisfy `p`, in their original order
      (a PostgREST `.eq(...)` or `.in(...)` filter). */
  function Where<T(!new)>(s: seq<T>, p: T -> bool): (r: seq<T>)
    ensures |r| <= |s|
    ensures forall x :: x in r <==> x in s && p(x)
  {
    if s == [] then []
    else if p(s[0]) then [s[0]] + Where(s[1..], p)
    else Where(s[1..], p)
  }

  /** The rows whose column `key` equals `v`. */
  function KeyIs<T, K(==)>(key: T -> K, v: K): T -> bool
  {
    x => key(x) == v
  }

  /** The rows whose column `key` is one of `vs`. */
  function KeyIn<T, K(==)>(key: T -> K, vs: set<K>): T -> bool
  {
    x => key(x) in vs
  }

  function Not<T>(p: T -> bool): T -> bool
  {
    x => !p(x)
  }

  /** What a key filter and its negation select, row by row. */
  lemma KeyIsMeans<T, K>(key: T -> K, v: K)
    ensures forall x :: KeyIs(key, v)(x) <==> key(x) == v
    ensures forall x :: Not(KeyIs(key, v))(x) <==> key(x) != v
  {
  }

  /** What the negation of a set filter selects, row by row. */
  lemma KeyInMeans<T, K>(key: T -> K, vs: set<K>)
    ensures forall x :: Not(KeyIn(key, vs))(x) <==> key(x) !in vs
  {
  }

  /** PostgREST's `.single()`: the one row of a result, or nothing when the
      result holds zero rows or several. */
  function Single<T>(rows: seq<T>): Option<T>
  {
    if |rows| == 1 then Some(rows[0]) else None
  }

  /** Every row that satisfies `p` replaced by `f` of it (an `.update(...)`
      restricted by a filter); the other rows stay where they are. */
  function UpdateWhere<T>(s: seq<T>, p: T -> bool, f: T -> T): seq<T>
  {
    seq(|s|, i requires 0 <= i < |s| => if p(s[i]) then f(s[i]) else s[i])
  }

  /** Column `key` is a unique key of `s`. */
  ghost predicate DistinctBy<T, K>(s: seq<T>, key: T -> K)
  {
    forall i, j :: 0 <= i < j < |s| ==> key(s[i]) != key(s[j])
  }

  /** Every value of column `key` in `s` is below `n`. */
  ghost predicate KeysBelow<T>(s: seq<T>, key: T -> nat, n: nat)
  {
    forall i :: 0 <= i < |s| ==> key(s[i]) < n
  }

  lemma {:induction false} WhereNoMatch<T(!new)>(s: seq<T>, p: T -> bool)
    requires forall i :: 0 <= i < |s| ==> !p(s[i])
    ensures Where(s, p) == []
  {
    if s != [] {
      WhereNoMatch(s[1..], p);
    }
  }

  lemma {:induction false} WhereAllMatch<T(!new)>(s: seq<T>, p: T -> bool)
    requires forall i :: 0 <= i < |s| ==> p(s[i])
    ensures Where(s, p) == s
  {
    if s != [] {
      WhereAllMatch(s[1..], p);
    }
  }

  lemma {:induction false} WhereOnlyMatch<T(!new)>(s: seq<T>, p: T -> bool, k: nat)
    requires k < |s| && p(s[k])
    requires forall i :: 0 <= i < |s| && i != k ==> !p(s[i])
    ensures Where(s, p) == [s[k]]
  {
    if k == 0 {
      WhereNoMatch(s[1..], p);
    } else {
      WhereOnlyMatch(s[1..], p, k - 1);
    }
  }

  lemma {:induction false} WhereAppend<T(!new)>(s: seq<T>, x: T, p: T -> bool)
    ensures Where(s + [x], p) == Where(s, p) + (if p(x) then [x] else [])
  {
    if s != [] {
      assert (s + [x])[1..] == s[1..] + [x];
      WhereAppend(s[1..], x, p);
    }
  }

  /** Filtering a concatenation filters each part. */
  lemma {:induction false} WhereConcat<T(!new)>(s: seq<T>, t: seq<T>, p: T -> bool)
    ensures Where(s + t, p) == Where(s, p) + Where(t, p)
  {
    if s == [] {
      assert s + t == t;
    } else {
      assert (s + t)[1..] == s[1..] + t;
      WhereConcat(s[1..], t, p);
    }
  }

  /** A filter keeps a unique key unique. */
  lemma {:induction false} WhereKeepsDistinct<T(!new), K>(s: seq<T>, p: T -> bool, key: T -> K)
    requires DistinctBy(s, key)
    ensures DistinctBy(Where(s, p), key)
  {
    if s != [] {
      WhereKeepsDistinct(s[1..], p, key);
      var rest := Where(s[1..], p);
      forall x | x in rest
        ensures key(x) != key(s[0])
      {
        var k :| 0 <= k < |s[1..]| && s[1..][k] == x;
        assert s[k + 1] == x;
      }
    }
  }

  /** A filter keeps every key below a bound. */
  lemma WhereKeepsBelow<T(!new)>(s: seq<T>, p: T -> bool, key: T -> nat, n: nat)
    requires KeysBelow(s, key, n)
    ensures KeysBelow(Where(s, p), key, n)
  {
    var r := Where(s, p);
    forall i | 0 <= i < |r|
      ensures key(r[i]) < n
    {
      assert r[i] in r;
      var k :| 0 <= k < |s| && s[k] == r[i];
    }
  }

  /** An update that never changes the key keeps it unique and bounded. */
  lemma UpdateWhereKeepsKey<T, K>(s: seq<T>, p: T -> bool, f: T -> T, key: T -> K)
    requires forall x :: key(f(x)) == key(x)
    ensures |UpdateWhere(s, p, f)| == |s|
    ensures forall i :: 0 <= i < |s| ==> key(UpdateWhere(s, p, f)[i]) == key(s[i])
    ensures DistinctBy(s, key) ==> DistinctBy(UpdateWhere(s, p, f), key)
  {
  }

  /** Appending a row whose key is new keeps the key unique. */
  lemma AppendKeepsDistinct<T, K>(s: seq<T>, x: T, key: T -> K)
    requires DistinctBy(s, key)
    requires forall i :: 0 <= i < |s| ==> key(s[i]) != key(x)
    ensures DistinctBy(s + [x], key)
  {
  }

  /** On a unique key, a lookup `.eq(key, v).single()` finds the row holding
      `v` whenever there is one, and nothing otherwise. */
  lemma LookupDistinct<T(!new), K>(s: seq<T>, key: T -> K, v: K)
    requires DistinctBy(s, key)
    ensures forall i :: 0 <= i < |s| && key(s[i]) == v ==> Single(Where(s, KeyIs(key, v))) == Some(s[i])
    ensures (forall i :: 0 <= i < |s| ==> key(s[i]) != v) ==> Single(Where(s, KeyIs(key, v))) == None
  {
    forall i | 0 <= i < |s| && key(s[i]) == v
      ensures Single(Where(s, KeyIs(key, v))) == Some(s[i])
    {
      WhereOnlyMatch(s, KeyIs(key, v), i);
    }
    if forall i :: 0 <= i < |s| ==> key(s[i]) != v {
      WhereNoMatch(s, KeyIs(key, v));
    }
  }

  /** A row whose key is unique occurs at most once. */
  lemma {:induction false} DistinctOccursOnce<T, K>(s: seq<T>, key: T -> K, x: T)
    requires DistinctBy(s, key)
    ensures multiset(s)[x] <= 1
  {
    if s != [] {
      assert s == [s[0]] + s[1..];
      assert DistinctBy(s[1..], key) by {
        forall i, j | 0 <= i < j < |s[1..]|
          ensures key(s[1..][i]) != key(s[1..][j])
        {
          assert s[1..][i] == s[i + 1] && s[1..][j] == s[j + 1];
        }
      }
      DistinctOccursOnce(s[1..], key, x);
      if x == s[0] {
        assert x !in s[1..] by {
          forall k | 0 <= k < |s[1..]|
            ensures s[1..][k] != x
          {
            assert key(s[0]) != key(s[k + 1]);
          }
        }
      }
    }
  }

  /** A row found at two positions occurs at least twice. */
  lemma OccursTwice<T>(t: seq<T>, i: nat, j: nat)
    requires i < j < |t|
    ensures t[i] == t[j] ==> multiset(t)[t[i]] >= 2
  {
    if t[i] == t[j] {
      var x := t[i];
      assert t == t[..i] + [x] + t[i + 1..j] + [x] + t[j + 1..];
      assert multiset(t) == multiset(t[..i]) + multiset{x} + multiset(t[i + 1..j]) + multiset{x} + multiset(t[j + 1..]);
    }
  }

  /** A key that is unique in `s` is unique in every rearrangement of `s`. */
  lemma PermutationKeepsDistinct<T, K>(s: seq<T>, t: seq<T>, key: T -> K)
    requires multiset(s) == multiset(t) && DistinctBy(s, key)
    ensures DistinctBy(t, key)
  {
    forall i, j | 0 <= i < j < |t|
      ensures key(t[i]) != key(t[j])
    {
      assert t[i] in multiset(s) && t[j] in multiset(s);
      var a :| 0 <= a < |s| && s[a] == t[i];
      var b :| 0 <= b < |s| && s[b] == t[j];
      OccursTwice(t, i, j);
      DistinctOccursOnce(s, key, t[i]);
      assert a != b;
    }
  }

  // ---- Sorting by an integer key ----

  /** `s` is in non-decreasing order of `key`. */
  ghost predicate SortedBy<T>(s: seq<T>, key: T -> int)
  {
    forall i, j :: 0 <= i < j < |s| ==> key(s[i]) <= key(s[j])
  }

  /** Inserts `x` into sorted `s` in front of the first row whose key is not
      below `x`'s, so that `x` precedes the rows with an equal key. */
  function Insert<T(!new)>(x: T, s: seq<T>, key: T -> int): (r: seq<T>)
    requires SortedBy(s, key)
    ensures SortedBy(r, key)
    ensures multiset(r) == multiset(s) + multiset{x}
    ensures |r| == |s| + 1 && (r[0] == x || (s != [] && r[0] == s[0]))
  {
    if s == [] || key(x) <= key(s[0]) then
      [x] + s
    else
      var rest := Insert(x, s[1..], key);
      assert s == [s[0]] + s[1..];
      [s[0]] + rest
  }

  /** A stable insertion sort by `key`, ascending: the rows of a JavaScript
      `Array.prototype.sort` with comparator `key(a) - key(b)`. */
  function SortBy<T(!new)>(s: seq<T>, key: T -> int): (r: seq<T>)
    ensures SortedBy(r, key)
    ensures multiset(r) == multiset(s)
  {
    if s == [] then []
    else
      assert s == [s[0]] + s[1..];
      Insert(s[0], SortBy(s[1..], key), key)
  }

  /** Sorting a sequence that is already in order changes nothing. */
  lemma {:induction false} SortBySorted<T(!new)>(s: seq<T>, key: T -> int)
    requires SortedBy(s, key)
    ensures SortBy(s, key) == s
  {
    if s != [] {
      SortBySorted(s[1..], key);
      assert s == [s[0]] + s[1..];
    }
  }

  /** Sorting keeps exactly the rows it was given. */
  lemma SortByMembers<T(!new)>(s: seq<T>, key: T -> int)
    ensures |SortBy(s, key)| == |s|
    ensures forall x :: x in SortBy(s, key) <==> x in s
  {
    var r := SortBy(s, key);
    assert |multiset(r)| == |multiset(s)|;
    forall x
      ensures x in r <==> x in s
    {
      assert x in r <==> x in multiset(r);
      assert x in s <==> x in multiset(s);
    }
  }
}
