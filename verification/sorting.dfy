/** Python's `sorted` for the two element types the report sorts: process
    ids and path strings. Insertion sort under a total order `le`; the
    result is ordered and a permutation of the input. */
module Sorting {

  /** `le` relates every pair one way or the other. */
  ghost predicate Total<T(!new)>(le: (T, T) -> bool) {
    forall a: T, b: T :: le(a, b) || le(b, a)
  }

  /** Each element is `le` to the next. */
  predicate Sorted<T>(le: (T, T) -> bool, s: seq<T>) {
    forall i :: 0 < i < |s| ==> le(s[i - 1], s[i])
  }

  predicate Distinct<T(==)>(s: seq<T>) {
    forall i, j :: 0 <= i < j < |s| ==> s[i] != s[j]
  }

  /** Inserts `x` before the first element it is `le` to. */
  function Insert<T(!new)>(le: (T, T) -> bool, x: T, s: seq<T>): (r: seq<T>)
    requires Total(le) && Sorted(le, s)
    ensures Sorted(le, r)
    ensures multiset(r) == multiset(s) + multiset{x}
    ensures |r| > 0 && (r[0] == x || (|s| > 0 && r[0] == s[0]))
  {
    if |s| == 0 then [x]
    else if le(x, s[0]) then
      assert s == [s[0]] + s[1..];
      [x] + s
    else
      var rest := Insert(le, x, s[1..]);
      assert s == [s[0]] + s[1..];
      assert le(s[0], x);
      [s[0]] + rest
  }

  function Sort<T(!new)>(le: (T, T) -> bool, s: seq<T>): (r: seq<T>)
    requires Total(le)
    ensures Sorted(le, r)
    ensures multiset(r) == multiset(s)
  {
    if |s| == 0 then []
    else
      assert s == [s[0]] + s[1..];
      Insert(le, s[0], Sort(le, s[1..]))
  }

  /** Sorting keeps exactly the elements, as many as there were, and no
      element twice when there was none twice. */
  lemma {:induction false} SortKeeps<T(!new)>(le: (T, T) -> bool, s: seq<T>)
    requires Total(le)
    ensures |Sort(le, s)| == |s|
    ensures forall x {:trigger x in Sort(le, s)} :: x in Sort(le, s) <==> x in s
    ensures Distinct(s) ==> Distinct(Sort(le, s))
  {
    var r := Sort(le, s);
    assert |r| == |multiset(r)| == |multiset(s)| == |s|;
    forall x ensures x in r <==> x in s {
      assert x in r <==> x in multiset(r);
    }
    if |s| > 0 && Distinct(s) {
      SortKeeps(le, s[1..]);
      InsertDistinct(le, s[0], Sort(le, s[1..]));
    }
  }

  lemma InsertDistinct<T(!new)>(le: (T, T) -> bool, x: T, s: seq<T>)
    requires Total(le) && Sorted(le, s)
    requires Distinct(s) && x !in s
    ensures Distinct(Insert(le, x, s))
  {
    var r := Insert(le, x, s);
    forall i, j | 0 <= i < j < |r| ensures r[i] != r[j] {
      var m := multiset(r);
      if r[i] == r[j] {
        assert r == r[..j] + r[j..];
        assert r[i] in r[..j];
        assert r[j] in r[j..];
        assert m[r[i]] == multiset(r[..j])[r[i]] + multiset(r[j..])[r[i]];
        CountAtMostOne(s, r[i]);
        assert false;
      }
    }
  }

  /** An element occurs at most once in a sequence without repeats. */
  lemma {:induction false} CountAtMostOne<T>(s: seq<T>, x: T)
    requires Distinct(s)
    ensures multiset(s)[x] <= 1
  {
    if |s| > 0 {
      assert s == [s[0]] + s[1..];
      CountAtMostOne(s[1..], x);
      if x == s[0] {
        assert x !in s[1..];
      }
    }
  }

  /* ---------------- the two orders ---------------- */

  predicate IntLe(a: int, b: int) { a <= b }

  lemma IntLeTotal()
    ensures Total(IntLe)
  {
  }

  /** Python's string order: code point by code point, a proper prefix
      first. */
  predicate StrLe(a: string, b: string) {
    if |a| == 0 then true
    else if |b| == 0 then false
    else if a[0] != b[0] then a[0] < b[0]
    else StrLe(a[1..], b[1..])
  }

  lemma {:induction false} StrLeEither(a: string, b: string)
    ensures StrLe(a, b) || StrLe(b, a)
  {
    if |a| > 0 && |b| > 0 && a[0] == b[0] {
      StrLeEither(a[1..], b[1..]);
    }
  }

  lemma StrLeTotal()
    ensures Total(StrLe)
  {
    forall a, b ensures StrLe(a, b) || StrLe(b, a) {
      StrLeEither(a, b);
    }
  }

  /** Ascending order of distinct integers is strict, between any two
      positions. */
  lemma {:induction false} SortedDistinctIncreasing(s: seq<int>)
    requires Sorted(IntLe, s) && Distinct(s)
    ensures forall i, j :: 0 <= i < j < |s| ==> s[i] < s[j]
  {
    if |s| > 1 {
      SortedDistinctIncreasing(s[1..]);
      forall j | 1 <= j < |s| ensures s[0] < s[j] {
        assert s[j] == s[1..][j - 1];
        if j > 1 {
          assert s[1] == s[1..][0];
        }
      }
      forall i, j | 1 <= i < j < |s| ensures s[i] < s[j] {
        assert s[i] == s[1..][i - 1] && s[j] == s[1..][j - 1];
      }
    }
  }
}
