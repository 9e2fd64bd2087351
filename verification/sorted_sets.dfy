/** The catalogue idiom `[...new Set(names)].sort()`: keep the first
    occurrence of every name, then sort the result in ascending
    lexicographic order. */
module SortedSets {
  import opened Strings

  predicate Distinct(s: seq<string>)
  {
    forall i, j :: 0 <= i < j < |s| ==> s[i] != s[j]
  }

  predicate Ascending(s: seq<string>)
  {
    forall i, j :: 0 <= i < j < |s| ==> LessEq(s[i], s[j])
  }

  predicate StrictlyAscending(s: seq<string>)
  {
    forall i, j :: 0 <= i < j < |s| ==> Less(s[i], s[j])
  }

  /** The elements of `s`, each once, in order of first occurrence: the
      iteration order of a JavaScript `Set` built from `s`. */
  function Dedupe(s: seq<string>): (r: seq<string>)
    ensures Distinct(r)
    ensures forall x :: x in r <==> x in s
    ensures |r| <= |s|
  {
    if s == [] then []
    else
      var init, last := s[..|s| - 1], s[|s| - 1];
      assert s == init + [last];
      var d := Dedupe(init);
      if last in d then d else d + [last]
  }

  /** Inserts `x` before the first element it does not follow. */
  function Insert(x: string, s: seq<string>): seq<string>
  {
    if s == [] || LessEq(x, s[0]) then [x] + s
    else [s[0]] + Insert(x, s[1..])
  }

  /** Insertion sort: a model of the default `Array.prototype.sort` on
      strings, which orders its elements by `Less`. */
  function Sort(s: seq<string>): seq<string>
  {
    if s == [] then [] else Insert(s[0], Sort(s[1..]))
  }

  lemma {:induction false} InsertPermutes(x: string, s: seq<string>)
    ensures multiset(Insert(x, s)) == multiset(s) + multiset{x}
  {
    if s != [] && !LessEq(x, s[0]) {
      InsertPermutes(x, s[1..]);
      assert s == [s[0]] + s[1..];
    }
  }

  lemma {:induction false} InsertAscending(x: string, s: seq<string>)
    requires Ascending(s)
    ensures Ascending(Insert(x, s))
  {
    if s == [] {
    } else if LessEq(x, s[0]) {
      forall j | 0 < j <= |s|
        ensures LessEq(x, ([x] + s)[j])
      {
        LessEqTransitive(x, s[0], s[j - 1]);
      }
    } else {
      LessTotal(x, s[0]);
      var t := Insert(x, s[1..]);
      InsertAscending(x, s[1..]);
      InsertPermutes(x, s[1..]);
      forall j | 0 <= j < |t|
        ensures LessEq(s[0], t[j])
      {
        assert t[j] in multiset(t);
        if t[j] != x {
          assert t[j] in s[1..];
        }
      }
    }
  }

  /** `Insert` keeps a strictly ascending sequence strictly ascending when
      the new element is not already in it. */
  lemma {:induction false} InsertStrictlyAscending(x: string, s: seq<string>)
    requires StrictlyAscending(s) && x !in s
    ensures StrictlyAscending(Insert(x, s))
  {
    if s == [] {
    } else if LessEq(x, s[0]) {
      forall j | 0 < j <= |s|
        ensures Less(x, ([x] + s)[j])
      {
        if j > 1 {
          LessTransitive(x, s[0], s[j - 1]);
        }
      }
    } else {
      LessTotal(x, s[0]);
      var t := Insert(x, s[1..]);
      InsertStrictlyAscending(x, s[1..]);
      InsertPermutes(x, s[1..]);
      forall j | 0 <= j < |t|
        ensures Less(s[0], t[j])
      {
        assert t[j] in multiset(t);
        if t[j] != x {
          assert t[j] in s[1..];
        }
      }
    }
  }

  /** Sorting rearranges the elements and nothing more. */
  lemma {:induction false} SortPermutes(s: seq<string>)
    ensures multiset(Sort(s)) == multiset(s)
  {
    if s != [] {
      SortPermutes(s[1..]);
      InsertPermutes(s[0], Sort(s[1..]));
      assert s == [s[0]] + s[1..];
    }
  }

  /** The sorted sequence is in ascending order. */
  lemma {:induction false} SortAscending(s: seq<string>)
    ensures Ascending(Sort(s))
  {
    if s != [] {
      SortAscending(s[1..]);
      InsertAscending(s[0], Sort(s[1..]));
    }
  }

  /** Sorting a duplicate-free sequence gives a strictly ascending one. */
  lemma {:induction false} SortDistinctStrictlyAscending(s: seq<string>)
    requires Distinct(s)
    ensures StrictlyAscending(Sort(s))
  {
    if s != [] {
      SortDistinctStrictlyAscending(s[1..]);
      SortPermutes(s[1..]);
      assert s[0] !in multiset(Sort(s[1..]));
      InsertStrictlyAscending(s[0], Sort(s[1..]));
    }
  }

  lemma EmptyOrHasHead(s: seq<string>)
    ensures s == [] || s[0] in s
  {
  }

  /** A strictly ascending sequence is determined by its elements: two with
      the same elements are equal. */
  lemma {:induction false} StrictlyAscendingUnique(a: seq<string>, b: seq<string>)
    requires StrictlyAscending(a) && StrictlyAscending(b)
    requires forall x :: x in a <==> x in b
    ensures a == b
  {
    if a == [] {
      EmptyOrHasHead(b);
    } else {
      assert b != [] by { assert a[0] in b; }
      if a[0] != b[0] {
        assert a[0] in b && b[0] in a;
        var k :| 0 <= k < |b| && b[k] == a[0];
        var m :| 0 <= m < |a| && a[m] == b[0];
        assert Less(b[0], a[0]) && Less(a[0], b[0]);
        LessAsymmetric(b[0], a[0]);
        assert false;
      }
      forall x
        ensures x in a[1..] <==> x in b[1..]
      {
        LessIrreflexive(a[0]);
        if x in a[1..] {
          assert x in a && x != a[0];
          assert b == [b[0]] + b[1..];
        }
        if x in b[1..] {
          assert x in b && x != b[0];
          assert a == [a[0]] + a[1..];
        }
      }
      StrictlyAscendingUnique(a[1..], b[1..]);
      assert a == [a[0]] + a[1..] && b == [b[0]] + b[1..];
    }
  }

  /** `[...new Set(s)].sort()`: the distinct elements of `s`, strictly
      ascending, with exactly the elements of `s`. */
  function SortedDistinct(s: seq<string>): (r: seq<string>)
    ensures StrictlyAscending(r)
    ensures forall x :: x in r <==> x in s
  {
    var d := Dedupe(s);
    SortPermutes(d);
    SortDistinctStrictlyAscending(d);
    assert forall x :: x in Sort(d) <==> x in multiset(d);
    Sort(d)
  }

  /** The catalogue is THE strictly ascending enumeration of the names in
      `s`: any strictly ascending list with the same names equals it. */
  lemma SortedDistinctCanonical(s: seq<string>, r: seq<string>)
    requires StrictlyAscending(r)
    requires forall x :: x in r <==> x in s
    ensures r == SortedDistinct(s)
  {
    StrictlyAscendingUnique(r, SortedDistinct(s));
  }
}
