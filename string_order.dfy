/** Python's ordering of `str` values (code-point lexicographic order, a proper
    prefix first) and the ascending sort that `list.sort()` performs with it. */
module StringOrder {

  /** `a <= b` on Python strings. */
  predicate LexLe(a: string, b: string)
    decreases |a|
  {
    |a| == 0 ||
    (|b| > 0 && if a[0] == b[0] then LexLe(a[1..], b[1..]) else a[0] < b[0])
  }

  lemma {:induction false} LexLeReflexive(a: string)
    ensures LexLe(a, a)
    decreases |a|
  {
    if |a| > 0 {
      LexLeReflexive(a[1..]);
    }
  }

  lemma {:induction false} LexLeTotal(a: string, b: string)
    ensures LexLe(a, b) || LexLe(b, a)
    decreases |a|
  {
    if |a| > 0 && |b| > 0 && a[0] == b[0] {
      LexLeTotal(a[1..], b[1..]);
    }
  }

  lemma {:induction false} LexLeAntisymmetric(a: string, b: string)
    requires LexLe(a, b) && LexLe(b, a)
    ensures a == b
    decreases |a|
  {
    if |a| > 0 {
      LexLeAntisymmetric(a[1..], b[1..]);
      assert a == [a[0]] + a[1..] && b == [b[0]] + b[1..];
    }
  }

  lemma {:induction false} LexLeTransitive(a: string, b: string, c: string)
    requires LexLe(a, b) && LexLe(b, c)
    ensures LexLe(a, c)
    decreases |a|
  {
    if |a| > 0 && a[0] == b[0] && b[0] == c[0] {
      LexLeTransitive(a[1..], b[1..], c[1..]);
    }
  }

  /** Ascending order: every earlier element is `<=` every later one. */
  predicate Sorted(s: seq<string>) {
    forall i, j {:trigger LexLe(s[i], s[j])} :: 0 <= i < j < |s| ==> LexLe(s[i], s[j])
  }

  /** No element occurs twice. */
  predicate Distinct<X(==)>(s: seq<X>) {
    forall i, j :: 0 <= i < j < |s| ==> s[i] != s[j]
  }

  /** A lower bound of `x` and of every element of `s` bounds every element of a
      sequence holding their elements. */
  lemma LowerBound(y: string, x: string, s: seq<string>, t: seq<string>)
    requires multiset(t) == multiset(s) + multiset{x}
    requires LexLe(y, x)
    requires forall k :: 0 <= k < |s| ==> LexLe(y, s[k])
    ensures forall j :: 0 <= j < |t| ==> LexLe(y, t[j])
  {
    forall j | 0 <= j < |t| ensures LexLe(y, t[j]) {
      assert t[j] in multiset(t);
      if t[j] != x {
        assert t[j] in multiset(s);
        var k :| 0 <= k < |s| && s[k] == t[j];
      }
    }
  }

  /** Inserts `x` into the sorted sequence `s` before the first element it is `<=` to. */
  function Insert(x: string, s: seq<string>): (r: seq<string>)
    requires Sorted(s)
    ensures Sorted(r)
    ensures multiset(r) == multiset(s) + multiset{x}
    decreases |s|
  {
    if s == [] then [x]
    else if LexLe(x, s[0]) then
      assert forall j :: 0 < j < |s| ==> LexLe(x, s[j]) by {
        forall j | 0 < j < |s| ensures LexLe(x, s[j]) { LexLeTransitive(x, s[0], s[j]); }
      }
      [x] + s
    else
      var t := Insert(x, s[1..]);
      assert s == [s[0]] + s[1..];
      assert LexLe(s[0], x) by { LexLeTotal(x, s[0]); }
      LowerBound(s[0], x, s[1..], t);
      [s[0]] + t
  }

  /** Inserting a new element into a sequence without repetitions keeps it so. */
  lemma {:induction false} InsertDistinct(x: string, s: seq<string>)
    requires Sorted(s) && Distinct(s) && x !in s
    ensures Distinct(Insert(x, s))
    decreases |s|
  {
    if s != [] && !LexLe(x, s[0]) {
      var t := Insert(x, s[1..]);
      InsertDistinct(x, s[1..]);
      assert s[0] !in multiset(t) by {
        assert s == [s[0]] + s[1..];
        assert s[0] !in s[1..];
      }
    }
  }

  /** The result of `list.sort()` on `s`: insertion sort. */
  function Sort(s: seq<string>): (r: seq<string>)
    ensures Sorted(r)
    ensures multiset(r) == multiset(s)
    ensures |r| == |s|
    ensures Distinct(s) ==> Distinct(r)
    decreases |s|
  {
    if s == [] then []
    else
      var t := Sort(s[1..]);
      assert s == [s[0]] + s[1..];
      assert Distinct(s) ==> Distinct(Insert(s[0], t)) by {
        if Distinct(s) {
          assert s[0] !in multiset(t) by { assert s[0] !in s[1..]; }
          InsertDistinct(s[0], t);
        }
      }
      Insert(s[0], t)
  }

  /** Sorting neither adds nor drops an element. */
  lemma SortKeepsElements(s: seq<string>, x: string)
    ensures x in Sort(s) <==> x in s
  {
    assert x in Sort(s) <==> x in multiset(Sort(s));
  }

  /** A sorted sequence without repetitions is determined by its set of elements. */
  lemma {:induction false} SortedUnique(a: seq<string>, b: seq<string>)
    requires Sorted(a) && Sorted(b) && Distinct(a) && Distinct(b)
    requires forall x :: x in a <==> x in b
    ensures a == b
    decreases |a|
  {
    if a != [] { assert a[0] in b; }
    if b != [] { assert b[0] in a; }
    if a != [] {
      assert a[0] == b[0] by {
        assert a[0] in b;
        var k :| 0 <= k < |b| && b[k] == a[0];
        if k == 0 { LexLeReflexive(b[0]); }
        assert LexLe(b[0], a[0]);
        assert b[0] in a;
        var m :| 0 <= m < |a| && a[m] == b[0];
        if m == 0 { LexLeReflexive(a[0]); }
        assert LexLe(a[0], b[0]);
        LexLeAntisymmetric(a[0], b[0]);
      }
      forall x ensures x in a[1..] <==> x in b[1..] {
        if x in a[1..] {
          assert x in b;
        }
        if x in b[1..] {
          assert x in a;
        }
      }
      SortedUnique(a[1..], b[1..]);
    }
  }
}
