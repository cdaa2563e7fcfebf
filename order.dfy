/** Python's ordering of strings (code point by code point, a prefix first)
    and sorted() on lists of strings. */
module Order {

  /** At the first position where a and b differ, a has the smaller character. */
  predicate SmallerAtFirstDifference(a: string, b: string) {
    exists i :: 0 <= i < |a| && i < |b| && a[..i] == b[..i] && a[i] < b[i]
  }

  /** a <= b in Python's string order: compared character by character by
      code point, and a proper prefix comes first. */
  predicate LessEq(a: string, b: string): (r: bool)
    ensures r <==> a <= b || SmallerAtFirstDifference(a, b)
    decreases |a|
  {
    if a == [] then true
    else if b == [] then false
    else
      FirstDifferenceTail(a, b);
      a[0] < b[0] || (a[0] == b[0] && LessEq(a[1..], b[1..]))
  }

  /** Prefixes and first differences of two non-empty strings, read off their
      first characters and their tails. */
  lemma FirstDifferenceTail(a: string, b: string)
    requires a != [] && b != []
    ensures a <= b <==> a[0] == b[0] && a[1..] <= b[1..]
    ensures SmallerAtFirstDifference(a, b) <==>
      a[0] < b[0] || (a[0] == b[0] && SmallerAtFirstDifference(a[1..], b[1..]))
  {
    if SmallerAtFirstDifference(a, b) {
      var i :| 0 <= i < |a| && i < |b| && a[..i] == b[..i] && a[i] < b[i];
      if i > 0 {
        assert a[0] == a[..i][0] == b[..i][0] == b[0];
        assert a[1..][..i - 1] == a[..i][1..] == b[..i][1..] == b[1..][..i - 1];
        assert a[1..][i - 1] < b[1..][i - 1];
      }
    }
    if a[0] == b[0] && SmallerAtFirstDifference(a[1..], b[1..]) {
      var i :| 0 <= i < |a[1..]| && i < |b[1..]| && a[1..][..i] == b[1..][..i] && a[1..][i] < b[1..][i];
      assert a[..i + 1] == [a[0]] + a[1..][..i];
      assert b[..i + 1] == [b[0]] + b[1..][..i];
      assert a[i + 1] < b[i + 1];
    }
    if a[0] < b[0] {
      assert a[..0] == b[..0];
    }
    if a[0] == b[0] && a[1..] <= b[1..] {
      assert a == [a[0]] + a[1..];
      assert b[..|a|] == [b[0]] + b[1..][..|a| - 1];
    }
  }

  lemma {:induction false} LessEqReflexive(a: string)
    ensures LessEq(a, a)
    decreases |a|
  {
    if a != [] { LessEqReflexive(a[1..]); }
  }

  lemma {:induction false} LessEqTotal(a: string, b: string)
    ensures LessEq(a, b) || LessEq(b, a)
    decreases |a|
  {
    if a != [] && b != [] && a[0] == b[0] { LessEqTotal(a[1..], b[1..]); }
  }

  lemma {:induction false} LessEqTransitive(a: string, b: string, c: string)
    requires LessEq(a, b) && LessEq(b, c)
    ensures LessEq(a, c)
    decreases |a|
  {
    if a != [] && a[0] == b[0] && b[0] == c[0] { LessEqTransitive(a[1..], b[1..], c[1..]); }
  }

  lemma {:induction false} LessEqAntisymmetric(a: string, b: string)
    requires LessEq(a, b) && LessEq(b, a)
    ensures a == b
    decreases |a|
  {
    if a != [] {
      LessEqAntisymmetric(a[1..], b[1..]);
      assert a == [a[0]] + a[1..] && b == [b[0]] + b[1..];
    }
  }

  /** Ascending order: every element is <= every later one. */
  predicate IsSorted(s: seq<string>) {
    forall i, j :: 0 <= i < j < |s| ==> LessEq(s[i], s[j])
  }

  /** x is a lower bound of every element of s. */
  predicate Below(x: string, s: seq<string>) {
    forall k :: 0 <= k < |s| ==> LessEq(x, s[k])
  }

  /** A lower bound of s that is <= x bounds any rearrangement of s with x. */
  lemma BelowRearranged(y: string, x: string, s: seq<string>, t: seq<string>)
    requires Below(y, s) && LessEq(y, x)
    requires multiset(t) == multiset(s) + multiset{x}
    ensures Below(y, t)
  {
    forall k | 0 <= k < |t| ensures LessEq(y, t[k]) {
      assert t[k] in multiset(t);
      if t[k] != x {
        assert t[k] in multiset(s);
        var i :| 0 <= i < |s| && s[i] == t[k];
      }
    }
  }

  /** Insertion of x into a sorted list, keeping it sorted. */
  function Insert(x: string, s: seq<string>): (r: seq<string>)
    requires IsSorted(s)
    ensures IsSorted(r)
    ensures multiset(r) == multiset(s) + multiset{x}
    decreases |s|
  {
    if s == [] then [x]
    else if LessEq(x, s[0]) then
      assert Below(x, s) by {
        forall k | 0 <= k < |s| ensures LessEq(x, s[k]) {
          if k > 0 { LessEqTransitive(x, s[0], s[k]); }
        }
      }
      assert s == [s[0]] + s[1..];
      [x] + s
    else
      LessEqTotal(x, s[0]);
      var t := Insert(x, s[1..]);
      assert Below(s[0], t) by { BelowRearranged(s[0], x, s[1..], t); }
      assert s == [s[0]] + s[1..];
      [s[0]] + t
  }

  /** sorted(): an ascending permutation of its argument. */
  function Sort(s: seq<string>): (r: seq<string>)
    ensures IsSorted(r)
    ensures multiset(r) == multiset(s)
    decreases |s|
  {
    if s == [] then []
    else
      assert s == [s[0]] + s[1..];
      Insert(s[0], Sort(s[1..]))
  }

  /** The head of a sorted list is <= each of its elements. */
  lemma HeadIsLeast(s: seq<string>, x: string)
    requires IsSorted(s) && x in s
    ensures LessEq(s[0], x)
  {
    var i :| 0 <= i < |s| && s[i] == x;
    if i == 0 { LessEqReflexive(x); }
  }

  lemma TailMultiset(s: seq<string>)
    requires s != []
    ensures multiset(s[1..]) == multiset(s) - multiset{s[0]}
  {
    assert s == [s[0]] + s[1..];
  }

  /** Two ascending non-empty lists with the same elements start alike. */
  lemma SortedHeadsEqual(a: seq<string>, b: seq<string>)
    requires a != [] && IsSorted(a) && IsSorted(b)
    requires multiset(a) == multiset(b)
    ensures b != [] && a[0] == b[0]
  {
    assert a[0] in multiset(b) && b != [];
    assert b[0] in multiset(a);
    HeadIsLeast(a, b[0]);
    HeadIsLeast(b, a[0]);
    LessEqAntisymmetric(a[0], b[0]);
  }

  /** Sortedness and the multiset of elements fix a list of strings: any
      correct sort, Python's included, returns the list Sort returns. */
  lemma {:induction false} SortedUnique(a: seq<string>, b: seq<string>)
    requires IsSorted(a) && IsSorted(b)
    requires multiset(a) == multiset(b)
    ensures a == b
    decreases |a|
  {
    if a == [] {
      assert |b| == |multiset(b)|;
    } else {
      SortedHeadsEqual(a, b);
      TailMultiset(a);
      TailMultiset(b);
      SortedUnique(a[1..], b[1..]);
      assert a == [a[0]] + a[1..] && b == [b[0]] + b[1..];
    }
  }
}
