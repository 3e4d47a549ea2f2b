/**
  Python's ordering of `str` values (character by character on code points, a proper prefix
  before any longer string) and `list.sort()` on a list of strings.
 */
module LexOrder {

  /** `a <= b` on Python strings. */
  predicate LexLe(a: string, b: string)
    ensures |a| <= |b| && a == b[..|a|] ==> LexLe(a, b)
    decreases |a|
  {
    |a| == 0 || (|b| > 0 && (a[0] < b[0] || (a[0] == b[0] && LexLe(a[1..], b[1..]))))
  }

  lemma {:induction false} LexLeReflexive(a: string)
    ensures LexLe(a, a)
  {
    if |a| > 0 {
      LexLeReflexive(a[1..]);
    }
  }

  lemma {:induction false} LexLeTotal(a: string, b: string)
    ensures LexLe(a, b) || LexLe(b, a)
  {
    if |a| > 0 && |b| > 0 && a[0] == b[0] {
      LexLeTotal(a[1..], b[1..]);
    }
  }

  lemma {:induction false} LexLeAntisymmetric(a: string, b: string)
    requires LexLe(a, b) && LexLe(b, a)
    ensures a == b
  {
    if |a| > 0 {
      LexLeAntisymmetric(a[1..], b[1..]);
      assert a == [a[0]] + a[1..] && b == [b[0]] + b[1..];
    }
  }

  lemma {:induction false} LexLeTransitive(a: string, b: string, c: string)
    requires LexLe(a, b) && LexLe(b, c)
    ensures LexLe(a, c)
  {
    if |a| > 0 && a[0] == b[0] && b[0] == c[0] {
      LexLeTransitive(a[1..], b[1..], c[1..]);
    }
  }

  /** Ascending order: every earlier string is at most every later one. */
  predicate Sorted(s: seq<string>) {
    forall i, j :: 0 <= i < j < |s| ==> LexLe(s[i], s[j])
  }

  /** Ordered neighbours already make the whole sequence ordered. */
  lemma AdjacentSorted(s: seq<string>)
    requires forall k :: 0 < k < |s| ==> LexLe(s[k - 1], s[k])
    ensures Sorted(s)
  {
    forall i, j | 0 <= i < j < |s|
      ensures LexLe(s[i], s[j])
    {
      Chain(s, i, j);
    }
  }

  lemma {:induction false} Chain(s: seq<string>, i: int, j: int)
    requires forall k :: 0 < k < |s| ==> LexLe(s[k - 1], s[k])
    requires 0 <= i <= j < |s|
    ensures LexLe(s[i], s[j])
    decreases j - i
  {
    if i == j {
      LexLeReflexive(s[i]);
    } else {
      Chain(s, i, j - 1);
      LexLeTransitive(s[i], s[j - 1], s[j]);
    }
  }

  /** Puts `x` before the first element it does not exceed. */
  function Insert(x: string, s: seq<string>): (r: seq<string>)
    ensures multiset(r) == multiset(s) + multiset{x}
  {
    if s == [] then [x]
    else if LexLe(x, s[0]) then [x] + s
    else
      assert s == [s[0]] + s[1..];
      [s[0]] + Insert(x, s[1..])
  }

  lemma {:induction false} InsertSorted(x: string, s: seq<string>)
    requires Sorted(s)
    ensures Sorted(Insert(x, s))
  {
    if s == [] {
    } else if LexLe(x, s[0]) {
      var r := [x] + s;
      forall j | 0 < j < |r|
        ensures LexLe(r[0], r[j])
      {
        if j > 1 {
          LexLeTransitive(x, s[0], s[j - 1]);
        }
      }
    } else {
      var tail := Insert(x, s[1..]);
      InsertSorted(x, s[1..]);
      LexLeTotal(x, s[0]);
      var r := [s[0]] + tail;
      forall j | 0 < j < |r|
        ensures LexLe(r[0], r[j])
      {
        var y := tail[j - 1];
        assert y in multiset(tail);
        assert y in multiset(s[1..]) || y == x;
        if y != x {
          var k :| 0 <= k < |s[1..]| && s[1..][k] == y;
          assert s[k + 1] == y;
        }
      }
    }
  }

  /** The sorted order `list.sort()` produces, as insertion sort. */
  function Sort(s: seq<string>): (r: seq<string>)
    ensures multiset(r) == multiset(s)
  {
    if s == [] then []
    else
      assert s == [s[0]] + s[1..];
      Insert(s[0], Sort(s[1..]))
  }

  lemma {:induction false} SortSorted(s: seq<string>)
    ensures Sorted(Sort(s))
  {
    if s != [] {
      SortSorted(s[1..]);
      InsertSorted(s[0], Sort(s[1..]));
    }
  }

  /** Two ascending orders of the same strings are the same sequence. */
  lemma {:induction false} SortedUnique(a: seq<string>, b: seq<string>)
    requires Sorted(a) && Sorted(b)
    requires multiset(a) == multiset(b)
    ensures a == b
  {
    if a != [] {
      SortedSameHead(a, b);
      var a', b' := a[1..], b[1..];
      assert a == [a[0]] + a' && b == [b[0]] + b';
      assert multiset(a') == multiset(b') by {
        assert multiset(a') == multiset(a) - multiset{a[0]};
        assert multiset(b') == multiset(b) - multiset{b[0]};
      }
      SortedTail(a);
      SortedTail(b);
      SortedUnique(a', b');
    }
  }

  /** Two ascending orders of the same non-empty multiset start with the same string. */
  lemma SortedSameHead(a: seq<string>, b: seq<string>)
    requires Sorted(a) && Sorted(b)
    requires multiset(a) == multiset(b) && a != []
    ensures b != [] && a[0] == b[0]
  {
    assert |b| == |multiset(b)| == |a|;
    assert b[0] in multiset(b) && a[0] in multiset(a);
    LeastOfSorted(a, b[0]);
    LeastOfSorted(b, a[0]);
    LexLeAntisymmetric(a[0], b[0]);
  }

  lemma SortedTail(s: seq<string>)
    requires Sorted(s) && s != []
    ensures Sorted(s[1..])
  {
  }

  /** The first string of an ascending order is at most any string in it. */
  lemma LeastOfSorted(s: seq<string>, y: string)
    requires Sorted(s) && y in multiset(s)
    ensures LexLe(s[0], y)
  {
    var k :| 0 <= k < |s| && s[k] == y;
    if k == 0 {
      LexLeReflexive(y);
    }
  }

  /** Strings with the same multiset sort to the same sequence. */
  lemma SortPermutationInvariant(s: seq<string>, t: seq<string>)
    requires multiset(s) == multiset(t)
    ensures Sort(s) == Sort(t)
  {
    SortSorted(s);
    SortSorted(t);
    SortedUnique(Sort(s), Sort(t));
  }

  /** `list.sort()` on strings: an in-place insertion sort. */
  method SortInPlace(a: array<string>)
    modifies a
    ensures Sorted(a[..])
    ensures multiset(a[..]) == multiset(old(a[..]))
    ensures a[..] == Sort(old(a[..]))
  {
    var i := 0;
    while i < a.Length
      invariant 0 <= i <= a.Length
      invariant forall k :: 0 < k < i ==> LexLe(a[k - 1], a[k])
      invariant multiset(a[..]) == multiset(old(a[..]))
    {
      SinkLast(a, i);
      i := i + 1;
    }
    AdjacentSorted(a[..]);
    SortSorted(old(a[..]));
    SortedUnique(a[..], Sort(old(a[..])));
  }

  /** Moves `a[i]` down into the ordered prefix `a[..i]` by adjacent swaps. */
  method SinkLast(a: array<string>, i: int)
    requires 0 <= i < a.Length
    requires forall k :: 0 < k < i ==> LexLe(a[k - 1], a[k])
    modifies a
    ensures forall k :: 0 < k <= i ==> LexLe(a[k - 1], a[k])
    ensures multiset(a[..]) == multiset(old(a[..]))
  {
    var j := i;
    while j > 0 && !LexLe(a[j - 1], a[j])
      invariant 0 <= j <= i
      invariant forall k :: 0 < k < j ==> LexLe(a[k - 1], a[k])
      invariant forall k :: j < k <= i ==> LexLe(a[k - 1], a[k])
      invariant 0 < j < i ==> LexLe(a[j - 1], a[j + 1])
      invariant multiset(a[..]) == multiset(old(a[..]))
    {
      LexLeTotal(a[j - 1], a[j]);
      Swap(a, j - 1, j);
      j := j - 1;
    }
  }

  method Swap(a: array<string>, i: int, j: int)
    requires 0 <= i < j < a.Length
    modifies a
    ensures a[i] == old(a[j]) && a[j] == old(a[i])
    ensures forall k :: 0 <= k < a.Length && k != i && k != j ==> a[k] == old(a[k])
    ensures multiset(a[..]) == multiset(old(a[..]))
  {
    a[i], a[j] := a[j], a[i];
  }
}
