/**
  Entry names of a directory: Python's string order (code point by code point, a proper
  prefix first), the unordered listing `os.listdir` returns, the in-place `list.sort()`
  applied to it, and the one strictly ascending sequence of a set of names.
 */
module Names {

  /** Python's `a < b` on `str`: lexicographic on code points. */
  predicate Less(a: string, b: string)
  {
    if a == [] then b != []
    else if b == [] then false
    else if a[0] != b[0] then a[0] < b[0]
    else Less(a[1..], b[1..])
  }

  /** Python's `a <= b` on `str`. */
  predicate LessEq(a: string, b: string)
  {
    a == b || Less(a, b)
  }

  lemma {:induction false} LessIrreflexive(a: string)
    ensures !Less(a, a)
  {
    if a != [] {
      LessIrreflexive(a[1..]);
    }
  }

  lemma {:induction false} LessTransitive(a: string, b: string, c: string)
    requires Less(a, b) && Less(b, c)
    ensures Less(a, c)
  {
    if a != [] && a[0] == b[0] && b[0] == c[0] {
      LessTransitive(a[1..], b[1..], c[1..]);
    }
  }

  /** Any two distinct names are ordered one way or the other. */
  lemma {:induction false} LessTotal(a: string, b: string)
    ensures a == b || Less(a, b) || Less(b, a)
  {
    if a != [] && b != [] && a[0] == b[0] {
      assert a == [a[0]] + a[1..] && b == [b[0]] + b[1..];
      LessTotal(a[1..], b[1..]);
    }
  }

  lemma LessAsymmetric(a: string, b: string)
    requires Less(a, b)
    ensures !Less(b, a)
  {
    if Less(b, a) {
      LessTransitive(a, b, a);
      LessIrreflexive(a);
    }
  }

  lemma LessEqTransitive(a: string, b: string, c: string)
    requires LessEq(a, b) && LessEq(b, c)
    ensures LessEq(a, c)
  {
    if a != b && b != c {
      LessTransitive(a, b, c);
    }
  }

  /** Ascending, as `list.sort()` leaves a list of strings. */
  ghost predicate Sorted(s: seq<string>)
  {
    forall i, j :: 0 <= i < j < |s| ==> LessEq(s[i], s[j])
  }

  ghost predicate StrictlySorted(s: seq<string>)
  {
    forall i, j :: 0 <= i < j < |s| ==> Less(s[i], s[j])
  }

  /** No name occurs twice, as in any directory listing. */
  ghost predicate Distinct(s: seq<string>)
  {
    forall x :: multiset(s)[x] <= 1
  }

  lemma TwiceInMultiset(s: seq<string>, i: nat, j: nat)
    requires i < j < |s| && s[i] == s[j]
    ensures multiset(s)[s[i]] >= 2
  {
    assert s == s[..j] + s[j..];
    assert s[i] in s[..j];
    assert s[j] in s[j..];
  }

  lemma SortedDistinctIsStrict(s: seq<string>)
    requires Sorted(s) && Distinct(s)
    ensures StrictlySorted(s)
  {
    forall i, j | 0 <= i < j < |s| ensures Less(s[i], s[j]) {
      if s[i] == s[j] {
        TwiceInMultiset(s, i, j);
        assert false;
      }
    }
  }

  /**
    The names of a directory in whatever order the operating system returns them
    (the model of `os.listdir`): every key once, and nothing else.
   */
  method ListNames<V>(m: map<string, V>) returns (names: seq<string>)
    ensures Distinct(names)
    ensures forall x :: x in names <==> x in m
  {
    names := [];
    var rest := m.Keys;
    while rest != {}
      invariant Distinct(names)
      invariant forall x :: x in m <==> x in names || x in rest
      invariant forall x :: x in names ==> x !in rest
      decreases rest
    {
      var x :| x in rest;
      assert multiset(names)[x] == 0;
      names := names + [x];
      rest := rest - {x};
    }
  }

  /** Exchanges two neighbouring cells, keeping the array a permutation of what it held. */
  method SwapDown(a: array<string>, j: nat)
    requires 0 < j < a.Length
    modifies a
    ensures a[j - 1] == old(a[j]) && a[j] == old(a[j - 1])
    ensures forall k :: 0 <= k < a.Length && k != j - 1 && k != j ==> a[k] == old(a[k])
    ensures multiset(a[..]) == multiset(old(a[..]))
  {
    a[j - 1], a[j] := a[j], a[j - 1];
  }

  /**
    One step of the insertion sort: with a[..i] ascending, moves a[i] down past every
    greater name, leaving a[..i + 1] ascending and the rest of the array as it was.
   */
  method InsertDown(a: array<string>, i: nat)
    requires 0 < i < a.Length
    requires forall p, q :: 0 <= p < q < i ==> LessEq(a[p], a[q])
    modifies a
    ensures forall p, q :: 0 <= p < q <= i ==> LessEq(a[p], a[q])
    ensures forall k :: i < k < a.Length ==> a[k] == old(a[k])
    ensures multiset(a[..]) == multiset(old(a[..]))
  {
    var j := i;
    while j > 0 && Less(a[j], a[j - 1])
      invariant 0 <= j <= i
      invariant forall p, q :: 0 <= p < q <= i && p != j && q != j ==> LessEq(a[p], a[q])
      invariant forall q :: j < q <= i ==> LessEq(a[j], a[q])
      invariant forall k :: i < k < a.Length ==> a[k] == old(a[k])
      invariant multiset(a[..]) == multiset(old(a[..]))
    {
      SwapDown(a, j);
      j := j - 1;
    }
    if j > 0 {
      LessTotal(a[j - 1], a[j]);
      forall p | 0 <= p < j - 1 ensures LessEq(a[p], a[j]) {
        LessEqTransitive(a[p], a[j - 1], a[j]);
      }
    }
  }

  /**
    `list.sort()` on a list of names, in place: an insertion sort that leaves the array
    ascending and a permutation of what it held.
   */
  method SortInPlace(a: array<string>)
    modifies a
    ensures Sorted(a[..])
    ensures multiset(a[..]) == multiset(old(a[..]))
  {
    var i := 1;
    while i < a.Length
      invariant a.Length == 0 || 1 <= i <= a.Length
      invariant forall p, q :: 0 <= p < q < i && q < a.Length ==> LessEq(a[p], a[q])
      invariant multiset(a[..]) == multiset(old(a[..]))
    {
      InsertDown(a, i);
      i := i + 1;
    }
  }

  /** The least name of a non-empty set. */
  ghost function MinName(s: set<string>): (m: string)
    requires s != {}
    ensures m in s
    ensures forall x :: x in s ==> LessEq(m, x)
  {
    var y :| y in s;
    var rest := s - {y};
    if rest == {} then
      assert s == {y};
      y
    else
      var r := MinName(rest);
      if Less(y, r) then
        assert forall x :: x in rest ==> LessEq(y, x) by {
          forall x | x in rest ensures LessEq(y, x) {
            LessEqTransitive(y, r, x);
          }
        }
        y
      else
        LessTotal(y, r);
        assert Less(r, y);
        r
  }

  /** The names of `s` in ascending order: the order a sorted listing of `s` has. */
  ghost function SortedNames(s: set<string>): (r: seq<string>)
    ensures |r| == |s|
    ensures forall x :: x in r <==> x in s
    ensures StrictlySorted(r)
    decreases s
  {
    if s == {} then
      []
    else
      var m := MinName(s);
      var tail := SortedNames(s - {m});
      assert forall j :: 0 <= j < |tail| ==> Less(m, tail[j]) by {
        forall j | 0 <= j < |tail| ensures Less(m, tail[j]) {
          assert tail[j] in s - {m};
        }
      }
      [m] + tail
  }

  /** A strictly ascending sequence is fixed by its elements alone. */
  lemma {:induction false} StrictlySortedUnique(a: seq<string>, b: seq<string>)
    requires StrictlySorted(a) && StrictlySorted(b)
    requires forall x :: x in a <==> x in b
    ensures a == b
    decreases |a|
  {
    if a != [] {
      assert a[0] in b;
    }
    if b != [] {
      assert b[0] in a;
    }
    if a != [] {
      if a[0] != b[0] {
        assert a[0] in b && b[0] in a;
        var k :| 0 <= k < |b| && b[k] == a[0];
        var k' :| 0 <= k' < |a| && a[k'] == b[0];
        assert Less(b[0], a[0]) && Less(a[0], b[0]);
        LessAsymmetric(a[0], b[0]);
        assert false;
      }
      forall x ensures x in a[1..] <==> x in b[1..] {
        if x in a[1..] {
          var i :| 1 <= i < |a| && a[i] == x;
          LessIrreflexive(x);
          assert x != a[0] && x in b;
          var j :| 0 <= j < |b| && b[j] == x;
          assert j != 0 && b[1..][j - 1] == x;
        }
        if x in b[1..] {
          var i :| 1 <= i < |b| && b[i] == x;
          LessIrreflexive(x);
          assert x != b[0] && x in a;
          var j :| 0 <= j < |a| && a[j] == x;
          assert j != 0 && a[1..][j - 1] == x;
        }
      }
      StrictlySortedUnique(a[1..], b[1..]);
    }
  }

  /** Sorting any listing of a directory gives the same sequence, its SortedNames. */
  lemma SortedListingIsSortedNames(s: seq<string>, keys: set<string>)
    requires Sorted(s) && Distinct(s)
    requires forall x :: x in s <==> x in keys
    ensures s == SortedNames(keys)
  {
    SortedDistinctIsStrict(s);
    StrictlySortedUnique(s, SortedNames(keys));
  }
}
