/** Generic facts about sequences used by the generator's ordering and
    de-duplication passes: sortedness by a string key, subsequences, the
    first occurrence of a value, and the distinct values in order of first
    occurrence. */
module Sequences {
  import opened GoStrings

  /** The identity key: a sequence of strings is sorted by itself. */
  function Id(s: string): string { s }

  /** `s` is ordered by `key` under Go's string order (ties allowed). */
  ghost predicate SortedBy<T>(s: seq<T>, key: T -> string)
  {
    forall i, j :: 0 <= i < j < |s| ==> LessEq(key(s[i]), key(s[j]))
  }

  /** No value occurs twice in `s`. */
  ghost predicate Distinct<T>(s: seq<T>)
  {
    forall i, j :: 0 <= i < j < |s| ==> s[i] != s[j]
  }

  /** Strictly ascending strings: sorted and without repeats. */
  ghost predicate StrictlySorted(s: seq<string>)
  {
    SortedBy(s, Id) && Distinct(s)
  }

  /** `a` is obtained from `b` by deleting elements, keeping the order of the rest. */
  ghost predicate IsSubsequence<T>(a: seq<T>, b: seq<T>)
    decreases |b|
  {
    || |a| == 0
    || (&& |b| > 0
        && (|| (a[|a| - 1] == b[|b| - 1] && IsSubsequence(a[..|a| - 1], b[..|b| - 1]))
            || IsSubsequence(a, b[..|b| - 1])))
  }

  lemma {:induction false} SubsequenceMembers<T>(a: seq<T>, b: seq<T>)
    requires IsSubsequence(a, b)
    ensures forall x :: x in a ==> x in b
  {
    if |a| > 0 {
      var a', b' := a[..|a| - 1], b[..|b| - 1];
      if a[|a| - 1] == b[|b| - 1] && IsSubsequence(a', b') {
        SubsequenceMembers(a', b');
        assert a == a' + [a[|a| - 1]];
      } else {
        SubsequenceMembers(a, b');
      }
    }
  }

  /** Deleting elements from a sorted sequence leaves it sorted. */
  lemma {:induction false} SubsequenceOfSorted<T>(a: seq<T>, b: seq<T>, key: T -> string)
    requires IsSubsequence(a, b)
    requires SortedBy(b, key)
    ensures SortedBy(a, key)
  {
    if |a| > 0 {
      var a', b' := a[..|a| - 1], b[..|b| - 1];
      if a[|a| - 1] == b[|b| - 1] && IsSubsequence(a', b') {
        SubsequenceOfSorted(a', b', key);
        SubsequenceMembers(a', b');
        forall i, j | 0 <= i < j < |a|
          ensures LessEq(key(a[i]), key(a[j]))
        {
          if j == |a| - 1 {
            assert a[i] in b';
            var k :| 0 <= k < |b'| && b'[k] == a[i];
            assert b[k] == a[i];
          } else {
            assert a[i] == a'[i] && a[j] == a'[j];
          }
        }
      } else {
        SubsequenceOfSorted(a, b', key);
      }
    }
  }

  /** Inserts `x` before the first element whose key is not below it. */
  function Insert<T>(x: T, s: seq<T>, key: T -> string): (r: seq<T>)
    requires SortedBy(s, key)
    ensures SortedBy(r, key)
    ensures multiset(r) == multiset(s) + multiset{x}
  {
    if |s| == 0 then [x]
    else if LessEq(key(x), key(s[0])) then
      InsertFront(x, s, key);
      [x] + s
    else
      LessEqTotal(key(x), key(s[0]));
      var rest := Insert(x, s[1..], key);
      assert s == [s[0]] + s[1..];
      InsertBehind(s[0], rest, s[1..], x, key);
      [s[0]] + rest
  }

  lemma InsertFront<T>(x: T, s: seq<T>, key: T -> string)
    requires SortedBy(s, key)
    requires |s| > 0 && LessEq(key(x), key(s[0]))
    ensures SortedBy([x] + s, key)
  {
    forall j | 0 < j < |s|
      ensures LessEq(key(x), key(s[j]))
    {
      LessEqTransitive(key(x), key(s[0]), key(s[j]));
    }
  }

  lemma InsertBehind<T>(y: T, rest: seq<T>, s: seq<T>, x: T, key: T -> string)
    requires SortedBy(rest, key) && SortedBy([y] + s, key)
    requires LessEq(key(y), key(x))
    requires multiset(rest) == multiset(s) + multiset{x}
    ensures SortedBy([y] + rest, key)
  {
    forall j | 0 <= j < |rest|
      ensures LessEq(key(y), key(rest[j]))
    {
      assert rest[j] in multiset(rest);
      assert ([y] + s)[0] == y;
      if rest[j] != x {
        assert rest[j] in s;
        var k :| 0 <= k < |s| && s[k] == rest[j];
        assert ([y] + s)[k + 1] == rest[j];
      }
    }
  }

  /** Insertion sort by `key`: stable, and one of the orders an unstable
      `sort.Sort` by the same key may produce. */
  function SortBy<T>(s: seq<T>, key: T -> string): (r: seq<T>)
    ensures SortedBy(r, key)
    ensures multiset(r) == multiset(s)
  {
    if |s| == 0 then []
    else
      assert s == [s[0]] + s[1..];
      Insert(s[0], SortBy(s[1..], key), key)
  }

  /** The first of a sorted sequence of strings is the least of them. */
  lemma HeadIsLeast(a: seq<string>, x: string)
    requires SortedBy(a, Id) && x in a
    ensures LessEq(a[0], x)
  {
    var k :| 0 <= k < |a| && a[k] == x;
    if k == 0 {
      LessEqReflexive(x);
    } else {
      assert LessEq(Id(a[0]), Id(a[k]));
    }
  }

  lemma SortedTail(a: seq<string>)
    requires SortedBy(a, Id) && |a| > 0
    ensures SortedBy(a[1..], Id)
  {
    forall i, j | 0 <= i < j < |a| - 1
      ensures LessEq(Id(a[1..][i]), Id(a[1..][j]))
    {
      assert LessEq(Id(a[i + 1]), Id(a[j + 1]));
    }
  }

  /** Strings have only one sorted arrangement: two sorted permutations of the
      same strings are equal. */
  lemma {:induction false} SortedPermutationUnique(a: seq<string>, b: seq<string>)
    requires SortedBy(a, Id) && SortedBy(b, Id)
    requires multiset(a) == multiset(b)
    ensures a == b
  {
    if |a| == 0 {
      assert |multiset(b)| == 0;
    } else {
      assert a[0] in multiset(b) && b[0] in multiset(a);
      HeadIsLeast(a, b[0]);
      HeadIsLeast(b, a[0]);
      LessEqAntisymmetric(a[0], b[0]);
      assert a == [a[0]] + a[1..];
      assert b == [b[0]] + b[1..];
      assert multiset(a[1..]) == multiset(a) - multiset([a[0]]);
      assert multiset(b[1..]) == multiset(b) - multiset([b[0]]);
      SortedTail(a);
      SortedTail(b);
      SortedPermutationUnique(a[1..], b[1..]);
    }
  }

  /** Strictly ascending strings are determined by which strings they hold. */
  lemma {:induction false} StrictlySortedUnique(a: seq<string>, b: seq<string>)
    requires StrictlySorted(a) && StrictlySorted(b)
    requires forall x :: x in a <==> x in b
    ensures a == b
  {
    if |b| > 0 {
      assert b[0] in b;
    }
    if |a| > 0 {
      assert a[0] in a && b[0] in b;
      HeadIsLeast(a, b[0]);
      HeadIsLeast(b, a[0]);
      LessEqAntisymmetric(a[0], b[0]);
      forall x
        ensures x in a[1..] <==> x in b[1..]
      {
        if x in a[1..] {
          var i :| 1 <= i < |a| && a[i] == x;
          assert x in b && x != b[0];
          var j :| 0 <= j < |b| && b[j] == x;
          assert b[1..][j - 1] == x;
        }
        if x in b[1..] {
          var j :| 1 <= j < |b| && b[j] == x;
          assert x in a && x != a[0];
          var i :| 0 <= i < |a| && a[i] == x;
          assert a[1..][i - 1] == x;
        }
      }
      SortedTail(a);
      SortedTail(b);
      StrictlySortedUnique(a[1..], b[1..]);
      assert a == [a[0]] + a[1..];
      assert b == [b[0]] + b[1..];
    }
  }

  /** The position of the first occurrence of `x` in `s`. */
  function IndexOf<T(==)>(s: seq<T>, x: T): (i: nat)
    requires x in s
    ensures i < |s| && s[i] == x
    ensures x !in s[..i]
  {
    if s[0] == x then 0
    else
      var i := IndexOf(s[1..], x);
      assert s[..i + 1] == [s[0]] + s[1..][..i];
      i + 1
  }

  /** A position holding `x` with no `x` before it is the first occurrence. */
  lemma IndexOfUnique<T>(s: seq<T>, x: T, i: nat)
    requires i < |s| && s[i] == x && x !in s[..i]
    ensures IndexOf(s, x) == i
  {
  }

  /** In a sequence without repeats, any position holding `x` is its first. */
  lemma IndexOfDistinct<T>(s: seq<T>, x: T, i: nat)
    requires Distinct(s)
    requires i < |s| && s[i] == x
    ensures IndexOf(s, x) == i
  {
    forall k | 0 <= k < i ensures s[..i][k] != x {
      assert s[k] != s[i];
    }
    IndexOfUnique(s, x, i);
  }

  /** Extending a sequence at the end does not move a first occurrence. */
  lemma IndexOfSnoc<T>(s: seq<T>, y: T, x: T)
    requires x in s
    ensures x in s + [y] && IndexOf(s + [y], x) == IndexOf(s, x)
  {
    var i := IndexOf(s, x);
    assert (s + [y])[..i] == s[..i];
    IndexOfUnique(s + [y], x, i);
  }

  /** The distinct strings of `s`, each at the place it first occurs. This is
      what a loop that keeps a "seen" set and appends unseen values yields. */
  function Uniq(s: seq<string>): (r: seq<string>)
    ensures Distinct(r)
    ensures forall x :: x in r <==> x in s
    ensures IsSubsequence(r, s)
  {
    if |s| == 0 then []
    else
      var p := s[..|s| - 1];
      var x := s[|s| - 1];
      var u := Uniq(p);
      if x in p then
        u
      else
        assert s == p + [x];
        assert (u + [x])[..|u|] == u;
        u + [x]
  }

  /** `Uniq` lists the distinct strings in the order of their first occurrence. */
  lemma {:induction false} UniqFirstOccurrenceOrder(s: seq<string>)
    ensures forall i, j :: 0 <= i < j < |Uniq(s)| ==> IndexOf(s, Uniq(s)[i]) < IndexOf(s, Uniq(s)[j])
  {
    if |s| > 0 {
      var p := s[..|s| - 1];
      var x := s[|s| - 1];
      assert s == p + [x];
      UniqFirstOccurrenceOrder(p);
      var u := Uniq(p);
      forall y | y in p ensures IndexOf(s, y) == IndexOf(p, y) { IndexOfSnoc(p, x, y); }
      if x !in p {
        assert s[..|p|] == p;
        IndexOfUnique(s, x, |p|);
        assert Uniq(s) == u + [x];
        forall i, j | 0 <= i < j < |Uniq(s)|
          ensures IndexOf(s, Uniq(s)[i]) < IndexOf(s, Uniq(s)[j])
        {
          if j == |u| {
            assert Uniq(s)[i] == u[i] && u[i] in p;
          } else {
            assert Uniq(s)[i] == u[i] && Uniq(s)[j] == u[j];
          }
        }
      }
    }
  }

  /** `Uniq` grows at the end exactly when a new string arrives. */
  lemma UniqSnoc(s: seq<string>, x: string)
    ensures Uniq(s + [x]) == if x in s then Uniq(s) else Uniq(s) + [x]
  {
    assert (s + [x])[..|s|] == s;
  }

  /** The keys of a list, in list order (the names of fields, of enums). */
  function Names<T>(s: seq<T>, key: T -> string): (r: seq<string>)
    ensures |r| == |s|
    ensures forall i :: 0 <= i < |s| ==> r[i] == key(s[i])
  {
    seq(|s|, i requires 0 <= i < |s| => key(s[i]))
  }

  lemma NamesSnoc<T>(p: seq<T>, x: T, key: T -> string)
    ensures Names(p + [x], key) == Names(p, key) + [key(x)]
  {
  }

  lemma NamesPrefix<T>(s: seq<T>, n: nat, key: T -> string)
    requires n <= |s|
    ensures Names(s[..n], key) == Names(s, key)[..n]
  {
  }

  /** A list sorted by key has its keys in ascending order. */
  lemma SortedNames<T>(s: seq<T>, key: T -> string)
    requires SortedBy(s, key)
    ensures SortedBy(Names(s, key), Id)
  {
    forall i, j | 0 <= i < j < |s|
      ensures LessEq(Id(Names(s, key)[i]), Id(Names(s, key)[j]))
    {
      assert LessEq(key(s[i]), key(s[j]));
    }
  }

  /** Reordering a list keeps the set of its keys. */
  lemma PermutationHasSameNames<T>(a: seq<T>, b: seq<T>, key: T -> string)
    requires multiset(a) == multiset(b)
    ensures forall n :: n in Names(a, key) ==> n in Names(b, key)
  {
    forall n | n in Names(a, key)
      ensures n in Names(b, key)
    {
      var i :| 0 <= i < |a| && Names(a, key)[i] == n;
      assert a[i] in multiset(b);
      var j :| 0 <= j < |b| && b[j] == a[i];
      assert Names(b, key)[j] == n;
    }
  }

  /** Two permutations of each other stay permutations once the last
      element of the first is removed from both. */
  lemma RemoveMatching<T>(a: seq<T>, b: seq<T>) returns (j: nat)
    requires multiset(a) == multiset(b) && |a| > 0
    ensures j < |b| && b[j] == a[|a| - 1]
    ensures multiset(a[..|a| - 1]) == multiset(b[..j] + b[j + 1..])
  {
    var x := a[|a| - 1];
    assert x in multiset(b);
    j :| 0 <= j < |b| && b[j] == x;
    assert a == a[..|a| - 1] + [x];
    assert b == b[..j] + [x] + b[j + 1..];
    assert multiset(b[..j] + b[j + 1..]) == multiset(b[..j]) + multiset(b[j + 1..]);
    assert multiset(a[..|a| - 1]) == multiset(a) - multiset([x]);
    assert multiset(b[..j] + b[j + 1..]) == multiset(b) - multiset([x]);
  }

  /** Linear membership test over a string slice, returning at the first
      match. */
  method Contains(s: seq<string>, e: string) returns (found: bool)
    ensures found <==> e in s
  {
    for i := 0 to |s|
      invariant e !in s[..i]
    {
      if s[i] == e {
        return true;
      }
    }
    return false;
  }
}
