/**
 Comparison of strings and paths as the daemon does it, and a stable sort.
 `Sort` stands for the library sort the daemon calls: a stable, ascending permutation.
 */
module Ordering {

  type Path = seq<string>

  /** Strings compare by code point, which is the order of their UTF-8 bytes. */
  predicate LexLe(a: string, b: string)
  {
    a == [] || (b != [] && (a[0] < b[0] || (a[0] == b[0] && LexLe(a[1..], b[1..]))))
  }

  /** Paths compare component by component. */
  predicate PathLe(a: Path, b: Path)
  {
    a == [] || (b != [] && (if a[0] == b[0] then PathLe(a[1..], b[1..]) else LexLe(a[0], b[0])))
  }

  /** The first place where two sequences differ. */
  ghost predicate FirstDifference<T>(a: seq<T>, b: seq<T>, i: nat)
  {
    i < |a| && i < |b| && a[i] != b[i] && a[..i] == b[..i]
  }

  /** A string comes before another exactly if it is a prefix of it or smaller where they first differ. */
  lemma {:induction false} LexLeIff(a: string, b: string)
    ensures LexLe(a, b) <==> a <= b || exists i: nat :: FirstDifference(a, b, i) && a[i] < b[i]
  {
    if a != [] && b != [] && a[0] == b[0] {
      var a', b' := a[1..], b[1..];
      LexLeIff(a', b');
      assert a == [a[0]] + a' && b == [a[0]] + b';
      if i: nat :| FirstDifference(a', b', i) && a'[i] < b'[i] {
        assert a[..i + 1] == [a[0]] + a'[..i] && b[..i + 1] == [a[0]] + b'[..i];
        assert FirstDifference(a, b, i + 1);
      }
      if i: nat :| FirstDifference(a, b, i) && a[i] < b[i] {
        assert a'[..i - 1] == a[..i][1..] && b'[..i - 1] == b[..i][1..];
        assert FirstDifference(a', b', i - 1);
      }
    } else if a != [] && b != [] {
      assert FirstDifference(a, b, 0);
      if i: nat :| FirstDifference(a, b, i) && i > 0 {
        assert a[..i][0] == b[..i][0];
      }
    }
  }

  /** Paths likewise, by the first component in which they differ. */
  lemma {:induction false} PathLeIff(a: Path, b: Path)
    ensures PathLe(a, b) <==> a <= b || exists i: nat :: FirstDifference(a, b, i) && LexLe(a[i], b[i])
  {
    hide LexLe;
    if a != [] && b != [] && a[0] == b[0] {
      var a', b' := a[1..], b[1..];
      PathLeIff(a', b');
      assert a == [a[0]] + a' && b == [a[0]] + b';
      if i: nat :| FirstDifference(a', b', i) && LexLe(a'[i], b'[i]) {
        assert a[..i + 1] == [a[0]] + a'[..i] && b[..i + 1] == [a[0]] + b'[..i];
        assert FirstDifference(a, b, i + 1);
      }
      if i: nat :| FirstDifference(a, b, i) && LexLe(a[i], b[i]) {
        assert a'[..i - 1] == a[..i][1..] && b'[..i - 1] == b[..i][1..];
        assert FirstDifference(a', b', i - 1);
      }
    } else if a != [] && b != [] {
      assert FirstDifference(a, b, 0);
      if i: nat :| FirstDifference(a, b, i) && i > 0 {
        assert a[..i][0] == b[..i][0];
      }
    }
  }

  ghost predicate TotalPreorder<T(!new)>(le: (T, T) -> bool)
  {
    && (forall a, b :: le(a, b) || le(b, a))
    && (forall a, b, c :: le(a, b) && le(b, c) ==> le(a, c))
  }

  /** Elements of `s` that compare equal are equal. */
  ghost predicate Antisymmetric<T>(le: (T, T) -> bool, s: seq<T>)
  {
    forall i, j :: 0 <= i < |s| && 0 <= j < |s| && le(s[i], s[j]) && le(s[j], s[i]) ==> s[i] == s[j]
  }

  ghost predicate Sorted<T>(le: (T, T) -> bool, s: seq<T>)
  {
    forall i, j :: 0 <= i < j < |s| ==> le(s[i], s[j])
  }

  ghost predicate Permutation<T>(s: seq<T>, t: seq<T>)
  {
    multiset(s) == multiset(t)
  }

  /** `x` goes after every element that is not greater than it. */
  function Insert<T>(le: (T, T) -> bool, s: seq<T>, x: T): (r: seq<T>)
    ensures |r| == |s| + 1
  {
    if s == [] then [x]
    else if le(s[|s| - 1], x) then s + [x]
    else Insert(le, s[..|s| - 1], x) + [s[|s| - 1]]
  }

  function Sort<T>(le: (T, T) -> bool, s: seq<T>): (r: seq<T>)
    ensures |r| == |s|
  {
    if s == [] then [] else Insert(le, Sort(le, s[..|s| - 1]), s[|s| - 1])
  }

  lemma LexLeTotal(a: string, b: string)
    ensures LexLe(a, b) || LexLe(b, a)
    ensures LexLe(a, b) && LexLe(b, a) ==> a == b
  {
    if a != [] && b != [] {
      LexLeTotal(a[1..], b[1..]);
      assert a == [a[0]] + a[1..] && b == [b[0]] + b[1..];
    }
  }

  lemma LexLeTransitive(a: string, b: string, c: string)
    requires LexLe(a, b) && LexLe(b, c)
    ensures LexLe(a, c)
  {
    if a != [] && a[0] == b[0] == c[0] {
      LexLeTransitive(a[1..], b[1..], c[1..]);
    }
  }

  lemma PathLeTotal(a: Path, b: Path)
    ensures PathLe(a, b) || PathLe(b, a)
    ensures PathLe(a, b) && PathLe(b, a) ==> a == b
  {
    if a != [] && b != [] {
      PathLeTotal(a[1..], b[1..]);
      LexLeTotal(a[0], b[0]);
      assert a == [a[0]] + a[1..] && b == [b[0]] + b[1..];
    }
  }

  lemma PathLeTransitive(a: Path, b: Path, c: Path)
    requires PathLe(a, b) && PathLe(b, c)
    ensures PathLe(a, c)
  {
    if a != [] {
      LexLeTotal(a[0], b[0]);
      LexLeTotal(b[0], c[0]);
      if a[0] == b[0] == c[0] {
        PathLeTransitive(a[1..], b[1..], c[1..]);
      } else {
        LexLeTransitive(a[0], b[0], c[0]);
      }
    }
  }

  lemma PathLePreorder()
    ensures TotalPreorder(PathLe)
  {
    forall a, b ensures PathLe(a, b) || PathLe(b, a) { PathLeTotal(a, b); }
    forall a, b, c | PathLe(a, b) && PathLe(b, c) ensures PathLe(a, c) { PathLeTransitive(a, b, c); }
  }

  lemma {:induction false} InsertMultiset<T>(le: (T, T) -> bool, s: seq<T>, x: T)
    ensures multiset(Insert(le, s, x)) == multiset(s) + multiset{x}
  {
    if s != [] && !le(s[|s| - 1], x) {
      InsertMultiset(le, s[..|s| - 1], x);
      assert s == s[..|s| - 1] + [s[|s| - 1]];
    }
  }

  lemma InsertSorted<T(!new)>(le: (T, T) -> bool, s: seq<T>, x: T)
    requires TotalPreorder(le) && Sorted(le, s)
    ensures Sorted(le, Insert(le, s, x))
  {
    if s != [] && !le(s[|s| - 1], x) {
      var init, last := s[..|s| - 1], s[|s| - 1];
      InsertSorted(le, init, x);
      InsertMultiset(le, init, x);
      var r := Insert(le, init, x);
      forall i | 0 <= i < |r| ensures le(r[i], last)
      {
        assert r[i] in multiset(r);
        assert r[i] in init || r[i] == x;
      }
    }
  }

  lemma SortSorts<T(!new)>(le: (T, T) -> bool, s: seq<T>)
    requires TotalPreorder(le)
    ensures Sorted(le, Sort(le, s))
    ensures Permutation(Sort(le, s), s)
  {
    if s != [] {
      SortSorts(le, s[..|s| - 1]);
      InsertSorted(le, Sort(le, s[..|s| - 1]), s[|s| - 1]);
      InsertMultiset(le, Sort(le, s[..|s| - 1]), s[|s| - 1]);
      assert s == s[..|s| - 1] + [s[|s| - 1]];
    }
  }

  /** Sorting leaves a sorted sequence alone. */
  lemma {:induction false} SortIdle<T>(le: (T, T) -> bool, s: seq<T>)
    requires Sorted(le, s)
    ensures Sort(le, s) == s
  {
    if s != [] {
      var init, last := s[..|s| - 1], s[|s| - 1];
      SortIdle(le, init);
      assert s == init + [last];
      if init != [] {
        assert le(init[|init| - 1], last);
      }
    }
  }

  lemma SameElements<T>(s: seq<T>, t: seq<T>)
    requires Permutation(s, t)
    ensures |s| == |t|
    ensures forall x :: x in s <==> x in t
  {
    assert |s| == |multiset(s)| && |t| == |multiset(t)|;
    assert forall x :: x in s <==> x in multiset(s);
    assert forall x :: x in t <==> x in multiset(t);
  }

  lemma LastIsGreatest<T>(le: (T, T) -> bool, s: seq<T>, x: T)
    requires Sorted(le, s) && x in s
    ensures x == s[|s| - 1] || le(x, s[|s| - 1])
  {
    var i :| 0 <= i < |s| && s[i] == x;
  }

  lemma DropLast<T>(s: seq<T>)
    requires s != []
    ensures multiset(s[..|s| - 1]) == multiset(s) - multiset{s[|s| - 1]}
  {
    assert s == s[..|s| - 1] + [s[|s| - 1]];
  }

  lemma SameLast<T>(le: (T, T) -> bool, s: seq<T>, t: seq<T>)
    requires Sorted(le, s) && Sorted(le, t)
    requires Permutation(s, t) && Antisymmetric(le, s) && s != []
    ensures |s| == |t| && s[|s| - 1] == t[|t| - 1]
  {
    SameElements(s, t);
    var a, b := s[|s| - 1], t[|t| - 1];
    assert a in t && b in s;
    LastIsGreatest(le, s, b);
    LastIsGreatest(le, t, a);
  }

  /** There is only one way to order elements that compare equal only when they are equal. */
  lemma {:induction false} SortedUnique<T>(le: (T, T) -> bool, s: seq<T>, t: seq<T>)
    requires Sorted(le, s) && Sorted(le, t)
    requires Permutation(s, t) && Antisymmetric(le, s)
    ensures s == t
  {
    if s == [] {
      SameElements(s, t);
    } else {
      SameLast(le, s, t);
      DropLast(s);
      DropLast(t);
      SortedUnique(le, s[..|s| - 1], t[..|t| - 1]);
      assert s == s[..|s| - 1] + [s[|s| - 1]] && t == t[..|t| - 1] + [t[|t| - 1]];
    }
  }

  lemma SortOrderIndependent<T(!new)>(le: (T, T) -> bool, s: seq<T>, t: seq<T>)
    requires TotalPreorder(le) && Permutation(s, t) && Antisymmetric(le, s)
    ensures Sort(le, s) == Sort(le, t)
  {
    SortSorts(le, s);
    SortSorts(le, t);
    var r := Sort(le, s);
    SameElements(r, s);
    forall i, j | 0 <= i < |r| && 0 <= j < |r| && le(r[i], r[j]) && le(r[j], r[i])
      ensures r[i] == r[j]
    {
      assert r[i] in s && r[j] in s;
    }
    SortedUnique(le, r, Sort(le, t));
  }
}
