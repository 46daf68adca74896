/**
 * Python's ordering of strings and of `pathlib` paths, and sorting by it.
 * A `str` compares code point by code point, a proper prefix first; a path compares its
 * list of components the same way, each component as a `str`.
 */
module Order {

  /** Lexicographic "strictly less" on sequences, given "strictly less" on elements. */
  predicate LexLess<T(==)>(a: seq<T>, b: seq<T>, less: (T, T) -> bool)
  {
    if |a| == 0 then |b| > 0
    else if |b| == 0 then false
    else less(a[0], b[0]) || (a[0] == b[0] && LexLess(a[1..], b[1..], less))
  }

  ghost predicate StrictTotalOrder<T(!new)>(less: (T, T) -> bool)
  {
    && (forall x :: !less(x, x))
    && (forall x, y, z :: less(x, y) && less(y, z) ==> less(x, z))
    && (forall x, y :: x != y ==> less(x, y) || less(y, x))
  }

  lemma {:induction false} LexIrreflexive<T(!new)>(a: seq<T>, less: (T, T) -> bool)
    requires StrictTotalOrder(less)
    ensures !LexLess(a, a, less)
  {
    if |a| > 0 {
      LexIrreflexive(a[1..], less);
    }
  }

  lemma {:induction false} LexTransitive<T(!new)>(a: seq<T>, b: seq<T>, c: seq<T>, less: (T, T) -> bool)
    requires StrictTotalOrder(less)
    requires LexLess(a, b, less) && LexLess(b, c, less)
    ensures LexLess(a, c, less)
  {
    if |a| > 0 && |b| > 0 && |c| > 0 && a[0] == b[0] && b[0] == c[0] {
      LexTransitive(a[1..], b[1..], c[1..], less);
    }
  }

  lemma {:induction false} LexTotal<T(!new)>(a: seq<T>, b: seq<T>, less: (T, T) -> bool)
    requires StrictTotalOrder(less)
    requires a != b
    ensures LexLess(a, b, less) || LexLess(b, a, less)
  {
    if |a| > 0 && |b| > 0 && a[0] == b[0] {
      assert a == [a[0]] + a[1..] && b == [b[0]] + b[1..];
      LexTotal(a[1..], b[1..], less);
    }
  }

  function CharLess(x: char, y: char): bool
  {
    x < y
  }

  /** Python's `a < b` on `str`. */
  predicate StrLess(a: string, b: string)
  {
    LexLess(a, b, CharLess)
  }

  /** Python's `p < q` on `pathlib.PurePosixPath`: component lists compared lexicographically. */
  predicate PathLess(p: seq<string>, q: seq<string>)
  {
    LexLess(p, q, StrLess)
  }

  lemma StrLessStrictTotal()
    ensures StrictTotalOrder(StrLess)
  {
    assert StrictTotalOrder(CharLess);
    forall a: string ensures !StrLess(a, a) {
      LexIrreflexive(a, CharLess);
    }
    forall a: string, b: string, c: string | StrLess(a, b) && StrLess(b, c) ensures StrLess(a, c) {
      LexTransitive(a, b, c, CharLess);
    }
    forall a: string, b: string | a != b ensures StrLess(a, b) || StrLess(b, a) {
      LexTotal(a, b, CharLess);
    }
  }

  lemma PathLessIrreflexive(p: seq<string>)
    ensures !PathLess(p, p)
  {
    StrLessStrictTotal();
    LexIrreflexive(p, StrLess);
  }

  lemma PathLessTransitive(p: seq<string>, q: seq<string>, r: seq<string>)
    requires PathLess(p, q) && PathLess(q, r)
    ensures PathLess(p, r)
  {
    StrLessStrictTotal();
    LexTransitive(p, q, r, StrLess);
  }

  lemma PathLessTotal(p: seq<string>, q: seq<string>)
    requires p != q
    ensures PathLess(p, q) || PathLess(q, p)
  {
    StrLessStrictTotal();
    LexTotal(p, q, StrLess);
  }

  /** Paths that agree up to one component are ordered by that component alone. */
  lemma {:induction false} PathLessAtComponent(base: seq<string>, m: string, n: string, tail: seq<string>)
    requires StrLess(m, n)
    ensures PathLess(base + [m] + tail, base + [n] + tail)
  {
    if base != [] {
      assert (base + [m] + tail)[1..] == base[1..] + [m] + tail;
      assert (base + [n] + tail)[1..] == base[1..] + [n] + tail;
      PathLessAtComponent(base[1..], m, n, tail);
    } else {
      assert (base + [m] + tail)[0] == m && (base + [n] + tail)[0] == n;
    }
  }

  /** Strictly increasing under `PathLess`: the order `sorted()` produces from distinct paths. */
  predicate SortedPaths(s: seq<seq<string>>)
  {
    forall i, j :: 0 <= i < j < |s| ==> PathLess(s[i], s[j])
  }

  /** Insertion of a path not yet present into a sorted list. */
  function InsertPath(x: seq<string>, s: seq<seq<string>>): (r: seq<seq<string>>)
    requires SortedPaths(s) && x !in s
    ensures SortedPaths(r)
    ensures multiset(r) == multiset(s) + multiset{x}
    ensures forall y :: y in r <==> y == x || y in s
  {
    if s == [] then [x]
    else if PathLess(x, s[0]) then
      InsertBefore(x, s);
      [x] + s
    else
      var rest := InsertPath(x, s[1..]);
      assert s == [s[0]] + s[1..];
      PathLessTotal(x, s[0]);
      InsertAfterHead(x, s, rest);
      [s[0]] + rest
  }

  lemma InsertBefore(x: seq<string>, s: seq<seq<string>>)
    requires SortedPaths(s) && s != [] && PathLess(x, s[0])
    ensures SortedPaths([x] + s)
  {
    forall j | 0 < j < |s| ensures PathLess(x, s[j]) {
      PathLessTransitive(x, s[0], s[j]);
    }
  }

  lemma InsertAfterHead(x: seq<string>, s: seq<seq<string>>, rest: seq<seq<string>>)
    requires SortedPaths(s) && s != [] && PathLess(s[0], x)
    requires SortedPaths(rest) && forall y :: y in rest <==> y == x || y in s[1..]
    ensures SortedPaths([s[0]] + rest)
  {
    forall j | 0 <= j < |rest| ensures PathLess(s[0], rest[j]) {
      if rest[j] != x {
        assert rest[j] in rest;
        var k :| 0 <= k < |s[1..]| && s[1..][k] == rest[j];
        assert s[k + 1] == rest[j];
      }
    }
  }

  /** No path occurs twice. */
  predicate Distinct(s: seq<seq<string>>)
  {
    forall i, j :: 0 <= i < j < |s| ==> s[i] != s[j]
  }

  /** `sorted(paths)` for paths without duplicates. */
  function SortPaths(s: seq<seq<string>>): (r: seq<seq<string>>)
    requires Distinct(s)
    ensures SortedPaths(r)
    ensures multiset(r) == multiset(s)
  {
    if s == [] then []
    else
      DistinctTail(s);
      var rest := SortPaths(s[1..]);
      assert s[0] !in multiset(rest);
      InsertPath(s[0], rest)
  }

  /** Dropping the head of a duplicate-free list leaves one that is duplicate-free and lacks the head. */
  lemma DistinctTail(s: seq<seq<string>>)
    requires Distinct(s) && s != []
    ensures Distinct(s[1..]) && s[0] !in multiset(s[1..])
    ensures multiset(s) == multiset(s[1..]) + multiset{s[0]}
  {
    var tail := s[1..];
    forall i, j | 0 <= i < j < |tail| ensures tail[i] != tail[j] {
      assert tail[i] == s[i + 1] && tail[j] == s[j + 1];
    }
    forall k | 0 <= k < |tail| ensures tail[k] != s[0] {
      assert tail[k] == s[k + 1];
    }
    assert s == [s[0]] + tail;
  }

  lemma TailMember(a: seq<seq<string>>, b: seq<seq<string>>, p: seq<string>)
    requires SortedPaths(a) && a != [] && b != [] && a[0] == b[0]
    requires forall q :: q in a ==> q in b
    ensures p in a[1..] ==> p in b[1..]
  {
    if p in a[1..] {
      var k :| 0 <= k < |a[1..]| && a[1..][k] == p;
      assert a[k + 1] == p;
      assert PathLess(a[0], p);
      if p == a[0] { PathLessIrreflexive(p); }
      assert p in b;
      var m :| 0 <= m < |b| && b[m] == p;
      assert m > 0;
      assert b[1..][m - 1] == p;
    }
  }

  /** A set of paths has only one sorted listing, whatever order the directory yields them in. */
  lemma {:induction false} SortedListingUnique(a: seq<seq<string>>, b: seq<seq<string>>)
    requires SortedPaths(a) && SortedPaths(b)
    requires forall p :: p in a <==> p in b
    ensures a == b
  {
    assert a != [] ==> a[0] in b;
    assert b != [] ==> b[0] in a;
    if a != [] && b != [] {
      if a[0] != b[0] {
        assert b[0] in a;
        assert a[0] in b;
        var i :| 0 <= i < |a| && a[i] == b[0];
        var j :| 0 <= j < |b| && b[j] == a[0];
        assert PathLess(a[0], b[0]) by { assert i > 0; }
        assert PathLess(b[0], a[0]) by { assert j > 0; }
        PathLessTransitive(a[0], b[0], a[0]);
        PathLessIrreflexive(a[0]);
      }
      forall p ensures p in a[1..] ==> p in b[1..] {
        TailMember(a, b, p);
      }
      forall p ensures p in b[1..] ==> p in a[1..] {
        TailMember(b, a, p);
      }
      SortedListingUnique(a[1..], b[1..]);
    }
  }
}
