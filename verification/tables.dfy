/**
 * Generic operations on a table held as a sequence of rows in insertion order:
 * `WHERE` filters, `DELETE ... WHERE username = ?`, `ORDER BY ... DESC`, `COUNT(*)`,
 * and the ordering and uniqueness facts the store keeps about its tables.
 */
module Tables {

  /** The rows satisfying `keep`, in table order (a `WHERE` clause). */
  function Filter<T(!new)>(s: seq<T>, keep: T -> bool): (r: seq<T>)
    ensures |r| <= |s|
    ensures forall x :: x in r <==> x in s && keep(x)
  {
    if s == [] then []
    else (if keep(s[0]) then [s[0]] else []) + Filter(s[1..], keep)
  }

  /** `DELETE FROM t WHERE username = ?` for every name in `names`: the rows that survive, in table order. */
  function Without<T(!new)>(s: seq<T>, owner: T -> string, names: set<string>): (r: seq<T>)
    ensures |r| <= |s|
    ensures forall x :: x in r <==> x in s && owner(x) !in names
  {
    if s == [] then []
    else (if owner(s[0]) in names then [] else [s[0]]) + Without(s[1..], owner, names)
  }

  /** Rows in the opposite order: newest first. */
  function Reverse<T>(s: seq<T>): (r: seq<T>)
    ensures |r| == |s|
    ensures forall i :: 0 <= i < |s| ==> r[i] == s[|s| - 1 - i]
  {
    if s == [] then [] else Reverse(s[1..]) + [s[0]]
  }

  /** `rel` holds of every pair of rows in table order. */
  ghost predicate Pairwise<T>(s: seq<T>, rel: (T, T) -> bool) {
    forall i, j :: 0 <= i < j < |s| ==> rel(s[i], s[j])
  }

  /** `key` strictly increases along the table. */
  ghost predicate Ascending<T>(s: seq<T>, key: T -> int) {
    Pairwise(s, (a: T, b: T) => key(a) < key(b))
  }

  ghost predicate Descending<T>(s: seq<T>, key: T -> int) {
    forall i, j :: 0 <= i < j < |s| ==> key(s[i]) > key(s[j])
  }

  /** No two rows share an owner (a UNIQUE column). */
  ghost predicate Unique<T>(s: seq<T>, owner: T -> string) {
    forall i, j :: 0 <= i < j < |s| ==> owner(s[i]) != owner(s[j])
  }

  /** Every key lies in `[lo, hi)`. */
  ghost predicate Bounded<T(!new)>(s: seq<T>, key: T -> int, lo: int, hi: int) {
    forall x :: x in s ==> lo <= key(x) < hi
  }

  /** Distinct rows of a table with a strictly increasing key have distinct keys. */
  lemma AscendingKeysDiffer<T>(s: seq<T>, key: T -> int, i: int, j: int)
    requires Ascending(s, key) && 0 <= i < |s| && 0 <= j < |s|
    ensures i != j ==> key(s[i]) != key(s[j])
  {
    if i < j {
      assert key(s[i]) < key(s[j]);
    } else if j < i {
      assert key(s[j]) < key(s[i]);
    }
  }

  /** With a strictly increasing key no row repeats, so `COUNT(*)` of a `WHERE` is the number of distinct matching rows. */
  lemma {:induction false} FilterCount<T(!new)>(s: seq<T>, keep: T -> bool, key: T -> int, matching: set<T>)
    requires Ascending(s, key)
    requires forall x :: x in matching <==> x in s && keep(x)
    ensures |Filter(s, keep)| == |matching|
  {
    if s != [] {
      var t := s[1..];
      assert Ascending(t, key) by {
        forall i, j | 0 <= i < j < |t| ensures key(t[i]) < key(t[j]) {
          assert t[i] == s[i + 1] && t[j] == s[j + 1];
        }
      }
      assert s[0] !in t by {
        forall k | 0 <= k < |t| ensures t[k] != s[0] {
          assert key(s[0]) < key(s[k + 1]);
        }
      }
      var rest := matching - {s[0]};
      forall x ensures x in rest <==> x in t && keep(x) {
        if x in t { var k :| 0 <= k < |t| && t[k] == x; assert x == s[k + 1]; }
        if x in s && x != s[0] { var k :| 0 <= k < |s| && s[k] == x; assert x == t[k - 1]; }
      }
      FilterCount(t, keep, key, rest);
      if keep(s[0]) {
        assert matching == rest + {s[0]};
      }
    }
  }

  lemma {:induction false} FilterAppend<T(!new)>(a: seq<T>, b: seq<T>, keep: T -> bool)
    ensures Filter(a + b, keep) == Filter(a, keep) + Filter(b, keep)
  {
    if a != [] {
      assert (a + b)[0] == a[0] && (a + b)[1..] == a[1..] + b;
      FilterAppend(a[1..], b, keep);
      var head := if keep(a[0]) then [a[0]] else [];
      calc {
        Filter(a + b, keep);
        head + Filter(a[1..] + b, keep);
        head + (Filter(a[1..], keep) + Filter(b, keep));
        { AppendAssoc(head, Filter(a[1..], keep), Filter(b, keep)); }
        (head + Filter(a[1..], keep)) + Filter(b, keep);
        Filter(a, keep) + Filter(b, keep);
      }
    } else {
      assert a + b == b;
    }
  }

  lemma AppendAssoc<T>(x: seq<T>, y: seq<T>, z: seq<T>)
    ensures x + (y + z) == (x + y) + z
  {
  }

  /** Filtering keeps the relative order of rows, so any pairwise fact survives it. */
  lemma {:induction false} FilterPairwise<T(!new)>(s: seq<T>, keep: T -> bool, rel: (T, T) -> bool)
    requires Pairwise(s, rel)
    ensures Pairwise(Filter(s, keep), rel)
  {
    if s != [] {
      var t := s[1..];
      assert Pairwise(t, rel) by {
        forall i, j | 0 <= i < j < |t| ensures rel(t[i], t[j]) {
          assert t[i] == s[i + 1] && t[j] == s[j + 1];
        }
      }
      FilterPairwise(t, keep, rel);
      var ft := Filter(t, keep);
      if keep(s[0]) {
        forall y | y in ft ensures rel(s[0], y) {
          var k :| 0 <= k < |t| && t[k] == y;
          assert s[k + 1] == y;
        }
        var r := [s[0]] + ft;
        forall i, j | 0 <= i < j < |r| ensures rel(r[i], r[j]) {
          if i == 0 {
            assert r[j] in ft;
          } else {
            assert r[i] == ft[i - 1] && r[j] == ft[j - 1];
          }
        }
      }
    }
  }

  lemma {:induction false} WithoutAppend<T(!new)>(a: seq<T>, b: seq<T>, owner: T -> string, names: set<string>)
    ensures Without(a + b, owner, names) == Without(a, owner, names) + Without(b, owner, names)
  {
    if a == [] {
      assert a + b == b;
    } else {
      assert (a + b)[1..] == a[1..] + b;
      WithoutAppend(a[1..], b, owner, names);
    }
  }

  /** Deleting rows by owner, first for names `a` and then for names `b`, is one delete for `a + b`. */
  lemma {:induction false} WithoutUnion<T(!new)>(s: seq<T>, owner: T -> string, a: set<string>, b: set<string>)
    ensures Without(Without(s, owner, a), owner, b) == Without(s, owner, a + b)
  {
    if s != [] {
      var head := if owner(s[0]) in a then [] else [s[0]];
      assert Without(s, owner, a) == head + Without(s[1..], owner, a);
      WithoutAppend(head, Without(s[1..], owner, a), owner, b);
      WithoutUnion(s[1..], owner, a, b);
    }
  }

  /** A delete by owner is the `WHERE` clause `owner NOT IN names`. */
  lemma {:induction false} WithoutIsFilter<T(!new)>(s: seq<T>, owner: T -> string, names: set<string>)
    ensures Without(s, owner, names) == Filter(s, x => owner(x) !in names)
  {
    if s != [] {
      WithoutIsFilter(s[1..], owner, names);
    }
  }

  /** With unique owners, deleting a set of present owners removes exactly that many rows. */
  lemma {:induction false} WithoutUniqueCount<T(!new)>(s: seq<T>, owner: T -> string, names: set<string>)
    requires Unique(s, owner)
    requires forall n :: n in names ==> exists x :: x in s && owner(x) == n
    ensures |Without(s, owner, names)| == |s| - |names|
  {
    if s == [] {
      assert forall n :: n !in names;
      assert names == {};
    } else {
      var t := s[1..];
      var o := owner(s[0]);
      assert Unique(t, owner) by {
        forall i, j | 0 <= i < j < |t| ensures owner(t[i]) != owner(t[j]) {
          assert t[i] == s[i + 1] && t[j] == s[j + 1];
        }
      }
      assert forall x :: x in t ==> owner(x) != o by {
        forall x | x in t ensures owner(x) != o {
          var k :| 0 <= k < |t| && t[k] == x;
          assert s[k + 1] == x;
        }
      }
      var rest := names - {o};
      assert forall n :: n in rest ==> exists x :: x in t && owner(x) == n by {
        forall n | n in rest ensures exists x :: x in t && owner(x) == n {
          var x :| x in s && owner(x) == n;
          var k :| 0 <= k < |s| && s[k] == x;
          assert k != 0;
          assert t[k - 1] == x;
        }
      }
      WithoutUniqueCount(t, owner, rest);
      assert Without(t, owner, rest) == Without(t, owner, names) by {
        WithoutAbsent(t, owner, names, o);
      }
      var head := if o in names then [] else [s[0]];
      assert Without(s, owner, names) == head + Without(t, owner, names);
    }
  }

  /** A name that owns no row makes no difference to a delete. */
  lemma {:induction false} WithoutAbsent<T(!new)>(s: seq<T>, owner: T -> string, names: set<string>, o: string)
    requires forall x :: x in s ==> owner(x) != o
    ensures Without(s, owner, names - {o}) == Without(s, owner, names)
  {
    if s != [] {
      assert s[0] in s;
      assert forall x :: x in s[1..] ==> x in s;
      WithoutAbsent(s[1..], owner, names, o);
    }
  }

  /** Newest first: reversing an ascending table gives a descending listing. */
  lemma ReverseDescending<T>(s: seq<T>, key: T -> int)
    requires Ascending(s, key)
    ensures Descending(Reverse(s), key)
  {
    var r := Reverse(s);
    forall i, j | 0 <= i < j < |r| ensures key(r[i]) > key(r[j]) {
      assert r[i] == s[|s| - 1 - i] && r[j] == s[|s| - 1 - j];
    }
  }

  /** Newest first lists the same rows. */
  lemma ReverseMembers<T>(s: seq<T>)
    ensures forall x :: x in Reverse(s) <==> x in s
  {
    var r := Reverse(s);
    forall x ensures x in r <==> x in s {
      if x in r { var k :| 0 <= k < |r| && r[k] == x; assert s[|s| - 1 - k] == x; }
      if x in s { var k :| 0 <= k < |s| && s[k] == x; assert r[|s| - 1 - k] == x; }
    }
  }

  /** Appending a row whose key is at least the table's bound keeps the table ascending and bounded. */
  lemma AppendAscending<T(!new)>(s: seq<T>, x: T, key: T -> int, lo: int, hi: int)
    requires Ascending(s, key) && Bounded(s, key, lo, hi)
    requires lo <= key(x) && hi <= key(x)
    ensures Ascending(s + [x], key) && Bounded(s + [x], key, lo, key(x) + 1)
  {
    var r := s + [x];
    forall i, j | 0 <= i < j < |r| ensures key(r[i]) < key(r[j]) {
      if j < |s| { assert r[i] == s[i] && r[j] == s[j]; } else { assert r[i] == s[i] && s[i] in s; }
    }
  }

  /**
   * Two tables of the same length that agree on which rows `keep` selects, and on the
   * selected rows themselves, give the same `WHERE` result: an update confined to other
   * rows is invisible to this filter.
   */
  lemma {:induction false} FilterAgree<T(!new)>(s: seq<T>, r: seq<T>, keep: T -> bool)
    requires |s| == |r|
    requires forall i :: 0 <= i < |s| ==> keep(s[i]) == keep(r[i]) && (keep(s[i]) ==> s[i] == r[i])
    ensures Filter(r, keep) == Filter(s, keep)
  {
    if s != [] {
      FilterAgree(s[1..], r[1..], keep);
    }
  }

  /** A `WHERE` clause no row satisfies selects nothing. */
  lemma {:induction false} FilterNone<T(!new)>(s: seq<T>, keep: T -> bool)
    requires forall x :: x in s ==> !keep(x)
    ensures Filter(s, keep) == []
  {
    if s != [] {
      assert s[0] in s;
      FilterNone(s[1..], keep);
    }
  }

  /** A `WHERE` clause that rejects exactly the row at index `m` removes that row and keeps the rest in order. */
  lemma {:induction false} FilterRemoveAt<T(!new)>(s: seq<T>, keep: T -> bool, m: int)
    requires 0 <= m < |s| && !keep(s[m])
    requires forall i :: 0 <= i < |s| && i != m ==> keep(s[i])
    ensures Filter(s, keep) == s[..m] + s[m + 1..]
  {
    if m == 0 {
      FilterAll(s[1..], keep);
    } else {
      FilterRemoveAt(s[1..], keep, m - 1);
      ConsRemoveAt(s, m);
    }
  }

  lemma ConsRemoveAt<T>(s: seq<T>, m: int)
    requires 0 < m < |s|
    ensures [s[0]] + (s[1..][..m - 1] + s[1..][m..]) == s[..m] + s[m + 1..]
  {
    assert s[1..][..m - 1] == s[1..m] && s[1..][m..] == s[m + 1..];
    assert [s[0]] + s[1..m] == s[..m];
  }

  /** Deleting rows for no name changes nothing. */
  lemma {:induction false} WithoutNothing<T(!new)>(s: seq<T>, owner: T -> string)
    ensures Without(s, owner, {}) == s
  {
    if s != [] {
      WithoutNothing(s[1..], owner);
      assert s == [s[0]] + s[1..];
    }
  }

  /** An UPDATE that leaves a key column alone keeps that column ascending and bounded. */
  lemma SameKeys<T(!new)>(s: seq<T>, r: seq<T>, key: T -> int, lo: int, hi: int)
    requires |r| == |s| && forall i :: 0 <= i < |s| ==> key(r[i]) == key(s[i])
    requires Ascending(s, key) && Bounded(s, key, lo, hi)
    ensures Ascending(r, key) && Bounded(r, key, lo, hi)
  {
    forall i, j | 0 <= i < j < |r| ensures key(r[i]) < key(r[j]) {
      assert key(s[i]) < key(s[j]);
    }
    forall y | y in r ensures lo <= key(y) < hi {
      var k :| 0 <= k < |r| && r[k] == y;
      assert s[k] in s;
    }
  }

  /** Deleting rows keeps any pairwise fact. */
  lemma WithoutPairwise<T(!new)>(s: seq<T>, owner: T -> string, names: set<string>, rel: (T, T) -> bool)
    requires Pairwise(s, rel)
    ensures Pairwise(Without(s, owner, names), rel)
  {
    WithoutIsFilter(s, owner, names);
    FilterPairwise(s, x => owner(x) !in names, rel);
  }

  /** Any `WHERE` selection keeps a key column ascending. */
  lemma FilterAscending<T(!new)>(s: seq<T>, keep: T -> bool, key: T -> int)
    requires Ascending(s, key)
    ensures Ascending(Filter(s, keep), key)
  {
    FilterPairwise(s, keep, (a: T, b: T) => key(a) < key(b));
  }

  /** Any `WHERE` selection keeps a key column ascending and bounded. */
  lemma FilterKeeps<T(!new)>(s: seq<T>, keep: T -> bool, key: T -> int, lo: int, hi: int)
    requires Ascending(s, key) && Bounded(s, key, lo, hi)
    ensures Ascending(Filter(s, keep), key) && Bounded(Filter(s, keep), key, lo, hi)
  {
    FilterAscending(s, keep, key);
  }

  /** Any `WHERE` selection keeps a UNIQUE column unique. */
  lemma FilterUnique<T(!new)>(s: seq<T>, keep: T -> bool, col: T -> string)
    requires Unique(s, col)
    ensures Unique(Filter(s, keep), col)
  {
    var rel := (a: T, b: T) => col(a) != col(b);
    assert Pairwise(s, rel);
    FilterPairwise(s, keep, rel);
  }

  /** Deleting rows keeps a key column ascending and bounded. */
  lemma WithoutKeeps<T(!new)>(s: seq<T>, owner: T -> string, names: set<string>, key: T -> int, lo: int, hi: int)
    requires Ascending(s, key) && Bounded(s, key, lo, hi)
    ensures Ascending(Without(s, owner, names), key) && Bounded(Without(s, owner, names), key, lo, hi)
  {
    WithoutIsFilter(s, owner, names);
    FilterKeeps(s, x => owner(x) !in names, key, lo, hi);
  }

  /** Deleting rows keeps a UNIQUE column unique. */
  lemma WithoutUnique<T(!new)>(s: seq<T>, owner: T -> string, names: set<string>, col: T -> string)
    requires Unique(s, col)
    ensures Unique(Without(s, owner, names), col)
  {
    WithoutIsFilter(s, owner, names);
    FilterUnique(s, x => owner(x) !in names, col);
  }

  /** A `WHERE` clause every row satisfies selects the whole table. */
  lemma {:induction false} FilterAll<T(!new)>(s: seq<T>, keep: T -> bool)
    requires forall i :: 0 <= i < |s| ==> keep(s[i])
    ensures Filter(s, keep) == s
  {
    if s != [] {
      FilterAll(s[1..], keep);
      assert s == [s[0]] + s[1..];
    }
  }

  /** Removing row `m` and then reversing removes the mirrored row of the reversed table. */
  lemma ReverseRemoveAt<T>(s: seq<T>, m: int)
    requires 0 <= m < |s|
    ensures Reverse(s[..m] + s[m + 1..]) == Reverse(s)[..|s| - 1 - m] + Reverse(s)[|s| - m..]
  {
    MirrorRemoveAt(s, Reverse(s), s[..m] + s[m + 1..], Reverse(s[..m] + s[m + 1..]), m);
  }

  /** ReverseRemoveAt on any two mirrored pairs of sequences. */
  lemma MirrorRemoveAt<T>(s: seq<T>, r: seq<T>, t: seq<T>, rt: seq<T>, m: int)
    requires 0 <= m < |s| && |r| == |s| && forall i :: 0 <= i < |s| ==> r[i] == s[|s| - 1 - i]
    requires t == s[..m] + s[m + 1..] && |rt| == |t| && forall i :: 0 <= i < |t| ==> rt[i] == t[|t| - 1 - i]
    ensures rt == r[..|s| - 1 - m] + r[|s| - m..]
  {
    var n := |s|;
    var u := r[..n - 1 - m] + r[n - m..];
    forall i | 0 <= i < n - 1 ensures rt[i] == u[i] {
      if i < n - 1 - m {
        assert u[i] == r[i];
        assert t[n - 2 - i] == s[n - 1 - i];
      } else {
        assert u[i] == r[i + 1];
        assert t[n - 2 - i] == s[n - 2 - i];
      }
    }
  }
}
