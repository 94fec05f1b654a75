/**
 * Generic operations on a table held as a sequence of rows: the WHERE,
 * UPDATE ... WHERE, DELETE ... WHERE and ORDER BY of the store's query
 * layer, and the left-to-right `reduce` sums the ledger uses.
 */
module Tables {
  import opened Wrappers

  // ------------------------------------------------------------ selection

  /** The rows that satisfy `keep`, in table order (a WHERE clause, or Array.filter). */
  function Filter<T(!new)>(s: seq<T>, keep: T -> bool): (r: seq<T>)
    ensures |r| <= |s|
    ensures forall x :: x in r <==> x in s && keep(x)
    ensures forall x :: multiset(r)[x] == if keep(x) then multiset(s)[x] else 0
    decreases |s|
  {
    if s == [] then []
    else
      var init, last := s[..|s| - 1], s[|s| - 1];
      assert s == init + [last];
      var r0 := Filter(init, keep);
      if keep(last) then r0 + [last] else r0
  }

  /**
   * One output row per input row for which `f` yields a row, in table order:
   * a filter followed by a map, or an inner join on a key that is looked up.
   */
  function FilterMap<T, U(!new)>(s: seq<T>, f: T -> Option<U>): (r: seq<U>)
    ensures |r| <= |s|
    ensures forall y :: y in r <==> exists x :: x in s && f(x) == Some(y)
    decreases |s|
  {
    if s == [] then []
    else
      var init, last := s[..|s| - 1], s[|s| - 1];
      assert s == init + [last];
      var r0 := FilterMap(init, f);
      match f(last)
      case Some(y) => r0 + [y]
      case None => r0
  }

  /** The number of rows that satisfy `p`. */
  function Count<T>(s: seq<T>, p: T -> bool): (n: nat)
    ensures n <= |s|
    ensures n == 0 <==> forall x :: x in s ==> !p(x)
    decreases |s|
  {
    if s == [] then 0
    else
      var init := s[..|s| - 1];
      assert s == init + [s[|s| - 1]];
      Count(init, p) + (if p(s[|s| - 1]) then 1 else 0)
  }

  /** A filter-map yields exactly as many rows as there are rows it maps. */
  lemma {:induction false} FilterMapLength<T, U(!new)>(s: seq<T>, f: T -> Option<U>)
    ensures |FilterMap(s, f)| == Count(s, x => f(x).Some?)
    decreases |s|
  {
    if s != [] {
      FilterMapLength(s[..|s| - 1], f);
    }
  }

  /** The first row that satisfies `p` (a `.get()` on a query). */
  function Lookup<T(==)>(s: seq<T>, p: T -> bool): (r: Option<T>)
    ensures r.Some? <==> exists x :: x in s && p(x)
    ensures r.Some? ==> r.value in s && p(r.value)
    ensures r.Some? ==> exists k :: 0 <= k < |s| && s[k] == r.value && forall j :: 0 <= j < k ==> !p(s[j])
    decreases |s|
  {
    if s == [] then None
    else if p(s[0]) then Some(s[0])
    else
      var r := Lookup(s[1..], p);
      assert forall x :: x in s[1..] ==> x in s;
      assert forall x :: x in s && x != s[0] ==> x in s[1..];
      if r.Some? then
        var k :| 0 <= k < |s[1..]| && s[1..][k] == r.value && forall j :: 0 <= j < k ==> !p(s[1..][j]);
        assert s[k + 1] == r.value && forall j :: 0 <= j < k + 1 ==> !p(s[j]);
        r
      else r
  }

  // ------------------------------------------------------------ updates

  /** UPDATE ... SET f WHERE p: every matching row is rewritten, the rest are kept, in place. */
  function UpdateWhere<T>(s: seq<T>, p: T -> bool, f: T -> T): (r: seq<T>)
    ensures |r| == |s|
    ensures forall k :: 0 <= k < |s| ==> r[k] == if p(s[k]) then f(s[k]) else s[k]
  {
    seq(|s|, k requires 0 <= k < |s| => if p(s[k]) then f(s[k]) else s[k])
  }

  /** DELETE ... WHERE p. */
  function DeleteWhere<T(!new)>(s: seq<T>, p: T -> bool): (r: seq<T>)
    ensures forall x :: x in r <==> x in s && !p(x)
    ensures forall x :: multiset(r)[x] == if p(x) then 0 else multiset(s)[x]
  {
    Filter(s, Not(p))
  }

  /** The complement of a row condition. */
  function Not<T>(p: T -> bool): T -> bool {
    x => !p(x)
  }

  // ------------------------------------------------------------ keys

  /** No two rows share a key (a primary key). */
  predicate Unique<T, K(==)>(s: seq<T>, key: T -> K) {
    forall i, j :: 0 <= i < j < |s| ==> key(s[i]) != key(s[j])
  }

  function Keys<T(==), K>(s: seq<T>, key: T -> K): set<K> {
    set x | x in s :: key(x)
  }

  lemma UniqueAppend<T, K>(s: seq<T>, t: seq<T>, key: T -> K)
    requires Unique(s, key) && Unique(t, key)
    requires Keys(s, key) !! Keys(t, key)
    ensures Unique(s + t, key)
  {
    forall i, j | 0 <= i < j < |s + t|
      ensures key((s + t)[i]) != key((s + t)[j])
    {
      if j < |s| {
        assert (s + t)[i] == s[i] && (s + t)[j] == s[j];
      } else if i >= |s| {
        assert (s + t)[i] == t[i - |s|] && (s + t)[j] == t[j - |s|];
      } else {
        assert (s + t)[i] == s[i] && (s + t)[j] == t[j - |s|];
        assert key(s[i]) in Keys(s, key);
        assert key(t[j - |s|]) in Keys(t, key);
      }
    }
  }

  /** A row with a new key can be appended to a keyed table. */
  lemma UniqueSnoc<T, K>(s: seq<T>, x: T, key: T -> K)
    requires Unique(s, key) && key(x) !in Keys(s, key)
    ensures Unique(s + [x], key)
  {
    UniqueAppend(s, [x], key);
  }

  /** Rewriting rows without touching their keys keeps the set of keys. */
  lemma KeysKept<T, K>(s: seq<T>, s': seq<T>, key: T -> K)
    requires |s'| == |s| && forall k :: 0 <= k < |s| ==> key(s'[k]) == key(s[k])
    ensures Keys(s', key) == Keys(s, key)
  {
    forall y | y in Keys(s', key) ensures y in Keys(s, key) {
      var x :| x in s' && key(x) == y;
      var k :| 0 <= k < |s'| && s'[k] == x;
      assert s[k] in s;
    }
    forall y | y in Keys(s, key) ensures y in Keys(s', key) {
      var x :| x in s && key(x) == y;
      var k :| 0 <= k < |s| && s[k] == x;
      assert s'[k] in s';
    }
  }

  lemma {:induction false} UniqueFilter<T(!new), K>(s: seq<T>, keep: T -> bool, key: T -> K)
    ensures Unique(s, key) ==> Unique(Filter(s, keep), key)
    decreases |s|
  {
    if s != [] && Unique(s, key) {
      var init, last := s[..|s| - 1], s[|s| - 1];
      assert s == init + [last];
      assert Unique(init, key);
      UniqueFilter(init, keep, key);
      var r0 := Filter(init, keep);
      if keep(last) {
        forall x | x in r0 ensures key(x) != key(last) {
          var i :| 0 <= i < |init| && init[i] == x;
          assert s[i] == x && s[|s| - 1] == last;
        }
        UniqueAppend(r0, [last], key);
      }
    }
  }

  lemma UniqueDelete<T(!new), K>(s: seq<T>, p: T -> bool, key: T -> K)
    ensures Unique(s, key) ==> Unique(DeleteWhere(s, p), key)
  {
    UniqueFilter(s, Not(p), key);
  }

  lemma UniqueUpdate<T, K>(s: seq<T>, p: T -> bool, f: T -> T, key: T -> K)
    requires forall x :: key(f(x)) == key(x)
    ensures Unique(s, key) ==> Unique(UpdateWhere(s, p, f), key)
  {
    var r := UpdateWhere(s, p, f);
    assert forall k :: 0 <= k < |s| ==> key(r[k]) == key(s[k]);
  }

  // ------------------------------------------------------------ ordering

  /** `leq` is total and transitive: a legitimate ORDER BY comparison. */
  ghost predicate TotalPreorder<T(!new)>(leq: (T, T) -> bool) {
    && (forall a, b :: leq(a, b) || leq(b, a))
    && (forall a, b, c :: leq(a, b) && leq(b, c) ==> leq(a, c))
  }

  predicate Sorted<T>(s: seq<T>, leq: (T, T) -> bool) {
    forall i, j :: 0 <= i < j < |s| ==> leq(s[i], s[j])
  }

  function Insert<T(!new)>(x: T, s: seq<T>, leq: (T, T) -> bool): (r: seq<T>)
    requires TotalPreorder(leq) && Sorted(s, leq)
    ensures Sorted(r, leq)
    ensures multiset(r) == multiset(s) + multiset{x}
    ensures |r| == |s| + 1
  {
    if s == [] then [x]
    else if leq(x, s[0]) then
      assert forall j :: 0 <= j < |s| ==> leq(x, s[j]) by {
        forall j | 0 <= j < |s| ensures leq(x, s[j]) {
          if j > 0 { assert leq(s[0], s[j]); }
        }
      }
      assert Sorted([x] + s, leq) by {
        forall i, j | 0 <= i < j < |[x] + s| ensures leq(([x] + s)[i], ([x] + s)[j]) {
          if i > 0 { assert leq(s[i - 1], s[j - 1]); }
        }
      }
      [x] + s
    else
      var rest := Insert(x, s[1..], leq);
      assert leq(s[0], x);
      assert forall y :: y in rest ==> leq(s[0], y) by {
        forall y | y in rest ensures leq(s[0], y) {
          assert y in multiset(rest);
          if y != x {
            assert y in multiset(s[1..]);
            var k :| 0 <= k < |s[1..]| && s[1..][k] == y;
            assert s[k + 1] == y;
          }
        }
      }
      assert Sorted([s[0]] + rest, leq) by {
        forall i, j | 0 <= i < j < |[s[0]] + rest| ensures leq(([s[0]] + rest)[i], ([s[0]] + rest)[j]) {
          if i == 0 { assert rest[j - 1] in rest; }
        }
      }
      assert s == [s[0]] + s[1..];
      [s[0]] + rest
  }

  /** ORDER BY leq: a permutation of the rows, in order. Ties may come out either way. */
  function SortBy<T(!new)>(s: seq<T>, leq: (T, T) -> bool): (r: seq<T>)
    requires TotalPreorder(leq)
    ensures Sorted(r, leq)
    ensures multiset(r) == multiset(s)
    ensures |r| == |s|
  {
    if s == [] then []
    else
      assert s == [s[0]] + s[1..];
      Insert(s[0], SortBy(s[1..], leq), leq)
  }

  /** Lexicographic order on strings, character by character. */
  predicate StrLeq(a: string, b: string)
    decreases |a|
  {
    if a == [] then true
    else if b == [] then false
    else if a[0] != b[0] then a[0] < b[0]
    else StrLeq(a[1..], b[1..])
  }

  lemma {:induction false} StrLeqTotal(a: string, b: string)
    ensures StrLeq(a, b) || StrLeq(b, a)
    decreases |a|
  {
    if a != [] && b != [] && a[0] == b[0] {
      StrLeqTotal(a[1..], b[1..]);
    }
  }

  lemma {:induction false} StrLeqTransitive(a: string, b: string, c: string)
    requires StrLeq(a, b) && StrLeq(b, c)
    ensures StrLeq(a, c)
    decreases |a|
  {
    if a != [] && b != [] && c != [] && a[0] == b[0] && b[0] == c[0] {
      StrLeqTransitive(a[1..], b[1..], c[1..]);
    }
  }

  lemma {:induction false} StrLeqAntisymmetric(a: string, b: string)
    requires StrLeq(a, b) && StrLeq(b, a)
    ensures a == b
    decreases |a|
  {
    if a != [] && b != [] {
      StrLeqAntisymmetric(a[1..], b[1..]);
      assert a == [a[0]] + a[1..] && b == [b[0]] + b[1..];
    }
  }

  /** ORDER BY x, y on two text columns. */
  predicate PairLeq(x1: string, y1: string, x2: string, y2: string) {
    if x1 == x2 then StrLeq(y1, y2) else StrLeq(x1, x2)
  }

  lemma PairLeqTotal(x1: string, y1: string, x2: string, y2: string)
    ensures PairLeq(x1, y1, x2, y2) || PairLeq(x2, y2, x1, y1)
  {
    StrLeqTotal(x1, x2);
    StrLeqTotal(y1, y2);
  }

  lemma PairLeqTransitive(x1: string, y1: string, x2: string, y2: string, x3: string, y3: string)
    requires PairLeq(x1, y1, x2, y2) && PairLeq(x2, y2, x3, y3)
    ensures PairLeq(x1, y1, x3, y3)
  {
    if x1 == x2 && x2 == x3 {
      StrLeqTransitive(y1, y2, y3);
    } else if x1 != x2 && x2 != x3 {
      StrLeqTransitive(x1, x2, x3);
      if x1 == x3 {
        StrLeqAntisymmetric(x1, x2);
      }
    }
  }

  /** ORDER BY on a nullable timestamp, ascending, with NULL first (as SQLite sorts). */
  predicate OptLeq(a: Option<int>, b: Option<int>) {
    a.None? || (b.Some? && a.value <= b.value)
  }

  lemma OptLeqTotal(a: Option<int>, b: Option<int>, c: Option<int>)
    ensures OptLeq(a, b) || OptLeq(b, a)
    ensures OptLeq(a, b) && OptLeq(b, c) ==> OptLeq(a, c)
  {
  }

  // ------------------------------------------------------------ sums

  /** `s.reduce((sum, x) => sum + v(x), 0)`: a left-to-right sum. */
  function SumOf<T>(s: seq<T>, v: T -> real): real
    decreases |s|
  {
    if s == [] then 0.0 else SumOf(s[..|s| - 1], v) + v(s[|s| - 1])
  }

  lemma {:induction false} SumOfConcat<T>(a: seq<T>, b: seq<T>, v: T -> real)
    ensures SumOf(a + b, v) == SumOf(a, v) + SumOf(b, v)
    decreases |b|
  {
    if b == [] {
      assert a + b == a;
    } else {
      assert (a + b)[..|a + b| - 1] == a + b[..|b| - 1];
      SumOfConcat(a, b[..|b| - 1], v);
    }
  }

  /** A sum does not depend on the order of the rows. */
  lemma {:induction false} SumOfPermutation<T>(a: seq<T>, b: seq<T>, v: T -> real)
    requires multiset(a) == multiset(b)
    ensures SumOf(a, v) == SumOf(b, v)
    decreases |a|
  {
    if a == [] {
      assert |b| == |multiset(b)| == 0;
    } else {
      var init, x := a[..|a| - 1], a[|a| - 1];
      assert a == init + [x];
      assert x in multiset(b);
      var k :| 0 <= k < |b| && b[k] == x;
      var pre, post := b[..k], b[k + 1..];
      assert b == pre + [x] + post;
      var rest := pre + post;
      assert multiset(init) == multiset(a) - multiset{x} by {
        assert multiset(a) == multiset(init) + multiset{x};
      }
      RemoveOneBag(pre, x, post);
      RemoveOneSum(pre, x, post, v);
      SumOfPermutation(init, rest, v);
      SumOfSnoc(init, x, v);
    }
  }

  /** Taking one copy of x out of a table takes it out of the bag and its value out of the sum. */
  lemma RemoveOneBag<T>(pre: seq<T>, x: T, post: seq<T>)
    ensures multiset(pre + post) == multiset(pre + [x] + post) - multiset{x}
  {
    assert multiset(pre + [x] + post) == multiset(pre) + multiset{x} + multiset(post);
  }

  lemma RemoveOneSum<T>(pre: seq<T>, x: T, post: seq<T>, v: T -> real)
    ensures SumOf(pre + [x] + post, v) == SumOf(pre + post, v) + v(x)
  {
    SumOfConcat(pre + [x], post, v);
    SumOfSnoc(pre, x, v);
    SumOfConcat(pre, post, v);
  }

  lemma {:induction false} SumOfPointwise<T>(s: seq<T>, v: T -> real, w: T -> real)
    requires forall x :: x in s ==> v(x) == w(x)
    ensures SumOf(s, v) == SumOf(s, w)
    decreases |s|
  {
    if s != [] {
      assert forall x :: x in s[..|s| - 1] ==> x in s;
      SumOfPointwise(s[..|s| - 1], v, w);
    }
  }

  lemma {:induction false} SumOfNonNegative<T>(s: seq<T>, v: T -> real)
    requires forall x :: x in s ==> v(x) >= 0.0
    ensures SumOf(s, v) >= 0.0
    decreases |s|
  {
    if s != [] {
      assert forall x :: x in s[..|s| - 1] ==> x in s;
      SumOfNonNegative(s[..|s| - 1], v);
    }
  }

  /** Summing the rows a filter-map produces is summing what each input row maps to. */
  lemma {:induction false} SumOfFilterMap<T, U(!new)>(s: seq<T>, f: T -> Option<U>, w: U -> real, v: T -> real)
    requires forall x :: x in s ==> v(x) == match f(x) case Some(y) => w(y) case None => 0.0
    ensures SumOf(FilterMap(s, f), w) == SumOf(s, v)
    decreases |s|
  {
    if s != [] {
      var init := s[..|s| - 1];
      assert forall x :: x in init ==> x in s;
      SumOfFilterMap(init, f, w, v);
      match f(s[|s| - 1])
      case Some(y) =>
        assert (FilterMap(init, f) + [y])[..|FilterMap(init, f)|] == FilterMap(init, f);
      case None =>
    }
  }

  /** Rewriting one row changes a sum by that row's difference. */
  lemma {:induction false} SumOfReplaceOne<T>(s: seq<T>, s': seq<T>, k: nat, v: T -> real)
    requires |s'| == |s| && k < |s|
    requires forall j :: 0 <= j < |s| && j != k ==> s'[j] == s[j]
    ensures SumOf(s', v) == SumOf(s, v) - v(s[k]) + v(s'[k])
    decreases |s|
  {
    var n := |s| - 1;
    if k < n {
      SumOfReplaceOne(s[..n], s'[..n], k, v);
    } else {
      assert s'[..n] == s[..n];
    }
  }

  /** Array.map: one output row per input row, in order. */
  function Map<T, U>(s: seq<T>, f: T -> U): (r: seq<U>)
    ensures |r| == |s|
    ensures forall k :: 0 <= k < |s| ==> r[k] == f(s[k])
  {
    seq(|s|, k requires 0 <= k < |s| => f(s[k]))
  }

  /** A row appended at the end of a table passes the filter or not, and nothing else changes. */
  lemma FilterSnoc<T(!new)>(s: seq<T>, x: T, keep: T -> bool)
    ensures Filter(s + [x], keep) == Filter(s, keep) + (if keep(x) then [x] else [])
  {
    assert (s + [x])[..|s + [x]| - 1] == s;
  }

  /** A table with no row in it is the empty table. */
  lemma NoMemberEmpty<T>(s: seq<T>)
    ensures (forall x :: x !in s) ==> s == []
  {
    if s != [] {
      assert s[0] in s;
    }
  }

  lemma SumOfSnoc<T>(s: seq<T>, x: T, v: T -> real)
    ensures SumOf(s + [x], v) == SumOf(s, v) + v(x)
  {
    assert (s + [x])[..|s + [x]| - 1] == s;
  }

  /** Summing the rows a filter keeps is summing every row with the others counted as 0. */
  lemma {:induction false} SumOfFilter<T(!new)>(s: seq<T>, keep: T -> bool, v: T -> real, w: T -> real)
    requires forall x :: x in s ==> w(x) == if keep(x) then v(x) else 0.0
    ensures SumOf(Filter(s, keep), v) == SumOf(s, w)
    decreases |s|
  {
    if s != [] {
      var init, last := s[..|s| - 1], s[|s| - 1];
      assert s == init + [last];
      assert forall x :: x in init ==> x in s;
      assert last in s;
      SumOfFilter(init, keep, v, w);
      FilterSnoc(init, last, keep);
      SumOfSnoc(init, last, w);
      if keep(last) {
        SumOfSnoc(Filter(init, keep), last, v);
      } else {
        assert Filter(s, keep) == Filter(init, keep);
      }
    }
  }

  /** Summing mapped rows is summing what each row maps to. */
  lemma {:induction false} SumOfMap<T, U>(s: seq<T>, f: T -> U, w: U -> real, v: T -> real)
    requires forall x :: x in s ==> w(f(x)) == v(x)
    ensures SumOf(Map(s, f), w) == SumOf(s, v)
    decreases |s|
  {
    if s != [] {
      var init := s[..|s| - 1];
      assert forall x :: x in init ==> x in s;
      assert Map(s, f)[..|s| - 1] == Map(init, f);
      SumOfMap(init, f, w, v);
    }
  }

  /** A sum of negated values is the negated sum. */
  lemma {:induction false} SumOfNegated<T>(s: seq<T>, v: T -> real, w: T -> real)
    requires forall x :: x in s ==> w(x) == -v(x)
    ensures SumOf(s, w) == -SumOf(s, v)
    decreases |s|
  {
    if s != [] {
      assert forall x :: x in s[..|s| - 1] ==> x in s;
      SumOfNegated(s[..|s| - 1], v, w);
    }
  }
}
