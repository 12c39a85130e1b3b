/**
 * Tables as sequences of records, and the pandas operations the pipeline
 * builds on, written as explicit functions: row filters (`df.loc[mask]`),
 * keep-first de-duplication (`drop_duplicates(subset=..., keep="first")`),
 * left and inner joins (`merge(how="left")`, `merge()`) and sorting
 * (`sort_values`).
 */
module Tables {
  import opened Wrappers

  /**
   * A pandas cell: missing (NaN/None), a string, or any other scalar (a
   * number, a timestamp, a geometry), which the model keeps opaque.
   * pandas treats two NaN keys as equal when it merges, de-duplicates or
   * tests `isin`; equality on `Cell` does the same with `Null`.
   */
  datatype Cell = Null | Text(text: string) | Other(code: int)

  // ---------------------------------------------------------------------------
  // Subsequences

  /** `a` can be obtained from `b` by deleting elements: order is kept. */
  predicate IsSubseq<T(==,!new)>(a: seq<T>, b: seq<T>)
    decreases |b|
  {
    if a == [] then true
    else if b == [] then false
    else (a[0] == b[0] && IsSubseq(a[1..], b[1..])) || IsSubseq(a, b[1..])
  }

  lemma {:induction false} SubseqMembers<T(!new)>(a: seq<T>, b: seq<T>)
    requires IsSubseq(a, b)
    ensures forall x :: x in a ==> x in b
    ensures |a| <= |b|
    decreases |b|
  {
    if a != [] {
      assert a == [a[0]] + a[1..] && b == [b[0]] + b[1..];
      if a[0] == b[0] && IsSubseq(a[1..], b[1..]) {
        SubseqMembers(a[1..], b[1..]);
      } else {
        SubseqMembers(a, b[1..]);
      }
    }
  }

  lemma {:induction false} SubseqRefl<T(!new)>(a: seq<T>)
    ensures IsSubseq(a, a)
    decreases |a|
  {
    if a != [] {
      SubseqRefl(a[1..]);
    }
  }

  /** Deleting elements twice is deleting elements once. */
  lemma {:induction false} SubseqTrans<T(!new)>(a: seq<T>, b: seq<T>, c: seq<T>)
    requires IsSubseq(a, b) && IsSubseq(b, c)
    ensures IsSubseq(a, c)
    decreases |c|, |b|
  {
    if a != [] {
      assert b != [] && c != [];
      if b[0] == c[0] && IsSubseq(b[1..], c[1..]) {
        if a[0] == b[0] && IsSubseq(a[1..], b[1..]) {
          SubseqTrans(a[1..], b[1..], c[1..]);
        } else {
          SubseqTrans(a, b[1..], c[1..]);
        }
      } else {
        SubseqTrans(a, b, c[1..]);
      }
    }
  }

  lemma {:induction false} SubseqOfEmpty<T(!new)>(a: seq<T>)
    requires IsSubseq(a, [])
    ensures a == []
  {
  }

  // ---------------------------------------------------------------------------
  // Row filters: `df.loc[mask]`

  /** The rows satisfying `p`, in their original order. */
  function Filter<T(==,!new)>(s: seq<T>, p: T -> bool): (r: seq<T>)
    ensures forall x :: x in r <==> x in s && p(x)
    ensures IsSubseq(r, s)
    decreases |s|
  {
    if s == [] then []
    else
      var rest := Filter(s[1..], p);
      assert s == [s[0]] + s[1..];
      if p(s[0]) then
        assert ([s[0]] + rest)[1..] == rest;
        [s[0]] + rest
      else
        rest
  }

  /** Filtering keeps every copy of a row that passes and none of one that fails. */
  lemma {:induction false} FilterCount<T(!new)>(s: seq<T>, p: T -> bool)
    ensures forall x :: multiset(Filter(s, p))[x] == if p(x) then multiset(s)[x] else 0
    decreases |s|
  {
    if s != [] {
      FilterCount(s[1..], p);
      assert s == [s[0]] + s[1..];
      assert multiset(s) == multiset{s[0]} + multiset(s[1..]);
    }
  }

  lemma {:induction false} FilterAppend<T(!new)>(a: seq<T>, b: seq<T>, p: T -> bool)
    ensures Filter(a + b, p) == Filter(a, p) + Filter(b, p)
    decreases |a|
  {
    if a != [] {
      assert (a + b)[1..] == a[1..] + b;
      assert (a + b)[0] == a[0];
      FilterAppend(a[1..], b, p);
    } else {
      assert a + b == b;
    }
  }

  /** Filtering by `p` then by `q` keeps the rows that satisfy both. */
  lemma {:induction false} FilterFilter<T(!new)>(s: seq<T>, p: T -> bool, q: T -> bool, pq: T -> bool)
    requires forall x :: pq(x) == (p(x) && q(x))
    ensures Filter(Filter(s, p), q) == Filter(s, pq)
    decreases |s|
  {
    if s != [] {
      FilterFilter(s[1..], p, q, pq);
    }
  }

  /** Filters by two predicates that agree everywhere are the same. */
  lemma {:induction false} FilterSame<T(!new)>(s: seq<T>, p: T -> bool, q: T -> bool)
    requires forall x :: p(x) == q(x)
    ensures Filter(s, p) == Filter(s, q)
    decreases |s|
  {
    if s != [] {
      FilterSame(s[1..], p, q);
    }
  }

  // ---------------------------------------------------------------------------
  // Keys

  /** The set of keys occurring in `s`. */
  function KeysOf<T(!new), K>(s: seq<T>, key: T -> K): set<K> {
    set i | 0 <= i < |s| :: key(s[i])
  }

  lemma KeysOfMember<T(!new), K>(s: seq<T>, key: T -> K, x: T)
    requires x in s
    ensures key(x) in KeysOf(s, key)
  {
    var i :| 0 <= i < |s| && s[i] == x;
  }

  lemma KeysOfCons<T(!new), K>(s: seq<T>, key: T -> K)
    requires s != []
    ensures KeysOf(s, key) == {key(s[0])} + KeysOf(s[1..], key)
  {
    assert forall i :: 0 < i < |s| ==> s[i] == s[1..][i - 1];
    forall k | k in KeysOf(s[1..], key) ensures k in KeysOf(s, key) {
      var i :| 0 <= i < |s[1..]| && key(s[1..][i]) == k;
      assert key(s[i + 1]) == k;
    }
  }

  /** Every row of a table with unique keys has a key no other row has. */
  lemma UniqueTail<T(!new), K>(s: seq<T>, key: T -> K)
    requires s != [] && UniqueBy(s, key)
    ensures UniqueBy(s[1..], key)
    ensures key(s[0]) !in KeysOf(s[1..], key)
  {
    forall k | k in KeysOf(s[1..], key) ensures k != key(s[0]) {
      var i :| 0 <= i < |s[1..]| && key(s[1..][i]) == k;
      assert s[1..][i] == s[i + 1];
    }
  }

  /** No two rows of `s` share a key. */
  predicate UniqueBy<T, K(==)>(s: seq<T>, key: T -> K) {
    forall i, j :: 0 <= i < j < |s| ==> key(s[i]) != key(s[j])
  }

  /** Deleting rows keeps keys unique. */
  lemma {:induction false} SubseqUnique<T(!new), K>(a: seq<T>, b: seq<T>, key: T -> K)
    requires IsSubseq(a, b) && UniqueBy(b, key)
    ensures UniqueBy(a, key)
    decreases |b|
  {
    if a != [] {
      UniqueTail(b, key);
      if a[0] == b[0] && IsSubseq(a[1..], b[1..]) {
        SubseqUnique(a[1..], b[1..], key);
        SubseqMembers(a[1..], b[1..]);
        forall j | 0 < j < |a| ensures key(a[0]) != key(a[j]) {
          assert a[j] == a[1..][j - 1];
          KeysOfMember(b[1..], key, a[j]);
        }
        forall i, j | 0 <= i < j < |a| ensures key(a[i]) != key(a[j]) {
          if i > 0 {
            assert a[i] == a[1..][i - 1] && a[j] == a[1..][j - 1];
          }
        }
      } else {
        SubseqUnique(a, b[1..], key);
      }
    }
  }

  /** Two key-unique tables with no key in common concatenate to a key-unique table. */
  lemma UniqueAppend<T(!new), K>(a: seq<T>, b: seq<T>, key: T -> K)
    requires UniqueBy(a, key) && UniqueBy(b, key)
    requires forall x, y :: x in a && y in b ==> key(x) != key(y)
    ensures UniqueBy(a + b, key)
  {
    forall i, j | 0 <= i < j < |a + b| ensures key((a + b)[i]) != key((a + b)[j]) {
      if j < |a| {
        assert (a + b)[i] == a[i] && (a + b)[j] == a[j];
      } else if i < |a| {
        assert (a + b)[i] == a[i] && (a + b)[j] == b[j - |a|];
      } else {
        assert (a + b)[i] == b[i - |a|] && (a + b)[j] == b[j - |a|];
      }
    }
  }

  /** The first row of `s` whose key is `k`, if any. */
  function First<T(==,!new), K(==)>(s: seq<T>, key: T -> K, k: K): (r: Option<T>)
    ensures r.Some? ==> r.value in s && key(r.value) == k
    ensures r.None? <==> k !in KeysOf(s, key)
    decreases |s|
  {
    if s == [] then None
    else if key(s[0]) == k then Some(s[0])
    else
      KeysOfCons(s, key);
      First(s[1..], key, k)
  }

  /** Filtering by a condition every row with key `k` meets keeps the first row with key `k`. */
  lemma {:induction false} FirstOfFilter<T(!new), K>(s: seq<T>, p: T -> bool, key: T -> K, k: K)
    requires forall x :: x in s && key(x) == k ==> p(x)
    ensures First(Filter(s, p), key, k) == First(s, key, k)
    decreases |s|
  {
    if s != [] {
      assert forall x :: x in s[1..] ==> x in s;
      FirstOfFilter(s[1..], p, key, k);
    }
  }

  /** A filter and its complement split the rows between them. */
  lemma {:induction false} FilterSplit<T(!new)>(s: seq<T>, p: T -> bool, q: T -> bool)
    requires forall x :: q(x) == !p(x)
    ensures |Filter(s, p)| + |Filter(s, q)| == |s|
    decreases |s|
  {
    if s != [] {
      FilterSplit(s[1..], p, q);
    }
  }

  /** The first row with a given key comes no later than any row with that key. */
  lemma {:induction false} FirstComesFirst<T(!new), K>(s: seq<T>, key: T -> K, j: int) returns (i: int)
    requires 0 <= j < |s|
    ensures 0 <= i <= j && First(s, key, key(s[j])) == Some(s[i])
    decreases |s|
  {
    if key(s[0]) == key(s[j]) {
      i := 0;
    } else {
      var i' := FirstComesFirst(s[1..], key, j - 1);
      assert s[1..][j - 1] == s[j];
      i := i' + 1;
    }
  }

  /** Prepending rows can only shadow keys they carry themselves. */
  lemma {:induction false} FirstAppend<T(!new), K>(a: seq<T>, b: seq<T>, key: T -> K, k: K)
    ensures First(a + b, key, k) == if k in KeysOf(a, key) then First(a, key, k) else First(b, key, k)
    decreases |a|
  {
    if a != [] {
      assert (a + b)[1..] == a[1..] + b;
      assert (a + b)[0] == a[0];
      KeysOfCons(a, key);
      FirstAppend(a[1..], b, key, k);
    } else {
      assert a + b == b;
    }
  }

  lemma {:induction false} KeysOfAppend<T(!new), K>(a: seq<T>, b: seq<T>, key: T -> K)
    ensures KeysOf(a + b, key) == KeysOf(a, key) + KeysOf(b, key)
  {
    forall k | k in KeysOf(a + b, key) ensures k in KeysOf(a, key) + KeysOf(b, key) {
      var i :| 0 <= i < |a + b| && key((a + b)[i]) == k;
      if i >= |a| {
        assert key(b[i - |a|]) == k;
      } else {
        assert key(a[i]) == k;
      }
    }
    forall k | k in KeysOf(a, key) ensures k in KeysOf(a + b, key) {
      var i :| 0 <= i < |a| && key(a[i]) == k;
      assert key((a + b)[i]) == k;
    }
    forall k | k in KeysOf(b, key) ensures k in KeysOf(a + b, key) {
      var i :| 0 <= i < |b| && key(b[i]) == k;
      assert key((a + b)[|a| + i]) == k;
    }
  }

  // ---------------------------------------------------------------------------
  // Keep-first de-duplication: `drop_duplicates(subset=key, keep="first")`

  function DedupAfter<T(==,!new), K(==)>(s: seq<T>, key: T -> K, seen: set<K>): (r: seq<T>)
    ensures IsSubseq(r, s)
    ensures UniqueBy(r, key)
    ensures KeysOf(r, key) == KeysOf(s, key) - seen
    ensures forall x :: x in r ==> First(s, key, key(x)) == Some(x)
    decreases |s|
  {
    if s == [] then []
    else
      var rest := DedupAfter(s[1..], key, if key(s[0]) in seen then seen else seen + {key(s[0])});
      KeysOfCons(s, key);
      SubseqMembers(rest, s[1..]);
      if key(s[0]) in seen then
        rest
      else
        var r := [s[0]] + rest;
        assert r[1..] == rest;
        KeysOfCons(r, key);
        assert forall x :: x in rest ==> key(x) != key(s[0]) by {
          forall x | x in rest ensures key(x) != key(s[0]) {
            KeysOfMember(rest, key, x);
          }
        }
        r
  }

  /** The first row for each key, in the original order. */
  function DedupBy<T(==,!new), K(==)>(s: seq<T>, key: T -> K): (r: seq<T>)
    ensures IsSubseq(r, s)
    ensures UniqueBy(r, key)
    ensures KeysOf(r, key) == KeysOf(s, key)
    ensures forall x :: x in r ==> First(s, key, key(x)) == Some(x)
  {
    DedupAfter(s, key, {})
  }

  /** A key's first row survives de-duplication. */
  lemma FirstSurvivesDedup<T(!new), K>(s: seq<T>, key: T -> K, k: K)
    requires k in KeysOf(s, key)
    ensures First(s, key, k).value in DedupBy(s, key)
  {
    var r := DedupBy(s, key);
    assert k in KeysOf(r, key);
    var i :| 0 <= i < |r| && key(r[i]) == k;
    assert r[i] in r;
  }

  /** De-duplicating does not change which row is first for a key. */
  lemma FirstOfDedup<T(!new), K>(s: seq<T>, key: T -> K, k: K)
    ensures First(DedupBy(s, key), key, k) == First(s, key, k)
  {
    var r := DedupBy(s, key);
    if k in KeysOf(s, key) {
      assert First(r, key, k).Some?;
      assert First(s, key, key(First(r, key, k).value)) == First(r, key, k);
    }
  }

  /** Distinct rows, first occurrences kept in order: `drop_duplicates()` / `unique()`. */
  function Distinct<T(==,!new)>(s: seq<T>): (r: seq<T>)
    ensures IsSubseq(r, s)
    ensures forall x :: x in r <==> x in s
    ensures forall i, j :: 0 <= i < j < |r| ==> r[i] != r[j]
  {
    var r := DedupBy(s, x => x);
    assert forall x :: x in s ==> x in KeysOf(s, x => x) by {
      forall x | x in s ensures x in KeysOf(s, y => y) {
        var i :| 0 <= i < |s| && s[i] == x;
      }
    }
    assert forall x :: x in KeysOf(r, x => x) ==> x in r;
    SubseqMembers(r, s);
    r
  }

  // ---------------------------------------------------------------------------
  // Joins: `merge(how="left")` and `merge()`

  /** The rows of `right` whose key is `k`, in order. */
  function Matches<R(==,!new), K(==)>(right: seq<R>, rk: R -> K, k: K): (m: seq<R>)
    ensures forall r :: r in m <==> r in right && rk(r) == k
    ensures m == [] <==> k !in KeysOf(right, rk)
    ensures UniqueBy(right, rk) ==> m == if First(right, rk, k).Some? then [First(right, rk, k).value] else []
    decreases |right|
  {
    if right == [] then []
    else
      var rest := Matches(right[1..], rk, k);
      KeysOfCons(right, rk);
      if UniqueBy(right, rk) then
        UniqueTail(right, rk);
        if rk(right[0]) == k then [right[0]] + rest else rest
      else
        if rk(right[0]) == k then [right[0]] + rest else rest
  }

  /**
   * `left.merge(right, left_on=lk, right_on=rk, how="left")`: every left row,
   * in order, once per matching right row (in right order), or once with no
   * match.
   */
  function LeftJoin<L(==,!new), R(==,!new), K(==)>(left: seq<L>, right: seq<R>, lk: L -> K, rk: R -> K): (out: seq<(L, Option<R>)>)
    ensures forall o :: o in out ==> o.0 in left && (o.1.Some? ==> o.1.value in right && rk(o.1.value) == lk(o.0))
    ensures forall o :: o in out && o.1.None? ==> lk(o.0) !in KeysOf(right, rk)
    decreases |left|
  {
    if left == [] then []
    else
      var m := Matches(right, rk, lk(left[0]));
      var here := if m == [] then [(left[0], None)] else seq(|m|, i requires 0 <= i < |m| => (left[0], Some(m[i])));
      assert forall o :: o in here ==> o.0 == left[0] && (o.1.Some? ==> o.1.value in m);
      here + LeftJoin(left[1..], right, lk, rk)
  }

  /** When right keys are unique, a left join pairs each left row with its one match. */
  lemma {:induction false} LeftJoinUnique<L(!new), R(!new), K>(left: seq<L>, right: seq<R>, lk: L -> K, rk: R -> K)
    requires UniqueBy(right, rk)
    ensures |LeftJoin(left, right, lk, rk)| == |left|
    ensures forall i :: 0 <= i < |left| ==> LeftJoin(left, right, lk, rk)[i] == (left[i], First(right, rk, lk(left[i])))
    decreases |left|
  {
    if left != [] {
      var rest := LeftJoin(left[1..], right, lk, rk);
      LeftJoinUnique(left[1..], right, lk, rk);
      var head := (left[0], First(right, rk, lk(left[0])));
      assert LeftJoin(left, right, lk, rk) == [head] + rest;
      forall i | 0 < i < |left| ensures ([head] + rest)[i] == (left[i], First(right, rk, lk(left[i]))) {
        assert left[i] == left[1..][i - 1];
      }
    }
  }

  /** A left row with no match in `right` appears once, with no partner. */
  lemma {:induction false} LeftJoinMiss<L(!new), R(!new), K>(left: seq<L>, right: seq<R>, lk: L -> K, rk: R -> K, l: L)
    requires l in left && lk(l) !in KeysOf(right, rk)
    ensures (l, None) in LeftJoin(left, right, lk, rk)
    decreases |left|
  {
    if left[0] != l {
      LeftJoinMiss(left[1..], right, lk, rk, l);
    }
  }

  /** A left row is paired with each right row that shares its key. */
  lemma {:induction false} LeftJoinHit<L(!new), R(!new), K>(left: seq<L>, right: seq<R>, lk: L -> K, rk: R -> K, l: L, r: R)
    requires l in left && r in right && rk(r) == lk(l)
    ensures (l, Some(r)) in LeftJoin(left, right, lk, rk)
    decreases |left|
  {
    if left[0] != l {
      LeftJoinHit(left[1..], right, lk, rk, l, r);
    } else {
      var m := Matches(right, rk, lk(l));
      var i :| 0 <= i < |m| && m[i] == r;
      var here := seq(|m|, i requires 0 <= i < |m| => (left[0], Some(m[i])));
      assert here[i] == (l, Some(r));
      assert LeftJoin(left, right, lk, rk) == here + LeftJoin(left[1..], right, lk, rk);
    }
  }

  /** `left.merge(right, left_on=lk, right_on=rk)`: only the pairs that share a key. */
  function InnerJoin<L(==,!new), R(==,!new), K(==)>(left: seq<L>, right: seq<R>, lk: L -> K, rk: R -> K): (out: seq<(L, R)>)
    ensures forall o :: o in out ==> o.0 in left && o.1 in right && rk(o.1) == lk(o.0)
    decreases |left|
  {
    if left == [] then []
    else Pairs(left[0], right, lk, rk) + InnerJoin(left[1..], right, lk, rk)
  }

  /** The pairs one left row contributes to an inner join: one per matching right row. */
  function Pairs<L, R(==,!new), K(==)>(l: L, right: seq<R>, lk: L -> K, rk: R -> K): (ps: seq<(L, R)>)
    ensures forall o :: o in ps ==> o.0 == l && o.1 in right && rk(o.1) == lk(l)
  {
    var m := Matches(right, rk, lk(l));
    seq(|m|, i requires 0 <= i < |m| => (l, m[i]))
  }

  /** Against unique keys, a left row contributes itself once if its key occurs on the right, else nothing. */
  lemma PairsUnique<L, R(!new), K>(l: L, right: seq<R>, lk: L -> K, rk: R -> K)
    requires UniqueBy(right, rk)
    ensures Lefts(Pairs(l, right, lk, rk)) == if lk(l) in KeysOf(right, rk) then [l] else []
  {
  }

  lemma LeftsAppend<L, R>(a: seq<(L, R)>, b: seq<(L, R)>)
    ensures Lefts(a + b) == Lefts(a) + Lefts(b)
  {
  }

  /** The left rows of a list of pairs. */
  function Lefts<L, R>(pairs: seq<(L, R)>): (ls: seq<L>)
    ensures |ls| == |pairs|
    ensures forall i :: 0 <= i < |pairs| ==> ls[i] == pairs[i].0
  {
    seq(|pairs|, i requires 0 <= i < |pairs| => pairs[i].0)
  }

  /** With unique keys, a row is the first (and only) one carrying its key. */
  lemma FirstOfUnique<T(!new), K>(s: seq<T>, key: T -> K, x: T)
    requires UniqueBy(s, key) && x in s
    ensures First(s, key, key(x)) == Some(x)
  {
    var j :| 0 <= j < |s| && s[j] == x;
    var i := FirstComesFirst(s, key, j);
  }

  /**
   * Against a right side with unique keys, an inner join keeps, in order,
   * exactly the left rows whose key occurs on the right, each paired with
   * its one match.
   */
  lemma InnerJoinUnique<L(!new), R(!new), K>(left: seq<L>, right: seq<R>, lk: L -> K, rk: R -> K, matched: L -> bool)
    requires UniqueBy(right, rk)
    requires forall l :: matched(l) == (lk(l) in KeysOf(right, rk))
    ensures Lefts(InnerJoin(left, right, lk, rk)) == Filter(left, matched)
    ensures forall o :: o in InnerJoin(left, right, lk, rk) ==> First(right, rk, lk(o.0)) == Some(o.1)
  {
    InnerJoinLefts(left, right, lk, rk, matched);
    forall o | o in InnerJoin(left, right, lk, rk) ensures First(right, rk, lk(o.0)) == Some(o.1) {
      FirstOfUnique(right, rk, o.1);
    }
  }

  lemma {:induction false} InnerJoinLefts<L(!new), R(!new), K>(left: seq<L>, right: seq<R>, lk: L -> K, rk: R -> K, matched: L -> bool)
    requires UniqueBy(right, rk)
    requires forall l :: matched(l) == (lk(l) in KeysOf(right, rk))
    ensures Lefts(InnerJoin(left, right, lk, rk)) == Filter(left, matched)
    decreases |left|
  {
    if left != [] {
      InnerJoinLefts(left[1..], right, lk, rk, matched);
      LeftsAppend(Pairs(left[0], right, lk, rk), InnerJoin(left[1..], right, lk, rk));
      PairsUnique(left[0], right, lk, rk);
    }
  }

  // ---------------------------------------------------------------------------
  // Sorting: `sort_values`

  /** `le` orders any two values, transitively (ties allowed). */
  ghost predicate TotalPreorder<T(!new)>(le: (T, T) -> bool) {
    (forall a, b :: le(a, b) || le(b, a)) &&
    (forall a, b, c :: le(a, b) && le(b, c) ==> le(a, c))
  }

  predicate SortedBy<T(!new)>(s: seq<T>, le: (T, T) -> bool) {
    forall i, j :: 0 <= i < j < |s| ==> le(s[i], s[j])
  }

  function InsertBy<T(!new)>(x: T, s: seq<T>, le: (T, T) -> bool): (r: seq<T>)
    ensures multiset(r) == multiset(s) + multiset{x}
    ensures |r| == |s| + 1
    decreases |s|
  {
    if s == [] then [x]
    else if le(x, s[0]) then
      assert s == [s[0]] + s[1..];
      [x] + s
    else
      assert s == [s[0]] + s[1..];
      [s[0]] + InsertBy(x, s[1..], le)
  }

  lemma {:induction false} InsertSorted<T(!new)>(x: T, s: seq<T>, le: (T, T) -> bool)
    requires TotalPreorder(le) && SortedBy(s, le)
    ensures SortedBy(InsertBy(x, s, le), le)
    decreases |s|
  {
    if s != [] && !le(x, s[0]) {
      InsertSorted(x, s[1..], le);
      var rest := InsertBy(x, s[1..], le);
      assert le(s[0], x);
      forall y | y in rest ensures le(s[0], y) {
        assert y in multiset(rest);
        if y != x {
          assert y in s[1..];
        }
      }
      PrependSorted(s[0], rest, le);
    } else if s != [] {
      forall y | y in s ensures le(x, y) {
        var j :| 0 <= j < |s| && s[j] == y;
        if j > 0 {
          assert le(x, s[0]) && le(s[0], s[j]);
        }
      }
      PrependSorted(x, s, le);
    }
  }

  /** A sorted sequence stays sorted under a new head that comes before all of it. */
  lemma PrependSorted<T(!new)>(a: T, s: seq<T>, le: (T, T) -> bool)
    requires SortedBy(s, le)
    requires forall y :: y in s ==> le(a, y)
    ensures SortedBy([a] + s, le)
  {
    var r := [a] + s;
    forall i, j | 0 <= i < j < |r| ensures le(r[i], r[j]) {
      if i == 0 {
        assert r[j] == s[j - 1];
      } else {
        assert r[i] == s[i - 1] && r[j] == s[j - 1];
      }
    }
  }

  /** A stable insertion sort: rows that compare equal keep their order. */
  function SortBy<T(!new)>(s: seq<T>, le: (T, T) -> bool): (r: seq<T>)
    requires TotalPreorder(le)
    ensures SortedBy(r, le)
    ensures multiset(r) == multiset(s)
    ensures |r| == |s|
    decreases |s|
  {
    if s == [] then []
    else
      assert s == [s[0]] + s[1..];
      var rest := SortBy(s[1..], le);
      InsertSorted(s[0], rest, le);
      InsertBy(s[0], rest, le)
  }
}
