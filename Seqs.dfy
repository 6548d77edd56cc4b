/**
 * The array operations the components are built from: `filter`, a summing
 * `reduce`, the distinct values of a `Set` in insertion order, a sort by a
 * text field, and the grouping `reduce` that fills a dictionary.
 */
module Seqs {

  /** `r` keeps some of the elements of `s`, in the order `s` has them. */
  ghost predicate IsSubsequence<T(!new)>(r: seq<T>, s: seq<T>)
    decreases |s|
  {
    if r == [] then true
    else if s == [] then false
    else (r[0] == s[0] && IsSubsequence(r[1..], s[1..])) || IsSubsequence(r, s[1..])
  }

  predicate NoDuplicates<T(==)>(s: seq<T>) {
    forall i, j :: 0 <= i < j < |s| ==> s[i] != s[j]
  }

  /** A duplicate-free sequence holds each value at most once. */
  lemma {:induction false} NoDuplicatesMultiset<T(!new)>(s: seq<T>)
    ensures NoDuplicates(s) <==> forall x :: multiset(s)[x] <= 1
  {
    if s != [] {
      var t := s[1..];
      NoDuplicatesMultiset(t);
      assert s == [s[0]] + t;
      if NoDuplicates(s) {
        assert NoDuplicates(t) by {
          forall i, j | 0 <= i < j < |t| ensures t[i] != t[j] {
            assert t[i] == s[i + 1] && t[j] == s[j + 1];
          }
        }
        assert forall j :: 0 <= j < |t| ==> t[j] == s[j + 1];
        assert s[0] !in t;
      }
      if forall x :: multiset(s)[x] <= 1 {
        assert forall x :: multiset(t)[x] <= 1 by {
          forall x ensures multiset(t)[x] <= 1 {
            assert multiset(s)[x] == multiset(t)[x] + if x == s[0] then 1 else 0;
          }
        }
        assert multiset(s)[s[0]] == multiset(t)[s[0]] + 1;
        assert s[0] !in t;
        forall i, j | 0 <= i < j < |s| ensures s[i] != s[j] {
          assert s[j] == t[j - 1];
          if i > 0 {
            assert s[i] == t[i - 1];
          }
        }
      }
    }
  }

  /** Reordering keeps a sequence duplicate-free. */
  lemma NoDuplicatesPermutation<T(!new)>(a: seq<T>, b: seq<T>)
    requires multiset(a) == multiset(b) && NoDuplicates(a)
    ensures NoDuplicates(b)
  {
    NoDuplicatesMultiset(a);
    NoDuplicatesMultiset(b);
  }

  /** A duplicate-free sequence has as many elements as the set of its values. */
  lemma {:induction false} DistinctCount<T(!new)>(s: seq<T>)
    requires NoDuplicates(s)
    ensures |set x | x in s| == |s|
  {
    if s != [] {
      var t := s[1..];
      assert NoDuplicates(t) by {
        forall i, j | 0 <= i < j < |t| ensures t[i] != t[j] {
          assert t[i] == s[i + 1] && t[j] == s[j + 1];
        }
      }
      DistinctCount(t);
      assert forall j :: 0 <= j < |t| ==> t[j] == s[j + 1];
      assert s[0] !in t;
      assert s == [s[0]] + t;
      assert (set x | x in s) == (set x | x in t) + {s[0]};
    }
  }

  /** `s.filter(p)`: the elements satisfying `p`, in order. */
  function Filter<T(!new)>(s: seq<T>, p: T -> bool): (r: seq<T>)
    ensures |r| <= |s|
    ensures forall x :: x in r <==> x in s && p(x)
  {
    if s == [] then []
    else
      var rest := Filter(s[1..], p);
      if p(s[0]) then [s[0]] + rest else rest
  }

  /** The filter keeps the elements in their order and drops no satisfying one: each value
      satisfying `p` occurs in the result as often as in `s`, every other value not at all. */
  lemma {:induction false} FilterExact<T(!new)>(s: seq<T>, p: T -> bool)
    ensures IsSubsequence(Filter(s, p), s)
    ensures forall x :: multiset(Filter(s, p))[x] == if p(x) then multiset(s)[x] else 0
  {
    if s != [] {
      FilterExact(s[1..], p);
      assert s == [s[0]] + s[1..];
      var rest := Filter(s[1..], p);
      if p(s[0]) {
        assert Filter(s, p) == [s[0]] + rest;
        assert Filter(s, p)[1..] == rest;
      }
    }
  }

  lemma FilterCons<T(!new)>(x: T, t: seq<T>, p: T -> bool)
    ensures Filter([x] + t, p) == (if p(x) then [x] else []) + Filter(t, p)
  {
    assert ([x] + t)[0] == x && ([x] + t)[1..] == t;
  }

  lemma {:induction false} FilterAppend<T(!new)>(a: seq<T>, b: seq<T>, p: T -> bool)
    ensures Filter(a + b, p) == Filter(a, p) + Filter(b, p)
  {
    if a == [] {
      assert a + b == b;
    } else {
      var h := if p(a[0]) then [a[0]] else [];
      calc {
        Filter(a + b, p);
        == { assert a + b == [a[0]] + (a[1..] + b); FilterCons(a[0], a[1..] + b, p); }
        h + Filter(a[1..] + b, p);
        == { FilterAppend(a[1..], b, p); }
        h + (Filter(a[1..], p) + Filter(b, p));
        == (h + Filter(a[1..], p)) + Filter(b, p);
        == { assert a == [a[0]] + a[1..]; FilterCons(a[0], a[1..], p); }
        Filter(a, p) + Filter(b, p);
      }
    }
  }

  lemma FilterAppendOne<T(!new)>(a: seq<T>, x: T, p: T -> bool)
    ensures Filter(a + [x], p) == Filter(a, p) + if p(x) then [x] else []
  {
    FilterAppend(a, [x], p);
  }

  /** Nothing passes a filter that no element satisfies. */
  lemma {:induction false} FilterNone<T(!new)>(s: seq<T>, p: T -> bool)
    requires forall x :: x in s ==> !p(x)
    ensures Filter(s, p) == []
  {
    if s != [] {
      FilterNone(s[1..], p);
    }
  }

  lemma {:induction false} FilterAll<T(!new)>(s: seq<T>, p: T -> bool)
    requires forall x :: x in s ==> p(x)
    ensures Filter(s, p) == s
  {
    if s != [] {
      FilterAll(s[1..], p);
      assert s == [s[0]] + s[1..];
    }
  }

  /** Two predicates that agree everywhere filter alike. */
  lemma {:induction false} FilterSame<T(!new)>(s: seq<T>, p: T -> bool, q: T -> bool)
    requires forall x :: p(x) == q(x)
    ensures Filter(s, p) == Filter(s, q)
  {
    if s != [] {
      FilterSame(s[1..], p, q);
    }
  }

  /** Filtering by a narrower predicate keeps no more elements. */
  lemma {:induction false} FilterNarrower<T(!new)>(s: seq<T>, p: T -> bool, q: T -> bool)
    requires forall x :: p(x) ==> q(x)
    ensures |Filter(s, p)| <= |Filter(s, q)|
  {
    if s != [] {
      FilterNarrower(s[1..], p, q);
    }
  }

  /** A sequence is a subsequence of itself. */
  lemma {:induction false} SubsequenceRefl<T(!new)>(s: seq<T>)
    ensures IsSubsequence(s, s)
  {
    if s != [] {
      SubsequenceRefl(s[1..]);
    }
  }

  /** `s.reduce((sum, x) => sum + w(x), 0)`. */
  function SumBy<T(!new)>(s: seq<T>, w: T -> int): int {
    if s == [] then 0 else w(s[0]) + SumBy(s[1..], w)
  }

  lemma {:induction false} SumByAppend<T(!new)>(a: seq<T>, b: seq<T>, w: T -> int)
    ensures SumBy(a + b, w) == SumBy(a, w) + SumBy(b, w)
  {
    if a == [] {
      assert a + b == b;
    } else {
      assert (a + b)[0] == a[0] && (a + b)[1..] == a[1..] + b;
      SumByAppend(a[1..], b, w);
    }
  }

  /** Summing weight one over a sequence counts it. */
  lemma {:induction false} SumByOnes<T(!new)>(s: seq<T>, w: T -> int)
    requires forall x :: w(x) == 1
    ensures SumBy(s, w) == |s|
  {
    if s != [] {
      SumByOnes(s[1..], w);
    }
  }

  /** Replacing one element changes the sum by the difference of the two weights. */
  lemma {:induction false} SumByUpdate<T(!new)>(s: seq<T>, i: nat, x: T, w: T -> int)
    requires i < |s|
    ensures SumBy(s[i := x], w) == SumBy(s, w) - w(s[i]) + w(x)
  {
    if i == 0 {
      assert s[i := x][1..] == s[1..];
    } else {
      assert s[i := x][1..] == s[1..][i - 1 := x];
      SumByUpdate(s[1..], i - 1, x, w);
    }
  }

  /** Non-negative weights have a non-negative sum. */
  lemma {:induction false} SumByNonNegative<T(!new)>(s: seq<T>, w: T -> int)
    requires forall x :: x in s ==> w(x) >= 0
    ensures SumBy(s, w) >= 0
  {
    if s != [] {
      SumByNonNegative(s[1..], w);
    }
  }

  /** Splitting a sequence by a predicate and its negation splits its sum. */
  lemma {:induction false} SumByFilterSplit<T(!new)>(s: seq<T>, p: T -> bool, q: T -> bool, w: T -> int)
    requires forall x :: q(x) == !p(x)
    ensures SumBy(Filter(s, p), w) + SumBy(Filter(s, q), w) == SumBy(s, w)
  {
    if s != [] {
      SumByFilterSplit(s[1..], p, q, w);
    }
  }

  /** Same for the lengths of the two parts. */
  lemma {:induction false} FilterSplitLength<T(!new)>(s: seq<T>, p: T -> bool, q: T -> bool)
    requires forall x :: q(x) == !p(x)
    ensures |Filter(s, p)| + |Filter(s, q)| == |s|
  {
    if s != [] {
      FilterSplitLength(s[1..], p, q);
    }
  }

  /** Splitting the elements that satisfy `p` by a further predicate splits their number. */
  lemma {:induction false} FilterSplitWithin<T(!new)>(s: seq<T>, p: T -> bool, q: T -> bool, r: T -> bool)
    requires forall x :: q(x) == (p(x) && !r(x))
    requires forall x :: r(x) ==> p(x)
    ensures |Filter(s, q)| + |Filter(s, r)| == |Filter(s, p)|
  {
    if s != [] {
      FilterSplitWithin(s[1..], p, q, r);
    }
  }

  /** A sum does not depend on the order of the summands. */
  lemma {:induction false} SumByPermutation<T(!new)>(a: seq<T>, b: seq<T>, w: T -> int)
    requires multiset(a) == multiset(b)
    ensures SumBy(a, w) == SumBy(b, w)
    decreases |a|
  {
    if a == [] {
      assert |b| == |multiset(b)| == 0;
    } else {
      var x := a[0];
      assert x in multiset(b);
      var j :| 0 <= j < |b| && b[j] == x;
      var rest := b[..j] + b[j + 1..];
      assert b == b[..j] + [x] + b[j + 1..];
      assert a == [x] + a[1..];
      assert multiset(a) == multiset{x} + multiset(a[1..]);
      assert multiset(b) == multiset(b[..j]) + multiset{x} + multiset(b[j + 1..]);
      assert multiset(rest) == multiset(b[..j]) + multiset(b[j + 1..]);
      assert multiset(a[1..]) == multiset(a) - multiset{x};
      assert multiset(rest) == multiset(b) - multiset{x};
      SumByPermutation(a[1..], rest, w);
      SumByAppend(b[..j] + [x], b[j + 1..], w);
      SumByAppend(b[..j], [x], w);
      SumByAppend(b[..j], b[j + 1..], w);
    }
  }

  // ---- Distinct values in first-appearance order ----

  /** The distinct `key` values of `s` in order of first appearance: what iterating a
      `Set` or the keys of a dictionary filled from `s` yields. */
  function KeysInOrder<T(!new), K(==,!new)>(s: seq<T>, key: T -> K): (ks: seq<K>)
    ensures NoDuplicates(ks)
    ensures forall k :: k in ks <==> exists x :: x in s && key(x) == k
    ensures |ks| <= |s|
  {
    if s == [] then []
    else
      var init := KeysInOrder(s[..|s| - 1], key);
      var x := s[|s| - 1];
      assert s == s[..|s| - 1] + [x];
      if key(x) in init then init else init + [key(x)]
  }

  /** Some element with key `k1` comes before every element with key `k2`. */
  ghost predicate SeenBefore<T(!new), K(!new)>(s: seq<T>, key: T -> K, k1: K, k2: K) {
    exists a :: 0 <= a < |s| && key(s[a]) == k1 && forall b :: 0 <= b <= a ==> key(s[b]) != k2
  }

  /** The keys come in order of first appearance: an earlier key occurs in `s` before any
      element carrying a later key. */
  lemma {:induction false} KeysInOrderFirstSeen<T(!new), K(!new)>(s: seq<T>, key: T -> K)
    ensures forall i, j :: 0 <= i < j < |KeysInOrder(s, key)| ==>
      SeenBefore(s, key, KeysInOrder(s, key)[i], KeysInOrder(s, key)[j])
  {
    if s != [] {
      var t, x := s[..|s| - 1], s[|s| - 1];
      KeysInOrderFirstSeen(t, key);
      var init := KeysInOrder(t, key);
      var ks := KeysInOrder(s, key);
      assert s == t + [x];
      assert ks == if key(x) in init then init else init + [key(x)];
      forall i, j | 0 <= i < j < |ks|
        ensures SeenBefore(s, key, ks[i], ks[j])
      {
        if j < |init| {
          assert ks[i] == init[i] && ks[j] == init[j];
          assert SeenBefore(t, key, init[i], init[j]);
          var a :| 0 <= a < |t| && key(t[a]) == init[i] && forall b :: 0 <= b <= a ==> key(t[b]) != init[j];
          assert forall b :: 0 <= b <= a ==> s[b] == t[b];
          assert key(s[a]) == ks[i];
        } else {
          assert ks == init + [key(x)] && key(x) !in init;
          assert init[i] in init;
          var y :| y in t && key(y) == init[i];
          var a :| 0 <= a < |t| && t[a] == y;
          forall b | 0 <= b <= a ensures key(s[b]) != ks[j] {
            assert s[b] == t[b] && t[b] in t;
          }
          assert key(s[a]) == ks[i];
        }
      }
    }
  }

  /** The predicate "has key `k`". */
  function KeyIs<T(!new), K(==,!new)>(key: T -> K, k: K): T -> bool {
    x => key(x) == k
  }

  /** Sum over the keys `ks` of the weight of the elements of `s` carrying that key. */
  function SumOverKeys<T(!new), K(==,!new)>(ks: seq<K>, s: seq<T>, key: T -> K, w: T -> int): int {
    if ks == [] then 0 else SumBy(Filter(s, KeyIs(key, ks[0])), w) + SumOverKeys(ks[1..], s, key, w)
  }

  lemma {:induction false} SumOverKeysCons<T(!new), K(!new)>(ks: seq<K>, x: T, t: seq<T>, key: T -> K, w: T -> int)
    requires NoDuplicates(ks)
    ensures SumOverKeys(ks, [x] + t, key, w) == SumOverKeys(ks, t, key, w) + if key(x) in ks then w(x) else 0
  {
    if ks != [] {
      var k := ks[0];
      var f := Filter(t, KeyIs(key, k));
      FilterCons(x, t, KeyIs(key, k));
      if key(x) == k {
        assert ([x] + f)[0] == x && ([x] + f)[1..] == f;
        assert key(x) !in ks[1..];
      }
      SumOverKeysCons(ks[1..], x, t, key, w);
    }
  }

  /** Grouping by key loses and duplicates nothing: summed over a duplicate-free list of
      keys that covers every element, the groups' weights add up to the whole. */
  lemma {:induction false} GroupsPartitionSum<T(!new), K(!new)>(ks: seq<K>, s: seq<T>, key: T -> K, w: T -> int)
    requires NoDuplicates(ks)
    requires forall x :: x in s ==> key(x) in ks
    ensures SumOverKeys(ks, s, key, w) == SumBy(s, w)
  {
    if s == [] {
      ZeroOverKeys(ks, key, w);
    } else {
      assert s == [s[0]] + s[1..];
      GroupsPartitionSum(ks, s[1..], key, w);
      SumOverKeysCons(ks, s[0], s[1..], key, w);
    }
  }

  lemma {:induction false} ZeroOverKeys<T(!new), K(!new)>(ks: seq<K>, key: T -> K, w: T -> int)
    ensures SumOverKeys(ks, [], key, w) == 0
  {
    if ks != [] {
      ZeroOverKeys(ks[1..], key, w);
    }
  }

  // ---- Text order and sorting ----

  /** Code-unit lexicographic order on text. */
  predicate StrLe(a: string, b: string) {
    if a == [] then true
    else if b == [] then false
    else if a[0] != b[0] then a[0] < b[0]
    else StrLe(a[1..], b[1..])
  }

  lemma {:induction false} StrLeTotal(a: string, b: string)
    ensures StrLe(a, b) || StrLe(b, a)
  {
    if a != [] && b != [] && a[0] == b[0] {
      StrLeTotal(a[1..], b[1..]);
    }
  }

  lemma {:induction false} StrLeTrans(a: string, b: string, c: string)
    requires StrLe(a, b) && StrLe(b, c)
    ensures StrLe(a, c)
  {
    if a != [] && b != [] && c != [] && a[0] == b[0] && b[0] == c[0] {
      StrLeTrans(a[1..], b[1..], c[1..]);
    }
  }

  lemma {:induction false} StrLeAntisym(a: string, b: string)
    requires StrLe(a, b) && StrLe(b, a)
    ensures a == b
  {
    if a != [] && b != [] {
      StrLeAntisym(a[1..], b[1..]);
      assert a == [a[0]] + a[1..] && b == [b[0]] + b[1..];
    }
  }

  /** Ordered by `field`, greatest text first. */
  ghost predicate SortedDesc<T(!new)>(s: seq<T>, field: T -> string) {
    forall i, j :: 0 <= i < j < |s| ==> StrLe(field(s[j]), field(s[i]))
  }

  /** Puts `x` into a descending sequence in front of the first element not greater than it. */
  function InsertDesc<T>(x: T, s: seq<T>, field: T -> string): seq<T> {
    if s == [] then [x]
    else if StrLe(field(s[0]), field(x)) then [x] + s
    else [s[0]] + InsertDesc(x, s[1..], field)
  }

  /** An element no smaller than every element of a sorted sequence can go in front of it. */
  lemma ConsSortedDesc<T(!new)>(h: T, s: seq<T>, field: T -> string)
    requires SortedDesc(s, field)
    requires forall y :: y in multiset(s) ==> StrLe(field(y), field(h))
    ensures SortedDesc([h] + s, field)
  {
    assert forall j :: 0 <= j < |s| ==> s[j] in multiset(s);
    assert forall j :: 0 < j <= |s| ==> ([h] + s)[j] == s[j - 1];
  }

  lemma {:induction false} InsertDescSorted<T(!new)>(x: T, s: seq<T>, field: T -> string)
    requires SortedDesc(s, field)
    ensures multiset(InsertDesc(x, s, field)) == multiset(s) + multiset{x}
    ensures SortedDesc(InsertDesc(x, s, field), field)
  {
    if s == [] {
    } else if StrLe(field(s[0]), field(x)) {
      forall y | y in multiset(s) ensures StrLe(field(y), field(x)) {
        var j :| 0 <= j < |s| && s[j] == y;
        if j > 0 { StrLeTrans(field(s[j]), field(s[0]), field(x)); }
      }
      ConsSortedDesc(x, s, field);
    } else {
      InsertDescSorted(x, s[1..], field);
      var rest := InsertDesc(x, s[1..], field);
      assert s == [s[0]] + s[1..];
      forall y | y in multiset(rest) ensures StrLe(field(y), field(s[0])) {
        if y == x { StrLeTotal(field(x), field(s[0])); }
        else { assert y in multiset(s[1..]); }
      }
      assert SortedDesc(s[1..], field);
      ConsSortedDesc(s[0], rest, field);
    }
  }

  /** `s.sort((a, b) => field(b).localeCompare(field(a)))` for texts that compare by code unit. */
  function SortDesc<T>(s: seq<T>, field: T -> string): seq<T> {
    if s == [] then [] else InsertDesc(s[0], SortDesc(s[1..], field), field)
  }

  /** The sort puts the same elements in descending order. */
  lemma {:induction false} SortDescSorted<T(!new)>(s: seq<T>, field: T -> string)
    ensures multiset(SortDesc(s, field)) == multiset(s)
    ensures SortedDesc(SortDesc(s, field), field)
  {
    if s != [] {
      SortDescSorted(s[1..], field);
      InsertDescSorted(s[0], SortDesc(s[1..], field), field);
      assert s == [s[0]] + s[1..];
    }
  }

  // ---- Grouping into a dictionary ----

  lemma KeysInOrderSnoc<T(!new), K(!new)>(s: seq<T>, x: T, key: T -> K)
    ensures KeysInOrder(s + [x], key)
         == if key(x) in KeysInOrder(s, key) then KeysInOrder(s, key) else KeysInOrder(s, key) + [key(x)]
  {
    assert (s + [x])[..|s|] == s;
  }

  /** `keys` and `groups` are the dictionary built from `prefix`. */
  ghost predicate GroupsOf<T(!new), K(!new)>(prefix: seq<T>, key: T -> K, keys: seq<K>, groups: map<K, seq<T>>) {
    && keys == KeysInOrder(prefix, key)
    && (forall k :: k in groups <==> k in keys)
    && (forall k :: k in groups ==> groups[k] == Filter(prefix, KeyIs(key, k)))
  }

  /** One step of the `reduce`: `acc[k]` is created if missing, and `x` is pushed onto it. */
  lemma GroupStep<T(!new), K(!new)>(s: seq<T>, i: nat, key: T -> K, keys: seq<K>, groups: map<K, seq<T>>)
    requires i < |s|
    requires GroupsOf(s[..i], key, keys, groups)
    ensures var k := key(s[i]);
      GroupsOf(s[..i + 1], key,
               if k in groups then keys else keys + [k],
               groups[k := if k in groups then groups[k] + [s[i]] else [s[i]]])
  {
    var prefix, x := s[..i], s[i];
    assert s[..i + 1] == prefix + [x];
    if key(x) in groups {
      GroupAppend(prefix, x, key, keys, groups);
    } else {
      GroupCreate(prefix, x, key, keys, groups);
    }
  }

  /** An element whose key has an entry is pushed onto that entry. */
  lemma GroupAppend<T(!new), K(!new)>(prefix: seq<T>, x: T, key: T -> K, keys: seq<K>, groups: map<K, seq<T>>)
    requires GroupsOf(prefix, key, keys, groups) && key(x) in groups
    ensures GroupsOf(prefix + [x], key, keys, groups[key(x) := groups[key(x)] + [x]])
  {
    KeysInOrderSnoc(prefix, x, key);
    assert key(x) in keys;
    var groups' := groups[key(x) := groups[key(x)] + [x]];
    EntriesStep(prefix, x, key, groups, groups[key(x)] + [x]);
    assert forall k :: k in groups' <==> k in keys;
    GroupsOfIntro(prefix + [x], key, keys, groups');
  }

  lemma GroupsOfIntro<T(!new), K(!new)>(prefix: seq<T>, key: T -> K, keys: seq<K>, groups: map<K, seq<T>>)
    requires keys == KeysInOrder(prefix, key)
    requires forall k :: k in groups <==> k in keys
    requires forall k :: k in groups ==> groups[k] == Filter(prefix, KeyIs(key, k))
    ensures GroupsOf(prefix, key, keys, groups)
  {
  }

  /** After `x` is pushed onto its key's entry, or creates it, every entry is still the
      elements with its key. */
  lemma EntriesStep<T(!new), K(!new)>(prefix: seq<T>, x: T, key: T -> K, groups: map<K, seq<T>>, entry: seq<T>)
    requires forall k :: k in groups ==> groups[k] == Filter(prefix, KeyIs(key, k))
    requires key(x) !in groups ==> Filter(prefix, KeyIs(key, key(x))) == []
    requires entry == if key(x) in groups then groups[key(x)] + [x] else [x]
    ensures forall k :: k in groups[key(x) := entry] ==>
      groups[key(x) := entry][k] == Filter(prefix + [x], KeyIs(key, k))
  {
    var groups' := groups[key(x) := entry];
    forall k' | k' in groups' ensures groups'[k'] == Filter(prefix + [x], KeyIs(key, k')) {
      FilterAppendOne(prefix, x, KeyIs(key, k'));
      if k' == key(x) {
        assert KeyIs(key, k')(x);
      } else {
        assert !KeyIs(key, k')(x) && groups'[k'] == groups[k'];
      }
    }
  }

  /** An element with a new key creates its entry, and the key goes last. */
  lemma GroupCreate<T(!new), K(!new)>(prefix: seq<T>, x: T, key: T -> K, keys: seq<K>, groups: map<K, seq<T>>)
    requires GroupsOf(prefix, key, keys, groups) && key(x) !in groups
    ensures GroupsOf(prefix + [x], key, keys + [key(x)], groups[key(x) := [x]])
  {
    KeysInOrderSnoc(prefix, x, key);
    FilterNone(prefix, KeyIs(key, key(x)));
    var groups' := groups[key(x) := [x]];
    EntriesStep(prefix, x, key, groups, [x]);
    assert forall k :: k in groups' <==> k in keys + [key(x)];
    GroupsOfIntro(prefix + [x], key, keys + [key(x)], groups');
  }

  /** The dictionary-filling `reduce`: one entry per distinct key, created on the key's
      first element, to which each element with that key is appended in turn. */
  method GroupBy<T(!new), K(==,!new)>(s: seq<T>, key: T -> K) returns (keys: seq<K>, groups: map<K, seq<T>>)
    ensures keys == KeysInOrder(s, key)
    ensures forall k :: k in groups <==> k in keys
    ensures forall k :: k in groups ==> groups[k] == Filter(s, KeyIs(key, k))
    ensures forall k :: k in groups ==> groups[k] != [] && key(groups[k][0]) == k
  {
    keys, groups := [], map[];
    var i := 0;
    while i < |s|
      invariant 0 <= i <= |s|
      invariant GroupsOf(s[..i], key, keys, groups)
    {
      var x := s[i];
      var k := key(x);
      GroupStep(s, i, key, keys, groups);
      if k in groups {
        groups := groups[k := groups[k] + [x]];
      } else {
        keys := keys + [k];
        groups := groups[k := [x]];
      }
      i := i + 1;
    }
    assert s[..i] == s;
    forall k | k in groups ensures groups[k] != [] && key(groups[k][0]) == k {
      var y :| y in s && key(y) == k;
      assert y in groups[k];
      assert groups[k][0] in groups[k];
    }
  }
}
