/** `collections.Counter` and `sorted` as the checkers use them: counts in the order
    keys are first seen, and a stable sort. */
module Ranking {

  /** `s.count(x)` for a list. */
  function Count<T(==)>(s: seq<T>, x: T): (n: nat)
    ensures n <= |s|
    ensures n > 0 <==> x in s
  {
    if s == [] then 0 else (if s[0] == x then 1 else 0) + Count(s[1..], x)
  }

  lemma {:induction false} CountSnoc<T>(s: seq<T>, y: T, x: T)
    ensures Count(s + [y], x) == Count(s, x) + (if y == x then 1 else 0)
  {
    if s == [] {
      assert s + [y] == [y];
    } else {
      assert (s + [y])[0] == s[0] && (s + [y])[1..] == s[1..] + [y];
      CountSnoc(s[1..], y, x);
    }
  }

  /** No element occurs twice. */
  predicate Distinct<T(==)>(s: seq<T>) {
    forall i, j :: 0 <= i < j < |s| ==> s[i] != s[j]
  }

  /** An element of a list without repetitions occurs in it exactly once. */
  lemma {:induction false} CountDistinct<T>(s: seq<T>, x: T)
    requires Distinct(s)
    ensures Count(s, x) == if x in s then 1 else 0
  {
    if s != [] {
      CountDistinct(s[1..], x);
      if s[0] == x {
        assert x !in s[1..] by {
          forall k | 0 <= k < |s[1..]| ensures s[1..][k] != x {
            assert s[k + 1] != s[0];
          }
        }
      }
    }
  }

  /** The distinct elements of `s` in the order they are first seen: the keys of a
      `Counter` or of a `defaultdict` filled from `s`. */
  function Keys<T(==)>(s: seq<T>): (r: seq<T>)
    ensures Distinct(r)
    ensures forall k :: 0 <= k < |r| ==> r[k] in s
    ensures forall k :: 0 <= k < |s| ==> s[k] in r
    ensures |r| <= |s|
  {
    if s == [] then []
    else
      var d := Keys(s[..|s| - 1]);
      var x := s[|s| - 1];
      assert s == s[..|s| - 1] + [x];
      if x in d then d else d + [x]
  }

  /** `Counter(s)`, listed in first-seen order: each key with its number of occurrences. */
  function Tally<T(==)>(s: seq<T>): (r: seq<(T, nat)>)
    ensures |r| == |Keys(s)|
    ensures forall k :: 0 <= k < |r| ==> r[k] == (Keys(s)[k], Count(s, Keys(s)[k]))
  {
    var keys := Keys(s);
    seq(|keys|, k requires 0 <= k < |keys| => (keys[k], Count(s, keys[k])))
  }

  /** The keys of a tally, in order. */
  function Firsts<T, U>(s: seq<(T, U)>): (r: seq<T>)
    ensures |r| == |s| && forall k :: 0 <= k < |s| ==> r[k] == s[k].0
  {
    seq(|s|, k requires 0 <= k < |s| => s[k].0)
  }

  /** The sum of the counts of a tally. */
  function SumCounts<T>(s: seq<(T, nat)>): nat {
    if s == [] then 0 else s[0].1 + SumCounts(s[1..])
  }

  /** The number of occurrences in `s` of the listed keys, together. */
  function CountAll<T(==)>(keys: seq<T>, s: seq<T>): nat {
    if keys == [] then 0 else Count(s, keys[0]) + CountAll(keys[1..], s)
  }

  lemma {:induction false} CountAllSnoc<T>(keys: seq<T>, s: seq<T>, y: T)
    ensures CountAll(keys, s + [y]) == CountAll(keys, s) + Count(keys, y)
  {
    if keys != [] {
      CountSnoc(s, y, keys[0]);
      CountAllSnoc(keys[1..], s, y);
    }
  }

  /** Counting every element of `s` against keys that list each of them once counts
      each element once. */
  lemma {:induction false} CountAllKeys<T>(keys: seq<T>, s: seq<T>)
    requires Distinct(keys)
    requires forall x :: x in s ==> x in keys
    ensures CountAll(keys, s) == |s|
  {
    if s == [] {
      CountAllEmpty(keys);
    } else {
      var p, y := s[..|s| - 1], s[|s| - 1];
      assert s == p + [y];
      assert forall x :: x in p ==> x in s;
      CountAllKeys(keys, p);
      CountAllSnoc(keys, p, y);
      CountDistinct(keys, y);
    }
  }

  lemma {:induction false} CountAllEmpty<T>(keys: seq<T>)
    ensures CountAll(keys, []) == 0
  {
    if keys != [] {
      CountAllEmpty(keys[1..]);
    }
  }

  lemma {:induction false} SumCountsTally<T>(keys: seq<T>, s: seq<T>, r: seq<(T, nat)>)
    requires |r| == |keys|
    requires forall k :: 0 <= k < |r| ==> r[k] == (keys[k], Count(s, keys[k]))
    ensures SumCounts(r) == CountAll(keys, s)
  {
    if r != [] {
      SumCountsTally(keys[1..], s, r[1..]);
    }
  }

  /** The counts of a `Counter` add up to the number of elements counted. */
  lemma TallyTotal<T>(s: seq<T>)
    ensures SumCounts(Tally(s)) == |s|
  {
    SumCountsTally(Keys(s), s, Tally(s));
    CountAllKeys(Keys(s), s);
  }

  /** The order `le` is total and transitive. */
  ghost predicate TotalOrder<T(!new)>(le: (T, T) -> bool) {
    && (forall a, b :: le(a, b) || le(b, a))
    && (forall a, b, c :: le(a, b) && le(b, c) ==> le(a, c))
  }

  /** `s` is in order for `le`. */
  ghost predicate SortedBy<T>(s: seq<T>, le: (T, T) -> bool) {
    forall i, j :: 0 <= i < j < |s| ==> le(s[i], s[j])
  }

  /** `a` occurs in `s` at some position before `b`. */
  ghost predicate Before<T>(s: seq<T>, a: T, b: T) {
    exists p, q :: 0 <= p < q < |s| && s[p] == a && s[q] == b
  }

  /** `x` put in front of the first element it is `le` to. */
  function Insert<T>(x: T, s: seq<T>, le: (T, T) -> bool): (r: seq<T>)
    ensures |r| == |s| + 1
  {
    if s == [] || le(x, s[0]) then [x] + s else [s[0]] + Insert(x, s[1..], le)
  }

  /** `sorted(s, ...)`: a stable insertion sort, each element put in front of the first
      later element it is `le` to. */
  function Sort<T>(s: seq<T>, le: (T, T) -> bool): (r: seq<T>)
    ensures |r| == |s|
  {
    if s == [] then [] else Insert(s[0], Sort(s[1..], le), le)
  }

  lemma {:induction false} InsertPerm<T>(x: T, s: seq<T>, le: (T, T) -> bool)
    ensures multiset(Insert(x, s, le)) == multiset(s) + multiset{x}
  {
    if s == [] || le(x, s[0]) {
      assert Insert(x, s, le) == [x] + s;
    } else {
      var t := Insert(x, s[1..], le);
      InsertPerm(x, s[1..], le);
      assert Insert(x, s, le) == [s[0]] + t;
      assert multiset([s[0]] + t) == multiset{s[0]} + multiset(t);
      assert multiset(s) == multiset{s[0]} + multiset(s[1..]) by {
        assert s == [s[0]] + s[1..];
      }
    }
  }

  lemma {:induction false} InsertSorted<T(!new)>(x: T, s: seq<T>, le: (T, T) -> bool)
    requires TotalOrder(le)
    requires SortedBy(s, le)
    ensures SortedBy(Insert(x, s, le), le)
  {
    var r := Insert(x, s, le);
    if s == [] || le(x, s[0]) {
      forall i, j | 0 <= i < j < |r| ensures le(r[i], r[j]) {
        if i == 0 && j > 1 {
          assert le(x, s[0]) && le(s[0], s[j - 1]);
        }
      }
    } else {
      InsertSorted(x, s[1..], le);
      var t := Insert(x, s[1..], le);
      InsertPerm(x, s[1..], le);
      forall i, j | 0 <= i < j < |r| ensures le(r[i], r[j]) {
        if i == 0 {
          assert r[j] == t[j - 1];
          assert r[j] in multiset(t);
          assert r[j] == x || r[j] in multiset(s[1..]);
          if r[j] != x {
            var k :| 0 <= k < |s[1..]| && s[1..][k] == r[j];
            assert le(s[0], s[k + 1]);
          }
        }
      }
    }
  }

  /** The sort permutes its input. */
  lemma {:induction false} SortPerm<T>(s: seq<T>, le: (T, T) -> bool)
    ensures multiset(Sort(s, le)) == multiset(s)
  {
    if s != [] {
      SortPerm(s[1..], le);
      InsertPerm(s[0], Sort(s[1..], le), le);
      assert s == [s[0]] + s[1..];
    }
  }

  /** For a total, transitive order the sort puts its input in order. */
  lemma {:induction false} SortSorted<T(!new)>(s: seq<T>, le: (T, T) -> bool)
    requires TotalOrder(le)
    ensures SortedBy(Sort(s, le), le)
  {
    if s != [] {
      SortSorted(s[1..], le);
      InsertSorted(s[0], Sort(s[1..], le), le);
    }
  }

  /** Insertion puts `x` after the elements it is not `le` to and keeps the others in
      order around it. */
  lemma {:induction false} InsertAt<T>(x: T, s: seq<T>, le: (T, T) -> bool) returns (k: nat)
    ensures k <= |s| && Insert(x, s, le) == s[..k] + [x] + s[k..]
    ensures forall m :: 0 <= m < k ==> !le(x, s[m])
  {
    if s == [] || le(x, s[0]) {
      k := 0;
    } else {
      var k' := InsertAt(x, s[1..], le);
      k := k' + 1;
      assert s[..k] == [s[0]] + s[1..][..k'];
      assert s[k..] == s[1..][k'..];
    }
  }

  lemma BeforeCons<T>(s: seq<T>, a: T, b: T)
    requires s != []
    ensures Before(s[1..], a, b) ==> Before(s, a, b)
  {
    if Before(s[1..], a, b) {
      var p, q :| 0 <= p < q < |s[1..]| && s[1..][p] == a && s[1..][q] == b;
      assert s[p + 1] == a && s[q + 1] == b;
    }
  }

  lemma BeforeHead<T>(s: seq<T>, b: T)
    requires s != [] && b in s[1..]
    ensures Before(s, s[0], b)
  {
    var q :| 0 <= q < |s[1..]| && s[1..][q] == b;
    assert s[q + 1] == b;
  }

  /** The sort is stable: when a later element of the result is `le` to an earlier one
      (a tie, for a total order), the two stood in that order in the input. */
  lemma {:induction false} SortStable<T>(s: seq<T>, le: (T, T) -> bool)
    ensures var r := Sort(s, le);
      forall i, j :: 0 <= i < j < |r| && le(r[j], r[i]) ==> Before(s, r[i], r[j])
  {
    if s != [] {
      var t := Sort(s[1..], le);
      var r := Sort(s, le);
      SortStable(s[1..], le);
      SortPerm(s[1..], le);
      var k := InsertAt(s[0], t, le);
      forall i, j | 0 <= i < j < |r| && le(r[j], r[i]) ensures Before(s, r[i], r[j]) {
        if i == k {
          assert r[i] == s[0] && r[j] == t[j - 1];
          assert t[j - 1] in multiset(s[1..]);
          BeforeHead(s, r[j]);
        } else {
          // `j == k` cannot happen: `s[0]` went after `r[i]` because it is not `le` to it
          assert r[i] == t[if i < k then i else i - 1];
          assert j < k ==> r[j] == t[j];
          assert j > k ==> r[j] == t[j - 1];
          BeforeCons(s, r[i], r[j]);
        }
      }
    }
  }

  /** The order of `sorted(..., key=lambda e: e[1], reverse=True)`: larger counts first. */
  predicate CountGe<T>(a: (T, nat), b: (T, nat)) {
    a.1 >= b.1
  }

  /** `sorted(pairs, key=lambda e: e[1], reverse=True)` */
  function SortByCountDesc<T>(pairs: seq<(T, nat)>): (r: seq<(T, nat)>)
    ensures |r| == |pairs|
  {
    Sort(pairs, (a: (T, nat), b: (T, nat)) => CountGe(a, b))
  }

  /** Sorting by count puts larger counts first and keeps every pair. */
  lemma SortByCountDescSpec<T(!new)>(pairs: seq<(T, nat)>)
    ensures multiset(SortByCountDesc(pairs)) == multiset(pairs)
    ensures forall i, j :: 0 <= i < j < |pairs| ==> SortByCountDesc(pairs)[i].1 >= SortByCountDesc(pairs)[j].1
  {
    var le := (a: (T, nat), b: (T, nat)) => CountGe(a, b);
    SortPerm(pairs, le);
    SortSorted(pairs, le);
  }

  /** Sorting by count keeps pairs with equal counts in their input order. */
  lemma SortByCountDescStable<T>(pairs: seq<(T, nat)>)
    ensures var r := SortByCountDesc(pairs);
      forall i, j :: 0 <= i < j < |r| && r[i].1 == r[j].1 ==> Before(pairs, r[i], r[j])
  {
    var le := (a: (T, nat), b: (T, nat)) => CountGe(a, b);
    var r := SortByCountDesc(pairs);
    assert r == Sort(pairs, le);
    SortStable(pairs, le);
    forall i, j | 0 <= i < j < |r| && r[i].1 == r[j].1 ensures Before(pairs, r[i], r[j]) {
      var t := Sort(pairs, le);
      assert 0 <= i < j < |t| && le(t[j], t[i]);
    }
  }

  /** Python's `a <= b` on strings: character by character, a proper prefix first. */
  predicate StrLe(a: string, b: string) {
    a == [] || (b != [] && (a[0] < b[0] || (a[0] == b[0] && StrLe(a[1..], b[1..]))))
  }

  /** Any two strings are ordered one way or the other. */
  lemma {:induction false} StrLeTotal(a: string, b: string)
    ensures StrLe(a, b) || StrLe(b, a)
  {
    if a != [] && b != [] && a[0] == b[0] {
      StrLeTotal(a[1..], b[1..]);
    }
  }

  lemma {:induction false} StrLeTrans(a: string, b: string, c: string)
    requires StrLe(a, b) && StrLe(b, c)
    ensures StrLe(a, c)
  {
    if a != [] && b != [] && c != [] && a[0] == b[0] == c[0] {
      StrLeTrans(a[1..], b[1..], c[1..]);
    }
  }

  /** Strings ordered both ways are equal. */
  lemma {:induction false} StrLeAntisym(a: string, b: string)
    requires StrLe(a, b) && StrLe(b, a)
    ensures a == b
  {
    if a != [] && b != [] {
      StrLeAntisym(a[1..], b[1..]);
      assert a == [a[0]] + a[1..] && b == [b[0]] + b[1..];
    }
  }

  /** `Counter(s).most_common(n)`: the `n` largest counts, ties in first-seen order. */
  function MostCommon<T(==)>(s: seq<T>, n: nat): (r: seq<(T, nat)>)
    ensures |r| <= n
  {
    Take(SortByCountDesc(Tally(s)), n)
  }

  /** `most_common(n)` lists min(n, number of distinct values) values of `s`, each with
      its count, largest first. */
  lemma MostCommonSpec<T(!new)>(s: seq<T>, n: nat)
    ensures var r := MostCommon(s, n);
      && |r| == (if |Keys(s)| < n then |Keys(s)| else n)
      && (forall k :: 0 <= k < |r| ==> r[k].0 in s && r[k].1 == Count(s, r[k].0))
      && (forall i, j :: 0 <= i < j < |r| ==> r[i].1 >= r[j].1)
  {
    var tally := Tally(s);
    var t := SortByCountDesc(tally);
    var r := MostCommon(s, n);
    SortByCountDescSpec(tally);
    assert r == t[..|r|];
    forall k | 0 <= k < |r| ensures r[k].0 in s && r[k].1 == Count(s, r[k].0) {
      assert r[k] == t[k];
      assert t[k] in multiset(tally);
      var j :| 0 <= j < |tally| && tally[j] == t[k];
    }
  }

  /** `most_common(n)` lists values with equal counts in the order they are first seen
      in `s`. */
  lemma MostCommonTies<T>(s: seq<T>, n: nat)
    ensures var r := MostCommon(s, n);
      forall i, j :: 0 <= i < j < |r| && r[i].1 == r[j].1 ==> Before(Keys(s), r[i].0, r[j].0)
  {
    var tally := Tally(s);
    var t := SortByCountDesc(tally);
    var r := MostCommon(s, n);
    SortByCountDescStable(tally);
    forall i, j | 0 <= i < j < |r| && r[i].1 == r[j].1 ensures Before(Keys(s), r[i].0, r[j].0) {
      assert r[i] == t[i] && r[j] == t[j];
      var p, q :| 0 <= p < q < |tally| && tally[p] == t[i] && tally[q] == t[j];
      assert Keys(s)[p] == r[i].0 && Keys(s)[q] == r[j].0;
    }
  }

  /** A value `most_common(n)` leaves out occurs no more often than the last one it
      lists, and then it lists `n` values. */
  lemma MostCommonTop<T(!new)>(s: seq<T>, n: nat, x: T)
    requires x in s
    requires forall k :: 0 <= k < |MostCommon(s, n)| ==> MostCommon(s, n)[k].0 != x
    ensures |MostCommon(s, n)| == n
    ensures n > 0 ==> Count(s, x) <= MostCommon(s, n)[n - 1].1
  {
    var tally := Tally(s);
    var t := SortByCountDesc(tally);
    var r := MostCommon(s, n);
    SortByCountDescSpec(tally);
    assert r == t[..|r|];
    var j :| 0 <= j < |Keys(s)| && Keys(s)[j] == x;
    assert tally[j] == (x, Count(s, x));
    assert tally[j] in multiset(t);
    var i :| 0 <= i < |t| && t[i] == tally[j];
  }

  /** The elements of the lists of `xss`, list after list. */
  function Flatten<T>(xss: seq<seq<T>>): seq<T> {
    if xss == [] then [] else xss[0] + Flatten(xss[1..])
  }

  /** An element of a flattened list comes from one of the lists. */
  lemma {:induction false} FlattenIn<T>(xss: seq<seq<T>>, x: T)
    requires x in Flatten(xss)
    ensures exists k :: 0 <= k < |xss| && x in xss[k]
  {
    if x !in xss[0] {
      FlattenIn(xss[1..], x);
      var k :| 0 <= k < |xss[1..]| && x in xss[1..][k];
      assert x in xss[k + 1];
    }
  }

  /** A list without repetitions has as many elements as its set. */
  lemma {:induction false} DistinctCard<T>(s: seq<T>)
    requires Distinct(s)
    ensures |set x | x in s| == |s|
  {
    if s != [] {
      DistinctCard(s[1..]);
      assert s[0] !in s[1..] by {
        forall k | 0 <= k < |s[1..]| ensures s[1..][k] != s[0] {
          assert s[k + 1] != s[0];
        }
      }
      assert (set x | x in s) == (set x | x in s[1..]) + {s[0]};
    }
  }

  /** The prefix one longer ends in the next element. */
  lemma PrefixSnoc<T>(s: seq<T>, k: nat)
    requires k < |s|
    ensures s[..k + 1][..k] == s[..k] && s[..k + 1][k] == s[k] && s[..k + 1] != []
  {
  }

  /** `(a + b) + c == a + (b + c)` */
  lemma AppendAssoc<T>(a: seq<T>, b: seq<T>, c: seq<T>)
    ensures a + b + c == a + (b + c)
  {
  }

  /** `s[:n]` */
  function Take<T>(s: seq<T>, n: nat): (r: seq<T>)
    ensures |r| <= n && r <= s
    ensures |s| <= n ==> r == s
  {
    if |s| <= n then s else s[..n]
  }
}
