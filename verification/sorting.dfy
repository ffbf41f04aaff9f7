/** Stable sorting by a key under a total preorder: what a collection's
    `sortBy` does on PHP 8, whose `asort` and `arsort` keep elements with
    equal keys in their original order. */
module Sorting {

  /** Reflexive, transitive and total: a comparison that may rank distinct
      keys as equal. */
  ghost predicate TotalPreorder<K(!new)>(le: (K, K) -> bool) {
    && (forall a :: le(a, a))
    && (forall a, b, c :: le(a, b) && le(b, c) ==> le(a, c))
    && (forall a, b :: le(a, b) || le(b, a))
  }

  /** The reverse comparison, used for a descending sort. */
  function Flip<K>(le: (K, K) -> bool): (K, K) -> bool {
    (a, b) => le(b, a)
  }

  lemma FlipTotalPreorder<K(!new)>(le: (K, K) -> bool)
    requires TotalPreorder(le)
    ensures TotalPreorder(Flip(le))
  {
  }

  ghost predicate SortedBy<T, K>(xs: seq<T>, key: T -> K, le: (K, K) -> bool) {
    forall i, j :: 0 <= i < j < |xs| ==> le(key(xs[i]), key(xs[j]))
  }

  /** Two keys the preorder ranks equal. */
  predicate Tied<K>(le: (K, K) -> bool, a: K, b: K) {
    le(a, b) && le(b, a)
  }

  /** The elements whose key ranks equal to `k`, in their order in `xs`. */
  function Ties<T, K>(xs: seq<T>, key: T -> K, le: (K, K) -> bool, k: K): seq<T> {
    if xs == [] then []
    else (if Tied(le, key(xs[0]), k) then [xs[0]] else []) + Ties(xs[1..], key, le, k)
  }

  /** Inserts `x` before the first element it does not rank above. */
  function Insert<T(==), K>(x: T, ys: seq<T>, key: T -> K, le: (K, K) -> bool): (r: seq<T>)
    ensures multiset(r) == multiset(ys) + multiset{x}
  {
    if ys == [] || le(key(x), key(ys[0])) then [x] + ys
    else
      var rest := Insert(x, ys[1..], key, le);
      assert ys == [ys[0]] + ys[1..];
      [ys[0]] + rest
  }

  lemma {:induction false} InsertSorted<T, K(!new)>(x: T, ys: seq<T>, key: T -> K, le: (K, K) -> bool)
    requires TotalPreorder(le)
    requires SortedBy(ys, key, le)
    ensures SortedBy(Insert(x, ys, key, le), key, le)
  {
    if ys != [] && !le(key(x), key(ys[0])) {
      InsertSorted(x, ys[1..], key, le);
      var r := Insert(x, ys, key, le);
      forall i, j | 0 <= i < j < |r|
        ensures le(key(r[i]), key(r[j]))
      {
        if i == 0 {
          var rest := Insert(x, ys[1..], key, le);
          assert r[j] == rest[j - 1];
          assert r[j] in multiset(rest);
          if r[j] != x {
            assert r[j] in multiset(ys[1..]);
            var m :| 0 <= m < |ys[1..]| && ys[1..][m] == r[j];
            assert ys[m + 1] == r[j];
          }
        }
      }
    }
  }

  /** A key strictly above one tied with `k` does not tie with `k`. */
  lemma NotTiedWhenRankedApart<K(!new)>(le: (K, K) -> bool, a: K, b: K, k: K)
    requires TotalPreorder(le)
    requires Tied(le, a, k) && !le(a, b)
    ensures !Tied(le, b, k)
  {
  }

  lemma TiesCons<T, K>(x: T, xs: seq<T>, key: T -> K, le: (K, K) -> bool, k: K)
    ensures Ties([x] + xs, key, le, k) == (if Tied(le, key(x), k) then [x] else []) + Ties(xs, key, le, k)
  {
    assert ([x] + xs)[1..] == xs;
  }

  lemma {:induction false} InsertTies<T, K(!new)>(x: T, ys: seq<T>, key: T -> K, le: (K, K) -> bool, k: K)
    requires TotalPreorder(le)
    ensures Ties(Insert(x, ys, key, le), key, le, k) ==
      (if Tied(le, key(x), k) then [x] else []) + Ties(ys, key, le, k)
  {
    if ys == [] || le(key(x), key(ys[0])) {
      TiesCons(x, ys, key, le, k);
    } else {
      InsertTies(x, ys[1..], key, le, k);
      if Tied(le, key(x), k) {
        NotTiedWhenRankedApart(le, key(x), key(ys[0]), k);
      }
      InsertTiesPast(x, ys, key, le, k);
    }
  }

  /** An element ranked above the head is inserted into the tail. */
  lemma InsertPast<T, K>(x: T, ys: seq<T>, key: T -> K, le: (K, K) -> bool)
    requires ys != [] && !le(key(x), key(ys[0]))
    ensures Insert(x, ys, key, le) == [ys[0]] + Insert(x, ys[1..], key, le)
  {
  }

  /** The step of `InsertTies` where `x` moves past the first element. */
  lemma InsertTiesPast<T, K>(x: T, ys: seq<T>, key: T -> K, le: (K, K) -> bool, k: K)
    requires ys != [] && !le(key(x), key(ys[0]))
    requires !(Tied(le, key(x), k) && Tied(le, key(ys[0]), k))
    requires Ties(Insert(x, ys[1..], key, le), key, le, k) ==
      (if Tied(le, key(x), k) then [x] else []) + Ties(ys[1..], key, le, k)
    ensures Ties(Insert(x, ys, key, le), key, le, k) ==
      (if Tied(le, key(x), k) then [x] else []) + Ties(ys, key, le, k)
  {
    var y, rest, t1 := ys[0], Insert(x, ys[1..], key, le), Ties(ys[1..], key, le, k);
    var hx := if Tied(le, key(x), k) then [x] else [];
    var hy := if Tied(le, key(y), k) then [y] else [];
    assert Ties(Insert(x, ys, key, le), key, le, k) == hy + (hx + t1) by {
      InsertPast(x, ys, key, le);
      TiesCons(y, rest, key, le, k);
    }
    assert Ties(ys, key, le, k) == hy + t1;
    PrefixSwap(Ties(Insert(x, ys, key, le), key, le, k), Ties(ys, key, le, k), Ties(rest, key, le, k), hx, hy, t1);
  }

  /** The sequence reasoning of `InsertTiesPast`, on plain sequences. */
  lemma PrefixSwap<T>(moved: seq<T>, orig: seq<T>, rest: seq<T>, hx: seq<T>, hy: seq<T>, t: seq<T>)
    requires hx == [] || hy == []
    requires moved == hy + rest && rest == hx + t && orig == hy + t
    ensures moved == hx + orig
  {
    PrefixesCommute(hx, hy, t);
  }

  /** Two prefixes of which at least one is empty can be applied in either order. */
  lemma PrefixesCommute<T>(a: seq<T>, b: seq<T>, t: seq<T>)
    requires a == [] || b == []
    ensures b + (a + t) == a + (b + t)
  {
    if a == [] {
      assert a + t == t && a + (b + t) == b + t;
    } else {
      assert b + (a + t) == a + t && b + t == t;
    }
  }

  /** Insertion sort: `sortBy` with the given key and comparison. */
  function SortBy<T(==), K(!new)>(xs: seq<T>, key: T -> K, le: (K, K) -> bool): (r: seq<T>)
    requires TotalPreorder(le)
    ensures multiset(r) == multiset(xs)
    ensures SortedBy(r, key, le)
  {
    if xs == [] then []
    else
      var rest := SortBy(xs[1..], key, le);
      InsertSorted(xs[0], rest, key, le);
      assert xs == [xs[0]] + xs[1..];
      Insert(xs[0], rest, key, le)
  }

  /** The sort is stable: elements with tied keys keep their input order. */
  lemma {:induction false} SortStable<T, K(!new)>(xs: seq<T>, key: T -> K, le: (K, K) -> bool, k: K)
    requires TotalPreorder(le)
    ensures Ties(SortBy(xs, key, le), key, le, k) == Ties(xs, key, le, k)
  {
    if xs != [] {
      SortStable(xs[1..], key, le, k);
      InsertTies(xs[0], SortBy(xs[1..], key, le), key, le, k);
    }
  }

  /** Reversing the comparison does not change which keys tie. */
  lemma {:induction false} TiesFlip<T, K>(xs: seq<T>, key: T -> K, le: (K, K) -> bool, k: K)
    ensures Ties(xs, key, Flip(le), k) == Ties(xs, key, le, k)
  {
    if xs != [] {
      TiesFlip(xs[1..], key, le, k);
    }
  }
}
