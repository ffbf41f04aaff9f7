/** Keeping the elements of a sequence that satisfy a test, in order: the
    shape of a collection's `filter`. */
module Lists {

  /** The elements of `xs` that satisfy `p`, in their order in `xs`. */
  function Select<T>(xs: seq<T>, p: T -> bool): seq<T> {
    if xs == [] then [] else (if p(xs[0]) then [xs[0]] else []) + Select(xs[1..], p)
  }

  /** Each element occurs in the selection as often as in the input if it
      passes the test, and not at all otherwise. */
  lemma {:induction false} SelectCount<T(!new)>(xs: seq<T>, p: T -> bool)
    ensures forall x :: multiset(Select(xs, p))[x] == if p(x) then multiset(xs)[x] else 0
  {
    if xs != [] {
      SelectCount(xs[1..], p);
      assert xs == [xs[0]] + xs[1..];
    }
  }

  lemma SelectCons<T>(x: T, xs: seq<T>, p: T -> bool)
    ensures Select([x] + xs, p) == (if p(x) then [x] else []) + Select(xs, p)
  {
    assert ([x] + xs)[1..] == xs;
  }

  /** Selecting from a concatenation selects from each part, in order. */
  lemma {:induction false} SelectAppend<T>(a: seq<T>, b: seq<T>, p: T -> bool)
    ensures Select(a + b, p) == Select(a, p) + Select(b, p)
  {
    if a != [] {
      var head := if p(a[0]) then [a[0]] else [];
      assert (a + b)[1..] == a[1..] + b;
      SelectAppend(a[1..], b, p);
      assert head + (Select(a[1..], p) + Select(b, p)) == (head + Select(a[1..], p)) + Select(b, p);
    } else {
      assert a + b == b;
    }
  }

  /** Concatenation regroups freely. */
  lemma AppendAssociative<T>(a: seq<T>, b: seq<T>, c: seq<T>)
    ensures (a + b) + c == a + (b + c)
  {
  }
}
