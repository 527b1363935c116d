/** `ORDER BY <text column> ASC`: a stable insertion sort by a string key,
    under code-point lexicographic order. */
module Sorting {

  /** Code-point lexicographic order on strings: a prefix sorts first. */
  predicate StrLe(a: string, b: string)
    decreases |a|
  {
    a == [] || (b != [] && (a[0] < b[0] || (a[0] == b[0] && StrLe(a[1..], b[1..]))))
  }

  lemma {:induction false} StrLeReflexive(a: string)
    ensures StrLe(a, a)
    decreases |a|
  {
    if a != [] {
      StrLeReflexive(a[1..]);
    }
  }

  lemma {:induction false} StrLeTotal(a: string, b: string)
    ensures StrLe(a, b) || StrLe(b, a)
    decreases |a|
  {
    if a != [] && b != [] && a[0] == b[0] {
      StrLeTotal(a[1..], b[1..]);
    }
  }

  lemma {:induction false} StrLeTransitive(a: string, b: string, c: string)
    requires StrLe(a, b) && StrLe(b, c)
    ensures StrLe(a, c)
    decreases |a|
  {
    if a != [] && a[0] == b[0] && b[0] == c[0] {
      StrLeTransitive(a[1..], b[1..], c[1..]);
    }
  }

  lemma {:induction false} StrLeAntisymmetric(a: string, b: string)
    requires StrLe(a, b) && StrLe(b, a)
    ensures a == b
    decreases |a|
  {
    if a != [] {
      StrLeAntisymmetric(a[1..], b[1..]);
      assert a == [a[0]] + a[1..];
      assert b == [b[0]] + b[1..];
    }
  }

  /** JavaScript's `<` on strings (code-point order): a proper prefix, or a
      smaller character at the first difference. */
  predicate StrLt(a: string, b: string)
    decreases |a|
  {
    b != [] && (a == [] || a[0] < b[0] || (a[0] == b[0] && StrLt(a[1..], b[1..])))
  }

  /** The strict order is the non-strict one without equality. */
  lemma {:induction false} StrLtIffLeAndNotEqual(a: string, b: string)
    ensures StrLt(a, b) <==> StrLe(a, b) && a != b
    decreases |a|
  {
    if a != [] && b != [] {
      StrLtIffLeAndNotEqual(a[1..], b[1..]);
      assert a == [a[0]] + a[1..];
      assert b == [b[0]] + b[1..];
    }
  }

  /** A common first character does not decide the order. */
  lemma StrLtCons(c: char, a: string, b: string)
    ensures StrLt([c] + a, [c] + b) <==> StrLt(a, b)
  {
    assert ([c] + a)[1..] == a;
    assert ([c] + b)[1..] == b;
  }

  /** The keys of `xs` ascend (ties allowed). */
  ghost predicate SortedBy<T>(xs: seq<T>, key: T -> string) {
    forall i, j | 0 <= i < j < |xs| :: StrLe(key(xs[i]), key(xs[j]))
  }

  /** Puts `x` before the first element whose key is not smaller, so that
      an element inserted later stays ahead of equal keys already present. */
  function Insert<T>(x: T, xs: seq<T>, key: T -> string): (r: seq<T>)
    requires SortedBy(xs, key)
    ensures SortedBy(r, key)
    ensures multiset(r) == multiset(xs) + multiset{x}
    ensures |r| == |xs| + 1
  {
    if xs == [] then [x]
    else if StrLe(key(x), key(xs[0])) then
      assert forall j | 0 < j < |xs| :: StrLe(key(x), key(xs[j])) by {
        forall j | 0 < j < |xs| {
          StrLeTransitive(key(x), key(xs[0]), key(xs[j]));
        }
      }
      [x] + xs
    else
      StrLeTotal(key(x), key(xs[0]));
      var rest := Insert(x, xs[1..], key);
      assert xs == [xs[0]] + xs[1..];
      assert forall j | 0 <= j < |rest| :: StrLe(key(xs[0]), key(rest[j])) by {
        forall j | 0 <= j < |rest|
          ensures StrLe(key(xs[0]), key(rest[j]))
        {
          assert rest[j] in multiset(rest);
          if rest[j] != x {
            assert rest[j] in multiset(xs[1..]);
            var k :| 0 <= k < |xs[1..]| && xs[1..][k] == rest[j];
            assert xs[k + 1] == rest[j];
          }
        }
      }
      [xs[0]] + rest
  }

  /** `xs` reordered so that the keys ascend; a permutation of `xs`. */
  function SortBy<T>(xs: seq<T>, key: T -> string): (r: seq<T>)
    ensures SortedBy(r, key)
    ensures multiset(r) == multiset(xs)
    ensures |r| == |xs|
  {
    if xs == [] then []
    else
      assert xs == [xs[0]] + xs[1..];
      Insert(xs[0], SortBy(xs[1..], key), key)
  }
}
