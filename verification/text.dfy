/** String and list primitives shared by the backend (Java) and the frontend
    (TypeScript) models: the two languages' whitespace sets and trims, ASCII
    case folding, splitting and joining, and order-preserving filtering and
    de-duplication. */
module Text {

  // ---------------------------------------------------------------------
  // Character classes
  // ---------------------------------------------------------------------

  /** Code points Java's `String.trim` strips: everything at or below U+0020. */
  predicate IsJavaTrimmed(c: char) {
    c <= ' '
  }

  /** Java's `Character.isWhitespace`, the test behind `String.isBlank`:
      space, line and paragraph separators except the no-break spaces, plus
      the ASCII controls U+0009..U+000D and U+001C..U+001F. */
  predicate IsJavaWhitespace(c: char) {
    || c == ' '
    || ('\t' <= c <= '\r')
    || ('\U{1C}' <= c <= '\U{1F}')
    || c == '\U{1680}'
    || ('\U{2000}' <= c <= '\U{2006}')
    || ('\U{2008}' <= c <= '\U{200A}')
    || c == '\U{2028}' || c == '\U{2029}'
    || c == '\U{205F}' || c == '\U{3000}'
  }

  /** JavaScript's WhiteSpace and LineTerminator code points: what
      `String.prototype.trim` strips and what the regular-expression class
      `\s` matches. */
  predicate IsJsWhitespace(c: char) {
    || ('\t' <= c <= '\r')
    || c == ' ' || c == '\U{A0}' || c == '\U{1680}'
    || ('\U{2000}' <= c <= '\U{200A}')
    || c == '\U{2028}' || c == '\U{2029}'
    || c == '\U{202F}' || c == '\U{205F}' || c == '\U{3000}'
    || c == '\U{FEFF}'
  }

  // ---------------------------------------------------------------------
  // Trimming
  // ---------------------------------------------------------------------

  /** Drops the leading characters satisfying `ws`. */
  function TrimStart(s: string, ws: char -> bool): (r: string)
    ensures |r| <= |s| && r == s[|s| - |r|..]
    ensures forall i | 0 <= i < |s| - |r| :: ws(s[i])
    ensures r != [] ==> !ws(r[0])
  {
    if s == [] || !ws(s[0]) then s else TrimStart(s[1..], ws)
  }

  /** Drops the trailing characters satisfying `ws`. */
  function TrimEnd(s: string, ws: char -> bool): (r: string)
    ensures |r| <= |s| && r == s[..|r|]
    ensures forall i | |r| <= i < |s| :: ws(s[i])
    ensures r != [] ==> !ws(r[|r| - 1])
  {
    if s == [] || !ws(s[|s| - 1]) then s else TrimEnd(s[..|s| - 1], ws)
  }

  /** Drops the leading and trailing characters satisfying `ws`. */
  function Trim(s: string, ws: char -> bool): (r: string)
    ensures |r| <= |s|
    ensures r != [] ==> !ws(r[0]) && !ws(r[|r| - 1])
  {
    TrimEnd(TrimStart(s, ws), ws)
  }

  /** Java's `String.trim`. */
  function JavaTrim(s: string): string {
    Trim(s, IsJavaTrimmed)
  }

  /** JavaScript's `String.prototype.trim`. */
  function JsTrim(s: string): string {
    Trim(s, IsJsWhitespace)
  }

  /** Java's `String.isBlank`: empty or whitespace only. */
  predicate JavaIsBlank(s: string) {
    forall i | 0 <= i < |s| :: IsJavaWhitespace(s[i])
  }

  /** `ws` holds of every character of `s`. */
  predicate AllOf(s: string, ws: char -> bool) {
    forall i | 0 <= i < |s| :: ws(s[i])
  }

  /** A string trims to nothing exactly when all of it is trimmable. */
  lemma TrimEmptyIff(s: string, ws: char -> bool)
    ensures Trim(s, ws) == [] <==> AllOf(s, ws)
  {
    var a := TrimStart(s, ws);
    if a == [] {
      assert forall i | 0 <= i < |s| :: ws(s[i]);
    } else {
      assert !ws(s[|s| - |a|]);
      assert !ws(a[0]);
    }
  }

  /** A string whose ends are not trimmable is its own trim. */
  lemma TrimOfTrimmed(s: string, ws: char -> bool)
    requires s != [] ==> !ws(s[0]) && !ws(s[|s| - 1])
    ensures Trim(s, ws) == s
  {
  }

  /** Trimming twice is trimming once. */
  lemma TrimIdempotent(s: string, ws: char -> bool)
    ensures Trim(Trim(s, ws), ws) == Trim(s, ws)
  {
    var t := Trim(s, ws);
    assert t != [] ==> !ws(t[0]) && !ws(t[|t| - 1]);
    TrimOfTrimmed(t, ws);
  }

  /** Nothing at either end of `s` for Java's `String.trim` to strip. */
  predicate JavaTrimmed(s: string) {
    s != [] ==> !IsJavaTrimmed(s[0]) && !IsJavaTrimmed(s[|s| - 1])
  }

  /** What Java's trim returns is trimmed. */
  lemma JavaTrimIsTrimmed(s: string)
    ensures JavaTrimmed(JavaTrim(s))
  {
  }

  /** A trimmed string is its own Java trim. */
  lemma JavaTrimmedIsFixed(s: string)
    requires JavaTrimmed(s)
    ensures JavaTrim(s) == s
  {
    TrimOfTrimmed(s, IsJavaTrimmed);
  }

  /** Java's trim is idempotent. */
  lemma JavaTrimIdempotent(s: string)
    ensures JavaTrim(JavaTrim(s)) == JavaTrim(s)
  {
    TrimIdempotent(s, IsJavaTrimmed);
  }

  /** Nothing at either end of `s` for JavaScript's `trim` to strip. */
  predicate JsTrimmed(s: string) {
    s != [] ==> !IsJsWhitespace(s[0]) && !IsJsWhitespace(s[|s| - 1])
  }

  /** What JavaScript's trim returns is trimmed. */
  lemma JsTrimIsTrimmed(s: string)
    ensures JsTrimmed(JsTrim(s))
  {
  }

  /** A trimmed string is its own JavaScript trim. */
  lemma JsTrimmedIsFixed(s: string)
    requires JsTrimmed(s)
    ensures JsTrim(s) == s
  {
    TrimOfTrimmed(s, IsJsWhitespace);
  }

  /** A leading trimmable character does not survive the trim. */
  lemma TrimSkipsLeading(c: char, s: string, ws: char -> bool)
    requires ws(c)
    ensures Trim([c] + s, ws) == Trim(s, ws)
  {
    assert ([c] + s)[1..] == s;
  }

  // ---------------------------------------------------------------------
  // Case folding
  // ---------------------------------------------------------------------

  /** Lower-cases an ASCII letter and leaves every other character alone. */
  function LowerChar(c: char): char {
    if 'A' <= c <= 'Z' then (c as int + 32) as char else c
  }

  /** `toLowerCase`, restricted to ASCII letters. */
  function Lower(s: string): (r: string)
    ensures |r| == |s|
    ensures forall i | 0 <= i < |s| :: r[i] == LowerChar(s[i])
  {
    seq(|s|, i requires 0 <= i < |s| => LowerChar(s[i]))
  }

  /** Lower-casing works character by character, so it distributes over
      concatenation. */
  lemma LowerAppend(a: string, b: string)
    ensures Lower(a + b) == Lower(a) + Lower(b)
  {
  }

  /** No ASCII upper-case letter occurs in `s`. */
  predicate IsLower(s: string) {
    forall i | 0 <= i < |s| :: !('A' <= s[i] <= 'Z')
  }

  /** Lower-casing a string that has no upper-case letter changes nothing. */
  lemma LowerOfLower(s: string)
    requires IsLower(s)
    ensures Lower(s) == s
  {
  }

  /** Every suffix of a lower-case text is lower-case. */
  lemma LowerSuffix(s: string, k: nat)
    requires IsLower(s) && k <= |s|
    ensures IsLower(s[k..])
  {
    forall i | 0 <= i < |s| - k
      ensures !('A' <= s[k..][i] <= 'Z')
    {
      assert s[k..][i] == s[k + i];
    }
  }

  /** A non-capital in front of a lower-case text keeps it lower-case. */
  lemma LowerCons(c: char, s: string)
    requires !('A' <= c <= 'Z') && IsLower(s)
    ensures IsLower([c] + s)
  {
    forall i | 1 <= i < |s| + 1
      ensures !('A' <= ([c] + s)[i] <= 'Z')
    {
      assert ([c] + s)[i] == s[i - 1];
    }
  }

  /** Lower-casing leaves no upper-case letter. */
  lemma LowerIsLower(s: string)
    ensures IsLower(Lower(s))
  {
    forall i | 0 <= i < |s|
      ensures !('A' <= Lower(s)[i] <= 'Z')
    {
      if 'A' <= s[i] <= 'Z' {
        assert LowerChar(s[i]) as int == s[i] as int + 32;
      }
    }
  }

  // ---------------------------------------------------------------------
  // Splitting and joining
  // ---------------------------------------------------------------------

  /** Index of the first `c` in `s`. */
  function IndexOf(s: string, c: char): (i: nat)
    requires c in s
    ensures i < |s| && s[i] == c && c !in s[..i]
  {
    if s[0] == c then 0 else 1 + IndexOf(s[1..], c)
  }

  /** Concatenates `xs`, putting `sep` between neighbours. */
  function Join(xs: seq<string>, sep: string): string {
    if |xs| == 0 then []
    else if |xs| == 1 then xs[0]
    else xs[0] + sep + Join(xs[1..], sep)
  }

  /** JavaScript's `s.split(c)` for a one-character separator: every piece,
      empty ones included, in order. */
  function Split(s: string, c: char): (r: seq<string>)
    ensures |r| >= 1
    ensures forall i | 0 <= i < |r| :: c !in r[i]
    ensures Join(r, [c]) == s
    decreases |s|
  {
    if c !in s then [s]
    else
      var i := IndexOf(s, c);
      var rest := Split(s[i + 1..], c);
      assert s == s[..i] + [c] + s[i + 1..];
      [s[..i]] + rest
  }

  /** Splitting at the first separator peels off the text before it. */
  lemma SplitCons(a: string, c: char, b: string)
    requires c !in a
    ensures Split(a + [c] + b, c) == [a] + Split(b, c)
  {
    var s := a + [c] + b;
    assert s[|a|] == c;
    assert s[..|a|] == a;
    var i := IndexOf(s, c);
    assert i == |a|;
    assert s[..i] == a;
    assert s[i + 1..] == b;
  }

  /** Splitting a join of separator-free pieces gives the pieces back. */
  lemma {:induction false} SplitJoin(xs: seq<string>, c: char)
    requires |xs| >= 1
    requires forall i | 0 <= i < |xs| :: c !in xs[i]
    ensures Split(Join(xs, [c]), c) == xs
  {
    if |xs| == 1 {
    } else {
      SplitJoin(xs[1..], c);
      assert Join(xs, [c]) == xs[0] + [c] + Join(xs[1..], [c]);
      SplitCons(xs[0], c, Join(xs[1..], [c]));
    }
  }

  /** Drops trailing empty strings. */
  function DropTrailingEmpty(xs: seq<string>): (r: seq<string>)
    ensures r <= xs
    ensures forall i | |r| <= i < |xs| :: xs[i] == []
    ensures r != [] ==> r[|r| - 1] != []
  {
    if xs == [] || xs[|xs| - 1] != [] then xs else DropTrailingEmpty(xs[..|xs| - 1])
  }

  /** Java's `s.split(c)` for a one-character separator: a string without the
      separator splits into itself; otherwise the pieces, minus trailing
      empty ones. */
  function JavaSplit(s: string, c: char): (r: seq<string>)
    ensures r <= Split(s, c)
  {
    if c !in s then [s] else DropTrailingEmpty(Split(s, c))
  }

  // ---------------------------------------------------------------------
  // Searching
  // ---------------------------------------------------------------------

  /** JavaScript's `s.includes(t)`: `t` occurs somewhere in `s`. */
  predicate Includes(s: string, t: string)
    decreases |s|
  {
    t <= s || (s != [] && Includes(s[1..], t))
  }

  /** `Includes` means an occurrence at some position. */
  lemma {:induction false} IncludesAt(s: string, t: string, k: nat)
    requires k + |t| <= |s| && s[k..k + |t|] == t
    ensures Includes(s, t)
    decreases k
  {
    if k > 0 {
      assert s[1..][k - 1..k - 1 + |t|] == t;
      IncludesAt(s[1..], t, k - 1);
    }
  }

  /** Every string includes the empty string. */
  lemma IncludesEmpty(s: string)
    ensures Includes(s, [])
  {
  }

  // ---------------------------------------------------------------------
  // Order-preserving filtering and de-duplication
  // ---------------------------------------------------------------------

  /** `a` is `b` with some elements dropped and the rest in order. */
  predicate IsSubsequence<T(==)>(a: seq<T>, b: seq<T>)
    decreases |b|
  {
    if a == [] then true
    else if b == [] then false
    else if a[0] == b[0] then IsSubsequence(a[1..], b[1..])
    else IsSubsequence(a, b[1..])
  }

  /** The elements of `xs` satisfying `p`, in order. */
  function Filter<T(==)>(xs: seq<T>, p: T -> bool): (r: seq<T>)
    ensures |r| <= |xs|
    ensures forall i | 0 <= i < |r| :: p(r[i])
  {
    if xs == [] then []
    else if p(xs[0]) then [xs[0]] + Filter(xs[1..], p)
    else Filter(xs[1..], p)
  }

  /** Everything `Filter` keeps comes from the input. */
  lemma {:induction false} FilterSound<T>(xs: seq<T>, p: T -> bool)
    ensures forall i | 0 <= i < |Filter(xs, p)| :: Filter(xs, p)[i] in xs
  {
    if xs != [] {
      FilterSound(xs[1..], p);
      var r := Filter(xs, p);
      forall i | 0 <= i < |r|
        ensures r[i] in xs
      {
        if p(xs[0]) && i == 0 {
        } else {
          var j := if p(xs[0]) then i - 1 else i;
          assert r[i] == Filter(xs[1..], p)[j];
          assert r[i] in xs[1..];
        }
      }
    }
  }

  /** Everything satisfying `p` is kept. */
  lemma {:induction false} FilterComplete<T>(xs: seq<T>, p: T -> bool, i: nat)
    requires i < |xs| && p(xs[i])
    ensures xs[i] in Filter(xs, p)
  {
    if i > 0 {
      FilterComplete(xs[1..], p, i - 1);
    }
  }

  /** An element is kept by filtering iff it is in the input and passes. */
  lemma FilterMember<T>(xs: seq<T>, p: T -> bool, x: T)
    ensures x in Filter(xs, p) <==> x in xs && p(x)
  {
    FilterSound(xs, p);
    if x in xs && p(x) {
      var i :| 0 <= i < |xs| && xs[i] == x;
      FilterComplete(xs, p, i);
    }
  }

  /** Everything in the input that passes the test is kept. */
  lemma FilterKeepsAll<T>(xs: seq<T>, p: T -> bool)
    ensures forall i | 0 <= i < |xs| && p(xs[i]) :: xs[i] in Filter(xs, p)
  {
    forall i | 0 <= i < |xs| && p(xs[i])
      ensures xs[i] in Filter(xs, p)
    {
      FilterComplete(xs, p, i);
    }
  }

  /** `Filter` keeps the input order. */
  lemma {:induction false} FilterOrdered<T>(xs: seq<T>, p: T -> bool)
    ensures IsSubsequence(Filter(xs, p), xs)
  {
    if xs != [] {
      FilterOrdered(xs[1..], p);
      if p(xs[0]) {
        assert ([xs[0]] + Filter(xs[1..], p))[1..] == Filter(xs[1..], p);
      } else {
        SubsequenceOfTail(Filter(xs, p), xs);
      }
    }
  }

  /** A subsequence of the tail is a subsequence of the whole. */
  lemma {:induction false} SubsequenceOfTail<T>(a: seq<T>, b: seq<T>)
    requires b != [] && IsSubsequence(a, b[1..])
    ensures IsSubsequence(a, b)
    decreases |a| + |b|
  {
    if a != [] && a[0] == b[0] {
      SubsequenceDropHead(a, b[1..]);
    }
  }

  /** Dropping the first element keeps a subsequence a subsequence. */
  lemma {:induction false} SubsequenceDropHead<T>(a: seq<T>, b: seq<T>)
    requires a != [] && IsSubsequence(a, b)
    ensures IsSubsequence(a[1..], b)
    decreases |a| + |b|
  {
    if b != [] {
      if a[0] == b[0] {
        SubsequenceOfTail(a[1..], b);
      } else {
        SubsequenceDropHead(a, b[1..]);
        SubsequenceOfTail(a[1..], b);
      }
    }
  }

  /** Every element relates to every later one. */
  predicate Pairwise<T>(xs: seq<T>, r: (T, T) -> bool) {
    forall i, j | 0 <= i < j < |xs| :: r(xs[i], xs[j])
  }

  /** Filtering keeps a relation that held between every earlier and later
      element. */
  lemma {:induction false} FilterPairwise<T>(xs: seq<T>, p: T -> bool, r: (T, T) -> bool)
    requires Pairwise(xs, r)
    ensures Pairwise(Filter(xs, p), r)
  {
    if xs != [] {
      var tail := xs[1..];
      assert Pairwise(tail, r) by {
        forall i, j | 0 <= i < j < |tail|
          ensures r(tail[i], tail[j])
        {
          assert tail[i] == xs[i + 1] && tail[j] == xs[j + 1];
        }
      }
      FilterPairwise(tail, p, r);
      if p(xs[0]) {
        var f, ft := Filter(xs, p), Filter(tail, p);
        assert f == [xs[0]] + ft;
        FilterSound(tail, p);
        forall i, j | 0 <= i < j < |f|
          ensures r(f[i], f[j])
        {
          if i == 0 {
            assert f[j] == ft[j - 1] && ft[j - 1] in tail;
            var k :| 0 <= k < |tail| && tail[k] == ft[j - 1];
            assert xs[k + 1] == tail[k];
          } else {
            assert f[i] == ft[i - 1] && f[j] == ft[j - 1];
          }
        }
      }
    }
  }

  /** Filtering distributes over concatenation. */
  lemma {:induction false} FilterAppend<T>(a: seq<T>, b: seq<T>, p: T -> bool)
    ensures Filter(a + b, p) == Filter(a, p) + Filter(b, p)
  {
    if a == [] {
      assert a + b == b;
    } else {
      assert (a + b)[1..] == a[1..] + b;
      FilterAppend(a[1..], b, p);
    }
  }

  /** Filtering a sequence whose elements all pass keeps all of it. */
  lemma {:induction false} FilterAll<T>(xs: seq<T>, p: T -> bool)
    requires forall i | 0 <= i < |xs| :: p(xs[i])
    ensures Filter(xs, p) == xs
  {
    if xs != [] {
      FilterAll(xs[1..], p);
    }
  }

  /** Filtering a sequence none of whose elements pass leaves nothing. */
  lemma {:induction false} FilterNone<T>(xs: seq<T>, p: T -> bool)
    requires forall i | 0 <= i < |xs| :: !p(xs[i])
    ensures Filter(xs, p) == []
  {
    if xs != [] {
      FilterNone(xs[1..], p);
    }
  }

  /** `Filter` keeps every copy of an element that passes and none of one
      that fails. */
  lemma {:induction false} FilterCount<T>(xs: seq<T>, p: T -> bool, x: T)
    ensures multiset(Filter(xs, p))[x] == if p(x) then multiset(xs)[x] else 0
  {
    if xs != [] {
      FilterCount(xs[1..], p, x);
      assert xs == [xs[0]] + xs[1..];
    }
  }

  /** No element occurs twice. */
  predicate NoDuplicates<T(==)>(xs: seq<T>) {
    forall i, j | 0 <= i < j < |xs| :: xs[i] != xs[j]
  }

  /** In a duplicate-free sequence an element occurs once or not at all. */
  lemma {:induction false} NoDuplicatesCount<T>(xs: seq<T>, x: T)
    requires NoDuplicates(xs)
    ensures multiset(xs)[x] == if x in xs then 1 else 0
  {
    if xs != [] {
      assert NoDuplicates(xs[1..]) by {
        forall i, j | 0 <= i < j < |xs[1..]|
          ensures xs[1..][i] != xs[1..][j]
        {
          assert xs[1..][i] == xs[i + 1] && xs[1..][j] == xs[j + 1];
        }
      }
      NoDuplicatesCount(xs[1..], x);
      assert xs == [xs[0]] + xs[1..];
    }
  }

  /** Java's `Stream.distinct` (and a `Set`-guarded copy loop): keeps the
      first occurrence of each element, in order. */
  function Distinct<T(==)>(xs: seq<T>): (r: seq<T>)
    ensures |r| <= |xs|
    ensures NoDuplicates(r)
    ensures forall i | 0 <= i < |r| :: r[i] in xs
    ensures forall i | 0 <= i < |xs| :: xs[i] in r
  {
    if xs == [] then []
    else
      var init := xs[..|xs| - 1];
      var d := Distinct(init);
      if xs[|xs| - 1] in init then d else d + [xs[|xs| - 1]]
  }

  /** De-duplication keeps every element. */
  lemma DistinctMember<T>(xs: seq<T>, x: T)
    ensures x in Distinct(xs) <==> x in xs
  {
    var d := Distinct(xs);
    if x in d {
      var i :| 0 <= i < |d| && d[i] == x;
    }
    if x in xs {
      var i :| 0 <= i < |xs| && xs[i] == x;
    }
  }

  /** A duplicate-free sequence is its own `Distinct`. */
  lemma {:induction false} DistinctOfDistinct<T>(xs: seq<T>)
    requires NoDuplicates(xs)
    ensures Distinct(xs) == xs
  {
    if xs != [] {
      var init := xs[..|xs| - 1];
      DistinctOfDistinct(init);
      assert xs == init + [xs[|xs| - 1]];
    }
  }

  /** `Distinct` is idempotent. */
  lemma DistinctIdempotent<T>(xs: seq<T>)
    ensures Distinct(Distinct(xs)) == Distinct(xs)
  {
    DistinctOfDistinct(Distinct(xs));
  }

  /** The first element survives de-duplication in first place. */
  lemma {:induction false} DistinctHead<T>(xs: seq<T>)
    requires xs != []
    ensures Distinct(xs) != [] && Distinct(xs)[0] == xs[0]
  {
    if |xs| > 1 {
      var init := xs[..|xs| - 1];
      DistinctHead(init);
      assert init[0] == xs[0];
    }
  }

  /** JavaScript's `findIndex`: the first position whose element passes,
      or -1. */
  function FirstIndex<T>(xs: seq<T>, p: T -> bool): (r: int)
    ensures -1 <= r < |xs|
    ensures r == -1 <==> forall i | 0 <= i < |xs| :: !p(xs[i])
    ensures r >= 0 ==> p(xs[r]) && forall i | 0 <= i < r :: !p(xs[i])
  {
    if xs == [] then -1
    else if p(xs[0]) then 0
    else
      var j := FirstIndex(xs[1..], p);
      if j == -1 then -1 else j + 1
  }

  /** First `n` elements, or all of them when there are fewer. */
  function Take<T>(xs: seq<T>, n: nat): (r: seq<T>)
    ensures r <= xs
    ensures |r| == if |xs| < n then |xs| else n
  {
    if |xs| <= n then xs else xs[..n]
  }

  // ---------------------------------------------------------------------
  // Decimal text
  // ---------------------------------------------------------------------

  /** The decimal digits of `n`, as Java's string concatenation writes it. */
  function NatText(n: nat): (r: string)
    ensures r != []
    ensures forall i | 0 <= i < |r| :: '0' <= r[i] <= '9'
  {
    var d := ['0' + (n % 10) as char];
    if n < 10 then d else NatText(n / 10) + d
  }

  /** The decimal text of an integer, with a minus sign when negative. */
  function IntText(n: int): string {
    if n < 0 then ['-'] + NatText(-n) else NatText(n)
  }
}
