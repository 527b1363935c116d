/** The name search of the company list: the search text is escaped for
    SQL `LIKE` and bound as `<escaped>%` to `company_name ILIKE ? ESCAPE
    '\'`, which makes it a case-insensitive prefix match. */
module LikePattern {
  import opened Text

  /** Java `String.replace(CharSequence, CharSequence)` with a one-character
      target: every `c` in `s` becomes `rep`. */
  function ReplaceChar(s: string, c: char, rep: string): string {
    if s == [] then []
    else (if s[0] == c then rep else [s[0]]) + ReplaceChar(s[1..], c, rep)
  }

  lemma {:induction false} ReplaceCharAppend(a: string, b: string, c: char, rep: string)
    ensures ReplaceChar(a + b, c, rep) == ReplaceChar(a, c, rep) + ReplaceChar(b, c, rep)
  {
    if a == [] {
      assert a + b == b;
    } else {
      assert (a + b)[1..] == a[1..] + b;
      ReplaceCharAppend(a[1..], b, c, rep);
    }
  }

  /** The three replacements of `applyFiltersToQuery`, in source order:
      backslash first, then `%`, then `_`. */
  function EscapeForLike(s: string): string {
    ReplaceChar(ReplaceChar(ReplaceChar(s, '\\', "\\\\"), '%', "\\%"), '_', "\\_")
  }

  /** A character `LIKE` gives a meaning to. */
  predicate IsLikeSpecial(c: char) {
    c == '\\' || c == '%' || c == '_'
  }

  /** Escaping one character at a time: a special character gets a
      backslash in front of it. */
  function EscapeChars(s: string): (r: string)
    ensures |s| <= |r| <= 2 * |s|
  {
    if s == [] then []
    else (if IsLikeSpecial(s[0]) then ['\\', s[0]] else [s[0]]) + EscapeChars(s[1..])
  }

  /** The chained replacements escape one character at a time; this holds
      because the backslash is doubled before any other backslash is
      introduced. */
  lemma {:induction false} EscapeForLikeIsPerChar(s: string)
    ensures EscapeForLike(s) == EscapeChars(s)
  {
    if s != [] {
      var c, t := s[0], s[1..];
      assert s == [c] + t;
      EscapeForLikeIsPerChar(t);
      ReplaceCharAppend([c], t, '\\', "\\\\");
      var a1, b1 := ReplaceChar([c], '\\', "\\\\"), ReplaceChar(t, '\\', "\\\\");
      ReplaceCharAppend(a1, b1, '%', "\\%");
      var a2, b2 := ReplaceChar(a1, '%', "\\%"), ReplaceChar(b1, '%', "\\%");
      ReplaceCharAppend(a2, b2, '_', "\\_");
      assert ReplaceChar(a2, '_', "\\_") == (if IsLikeSpecial(c) then ['\\', c] else [c]);
    }
  }

  /** SQL `LIKE` with `\` as escape character: `%` matches any run of
      characters, `_` any one character, `\x` the character `x`, and any
      other character itself. */
  predicate Like(p: string, t: string)
    decreases |p| + |t|
  {
    if p == [] then t == []
    else if p[0] == '\\' && |p| >= 2 then t != [] && t[0] == p[1] && Like(p[2..], t[1..])
    else if p[0] == '%' then Like(p[1..], t) || (t != [] && Like(p, t[1..]))
    else if p[0] == '_' then t != [] && Like(p[1..], t[1..])
    else t != [] && t[0] == p[0] && Like(p[1..], t[1..])
  }

  /** `ILIKE`: `LIKE` on the lower-cased pattern and text. */
  predicate ILike(p: string, t: string) {
    Like(Lower(p), Lower(t))
  }

  /** A lone `%` matches everything. */
  lemma {:induction false} PercentMatchesAll(t: string)
    ensures Like("%", t)
    decreases |t|
  {
    if t != [] {
      PercentMatchesAll(t[1..]);
    }
  }

  /** The escaped text followed by `%` matches exactly the strings that
      start with the text. */
  lemma {:induction false} EscapedPrefixMatch(s: string, t: string)
    ensures Like(EscapeChars(s) + "%", t) <==> s <= t
    decreases |s|
  {
    if s == [] {
      assert EscapeChars(s) + "%" == "%";
      PercentMatchesAll(t);
    } else {
      var p := EscapeChars(s) + "%";
      var rest := EscapeChars(s[1..]) + "%";
      EscapedPrefixMatch(s[1..], if t == [] then t else t[1..]);
      if IsLikeSpecial(s[0]) {
        assert p == ['\\', s[0]] + rest;
        assert p[2..] == rest;
      } else {
        assert p == [s[0]] + rest;
        assert p[1..] == rest;
      }
      assert s <= t <==> t != [] && t[0] == s[0] && s[1..] <= t[1..];
    }
  }

  /** Lower-casing leaves the special characters alone, so it commutes with
      escaping. */
  lemma {:induction false} LowerEscape(s: string)
    ensures Lower(EscapeChars(s)) == EscapeChars(Lower(s))
  {
    if s != [] {
      LowerEscape(s[1..]);
      var head := if IsLikeSpecial(s[0]) then ['\\', s[0]] else [s[0]];
      LowerAppend(head, EscapeChars(s[1..]));
      assert Lower(s)[1..] == Lower(s[1..]);
    }
  }

  /** The bound parameter of the name search. */
  function SearchPattern(q: string): string {
    EscapeForLike(JavaTrim(q)) + "%"
  }

  /** The name search keeps exactly the names that start with the trimmed
      search text, ignoring ASCII case; `%`, `_` and `\` in the text match
      only themselves. */
  lemma SearchIsPrefixMatch(q: string, name: string)
    ensures ILike(SearchPattern(q), name) <==> Lower(JavaTrim(q)) <= Lower(name)
  {
    var s := JavaTrim(q);
    EscapeForLikeIsPerChar(s);
    LowerAppend(EscapeChars(s), "%");
    LowerEscape(s);
    assert Lower("%") == "%";
    EscapedPrefixMatch(Lower(s), Lower(name));
  }
}
