/** Tag identity. A tag has a display name, kept as the user typed it, and
    a key, the canonical form two spellings of the same tag share
    (`CompanyTagUtil.toTagKey`). */
module Tags {
  import opened Wrappers
  import opened Text

  /** A tag as the API returns it: key and display name. */
  datatype TagDto = TagDto(tagKey: string, tagName: string)

  /** The characters a tag key may contain. */
  predicate IsKeyChar(c: char) {
    ('a' <= c <= 'z') || ('0' <= c <= '9')
  }

  /** Every character of `s` may appear in a key. */
  predicate IsKey(s: string) {
    forall i | 0 <= i < |s| :: IsKeyChar(s[i])
  }

  /** `toTagKey`: a missing name has the empty key; otherwise the name is
      trimmed, lower-cased, and stripped of everything but ASCII letters and
      digits. */
  function ToTagKey(raw: Option<string>): (k: string)
    ensures IsKey(k)
    ensures raw.None? ==> k == []
    ensures raw.Some? ==> |k| <= |raw.value|
  {
    match raw
    case None => []
    case Some(s) => Filter(Lower(JavaTrim(s)), IsKeyChar)
  }

  /** Keeping the lower-cased key characters distributes over
      concatenation. */
  lemma KeyCharsAppend(a: string, b: string)
    ensures Filter(Lower(a + b), IsKeyChar) == Filter(Lower(a), IsKeyChar) + Filter(Lower(b), IsKeyChar)
  {
    LowerAppend(a, b);
    FilterAppend(Lower(a), Lower(b), IsKeyChar);
  }

  /** The characters trimming removes are never key characters. */
  lemma TrimmedHaveNoKeyChars(s: string)
    requires forall i | 0 <= i < |s| :: IsJavaTrimmed(s[i])
    ensures Filter(Lower(s), IsKeyChar) == []
  {
    FilterNone(Lower(s), IsKeyChar);
  }

  /** Leading trimmable characters contribute nothing to the key. */
  lemma KeyCharsOfTrimStart(s: string)
    ensures Filter(Lower(TrimStart(s, IsJavaTrimmed)), IsKeyChar) == Filter(Lower(s), IsKeyChar)
  {
    var a := TrimStart(s, IsJavaTrimmed);
    var k := |s| - |a|;
    var pre := s[..k];
    assert s == pre + s[k..];
    assert forall i | 0 <= i < |pre| :: IsJavaTrimmed(pre[i]) by {
      forall i | 0 <= i < |pre| ensures IsJavaTrimmed(pre[i]) {
        assert pre[i] == s[i];
      }
    }
    TrimmedHaveNoKeyChars(pre);
    KeyCharsAppend(pre, a);
  }

  /** Trailing trimmable characters contribute nothing to the key. */
  lemma KeyCharsOfTrimEnd(a: string)
    ensures Filter(Lower(TrimEnd(a, IsJavaTrimmed)), IsKeyChar) == Filter(Lower(a), IsKeyChar)
  {
    var b := TrimEnd(a, IsJavaTrimmed);
    var k := |b|;
    var post := a[k..];
    assert a == a[..k] + post;
    assert forall i | 0 <= i < |post| :: IsJavaTrimmed(post[i]) by {
      forall i | 0 <= i < |post| ensures IsJavaTrimmed(post[i]) {
        assert post[i] == a[k + i];
      }
    }
    TrimmedHaveNoKeyChars(post);
    KeyCharsAppend(b, post);
  }

  /** The key of a name is the lower-cased letters and digits of the whole
      name, in order: trimming first makes no difference. */
  lemma KeyIsLetterAndDigitRun(s: string)
    ensures ToTagKey(Some(s)) == Filter(Lower(s), IsKeyChar)
  {
    KeyCharsOfTrimStart(s);
    KeyCharsOfTrimEnd(TrimStart(s, IsJavaTrimmed));
  }

  /** Names differing only in the case of ASCII letters share a key. */
  lemma KeyIgnoresCase(s: string, t: string)
    requires Lower(s) == Lower(t)
    ensures ToTagKey(Some(s)) == ToTagKey(Some(t))
  {
    KeyIsLetterAndDigitRun(s);
    KeyIsLetterAndDigitRun(t);
  }

  /** A key is its own key. */
  lemma KeyOfKey(k: string)
    requires IsKey(k)
    ensures ToTagKey(Some(k)) == k
  {
    KeyIsLetterAndDigitRun(k);
    LowerOfLower(k);
    FilterAll(k, IsKeyChar);
  }

  /** Hence `toTagKey` is idempotent. */
  lemma ToTagKeyIdempotent(raw: Option<string>)
    ensures ToTagKey(Some(ToTagKey(raw))) == ToTagKey(raw)
  {
    KeyOfKey(ToTagKey(raw));
  }
}
