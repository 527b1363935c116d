/** Reading the tag arrays a company query aggregates (`SqlArrayUtils`). */
module SqlArrays {
  import opened Wrappers
  import opened Text
  import opened Tags
  import opened Errors

  /** A SQL array value as the driver hands it over: its payload may itself
      be `null`, and so may each element. */
  datatype SqlArray = SqlArray(payload: Option<seq<Option<string>>>)

  /** `toStringList`: a `null` array, or one with a `null` payload, reads as
      the empty list; otherwise the elements, `null`s included. */
  function ToStringList(a: Option<SqlArray>): (r: seq<Option<string>>)
    ensures a.None? || a.value.payload.None? ==> r == []
    ensures a.Some? && a.value.payload.Some? ==> r == a.value.payload.value
  {
    match a
    case None => []
    case Some(SqlArray(p)) => p.GetOr([])
  }

  /** A present, non-blank element. */
  predicate Usable(x: Option<string>) {
    x.Some? && !JavaIsBlank(x.value)
  }

  /** A key/name pair `zipTags` keeps. */
  predicate KeepPair(p: (Option<string>, Option<string>)) {
    Usable(p.0) && Usable(p.1)
  }

  /** The pairs of `keys` and `names` position by position. */
  function Zip(keys: seq<Option<string>>, names: seq<Option<string>>): (r: seq<(Option<string>, Option<string>)>)
    requires |keys| == |names|
    ensures |r| == |keys|
    ensures forall i | 0 <= i < |r| :: r[i] == (keys[i], names[i])
  {
    seq(|keys|, i requires 0 <= i < |keys| => (keys[i], names[i]))
  }

  /** The tag a pair reads as, trimmed (a missing element reads as ""). */
  function PairTag(p: (Option<string>, Option<string>)): TagDto {
    TagDto(JavaTrim(p.0.GetOr([])), JavaTrim(p.1.GetOr([])))
  }

  /** `PairTag` of each pair. */
  function ToDtos(ps: seq<(Option<string>, Option<string>)>): (r: seq<TagDto>)
    ensures |r| == |ps|
    ensures forall i | 0 <= i < |r| :: r[i] == PairTag(ps[i])
  {
    seq(|ps|, i requires 0 <= i < |ps| => PairTag(ps[i]))
  }

  /** What `zipTags` returns, defined without its loop: the trimmed kept
      pairs, in order. */
  function ZippedTags(keys: seq<Option<string>>, names: seq<Option<string>>): (r: seq<TagDto>)
    requires |keys| == |names|
    ensures |r| <= |keys|
  {
    ToDtos(Filter(Zip(keys, names), KeepPair))
  }

  lemma ToDtosAppend(a: seq<(Option<string>, Option<string>)>, b: seq<(Option<string>, Option<string>)>)
    ensures ToDtos(a + b) == ToDtos(a) + ToDtos(b)
  {
  }

  lemma ZipSnoc(keys: seq<Option<string>>, names: seq<Option<string>>, i: nat)
    requires |keys| == |names| && i < |keys|
    ensures Zip(keys[..i + 1], names[..i + 1]) == Zip(keys[..i], names[..i]) + [(keys[i], names[i])]
  {
  }

  /** One more position adds its pair's tag when the pair is kept. */
  lemma ZippedTagsSnoc(keys: seq<Option<string>>, names: seq<Option<string>>, i: nat)
    requires |keys| == |names| && i < |keys|
    ensures ZippedTags(keys[..i + 1], names[..i + 1]) ==
      ZippedTags(keys[..i], names[..i]) + (if KeepPair((keys[i], names[i])) then [PairTag((keys[i], names[i]))] else [])
  {
    var zi, p := Zip(keys[..i], names[..i]), (keys[i], names[i]);
    ZipSnoc(keys, names, i);
    FilterAppend(zi, [p], KeepPair);
    ToDtosAppend(Filter(zi, KeepPair), Filter([p], KeepPair));
    if KeepPair(p) {
      assert Filter([p], KeepPair) == [p];
    } else {
      assert Filter([p], KeepPair) == [];
    }
  }

  /** `zipTags`: both lists must be equally long (`IllegalStateException`
      otherwise); the result is the trimmed pairs whose key and name are
      both present and non-blank, in input order. */
  method ZipTags(keys: seq<Option<string>>, names: seq<Option<string>>) returns (r: Result<seq<TagDto>, Failure>)
    ensures r.Failure? <==> |keys| != |names|
    ensures r.Failure? ==> r.error.IllegalState?
    ensures r.Success? ==> r.value == ZippedTags(keys, names)
  {
    if |keys| != |names| {
      return Failure(IllegalState("Tag arrays must have same size. keys=" + IntText(|keys|) + ", names=" + IntText(|names|)));
    }
    var kept := KeptTags(keys, names);
    return Success(kept);
  }

  /** The loop of `zipTags`, once the lengths are known to agree. */
  method KeptTags(keys: seq<Option<string>>, names: seq<Option<string>>) returns (result: seq<TagDto>)
    requires |keys| == |names|
    ensures result == ZippedTags(keys, names)
  {
    result := [];
    var i := 0;
    assert keys[..0] == [] && names[..0] == [];
    while i < |keys|
      invariant 0 <= i <= |keys|
      invariant result == ZippedTags(keys[..i], names[..i])
    {
      var key, name := keys[i], names[i];
      ZippedTagsSnoc(keys, names, i);
      if key.Some? && !JavaIsBlank(key.value) && name.Some? && !JavaIsBlank(name.value) {
        result := result + [TagDto(JavaTrim(key.value), JavaTrim(name.value))];
      }
      i := i + 1;
    }
    assert keys[..i] == keys && names[..i] == names;
  }

  /** Every tag `zipTags` keeps comes from a position whose key and name are
      both present and non-blank, and is that pair trimmed. */
  lemma ZippedTagsSound(keys: seq<Option<string>>, names: seq<Option<string>>, j: nat)
    requires |keys| == |names| && j < |ZippedTags(keys, names)|
    ensures exists i | 0 <= i < |keys| ::
      Usable(keys[i]) && Usable(names[i]) &&
      ZippedTags(keys, names)[j] == TagDto(JavaTrim(keys[i].value), JavaTrim(names[i].value))
  {
    var kept := Filter(Zip(keys, names), KeepPair);
    FilterSound(Zip(keys, names), KeepPair);
    assert kept[j] in Zip(keys, names);
  }

  /** A pair with present, non-blank key and name is never dropped. */
  lemma ZippedTagsComplete(keys: seq<Option<string>>, names: seq<Option<string>>, i: nat)
    requires |keys| == |names| && i < |keys|
    requires Usable(keys[i]) && Usable(names[i])
    ensures TagDto(JavaTrim(keys[i].value), JavaTrim(names[i].value)) in ZippedTags(keys, names)
  {
    var kept := Filter(Zip(keys, names), KeepPair);
    FilterComplete(Zip(keys, names), KeepPair, i);
    var j :| 0 <= j < |kept| && kept[j] == Zip(keys, names)[i];
    assert ZippedTags(keys, names)[j] == PairTag(kept[j]);
  }
}
