/** `useTagOptions`: the tag list from the server turned into picker
    options, with keys and names trimmed and incomplete tags dropped. */
module TagOptions {
  import opened Wrappers
  import opened Text
  import opened TagMultiSelect

  /** A tag as the server sends it; either field may be missing. */
  datatype TagDto = TagDto(tagKey: Option<string>, tagName: Option<string>)

  /** `x?.trim() || ""`: the trimmed text, empty when missing. */
  function TrimmedOrEmpty(x: Option<string>): (r: string)
    ensures JsTrimmed(r)
    ensures x.None? ==> r == []
  {
    if x.None? then [] else JsTrimIsTrimmed(x.value); JsTrim(x.value)
  }

  /** The option made from one tag. */
  function OptionOf(t: TagDto): TagOption {
    TagOption(TrimmedOrEmpty(t.tagKey), TrimmedOrEmpty(t.tagName))
  }

  /** Both the key and the label have text. */
  predicate Complete(o: TagOption) {
    o.key != [] && o.labelText != []
  }

  function OptionsOf(tags: seq<TagDto>): (r: seq<TagOption>)
    ensures |r| == |tags| && forall i | 0 <= i < |tags| :: r[i] == OptionOf(tags[i])
  {
    seq(|tags|, i requires 0 <= i < |tags| => OptionOf(tags[i]))
  }

  /** `useTagOptions`: no data yet counts as no tags. */
  function UseTagOptions(data: Option<seq<TagDto>>): (r: seq<TagOption>)
    ensures |r| <= |data.GetOr([])|
    ensures forall i | 0 <= i < |r| ::
      r[i].key != [] && r[i].labelText != [] && JsTrimmed(r[i].key) && JsTrimmed(r[i].labelText)
  {
    var all := OptionsOf(data.GetOr([]));
    FilterSound(all, Complete);
    Filter(all, Complete)
  }

  /** An option is offered exactly when some tag trims to it with both
      fields non-empty; the options keep the server's order. */
  lemma UseTagOptionsMember(tags: seq<TagDto>, o: TagOption)
    ensures o in UseTagOptions(Some(tags)) <==>
      (exists i | 0 <= i < |tags| :: OptionOf(tags[i]) == o) && Complete(o)
    ensures IsSubsequence(UseTagOptions(Some(tags)), OptionsOf(tags))
  {
    var all := OptionsOf(tags);
    FilterMember(all, Complete, o);
    FilterOrdered(all, Complete);
    if o in all {
      var i :| 0 <= i < |all| && all[i] == o;
      assert OptionOf(tags[i]) == o;
    }
    if exists i | 0 <= i < |tags| :: OptionOf(tags[i]) == o {
      var i :| 0 <= i < |tags| && OptionOf(tags[i]) == o;
      assert all[i] == o;
    }
  }

  /** A tag whose key and name have text survives with both trimmed, and
      a tag with a trimmed key and name is offered unchanged. */
  lemma CompleteTagOffered(tags: seq<TagDto>, i: nat)
    requires i < |tags| && tags[i].tagKey.Some? && tags[i].tagName.Some?
    requires JsTrim(tags[i].tagKey.value) != [] && JsTrim(tags[i].tagName.value) != []
    ensures TagOption(JsTrim(tags[i].tagKey.value), JsTrim(tags[i].tagName.value)) in UseTagOptions(Some(tags))
  {
    FilterComplete(OptionsOf(tags), Complete, i);
  }
}
