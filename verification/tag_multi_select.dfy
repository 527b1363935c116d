/** The tag picker of the company dialogs: a text box with suggestions
    drawn from the known tags, chips for the chosen tags, Enter to take the
    first suggestion or to make a new tag from the typed text, Escape to
    close the list. The chosen tags never repeat a key. */
module TagMultiSelect {
  import opened Wrappers
  import opened Text

  /** A tag the picker offers or holds: its key and the label it shows. */
  datatype TagOption = TagOption(key: string, labelText: string)

  /** `normalize`: trimmed and lower-cased. */
  function Normalize(s: string): (r: string)
    ensures |r| <= |s|
    ensures IsLower(r)
  {
    LowerIsLower(JsTrim(s));
    Lower(JsTrim(s))
  }

  /** The keys of a list of tags, in order. */
  function Keys(xs: seq<TagOption>): (r: seq<string>)
    ensures |r| == |xs| && forall i | 0 <= i < |xs| :: r[i] == xs[i].key
  {
    seq(|xs|, i requires 0 <= i < |xs| => xs[i].key)
  }

  /** No two tags share a key. */
  predicate UniqueKeys(xs: seq<TagOption>) {
    forall i, j | 0 <= i < j < |xs| :: xs[i].key != xs[j].key
  }

  // ---------------------------------------------------------------------
  // uniqueByKey
  // ---------------------------------------------------------------------

  /** `uniqueByKey`: each tag is copied to the output unless a tag already
      copied has its key. */
  function UniqueByKey(xs: seq<TagOption>): (r: seq<TagOption>)
    ensures UniqueKeys(r)
    ensures forall i | 0 <= i < |r| :: r[i] in xs
    ensures forall k :: k in Keys(r) <==> k in Keys(xs)
  {
    if xs == [] then []
    else
      var init, t := xs[..|xs| - 1], xs[|xs| - 1];
      var d := UniqueByKey(init);
      assert Keys(xs) == Keys(init) + [t.key];
      if t.key in Keys(d) then d
      else
        assert Keys(d + [t]) == Keys(d) + [t.key];
        d + [t]
  }

  /** The first tag of each key survives. */
  lemma {:induction false} UniqueByKeyKeepsFirst(xs: seq<TagOption>, i: nat)
    requires i < |xs| && forall j | 0 <= j < i :: xs[j].key != xs[i].key
    ensures xs[i] in UniqueByKey(xs)
  {
    var init := xs[..|xs| - 1];
    if i < |xs| - 1 {
      assert init[i] == xs[i];
      UniqueByKeyKeepsFirst(init, i);
    } else {
      assert xs[i].key !in Keys(init);
    }
  }

  /** A key-distinct list is left as it is. */
  lemma {:induction false} UniqueByKeyOfUnique(xs: seq<TagOption>)
    requires UniqueKeys(xs)
    ensures UniqueByKey(xs) == xs
  {
    if xs != [] {
      var init := xs[..|xs| - 1];
      UniqueByKeyOfUnique(init);
      assert xs[|xs| - 1].key !in Keys(init);
      assert xs == init + [xs[|xs| - 1]];
    }
  }

  /** Appending one tag to a key-distinct list: `uniqueByKey` keeps the
      list as it was when the key is already there, and appends the tag
      otherwise. */
  lemma UniqueByKeyAppend(xs: seq<TagOption>, t: TagOption)
    requires UniqueKeys(xs)
    ensures t.key in Keys(xs) ==> UniqueByKey(xs + [t]) == xs
    ensures t.key !in Keys(xs) ==> UniqueByKey(xs + [t]) == xs + [t]
  {
    UniqueByKeyOfUnique(xs);
    assert (xs + [t])[..|xs|] == xs;
  }

  // ---------------------------------------------------------------------
  // Suggestions
  // ---------------------------------------------------------------------

  /** At most this many suggestions are listed. */
  const MaxSuggestions: nat := 12

  function NotSelected(keys: seq<string>): TagOption -> bool {
    (t: TagOption) => t.key !in keys
  }

  function LabelHas(query: string): TagOption -> bool {
    (t: TagOption) => Includes(Normalize(t.labelText), query)
  }

  /** Every known tag not yet chosen whose normalized label contains the
      normalized text, in the known order. */
  function Matching(options: seq<TagOption>, value: seq<TagOption>, text: string): seq<TagOption> {
    Filter(Filter(options, NotSelected(Keys(value))), LabelHas(Normalize(text)))
  }

  /** Every label contains the empty query, so it filters nothing out. */
  lemma EmptyQueryKeepsAll(base: seq<TagOption>)
    ensures Filter(base, LabelHas([])) == base
  {
    forall i | 0 <= i < |base|
      ensures LabelHas([])(base[i])
    {
      IncludesEmpty(Normalize(base[i].labelText));
    }
    FilterAll(base, LabelHas([]));
  }

  /** `filtered`: the known tags not yet chosen, the first twelve of them
      when the normalized text is empty, else the first twelve whose
      normalized label contains it. */
  function Suggestions(options: seq<TagOption>, value: seq<TagOption>, text: string): (r: seq<TagOption>)
    ensures r <= Matching(options, value, text)
    ensures |r| == if |Matching(options, value, text)| < MaxSuggestions
                   then |Matching(options, value, text)| else MaxSuggestions
  {
    var query := Normalize(text);
    var base := Filter(options, NotSelected(Keys(value)));
    if query == [] then
      EmptyQueryKeepsAll(base);
      Take(base, MaxSuggestions)
    else
      Take(Filter(base, LabelHas(query)), MaxSuggestions)
  }

  /** A tag matches exactly when it is known, not yet chosen and its
      normalized label contains the normalized text. */
  lemma MatchingMember(options: seq<TagOption>, value: seq<TagOption>, text: string, t: TagOption)
    ensures t in Matching(options, value, text) <==>
      t in options && t.key !in Keys(value) && Includes(Normalize(t.labelText), Normalize(text))
  {
    var base := Filter(options, NotSelected(Keys(value)));
    FilterMember(options, NotSelected(Keys(value)), t);
    FilterMember(base, LabelHas(Normalize(text)), t);
  }

  /** What is suggested is a known tag, not yet chosen, whose normalized
      label contains the normalized text; fewer than twelve suggestions
      means every such tag is listed. */
  lemma SuggestionsSoundAndComplete(options: seq<TagOption>, value: seq<TagOption>, text: string, t: TagOption)
    ensures t in Suggestions(options, value, text) ==>
      t in options && t.key !in Keys(value) && Includes(Normalize(t.labelText), Normalize(text))
    ensures |Suggestions(options, value, text)| < MaxSuggestions ==>
      (t in Suggestions(options, value, text) <==>
       t in options && t.key !in Keys(value) && Includes(Normalize(t.labelText), Normalize(text)))
  {
    MatchingMember(options, value, text, t);
    SuggestedAreMatching(options, value, text, t);
  }

  /** The suggestions are the first of the matching tags, all of them when
      fewer than twelve. */
  lemma SuggestedAreMatching(options: seq<TagOption>, value: seq<TagOption>, text: string, t: TagOption)
    ensures t in Suggestions(options, value, text) ==> t in Matching(options, value, text)
    ensures |Suggestions(options, value, text)| < MaxSuggestions ==>
      Suggestions(options, value, text) == Matching(options, value, text)
  {
    var m := Matching(options, value, text);
    var r := Suggestions(options, value, text);
    if t in r {
      var i :| 0 <= i < |r| && r[i] == t;
      assert m[i] == t;
    }
  }

  // ---------------------------------------------------------------------
  // Adding, removing and creating tags
  // ---------------------------------------------------------------------

  /** The picker's state: the chosen tags (held by the dialog), the text
      box and whether the suggestion list is open. */
  datatype Picker = Picker(value: seq<TagOption>, text: string, open: bool)

  /** `addTag`: append the tag unless its key is chosen, clear the text and
      keep the list open. */
  function AddTag(p: Picker, t: TagOption): (r: Picker)
    ensures r.text == [] && r.open
    ensures UniqueKeys(r.value)
    ensures forall k :: k in Keys(r.value) <==> k in Keys(p.value) || k == t.key
  {
    var xs := UniqueByKey(p.value + [t]);
    assert Keys(p.value + [t]) == Keys(p.value) + [t.key];
    Picker(xs, [], true)
  }

  /** `removeTag`: drop every chosen tag with the key. */
  function RemoveTag(value: seq<TagOption>, key: string): (r: seq<TagOption>)
    ensures key !in Keys(r)
    ensures forall t | t in value :: t in r <==> t.key != key
    ensures IsSubsequence(r, value)
  {
    var r := Filter(value, (t: TagOption) => t.key != key);
    FilterOrdered(value, (t: TagOption) => t.key != key);
    forall t | t in value ensures t in r <==> t.key != key {
      FilterMember(value, (t: TagOption) => t.key != key, t);
    }
    r
  }

  /** No white space in `s`. */
  predicate SpaceFree(s: string) {
    forall i | 0 <= i < |s| :: !IsJsWhitespace(s[i])
  }

  /** `/\s+/g` replaced by `_`: every run of white space becomes one
      underscore. */
  function UnderscoreSpaces(s: string): (r: string)
    ensures SpaceFree(r)
    ensures |r| <= |s| && (s != [] ==> r != [])
    decreases |s|
  {
    if s == [] then []
    else if IsJsWhitespace(s[0]) then
      var rest := UnderscoreSpaces(TrimStart(s[1..], IsJsWhitespace));
      assert !IsJsWhitespace('_');
      assert forall i | 1 <= i < |rest| + 1 :: ("_" + rest)[i] == rest[i - 1];
      "_" + rest
    else
      var rest := UnderscoreSpaces(s[1..]);
      assert forall i | 1 <= i < |rest| + 1 :: ([s[0]] + rest)[i] == rest[i - 1];
      [s[0]] + rest
  }

  /** Text without white space is left as it is. */
  lemma {:induction false} UnderscoreSpacesOfSpaceFree(s: string)
    requires SpaceFree(s)
    ensures UnderscoreSpaces(s) == s
    decreases |s|
  {
    if s != [] {
      assert SpaceFree(s[1..]) by {
        forall i | 0 <= i < |s[1..]| ensures !IsJsWhitespace(s[1..][i]) {
          assert s[1..][i] == s[i + 1];
        }
      }
      UnderscoreSpacesOfSpaceFree(s[1..]);
      assert s == [s[0]] + s[1..];
    }
  }

  /** A lower-case text stays lower-case. */
  lemma {:induction false} UnderscoreSpacesKeepsLower(s: string)
    requires IsLower(s)
    ensures IsLower(UnderscoreSpaces(s))
    decreases |s|
  {
    if s != [] {
      if IsJsWhitespace(s[0]) {
        var tail := TrimStart(s[1..], IsJsWhitespace);
        LowerSuffix(s, |s| - |tail|);
        UnderscoreSpacesKeepsLower(tail);
        LowerCons('_', UnderscoreSpaces(tail));
      } else {
        LowerSuffix(s, 1);
        UnderscoreSpacesKeepsLower(s[1..]);
        LowerCons(s[0], UnderscoreSpaces(s[1..]));
      }
    }
  }

  /** The tag `createFromText` makes for text no known tag matches: keyed by
      the normalized text with underscores for its spaces, labelled by the
      trimmed text. */
  function NewTag(trimmed: string): (t: TagOption)
    requires trimmed != [] && !IsJsWhitespace(trimmed[0])
    ensures t.labelText == trimmed
    ensures t.key != [] && IsLower(t.key) && SpaceFree(t.key)
  {
    UnderscoreSpacesKeepsLower(Normalize(trimmed));
    assert JsTrim(trimmed) != [] by {
      assert TrimStart(trimmed, IsJsWhitespace) == trimmed;
    }
    TagOption(UnderscoreSpaces(Normalize(trimmed)), trimmed)
  }

  /** `createFromText`: nothing for blank text; the first known tag whose
      label normalizes the same, if any; otherwise a new tag. */
  function CreateFromText(options: seq<TagOption>, raw: string): (r: Option<TagOption>)
    ensures r.None? <==> JsTrim(raw) == []
    ensures r.Some? && r.value in options ==>
      exists i | 0 <= i < |options| :: options[i] == r.value &&
        SameLabel(Normalize(JsTrim(raw)))(options[i]) &&
        forall j | 0 <= j < i :: !SameLabel(Normalize(JsTrim(raw)))(options[j])
    ensures r.Some? && r.value !in options ==>
      (forall i | 0 <= i < |options| :: !SameLabel(Normalize(JsTrim(raw)))(options[i])) &&
      r.value == NewTag(JsTrim(raw))
  {
    var trimmed := JsTrim(raw);
    if trimmed == [] then None
    else
      var n := Normalize(trimmed);
      var m := FirstIndex(options, SameLabel(n));
      if m >= 0 then
        assert options[m] == options[m] && SameLabel(n)(options[m]) &&
          forall j | 0 <= j < m :: !SameLabel(n)(options[j]);
        Some(options[m])
      else
        var t := NewTag(trimmed);
        assert SameLabel(n)(t);
        assert t !in options;
        Some(t)
  }

  /** The test `options.find` applies: the normalized label is `n`. */
  function SameLabel(n: string): TagOption -> bool {
    (t: TagOption) => Normalize(t.labelText) == n
  }

  // ---------------------------------------------------------------------
  // Keys
  // ---------------------------------------------------------------------

  datatype Key = Escape | Enter | OtherKey

  /** `onKeyDown`: Escape closes the list; Enter takes the first suggestion,
      or else the tag made from the text, adding it when its key is new and
      only clearing the text when it is already chosen; other keys change
      nothing here. */
  function OnKeyDown(options: seq<TagOption>, p: Picker, key: Key): (r: Picker)
    ensures key == Escape ==> r == p.(open := false)
    ensures key == OtherKey ==> r == p
    ensures key == Enter && JsTrim(p.text) == [] && Suggestions(options, p.value, p.text) == [] ==> r == p
    ensures r.value != p.value ==> r.text == [] && r.open && UniqueKeys(r.value)
  {
    match key
    case Escape => p.(open := false)
    case OtherKey => p
    case Enter =>
      var sugg := Suggestions(options, p.value, p.text);
      if |sugg| > 0 then AddTag(p, sugg[0])
      else
        var created := CreateFromText(options, p.text);
        if created.None? then p
        else if created.value.key !in Keys(p.value) then AddTag(p, created.value)
        else p.(text := [])
  }

  /** Enter on a picker whose chosen keys are distinct either keeps the
      chosen tags or appends exactly one tag with a new key, and the keys
      stay distinct. */
  lemma EnterAppendsOneNewTag(options: seq<TagOption>, p: Picker)
    requires UniqueKeys(p.value)
    ensures var r := OnKeyDown(options, p, Enter);
      UniqueKeys(r.value) &&
      (r.value == p.value ||
       (|r.value| == |p.value| + 1 && r.value[..|p.value|] == p.value &&
        r.value[|p.value|].key !in Keys(p.value)))
  {
    var sugg := Suggestions(options, p.value, p.text);
    var r := OnKeyDown(options, p, Enter);
    if |sugg| > 0 {
      assert r == AddTag(p, sugg[0]);
      SuggestedAreMatching(options, p.value, p.text, sugg[0]);
      MatchingMember(options, p.value, p.text, sugg[0]);
      AddNewTagAppends(p, sugg[0]);
    } else {
      var created := CreateFromText(options, p.text);
      if created.Some? && created.value.key !in Keys(p.value) {
        assert r == AddTag(p, created.value);
        AddNewTagAppends(p, created.value);
      } else {
        assert r.value == p.value;
      }
    }
  }

  /** Adding a tag whose key is new to key-distinct chosen tags appends it. */
  lemma AddNewTagAppends(p: Picker, t: TagOption)
    requires UniqueKeys(p.value) && t.key !in Keys(p.value)
    ensures AddTag(p, t).value == p.value + [t]
    ensures (p.value + [t])[..|p.value|] == p.value && (p.value + [t])[|p.value|] == t
  {
    UniqueByKeyAppend(p.value, t);
  }
}
