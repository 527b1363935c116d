/** The tag table and `TagRepository`: every tag is a row keyed by its
    normalised key and carrying the display name it was first created
    with. */
module TagStore {
  import opened Wrappers
  import opened Tags
  import opened Sorting

  /** One row of the tag table (its surrogate id is represented by the key,
      which the table keeps unique). */
  datatype TagRow = TagRow(tagKey: string, tagName: string)

  /** Some row has key `k`. */
  predicate HasKey(tags: seq<TagRow>, k: string) {
    exists i | 0 <= i < |tags| :: tags[i].tagKey == k
  }

  /** The unique constraint on `tag_key`. */
  predicate UniqueKeys(tags: seq<TagRow>) {
    forall i, j | 0 <= i < j < |tags| :: tags[i].tagKey != tags[j].tagKey
  }

  /** The display name stored under `k`, if any. */
  function NameOf(tags: seq<TagRow>, k: string): (r: Option<string>)
    ensures r.Some? <==> HasKey(tags, k)
    ensures r.Some? ==> TagRow(k, r.value) in tags
  {
    if tags == [] then None
    else if tags[0].tagKey == k then Some(tags[0].tagName)
    else
      var r := NameOf(tags[1..], k);
      assert HasKey(tags[1..], k) ==> HasKey(tags, k) by {
        if HasKey(tags[1..], k) {
          var i :| 0 <= i < |tags[1..]| && tags[1..][i].tagKey == k;
          assert tags[i + 1].tagKey == k;
        }
      }
      r
  }

  /** A row already in the table is what a lookup after an append finds. */
  lemma {:induction false} NameOfAppend(a: seq<TagRow>, b: seq<TagRow>, k: string)
    ensures NameOf(a + b, k) == if HasKey(a, k) then NameOf(a, k) else NameOf(b, k)
  {
    if a != [] {
      assert (a + b)[1..] == a[1..] + b;
      NameOfAppend(a[1..], b, k);
      if a[0].tagKey != k {
        assert HasKey(a, k) ==> HasKey(a[1..], k) by {
          if HasKey(a, k) {
            var i :| 0 <= i < |a| && a[i].tagKey == k;
            assert a[1..][i - 1].tagKey == k;
          }
        }
      }
    } else {
      assert a + b == b;
    }
  }

  /** One `INSERT … ON CONFLICT (tag_key) DO NOTHING` of a row. */
  function InsertRow(tags: seq<TagRow>, k: string, name: string): (r: seq<TagRow>)
    ensures HasKey(r, k)
    ensures tags <= r && |r| <= |tags| + 1
    ensures HasKey(tags, k) ==> r == tags
    ensures !HasKey(tags, k) ==> r == tags + [TagRow(k, name)]
    ensures UniqueKeys(tags) ==> UniqueKeys(r)
  {
    if HasKey(tags, k) then tags
    else
      var r := tags + [TagRow(k, name)];
      assert r[|tags|].tagKey == k;
      r
  }

  /** The key a display name is stored under. */
  function KeyOf(name: string): (k: string)
    ensures IsKey(k)
  {
    ToTagKey(Some(name))
  }

  /** The batch: the names inserted one after the other, in list order,
      each under `key` of itself. */
  function InsertAll(tags: seq<TagRow>, names: seq<string>, key: string -> string): (r: seq<TagRow>)
    ensures tags <= r && |r| <= |tags| + |names|
    ensures UniqueKeys(tags) ==> UniqueKeys(r)
    decreases |names|
  {
    if names == [] then tags
    else InsertAll(InsertRow(tags, key(names[0]), names[0]), names[1..], key)
  }

  /** `ensureTagsExist`: a missing or empty list does nothing; otherwise
      each display name is inserted under its tag key unless that key
      exists. */
  function EnsureTagsExist(tags: seq<TagRow>, names: Option<seq<string>>): (r: seq<TagRow>)
    ensures names.None? || names.value == [] ==> r == tags
    ensures tags <= r
    ensures UniqueKeys(tags) ==> UniqueKeys(r)
  {
    if names.None? || names.value == [] then tags
    else InsertAll(tags, names.value, KeyOf)
  }

  /** A key that is present stays present. */
  lemma KeyKept(a: seq<TagRow>, b: seq<TagRow>, k: string)
    requires a <= b && HasKey(a, k)
    ensures HasKey(b, k)
  {
    var i :| 0 <= i < |a| && a[i].tagKey == k;
    assert b[i] == a[i];
  }

  /** Afterwards every requested name's key is in the table. */
  lemma {:induction false} AllKeysPresent(tags: seq<TagRow>, names: seq<string>, key: string -> string, i: nat)
    requires i < |names|
    ensures HasKey(InsertAll(tags, names, key), key(names[i]))
    decreases |names|
  {
    var t1 := InsertRow(tags, key(names[0]), names[0]);
    if i == 0 {
      KeyKept(t1, InsertAll(t1, names[1..], key), key(names[0]));
    } else {
      AllKeysPresent(t1, names[1..], key, i - 1);
    }
  }

  /** After `ensureTagsExist` the tag key of every requested name exists. */
  lemma EnsuredKeysExist(tags: seq<TagRow>, names: seq<string>, i: nat)
    requires i < |names|
    ensures HasKey(EnsureTagsExist(tags, Some(names)), ToTagKey(Some(names[i])))
  {
    AllKeysPresent(tags, names, KeyOf, i);
  }

  /** The name stored under an existing key is never overwritten. */
  lemma NeverOverwrites(tags: seq<TagRow>, names: Option<seq<string>>, k: string)
    requires HasKey(tags, k)
    ensures NameOf(EnsureTagsExist(tags, names), k) == NameOf(tags, k)
  {
    var r := EnsureTagsExist(tags, names);
    assert r == tags + r[|tags|..];
    NameOfAppend(tags, r[|tags|..], k);
  }

  /** A key absent before the batch and unequal to the first name's key
      is still absent after that first insert. */
  lemma AbsentAfterOtherInsert(tags: seq<TagRow>, k0: string, name: string, k: string)
    requires !HasKey(tags, k) && k0 != k
    ensures !HasKey(InsertRow(tags, k0, name), k)
  {
    var t1 := InsertRow(tags, k0, name);
    if t1 != tags {
      assert t1[|tags|].tagKey == k0;
    }
  }

  /** A row that is in place before the rest of the batch keeps its name. */
  lemma NameKeptByRest(t1: seq<TagRow>, names: seq<string>, key: string -> string, k: string)
    requires HasKey(t1, k)
    ensures NameOf(InsertAll(t1, names, key), k) == NameOf(t1, k)
  {
    var r := InsertAll(t1, names, key);
    assert r == t1 + r[|t1|..];
    NameOfAppend(t1, r[|t1|..], k);
  }

  /** A new key `k` gets the display name of the first name in the batch
      with that key. */
  lemma {:induction false} FirstInsertWins(tags: seq<TagRow>, names: seq<string>, key: string -> string, i: nat, k: string)
    requires i < |names| && k == key(names[i]) && !HasKey(tags, k)
    requires forall j | 0 <= j < i :: key(names[j]) != k
    ensures NameOf(InsertAll(tags, names, key), k) == Some(names[i])
    decreases |names|
  {
    var t1 := InsertRow(tags, key(names[0]), names[0]);
    assert InsertAll(tags, names, key) == InsertAll(t1, names[1..], key);
    if i == 0 {
      NameOfAppend(tags, [TagRow(k, names[0])], k);
      NameKeptByRest(t1, names[1..], key, k);
    } else {
      AbsentAfterOtherInsert(tags, key(names[0]), names[0], k);
      var rest := names[1..];
      forall j | 0 <= j < i - 1
        ensures key(rest[j]) != k
      {
        assert rest[j] == names[j + 1];
      }
      FirstInsertWins(t1, rest, key, i - 1, k);
    }
  }

  /** A new key is stored with the display name, verbatim, of the first
      name in the batch that normalises to it. */
  lemma FirstNameWins(tags: seq<TagRow>, names: seq<string>, i: nat)
    requires i < |names| && !HasKey(tags, ToTagKey(Some(names[i])))
    requires forall j | 0 <= j < i :: ToTagKey(Some(names[j])) != ToTagKey(Some(names[i]))
    ensures NameOf(EnsureTagsExist(tags, Some(names)), ToTagKey(Some(names[i]))) == Some(names[i])
  {
    FirstInsertWins(tags, names, KeyOf, i, ToTagKey(Some(names[i])));
  }

  /** Inserting names whose keys all exist changes nothing. */
  lemma {:induction false} InsertAllPresent(tags: seq<TagRow>, names: seq<string>, key: string -> string)
    requires forall i | 0 <= i < |names| :: HasKey(tags, key(names[i]))
    ensures InsertAll(tags, names, key) == tags
    decreases |names|
  {
    if names != [] {
      assert HasKey(tags, key(names[0]));
      InsertAllPresent(tags, names[1..], key);
    }
  }

  /** Ensuring the same names twice is the same as once. */
  lemma EnsureIdempotent(tags: seq<TagRow>, names: Option<seq<string>>)
    ensures EnsureTagsExist(EnsureTagsExist(tags, names), names) == EnsureTagsExist(tags, names)
  {
    if names.Some? && names.value != [] {
      var r := InsertAll(tags, names.value, KeyOf);
      forall i | 0 <= i < |names.value|
        ensures HasKey(r, KeyOf(names.value[i]))
      {
        AllKeysPresent(tags, names.value, KeyOf, i);
      }
      InsertAllPresent(r, names.value, KeyOf);
    }
  }

  /** `listAll`: every tag, as a `TagDto`, by display name ascending. */
  function ListAll(tags: seq<TagRow>): (r: seq<TagDto>)
    ensures |r| == |tags|
    ensures SortedBy(r, (t: TagDto) => t.tagName)
    ensures multiset(r) == multiset(Dtos(tags))
  {
    SortBy(Dtos(tags), (t: TagDto) => t.tagName)
  }

  /** The rows as transfer objects, in table order. */
  function Dtos(tags: seq<TagRow>): (r: seq<TagDto>)
    ensures |r| == |tags|
    ensures forall i | 0 <= i < |r| :: r[i] == TagDto(tags[i].tagKey, tags[i].tagName)
  {
    seq(|tags|, i requires 0 <= i < |tags| => TagDto(tags[i].tagKey, tags[i].tagName))
  }
}
