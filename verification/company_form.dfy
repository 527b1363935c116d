/** What the three company dialogs share: the `MM/dd/yyyy` date field,
    the comma-separated tag text, and the schema checks on name, URL and
    revisit interval. Parsing and formatting a calendar date is the date
    library's business and enters as a parameter. */
module CompanyForm {
  import opened Wrappers
  import opened Text

  /** `parse(text, "MM/dd/yyyy")`, checked with `isValid` and written back
      with `format(date, "yyyy-MM-dd")`: the `yyyy-MM-dd` text of the date
      the input denotes, or nothing when it denotes none. */
  type DateParser = string -> Option<string>

  /** A message shown under a form field. */
  datatype FieldError = FieldError(field: string, message: string)

  const DateFormatMessage := "Use MM/DD/YYYY or pick from calendar"

  /** `parseMMddyyyyToYmd`: a blank text is no date. */
  function ParseDateText(text: string, parse: DateParser): (r: Option<string>)
    ensures JsTrim(text) == [] ==> r.None?
  {
    var trimmed := JsTrim(text);
    if trimmed == [] then None else parse(trimmed)
  }

  /** A date field whose text is there but does not parse. */
  predicate BadDate(text: Option<string>, parse: DateParser) {
    JsTrim(text.GetOr([])) != [] && parse(JsTrim(text.GetOr([]))).None?
  }

  /** The date check every dialog runs before it sends anything: a blank
      field gives no date, a text the parser accepts gives its date, any
      other text is an error on the field and nothing is sent. */
  function DateField(field: string, text: Option<string>, parse: DateParser): (r: Result<Option<string>, FieldError>)
    ensures r.Failure? <==> BadDate(text, parse)
    ensures r.Failure? ==> r.error == FieldError(field, DateFormatMessage)
    ensures r == Success(None) <==> JsTrim(text.GetOr([])) == []
    ensures r.Success? && r.value.Some? ==> r.value == parse(JsTrim(text.GetOr([])))
  {
    var input := text.GetOr([]);
    var ymd := ParseDateText(input, parse);
    if JsTrim(input) != [] && ymd.None? then Failure(FieldError(field, DateFormatMessage)) else Success(ymd)
  }

  /** JavaScript truthiness of a nullable string: present and not empty. */
  predicate Truthy(x: Option<string>) {
    x.Some? && x.value != []
  }

  /** A nullable date as the filters and dialogs read it: an empty text
      is no date. */
  function GivenDate(d: Option<string>): (r: Option<string>)
    ensures r.Some? <==> Truthy(d)
    ensures r.Some? ==> r == d
  {
    if Truthy(d) then d else None
  }

  /** `ymdToMmddyyyy`: a stored date written back as the field shows it. */
  type DateWriter = string -> string

  /** One date field: written into the form and read back. */
  lemma DateRoundTrip(field: string, d: Option<string>, write: DateWriter, parse: DateParser)
    requires Truthy(d) ==> JsTrim(write(d.value)) != [] && parse(JsTrim(write(d.value))) == d
    ensures DateField(field, Some(if Truthy(d) then write(d.value) else []), parse) == Success(GivenDate(d))
  {
    if !Truthy(d) {
      JsTrimEmpty();
    }
  }

  lemma JsTrimEmpty()
    ensures JsTrim([]) == []
  {
  }

  // ---------------------------------------------------------------------
  // Comma-separated tags
  // ---------------------------------------------------------------------

  predicate NonEmpty(s: string) {
    s != []
  }

  /** The trimmed pieces of `s.split(",")`, each passed through `post`. */
  function Pieces(s: string, post: string -> string): (r: seq<string>)
    ensures |r| == |Split(s, ',')|
    ensures forall i | 0 <= i < |r| :: r[i] == post(JsTrim(Split(s, ',')[i]))
  {
    var parts := Split(s, ',');
    seq(|parts|, i requires 0 <= i < |parts| => post(JsTrim(parts[i])))
  }

  /** `tagsFromText`: no text gives no tags; otherwise the pieces between
      commas, trimmed, passed through `post`, empty ones dropped. */
  function TagsFromText(text: Option<string>, post: string -> string): (r: seq<string>)
    ensures forall i | 0 <= i < |r| :: r[i] != []
    ensures text.None? || text == Some([]) ==> r == []
  {
    if text.None? || text.value == [] then [] else Filter(Pieces(text.value, post), NonEmpty)
  }

  /** A tag comes out of the text exactly when it is non-empty and some
      comma-separated piece trims (and post-processes) to it; tags keep
      the text's order. */
  lemma TagsFromTextMember(s: string, post: string -> string, t: string)
    requires s != []
    ensures t in TagsFromText(Some(s), post) <==>
      t != [] && exists i | 0 <= i < |Split(s, ',')| :: post(JsTrim(Split(s, ',')[i])) == t
    ensures IsSubsequence(TagsFromText(Some(s), post), Pieces(s, post))
  {
    var ps := Pieces(s, post);
    FilterMember(ps, NonEmpty, t);
    FilterOrdered(ps, NonEmpty);
    if t in ps {
      var i :| 0 <= i < |ps| && ps[i] == t;
      assert post(JsTrim(Split(s, ',')[i])) == t;
    }
    if exists i | 0 <= i < |Split(s, ',')| :: post(JsTrim(Split(s, ',')[i])) == t {
      var i :| 0 <= i < |Split(s, ',')| && post(JsTrim(Split(s, ',')[i])) == t;
      assert ps[i] == t;
    }
  }

  /** The list a dialog shows for saved tags: `tags.join(", ")`. */
  function JoinTags(tags: seq<string>): string {
    Join(tags, ", ")
  }

  /** The pieces `JoinTags` leaves between its commas: the first tag, then
      each later one behind a space. */
  function Spaced(tags: seq<string>): (r: seq<string>)
    ensures |r| == |tags|
    decreases |tags|
  {
    if |tags| <= 1 then tags else Spaced(tags[..|tags| - 1]) + [[' '] + tags[|tags| - 1]]
  }

  lemma {:induction false} SpacedAt(tags: seq<string>, i: nat)
    requires 0 < i < |tags|
    ensures Spaced(tags)[i] == [' '] + tags[i]
    ensures Spaced(tags)[0] == tags[0]
    decreases |tags|
  {
    if i < |tags| - 1 {
      SpacedAt(tags[..|tags| - 1], i);
    } else if |tags| > 2 {
      SpacedAt(tags[..|tags| - 1], 1);
    }
  }

  lemma {:induction false} JoinIsSpaced(tags: seq<string>)
    ensures Join(tags, ", ") == Join(Spaced(tags), [','])
    decreases |tags|
  {
    if |tags| > 1 {
      var rest := tags[1..];
      JoinIsSpaced(rest);
      SpacedTail(tags);
      assert Join(tags, ", ") == tags[0] + ", " + Join(rest, ", ");
      assert Spaced(tags)[0] == tags[0] by { SpacedAt(tags, 1); }
      assert Spaced(tags) == [tags[0]] + Spaced(tags)[1..];
      if |rest| == 1 {
        assert Spaced(rest) == rest;
        assert Spaced(tags)[1..] == [[' '] + rest[0]] by { SpacedAt(tags, 1); }
      } else {
        assert Spaced(tags)[1..] == [[' '] + rest[0]] + Spaced(rest)[1..];
        assert Spaced(rest) == [rest[0]] + Spaced(rest)[1..] by { SpacedAt(rest, 1); }
        assert Join(Spaced(rest), [',']) == rest[0] + [','] + Join(Spaced(rest)[1..], [',']);
      }
      assert Join(Spaced(tags), [',']) == tags[0] + [','] + Join(Spaced(tags)[1..], [',']);
    }
  }

  /** Dropping the first tag drops the first piece, and the new first piece
      gains its space. */
  lemma {:induction false} SpacedTail(tags: seq<string>)
    requires |tags| > 1
    ensures Spaced(tags)[1..] == [[' '] + tags[1]] + Spaced(tags[1..])[1..]
  {
    var a, b := Spaced(tags)[1..], [[' '] + tags[1]] + Spaced(tags[1..])[1..];
    forall k | 0 <= k < |a|
      ensures a[k] == b[k]
    {
      SpacedAt(tags, k + 1);
      if k > 0 {
        SpacedAt(tags[1..], k);
      }
    }
  }

  /** Trimmed, non-empty, comma-free tags that `post` leaves alone come
      back unchanged from the text that lists them. */
  lemma {:induction false} TagsFromJoinedText(tags: seq<string>, post: string -> string)
    requires forall i | 0 <= i < |tags| ::
      tags[i] != [] && JsTrimmed(tags[i]) && ',' !in tags[i] && post(tags[i]) == tags[i]
    ensures TagsFromText(Some(JoinTags(tags)), post) == tags
  {
    if tags != [] {
      var s := JoinTags(tags);
      SplitOfJoined(tags);
      assert s != [] by { JoinLength(tags); }
      var ps := Pieces(s, post);
      assert forall i | 0 <= i < |ps| :: ps[i] == post(tags[i]);
      assert ps == tags;
      FilterAll(ps, NonEmpty);
    }
  }

  /** The pieces of the joined text trim back to the tags. */
  lemma {:induction false} SplitOfJoined(tags: seq<string>)
    requires tags != []
    requires forall i | 0 <= i < |tags| :: JsTrimmed(tags[i]) && ',' !in tags[i]
    ensures |Split(JoinTags(tags), ',')| == |tags|
    ensures forall i | 0 <= i < |tags| :: JsTrim(Split(JoinTags(tags), ',')[i]) == tags[i]
  {
    var sp := Spaced(tags);
    forall i | 0 <= i < |sp|
      ensures ',' !in sp[i] && JsTrim(sp[i]) == tags[i]
    {
      if i > 0 {
        SpacedAt(tags, i);
        TrimOfSpaced(tags[i]);
      } else {
        if |tags| > 1 {
          SpacedAt(tags, 1);
        }
        JsTrimmedIsFixed(tags[0]);
      }
    }
    JoinIsSpaced(tags);
    SplitJoin(sp, ',');
  }

  lemma TrimOfSpaced(t: string)
    requires JsTrimmed(t)
    ensures JsTrim([' '] + t) == t
  {
    TrimSkipsLeading(' ', t, IsJsWhitespace);
    JsTrimmedIsFixed(t);
  }

  lemma {:induction false} JoinLength(tags: seq<string>)
    requires tags != []
    ensures |tags[0]| <= |Join(tags, ", ")|
  {
  }

  // ---------------------------------------------------------------------
  // Schema
  // ---------------------------------------------------------------------

  const MaxNameLength := 120

  /** `z.string().min(1, …).max(120)` on the name as typed. */
  function NameError(name: string): (r: Option<FieldError>)
    ensures r.None? <==> 1 <= |name| <= MaxNameLength
  {
    if |name| < 1 then Some(FieldError("companyName", "Company Name is required"))
    else if |name| > MaxNameLength then Some(FieldError("companyName", "String must contain at most 120 character(s)"))
    else None
  }

  /** `z.string().url(…)`; what counts as a URL is the validator's. */
  function UrlError(url: string, isUrl: string -> bool): (r: Option<FieldError>)
    ensures r.None? <==> isUrl(url)
  {
    if isUrl(url) then None else Some(FieldError("careersUrl", "Enter a valid URL"))
  }

  /** `z.number().int().min(1, "Min 1").max(max, "Max 20")`: the field is
      a number, so a fraction is possible. */
  function RevisitError(days: real, max: int): (r: Option<FieldError>)
    ensures r.None? <==> days == days.Floor as real && 1 <= days.Floor <= max
  {
    if days != days.Floor as real then Some(FieldError("revisitAfterDays", "Expected integer, received float"))
    else if days < 1.0 then Some(FieldError("revisitAfterDays", "Min 1"))
    else if days > max as real then Some(FieldError("revisitAfterDays", "Max 20"))
    else None
  }

  /** A field's message, if it has one. */
  function Listed(e: Option<FieldError>): (r: seq<FieldError>)
    ensures r == [] <==> e.None?
  {
    if e.Some? then [e.value] else []
  }
}
