/** The `due` query parameter of the company list (`DueFilter`). */
module DueFilters {
  import opened Wrappers
  import opened Text
  import opened Errors

  datatype DueFilter = Today | Overdue | Upcoming

  /** The lower-case spelling each constant is requested by. */
  function Name(d: DueFilter): string {
    match d
    case Today => "today"
    case Overdue => "overdue"
    case Upcoming => "upcoming"
  }

  /** `s` is the name of some constant. */
  predicate IsName(s: string) {
    s == Name(Today) || s == Name(Overdue) || s == Name(Upcoming)
  }

  /** `fromStringOrNull`: no filter for a missing or blank value; a known
      name, ignoring case and surrounding spaces, selects its constant;
      anything else is an `IllegalStateException`. */
  function FromStringOrNull(raw: Option<string>): (r: Result<Option<DueFilter>, Failure>)
    ensures r == Success(None) <==> raw.None? || JavaIsBlank(raw.value)
    ensures r.Success? && r.value.Some? ==> Lower(JavaTrim(raw.value)) == Name(r.value.value)
    ensures r.Failure? <==> raw.Some? && !JavaIsBlank(raw.value) && !IsName(Lower(JavaTrim(raw.value)))
    ensures r.Failure? ==> r.error.IllegalState?
  {
    if raw.None? || JavaIsBlank(raw.value) then Success(None)
    else
      var s := Lower(JavaTrim(raw.value));
      if s == Name(Today) then Success(Some(Today))
      else if s == Name(Overdue) then Success(Some(Overdue))
      else if s == Name(Upcoming) then Success(Some(Upcoming))
      else Failure(IllegalState("Invalid due value: " + raw.value + " (allowed: today, overdue, upcoming)"))
  }

  /** A string whose trim starts with a non-whitespace character is not
      blank. */
  lemma NotBlankIfTrimStartsSolid(s: string)
    requires JavaTrim(s) != [] && !IsJavaWhitespace(JavaTrim(s)[0])
    ensures !JavaIsBlank(s)
  {
    var a := TrimStart(s, IsJavaTrimmed);
    assert JavaTrim(s)[0] == a[0] == s[|s| - |a|];
  }

  /** Any spelling that trims and lower-cases to a constant's name parses
      to that constant; in particular the name itself does. */
  lemma ParsesEverySpelling(s: string, d: DueFilter)
    requires Lower(JavaTrim(s)) == Name(d)
    ensures FromStringOrNull(Some(s)) == Success(Some(d))
  {
    SpellingIsNotBlank(s, d);
    ParsesNonBlank(s, d);
  }

  lemma SpellingIsNotBlank(s: string, d: DueFilter)
    requires Lower(JavaTrim(s)) == Name(d)
    ensures !JavaIsBlank(s)
  {
    var t := JavaTrim(s);
    assert LowerChar(t[0]) == Name(d)[0];
    assert 'a' <= t[0] <= 'z' || 'A' <= t[0] <= 'Z';
    NotBlankIfTrimStartsSolid(s);
  }

  lemma ParsesNonBlank(s: string, d: DueFilter)
    requires !JavaIsBlank(s) && Lower(JavaTrim(s)) == Name(d)
    ensures FromStringOrNull(Some(s)) == Success(Some(d))
  {
  }

  /** Requesting a constant by its name gives the constant back. */
  lemma NameRoundTrip(d: DueFilter)
    ensures FromStringOrNull(Some(Name(d))) == Success(Some(d))
  {
    var n := Name(d);
    TrimOfTrimmed(n, IsJavaTrimmed);
    LowerOfLower(n);
    ParsesEverySpelling(n, d);
  }

  /** A bad `due` value is reported as a server error, not a bad request:
      `IllegalStateException` has no dedicated handler. */
  lemma BadDueIsServerError(raw: Option<string>)
    requires FromStringOrNull(raw).Failure?
    ensures Handle(FromStringOrNull(raw).error).status == 500
  {
  }
}
