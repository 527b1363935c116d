/** The client's `getCompanies`: the query it sends and how it reads
    whichever of the three page shapes the server answers with. */
module CompaniesApi {
  import opened Wrappers
  import opened Text

  /** A parsed JSON value; numbers are integers here. */
  datatype Json =
    | JNull
    | JBool(b: bool)
    | JNumber(n: int)
    | JString(s: string)
    | JArray(elems: seq<Json>)
    | JObject(fields: map<string, Json>)

  /** `unwrap`: the HTTP wrapper may hand back the body itself or an
      object holding it under `data`. */
  function Unwrap(res: Json): (r: Json)
    ensures res.JObject? && "data" in res.fields ==> r == res.fields["data"]
    ensures !(res.JObject? && "data" in res.fields) ==> r == res
  {
    if res.JObject? && "data" in res.fields then res.fields["data"] else res
  }

  // ---------------------------------------------------------------------
  // The request
  // ---------------------------------------------------------------------

  datatype Params = Params(page: Option<int>, size: Option<int>, q: Option<string>)

  const DefaultPage := 0
  const DefaultSize := 50

  function PageOf(p: Params): int {
    p.page.GetOr(DefaultPage)
  }

  function SizeOf(p: Params): int {
    p.size.GetOr(DefaultSize)
  }

  /** The query string's parameters, in order: the page, the size, and the
      trimmed search text when there is any. */
  function QueryParams(p: Params): (r: seq<(string, string)>)
    ensures |r| >= 2 && r[0] == ("page", IntText(PageOf(p))) && r[1] == ("size", IntText(SizeOf(p)))
    ensures |r| == 3 <==> p.q.Some? && JsTrim(p.q.value) != []
    ensures |r| <= 3
    ensures |r| == 3 ==> r[2] == ("q", JsTrim(p.q.value)) && JsTrimmed(r[2].1) && r[2].1 != []
  {
    var base := [("page", IntText(PageOf(p))), ("size", IntText(SizeOf(p)))];
    if p.q.Some? && |JsTrim(p.q.value)| > 0 then
      JsTrimIsTrimmed(p.q.value);
      base + [("q", JsTrim(p.q.value))]
    else base
  }

  // ---------------------------------------------------------------------
  // The response
  // ---------------------------------------------------------------------

  /** The page as the table uses it; a number field that JavaScript's
      `Number` cannot read is `None`. */
  datatype CompaniesResponse = CompaniesResponse(items: seq<Json>, page: Option<int>, size: Option<int>, total: Option<int>)

  /** `Number(x)`: numbers as they are, booleans as 1 and 0, null as 0,
      anything else not a number. */
  function ToNumber(x: Json): (r: Option<int>)
    ensures x.JNumber? ==> r == Some(x.n)
  {
    match x
    case JNumber(n) => Some(n)
    case JBool(b) => Some(if b then 1 else 0)
    case JNull => Some(0)
    case _ => None
  }

  /** `Number(data.field ?? fallback)`. */
  function NumberOr(fields: map<string, Json>, name: string, fallback: int): (r: Option<int>)
    ensures name !in fields ==> r == Some(fallback)
    ensures name in fields && fields[name].JNumber? ==> r == Some(fields[name].n)
  {
    if name in fields && fields[name] != JNull then ToNumber(fields[name]) else Some(fallback)
  }

  /** The field holds a list. */
  predicate HasList(fields: map<string, Json>, name: string) {
    name in fields && fields[name].JArray?
  }

  /** The body read as a page: a bare list; an object with an `items`
      list; a Spring page with a `content` list; anything else empty.
      The `in` test on a value that is not an object fails. */
  function ReadPage(data: Json, page: int, size: int): (r: Result<CompaniesResponse, string>)
    ensures r.Failure? <==> !(data.JArray? || data.JObject?)
  {
    match data
    case JArray(a) => Success(CompaniesResponse(a, Some(page), Some(size), Some(|a|)))
    case JObject(f) =>
      if HasList(f, "items") then
        var items := f["items"].elems;
        Success(CompaniesResponse(items, NumberOr(f, "page", page), NumberOr(f, "size", size), NumberOr(f, "total", |items|)))
      else if HasList(f, "content") then
        var content := f["content"].elems;
        Success(CompaniesResponse(content, NumberOr(f, "number", page), NumberOr(f, "size", size), NumberOr(f, "totalElements", |content|)))
      else Success(CompaniesResponse([], Some(page), Some(size), Some(0)))
    case _ => Failure("TypeError: cannot use 'in' operator on a non-object")
  }

  /** `getCompanies` once the server has answered `res`. */
  function GetCompanies(p: Params, res: Json): (r: Result<CompaniesResponse, string>)
    ensures r.Failure? <==> !(Unwrap(res).JArray? || Unwrap(res).JObject?)
  {
    ReadPage(Unwrap(res), PageOf(p), SizeOf(p))
  }

  /** A bare list, wrapped or not, is the page: its length is the total,
      and page and size echo the request. */
  lemma ListBody(p: Params, a: seq<Json>)
    ensures GetCompanies(p, JArray(a)) == Success(CompaniesResponse(a, Some(PageOf(p)), Some(SizeOf(p)), Some(|a|)))
    ensures GetCompanies(p, JObject(map["data" := JArray(a)])) == GetCompanies(p, JArray(a))
  {
  }

  /** An `items` object without the other fields takes them from the
      request and from the list's length; given numbers are kept. */
  lemma ItemsBody(p: Params, f: map<string, Json>)
    requires "data" !in f && HasList(f, "items")
    ensures GetCompanies(p, JObject(f)).Success?
    ensures GetCompanies(p, JObject(f)).value.items == f["items"].elems
    ensures "page" !in f ==> GetCompanies(p, JObject(f)).value.page == Some(PageOf(p))
    ensures "size" !in f ==> GetCompanies(p, JObject(f)).value.size == Some(SizeOf(p))
    ensures "total" !in f ==> GetCompanies(p, JObject(f)).value.total == Some(|f["items"].elems|)
    ensures "total" in f && f["total"].JNumber? ==> GetCompanies(p, JObject(f)).value.total == Some(f["total"].n)
  {
  }

  /** A Spring page: `number` is the page and `totalElements` the total,
      with the same fallbacks. */
  lemma ContentBody(p: Params, f: map<string, Json>)
    requires "data" !in f && !HasList(f, "items") && HasList(f, "content")
    ensures GetCompanies(p, JObject(f)).Success?
    ensures GetCompanies(p, JObject(f)).value.items == f["content"].elems
    ensures "number" !in f ==> GetCompanies(p, JObject(f)).value.page == Some(PageOf(p))
    ensures "number" in f && f["number"].JNumber? ==> GetCompanies(p, JObject(f)).value.page == Some(f["number"].n)
    ensures "size" !in f ==> GetCompanies(p, JObject(f)).value.size == Some(SizeOf(p))
    ensures "totalElements" !in f ==> GetCompanies(p, JObject(f)).value.total == Some(|f["content"].elems|)
    ensures "totalElements" in f && f["totalElements"].JNumber? ==>
      GetCompanies(p, JObject(f)).value.total == Some(f["totalElements"].n)
  {
  }

  /** `items` wins over `content`; an object with neither list reads as an
      empty page with total 0. */
  lemma ShapePrecedence(p: Params, f: map<string, Json>)
    requires "data" !in f
    ensures HasList(f, "items") ==> GetCompanies(p, JObject(f)).value.items == f["items"].elems
    ensures !HasList(f, "items") && !HasList(f, "content") ==>
      GetCompanies(p, JObject(f)) == Success(CompaniesResponse([], Some(PageOf(p)), Some(SizeOf(p)), Some(0)))
  {
  }
}
