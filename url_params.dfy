/** The board's URL query-string state (src/hooks/Board/userUrlParams.ts): reading
    the four board parameters out of the query string, merging a partial update
    into it, clearing it, and turning the parameters into the list request.
    The query string is a map from keys to values. */
module UrlParams {
  import opened Wrappers
  import opened Text

  type SearchParams = map<string, string>

  /** The board parameters as the page reads them. `searchType` is any string:
      the source only casts the raw value to its three known search types. */
  datatype UrlSearchParams = UrlSearchParams(page: int, category: string, keyword: string, searchType: string)

  /** A value of `Partial<UrlSearchParams>`: the page is a number, the rest strings. */
  datatype ParamValue = Num(n: int) | Str(s: string)

  /** `Partial<UrlSearchParams>`: `None` is a key the update object does not hold. */
  datatype PartialParams = PartialParams(
    page: Option<int>, category: Option<string>, keyword: Option<string>, searchType: Option<string>)

  datatype Entry = Entry(key: string, value: ParamValue)

  /** The request parameters of the board list (`PostSearchParams`). */
  datatype PostSearchParams = PostSearchParams(
    page: int, limit: int, sort: string, order: string, category: Option<string>,
    titleLike: Option<string>, contentLike: Option<string>, authorLike: Option<string>)

  const PageKey := "page"
  const CategoryKey := "category"
  const KeywordKey := "keyword"
  const SearchTypeKey := "searchType"
  const PageSize := 10

  /** `searchParams.get(key)`. */
  function Get(params: SearchParams, key: string): Option<string> {
    if key in params then Some(params[key]) else None
  }

  /** `Number(raw) || 1`: a missing key is `Number(null)`, which is 0; a value
      that is not a number is NaN; both are falsy, like 0 itself. */
  function PageOf(raw: Option<string>): (page: int)
    ensures page != 0
    ensures raw.None? ==> page == 1
    ensures raw.Some? && JsNumber(raw.value).None? ==> page == 1
    ensures raw.Some? && JsNumber(raw.value).Some? && JsNumber(raw.value).value != 0 ==> page == JsNumber(raw.value).value
  {
    match raw
    case None => 1
    case Some(s) =>
      match JsNumber(s)
      case None => 1
      case Some(n) => if n == 0 then 1 else n
  }

  /** `raw || fallback` on a string: both a missing key and "" fall back. */
  function OrDefault(raw: Option<string>, fallback: string): (s: string)
    ensures s == "" ==> fallback == ""
    ensures raw.Some? && raw.value != "" ==> s == raw.value
    ensures raw.None? || raw.value == "" ==> s == fallback
  {
    match raw
    case None => fallback
    case Some(s) => if s == "" then fallback else s
  }

  /** The parameters read from the query string. */
  function Read(params: SearchParams): (u: UrlSearchParams)
    ensures u.page != 0 && u.searchType != ""
    ensures PageKey !in params ==> u.page == 1
    ensures PageKey in params ==> u.page == match JsNumber(params[PageKey])
      case None => 1
      case Some(n) => if n == 0 then 1 else n
    ensures u.category == if CategoryKey in params && params[CategoryKey] != "" then params[CategoryKey] else ""
    ensures u.keyword == if KeywordKey in params && params[KeywordKey] != "" then params[KeywordKey] else ""
    ensures u.searchType == if SearchTypeKey in params && params[SearchTypeKey] != "" then params[SearchTypeKey] else "title"
  {
    UrlSearchParams(
      PageOf(Get(params, PageKey)),
      OrDefault(Get(params, CategoryKey), ""),
      OrDefault(Get(params, KeywordKey), ""),
      OrDefault(Get(params, SearchTypeKey), "title"))
  }

  /** `String(value)`. */
  function Render(v: ParamValue): string {
    match v
    case Num(n) => IntToString(n)
    case Str(s) => s
  }

  /** An entry that removes its key: an empty string, or page 1. */
  predicate Clears(e: Entry) {
    e.value == Str("") || (e.key == PageKey && e.value == Num(1))
  }

  /** One step of the `forEach` over the update's entries. */
  function ApplyEntry(params: SearchParams, e: Entry): SearchParams {
    if Clears(e) then params - {e.key} else params[e.key := Render(e.value)]
  }

  /** The entries applied from first to last. */
  function ApplyEntries(params: SearchParams, es: seq<Entry>): SearchParams {
    if es == [] then params else ApplyEntry(ApplyEntries(params, es[..|es| - 1]), es[|es| - 1])
  }

  /** The value the update object holds for `key`, if it holds the key. */
  function Given(np: PartialParams, key: string): Option<ParamValue> {
    if key == PageKey then (if np.page.Some? then Some(Num(np.page.value)) else None)
    else if key == CategoryKey then (if np.category.Some? then Some(Str(np.category.value)) else None)
    else if key == KeywordKey then (if np.keyword.Some? then Some(Str(np.keyword.value)) else None)
    else if key == SearchTypeKey then (if np.searchType.Some? then Some(Str(np.searchType.value)) else None)
    else None
  }

  function EntryFor(np: PartialParams, key: string): seq<Entry> {
    if Given(np, key).Some? then [Entry(key, Given(np, key).value)] else []
  }

  /** `Object.entries(newParams)`, in the order the fields are declared. */
  function Entries(np: PartialParams): seq<Entry> {
    EntryFor(np, PageKey) + EntryFor(np, CategoryKey) + EntryFor(np, KeywordKey) + EntryFor(np, SearchTypeKey)
  }

  /** A change of keyword, category or search type sends the list back to page 1. */
  predicate ResetsPage(np: PartialParams) {
    np.keyword.Some? || np.category.Some? || np.searchType.Some?
  }

  /** The query string after `setUrlParams(np)`. */
  function Updated(params: SearchParams, np: PartialParams): (updated: SearchParams)
    ensures np == PartialParams(None, None, None, None) ==> updated == params
    ensures ResetsPage(np) && np.page.None? ==> PageKey !in updated
  {
    var applied := ApplyEntries(params, Entries(np));
    if ResetsPage(np) && np.page.None? then applied - {PageKey} else applied
  }

  /** What a single key should hold after an update, key by key: a given key is
      written or removed, an omitted page is removed when the search changed, and
      every other key keeps its old value. */
  function Expected(params: SearchParams, np: PartialParams, key: string): (value: Option<string>)
    ensures key !in {PageKey, CategoryKey, KeywordKey, SearchTypeKey} ==> value == Get(params, key)
    ensures value == Some("") ==> Given(np, key).None?
  {
    match Given(np, key)
    case Some(v) => if Clears(Entry(key, v)) then None else Some(Render(v))
    case None => if key == PageKey && ResetsPage(np) then None else Get(params, key)
  }

  /** The last entry for `key`. */
  function LastFor(es: seq<Entry>, key: string): Option<Entry> {
    if es == [] then None
    else if es[|es| - 1].key == key then Some(es[|es| - 1])
    else LastFor(es[..|es| - 1], key)
  }

  lemma {:induction false} ApplyEntriesGet(params: SearchParams, es: seq<Entry>, key: string)
    ensures Get(ApplyEntries(params, es), key) ==
      match LastFor(es, key)
      case None => Get(params, key)
      case Some(e) => if Clears(e) then None else Some(Render(e.value))
  {
    if es != [] {
      ApplyEntriesGet(params, es[..|es| - 1], key);
    }
  }

  /** One more entry is one more step. */
  lemma ApplyEntriesStep(params: SearchParams, es: seq<Entry>, i: nat)
    requires i < |es|
    ensures ApplyEntries(params, es[..i + 1]) == ApplyEntry(ApplyEntries(params, es[..i]), es[i])
  {
    assert es[..i + 1][..i] == es[..i];
  }

  lemma {:induction false} LastForConcat(a: seq<Entry>, b: seq<Entry>, key: string)
    ensures LastFor(a + b, key) == if LastFor(b, key).Some? then LastFor(b, key) else LastFor(a, key)
  {
    if b != [] {
      assert (a + b)[..|a + b| - 1] == a + b[..|b| - 1];
      LastForConcat(a, b[..|b| - 1], key);
    } else {
      assert a + b == a;
    }
  }

  lemma LastForEntries(np: PartialParams, key: string)
    ensures LastFor(Entries(np), key) == if Given(np, key).Some? then Some(Entry(key, Given(np, key).value)) else None
  {
    var p, c, k, t := EntryFor(np, PageKey), EntryFor(np, CategoryKey), EntryFor(np, KeywordKey), EntryFor(np, SearchTypeKey);
    LastForConcat(p + c + k, t, key);
    LastForConcat(p + c, k, key);
    LastForConcat(p, c, key);
  }

  /** Every key of the query string ends up as the key-by-key description says. */
  lemma UpdatedPerKey(params: SearchParams, np: PartialParams, key: string)
    ensures Get(Updated(params, np), key) == Expected(params, np, key)
  {
    ApplyEntriesGet(params, Entries(np), key);
    LastForEntries(np, key);
  }

  lemma UpdatedAllKeys(params: SearchParams, np: PartialParams)
    ensures forall key :: Get(Updated(params, np), key) == Expected(params, np, key)
  {
    forall key ensures Get(Updated(params, np), key) == Expected(params, np, key) {
      UpdatedPerKey(params, np, key);
    }
  }

  /** Reading the board parameters back after an update: every field the update
      gives reads back as given (page 0 and "" read as their defaults), an omitted
      page reads as 1 after a change of search, and every other field is kept. */
  lemma ReadAfterUpdate(params: SearchParams, np: PartialParams)
    ensures var before, after := Read(params), Read(Updated(params, np));
      && (np.page.Some? ==> after.page == if np.page.value == 0 then 1 else np.page.value)
      && (np.page.None? && ResetsPage(np) ==> after.page == 1)
      && (np.page.None? && !ResetsPage(np) ==> after.page == before.page)
      && (np.category.Some? ==> after.category == np.category.value)
      && (np.category.None? ==> after.category == before.category)
      && (np.keyword.Some? ==> after.keyword == np.keyword.value)
      && (np.keyword.None? ==> after.keyword == before.keyword)
      && (np.searchType.Some? ==> after.searchType == if np.searchType.value == "" then "title" else np.searchType.value)
      && (np.searchType.None? ==> after.searchType == before.searchType)
  {
    PageAfterUpdate(params, np);
    TextAfterUpdate(params, np, CategoryKey, np.category, "");
    TextAfterUpdate(params, np, KeywordKey, np.keyword, "");
    TextAfterUpdate(params, np, SearchTypeKey, np.searchType, "title");
  }

  lemma PageAfterUpdate(params: SearchParams, np: PartialParams)
    ensures var before, after := PageOf(Get(params, PageKey)), PageOf(Get(Updated(params, np), PageKey));
      && (np.page.Some? ==> after == if np.page.value == 0 then 1 else np.page.value)
      && (np.page.None? && ResetsPage(np) ==> after == 1)
      && (np.page.None? && !ResetsPage(np) ==> after == before)
  {
    UpdatedPerKey(params, np, PageKey);
    if np.page.Some? && np.page.value != 1 {
      NumberOfIntToString(np.page.value);
    }
  }

  /** A text field of the update, read back with its default. */
  lemma TextAfterUpdate(params: SearchParams, np: PartialParams, key: string, given: Option<string>, fallback: string)
    requires key != PageKey
    requires Given(np, key) == if given.Some? then Some(Str(given.value)) else None
    ensures var before, after := OrDefault(Get(params, key), fallback), OrDefault(Get(Updated(params, np), key), fallback);
      && (given.Some? ==> after == if given.value == "" then fallback else given.value)
      && (given.None? ==> after == before)
  {
    UpdatedPerKey(params, np, key);
  }

  /** `resetUrlParams` leaves the defaults: page 1, no category, no keyword,
      search by title. */
  /** A page written as `String(n)` reads back as `n`; page 0 reads as 1. */
  lemma PageReadsBack(n: int)
    ensures PageOf(Some(IntToString(n))) == if n == 0 then 1 else n
  {
    NumberOfIntToString(n);
  }

  /** Query strings typed by hand: a non-numeric or zero page reads as 1, an
      empty category as none, and an empty search type as "title". */
  lemma ReadExamples()
    ensures Read(map[PageKey := "abc"]).page == 1
    ensures Read(map[PageKey := "0"]).page == 1
    ensures Read(map[PageKey := "-2"]).page == -2
    ensures Read(map[CategoryKey := "", SearchTypeKey := ""]) == UrlSearchParams(1, "", "", "title")
  {
    assert !AllDigits("abc") by { assert !IsDigit("abc"[0]); }
    assert DigitsValue("0") == 0 by { assert "0"[..0] == ""; }
    assert DigitsValue("2") == 2 by { assert "2"[..0] == ""; }
    assert !AllDigits("-2") by { assert !IsDigit("-2"[0]); }
    assert "-2"[1..] == "2";
  }

  lemma ResetReadsDefaults()
    ensures Read(map[]) == UrlSearchParams(1, "", "", "title")
  {
  }

  /** `toApiParams`: the list request for the current parameters. */
  function ApiParams(u: UrlSearchParams): (r: PostSearchParams)
    ensures r.page == u.page && r.limit == PageSize && r.sort == "createdAt" && r.order == "desc"
  {
    var like := u.keyword != "";
    PostSearchParams(
      u.page, PageSize, "createdAt", "desc",
      if u.category != "" then Some(u.category) else None,
      if like && u.searchType == "title" then Some(u.keyword) else None,
      if like && u.searchType == "content" then Some(u.keyword) else None,
      if like && u.searchType == "author" then Some(u.keyword) else None)
  }

  /** The number of text filters the request carries. */
  function LikeFilters(r: PostSearchParams): nat {
    (if r.titleLike.Some? then 1 else 0) + (if r.contentLike.Some? then 1 else 0) + (if r.authorLike.Some? then 1 else 0)
  }

  /** The request filters on the category exactly when one is chosen, and carries
      at most one text filter: one holding the keyword on the chosen field when
      the keyword is non-empty and the search type is one of the three known ones,
      and none otherwise. */
  lemma ApiParamsFilters(u: UrlSearchParams)
    ensures var r := ApiParams(u);
      && (r.category.Some? <==> u.category != "")
      && (r.category.Some? ==> r.category.value == u.category)
      && LikeFilters(r) <= 1
      && (LikeFilters(r) == 1 <==> u.keyword != "" && u.searchType in {"title", "content", "author"})
      && (r.titleLike.Some? ==> r.titleLike.value == u.keyword && u.searchType == "title")
      && (r.contentLike.Some? ==> r.contentLike.value == u.keyword && u.searchType == "content")
      && (r.authorLike.Some? ==> r.authorLike.value == u.keyword && u.searchType == "author")
  {
  }

  /** A new search for a non-empty keyword by a known field asks for the first page
      of that search, whatever page was shown before. */
  lemma NewSearchRequestsFirstPage(params: SearchParams, keyword: string, searchType: string)
    requires keyword != "" && searchType in {"title", "content", "author"}
    ensures var r := ApiParams(Read(Updated(params, PartialParams(None, None, Some(keyword), Some(searchType)))));
      && r.page == 1 && LikeFilters(r) == 1
      && (r.titleLike == Some(keyword) || r.contentLike == Some(keyword) || r.authorLike == Some(keyword))
  {
    var np := PartialParams(None, None, Some(keyword), Some(searchType));
    ReadAfterUpdate(params, np);
    ApiParamsFilters(Read(Updated(params, np)));
  }

  /** The hook's state: the query string of the current location. */
  class UrlParamsHook {
    var searchParams: SearchParams

    constructor(initial: SearchParams)
      ensures searchParams == initial
    {
      searchParams := initial;
    }

    /** `urlParams`. */
    function UrlParams(): UrlSearchParams
      reads this
    {
      Read(searchParams)
    }

    /** `setUrlParams`: applies the entries one at a time, then drops the page
        when the search changed and no page was given. */
    method SetUrlParams(np: PartialParams)
      modifies this
      ensures searchParams == Updated(old(searchParams), np)
    {
      var start := searchParams;
      var current := start;
      var es := Entries(np);
      var i := 0;
      while i < |es|
        invariant 0 <= i <= |es|
        invariant current == ApplyEntries(start, es[..i])
      {
        var e := es[i];
        ApplyEntriesStep(start, es, i);
        ghost var expected := ApplyEntry(current, e);
        if e.value == Str("") || (e.key == PageKey && e.value == Num(1)) {
          current := current - {e.key};
        } else {
          current := current[e.key := Render(e.value)];
        }
        assert current == expected;
        i := i + 1;
      }
      assert es[..i] == es;
      ghost var applied := current;
      if (np.keyword.Some? || np.category.Some? || np.searchType.Some?) && np.page.None? {
        current := current - {PageKey};
      }
      assert current == Updated(start, np) by {
        assert applied == ApplyEntries(start, Entries(np));
      }
      searchParams := current;
    }

    /** `resetUrlParams`: an empty query string. */
    method ResetUrlParams()
      modifies this
      ensures searchParams == map[]
      ensures UrlParams() == UrlSearchParams(1, "", "", "title")
    {
      searchParams := map[];
    }

    /** `toApiParams`. */
    function ToApiParams(): (r: PostSearchParams)
      reads this
      ensures r.page == UrlParams().page && r.page != 0
      ensures r.limit == PageSize && r.sort == "createdAt" && r.order == "desc"
      ensures r.category.Some? <==> UrlParams().category != ""
    {
      ApiParams(UrlParams())
    }
  }
}
