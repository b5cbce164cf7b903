/**
 * The pure part of the autocomplete search: which records of the query index match a query,
 * and the at-most-five results `fetchSearchResults` hands to the widget.
 */
module SearchQuery {
  import opened Wrappers
  import opened JsText

  /** One entry of the index's `data` array; a field the JSON leaves out is `None`. */
  datatype SearchRecord = SearchRecord(title: Option<string>, description: Option<string>, path: string)

  /** `fetchSearchResults` keeps at most this many matches. */
  const MaxResults: nat := 5

  /**
   * `field && field.toLowerCase().includes(lowerQuery)`: an absent field and the empty string are
   * falsy in JavaScript, so neither ever matches.
   */
  predicate FieldMatches(field: Option<string>, lowerQuery: string) {
    field.Some? && field.value != "" && Includes(ToLowerCase(field.value), lowerQuery)
  }

  /** The filter callback: the lowered query occurs in the lowered title or in the lowered description. */
  predicate Matches(r: SearchRecord, query: string) {
    var lowerQuery := ToLowerCase(query);
    FieldMatches(r.title, lowerQuery) || FieldMatches(r.description, lowerQuery)
  }

  /** `data.data.filter(...)`: the matching records, in index order. */
  function Filter(records: seq<SearchRecord>, query: string): (r: seq<SearchRecord>)
    ensures |r| <= |records|
    ensures forall x :: x in r <==> x in records && Matches(x, query)
  {
    if records == [] then []
    else (if Matches(records[0], query) then [records[0]] else []) + Filter(records[1..], query)
  }

  /**
   * `fetchSearchResults(query)`, with the fetched and parsed index given as `fetched` (`None` when the
   * fetch, the JSON parse or the `data` lookup fails). A failure yields no results instead of an
   * exception; otherwise the result is the first min(5, #matches) matches, in index order.
   */
  function FetchSearchResults(fetched: Option<seq<SearchRecord>>, query: string): (r: seq<SearchRecord>)
    ensures |r| <= MaxResults
    ensures fetched.None? ==> r == []
    ensures fetched.Some? ==>
      var matches := Filter(fetched.value, query);
      |r| == (if |matches| < MaxResults then |matches| else MaxResults) && r == matches[..|r|]
    ensures forall x :: x in r ==> Matches(x, query)
    ensures fetched.Some? ==> forall x :: x in r ==> x in fetched.value
  {
    match fetched
    case None => []
    case Some(records) =>
      var matches := Filter(records, query);
      if |matches| <= MaxResults then matches else matches[..MaxResults]
  }

  /** Filtering keeps source order: filtering a concatenation concatenates the filtered parts. */
  lemma {:induction false} FilterAppend(a: seq<SearchRecord>, b: seq<SearchRecord>, query: string)
    ensures Filter(a + b, query) == Filter(a, query) + Filter(b, query)
  {
    if a == [] {
      assert a + b == b;
    } else {
      assert (a + b)[1..] == a[1..] + b;
      FilterAppend(a[1..], b, query);
    }
  }

  /** When at most five records match, every matching record of the index is shown. */
  lemma AllMatchesShownWhenFew(records: seq<SearchRecord>, query: string, x: SearchRecord)
    requires x in records && Matches(x, query)
    requires |Filter(records, query)| <= MaxResults
    ensures x in FetchSearchResults(Some(records), query)
  {
  }

  /** A record with neither a title nor a description never matches, whatever the query. */
  lemma UntitledNeverMatches(r: SearchRecord, query: string)
    requires r.title.None? || r.title == Some("")
    requires r.description.None? || r.description == Some("")
    ensures !Matches(r, query)
  {
  }

  /** Matching ignores ASCII case: a query occurring verbatim in the title matches. */
  lemma VerbatimTitleMatches(r: SearchRecord, query: string)
    requires r.title.Some? && r.title.value != "" && Includes(r.title.value, query)
    ensures Matches(r, query)
  {
    IncludesLowered(r.title.value, query);
  }

  /** Lowering the query first does not change which records match. */
  lemma MatchesLoweredQuery(r: SearchRecord, query: string)
    ensures Matches(r, ToLowerCase(query)) == Matches(r, query)
  {
    ToLowerCaseIdempotent(query);
  }
}
