/** `build_search_url`: the AustLII search URL for a boolean query over a
    list of database codes. The parameter list is `query`, `method=boolean`,
    `meta=/au`, then one `mask_path` per database code in the caller's order;
    it is form-urlencoded onto the fixed `sinosrch.cgi` endpoint.
    `ParseSearchUrl` is the model's own strict reading of such a URL, the
    partner the builder is checked against; how `sinosrch.cgi` itself reads
    its query is not part of this model. */
module SearchUrl {
  import opened Wrappers
  import FormUrlencoded
  type Param = FormUrlencoded.Param

  const Endpoint: string := "https://www.austlii.edu.au/cgi-bin/sinosrch.cgi"
  const Prefix: string := Endpoint + "?"

  /** What a search URL asks for: a query over some databases. */
  datatype SearchRequest = SearchRequest(query: string, databases: seq<string>)

  /** One `mask_path` pair per database code, in order. */
  function MaskPathParams(databases: seq<string>): (ps: seq<Param>)
    ensures |ps| == |databases|
    ensures forall i :: 0 <= i < |databases| ==> ps[i] == ("mask_path", databases[i])
  {
    if |databases| == 0 then []
    else [("mask_path", databases[0])] + MaskPathParams(databases[1..])
  }

  /** The three pairs every search URL starts with. */
  function FixedParams(query: string): (r: seq<Param>) {
    [("query", query), ("method", "boolean"), ("meta", "/au")]
  }

  /** The parameter list `build_search_url` hands to `urlencode`. */
  function SearchParams(query: string, databases: seq<string>): (ps: seq<Param>)
    ensures |ps| == 3 + |databases|
    ensures ps[0] == ("query", query)
    ensures ps[1] == ("method", "boolean")
    ensures ps[2] == ("meta", "/au")
    ensures forall i :: 0 <= i < |databases| ==> ps[3 + i] == ("mask_path", databases[i])
  {
    FixedParams(query) + MaskPathParams(databases)
  }

  /** `build_search_url(query, databases)`. */
  function BuildSearchUrl(query: string, databases: seq<string>): (url: string)
    ensures |Prefix| < |url| && url[..|Prefix|] == Prefix
    ensures FormUrlencoded.Parse(url[|Prefix|..]) == Success(SearchParams(query, databases))
    ensures forall i :: |Prefix| <= i < |url| ==> FormUrlencoded.IsQueryChar(url[i])
    ensures FormUrlencoded.IsCanonicalQuery(url[|Prefix|..])
  {
    var ps := SearchParams(query, databases);
    var q := FormUrlencoded.Serialize(ps);
    FormUrlencoded.ParseSerialize(ps);
    FormUrlencoded.SerializeChars(ps);
    FormUrlencoded.SerializeCanonical(ps);
    assert (Prefix + q)[|Prefix|..] == q;
    Prefix + q
  }

  /** Every value filed under `key`, in order, wherever it appears; pairs
      under other keys are ignored. */
  function ValuesOf(ps: seq<Param>, key: string): (vs: seq<string>)
    ensures |vs| <= |ps|
  {
    if |ps| == 0 then []
    else if ps[0].0 == key then [ps[0].1] + ValuesOf(ps[1..], key)
    else ValuesOf(ps[1..], key)
  }

  lemma ValuesOfCons(p: Param, rest: seq<Param>, key: string)
    ensures ValuesOf([p] + rest, key) == (if p.0 == key then [p.1] else []) + ValuesOf(rest, key)
  {
    assert ([p] + rest)[1..] == rest;
  }

  lemma {:induction false} ValuesOfMaskPaths(databases: seq<string>, key: string)
    ensures ValuesOf(MaskPathParams(databases), key) == if key == "mask_path" then databases else []
  {
    if |databases| > 0 {
      ValuesOfCons(("mask_path", databases[0]), MaskPathParams(databases[1..]), key);
      ValuesOfMaskPaths(databases[1..], key);
      if key == "mask_path" {
        assert [databases[0]] + databases[1..] == databases;
      }
    }
  }

  /** The values under a key of a concatenation: those of each part, in order. */
  lemma {:induction false} ValuesOfAppend(a: seq<Param>, b: seq<Param>, key: string)
    ensures ValuesOf(a + b, key) == ValuesOf(a, key) + ValuesOf(b, key)
  {
    if |a| == 0 {
      assert a + b == b;
    } else {
      ValuesOfCons(a[0], a[1..] + b, key);
      assert a + b == [a[0]] + (a[1..] + b);
      ValuesOfAppend(a[1..], b, key);
      ValuesOfCons(a[0], a[1..], key);
      assert a == [a[0]] + a[1..];
    }
  }

  /** The built parameter list carries exactly one `query` (the caller's),
      one `method=boolean`, one `meta=/au`, and as `mask_path` values the
      database codes in the caller's order, none when the list is empty. */
  lemma SearchParamsValues(query: string, databases: seq<string>)
    ensures ValuesOf(SearchParams(query, databases), "query") == [query]
    ensures ValuesOf(SearchParams(query, databases), "method") == ["boolean"]
    ensures ValuesOf(SearchParams(query, databases), "meta") == ["/au"]
    ensures ValuesOf(SearchParams(query, databases), "mask_path") == databases
  {
    KeyValues(query, databases, "query");
    KeyValues(query, databases, "method");
    KeyValues(query, databases, "meta");
    KeyValues(query, databases, "mask_path");
  }

  lemma KeyValues(query: string, databases: seq<string>, key: string)
    ensures ValuesOf(SearchParams(query, databases), key)
      == FixedValues(query, key) + (if key == "mask_path" then databases else [])
  {
    ValuesOfAppend(FixedParams(query), MaskPathParams(databases), key);
    ValuesOfMaskPaths(databases, key);
    FixedParamsValues(query, key);
  }

  /** What the three fixed pairs carry under each key. */
  function FixedValues(query: string, key: string): (r: seq<string>) {
    if key == "query" then [query]
    else if key == "method" then ["boolean"]
    else if key == "meta" then ["/au"]
    else []
  }

  lemma FixedParamsValues(query: string, key: string)
    ensures ValuesOf(FixedParams(query), key) == FixedValues(query, key)
  {
    var t2 := [("meta", "/au")];
    var t1 := [("method", "boolean")] + t2;
    assert FixedParams(query) == [("query", query)] + t1;
    ValuesOfCons(("query", query), t1, key);
    ValuesOfCons(("method", "boolean"), t2, key);
    ValuesOfCons(("meta", "/au"), [], key);
  }

  /** The model's reading of a search URL: the endpoint prefix, then a
      query string holding exactly one `query`, `method=boolean` and
      `meta=/au`, in any order, and any number of `mask_path`; other keys
      are ignored. A malformed escape is an error. */
  function ParseSearchUrl(url: string): (r: Result<SearchRequest, string>) {
    if |url| < |Prefix| || url[..|Prefix|] != Prefix then Failure("not an AustLII search URL")
    else
      var ps :- FormUrlencoded.Parse(url[|Prefix|..]);
      var queries := ValuesOf(ps, "query");
      if |queries| != 1 then Failure("expected exactly one query")
      else if ValuesOf(ps, "method") != ["boolean"] then Failure("expected method=boolean")
      else if ValuesOf(ps, "meta") != ["/au"] then Failure("expected meta=/au")
      else Success(SearchRequest(queries[0], ValuesOf(ps, "mask_path")))
  }

  /** Reading a built URL recovers the query text and the database codes,
      in order, for every query and every list of codes. */
  lemma SearchUrlRoundTrip(query: string, databases: seq<string>)
    ensures ParseSearchUrl(BuildSearchUrl(query, databases)) == Success(SearchRequest(query, databases))
  {
    SearchParamsValues(query, databases);
  }

  /** The built URL is the only spelling of its parameter list that
      `urlencode` could write: any canonical query string that parses to the
      same list gives the same URL, so `%20` for a space or a lower-case
      `%2f` cannot stand in for what is built. */
  lemma BuildSearchUrlExact(query: string, databases: seq<string>, q: string)
    requires FormUrlencoded.IsCanonicalQuery(q)
    requires FormUrlencoded.Parse(q) == Success(SearchParams(query, databases))
    ensures BuildSearchUrl(query, databases) == Prefix + q
  {
    FormUrlencoded.CanonicalQueryUnique(q, SearchParams(query, databases));
  }

  /** Distinct requests never share a URL. */
  lemma BuildSearchUrlInjective(q1: string, d1: seq<string>, q2: string, d2: seq<string>)
    ensures BuildSearchUrl(q1, d1) == BuildSearchUrl(q2, d2) ==> q1 == q2 && d1 == d2
  {
    SearchUrlRoundTrip(q1, d1);
    SearchUrlRoundTrip(q2, d2);
  }
}
