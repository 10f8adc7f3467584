# AustLII search tools: a Dafny model

A model of the search layer of the Olexi MCP server, which exposes searches of the
AustLII legal-research site as tools. Three pieces of `mcp_server.py` are modelled and proved:

- **`build_search_url`**: builds the search URL. The parameter list is `query`, then
  `method=boolean`, then `meta=/au`, then one `mask_path` per database code in the caller's
  order. The list is form-urlencoded by `urllib.parse.urlencode` onto the fixed endpoint
  `https://www.austlii.edu.au/cgi-bin/sinosrch.cgi?`. The serialiser is modelled in full:
  - UTF-8 encoding of each `str`;
  - `quote_plus` with `safe=''`, which leaves only the unreserved characters of section 2.3
    of RFC 3986 as they are, writes a space as `+`, and writes every other byte (including
    `/`) as `%XX` with upper-case hex;
  - `key=value` pairs joined with `&`.

  Its partner is the model's own strict decoder and query-string parser. It splits on `&`,
  then on the first `=`, turns `+` into a space and `%XX` into a byte, then decodes UTF-8. It
  fails on a malformed escape or a non-ASCII character, and reads an empty segment as the
  pair `("", "")`. `ParseSearchUrl` reads a URL back into the request it stands for.
  The unreserved set is section 2.3 of RFC 3986 as CPython's `quote_plus` implements it:
  `~` is kept and `*` is escaped.
- **The normalisation loop** of `search_austlii` and `search_with_progress`: each raw
  scrape record becomes a `SearchResultItem`. The title is copied, the URL is coerced to text
  with `str`, and the metadata is copied or stays absent.
- **`search_with_progress`**: returns the list of events it reports together with its
  result. There is one `ctx.info` line and, on success, three `ctx.report_progress` updates;
  a failing scrape stops after the first update.

Modules: `Wrappers` (Option/Result), `Utf8`, `FormUrlencoded`, `SearchUrl`, `Results`, `Search`.

The scraper (`austlii_scraper.search_austlii`) is a function parameter returning records or
an error. Python's `str()` on the scraper's URL type is a parameter `urlText: U -> string`.

The URL coercion `str(item.url)` (mcp_server.py:58) turns a `None` URL into the text `"None"`.
The model's `urlText` is an arbitrary total function on an arbitrary URL type, which covers
this case.

With `safe=''`, `/` is sent as `%2F`, so the `meta` pair is written `meta=%2Fau` (see
`FormUrlencoded.SlashValuePair`). It decodes back to `/au`.

## Model

| member | source | states |
|---|---|---|
| Utf8.Encode | mcp_server.py:68 | `str.encode('utf-8')` as `quote_plus` applies it: its own contract bounds the length (one to four bytes per character); `Utf8.DecodeEncode`, `Utf8.EncodeDecode`, `Utf8.EncodeAppend` and `Utf8.EncodeInjective` state the rest |
| Utf8.DecodeEncode | mcp_server.py:68 | strict UTF-8 decoding of the encoding `quote_plus` applies to a `str` gives the string back |
| Utf8.EncodeDecode | mcp_server.py:68 | every byte sequence the decoder accepts is exactly the encoding of what it returns, so the UTF-8 step is a bijection onto well-formed UTF-8 |
| Utf8.EncodeInjective | mcp_server.py:68 | two strings with the same UTF-8 encoding are equal |
| FormUrlencoded.EncodeBytes | mcp_server.py:68 | `quote_from_bytes` with a space written as `+`: its own contract bounds the length (one to three characters per byte); `FormUrlencoded.DecodeEncodeBytes`, `FormUrlencoded.EncodeBytesCanonical` and `FormUrlencoded.CanonicalIffEncoded` state the rest |
| FormUrlencoded.QuotePlus | mcp_server.py:68 | `quote_plus(s, safe='')` always writes the canonical spelling; `FormUrlencoded.UnquoteQuote` gives the round trip and `FormUrlencoded.QuotePlusCanonical` the missing `&`, `=` and space |
| FormUrlencoded.DecodeEncodeBytes | mcp_server.py:68 | percent-decoding (`+` to space, `%XX` to a byte) undoes percent-encoding for every byte sequence |
| FormUrlencoded.UnquoteQuote | mcp_server.py:68 | the model's strict decoder undoes quoting: `UnquotePlus(QuotePlus(s)) == Success(s)` for every string `s` |
| FormUrlencoded.EncodeBytesCanonical | mcp_server.py:68 | every encoding consists of unreserved characters, `+`, and upper-case `%XX` triples that stand for bytes that must be escaped |
| FormUrlencoded.EncodeDecodeCanonical | mcp_server.py:68 | every canonical string decodes, and re-encoding the result gives the same string |
| FormUrlencoded.CanonicalIffEncoded | mcp_server.py:68 | a string is canonical if and only if some byte sequence encodes to it |
| FormUrlencoded.CanonicalChars | mcp_server.py:68 | a canonical string contains only unreserved characters, `+` and `%`; so it has no `&`, no `=` and no space |
| FormUrlencoded.QuotePlusCanonical | mcp_server.py:68 | the output of `quote_plus(s, safe='')` is canonical and never contains `&`, `=` or a space |
| FormUrlencoded.QuotePlusAppend | mcp_server.py:68 | quoting works character by character: quoting a concatenation concatenates the quotings |
| FormUrlencoded.QuotePlusUnreserved | mcp_server.py:68 | a string made only of unreserved characters is left exactly as it is |
| FormUrlencoded.SpaceBetweenWords | mcp_server.py:68 | two words of unreserved characters separated by a space are written with `+` in its place and the words unchanged (so `native title` is written `native+title`) |
| FormUrlencoded.SlashValuePair | mcp_server.py:65-68 | a pair whose key is an unreserved word and whose value is `/` followed by an unreserved word is written `key=%2Fword`, because nothing is marked safe (so `("meta", "/au")` is written `meta=%2Fau`) |
| FormUrlencoded.QuotePlusPath | mcp_server.py:66-68 | a database code made of unreserved words and `/` is quoted by writing each `/` as `%2F` and keeping everything else |
| FormUrlencoded.PathValuePair | mcp_server.py:66-68 | a pair whose key is an unreserved word and whose value is such a code is written `key=` followed by the code with each `/` as `%2F` (so `("mask_path", "au/cases/cth/HCA")` gives `mask_path=au%2Fcases%2Fcth%2FHCA`) |
| FormUrlencoded.Serialize | mcp_server.py:68 | `urlencode(params)`, each pair written by `FormUrlencoded.EncodePair` as `key=value`: its own contract says only that the empty list gives the empty string; `FormUrlencoded.ParseEncodePair` states what one pair means, and `FormUrlencoded.ParseSerialize`, `FormUrlencoded.SerializeCanonical`, `FormUrlencoded.CanonicalQueryUnique` and `FormUrlencoded.SerializeChars` state the rest |
| FormUrlencoded.ParseEncodePair | mcp_server.py:68 | splitting an encoded `key=value` on its first `=` and decoding both sides gives the pair back |
| FormUrlencoded.ParseSerialize | mcp_server.py:68 | parsing the output of `urlencode(params)` (split on `&`, then on the first `=`, then decode) gives back the same pairs: same count, same order, same keys and values |
| FormUrlencoded.SerializeCanonical | mcp_server.py:68 | every `key=value&…` string `urlencode` writes is canonical: each segment has an `=` with canonical encodings on both sides |
| FormUrlencoded.CanonicalQueryUnique | mcp_server.py:68 | a canonical query string that parses to a list of pairs is exactly the serialisation of that list |
| FormUrlencoded.OtherSpellings | mcp_server.py:68 | `%20` and `+` both decode to a space, and `%2f` and `%2F` both to `/`; only `+` and `%2F` are canonical, the spellings `quote_plus` writes |
| FormUrlencoded.SerializeChars | mcp_server.py:68 | a serialised parameter list contains only unreserved characters, `+`, `%`, `&` and `=` |
| SearchUrl.MaskPathParams | mcp_server.py:66-67 | one `("mask_path", code)` pair per database code, at the code's own position |
| SearchUrl.SearchParams | mcp_server.py:65-67 | the list has `3 + len(databases)` pairs: `query`, then `method=boolean`, then `meta=/au`, then pair `3+i` is `("mask_path", databases[i])` |
| SearchUrl.BuildSearchUrl | mcp_server.py:68 | the URL starts with the fixed endpoint and `?`; everything after `?` parses back to exactly the parameter list, contains only unreserved characters, `+`, `%`, `&` and `=`, and is in `urlencode`'s canonical spelling (`+` for a space, upper-case `%XX` only where needed) |
| SearchUrl.BuildSearchUrlExact | mcp_server.py:68 | any canonical query string that parses to the same parameter list gives exactly the built URL, so the contract fixes the URL character for character |
| SearchUrl.SearchParamsValues | mcp_server.py:65-67 | there is exactly one `query` (the caller's), one `method=boolean` and one `meta=/au`; the `mask_path` values are the database codes in order, and there are none for an empty list |
| SearchUrl.SearchUrlRoundTrip | mcp_server.py:63-68 | reading a built URL back recovers the query text and the database codes, in order, for every input |
| SearchUrl.BuildSearchUrlInjective | mcp_server.py:63-68 | different (query, databases) inputs never produce the same URL |
| Results.Normalize | mcp_server.py:55-59 | the output has one item per raw record, in order: the title is copied, the URL is the text form of the raw URL, the metadata is copied (each item is built by `Results.ToItem`, the `SearchResultItem(...)` call of line 58) |
| Results.NormalizeAppend | mcp_server.py:56-59 | normalising a concatenation normalises each part in place, so nothing is reordered |
| Results.NormalizeTextUrls | mcp_server.py:58 | with the `SearchResultItem` schema of mcp_server.py:15-18: when URLs are already text, normalisation changes nothing; turning items back into records and normalising again is the identity both ways |
| Search.SearchAustlii | mcp_server.py:50-60 | a scraper error propagates unchanged; otherwise the result is one normalised item per scraped record, in order |
| Search.SearchWithProgress | mcp_server.py:86-94 | a successful run emits the info line "Starting AustLII search...", then progress 0.3 "Scraping", 0.9 "Packaging" and 1.0 "Done" (each of total 1.0); a failing run stops after "Scraping" |
| Search.VariantsAgree | mcp_server.py:88-94 | `search_with_progress` returns the same result as `search_austlii` for the same scraper outcome |
| Search.ProgressTrace | mcp_server.py:86-93 | progress fractions never decrease and never exceed the total; "Done" is reported if and only if the run succeeded |
| Search.FailureStopsEarly | mcp_server.py:86-89 | the events of a failing run are a proper prefix of those of a succeeding run; nothing after "Scraping" is emitted on failure |

## Left out

- The scraper `austlii_scraper.search_austlii` does network I/O and parses HTML; it is not part of this model. It is a parameter: any function from (query, codes) to records or an error.
- The database catalogue `DATABASE_TOOLS_LIST`, the `list_databases` tool and the `olexi://databases` resource return external data unchanged (or through `json.dumps`); they contain no logic to model.
- FastMCP registration, the asynchronous `Context` and the transport selection in `__main__`: the awaited `ctx` calls become the event list that `Search.SearchWithProgress` returns.
- The `/health` and `/info` routes return constant JSON and are not modelled.
- Progress fractions are Python floats; the model uses the real numbers 0.3, 0.9 and 1.0, which keep the same order.
- A typed `RawRecord` always has a `url`, so the `AttributeError` that `item.url` (mcp_server.py:58) raises for a record without one is not modelled.
- Pydantic validation of `SearchResultItem` is not modelled. Raw records have a typed title and metadata, so a record with a missing or non-text title (which Pydantic would reject) cannot be expressed. In the source, such a validation error during normalisation (mcp_server.py:92) ends `search_with_progress` after the events Info, "Scraping" and "Packaging", with no "Done". The model cannot produce that trace; `Search.ProgressTrace` and `Search.FailureStopsEarly` cover scraper failures only.
- Python strings may hold lone surrogates, which make `quote_plus` raise `UnicodeEncodeError`. A Dafny `char` is a Unicode scalar value, so that error path does not exist in the model.
- `urlencode` also accepts bytes, non-string values and `doseq`; `build_search_url` uses none of these, so they are not modelled.
- The URL for the query `native title` over the codes `au/cases/cth/HCA` and a second code is not stated as one literal equation. Each pair's spelling is proved by a general lemma:
  - the query by `FormUrlencoded.SpaceBetweenWords`;
  - `method=boolean` by `FormUrlencoded.QuotePlusUnreserved`;
  - `meta=%2Fau` by `FormUrlencoded.SlashValuePair`;
  - each `mask_path` pair by `FormUrlencoded.PathValuePair`.

  Joining the five pairs with `&` is `FormUrlencoded.Serialize`'s definition, but the joined literal URL itself is not proved.
