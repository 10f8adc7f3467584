/** The structured output schema and the loop that fills it: every record
    the scraper returns becomes one `SearchResultItem`, in order, with its
    title copied, its URL coerced to text and its metadata copied or absent. */
module Results {
  import opened Wrappers

  /** A hit as the scraper reports it. Its URL may be plain text or a URL
      object; the model leaves its type open as `U`. */
  datatype RawRecord<U> = RawRecord(title: string, url: U, metadata: Option<string>)

  /** `SearchResultItem`: the URL is always text, the metadata is optional
      and absent by default. */
  datatype SearchResultItem = SearchResultItem(title: string, url: string, metadata: Option<string> := None)

  /** `SearchResultItem(title=item.title, url=str(item.url), metadata=item.metadata)`,
      with `urlText` standing for `str` on the scraper's URL type. */
  function ToItem<U>(raw: RawRecord<U>, urlText: U -> string): (item: SearchResultItem) {
    SearchResultItem(raw.title, urlText(raw.url), raw.metadata)
  }

  /** The normalisation loop: one item per raw record, nothing filtered,
      merged or reordered. */
  function Normalize<U>(raw: seq<RawRecord<U>>, urlText: U -> string): (out: seq<SearchResultItem>)
    ensures |out| == |raw|
    ensures forall i :: 0 <= i < |raw| ==>
      && out[i].title == raw[i].title
      && out[i].url == urlText(raw[i].url)
      && out[i].metadata == raw[i].metadata
  {
    if |raw| == 0 then [] else [ToItem(raw[0], urlText)] + Normalize(raw[1..], urlText)
  }

  /** Normalising a concatenation normalises each part in place: the output
      order is the input order. */
  lemma {:induction false} NormalizeAppend<U>(a: seq<RawRecord<U>>, b: seq<RawRecord<U>>, urlText: U -> string)
    ensures Normalize(a + b, urlText) == Normalize(a, urlText) + Normalize(b, urlText)
  {
    if |a| == 0 {
      assert a + b == b;
    } else {
      assert (a + b)[1..] == a[1..] + b;
      NormalizeAppend(a[1..], b, urlText);
    }
  }

  /** The records an item list stands for, with the URL as text: the way
      back from the output schema to the scraper's shape. */
  function ToRaw(items: seq<SearchResultItem>): (raw: seq<RawRecord<string>>)
    ensures |raw| == |items|
    ensures forall i :: 0 <= i < |items| ==>
      raw[i] == RawRecord(items[i].title, items[i].url, items[i].metadata)
  {
    if |items| == 0 then [] else [RawRecord(items[0].title, items[0].url, items[0].metadata)] + ToRaw(items[1..])
  }

  /** When the scraper's URLs are already text, normalisation loses and
      changes nothing: going back gives the records it started from, and
      every item list is the normalisation of its records. */
  lemma NormalizeTextUrls(raw: seq<RawRecord<string>>, items: seq<SearchResultItem>)
    ensures ToRaw(Normalize(raw, (s: string) => s)) == raw
    ensures Normalize(ToRaw(items), (s: string) => s) == items
  {
    var back := ToRaw(Normalize(raw, (s: string) => s));
    assert forall i :: 0 <= i < |raw| ==> back[i] == raw[i];
    var there := Normalize(ToRaw(items), (s: string) => s);
    assert forall i :: 0 <= i < |items| ==> there[i] == items[i];
  }
}
