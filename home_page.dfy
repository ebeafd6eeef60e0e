/**
 * The home page script: the search form's query parameters and the "I'm Feeling Lucky" request.
 * `URLSearchParams` encoding and the server's decoding of it are taken to be inverse, so a search
 * parameter is modelled by its value.
 */
module HomePage {
  import opened Wrappers
  import opened Text
  import opened Collections
  import opened Uri

  /** A category checkbox of the search form. */
  datatype Checkbox = Checkbox(value: string, checked: bool)

  function IsChecked(): Checkbox -> bool
  {
    (b: Checkbox) => b.checked
  }

  /** The values of the checked boxes, in document order. */
  function CheckedValues(boxes: seq<Checkbox>): (r: seq<string>)
    ensures |r| == |Filter(boxes, IsChecked())|
    ensures forall k :: 0 <= k < |r| ==> r[k] == Filter(boxes, IsChecked())[k].value
  {
    var checked := Filter(boxes, IsChecked());
    seq(|checked|, k requires 0 <= k < |checked| => checked[k].value)
  }

  datatype Param = Param(key: string, value: string)

  /** `params.get(key)`: the first parameter with the key. */
  function Lookup(params: seq<Param>, key: string): (r: Option<string>)
    ensures r.None? <==> forall k :: 0 <= k < |params| ==> params[k].key != key
    ensures r.Some? ==> exists i :: 0 <= i < |params| && params[i] == Param(key, r.value)
                                    && forall k :: 0 <= k < i ==> params[k].key != key
  {
    if params == [] then None
    else if params[0].key == key then Some(params[0].value)
    else
      var r := Lookup(params[1..], key);
      assert forall k :: 1 <= k < |params| ==> params[k] == params[1..][k - 1];
      if r.Some? then
        var i :| 0 <= i < |params[1..]| && params[1..][i] == Param(key, r.value)
                 && forall k :: 0 <= k < i ==> params[1..][k].key != key;
        assert params[i + 1] == Param(key, r.value);
        r
      else r
  }

  /** `checkedBoxes.forEach(box => categories.push(box.value))`. */
  method CollectValues(checkedBoxes: seq<Checkbox>) returns (categories: seq<string>)
    ensures |categories| == |checkedBoxes|
    ensures forall k :: 0 <= k < |categories| ==> categories[k] == checkedBoxes[k].value
  {
    categories := [];
    for i := 0 to |checkedBoxes|
      invariant |categories| == i
      invariant forall k :: 0 <= k < i ==> categories[k] == checkedBoxes[k].value
    {
      categories := categories + [checkedBoxes[i].value];
    }
  }

  /**
   * The search form's submit handler: the checked categories are collected in document order; `q`
   * is added only for a non-empty query, and `categories` (joined with `,`) only when a box is checked.
   */
  method BuildSearchParams(query: string, boxes: seq<Checkbox>) returns (params: seq<Param>)
    ensures Lookup(params, "q") == if query != [] then Some(query) else None
    ensures Lookup(params, "categories") == if CheckedValues(boxes) != [] then Some(Join(CheckedValues(boxes), ',')) else None
    ensures |params| == (if query != [] then 1 else 0) + (if CheckedValues(boxes) != [] then 1 else 0)
  {
    var checkedBoxes := Filter(boxes, IsChecked());
    var categories := CollectValues(checkedBoxes);
    assert categories == CheckedValues(boxes);
    params := [];
    if query != [] {
      params := params + [Param("q", query)];
    }
    if |categories| > 0 {
      params := params + [Param("categories", Join(categories, ','))];
    }
    ghost var joined := if categories != [] then Some(Join(categories, ',')) else None;
    assert params == (if query != [] then [Param("q", query)] else [])
                   + (if joined.Some? then [Param("categories", joined.value)] else []);
    SearchParamsLookup(query, joined);
  }

  /** The two optional parameters of the search form, each found under its own key. */
  lemma SearchParamsLookup(query: string, joined: Option<string>)
    ensures var params := (if query != [] then [Param("q", query)] else [])
                        + (if joined.Some? then [Param("categories", joined.value)] else []);
            && Lookup(params, "q") == (if query != [] then Some(query) else None)
            && Lookup(params, "categories") == joined
            && |params| == (if query != [] then 1 else 0) + (if joined.Some? then 1 else 0)
  {
    var params := (if query != [] then [Param("q", query)] else [])
                + (if joined.Some? then [Param("categories", joined.value)] else []);
    if query != [] && joined.Some? {
      assert params[1..] == [Param("categories", joined.value)];
    }
  }

  /** Splitting the joined categories on `,` gives the checked values back when none holds a comma. */
  lemma CategoriesRoundTrip(values: seq<string>)
    requires |values| >= 1
    requires forall k :: 0 <= k < |values| ==> ',' !in values[k]
    ensures Split(Join(values, ','), ',') == values
  {
    SplitJoin(values, ',');
  }

  // ----- I'm Feeling Lucky -----

  datatype LuckyClick = RefuseEmptyQuery | LuckyRequest(queryString: string)

  /** The lucky button as written: an empty query is refused with no request; otherwise the query is
      placed after `q=` as it was typed, with no encoding. */
  function LuckyClickAsWritten(query: string): (r: LuckyClick)
    ensures r.RefuseEmptyQuery? <==> query == []
    ensures query != [] && '&' !in query ==> r.LuckyRequest? && QueryValue(r.queryString, "q") == Some(query)
  {
    if query == [] then RefuseEmptyQuery
    else
      UnencodedQueryRead(query);
      LuckyRequest("q=" + query)
  }

  /** A typed `&` ends the parameter: for `rock&roll` the server searches for `rock`. */
  lemma LuckyQueryTruncated(x: string, y: string)
    requires '&' !in x
    requires KeyAbsentFrom(y, "q")
    ensures LuckyClickAsWritten(x + "&" + y).LuckyRequest?
    ensures QueryValue(LuckyClickAsWritten(x + "&" + y).queryString, "q") == Some(x)
    ensures QueryValue(LuckyClickAsWritten(x + "&" + y).queryString, "q") != Some(x + "&" + y)
  {
    assert "q=" + (x + "&" + y) == "q" + "=" + x + ("&" + y);
    ListingKeys();
    LaterKeyAbsent("q", y);
    LeadingParameter("q", x, "&" + y);
  }

  /** The lucky button with the query encoded by `encodeURIComponent`. */
  function LuckyClickEncoded(query: string): (r: LuckyClick)
    ensures r.RefuseEmptyQuery? <==> query == []
  {
    if query == [] then RefuseEmptyQuery else LuckyRequest("q=" + EncodeURIComponent(query))
  }

  /** With the query encoded, the server reads exactly the typed text: its value decodes to the
      query's UTF-8 bytes. */
  lemma LuckyQueryEncodedIntact(query: string)
    requires query != []
    ensures LuckyClickEncoded(query).LuckyRequest?
    ensures QueryValue(LuckyClickEncoded(query).queryString, "q") == Some(EncodeURIComponent(query))
    ensures PercentDecode(QueryValue(LuckyClickEncoded(query).queryString, "q").value) == Some(Utf8String(query))
  {
    var e := EncodeURIComponent(query);
    NoSeparatorInEncoded(query);
    QueryPrefix(e);
    OnlyParameter("q", e);
    DecodeEncode(query);
  }

  lemma QueryPrefix(v: string)
    ensures "q=" + v == "q" + "=" + v
  {
  }

  /** The two parameter names of the listing are distinct and hold neither `=` nor `&`. */
  lemma ListingKeys()
    ensures "q" != [] && '=' !in "q" && '&' !in "q"
    ensures "categories" != [] && '=' !in "categories" && '&' !in "categories"
    ensures "q" != "categories"
  {
    assert |"q"| != |"categories"|;
  }

  /** An unencoded query without `&` is a single `q` parameter. */
  lemma UnencodedQueryRead(v: string)
    ensures '&' !in v ==> QueryValue("q=" + v, "q") == Some(v) && QueryValue("q=" + v, "categories") == None
  {
    QueryPrefix(v);
    ListingKeys();
    if '&' !in v {
      OnlyParameter("q", v);
      OtherKeyAbsent("q", v, "categories");
    }
  }
}
