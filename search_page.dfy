/**
 * The search results page script: it reads `q` from its own address and asks `GET /api/torrents`
 * for that query. The decoded query is placed after `q=` as it is, and `categories` is never read
 * or passed on. Beside the request as written stands the request that forwards both parameters,
 * each encoded with `encodeURIComponent`.
 */
module SearchPage {
  import opened Wrappers
  import opened Text
  import opened Uri
  import opened HomePage
  import TorrentController

  // ----- As written -----

  /**
   * The query string of the listing request as written: none for a falsy query, otherwise `q=`
   * followed by the query unencoded. An `&`-free query is read back intact, and no `categories`
   * parameter can arise from it.
   */
  function ListingQueryAsWritten(query: Option<string>): (r: string)
    ensures r == [] <==> !Truthy(query)
    ensures Truthy(query) && '&' !in query.value ==> QueryValue(r, "q") == Some(query.value)
    ensures !Truthy(query) ==> QueryValue(r, "q") == None
    ensures !Truthy(query) || '&' !in query.value ==> QueryValue(r, "categories") == None
  {
    if Truthy(query) then
      UnencodedQueryRead(query.value);
      "q=" + query.value
    else
      EmptyQueryAbsent("q");
      EmptyQueryAbsent("categories");
      []
  }

  /** A typed `&` ends the parameter: searching for `rock&roll` lists the torrents matching `rock`. */
  lemma SearchQueryTruncated(x: string, y: string)
    requires x != [] && '&' !in x
    requires KeyAbsentFrom(y, "q")
    ensures QueryValue(ListingQueryAsWritten(Some(x + "&" + y)), "q") == Some(x)
  {
    var v := x + "&" + y;
    assert ListingQueryAsWritten(Some(v)) == "q=" + v;
    assert "q=" + v == "q" + "=" + x + ("&" + y);
    ListingKeys();
    LaterKeyAbsent("q", y);
    LeadingParameter("q", x, "&" + y);
  }

  /**
   * A search from the home page as the program runs it: the form's parameters reach the search
   * page, which forwards only `q`, unencoded, to the listing. The filter gets an `&`-free query
   * intact and never gets a category condition, whichever boxes were checked.
   */
  method SearchFilterAsWritten(query: string, boxes: seq<Checkbox>) returns (f: TorrentController.QueryFilter)
    ensures '&' !in query ==> f.name == if query != [] then Some(query) else None
    ensures '&' !in query ==> f.categories.None?
  {
    var params := BuildSearchParams(query, boxes);
    var request := ListingQueryAsWritten(Lookup(params, "q"));
    f := TorrentController.BuildQueryFilter(QueryValue(request, "q"), QueryValue(request, "categories"));
  }

  // ----- Corrected -----

  /** The listing request forwarding both parameters of the page, each value encoded. The server
      reads back, under each key, exactly the encoded value, and nothing for a falsy parameter. */
  function ListingQueryEncoded(query: Option<string>, categories: Option<string>): (r: string)
    ensures QueryValue(r, "q") == if Truthy(query) then Some(EncodeURIComponent(query.value)) else None
    ensures QueryValue(r, "categories") == if Truthy(categories) then Some(EncodeURIComponent(categories.value)) else None
  {
    ListingKeys();
    if Truthy(query) then
      var q := EncodeURIComponent(query.value);
      NoSeparatorInEncoded(query.value);
      if Truthy(categories) then
        var c := EncodeURIComponent(categories.value);
        NoSeparatorInEncoded(categories.value);
        TwoParameters("q", q, "categories", c);
        ("q" + "=" + q) + "&" + ("categories" + "=" + c)
      else
        OnlyParameter("q", q);
        OtherKeyAbsent("q", q, "categories");
        "q" + "=" + q
    else if Truthy(categories) then
      var c := EncodeURIComponent(categories.value);
      NoSeparatorInEncoded(categories.value);
      OnlyParameter("categories", c);
      OtherKeyAbsent("categories", c, "q");
      "categories" + "=" + c
    else
      EmptyQueryAbsent("q");
      EmptyQueryAbsent("categories");
      []
  }

  /**
   * A search from the home page with the corrected search page: the listing reads for `q` the
   * UTF-8 bytes of the typed query and for `categories` those of the comma-joined checked values,
   * and nothing for a parameter the form left out.
   */
  method SearchRequestEncoded(query: string, boxes: seq<Checkbox>) returns (request: string)
    ensures query == [] ==> QueryValue(request, "q") == None
    ensures query != [] ==> QueryValue(request, "q").Some?
                            && PercentDecode(QueryValue(request, "q").value) == Some(Utf8String(query))
    ensures var joined := Join(CheckedValues(boxes), ',');
            if CheckedValues(boxes) != [] && joined != [] then
              QueryValue(request, "categories").Some?
              && PercentDecode(QueryValue(request, "categories").value) == Some(Utf8String(joined))
            else QueryValue(request, "categories") == None
  {
    var params := BuildSearchParams(query, boxes);
    request := ListingQueryEncoded(Lookup(params, "q"), Lookup(params, "categories"));
    if query != [] {
      DecodeEncode(query);
    }
    var joined := Join(CheckedValues(boxes), ',');
    if CheckedValues(boxes) != [] && joined != [] {
      DecodeEncode(joined);
    }
  }
}
