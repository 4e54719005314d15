/** The query URL the menu service builds to list items (`getItems`). */
module MenuQuery {
  import opened Wrappers
  import opened Text

  /** The API base URL. */
  const ApiUrl := "http://localhost:3000/api"

  /** The endpoint that lists items. */
  const MoviesUrl := ApiUrl + "/movies"

  /** The `q` parameter is sent only when the trimmed query is non-empty. */
  predicate WantsQuery(query: Option<string>) {
    query.Some? && Trim(query.value) != ""
  }

  /** The `category` parameter is sent only for a category other than `all`. */
  predicate WantsCategory(category: Option<string>) {
    category.Some? && category.value != "" && category.value != "all"
  }

  /** The parameters `getItems` sends, `q` first. */
  function QueryParams(query: Option<string>, category: Option<string>,
                       encode: string -> string): seq<string>
  {
    (if WantsQuery(query) then ["q=" + encode(Trim(query.value))] else []) +
    (if WantsCategory(category) then ["category=" + encode(category.value)] else [])
  }

  /** What follows the endpoint: nothing, or `?` and the `&`-joined parameters. */
  function QueryString(params: seq<string>): (qs: string)
    ensures qs == "" <==> params == []
    ensures qs != "" ==> qs[0] == '?'
  {
    if params == [] then "" else "?" + Join(params, '&')
  }

  /** The URL is decodable: a query string is present exactly when there are
      parameters, and splitting it at `&` gives the parameters back, as long
      as the encoder never emits `&` (percent-encoding escapes it). */
  lemma QueryStringDecodes(query: Option<string>, category: Option<string>,
                           encode: string -> string)
    requires forall s :: '&' !in encode(s)
    ensures var params := QueryParams(query, category, encode);
      && (QueryString(params) == "" <==> !WantsQuery(query) && !WantsCategory(category))
      && (params != [] ==>
            QueryString(params)[0] == '?' && Split(QueryString(params)[1..], '&') == params)
  {
    var params := QueryParams(query, category, encode);
    forall i | 0 <= i < |params|
      ensures '&' !in params[i]
    {
      if WantsQuery(query) && i == 0 {
        assert params[i] == "q=" + encode(Trim(query.value));
        assert '&' !in encode(Trim(query.value));
      } else {
        assert params[i] == "category=" + encode(category.value);
        assert '&' !in encode(category.value);
      }
    }
    if params != [] {
      SplitJoin(params, '&');
      assert QueryString(params)[1..] == Join(params, '&');
    }
  }

  /** The parameters, case by case. */
  lemma QueryParamsCases(query: Option<string>, category: Option<string>,
                         encode: string -> string)
    ensures var params := QueryParams(query, category, encode);
      && (!WantsQuery(query) && !WantsCategory(category) ==> params == [])
      && (WantsQuery(query) && !WantsCategory(category) ==>
            params == ["q=" + encode(Trim(query.value))])
      && (!WantsQuery(query) && WantsCategory(category) ==>
            params == ["category=" + encode(category.value)])
      && (WantsQuery(query) && WantsCategory(category) ==>
            params == ["q=" + encode(Trim(query.value)), "category=" + encode(category.value)])
  {
  }

  /** The query string of one or two parameters. */
  lemma QueryStringShort(p: string, c: string)
    ensures QueryString([p]) == "?" + p
    ensures QueryString([p, c]) == "?" + p + "&" + c
  {
    assert [p, c][1..] == [c];
    assert Join([p, c], '&') == p + "&" + c;
  }

  /** A literal prefix followed by a literal parameter name is one literal. */
  lemma LiteralPrefixes(x: string)
    ensures "?" + ("q=" + x) == "?q=" + x
    ensures "?" + ("category=" + x) == "?category=" + x
    ensures "&" + ("category=" + x) == "&category=" + x
  {
    assert "?" + "q=" == "?q=";
    assert "?" + "category=" == "?category=";
    assert "&" + "category=" == "&category=";
  }

  /** With neither parameter wanted, the URL is the bare endpoint. */
  lemma QueryStringNone(query: Option<string>, category: Option<string>,
                        encode: string -> string)
    requires !WantsQuery(query) && !WantsCategory(category)
    ensures QueryString(QueryParams(query, category, encode)) == ""
  {
    QueryParamsCases(query, category, encode);
  }

  /** A non-blank query alone is sent trimmed and encoded as `?q=`. */
  lemma QueryStringQueryOnly(query: Option<string>, category: Option<string>,
                             encode: string -> string)
    requires WantsQuery(query) && !WantsCategory(category)
    ensures QueryString(QueryParams(query, category, encode)) ==
      "?q=" + encode(Trim(query.value))
  {
    QueryParamsCases(query, category, encode);
    QueryStringShort("q=" + encode(Trim(query.value)), "");
    LiteralPrefixes(encode(Trim(query.value)));
  }

  /** A category other than `all` alone is sent encoded as `?category=`;
      a blank query adds nothing. */
  lemma QueryStringCategoryOnly(query: Option<string>, category: Option<string>,
                                encode: string -> string)
    requires !WantsQuery(query) && WantsCategory(category)
    ensures QueryString(QueryParams(query, category, encode)) ==
      "?category=" + encode(category.value)
  {
    QueryParamsCases(query, category, encode);
    QueryStringShort("category=" + encode(category.value), "");
    LiteralPrefixes(encode(category.value));
  }

  /** Both parameters: `q` first, then `&`, then `category`. */
  lemma QueryStringBoth(query: Option<string>, category: Option<string>,
                        encode: string -> string)
    requires WantsQuery(query) && WantsCategory(category)
    ensures QueryString(QueryParams(query, category, encode)) ==
      "?q=" + encode(Trim(query.value)) + "&category=" + encode(category.value)
  {
    var q, c := "q=" + encode(Trim(query.value)), "category=" + encode(category.value);
    QueryParamsCases(query, category, encode);
    QueryStringShort(q, c);
    LiteralPrefixes(encode(Trim(query.value)));
    LiteralPrefixes(encode(category.value));
    calc {
      "?" + q + "&" + c;
      ("?" + q) + ("&" + c);
      ("?q=" + encode(Trim(query.value))) + ("&category=" + encode(category.value));
    }
  }

  /** The URL `getItems` requests: the endpoint, then the query string. The
      parameter array is built by pushes, as the service does. */
  method ItemsUrl(query: Option<string>, category: Option<string>, encode: string -> string)
    returns (url: string)
    ensures url == MoviesUrl + QueryString(QueryParams(query, category, encode))
  {
    url := MoviesUrl;
    var params: seq<string> := [];
    if query.Some? && Trim(query.value) != "" {
      params := params + ["q=" + encode(Trim(query.value))];
    }
    if category.Some? && category.value != "" && category.value != "all" {
      params := params + ["category=" + encode(category.value)];
    }
    assert params == QueryParams(query, category, encode);
    if |params| > 0 {
      url := url + "?" + Join(params, '&');
      assert url == MoviesUrl + ("?" + Join(params, '&'));
    }
  }

}
