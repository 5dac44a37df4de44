/** The shorten pipeline of function/shorten.ts with its three `||` guards
    (lines 41, 57 and 71) replaced by the tests they evidently mean. Nothing
    else differs from the code as written: the same stages in the same order,
    the same messages, the same five attempts. On this pipeline the
    service's promises can be proved: a created short URL redirects to the
    URL it was made for, and shortening the same URL again reuses its code. */
module ShortenCorrected {
  import opened Js
  import opened LinkStore
  import opened Shorten
  import Redirect

  /** Line 41 as intended, `url === null || typeof url !== 'string'`. */
  predicate RejectsUrl(url: Property) {
    IsNull(url) || !IsString(url)
  }

  /** Line 57 as intended, `existing !== null && existing !== undefined`. */
  predicate Found<T>(existing: Nullish<T>) {
    existing != Null && existing != Undefined
  }

  /** Line 71 as intended, `error !== null && error !== undefined`. */
  predicate InsertFailed<T>(error: Nullish<T>) {
    error != Null && error != Undefined
  }

  /** The corrected guards, unlike the written ones, let the normal case
      through: a string URL, a missing row, an insert without error. */
  lemma CorrectedGuardsPassNormalCase(url: string)
    ensures RejectsUrl(Present(JString(url))) == false && Line41Guard(Present(JString(url)))
    ensures !Found<Row>(Null) && Line57Guard<Row>(Null)
    ensures !InsertFailed<PgError>(Null) && Line71Guard<PgError>(Null)
  {
  }

  /** The `url` property of a decoded request (None when decoding or
      destructuring throws). */
  function RequestUrl(request: Option<Json>): Option<Property> {
    match request
    case None => None
    case Some(body) => UrlOf(body)
  }

  /** The URL a request asks to shorten, when its `url` is a string. */
  function StringUrl(request: Option<Json>): (url: Option<string>)
    ensures url.Some? <==> RequestUrl(request).Some? && IsString(RequestUrl(request).value)
    ensures url.Some? ==> RequestUrl(request) == Some(Present(JString(url.value)))
  {
    match RequestUrl(request)
    case Some(Present(JString(s))) => Some(s)
    case _ => None
  }

  /** Every code of the shape `hash` returns passes the redirect handler's
      validation and contains no slash. */
  lemma HexDigestIsValidCode(s: string)
    requires IsHexDigest(s)
    ensures Redirect.IsValidCode(s) && '/' !in s
  {
  }

  /** A short URL made of BaseUrl and a stored hex code redirects to the URL
      stored under that code. */
  lemma CreatedUrlRedirects(code: string, rows: map<string, string>)
    requires IsHexDigest(code) && code in rows
    ensures Redirect.Handler(BaseUrl + code, rows, None) == Redirect.Moved(301, rows[code])
  {
    HexDigestIsValidCode(code);
    assert BaseUrl + code == "https://notveryshort.netlify.app" + "/" + code;
    Redirect.RedirectsToStoredUrl("https://notveryshort.netlify.app", code, rows);
  }

  /** The reuse stage (lines 55-63) with the guard at line 57 corrected:
      a found row is answered 200 with its short code, a missing one lets the
      pipeline go on (None). The table is unchanged. */
  method ReuseIntended(links: Links, url: string, fault: Option<ErrorCode>) returns (resp: Option<Response>)
    ensures resp.Some? <==> fault.None? && url in links.rows.Values
    ensures resp.Some? ==>
              resp.value.status == 200 && resp.value.body.Existing? && resp.value.body.alreadyExists
              && resp.value.body.shortURL in links.rows && links.rows[resp.value.body.shortURL] == url
  {
    var q := links.SelectByUrl(url, fault);
    var existing := q.data;
    if Found(existing) {
      return Some(Response(200, Existing(existing.value.short_code, true)));
    }
    return None;
  }

  /** The generate-check-insert loop (lines 65-81) with the guard at line 71
      corrected: the first candidate reported free is inserted and, when the
      insert reports no error, answered 200 with its short URL. */
  method GenerateIntended(links: Links, url: string, cand: nat -> string,
                          checkFault: nat -> Option<ErrorCode>, insertFault: Option<ErrorCode>)
    returns (resp: Response, ghost checks: nat)
    modifies links
    ensures var first := FirstFree(old(links.rows), cand, checkFault, 0);
      && (first.None? ==>
            resp == Response(500, ErrorBody(GenerationFailed))
            && links.rows == old(links.rows) && checks == MaxAttempts)
      && (first.Some? ==>
            checks == first.value + 1
            && links.rows == Inserted(old(links.rows), cand(first.value), url, insertFault)
            && resp == if InsertError(old(links.rows), cand(first.value), insertFault) == Null
                       then Response(200, Created(BaseUrl + cand(first.value)))
                       else Caught)
  {
    checks := 0;
    for i := 0 to MaxAttempts
      invariant links.rows == old(links.rows)
      invariant checks == i
      invariant forall j :: 0 <= j < i ==> TakenAt(links.rows, cand, checkFault, j)
    {
      var shortCode := cand(i);
      var taken := CheckUrlInDb(links.rows, shortCode, checkFault(i));
      checks := checks + 1;
      if taken == false {
        var error := links.Insert(shortCode, url, insertFault);
        if InsertFailed(error) {
          // `throw error`, caught at lines 83-87
          return Caught, checks;
        }
        return Response(200, Created(BaseUrl + shortCode)), checks;
      }
    }
    resp := Response(500, ErrorBody(GenerationFailed));
  }

  /** `POST` (lines 37-89) with the three guards corrected. `protocolOf` is
      the URL parser, `reuseFault` the fault of the reuse lookup; the hash
      oracle `cand` yields codes of the shape `hash` produces. */
  method ShortenIntended(links: Links, request: Option<Json>, protocolOf: string -> Option<string>,
                         reuseFault: Option<ErrorCode>, cand: nat -> string,
                         checkFault: nat -> Option<ErrorCode>, insertFault: Option<ErrorCode>)
    returns (resp: Response)
    requires forall i: nat :: IsHexDigest(cand(i))
    modifies links
    // a body that fails to decode or destructure, and a `url` that is no
    // string, are refused before any query
    ensures RequestUrl(request).None? ==> resp == Caught && links.rows == old(links.rows)
    ensures RequestUrl(request).Some? && StringUrl(request).None? ==>
              resp == Response(400, ErrorBody(NeedProperUrl)) && links.rows == old(links.rows)
    ensures StringUrl(request).Some? && !IsValidUrl(protocolOf(StringUrl(request).value)) ==>
              resp == Response(400, ErrorBody(InvalidUrl)) && links.rows == old(links.rows)
    // a URL already in the table is answered with its existing code
    ensures StringUrl(request).Some? && IsValidUrl(protocolOf(StringUrl(request).value))
            && reuseFault.None? && StringUrl(request).value in old(links.rows).Values ==>
              resp.status == 200 && resp.body.Existing? && resp.body.alreadyExists
              && links.rows == old(links.rows)
              && resp.body.shortURL in links.rows && links.rows[resp.body.shortURL] == StringUrl(request).value
    // otherwise the loop decides
    ensures StringUrl(request).Some? && IsValidUrl(protocolOf(StringUrl(request).value))
            && !(reuseFault.None? && StringUrl(request).value in old(links.rows).Values) ==>
              var url := StringUrl(request).value;
              var first := FirstFree(old(links.rows), cand, checkFault, 0);
              && (first.None? ==>
                    resp == Response(500, ErrorBody(GenerationFailed)) && links.rows == old(links.rows))
              && (first.Some? ==>
                    links.rows == Inserted(old(links.rows), cand(first.value), url, insertFault)
                    && resp == if InsertError(old(links.rows), cand(first.value), insertFault) == Null
                               then Response(200, Created(BaseUrl + cand(first.value)))
                               else Caught)
    // rows are never updated or deleted
    ensures Extends(old(links.rows), links.rows)
    // a row is added only for a valid http(s) URL, and only with a 200
    ensures links.rows != old(links.rows) ==>
              StringUrl(request).Some? && IsValidUrl(protocolOf(StringUrl(request).value))
              && resp.status == 200 && resp.body.Created?
    // a created short URL redirects to the URL it was made for
    ensures resp.body.Created? ==>
              StringUrl(request).Some?
              && Redirect.Handler(resp.body.shortURL, links.rows, None)
                 == Redirect.Moved(301, StringUrl(request).value)
  {
    if request.None? {
      // `await request.json()` rejects
      return Caught;
    }
    var destructured := UrlOf(request.value);
    if destructured.None? {
      // destructuring `null` throws
      return Caught;
    }
    var url := destructured.value;
    if RejectsUrl(url) {
      return Response(400, ErrorBody(NeedProperUrl));
    }
    if IsValidUrl(protocolOf(url.json.s)) == false {
      return Response(400, ErrorBody(InvalidUrl));
    }
    var reused := ReuseIntended(links, url.json.s, reuseFault);
    if reused.Some? {
      return reused.value;
    }
    ghost var checks;
    resp, checks := GenerateIntended(links, url.json.s, cand, checkFault, insertFault);
    if resp.body.Created? {
      var first := FirstFree(old(links.rows), cand, checkFault, 0);
      CreatedUrlRedirects(cand(first.value), links.rows);
    }
  }

  /** Shortening the same URL twice: when the first request creates a short
      URL, the second one is answered with the same code, marked as already
      existing, and the table holds exactly one new row. */
  method ShortenTwice(links: Links, request: Option<Json>, protocolOf: string -> Option<string>,
                      cand: nat -> string, checkFault: nat -> Option<ErrorCode>)
    returns (first: Response, second: Response)
    requires forall i: nat :: IsHexDigest(cand(i))
    modifies links
    ensures first.body.Created? ==>
              second.status == 200 && second.body.Existing? && second.body.alreadyExists
              && first.body.shortURL == BaseUrl + second.body.shortURL
              && |links.rows| == |old(links.rows)| + 1
  {
    first := ShortenIntended(links, request, protocolOf, None, cand, checkFault, None);
    ghost var afterFirst := links.rows;
    second := ShortenIntended(links, request, protocolOf, None, cand, checkFault, None);
    if first.body.Created? {
      var url := StringUrl(request).value;
      var k := FirstFree(old(links.rows), cand, checkFault, 0);
      var code := cand(k.value);
      assert afterFirst == old(links.rows)[code := url];
      assert url in afterFirst.Values by {
        assert afterFirst[code] == url;
      }
      // the only key mapped to `url` is the one just inserted
      assert forall c :: c in afterFirst && afterFirst[c] == url ==> c == code;
    }
  }
}
