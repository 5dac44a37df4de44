/** The `POST` handler of function/shorten.ts as it is written.

    Three of its guards join two inequalities with `||` and therefore hold of
    every value (lines 41, 57 and 71). As a consequence `POST` answers every
    request at line 41 or in its `catch` block. The stages after line 41, the
    reuse-by-URL stage and the generate-check-insert loop, are modelled as
    methods of their own so that what they do is still stated and proved. */
module Shorten {
  import opened Js
  import opened LinkStore

  /** The number of candidate codes the loop at line 65 tries. */
  const MaxAttempts: nat := 5

  /** The prefix of a freshly created short URL (line 74). */
  const BaseUrl := "https://notveryshort.netlify.app/"

  const NeedProperUrl := "Need a proper URL"
  const InvalidUrl := "Invalid URL"
  const InternalServerError := "Internal Server Error"
  const GenerationFailed := "failed to generate unique code"

  /** The JSON body of a response: `{ error }`, `{ shortURL }` or
      `{ shortURL, alreadyExists }`. */
  datatype Body =
    | ErrorBody(error: string)
    | Created(shortURL: string)
    | Existing(shortURL: string, alreadyExists: bool)

  datatype Response = Response(status: int, body: Body)

  /** The answer of the `catch` block (lines 83-87) to any thrown value. */
  const Caught := Response(500, ErrorBody(InternalServerError))

  /** The shape of what `hash` returns: the first 10 hex digits of a SHA-256
      digest (line 14). */
  predicate IsHexDigest(s: string) {
    |s| == 10 && forall i :: 0 <= i < |s| ==> s[i] in "0123456789abcdef"
  }

  /** `isValidUrl` (lines 18-24). `protocol` is what `new URL(url).protocol`
      yields, or None when the constructor throws. */
  function IsValidUrl(protocol: Option<string>): (ok: bool)
    ensures protocol.None? ==> !ok
    ensures ok <==> protocol == Some("http:") || protocol == Some("https:")
  {
    match protocol
    case None => false
    case Some(p) => p in ["http:", "https:"]
  }

  /** The decision of `checkURLinDB` (lines 30-34) on the reply `q` of its
      query: an error other than "no rows" reads as "not taken"; otherwise the
      code is taken exactly when a row came back. */
  function IsTaken(q: QueryResult): (taken: bool)
    ensures q.error.Val? && q.error.value.code != NoRowsCode ==> !taken
    ensures taken <==> q.data.Val? && (q.error.Val? ==> q.error.value.code == NoRowsCode)
  {
    if q.error.Val? && q.error.value.code != NoRowsCode then false
    else q.data.Val?
  }

  /** `checkURLinDB(code)` (lines 27-35) against the table `rows`: a code is
      reported taken exactly when its query succeeds and the code is a key,
      so a failed query makes a code look free. */
  function CheckUrlInDb(rows: map<string, string>, code: string, fault: Option<ErrorCode>): (taken: bool)
    ensures taken <==> fault.None? && code in rows
  {
    IsTaken(ByCode(rows, code, fault))
  }

  /** `const { url } = body` (line 39): None when destructuring throws, which
      it does on `null`; a primitive or an array has no `url` property. */
  function UrlOf(body: Json): (url: Option<Property>)
    ensures url.None? <==> body == JNull
    ensures body.JObject? && "url" in body.fields ==> url == Some(Present(body.fields["url"]))
    ensures body != JNull && !(body.JObject? && "url" in body.fields) ==> url == Some(Absent)
  {
    match body
    case JNull => None
    case JObject(fields) => Some(if "url" in fields then Present(fields["url"]) else Absent)
    case _ => Some(Absent)
  }

  /** The guard at line 41, `url !== null || typeof url !== 'string'`. */
  predicate Line41Guard(url: Property) {
    !IsNull(url) || !IsString(url)
  }

  /** The guard at line 57, `existing !== null || existing !== undefined`. */
  predicate Line57Guard<T>(existing: Nullish<T>) {
    existing != Null || existing != Undefined
  }

  /** The guard at line 71, `error !== null || error !== undefined`. */
  predicate Line71Guard<T>(error: Nullish<T>) {
    error != Null || error != Undefined
  }

  lemma Line41GuardAlwaysHolds(url: Property)
    ensures Line41Guard(url)
  {
  }

  lemma Line57GuardAlwaysHolds<T>(existing: Nullish<T>)
    ensures Line57Guard(existing)
  {
  }

  lemma Line71GuardAlwaysHolds<T>(error: Nullish<T>)
    ensures Line71Guard(error)
  {
  }

  /** `POST` (lines 37-89). `request` is what `await request.json()` yields,
      None when decoding rejects. The table is no parameter: as written the
      handler never reaches a query. */
  function Post(request: Option<Json>): (r: Response)
    ensures r.status == 500 <==> request.None? || request.value == JNull
    ensures r.status == 500 ==> r == Caught
    ensures r.status != 500 ==> r == Response(400, ErrorBody(NeedProperUrl))
  {
    match request
    case None => Caught
    case Some(body) =>
      match UrlOf(body)
      case None => Caught
      case Some(url) =>
        if Line41Guard(url) then Response(400, ErrorBody(NeedProperUrl))
        else assert false; Caught
  }

  /** Every decodable request carrying a well-formed http URL is still
      refused at line 41. */
  lemma PostRejectsProperUrl()
    ensures Post(Some(JObject(map["url" := JString("https://example.com")])))
            == Response(400, ErrorBody(NeedProperUrl))
  {
  }

  /** `POST` never answers 200: only 400 or 500. */
  lemma PostNeverShortens(request: Option<Json>)
    ensures Post(request).status in {400, 500}
    ensures Post(request).body.ErrorBody?
  {
  }

  /** The reuse stage (lines 55-63) as written: the guard at line 57 always
      holds, so a found row is answered 200 with its bare short code, and a
      missing one makes `existing!.short_code` throw on `null`. The stage
      takes no `modifies`: the table is unchanged. */
  method ReuseStage(links: Links, url: string, fault: Option<ErrorCode>) returns (resp: Response)
    ensures fault.None? && url in links.rows.Values ==>
              resp.status == 200 && resp.body.Existing? && resp.body.alreadyExists
              && resp.body.shortURL in links.rows && links.rows[resp.body.shortURL] == url
    ensures !(fault.None? && url in links.rows.Values) ==> resp == Caught
  {
    var q := links.SelectByUrl(url, fault);
    var existing := q.data;
    resp := Caught;
    if Line57Guard(existing) {
      if existing.Val? {
        resp := Response(200, Existing(existing.value.short_code, true));
      }
      // otherwise `existing!.short_code` reads a property of `null`: the
      // TypeError is caught at lines 83-87
      return;
    }
    assert false;
  }

  /** Attempt `i` of the loop finds its candidate taken. */
  predicate TakenAt(rows: map<string, string>, cand: nat -> string, checkFault: nat -> Option<ErrorCode>, i: nat) {
    CheckUrlInDb(rows, cand(i), checkFault(i))
  }

  /** The first attempt from `i` on, below MaxAttempts, whose candidate is
      reported free; None when every remaining one is reported taken. */
  function FirstFree(rows: map<string, string>, cand: nat -> string, checkFault: nat -> Option<ErrorCode>, i: nat): (k: Option<nat>)
    requires i <= MaxAttempts
    ensures k.Some? ==> i <= k.value < MaxAttempts && !TakenAt(rows, cand, checkFault, k.value)
    ensures k.Some? ==> forall j :: i <= j < k.value ==> TakenAt(rows, cand, checkFault, j)
    ensures k.None? ==> forall j :: i <= j < MaxAttempts ==> TakenAt(rows, cand, checkFault, j)
    decreases MaxAttempts - i
  {
    if i == MaxAttempts then None
    else if !TakenAt(rows, cand, checkFault, i) then Some(i)
    else FirstFree(rows, cand, checkFault, i + 1)
  }

  /** The generate-check-insert loop (lines 65-81) as written. Attempt `i`
      proposes `cand(i)` (the hash oracle) and checks it with the fault
      `checkFault(i)`; the first one reported free is inserted, after which
      the guard at line 71 always throws. `checks` counts the availability
      checks made. */
  method GenerateLoop(links: Links, url: string, cand: nat -> string,
                      checkFault: nat -> Option<ErrorCode>, insertFault: Option<ErrorCode>)
    returns (resp: Response, ghost checks: nat)
    modifies links
    ensures var first := FirstFree(old(links.rows), cand, checkFault, 0);
      && (first.None? ==>
            resp == Response(500, ErrorBody(GenerationFailed))
            && links.rows == old(links.rows) && checks == MaxAttempts)
      && (first.Some? ==>
            resp == Caught && checks == first.value + 1
            && links.rows == Inserted(old(links.rows), cand(first.value), url, insertFault))
  {
    checks := 0;
    for i := 0 to MaxAttempts
      invariant links.rows == old(links.rows)
      invariant checks == i
      invariant forall j :: 0 <= j < i ==> TakenAt(links.rows, cand, checkFault, j)
    {
      var shortCode := cand(i);
      var taken := CheckUrlInDb(links.rows, shortCode, checkFault(i));
      checks := checks + 1;
      if taken == false {
        var error := links.Insert(shortCode, url, insertFault);
        if Line71Guard(error) {
          // `throw error`, caught at lines 83-87
          return Caught, checks;
        }
        // the success response at lines 73-77 cannot be reached
        assert false;
      }
    }
    resp := Response(500, ErrorBody(GenerationFailed));
  }
}
