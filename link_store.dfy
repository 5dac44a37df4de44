/** The `links` table of the hosted datastore, reduced to an in-memory map
    from `short_code` to `original_url`, and the three queries the handlers
    send to it. A query that fails is described by a `fault`: the PostgREST
    error code it reports, or None when the datastore answers normally. */
module LinkStore {
  import opened Js

  type ErrorCode = string

  /** PostgREST's code for "the result contains 0 rows". */
  const NoRowsCode: ErrorCode := "PGRST116"

  /** Postgres' `unique_violation`, reported when an insert repeats a key. */
  const UniqueViolationCode: ErrorCode := "23505"

  datatype PgError = PgError(code: ErrorCode)

  datatype Row = Row(short_code: string, original_url: string)

  /** The `{ data, error }` pair a select query resolves to. */
  datatype QueryResult = QueryResult(data: Nullish<Row>, error: Nullish<PgError>)

  /** The `error` field of a reply: the fault, or `null` when there is none. */
  function ErrorOf(fault: Option<ErrorCode>): (e: Nullish<PgError>)
    ensures e != Undefined
    ensures e == Null <==> fault.None?
    ensures e.Val? ==> e.value.code == fault.value
  {
    match fault
    case None => Null
    case Some(code) => Val(PgError(code))
  }

  /** `from('links').select(..).eq('short_code', code)`: the row stored under
      `code`, if the query succeeds and there is one. */
  function ByCode(rows: map<string, string>, code: string, fault: Option<ErrorCode>): (q: QueryResult)
    ensures q.error == ErrorOf(fault)
    ensures q.data != Undefined
    ensures q.data.Val? <==> fault.None? && code in rows
    ensures q.data.Val? ==> q.data.value == Row(code, rows[code])
  {
    if fault.None? && code in rows then QueryResult(Val(Row(code, rows[code])), Null)
    else QueryResult(Null, ErrorOf(fault))
  }

  /** The `error` an insert of `code` reports: the fault if the request
      fails, a unique violation if `code` is already a key, otherwise `null`. */
  function InsertError(rows: map<string, string>, code: string, fault: Option<ErrorCode>): (e: Nullish<PgError>)
    ensures e != Undefined
    ensures e == Null <==> fault.None? && code !in rows
    ensures fault.None? && code in rows ==> e == Val(PgError(UniqueViolationCode))
  {
    if fault.Some? then ErrorOf(fault)
    else if code in rows then Val(PgError(UniqueViolationCode))
    else Null
  }

  /** `after` keeps every row of `before` unchanged: rows are never updated
      or deleted. */
  predicate Extends(before: map<string, string>, after: map<string, string>) {
    forall k :: k in before ==> k in after && after[k] == before[k]
  }

  /** The table after an insert of `{code -> url}`: existing rows are never
      changed, and the new row appears exactly when the insert reports no error. */
  function Inserted(rows: map<string, string>, code: string, url: string, fault: Option<ErrorCode>): (r: map<string, string>)
    ensures Extends(rows, r)
    ensures forall k :: k in r && k !in rows ==> k == code && r[k] == url
    ensures code in r && r[code] == url <==> (code in rows && rows[code] == url) || InsertError(rows, code, fault) == Null
    ensures |r| == if InsertError(rows, code, fault) == Null then |rows| + 1 else |rows|
  {
    if InsertError(rows, code, fault) == Null then rows[code := url] else rows
  }

  /** The `links` table. Keys are the `short_code` column, so a short code
      maps to at most one URL. */
  class Links {
    var rows: map<string, string>

    constructor (initial: map<string, string>)
      ensures rows == initial
    {
      rows := initial;
    }

    /** `from('links').select('short_code').eq('original_url', url).maybeSingle()`:
        some row whose URL is `url`, if the query succeeds and there is one. */
    method SelectByUrl(url: string, fault: Option<ErrorCode>) returns (q: QueryResult)
      ensures q.error == ErrorOf(fault)
      ensures q.data != Undefined
      ensures q.data.Val? <==> fault.None? && url in rows.Values
      ensures q.data.Val? ==>
                q.data.value.original_url == url
                && q.data.value.short_code in rows && rows[q.data.value.short_code] == url
    {
      if fault.None? && url in rows.Values {
        var code :| code in rows && rows[code] == url;
        q := QueryResult(Val(Row(code, url)), Null);
      } else {
        q := QueryResult(Null, ErrorOf(fault));
      }
    }

    /** `from('links').insert({ short_code: code, original_url: url })`. */
    method Insert(code: string, url: string, fault: Option<ErrorCode>) returns (error: Nullish<PgError>)
      modifies this
      ensures error == InsertError(old(rows), code, fault)
      ensures rows == Inserted(old(rows), code, url, fault)
    {
      error := InsertError(rows, code, fault);
      if error == Null {
        rows := rows[code := url];
      }
    }
  }
}
