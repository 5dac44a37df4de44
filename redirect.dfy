/** `handler` of function/redirect.ts: take the last segment of the request
    path, check it against `^[a-zA-Z0-9]{6,}$`, and answer a lookup of that
    code in the `links` table with 301, 404 or 400. The handler only reads the
    table: it is a function of the table's rows. */
module Redirect {
  import opened Js
  import opened LinkStore

  /** The `{6,}` of the code pattern. */
  const MinCodeLength: nat := 6

  const InvalidCode := "invalid code"
  const NotFound := "Not found"

  /** `{ statusCode, body }` or `{ statusCode, headers: { Location } }`. */
  datatype Reply =
    | Plain(statusCode: int, body: string)
    | Moved(statusCode: int, location: string)

  /** `s.split('/')`: the pieces between the slashes, one more than there are
      slashes, so never an empty array. */
  function Split(s: string): (parts: seq<string>)
    ensures |parts| >= 1
    ensures forall i :: 0 <= i < |parts| ==> '/' !in parts[i]
    decreases |s|
  {
    if s == [] then [""]
    else
      var init := Split(s[..|s| - 1]);
      var c := s[|s| - 1];
      if c == '/' then init + [""]
      else init[..|init| - 1] + [init[|init| - 1] + [c]]
  }

  /** `parts.join('/')`, the inverse of Split. */
  function Join(parts: seq<string>): string
    requires |parts| >= 1
    decreases |parts|
  {
    if |parts| == 1 then parts[0]
    else Join(parts[..|parts| - 1]) + "/" + parts[|parts| - 1]
  }

  /** Splitting at the slashes loses nothing: joining the pieces gives the
      string back. */
  lemma {:induction false} SplitJoin(s: string)
    ensures Join(Split(s)) == s
    decreases |s|
  {
    if s != [] {
      var s', c := s[..|s| - 1], s[|s| - 1];
      var init := Split(s');
      SplitJoin(s');
      var parts := Split(s);
      assert s == s' + [c];
      if c == '/' {
        assert parts[..|parts| - 1] == init;
      } else if |init| > 1 {
        assert parts[..|parts| - 1] == init[..|init| - 1];
        assert Join(init) == Join(init[..|init| - 1]) + "/" + init[|init| - 1];
      }
    }
  }

  /** `Array.prototype.pop` as an expression: the last element, or
      `undefined` for an empty array. It never yields `null`. */
  function Pop(parts: seq<string>): (last: Nullish<string>)
    ensures last == Undefined <==> parts == []
    ensures last != Null
    ensures last.Val? ==> last.value == parts[|parts| - 1]
  {
    if parts == [] then Undefined else Val(parts[|parts| - 1])
  }

  /** The part of `path` after its last slash (all of it when it has none). */
  function LastSegment(path: string): (code: string)
    ensures '/' !in code
    ensures |code| <= |path| && code == path[|path| - |code|..]
    ensures |code| == |path| || path[|path| - |code| - 1] == '/'
    decreases |path|
  {
    if path == [] || path[|path| - 1] == '/' then ""
    else LastSegment(path[..|path| - 1]) + [path[|path| - 1]]
  }

  /** `path.split('/').pop()` is always defined, and it is the last segment;
      hence the `code === null` test at line 10 never fires. */
  lemma {:induction false} PopSplitIsLastSegment(path: string)
    ensures Pop(Split(path)) == Val(LastSegment(path))
    decreases |path|
  {
    if path != [] {
      PopSplitIsLastSegment(path[..|path| - 1]);
    }
  }

  /** The segment after a final slash is whatever follows it. */
  lemma {:induction false} LastSegmentAfterSlash(prefix: string, code: string)
    requires '/' !in code
    ensures LastSegment(prefix + "/" + code) == code
    decreases |code|
  {
    var path := prefix + "/" + code;
    if code != [] {
      var code' := code[..|code| - 1];
      assert path[..|path| - 1] == prefix + "/" + code';
      LastSegmentAfterSlash(prefix, code');
      assert code == code' + [code[|code| - 1]];
    }
  }

  predicate IsAlphaNumeric(c: char) {
    ('a' <= c <= 'z') || ('A' <= c <= 'Z') || ('0' <= c <= '9')
  }

  /** `/^[a-zA-Z0-9]{6,}$/.test(code)` */
  predicate IsValidCode(code: string) {
    |code| >= MinCodeLength && forall i :: 0 <= i < |code| ==> IsAlphaNumeric(code[i])
  }

  /** `String(v)`, the conversion `RegExp.prototype.test` and the query
      builder apply to their argument. */
  function JsString(v: Nullish<string>): string {
    match v
    case Undefined => "undefined"
    case Null => "null"
    case Val(s) => s
  }

  /** `handler` (lines 7-24). `rows` is the table, `fault` describes a
      failure of the lookup at line 14, whose `error` the handler ignores. */
  function Handler(path: string, rows: map<string, string>, fault: Option<ErrorCode>): (r: Reply)
    ensures !IsValidCode(LastSegment(path)) ==> r == Plain(400, InvalidCode)
    ensures IsValidCode(LastSegment(path)) && !(fault.None? && LastSegment(path) in rows) ==>
              r == Plain(404, NotFound)
    ensures IsValidCode(LastSegment(path)) && fault.None? && LastSegment(path) in rows ==>
              r == Moved(301, rows[LastSegment(path)])
  {
    PopSplitIsLastSegment(path);
    var code := Pop(Split(path));
    if code == Null || !IsValidCode(JsString(code)) then Plain(400, InvalidCode)
    else
      var q := ByCode(rows, JsString(code), fault);
      if q.data == Null || q.data == Undefined then Plain(404, NotFound)
      else Moved(301, q.data.value.original_url)
  }

  /** A request for `.../code`, with `code` stored and well formed, is
      redirected to the stored URL; and it is redirected only then. */
  lemma RedirectsToStoredUrl(prefix: string, code: string, rows: map<string, string>)
    requires '/' !in code
    ensures Handler(prefix + "/" + code, rows, None).Moved? <==> IsValidCode(code) && code in rows
    ensures IsValidCode(code) && code in rows ==>
              Handler(prefix + "/" + code, rows, None) == Moved(301, rows[code])
  {
    LastSegmentAfterSlash(prefix, code);
  }
}
