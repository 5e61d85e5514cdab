/** Values shared by every part of the model: optional values, the caller's
    identity and role, the outcome of a request handler, and the few string
    helpers the handlers use (case folding and file extensions). */
module Common {

  datatype Option<T> = None | Some(value: T)

  /** A point in time as the stores record it. */
  type Time = int

  /** The identity that the authentication middleware stores in the request
      context: the user's id and the id of their role. */
  datatype Caller = Caller(userId: string, roleId: string)

  /** The three role identifiers the handlers compare against. */
  const RoleAdmin: string := "11111111-1111-1111-1111-111111111111"
  /** A student (mahasiswa). */
  const RoleStudent: string := "22222222-2222-2222-2222-222222222222"
  /** A lecturer (dosen), who may be a student's advisor. */
  const RoleLecturer: string := "33333333-3333-3333-3333-333333333333"

  /** The failures a handler reports, one per HTTP error status it uses. */
  datatype Failure = Forbidden | BadRequest | NotFound | ServerError

  function FailureCode(f: Failure): (code: int)
    ensures 400 <= code < 600
  {
    match f
    case Forbidden => 403
    case BadRequest => 400
    case NotFound => 404
    case ServerError => 500
  }

  /** What a handler answers: a success status with its body, or a failure. */
  datatype Response<T> = Ok(code: int, body: T) | Fail(failure: Failure)

  predicate IsAdmin(c: Caller) { c.roleId == RoleAdmin }
  predicate IsStudent(c: Caller) { c.roleId == RoleStudent }
  predicate IsLecturer(c: Caller) { c.roleId == RoleLecturer }

  /** ASCII case folding of one character. */
  function LowerChar(c: char): char
  {
    if 'A' <= c <= 'Z' then (c as int + 32) as char else c
  }

  /** ASCII case folding of a string; no upper-case ASCII letter survives it. */
  function Lower(s: string): (r: string)
    ensures |r| == |s|
    ensures forall i :: 0 <= i < |r| ==> !('A' <= r[i] <= 'Z')
  {
    seq(|s|, i requires 0 <= i < |s| => LowerChar(s[i]))
  }

  /** The scan of the path library's extension function: look at the
      characters before index `j`, from the last one backwards; stop with ""
      at a '/', and at a '.' answer the rest of the path from that dot. */
  function ExtFrom(path: string, j: nat): (e: string)
    requires j <= |path|
    ensures |e| <= |path|
    ensures e != "" ==> |path| - |e| < j && path[|path| - |e|] == '.' && e == path[|path| - |e|..]
                        && forall k :: |path| - |e| < k < j ==> path[k] != '.' && path[k] != '/'
    ensures e == "" ==> forall k :: 0 <= k < j && path[k] == '.' ==> exists m :: k < m < j && path[m] == '/'
    decreases j
  {
    if j == 0 then ""
    else if path[j - 1] == '/' then ""
    else if path[j - 1] == '.' then path[j - 1..]
    else ExtFrom(path, j - 1)
  }

  /** The extension of a file name, as the path library computes it. */
  function Ext(path: string): (e: string)
    ensures |e| <= |path|
    ensures e == "" || (e[0] == '.' && e == path[|path| - |e|..]
                        && forall k :: 1 <= k < |e| ==> e[k] != '.' && e[k] != '/')
    ensures e == "" ==> forall k :: 0 <= k < |path| && path[k] == '.' ==>
                          exists m :: k < m < |path| && path[m] == '/'
  {
    ExtFrom(path, |path|)
  }

  /** The scan stops at the dot that starts a suffix free of further dots
      and separators, so it answers that suffix. */
  lemma {:induction false} ExtFromSuffix(path: string, start: nat, j: nat)
    requires start < j <= |path| && path[start] == '.'
    requires forall k :: start < k < j ==> path[k] != '.' && path[k] != '/'
    ensures ExtFrom(path, j) == path[start..]
    decreases j
  {
    if j - 1 > start {
      ExtFromSuffix(path, start, j - 1);
    }
  }

  /** A name that ends in a dot followed by no dot or separator has that
      ending as its extension. */
  lemma ExtOfSuffix(path: string, e: string)
    requires 1 <= |e| <= |path| && e[0] == '.' && path[|path| - |e|..] == e
    requires forall k :: 1 <= k < |e| ==> e[k] != '.' && e[k] != '/'
    ensures Ext(path) == e
  {
    var start := |path| - |e|;
    forall k | start < k < |path| ensures path[k] != '.' && path[k] != '/' {
      assert path[k] == e[k - start];
    }
    ExtFromSuffix(path, start, |path|);
  }
}
