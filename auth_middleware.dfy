/**
 * `backend/middleware/auth_middleware.py`: the bearer-token guard every
 * protected route sits behind, and the role-membership guard. `jwt.decode`
 * (signature, expiry) is a foreign library: the guard receives it as a
 * function from the token text to what decoding reports.
 */
module AuthMiddleware {
  import opened Common
  import opened Http

  // ---------------------------------------------------------------------------
  // str.split with an explicit separator
  // ---------------------------------------------------------------------------

  /** Python's `s.split(sep)` for a one-character separator: every separator cuts, empty pieces are kept. */
  function Split(s: string, sep: char): (r: seq<string>)
    ensures |r| >= 1
    ensures forall i :: 0 <= i < |r| ==> sep !in r[i]
  {
    if s == [] then [""]
    else if s[0] == sep then [""] + Split(s[1..], sep)
    else
      var rest := Split(s[1..], sep);
      [[s[0]] + rest[0]] + rest[1..]
  }

  /** `sep.join(parts)`. */
  function Join(parts: seq<string>, sep: char): string
    requires |parts| >= 1
  {
    if |parts| == 1 then parts[0] else parts[0] + [sep] + Join(parts[1..], sep)
  }

  /** Joining the pieces with the separator gives back the string. */
  lemma {:induction false} JoinSplit(s: string, sep: char)
    ensures Join(Split(s, sep), sep) == s
  {
    if s == [] {
    } else if s[0] == sep {
      JoinSplit(s[1..], sep);
      assert ([""] + Split(s[1..], sep))[1..] == Split(s[1..], sep);
      assert s == [sep] + s[1..];
    } else {
      JoinSplit(s[1..], sep);
      var rest := Split(s[1..], sep);
      var r := [[s[0]] + rest[0]] + rest[1..];
      assert r[1..] == rest[1..];
      if |rest| == 1 {
        assert s == [s[0]] + rest[0];
      } else {
        assert Join(rest, sep) == rest[0] + [sep] + Join(rest[1..], sep);
        assert s == [s[0]] + s[1..];
      }
    }
  }

  /** There is one more piece than there are separators. */
  lemma {:induction false} SplitCount(s: string, sep: char)
    ensures |Split(s, sep)| == 1 + multiset(s)[sep]
  {
    if s != [] {
      SplitCount(s[1..], sep);
      assert s == [s[0]] + s[1..];
      assert multiset(s) == multiset([s[0]]) + multiset(s[1..]);
    }
  }

  /** A prefix without the separator followed by one separator is the first piece. */
  lemma {:induction false} SplitAfter(a: string, sep: char, t: string)
    requires sep !in a
    ensures Split(a + [sep] + t, sep) == [a] + Split(t, sep)
  {
    var s := a + [sep] + t;
    if a == [] {
      assert s == [sep] + t;
      assert s[1..] == t;
    } else {
      assert s[0] == a[0] && s[1..] == a[1..] + [sep] + t;
      SplitAfter(a[1..], sep, t);
      assert [a[0]] + a[1..] == a;
    }
  }

  /** A string without the separator is one piece. */
  lemma {:induction false} SplitWhole(t: string, sep: char)
    requires sep !in t
    ensures Split(t, sep) == [t]
  {
    if t != [] {
      SplitWhole(t[1..], sep);
      assert [t[0]] + t[1..] == t;
    }
  }

  // ---------------------------------------------------------------------------
  // token_required
  // ---------------------------------------------------------------------------

  /** What `jwt.decode` reports: an expired signature, any other invalid token, or the payload's two claims (absent ones `None`). */
  datatype Decoded = Expired | Invalid | Payload(userId: Option<int>, role: Option<string>)

  datatype AuthOutcome =
    | Authenticated(caller: Caller)
    | Unauthenticated(error: string)   // answered with 401
    | ServerError                      // a `KeyError` on a missing claim, answered with 500

  const FormatMessage := "Invalid token format"
  const MissingMessage := "Token is missing"
  const ExpiredMessage := "Token has expired"
  const InvalidMessage := "Invalid token"

  /** The token a header carries: the second piece of splitting it on single spaces. */
  function TokenOf(header: string): (t: Option<string>)
    ensures t.Some? <==> ' ' in header
  {
    SplitCount(header, ' ');
    var parts := Split(header, ' ');
    if |parts| < 2 then None else Some(parts[1])
  }

  /** With the usual `Bearer <token>` header the token is exactly `<token>`. */
  lemma BearerToken(scheme: string, token: string)
    requires ' ' !in scheme && ' ' !in token
    ensures TokenOf(scheme + " " + token) == Some(token)
  {
    SplitAfter(scheme, ' ', token);
    SplitWhole(token, ' ');
  }

  /**
   * `token_required`. No header, or an empty token, is "Token is missing";
   * a header without a space is "Invalid token format"; otherwise the
   * decoder decides, and on success the handler is called with exactly the
   * token's `user_id` and `role`.
   */
  function TokenRequired(header: Option<string>, decode: string -> Decoded): (r: AuthOutcome)
    ensures header.None? ==> r == Unauthenticated(MissingMessage)
    ensures header.Some? && ' ' !in header.value ==> r == Unauthenticated(FormatMessage)
    ensures header.Some? && TokenOf(header.value) == Some("") ==> r == Unauthenticated(MissingMessage)
    ensures header.Some? && TokenOf(header.value).Some? && TokenOf(header.value).value != "" ==>
              var d := decode(TokenOf(header.value).value);
              && (d.Expired? ==> r == Unauthenticated(ExpiredMessage))
              && (d.Invalid? ==> r == Unauthenticated(InvalidMessage))
              && (d.Payload? && (d.userId.None? || d.role.None?) ==> r == ServerError)
    ensures r.Authenticated? <==>
              && header.Some? && TokenOf(header.value).Some? && TokenOf(header.value).value != ""
              && decode(TokenOf(header.value).value).Payload?
              && decode(TokenOf(header.value).value).userId.Some?
              && decode(TokenOf(header.value).value).role.Some?
    ensures r.Authenticated? ==>
              r.caller == Caller(decode(TokenOf(header.value).value).userId.value, decode(TokenOf(header.value).value).role.value)
    ensures r.Unauthenticated? ==> r.error in [FormatMessage, MissingMessage, ExpiredMessage, InvalidMessage]
  {
    if header.None? then Unauthenticated(MissingMessage)
    else
      var token := TokenOf(header.value);
      if token.None? then Unauthenticated(FormatMessage)
      else if token.value == "" then Unauthenticated(MissingMessage)
      else
        match decode(token.value)
        case Expired => Unauthenticated(ExpiredMessage)
        case Invalid => Unauthenticated(InvalidMessage)
        case Payload(userId, role) =>
          if userId.None? || role.None? then ServerError
          else Authenticated(Caller(userId.value, role.value))
  }

  /** The answer a failed `token_required` gives. */
  function AuthFailure<T>(r: AuthOutcome): (resp: Response<T>)
    requires !r.Authenticated?
    ensures r.Unauthenticated? ==> resp == Response(401, Failure(r.error))
    ensures r.ServerError? ==> resp.code == 500
  {
    if r.Unauthenticated? then Response(401, Failure(r.error)) else Response(500, Failure(InternalError))
  }

  // ---------------------------------------------------------------------------
  // role_required
  // ---------------------------------------------------------------------------

  const PermissionMessage := "Insufficient permissions"

  /** `role_required(*allowed)`: the handler runs iff the caller's role is one of `allowed`. */
  function RoleRequired(allowed: seq<string>, role: Option<string>): (g: Gate)
    ensures g.Pass? <==> role.Some? && role.value in allowed
    ensures g.Deny? ==> g == Deny(403, PermissionMessage)
  {
    if role.Some? && role.value in allowed then Pass else Deny(403, PermissionMessage)
  }

  /** Allowing more roles never turns a caller away who was let through before. */
  lemma RoleRequiredMonotone(small: seq<string>, large: seq<string>, role: Option<string>)
    requires forall r :: r in small ==> r in large
    ensures RoleRequired(small, role).Pass? ==> RoleRequired(large, role).Pass?
  {
  }

  const Staff := ["admin", "librarian"]
  const AdminOnly := ["admin"]
}
