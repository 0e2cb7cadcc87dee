/** ScimScopes and ScimAuthorizationService: the scope names, the split of
    a token's space-separated scope claim, and the two permission checks
    as pure decisions over the caller's authentication. The security
    context is the parameter `auth`: None when no authentication is set,
    otherwise whether it is authenticated and the authorities it grants. */
module Authorization {
  import opened Wrappers

  const SCIM_USERS_READ: string := "scim:users:read"
  const SCIM_USERS_WRITE: string := "scim:users:write"
  const SCIM_USERS_DELETE: string := "scim:users:delete"
  const SCIM_GROUPS_READ: string := "scim:groups:read"
  const SCIM_GROUPS_WRITE: string := "scim:groups:write"
  const SCIM_GROUPS_DELETE: string := "scim:groups:delete"
  const SCIM_ADMIN: string := "scim:admin"

  /** Every scope the service defines, in declaration order. */
  const ALL_SCOPES: seq<string> :=
    [SCIM_USERS_READ, SCIM_USERS_WRITE, SCIM_USERS_DELETE,
     SCIM_GROUPS_READ, SCIM_GROUPS_WRITE, SCIM_GROUPS_DELETE, SCIM_ADMIN]

  const AUTHENTICATION_REQUIRED: string := "Authentication required."
  const MISSING_SCOPE_PREFIX: string := "Access denied. Missing required scope: "
  const MISSING_ANY_SCOPE_PREFIX: string := "Access denied. Missing one of the required scopes: "

  datatype Principal = Principal(authenticated: bool, scopes: set<string>)

  /** A ScimAuthorizationException and its message. */
  datatype Denial = Denial(message: string)

  // -----------------------------------------------------------------------
  // The scope claim

  /** Scopes joined with single spaces. */
  function Join(xs: seq<string>): (s: string)
    ensures |xs| == 0 ==> s == ""
    ensures |xs| == 1 ==> s == xs[0]
    decreases |xs|
  {
    if |xs| == 0 then "" else if |xs| == 1 then xs[0] else xs[0] + " " + Join(xs[1..])
  }

  /** Every piece between single spaces, empty pieces included: the
      string cut at each space. */
  function SplitAll(s: string): (parts: seq<string>)
    ensures |parts| >= 1
    ensures forall k :: 0 <= k < |parts| ==> ' ' !in parts[k]
    decreases |s|
  {
    if |s| == 0 then [""]
    else if s[0] == ' ' then [""] + SplitAll(s[1..])
    else
      var rest := SplitAll(s[1..]);
      assert ' ' !in [s[0]] + rest[0] by {
        assert ' ' !in rest[0];
      }
      [[s[0]] + rest[0]] + rest[1..]
  }

  /** Joining the pieces with single spaces gives the string back. */
  lemma {:induction false} SplitAllJoins(s: string)
    ensures Join(SplitAll(s)) == s
    decreases |s|
  {
    if |s| > 0 {
      var rest := SplitAll(s[1..]);
      SplitAllJoins(s[1..]);
      assert s == [s[0]] + s[1..];
      if s[0] == ' ' {
        assert SplitAll(s) == [""] + rest;
        assert ([""] + rest)[1..] == rest;
        if |rest| == 1 {
          assert Join(rest) == rest[0];
        }
      } else {
        JoinHead([s[0]], rest);
      }
    }
  }

  /** Prefixing the first piece prefixes the joined string. */
  lemma {:induction false} JoinHead(a: string, xs: seq<string>)
    requires |xs| >= 1
    ensures Join([a + xs[0]] + xs[1..]) == a + Join(xs)
  {
    var ys := [a + xs[0]] + xs[1..];
    if |xs| == 1 {
      assert ys == [a + xs[0]];
    } else {
      assert ys[1..] == xs[1..];
      assert Join(ys) == ys[0] + " " + Join(ys[1..]);
    }
  }

  /** `String.split` with limit zero discards the empty pieces at the end. */
  function DropTrailingEmpties(xs: seq<string>): (ys: seq<string>)
    ensures |ys| <= |xs| && ys == xs[..|ys|]
    ensures |ys| > 0 ==> ys[|ys| - 1] != ""
    ensures forall k :: |ys| <= k < |xs| ==> xs[k] == ""
    decreases |xs|
  {
    if |xs| == 0 then []
    else if xs[|xs| - 1] == "" then DropTrailingEmpties(xs[..|xs| - 1])
    else xs
  }

  /** `extractScopes(jwt)` on the scope claim: no scopes for a null or
      empty claim, otherwise `claim.split(" ")`. */
  function ExtractScopes(claim: Option<string>): (scopes: seq<string>)
    ensures claim.None? || claim == Some("") ==> scopes == []
    ensures forall k :: 0 <= k < |scopes| ==> ' ' !in scopes[k]
    ensures |scopes| > 0 ==> scopes[|scopes| - 1] != ""
    ensures claim.Some? && claim.value != "" ==>
              && |scopes| <= |SplitAll(claim.value)| && scopes == SplitAll(claim.value)[..|scopes|]
              && forall k :: |scopes| <= k < |SplitAll(claim.value)| ==> SplitAll(claim.value)[k] == ""
  {
    if claim.None? || claim.value == "" then []
    else DropTrailingEmpties(SplitAll(claim.value))
  }

  /** Cutting a space-free piece off the front of a joined string. */
  lemma {:induction false} SplitJoin(xs: seq<string>)
    requires |xs| >= 1 && forall k :: 0 <= k < |xs| ==> ' ' !in xs[k]
    ensures SplitAll(Join(xs)) == xs
    decreases |xs|
  {
    if |xs| == 1 {
      SplitWord(xs[0], "");
      assert xs[0] + "" == xs[0];
    } else {
      var t := " " + Join(xs[1..]);
      assert Join(xs) == xs[0] + t;
      SplitJoin(xs[1..]);
      assert SplitAll(t) == [""] + xs[1..] by {
        assert t[1..] == Join(xs[1..]);
      }
      SplitWord(xs[0], t);
      assert xs[0] + "" == xs[0];
    }
  }

  /** A space-free word in front of `t` joins the first piece of `t`. */
  lemma {:induction false} SplitWord(w: string, t: string)
    requires ' ' !in w
    ensures var p := SplitAll(t);
            SplitAll(w + t) == [w + p[0]] + p[1..]
    decreases |w|
  {
    var p := SplitAll(t);
    if |w| > 0 {
      var rest := SplitAll(w[1..] + t);
      SplitWord(w[1..], t);
      assert SplitAll(w + t) == [[w[0]] + rest[0]] + rest[1..] by {
        assert (w + t)[0] == w[0] && w[0] != ' ';
        assert (w + t)[1..] == w[1..] + t;
      }
      assert [w[0]] + rest[0] == w + p[0] by {
        assert rest[0] == w[1..] + p[0];
        assert w == [w[0]] + w[1..];
      }
      assert rest[1..] == p[1..];
    } else {
      assert w + t == t;
      assert "" + p[0] == p[0];
      assert [p[0]] + p[1..] == p;
    }
  }

  /** Scopes that are non-empty and free of spaces survive a join and an
      extraction unchanged; in particular the scopes the service defines. */
  lemma {:induction false} ScopesRoundTrip(xs: seq<string>)
    requires |xs| >= 1 && forall k :: 0 <= k < |xs| ==> xs[k] != "" && ' ' !in xs[k]
    ensures ExtractScopes(Some(Join(xs))) == xs
  {
    SplitJoin(xs);
    if |xs| > 1 {
      assert ' ' in Join(xs) by {
        assert Join(xs) == xs[0] + " " + Join(xs[1..]);
        assert Join(xs)[|xs[0]|] == ' ';
      }
    }
  }

  lemma DefinedScopesRoundTrip()
    ensures ExtractScopes(Some(Join(ALL_SCOPES))) == ALL_SCOPES
  {
    ScopesRoundTrip(ALL_SCOPES);
  }

  // -----------------------------------------------------------------------
  // The checks

  /** `authentication == null || !authentication.isAuthenticated()`. */
  predicate Unauthenticated(auth: Option<Principal>) {
    auth.None? || !auth.value.authenticated
  }

  /** `checkPermission(requiredScope)`. */
  function CheckPermission(auth: Option<Principal>, required: string): (r: Outcome<Denial>)
    ensures r.Pass? <==> !Unauthenticated(auth) && (required in auth.value.scopes || SCIM_ADMIN in auth.value.scopes)
    ensures Unauthenticated(auth) ==> r == Fail(Denial(AUTHENTICATION_REQUIRED))
    ensures !Unauthenticated(auth) && r.Fail? ==> r == Fail(Denial(MISSING_SCOPE_PREFIX + required))
  {
    if Unauthenticated(auth) then Fail(Denial(AUTHENTICATION_REQUIRED))
    else if required !in auth.value.scopes && SCIM_ADMIN !in auth.value.scopes then
      Fail(Denial(MISSING_SCOPE_PREFIX + required))
    else Pass
  }

  /** The loop over `requiredScopes`: some one of them is granted. */
  function AnyGranted(granted: set<string>, required: seq<string>): (b: bool)
    ensures b <==> exists k :: 0 <= k < |required| && required[k] in granted
    decreases |required|
  {
    if |required| == 0 then false
    else if required[0] in granted then true
    else
      var rest := AnyGranted(granted, required[1..]);
      assert forall k :: 1 <= k < |required| ==> required[1..][k - 1] == required[k];
      rest
  }

  /** `Arrays.toString(array)` of a non-null array of non-null strings. */
  function ArrayText(xs: seq<string>): (s: string)
    ensures |s| >= 2 && s[0] == '[' && s[|s| - 1] == ']'
  {
    "[" + Items(xs) + "]"
  }

  function Items(xs: seq<string>): string
    decreases |xs|
  {
    if |xs| == 0 then "" else if |xs| == 1 then xs[0] else xs[0] + ", " + Items(xs[1..])
  }

  /** `checkAnyPermission(requiredScopes...)`. */
  function CheckAnyPermission(auth: Option<Principal>, required: seq<string>): (r: Outcome<Denial>)
    ensures r.Pass? <==>
              && !Unauthenticated(auth)
              && (SCIM_ADMIN in auth.value.scopes || exists k :: 0 <= k < |required| && required[k] in auth.value.scopes)
    ensures Unauthenticated(auth) ==> r == Fail(Denial(AUTHENTICATION_REQUIRED))
    ensures !Unauthenticated(auth) && r.Fail? ==> r == Fail(Denial(MISSING_ANY_SCOPE_PREFIX + ArrayText(required)))
  {
    if Unauthenticated(auth) then Fail(Denial(AUTHENTICATION_REQUIRED))
    else if SCIM_ADMIN in auth.value.scopes then Pass
    else if AnyGranted(auth.value.scopes, required) then Pass
    else Fail(Denial(MISSING_ANY_SCOPE_PREFIX + ArrayText(required)))
  }

  /** An authenticated admin passes every check; an unauthenticated
      caller passes none, whatever it holds. */
  lemma AdminAndAnonymous(p: Principal, required: string, anyOf: seq<string>)
    ensures p.authenticated && SCIM_ADMIN in p.scopes ==>
              CheckPermission(Some(p), required).Pass? && CheckAnyPermission(Some(p), anyOf).Pass?
    ensures !p.authenticated ==>
              CheckPermission(Some(p), required) == CheckAnyPermission(Some(p), anyOf) == Fail(Denial(AUTHENTICATION_REQUIRED))
  {
  }

  /** With no scopes to choose from, only an admin passes. */
  lemma NoScopesOnlyAdmin(auth: Option<Principal>)
    ensures CheckAnyPermission(auth, []).Pass? <==> !Unauthenticated(auth) && SCIM_ADMIN in auth.value.scopes
  {
  }

  /** One scope asked for either way gives the same decision; only the
      messages differ. */
  lemma SingleScopeAgrees(auth: Option<Principal>, required: string)
    ensures CheckAnyPermission(auth, [required]).Pass? == CheckPermission(auth, required).Pass?
    ensures CheckAnyPermission(auth, [required]).Fail? ==>
              CheckAnyPermission(auth, [required]).error.message == MISSING_ANY_SCOPE_PREFIX + "[" + required + "]"
              || CheckAnyPermission(auth, [required]).error.message == AUTHENTICATION_REQUIRED
  {
    assert AnyGranted(if auth.Some? then auth.value.scopes else {}, [required]) <==> required in (if auth.Some? then auth.value.scopes else {});
  }

  /** Granting more scopes never turns a pass into a failure. */
  lemma ChecksAreMonotone(p: Principal, q: Principal, required: string, anyOf: seq<string>)
    requires p.authenticated == q.authenticated && p.scopes <= q.scopes
    ensures CheckPermission(Some(p), required).Pass? ==> CheckPermission(Some(q), required).Pass?
    ensures CheckAnyPermission(Some(p), anyOf).Pass? ==> CheckAnyPermission(Some(q), anyOf).Pass?
  {
  }
}
