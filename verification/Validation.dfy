/** Structural validation of a desired state, as loops over nested collections and as one predicate. */
module Validation {
  import opened Base
  import opened Model
  import opened Text

  const SENSITIVE_NAMES: seq<string> :=
    ["token", "secret", "password", "passphrase", "private", "auth", "credential", "key", "jwt", "session", "cookie"]

  const SENSITIVE_DIRECTIVES: seq<string> :=
    ["authorization", "cookie", "proxy_set_header auth", "password", "token", "secret", "credential", "jwt", "session"]

  predicate MentionsAny(s: string, words: seq<string>)
  {
    exists i :: 0 <= i < |words| && Contains(AsciiLower(s), words[i])
  }

  predicate SensitiveName(s: string)
  {
    MentionsAny(s, SENSITIVE_NAMES)
  }

  predicate SensitiveDirective(s: string)
  {
    MentionsAny(s, SENSITIVE_DIRECTIVES)
  }

  /** The first place where `part` occurs, or -1. */
  function Find(s: string, part: string): (i: int)
    ensures -1 <= i <= |s|
  {
    if OccursAt(s, part, 0) then 0
    else if s == [] then -1
    else var i := Find(s[1..], part); if i < 0 then -1 else i + 1
  }

  /** What precedes the first `/`, `?` or `#`. */
  function Authority(s: string): string
  {
    if s == [] || s[0] in {'/', '?', '#'} then [] else [s[0]] + Authority(s[1..])
  }

  predicate HasCredentials(target: string)
  {
    var i := Find(target, "://");
    i >= 0 && i + 3 <= |target| && '@' in Authority(target[i + 3..])
  }

  // ----- the declarative specification -----

  type ListenKey = (U16, bool, bool, bool)

  function Key(l: Listen): ListenKey
  {
    (l.port, l.ssl, UnwrapOr(l.http2, false), UnwrapOr(l.defaultServer, false))
  }

  predicate ValidAction(a: RouteAction)
  {
    match a
    case ProxyPass(target) => !HasCredentials(target) && !SensitiveDirective(target)
    case Redirect(url, _) => !HasCredentials(url) && !SensitiveDirective(url)
    case Static(_, _) => true
  }

  predicate ValidHeader(h: Header)
  {
    !SensitiveName(h.name) && !SensitiveDirective(h.value)
  }

  predicate ValidRoute(r: Route)
  {
    && r.path != [] && r.path[0] == '/'
    && (r.headers.Some? ==> forall i :: 0 <= i < |r.headers.value| ==> ValidHeader(r.headers.value[i]))
    && ValidAction(r.action)
  }

  predicate DistinctListens(listens: seq<Listen>)
  {
    forall i, j :: 0 <= i < j < |listens| ==> Key(listens[i]) != Key(listens[j])
  }

  predicate DistinctPaths(routes: seq<Route>)
  {
    forall i, j :: 0 <= i < j < |routes| ==> routes[i].path != routes[j].path
  }

  predicate ValidRoutes(routes: seq<Route>)
  {
    (forall i :: 0 <= i < |routes| ==> ValidRoute(routes[i])) && DistinctPaths(routes)
  }

  predicate ValidServer(s: Server)
  {
    && Trim(RustSpace, s.id) != ""
    && DistinctListens(s.listen)
    && (s.extraDirectives.Some? ==>
          forall i :: 0 <= i < |s.extraDirectives.value| ==> !SensitiveDirective(s.extraDirectives.value[i]))
    && ValidRoutes(s.routes)
  }

  predicate ValidState(st: ControlPlaneState)
  {
    forall i :: 0 <= i < |st.servers| ==> ValidServer(st.servers[i])
  }

  // ----- the loops -----

  method CheckListens(listens: seq<Listen>) returns (ok: bool)
    ensures ok <==> DistinctListens(listens)
  {
    var seen: set<ListenKey> := {};
    for n := 0 to |listens|
      invariant forall k :: k in seen <==> exists i :: 0 <= i < n && Key(listens[i]) == k
      invariant DistinctListens(listens[..n])
    {
      var key := Key(listens[n]);
      if key in seen {
        return false;
      }
      seen := seen + {key};
    }
    return true;
  }

  method CheckExtraDirectives(extra: seq<string>) returns (ok: bool)
    ensures ok <==> forall i :: 0 <= i < |extra| ==> !SensitiveDirective(extra[i])
  {
    for n := 0 to |extra|
      invariant forall i :: 0 <= i < n ==> !SensitiveDirective(extra[i])
    {
      if SensitiveDirective(extra[n]) {
        return false;
      }
    }
    return true;
  }

  method CheckHeaders(headers: seq<Header>) returns (ok: bool)
    ensures ok <==> forall i :: 0 <= i < |headers| ==> ValidHeader(headers[i])
  {
    for n := 0 to |headers|
      invariant forall i :: 0 <= i < n ==> ValidHeader(headers[i])
    {
      if SensitiveName(headers[n].name) || SensitiveDirective(headers[n].value) {
        return false;
      }
    }
    return true;
  }

  method CheckRoutes(routes: seq<Route>) returns (ok: bool)
    ensures ok <==> ValidRoutes(routes)
  {
    hide ValidHeader, SensitiveDirective, HasCredentials, ValidAction;
    var seen: set<string> := {};
    for n := 0 to |routes|
      invariant forall p :: p in seen <==> exists i :: 0 <= i < n && routes[i].path == p
      invariant ValidRoutes(routes[..n])
    {
      var route := routes[n];
      if route.path == [] || route.path[0] != '/' {
        return false;
      }
      if route.path in seen {
        return false;
      }
      seen := seen + {route.path};
      if route.headers.Some? {
        var fine := CheckHeaders(route.headers.value);
        if !fine {
          return false;
        }
      }
      if !ValidAction(route.action) {
        return false;
      }
    }
    assert routes[..|routes|] == routes;
    return true;
  }

  method CheckServer(server: Server) returns (r: Result<Unit>)
    ensures r.Ok? <==> ValidServer(server)
    ensures r.Err? ==> r.error.InvalidInput?
  {
    hide SensitiveDirective, DistinctListens, ValidRoutes, Trim;
    if Trim(RustSpace, server.id) == "" {
      return Err(InvalidInput("server.id must be non-empty"));
    }
    var ok := CheckListens(server.listen);
    if !ok {
      return Err(InvalidInput("duplicate listen tuple in server " + server.id));
    }
    if server.extraDirectives.Some? {
      ok := CheckExtraDirectives(server.extraDirectives.value);
      if !ok {
        return Err(InvalidInput("sensitive directives must not be stored in state.json for server " + server.id));
      }
    }
    ok := CheckRoutes(server.routes);
    if !ok {
      return Err(InvalidInput("invalid route in server " + server.id));
    }
    return Ok(Unit);
  }

  /** `validate_state` accepts exactly the states that meet the specification. */
  method ValidateState(st: ControlPlaneState) returns (r: Result<Unit>)
    ensures r.Ok? <==> ValidState(st)
    ensures r.Err? ==> r.error.InvalidInput?
  {
    hide ValidServer;
    for n := 0 to |st.servers|
      invariant forall i :: 0 <= i < n ==> ValidServer(st.servers[i])
    {
      r := CheckServer(st.servers[n]);
      if r.Err? {
        return;
      }
    }
    return Ok(Unit);
  }

  // ----- what the specification says -----

  /** `word` stands somewhere in `s`, in any case. */
  ghost predicate Mentions(s: string, word: string)
  {
    exists a, b :: AsciiLower(s) == a + word + b
  }

  lemma MentionsAnyIff(s: string, words: seq<string>)
    ensures MentionsAny(s, words) <==> exists w :: w in words && Mentions(s, w)
  {
    hide AsciiLower;
    forall w ensures Contains(AsciiLower(s), w) <==> Mentions(s, w) { ContainsIff(AsciiLower(s), w); }
    if i :| 0 <= i < |words| && Contains(AsciiLower(s), words[i]) {
      assert words[i] in words && Mentions(s, words[i]);
    }
  }

  /** The words that make a header name, or a directive, sensitive. */
  lemma SensitiveIff(s: string)
    ensures SensitiveName(s) <==>
              exists w :: w in ["token", "secret", "password", "passphrase", "private", "auth", "credential", "key",
                  "jwt",
                                "session", "cookie"] && Mentions(s, w)
    ensures SensitiveDirective(s) <==>
              exists w :: w in ["authorization", "cookie", "proxy_set_header auth", "password", "token", "secret",
                                "credential", "jwt", "session"] && Mentions(s, w)
  {
    hide MentionsAny, Mentions;
    MentionsAnyIff(s, SENSITIVE_NAMES);
    MentionsAnyIff(s, SENSITIVE_DIRECTIVES);
  }

  lemma OccursShift(s: string, part: string, i: int)
    requires s != [] && i > 0
    ensures OccursAt(s, part, i) <==> OccursAt(s[1..], part, i - 1)
  {
    if i <= |s| - |part| {
      var a, b := s[i..i + |part|], s[1..][i - 1..i - 1 + |part|];
      forall k | 0 <= k < |part| ensures a[k] == b[k] { assert a[k] == s[i + k] == s[1..][i - 1 + k]; }
      assert a == b;
    }
  }

  lemma {:induction false} FindExact(s: string, part: string)
    ensures Find(s, part) >= 0 ==>
              OccursAt(s, part, Find(s, part)) && forall i :: 0 <= i < Find(s, part) ==> !OccursAt(s, part, i)
    ensures Find(s, part) < 0 ==> forall i :: i >= 0 ==> !OccursAt(s, part, i)
  {
    hide OccursAt;
    if !OccursAt(s, part, 0) {
      if s == [] {
        forall i | i >= 0 ensures !OccursAt(s, part, i) { OccursInNothing(part, i); }
      } else {
        FindExact(s[1..], part);
        forall i | i > 0 ensures OccursAt(s, part, i) <==> OccursAt(s[1..], part, i - 1) { OccursShift(s, part, i); }
      }
    }
  }

  lemma OccursInNothing(part: string, i: int)
    ensures OccursAt([], part, i) ==> i == 0
  {
  }

  predicate EndsAuthority(c: char)
  {
    c == '/' || c == '?' || c == '#'
  }

  lemma {:induction false} AuthorityHas(s: string)
    ensures '@' in Authority(s) <==>
            exists k :: 0 <= k < |s| && s[k] == '@' && forall j :: 0 <= j < k ==> !EndsAuthority(s[j])
  {
    if s != [] && !EndsAuthority(s[0]) {
      var rest := s[1..];
      AuthorityHas(rest);
      if k :| 0 <= k < |rest| && rest[k] == '@' && forall j :: 0 <= j < k ==> !EndsAuthority(rest[j]) {
        assert s[k + 1] == '@' && forall j :: 1 <= j < k + 1 ==> s[j] == rest[j - 1];
      }
      if k :| 0 <= k < |s| && s[k] == '@' && forall j :: 0 <= j < k ==> !EndsAuthority(s[j]) {
        if k > 0 {
          assert rest[k - 1] == '@' && forall j :: 0 <= j < k - 1 ==> rest[j] == s[j + 1];
        }
      }
    }
  }

  /** A target has credentials exactly if an at sign follows its first `://` before any slash, question mark or hash. */
  lemma HasCredentialsIff(target: string)
    ensures HasCredentials(target) <==>
              exists i, k :: OccursAt(target, "://", i) && i + 3 <= k < |target| && target[k] == '@'
                             && (forall h :: 0 <= h < i ==> !OccursAt(target, "://", h))
                             && (forall j :: i + 3 <= j < k ==> !EndsAuthority(target[j]))
  {
    FindExact(target, "://");
    var i := Find(target, "://");
    hide Find, Authority;
    if i >= 0 {
      var rest := target[i + 3..];
      AuthorityHas(rest);
      if k :| 0 <= k < |rest| && rest[k] == '@' && forall j :: 0 <= j < k ==> !EndsAuthority(rest[j]) {
        assert target[k + i + 3] == '@';
        forall j | i + 3 <= j < k + i + 3 ensures !EndsAuthority(target[j]) { assert target[j] == rest[j - i - 3]; }
      }
      if k :| i + 3 <= k < |target| && target[k] == '@' && forall j :: i + 3 <= j < k ==> !EndsAuthority(target[j]) {
        assert rest[k - i - 3] == '@';
        forall j | 0 <= j < k - i - 3 ensures !EndsAuthority(rest[j]) { assert rest[j] == target[j + i + 3]; }
      }
    }
  }

  predicate Clean(target: string)
  {
    !HasCredentials(target) && !SensitiveDirective(target)
  }

  /** The listen entries of a server that mean the same: an absent flag is the same as false. */
  predicate SameListen(a: Listen, b: Listen)
  {
    && a.port == b.port && a.ssl == b.ssl
    && (a.http2 == Some(true) <==> b.http2 == Some(true))
    && (a.defaultServer == Some(true) <==> b.defaultServer == Some(true))
  }

  lemma KeyExact(a: Listen, b: Listen)
    ensures Key(a) == Key(b) <==> SameListen(a, b)
  {
    SetFlag(a.http2);
    SetFlag(b.http2);
    SetFlag(a.defaultServer);
    SetFlag(b.defaultServer);
  }

  lemma SetFlag(o: Option<bool>)
    ensures UnwrapOr(o, false) <==> o == Some(true)
  {
  }

  /** All that makes a state valid, at once. */
  lemma ValidStateIff(st: ControlPlaneState)
    ensures ValidState(st) <==>
              forall s :: s in st.servers ==>
                && !AllSpace(RustSpace, s.id)
                && (forall i, j :: 0 <= i < j < |s.listen| ==> !SameListen(s.listen[i], s.listen[j]))
                && (forall i, j :: 0 <= i < j < |s.routes| ==> s.routes[i].path != s.routes[j].path)
                && (s.extraDirectives.Some? ==> forall d :: d in s.extraDirectives.value ==> !SensitiveDirective(d))
                && (forall r :: r in s.routes ==>
                      && "/" <= r.path
                      && (r.headers.Some? ==>
                            forall h :: h in r.headers.value ==> !SensitiveName(h.name) && !SensitiveDirective(h.value))
                      && (r.action.ProxyPass? ==> Clean(r.action.target))
                      && (r.action.Redirect? ==> Clean(r.action.url)))
  {
    hide SensitiveDirective, SensitiveName, HasCredentials, Trim, AllSpace;
    forall s: Server ensures Trim(RustSpace, s.id) == "" <==> AllSpace(RustSpace, s.id) { BlankIff(RustSpace, s.id); }
    forall a: Listen, b: Listen ensures Key(a) == Key(b) <==> SameListen(a, b) { KeyExact(a, b); }
  }
}
