/** A parser that inverts the printer: the rendered tree determines the projection of the state. */
module RendererParser {
  import opened Base
  import opened ConfigHash
  import opened Model
  import opened Renderer
  import opened Text

  // ----- lines -----

  function LineEnd(text: string): (i: nat)
    ensures i <= |text|
  {
    if text == "" || text[0] == '\n' then 0 else 1 + LineEnd(text[1..])
  }

  function SplitLines(text: string): seq<string>
  {
    if text == "" then []
    else
      var i := LineEnd(text);
      [text[..i]] + (if i < |text| then SplitLines(text[i + 1..]) else [])
  }

  predicate OneLine(s: string)
  {
    forall i :: 0 <= i < |s| ==> s[i] != '\n'
  }

  predicate AllOneLine(lines: seq<string>)
  {
    forall i :: 0 <= i < |lines| ==> OneLine(lines[i])
  }

  lemma {:induction false} LineEndAt(line: string, rest: string)
    requires OneLine(line)
    ensures LineEnd(line + "\n" + rest) == |line|
  {
    if line != "" {
      assert (line + "\n" + rest)[1..] == line[1..] + "\n" + rest;
      LineEndAt(line[1..], rest);
    }
  }

  lemma UnlinesCons(first: string, rest: seq<string>)
    ensures Unlines([first] + rest) == first + "\n" + Unlines(rest)
  {
    UnlinesAppend([first], rest);
    Push([], first);
    assert [] + [first] == [first];
  }

  lemma SplitFirst(first: string, text: string)
    requires OneLine(first)
    ensures SplitLines(first + "\n" + text) == [first] + SplitLines(text)
  {
    var whole := first + "\n" + text;
    LineEndAt(first, text);
    assert whole[..|first|] == first && whole[|first| + 1..] == text;
  }

  lemma {:induction false} SplitUnlines(lines: seq<string>)
    requires AllOneLine(lines)
    ensures SplitLines(Unlines(lines)) == lines
  {
    if lines != [] {
      hide SplitLines, Unlines;
      SplitUnlines(lines[1..]);
      assert lines == [lines[0]] + lines[1..];
      UnlinesCons(lines[0], lines[1..]);
      SplitFirst(lines[0], Unlines(lines[1..]));
    }
  }

  // ----- pieces of a line -----

  function Between(pre: string, s: string, post: string): Option<string>
  {
    if |pre| + |post| <= |s| && pre <= s && s[|s| - |post|..] == post then Some(s[|pre|..|s| - |post|]) else None
  }

  lemma BetweenWrapped(pre: string, body: string, post: string)
    ensures Between(pre, pre + body + post, post) == Some(body)
  {
    var s := pre + body + post;
    assert s == pre + (body + post);
    assert s[|s| - |post|..] == post && s[|pre|..|s| - |post|] == body;
  }

  function DigitCount(s: string): (n: nat)
    ensures n <= |s| && Digits(s[..n])
  {
    if s != "" && '0' <= s[0] <= '9' then 1 + DigitCount(s[1..]) else 0
  }

  lemma {:induction false} DigitCountAt(digits: string, rest: string)
    requires Digits(digits) && (rest == "" || !('0' <= rest[0] <= '9'))
    ensures DigitCount(digits + rest) == |digits|
  {
    if digits != "" {
      assert (digits + rest)[1..] == digits[1..] + rest;
      DigitCountAt(digits[1..], rest);
    } else {
      assert digits + rest == rest;
    }
  }

  /** A 16-bit decimal number and what follows it. */
  function ParseU16(s: string): Option<(U16, string)>
  {
    var n := DigitCount(s);
    if n == 0 || DigitsValue(s[..n]) > MAX_U16 then None else Some((DigitsValue(s[..n]), s[n..]))
  }

  lemma ParseU16Decimal(n: U16, rest: string)
    requires rest == "" || !('0' <= rest[0] <= '9')
    ensures ParseU16(Decimal(n) + rest) == Some((n, rest))
  {
    var d := Decimal(n);
    DigitCountAt(d, rest);
    DecimalRoundTrip(n);
    assert (d + rest)[..|d|] == d && (d + rest)[|d|..] == rest;
  }

  function Strip(word: string, s: string): (bool, string)
  {
    if word <= s then (true, s[|word|..]) else (false, s)
  }

  lemma StripFlag(present: bool, word: string, rest: string)
    requires word != "" && (|rest| < 2 || rest[1] != word[0])
    ensures Strip(" " + word, Flag(present, word) + rest) == (present, rest)
  {
    if present {
      assert (" " + word + rest)[|word| + 1..] == rest;
    } else {
      assert "" + rest == rest;
      assert (" " + word)[1] == word[0];
    }
  }

  // ----- listens -----

  function ParseFlags(s: string): Option<(bool, bool, bool)>
  {
    var (ssl, r1) := Strip(" " + "ssl", s);
    var (http2, r2) := Strip(" " + "http2", r1);
    var (defaultServer, r3) := Strip(" " + "default_server", r2);
    if r3 == "" then Some((ssl, http2, defaultServer)) else None
  }

  lemma ParseFlagsText(ssl: bool, http2: bool, defaultServer: bool)
    ensures ParseFlags(Flag(ssl, "ssl") + (Flag(http2, "http2") + Flag(defaultServer, "default_server")))
            == Some((ssl, http2, defaultServer))
  {
    var f2, f3 := Flag(http2, "http2"), Flag(defaultServer, "default_server");
    StripFlag(ssl, "ssl", f2 + f3);
    StripFlag(http2, "http2", f3);
    StripFlag(defaultServer, "default_server", "");
    assert f3 + "" == f3;
  }

  function ParseListen(line: string): Option<ListenView>
  {
    var body := Between("  listen ", line, ";");
    if body.None? then None else
      var port := ParseU16(body.value);
      if port.None? then None else
        var flags := ParseFlags(port.value.1);
        if flags.None? then None
        else Some(ListenView(port.value.0, flags.value.0, flags.value.1, flags.value.2))
  }

  lemma ParseListenLine(l: ListenView)
    ensures ParseListen(ListenLine(l)) == Some(l)
  {
    var flags := Flag(l.ssl, "ssl") + (Flag(l.http2, "http2") + Flag(l.defaultServer, "default_server"));
    assert ListenBody(l) == Decimal(l.port) + flags;
    ParseFlagsText(l.ssl, l.http2, l.defaultServer);
    FlagsStart(l);
    hide ParseFlags, ParseU16, Between, Flag, ListenBody, Decimal;
    BetweenWrapped("  listen ", ListenBody(l), ";");
    ParseU16Decimal(l.port, flags);
  }

  lemma FlagsStart(l: ListenView)
    ensures var flags := Flag(l.ssl, "ssl") + (Flag(l.http2, "http2") + Flag(l.defaultServer, "default_server"));
            flags == "" || !('0' <= flags[0] <= '9')
  {
  }

  function ParseListens(lines: seq<string>): (seq<ListenView>, seq<string>)
  {
    if lines == [] || ParseListen(lines[0]).None? then ([], lines)
    else var (ls, rest) := ParseListens(lines[1..]); ([ParseListen(lines[0]).value] + ls, rest)
  }

  lemma {:induction false} ParseListenLines(ls: seq<ListenView>, rest: seq<string>)
    requires rest == [] || ParseListen(rest[0]).None?
    ensures ParseListens(ListenLines(ls) + rest) == (ls, rest)
  {
    hide ParseListen, ListenLine;
    var lines := ListenLines(ls) + rest;
    if ls == [] {
      assert lines == rest;
    } else {
      ParseListenLine(ls[0]);
      assert lines[0] == ListenLine(ls[0]);
      assert lines[1..] == ListenLines(ls[1..]) + rest;
      ParseListenLines(ls[1..], rest);
      assert [ls[0]] + ls[1..] == ls;
    }
  }

  // ----- TLS -----

  function ParseTls(lines: seq<string>): (Option<Tls>, seq<string>)
  {
    if |lines| < 2 then (None, lines) else
      var cert := Between("  ssl_certificate ", lines[0], ";");
      var key := Between("  ssl_certificate_key ", lines[1], ";");
      if cert.None? || key.None? then (None, lines) else (Some(Tls(cert.value, key.value)), lines[2..])
  }

  lemma ParseTlsLines(tls: Option<Tls>, rest: seq<string>)
    requires rest == [] || Between("  ssl_certificate ", rest[0], ";").None?
    ensures ParseTls(TlsLines(tls) + rest) == (tls, rest)
  {
    if tls.None? {
      assert TlsLines(tls) + rest == rest;
    } else {
      BetweenWrapped("  ssl_certificate ", tls.value.certificate, ";");
      BetweenWrapped("  ssl_certificate_key ", tls.value.certificateKey, ";");
      assert (TlsLines(tls) + rest)[2..] == rest;
    }
  }

  // ----- routes -----

  function ParseRedirect(body: string): Option<RouteAction>
  {
    var code := ParseU16(body);
    if code.None? || !(" " <= code.value.1) then None else Some(Redirect(code.value.1[1..], code.value.0))
  }

  /** An action and the lines after it. */
  function ParseAction(lines: seq<string>): (r: Option<(RouteAction, seq<string>)>)
    ensures r.Some? ==> |r.value.1| < |lines|
  {
    if lines == [] then None else
      var proxy := Between("    proxy_pass ", lines[0], ";");
      var root := Between("    root ", lines[0], ";");
      var redirect := Between("    return ", lines[0], ";");
      if proxy.Some? then Some((ProxyPass(proxy.value), lines[1..]))
      else if root.Some? then
        var index := if |lines| > 1 then Between("    index ", lines[1], ";") else None;
        if index.Some? then Some((Static(root.value, index), lines[2..]))
        else Some((Static(root.value, None), lines[1..]))
      else if redirect.Some? && ParseRedirect(redirect.value).Some? then
        Some((ParseRedirect(redirect.value).value, lines[1..]))
      else None
  }

  lemma ParseRedirectBody(url: string, code: U16)
    ensures ParseRedirect(Decimal(code) + " " + url) == Some(Redirect(url, code))
  {
    assert Decimal(code) + " " + url == Decimal(code) + (" " + url);
    ParseU16Decimal(code, " " + url);
    assert (" " + url)[1..] == url;
  }

  lemma ParseActionLines(a: RouteAction, rest: seq<string>)
    requires rest != [] && rest[0] == "  }"
    ensures ParseAction(ActionLines(a) + rest) == Some((a, rest))
  {
    hide ParseRedirect;
    var lines := ActionLines(a) + rest;
    match a
    case ProxyPass(target) =>
      BetweenWrapped("    proxy_pass ", target, ";");
      assert lines[1..] == rest;
    case Static(root, index) =>
      BetweenWrapped("    root ", root, ";");
      assert lines[0][4] == 'r' && "    proxy_pass "[4] == 'p';
      if index.None? {
        assert lines[1..] == rest;
        assert lines[1][2] == '}' && "    index "[2] == ' ';
      } else {
        BetweenWrapped("    index ", index.value, ";");
        assert lines[2..] == rest;
      }
    case Redirect(url, code) =>
      BetweenWrapped("    return ", Decimal(code) + " " + url, ";");
      ParseRedirectBody(url, code);
      assert lines[0][4] == 'r' && "    proxy_pass "[4] == 'p';
      assert lines[0][5] == 'e' && "    root "[5] == 'o';
      assert lines[1..] == rest;
  }

  function ParseRoute(lines: seq<string>): (r: Option<(RouteView, seq<string>)>)
    ensures r.Some? ==> |r.value.1| < |lines|
  {
    if lines == [] then None else
      var path := Between("  location ", lines[0], " {");
      if path.None? then None else
        var action := ParseAction(lines[1..]);
        if action.None? || action.value.1 == [] || action.value.1[0] != "  }" then None
        else Some((RouteView(path.value, action.value.0), action.value.1[1..]))
  }

  lemma ParseRouteLines(r: RouteView, rest: seq<string>)
    ensures ParseRoute(RouteLines(r) + rest) == Some((r, rest))
  {
    hide ParseAction, ActionLines;
    var lines := RouteLines(r) + rest;
    BetweenWrapped("  location ", r.path, " {");
    assert lines[0] == "  location " + r.path + " {";
    assert lines[1..] == ActionLines(r.action) + (["  }"] + rest);
    ParseActionLines(r.action, ["  }"] + rest);
    assert (["  }"] + rest)[1..] == rest;
  }

  function ParseRoutes(lines: seq<string>): (seq<RouteView>, seq<string>)
    decreases |lines|
  {
    var r := ParseRoute(lines);
    if r.None? then ([], lines)
    else var (rs, rest) := ParseRoutes(r.value.1); ([r.value.0] + rs, rest)
  }

  lemma {:induction false} RoutesLinesCons(rs: seq<RouteView>)
    requires rs != []
    ensures RoutesLines(rs) == RouteLines(rs[0]) + RoutesLines(rs[1..])
  {
    hide RouteLines;
    var init := rs[..|rs| - 1];
    if init == [] {
      assert RoutesLines(init) == [] && RoutesLines(rs[1..]) == [];
    } else {
      RoutesLinesCons(init);
      var tail := rs[1..];
      assert tail[..|tail| - 1] == init[1..] && tail[|tail| - 1] == rs[|rs| - 1];
      assert RoutesLines(tail) == RoutesLines(init[1..]) + RouteLines(rs[|rs| - 1]);
    }
  }

  lemma {:induction false} ParseRoutesLines(rs: seq<RouteView>, rest: seq<string>)
    requires ParseRoute(rest).None?
    ensures ParseRoutes(RoutesLines(rs) + rest) == (rs, rest)
    decreases |rs|
  {
    hide ParseRoute, RouteLines;
    var lines := RoutesLines(rs) + rest;
    if rs == [] {
      assert lines == rest;
    } else {
      RoutesLinesCons(rs);
      assert lines == RouteLines(rs[0]) + (RoutesLines(rs[1..]) + rest);
      ParseRouteLines(rs[0], RoutesLines(rs[1..]) + rest);
      ParseRoutesLines(rs[1..], rest);
      assert [rs[0]] + rs[1..] == rs;
    }
  }

  // ----- files -----

  function ParseServer(file: string, text: string): Option<ServerView>
  {
    var lines := SplitLines(text);
    if |lines| < 2 || lines[0] != "server {" then None else
      var name := Between("  server_name ", lines[1], ";");
      if name.None? then None else
        var (listens, afterListens) := ParseListens(lines[2..]);
        var (tls, afterTls) := ParseTls(afterListens);
        var (routes, rest) := ParseRoutes(afterTls);
        if rest == ["}"] then Some(ServerView(file, name.value, listens, tls, routes, [])) else None
  }

  predicate CleanAction(a: RouteAction)
  {
    match a
    case ProxyPass(target) => OneLine(target)
    case Static(root, index) => OneLine(root) && (index.Some? ==> OneLine(index.value))
    case Redirect(url, _) => OneLine(url)
  }

  /** Newline-free fields and no extra directives. */
  predicate Clean(v: ServerView)
  {
    && v.extra == [] && OneLine(v.name)
    && (v.tls.Some? ==> OneLine(v.tls.value.certificate) && OneLine(v.tls.value.certificateKey))
    && (forall i :: 0 <= i < |v.routes| ==> OneLine(v.routes[i].path) && CleanAction(v.routes[i].action))
  }

  lemma ActionOneLine(a: RouteAction)
    requires CleanAction(a)
    ensures AllOneLine(ActionLines(a))
  {
    if a.Redirect? {
      assert OneLine(Decimal(a.code));
    }
  }

  lemma RouteOneLine(r: RouteView)
    requires OneLine(r.path) && CleanAction(r.action)
    ensures AllOneLine(RouteLines(r))
  {
    hide ActionLines, CleanAction;
    ActionOneLine(r.action);
  }

  lemma {:induction false} RoutesOneLine(rs: seq<RouteView>)
    requires forall i :: 0 <= i < |rs| ==> OneLine(rs[i].path) && CleanAction(rs[i].action)
    ensures AllOneLine(RoutesLines(rs))
  {
    hide RouteLines;
    if rs != [] {
      RoutesOneLine(rs[..|rs| - 1]);
      RouteOneLine(rs[|rs| - 1]);
    }
  }

  lemma FlagOneLine(present: bool, word: string)
    requires OneLine(word)
    ensures OneLine(Flag(present, word))
  {
  }

  lemma ListenOneLine(l: ListenView)
    ensures OneLine(ListenLine(l))
  {
    hide Flag;
    FlagOneLine(l.ssl, "ssl");
    FlagOneLine(l.http2, "http2");
    FlagOneLine(l.defaultServer, "default_server");
    assert OneLine(Decimal(l.port));
    assert OneLine(ListenBody(l));
  }

  lemma ListensOneLine(ls: seq<ListenView>)
    ensures AllOneLine(ListenLines(ls))
  {
    hide ListenLine;
    forall i | 0 <= i < |ls| ensures OneLine(ListenLine(ls[i]))
    {
      ListenOneLine(ls[i]);
    }
  }

  lemma ServerOneLine(v: ServerView)
    requires Clean(v)
    ensures AllOneLine(ServerLines(v))
  {
    hide ListenLines, RoutesLines;
    ListensOneLine(v.listens);
    RoutesOneLine(v.routes);
  }

  /** No line of a later section is taken for a listen, and none after it for a certificate. */
  lemma SectionsApart(tls: Option<Tls>, rs: seq<RouteView>)
    ensures var routes := RoutesLines(rs) + ["}"];
            && routes != [] && Between("  ssl_certificate ", routes[0], ";").None?
            && ParseListen((TlsLines(tls) + routes)[0]).None?
    ensures ParseRoute(["}"]).None?
  {
    hide ActionLines;
    if rs != [] {
      RoutesLinesCons(rs);
      assert RoutesLines(rs)[0] == "  location " + rs[0].path + " {";
    }
    var routes := RoutesLines(rs) + ["}"];
    assert routes[0] == "}" || (|routes[0]| > 3 && routes[0][2] == 'l' && routes[0][3] == 'o');
    var first := (TlsLines(tls) + routes)[0];
    assert first == "}" || (|first| > 3 && (first[2] == 's' || (first[2] == 'l' && first[3] == 'o')));
    assert "  listen "[2] == 'l' && "  listen "[3] == 'i' && "  ssl_certificate "[2] == 's';
  }

  /** Parsing the text of a server gives back everything it was printed from. */
  lemma ParseServerText(v: ServerView)
    requires Clean(v)
    ensures ParseServer(v.file, ServerText(v)) == Some(v)
  {
    hide ListenLines, TlsLines, RoutesLines, ParseListen, ParseListens, ParseTls, ParseRoute, ParseRoutes, SplitLines;
    ServerOneLine(v);
    SplitUnlines(ServerLines(v));
    var lines := ServerLines(v);
    var routes := RoutesLines(v.routes) + ["}"];
    BetweenWrapped("  server_name ", v.name, ";");
    assert lines[2..] == ListenLines(v.listens) + (TlsLines(v.tls) + routes) by {
      assert ExtraLines(v.extra) == [];
    }
    SectionsApart(v.tls, v.routes);
    ParseListenLines(v.listens, TlsLines(v.tls) + routes);
    ParseTlsLines(v.tls, routes);
    ParseRoutesLines(v.routes, ["}"]);
  }

  lemma TextInjective(v: ServerView, w: ServerView)
    requires Clean(v) && Clean(w) && v.file == w.file
    requires ServerText(v) == ServerText(w)
    ensures v == w
  {
    hide ServerText, ParseServer, Clean;
    ParseServerText(v);
    ParseServerText(w);
  }

  // ----- the tree -----

  function ParseServers(tree: Tree, includes: seq<string>): Option<seq<ServerView>>
  {
    if includes == [] then Some([]) else
      var init := ParseServers(tree, includes[..|includes| - 1]);
      var file := Between("  include servers/", includes[|includes| - 1], ".conf;");
      if init.None? || file.None? || ServerPath(file.value) !in tree then None else
        var v := ParseServer(file.value, tree[ServerPath(file.value)]);
        if v.None? then None else Some(init.value + [v.value])
  }

  function ParseTree(tree: Tree): Option<seq<ServerView>>
  {
    if ROOT_PATH !in tree then None else
      var lines := SplitLines(tree[ROOT_PATH]);
      if |lines| < |ROOT_HEAD| + 1 then None else ParseServers(tree, lines[|ROOT_HEAD|..|lines| - 1])
  }

  predicate DistinctFiles(vs: seq<ServerView>)
  {
    forall i, j :: 0 <= i < j < |vs| ==> vs[i].file != vs[j].file
  }

  predicate AllClean(vs: seq<ServerView>)
  {
    forall i :: 0 <= i < |vs| ==> Clean(vs[i])
  }

  lemma ServerPathInjective(f: string, g: string)
    requires ServerPath(f) == ServerPath(g)
    ensures f == g
  {
    assert f + ".conf" == ServerPath(f)[1] == g + ".conf";
    assert f == (f + ".conf")[..|f|] && g == (g + ".conf")[..|g|];
  }

  /** `vs[i]` is the last view that writes its file. */
  predicate LastOfItsFile(vs: seq<ServerView>, i: nat)
    requires i < |vs|
  {
    forall j :: i < j < |vs| ==> vs[j].file != vs[i].file
  }

  lemma {:induction false} FilesLast(vs: seq<ServerView>, i: nat)
    requires i < |vs| && LastOfItsFile(vs, i)
    ensures ServerPath(vs[i].file) in Files(vs) && Files(vs)[ServerPath(vs[i].file)] == ServerText(vs[i])
  {
    hide ServerText, ServerPath;
    if i < |vs| - 1 {
      var init, last := vs[..|vs| - 1], vs[|vs| - 1];
      FilesLast(init, i);
      if ServerPath(vs[i].file) == ServerPath(last.file) {
        ServerPathInjective(vs[i].file, last.file);
      }
    }
  }

  lemma {:induction false} ParseIncluded(tree: Tree, vs: seq<ServerView>)
    requires AllClean(vs)
    requires forall i :: 0 <= i < |vs| ==>
            ServerPath(vs[i].file) in tree && tree[ServerPath(vs[i].file)] == ServerText(vs[i])
    ensures ParseServers(tree, IncludeLines(vs)) == Some(vs)
  {
    hide ServerText, ParseServer, Clean;
    if vs != [] {
      var init, last := vs[..|vs| - 1], vs[|vs| - 1];
      ParseIncluded(tree, init);
      assert IncludeLines(vs)[..|vs| - 1] == IncludeLines(init);
      assert IncludeLines(vs)[|vs| - 1] == "  include servers/" + last.file + ".conf;";
      BetweenWrapped("  include servers/", last.file, ".conf;");
      ParseServerText(last);
      assert init + [last] == vs;
    }
  }

  lemma RootHeadOneLine()
    ensures AllOneLine(ROOT_HEAD)
  {
    assert OneLine("worker_processes auto;");
    assert OneLine("events { worker_connections 1024; }");
    assert OneLine("http {");
    assert OneLine("  include       /etc/nginx/mime.types;");
    assert OneLine("  default_type  application/octet-stream;");
    assert OneLine("  sendfile        on;");
    assert OneLine("  keepalive_timeout  65;");
  }

  lemma IncludeOneLine(file: string)
    requires OneLine(file)
    ensures OneLine(IncludeLine(file))
  {
  }

  lemma RootOneLine(vs: seq<ServerView>)
    requires forall i :: 0 <= i < |vs| ==> OneLine(vs[i].file)
    ensures AllOneLine(RootLines(vs))
  {
    hide IncludeLine;
    RootHeadOneLine();
    forall i | 0 <= i < |vs| ensures OneLine(IncludeLine(vs[i].file))
    {
      IncludeOneLine(vs[i].file);
    }
    var head := ROOT_HEAD;
    assert AllOneLine(head + IncludeLines(vs));
  }

  lemma FileIsPlain(s: Server)
    ensures OneLine(View(s).file)
  {
    forall i | 0 <= i < |View(s).file| ensures View(s).file[i] != '\n'
    {
      assert PlainChar(View(s).file[i]);
    }
  }

  /**
   The rendered tree of a state with newline-free fields, no extra directives and distinct file
   names parses back to the projection of the state.
   */
  lemma RenderRoundTrip(st: ControlPlaneState)
    requires AllClean(Project(st)) && DistinctFiles(Project(st))
    ensures ParseTree(Render(st)) == Some(Project(st))
  {
    hide View, Clean, ServerText, SplitLines, ParseServers;
    var vs := Project(st);
    var tree := Render(st);
    forall i | 0 <= i < |vs|
      ensures ServerPath(vs[i].file) in tree && tree[ServerPath(vs[i].file)] == ServerText(vs[i])
    {
      FilesLast(vs, i);
    }
    forall i | 0 <= i < |vs| ensures OneLine(vs[i].file)
    {
      FileIsPlain(InOrder(st.servers)[i]);
    }
    RootOneLine(vs);
    SplitUnlines(RootLines(vs));
    assert RootLines(vs)[|ROOT_HEAD|..|RootLines(vs)| - 1] == IncludeLines(vs);
    ParseIncluded(tree, vs);
  }

  /** Two such states render to the same tree exactly when the renderer reads the same from them. */
  lemma RenderExact(a: ControlPlaneState, b: ControlPlaneState)
    requires AllClean(Project(a)) && DistinctFiles(Project(a))
    requires AllClean(Project(b)) && DistinctFiles(Project(b))
    ensures Render(a) == Render(b) <==> Project(a) == Project(b)
  {
    hide Project, RenderViews, ParseTree;
    RenderRoundTrip(a);
    RenderRoundTrip(b);
  }
}
