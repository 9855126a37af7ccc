/** The rendered text of a server, said through the fields of the server itself. */
module RendererText {
  import opened Base
  import opened Model
  import opened Ordering
  import opened Renderer
  import opened RendererOrder
  import opened RendererParser
  import opened Text

  /** The text of a server's file. */
  function TextOf(s: Server): string
  {
    ServerText(View(s))
  }

  // ----- extra directives -----

  function Directives(s: Server): seq<string>
  {
    if s.extraDirectives.Some? then s.extraDirectives.value else []
  }

  /** One indented line per directive, in order. */
  function DirectiveText(ds: seq<string>): string
  {
    if ds == [] then "" else "  " + ds[0] + "\n" + DirectiveText(ds[1..])
  }

  lemma {:induction false} DirectiveLines(ds: seq<string>)
    ensures Unlines(ExtraLines(ds)) == DirectiveText(ds)
  {
    if ds != [] {
      DirectiveLines(ds[1..]);
      assert ExtraLines(ds) == ["  " + ds[0]] + ExtraLines(ds[1..]);
      UnlinesCons("  " + ds[0], ExtraLines(ds[1..]));
    }
  }

  function Head(v: ServerView): seq<string>
  {
    ["server {", "  server_name " + v.name + ";"] + ListenLines(v.listens) + TlsLines(v.tls) + RoutesLines(v.routes)
  }

  lemma TextSplits(v: ServerView)
    ensures ServerText(v) == Unlines(Head(v)) + DirectiveText(v.extra) + "}\n"
  {
    hide ListenLines, TlsLines, RoutesLines, ExtraLines, Unlines;
    assert ServerLines(v) == Head(v) + ExtraLines(v.extra) + ["}"];
    Push(Head(v) + ExtraLines(v.extra), "}");
    UnlinesAppend(Head(v), ExtraLines(v.extra));
    DirectiveLines(v.extra);
  }

  /**
   Extra directives: the text is that of the server without them, less its closing line, then one
   line per directive in order, then the closing line.
   */
  lemma ExtraDirectivesExact(s: Server)
    ensures var bare := TextOf(s.(extraDirectives := None));
            && |bare| >= 2 && bare[|bare| - 2..] == "}\n"
            && TextOf(s) == bare[..|bare| - 2] + DirectiveText(Directives(s)) + "}\n"
  {
    hide ServerText, DirectiveText, Head;
    var bare := s.(extraDirectives := None);
    var head := Unlines(Head(View(s)));
    assert View(bare) == View(s).(extra := []);
    assert Head(View(bare)) == Head(View(s)) by { SameHead(View(s)); }
    TextSplits(View(s));
    TextSplits(View(bare));
    assert DirectiveText([]) == "" by { NoDirectives(); }
    assert head + "" + "}\n" == head + "}\n";
    assert (head + "}\n")[..|head|] == head;
  }

  lemma NoDirectives()
    ensures DirectiveText([]) == ""
  {
  }

  lemma SameHead(v: ServerView)
    ensures Head(v.(extra := [])) == Head(v)
  {
  }

  lemma DirectivesInjective(a: seq<string>, b: seq<string>)
    requires AllOneLine(a) && AllOneLine(b) && DirectiveText(a) == DirectiveText(b)
    ensures a == b
  {
    DirectiveLines(a);
    DirectiveLines(b);
    IndentedOneLine(a);
    IndentedOneLine(b);
    SplitUnlines(ExtraLines(a));
    SplitUnlines(ExtraLines(b));
    hide Unlines, DirectiveText;
    assert |a| == |ExtraLines(a)| == |ExtraLines(b)| == |b|;
    forall i | 0 <= i < |a| ensures a[i] == b[i]
    {
      assert ExtraLines(a)[i] == "  " + a[i] && ExtraLines(b)[i] == "  " + b[i];
      assert a[i] == ("  " + a[i])[2..] && b[i] == ("  " + b[i])[2..];
    }
  }

  lemma IndentedOneLine(ds: seq<string>)
    requires AllOneLine(ds)
    ensures AllOneLine(ExtraLines(ds))
  {
    forall i | 0 <= i < |ds| ensures OneLine(ExtraLines(ds)[i])
    {
      assert OneLine(ds[i]);
    }
  }

  /** Two servers that differ in newline-free directives only have equal texts exactly when the directives are equal. */
  lemma DirectivesMatterIff(s: Server, extra: Option<seq<string>>)
    requires AllOneLine(Directives(s)) && AllOneLine(Directives(s.(extraDirectives := extra)))
    ensures var t := s.(extraDirectives := extra); TextOf(s) == TextOf(t) <==> Directives(s) == Directives(t)
  {
    hide ServerText, View, DirectiveText;
    var t := s.(extraDirectives := extra);
    assert t.(extraDirectives := None) == s.(extraDirectives := None);
    ExtraDirectivesExact(s);
    ExtraDirectivesExact(t);
    var bare := TextOf(s.(extraDirectives := None));
    if TextOf(s) == TextOf(t) {
      SameMiddle(bare[..|bare| - 2], DirectiveText(Directives(s)), DirectiveText(Directives(t)), "}\n");
      DirectivesInjective(Directives(s), Directives(t));
    }
  }

  lemma SameMiddle(a: string, x: string, y: string, b: string)
    requires a + x + b == a + y + b
    ensures x == y
  {
    assert |x| == |y|;
    assert x == (a + x + b)[|a|..|a| + |x|] && y == (a + y + b)[|a|..|a| + |y|];
  }

  // ----- every section, literally -----

  function Word(present: bool, word: string): string
  {
    if present then word else ""
  }

  lemma ListenLiteral(l: Listen)
    ensures ListenLines(ViewListens([l]))
            == ["  listen " + Decimal(l.port) + Word(l.ssl, " ssl") + Word(l.http2 == Some(true), " http2")
                + Word(l.defaultServer == Some(true), " default_server") + ";"]
  {
    hide Decimal, ListenLine;
    ListenLineLiteral(l, ViewListens([l])[0]);
  }

  lemma ListenLineLiteral(l: Listen, v: ListenView)
    requires v == ViewListens([l])[0]
    ensures ListenLine(v) == "  listen " + Decimal(l.port) + Word(l.ssl, " ssl") + Word(l.http2 == Some(true), " http2")
                             + Word(l.defaultServer == Some(true), " default_server") + ";"
  {
    hide Decimal;
    assert " " + "ssl" == " ssl" && " " + "http2" == " http2" && " " + "default_server" == " default_server";
    var a, b, c, d := Decimal(l.port), Word(l.ssl, " ssl"), Word(l.http2 == Some(true), " http2"),
        Word(l.defaultServer == Some(true), " default_server");
    assert "  listen " + (a + b + c + d) + ";" == "  listen " + a + b + c + d + ";";
  }

  lemma RoutesLiteral(a: Route, b: Route, c: Route)
    requires a.enabled && b.enabled && !c.enabled
    ensures ViewRoutes([a, c, b]) == [RouteView(a.path, a.action), RouteView(b.path, b.action)]
    ensures RoutesLines([RouteView(a.path, a.action), RouteView(b.path, b.action)])
            == ["  location " + a.path + " {"] + ActionLines(a.action) + ["  }", "  location " + b.path + " {"]
               + ActionLines(b.action) + ["  }"]
  {
    hide ActionLines;
    assert [a, c, b][..2] == [a, c] && [a, c][..1] == [a] && [a][..0] == [];
    var va, vb := RouteView(a.path, a.action), RouteView(b.path, b.action);
    assert ViewRoutes([]) == [] && ViewRoutes([a]) == [va];
    assert ViewRoutes([a, c]) == [va] + [] == [va];
    assert [va, vb][..1] == [va] && [va][..0] == [];
    assert RoutesLines([]) == [];
  }

  lemma ActionsLiteral(target: string, root: string, index: string, url: string, code: U16)
    ensures ActionLines(ProxyPass(target)) == ["    proxy_pass " + target + ";"]
    ensures ActionLines(Static(root, None)) == ["    root " + root + ";"]
    ensures ActionLines(Static(root, Some(index))) == ["    root " + root + ";", "    index " + index + ";"]
    ensures ActionLines(Redirect(url, code)) == ["    return " + Decimal(code) + " " + url + ";"]
  {
    hide Decimal;
    assert "    return " + (Decimal(code) + " " + url) + ";" == "    return " + Decimal(code) + " " + url + ";";
  }

  /**
   The whole text of a server with one listen, TLS, a static route, a redirect and a disabled route
   between them, and one directive, for all values of its fields.
   */
  lemma TextLiteral(s: Server, l: Listen, tls: Tls, a: Route, b: Route, c: Route, d: string)
    requires s.listen == [l] && s.tls == Some(tls) && s.routes == [a, c, b] && s.extraDirectives == Some([d])
    requires a.enabled && b.enabled && !c.enabled && LexLe(a.path, c.path) && LexLe(c.path, b.path)
    requires a.action.Static? && a.action.index.Some? && b.action.Redirect?
    ensures TextOf(s) == Unlines([
        "server {",
        "  server_name " + s.serverName + ";",
        "  listen " + Decimal(l.port) + Word(l.ssl, " ssl") + Word(l.http2 == Some(true), " http2")
          + Word(l.defaultServer == Some(true), " default_server") + ";",
        "  ssl_certificate " + tls.certificate + ";",
        "  ssl_certificate_key " + tls.certificateKey + ";",
        "  location " + a.path + " {",
        "    root " + a.action.root + ";",
        "    index " + a.action.index.value + ";",
        "  }",
        "  location " + b.path + " {",
        "    return " + Decimal(b.action.code) + " " + b.action.url + ";",
        "  }",
        "  " + d,
        "}"])
  {
    LexLeTransitive(a.path, c.path, b.path);
    assert Sorted(RouteLe, s.routes);
    SortIdle(RouteLe, s.routes);
    hide Unlines, Sort, LexLe, ListenLines, RoutesLines, ViewRoutes, ViewListens, ActionLines, Word, Decimal;
    ListenLiteral(l);
    RoutesLiteral(a, b, c);
    ActionsLiteral("", a.action.root, a.action.index.value, b.action.url, b.action.code);
    assert ExtraLines([d]) == ["  " + d];
    var v := View(s);
    assert v.listens == ViewListens([l]) && v.tls == Some(tls) && v.extra == [d] && v.name == s.serverName;
    assert v.routes == ViewRoutes([a, c, b]) == [RouteView(a.path, a.action), RouteView(b.path, b.action)];
    assert a.action == Static(a.action.root, Some(a.action.index.value));
    assert b.action == Redirect(b.action.url, b.action.code);
    Sections(v, ListenLines(v.listens)[0],
             "  ssl_certificate " + tls.certificate + ";", "  ssl_certificate_key " + tls.certificateKey + ";",
             "  location " + a.path + " {", ActionLines(a.action)[0], ActionLines(a.action)[1],
             "  location " + b.path + " {", ActionLines(b.action)[0], "  " + d);
  }

  lemma Sections(v: ServerView, listen: string, cert: string, key: string, a: string, root: string, index: string,
                 b: string, redirect: string, d: string)
    requires ListenLines(v.listens) == [listen] && TlsLines(v.tls) == [cert, key] && ExtraLines(v.extra) == [d]
    requires RoutesLines(v.routes) == [a] + [root, index] + ["  }", b] + [redirect] + ["  }"]
    ensures ServerText(v) == Unlines(["server {", "  server_name " + v.name + ";", listen, cert, key, a, root, index,
                                      "  }", b, redirect, "  }", d, "}"])
  {
    hide Unlines, ListenLines, TlsLines, ExtraLines, RoutesLines;
    assert ServerLines(v) == ["server {", "  server_name " + v.name + ";", listen, cert, key, a, root, index,
                              "  }", b, redirect, "  }", d, "}"];
  }

  /** The text of a root file without servers. */
  lemma RootLiteral(st: ControlPlaneState)
    requires forall i :: 0 <= i < |st.servers| ==> !st.servers[i].enabled
    ensures Render(st) == map[["nginx.conf"] := Unlines([
        "worker_processes auto;",
        "events { worker_connections 1024; }",
        "http {",
        "  include       /etc/nginx/mime.types;",
        "  default_type  application/octet-stream;",
        "  sendfile        on;",
        "  keepalive_timeout  65;",
        "}"])]
  {
    NoneEnabled(st);
    hide Unlines;
    assert Project(st) == [];
    assert IncludeLines([]) == [] && Files([]) == map[];
    var root := Unlines(ROOT_HEAD + ["}"]);
    assert RootLines([]) == ROOT_HEAD + ["}"];
    assert Render(st) == map[][["nginx.conf"] := root] == map[["nginx.conf"] := root];
    assert ROOT_HEAD + ["}"] == [
        "worker_processes auto;",
        "events { worker_connections 1024; }",
        "http {",
        "  include       /etc/nginx/mime.types;",
        "  default_type  application/octet-stream;",
        "  sendfile        on;",
        "  keepalive_timeout  65;",
        "}"];
  }

  lemma {:induction false} NoneKept(servers: seq<Server>)
    requires forall i :: 0 <= i < |servers| ==> !servers[i].enabled
    ensures Enabled(servers) == []
  {
    if servers != [] {
      NoneKept(servers[..|servers| - 1]);
    }
  }

  lemma NoneEnabled(st: ControlPlaneState)
    requires forall i :: 0 <= i < |st.servers| ==> !st.servers[i].enabled
    ensures InOrder(st.servers) == []
  {
    var sorted := Sort(ServerLe, st.servers);
    SortServers(st.servers);
    SameElements(sorted, st.servers);
    forall i | 0 <= i < |sorted| ensures !sorted[i].enabled
    {
      assert sorted[i] in st.servers;
    }
    NoneKept(sorted);
  }

  /** The whole tree of a state with one server. */
  lemma OneServerLiteral(st: ControlPlaneState, s: Server)
    requires st.servers == [s] && s.enabled
    ensures Render(st) == map[
        ["nginx.conf"] := Unlines(ROOT_HEAD + ["  include servers/" + Sanitize(s.id) + ".conf;"] + ["}"]),
        ["servers", Sanitize(s.id) + ".conf"] := TextOf(s)]
  {
    hide Unlines, ServerText, View;
    assert [s][..0] == [] && Sort(ServerLe, [s]) == [s] && Enabled([]) == [] && Enabled([s]) == [s];
    var v := View(s);
    assert v.file == Sanitize(s.id) by { FileOf(s); }
    assert Project(st) == [v];
    assert IncludeLines([v]) == ["  include servers/" + Sanitize(s.id) + ".conf;"];
    assert [v][..0] == [] && Files([]) == map[];
    var file := ["servers", Sanitize(s.id) + ".conf"];
    assert Files([v]) == map[][file := TextOf(s)] == map[file := TextOf(s)];
    assert |file| != |ROOT_PATH|;
  }

  lemma FileOf(s: Server)
    ensures View(s).file == Sanitize(s.id)
  {
  }
}
