/**
 The renderer: a state becomes a root file and one file per enabled server.
 `Project` keeps what the renderer reads from a state, the printing functions turn it into text,
 and `RenderToStaging` is the imperative form.
 */
module Renderer {
  import opened Base
  import opened ConfigHash
  import opened Model
  import opened Ordering
  import opened Text

  // ----- what the renderer reads -----

  datatype ListenView = ListenView(port: U16, ssl: bool, http2: bool, defaultServer: bool)

  datatype RouteView = RouteView(path: string, action: RouteAction)

  datatype ServerView = ServerView(
    file: string,
    name: string,
    listens: seq<ListenView>,
    tls: Option<Tls>,
    routes: seq<RouteView>,
    extra: seq<string>)

  predicate ServerLe(a: Server, b: Server)
  {
    LexLe(a.id, b.id)
  }

  predicate RouteLe(a: Route, b: Route)
  {
    LexLe(a.path, b.path)
  }

  predicate PlainChar(c: char)
  {
    'a' <= c <= 'z' || 'A' <= c <= 'Z' || '0' <= c <= '9' || c == '-' || c == '_'
  }

  /** The characters a file name keeps, by ASCII code: letters, digits, hyphen and underscore. */
  lemma PlainCharExact(c: char)
    ensures PlainChar(c) <==>
            97 <= c as int <= 122 || 65 <= c as int <= 90 || 48 <= c as int <= 57 || c as int in {45, 95}
  {
  }

  /** `sanitize_filename`: every other character becomes an underscore. */
  function Sanitize(id: string): (f: string)
    ensures |f| == |id| && forall i :: 0 <= i < |f| ==> PlainChar(f[i])
  {
    seq(|id|, i requires 0 <= i < |id| => if PlainChar(id[i]) then id[i] else '_')
  }

  /** Sanitising changes exactly the ids that are not plain, and never changes its own results. */
  lemma SanitizeExact(id: string)
    ensures Sanitize(id) == id <==> forall i :: 0 <= i < |id| ==> PlainChar(id[i])
    ensures Sanitize(Sanitize(id)) == Sanitize(id)
    ensures forall i :: 0 <= i < |id| && Sanitize(id)[i] != id[i] ==> Sanitize(id)[i] == '_'
  {
    if Sanitize(id) == id {
      forall i | 0 <= i < |id| ensures PlainChar(id[i]) { assert PlainChar(Sanitize(id)[i]); }
    }
    assert forall i :: 0 <= i < |id| ==> PlainChar(Sanitize(id)[i]);
  }

  function ViewListens(listens: seq<Listen>): seq<ListenView>
  {
    seq(|listens|, i requires 0 <= i < |listens| =>
      ListenView(listens[i].port, listens[i].ssl, UnwrapOr(listens[i].http2, false),
          UnwrapOr(listens[i].defaultServer, false)))
  }

  /** The enabled routes, in the given order. */
  function ViewRoutes(routes: seq<Route>): seq<RouteView>
  {
    if routes == [] then []
    else
      var last := routes[|routes| - 1];
      ViewRoutes(routes[..|routes| - 1]) + (if last.enabled then [RouteView(last.path, last.action)] else [])
  }

  function View(s: Server): ServerView
  {
    ServerView(Sanitize(s.id), s.serverName, ViewListens(s.listen), s.tls,
               ViewRoutes(Sort(RouteLe, s.routes)), UnwrapOr(s.extraDirectives, []))
  }

  /** The enabled servers, in the given order. */
  function Enabled(servers: seq<Server>): seq<Server>
  {
    if servers == [] then []
    else
      var last := servers[|servers| - 1];
      Enabled(servers[..|servers| - 1]) + (if last.enabled then [last] else [])
  }

  function Views(servers: seq<Server>): (vs: seq<ServerView>)
    ensures |vs| == |servers|
  {
    seq(|servers|, i requires 0 <= i < |servers| => View(servers[i]))
  }

  /** The enabled servers of a state in id order. */
  function InOrder(servers: seq<Server>): seq<Server>
  {
    Enabled(Sort(ServerLe, servers))
  }

  function Project(st: ControlPlaneState): seq<ServerView>
  {
    Views(InOrder(st.servers))
  }

  // ----- printing -----

  function Unlines(lines: seq<string>): string
  {
    if lines == [] then "" else Unlines(lines[..|lines| - 1]) + (lines[|lines| - 1] + "\n")
  }

  function Flag(present: bool, word: string): string
  {
    if present then " " + word else ""
  }

  function ListenBody(l: ListenView): string
  {
    Decimal(l.port) + Flag(l.ssl, "ssl") + Flag(l.http2, "http2") + Flag(l.defaultServer, "default_server")
  }

  function ListenLine(l: ListenView): string
  {
    "  listen " + ListenBody(l) + ";"
  }

  function ListenLines(ls: seq<ListenView>): seq<string>
  {
    seq(|ls|, i requires 0 <= i < |ls| => ListenLine(ls[i]))
  }

  function TlsLines(tls: Option<Tls>): seq<string>
  {
    if tls.None? then []
    else ["  ssl_certificate " + tls.value.certificate + ";", "  ssl_certificate_key " + tls.value.certificateKey + ";"]
  }

  function ActionLines(a: RouteAction): seq<string>
  {
    match a
    case ProxyPass(target) => ["    proxy_pass " + target + ";"]
    case Static(root, None) => ["    root " + root + ";"]
    case Static(root, Some(index)) => ["    root " + root + ";", "    index " + index + ";"]
    case Redirect(url, code) => ["    return " + (Decimal(code) + " " + url) + ";"]
  }

  function RouteLines(r: RouteView): seq<string>
  {
    ["  location " + r.path + " {"] + ActionLines(r.action) + ["  }"]
  }

  function RoutesLines(rs: seq<RouteView>): seq<string>
  {
    if rs == [] then [] else RoutesLines(rs[..|rs| - 1]) + RouteLines(rs[|rs| - 1])
  }

  function ExtraLines(extra: seq<string>): seq<string>
  {
    seq(|extra|, i requires 0 <= i < |extra| => "  " + extra[i])
  }

  function ServerLines(v: ServerView): seq<string>
  {
    ["server {", "  server_name " + v.name + ";"]
    + ListenLines(v.listens) + TlsLines(v.tls) + RoutesLines(v.routes) + ExtraLines(v.extra) + ["}"]
  }

  const ROOT_HEAD: seq<string> := [
    "worker_processes auto;",
    "events { worker_connections 1024; }",
    "http {",
    "  include       /etc/nginx/mime.types;",
    "  default_type  application/octet-stream;",
    "  sendfile        on;",
    "  keepalive_timeout  65;"]

  function IncludeLine(file: string): string
  {
    "  include servers/" + file + ".conf;"
  }

  function IncludeLines(vs: seq<ServerView>): seq<string>
  {
    seq(|vs|, i requires 0 <= i < |vs| => IncludeLine(vs[i].file))
  }

  function RootLines(vs: seq<ServerView>): seq<string>
  {
    ROOT_HEAD + IncludeLines(vs) + ["}"]
  }

  const ROOT_PATH: Path := ["nginx.conf"]

  function ServerPath(file: string): Path
  {
    ["servers", file + ".conf"]
  }

  function ServerText(v: ServerView): string
  {
    Unlines(ServerLines(v))
  }

  /** One write per server; a later server overwrites an earlier one of the same name. */
  function Files(vs: seq<ServerView>): Tree
  {
    if vs == [] then map[]
    else Files(vs[..|vs| - 1])[ServerPath(vs[|vs| - 1].file) := ServerText(vs[|vs| - 1])]
  }

  function RenderViews(vs: seq<ServerView>): Tree
  {
    Files(vs)[ROOT_PATH := Unlines(RootLines(vs))]
  }

  function Render(st: ControlPlaneState): Tree
  {
    RenderViews(Project(st))
  }

  // ----- the imperative form -----

  lemma UnlinesAppend(a: seq<string>, b: seq<string>)
    ensures Unlines(a + b) == Unlines(a) + Unlines(b)
  {
    if b == [] {
      assert a + b == a;
    } else {
      assert (a + b)[..|a + b| - 1] == a + b[..|b| - 1];
      UnlinesAppend(a, b[..|b| - 1]);
    }
  }

  /** Pushing a line and its newline. */
  lemma Push(lines: seq<string>, line: string)
    ensures Unlines(lines + [line]) == Unlines(lines) + (line + "\n")
  {
    assert (lines + [line])[..|lines|] == lines;
  }

  function Joined(parts: seq<string>): string
    requires parts != []
  {
    if |parts| == 1 then parts[0] else Joined(parts[..|parts| - 1]) + (" " + parts[|parts| - 1])
  }

  method JoinWithSpaces(parts: seq<string>) returns (text: string)
    requires parts != []
    ensures text == Joined(parts)
  {
    text := parts[0];
    for i := 1 to |parts|
      invariant text == Joined(parts[..i])
    {
      assert parts[..i + 1][..i] == parts[..i];
      text := text + (" " + parts[i]);
    }
    assert parts[..|parts|] == parts;
  }

  lemma JoinedOptional(parts: seq<string>, present: bool, part: string)
    requires parts != []
    ensures Joined(parts + (if present then [part] else [])) == Joined(parts) + Flag(present, part)
  {
    if present {
      assert (parts + [part])[..|parts|] == parts;
    } else {
      assert parts + [] == parts;
    }
  }

  method ListenEntry(listen: Listen, ghost view: ListenView) returns (line: string)
    requires view == ListenView(listen.port, listen.ssl, UnwrapOr(listen.http2, false),
            UnwrapOr(listen.defaultServer, false))
    ensures line == ListenLine(view)
  {
    var parts := [Decimal(listen.port)];
    ghost var a := parts + (if view.ssl then ["ssl"] else []);
    ghost var b := a + (if view.http2 then ["http2"] else []);
    JoinedOptional(parts, view.ssl, "ssl");
    JoinedOptional(a, view.http2, "http2");
    JoinedOptional(b, view.defaultServer, "default_server");
    if listen.ssl {
      parts := parts + ["ssl"];
    }
    assert parts == a;
    if UnwrapOr(listen.http2, false) {
      parts := parts + ["http2"];
    }
    assert parts == b;
    if UnwrapOr(listen.defaultServer, false) {
      parts := parts + ["default_server"];
    }
    assert parts == b + (if view.defaultServer then ["default_server"] else []);
    var joined := JoinWithSpaces(parts);
    line := "  listen " + joined + ";";
  }

  lemma ListenLinesStep(lines: seq<string>, views: seq<ListenView>, i: nat)
    requires i < |views|
    ensures lines + ListenLines(views[..i + 1]) == (lines + ListenLines(views[..i])) + [ListenLine(views[i])]
  {
    hide ListenLine;
    assert views[..i + 1][..i] == views[..i];
  }

  lemma NoListens(lines: seq<string>)
    ensures lines + ListenLines([]) == lines
  {
  }

  /** `text` plus the listen lines. */
  method PushListens(listens: seq<Listen>, text: string, ghost lines: seq<string>) returns (out: string)
    requires text == Unlines(lines)
    ensures out == Unlines(lines + ListenLines(ViewListens(listens)))
  {
    hide ListenLine, ListenLines, Unlines;
    out := text;
    ghost var views := ViewListens(listens);
    NoListens(lines);
    assert views[..0] == [];
    for i := 0 to |listens|
      invariant out == Unlines(lines + ListenLines(views[..i]))
    {
      var line := ListenEntry(listens[i], views[i]);
      out := out + (line + "\n");
      ListenLinesStep(lines, views, i);
      Push(lines + ListenLines(views[..i]), line);
    }
    assert views[..|listens|] == views;
  }

  method PushTls(tls: Option<Tls>, text: string, ghost lines: seq<string>) returns (out: string)
    requires text == Unlines(lines)
    ensures out == Unlines(lines + TlsLines(tls))
  {
    out := text;
    if tls.None? {
      assert lines + TlsLines(tls) == lines;
    } else {
      var first, second := "  ssl_certificate " + tls.value.certificate + ";",
          "  ssl_certificate_key " + tls.value.certificateKey + ";";
      out := out + (first + "\n");
      Push(lines, first);
      out := out + (second + "\n");
      Push(lines + [first], second);
      assert lines + [first] + [second] == lines + TlsLines(tls);
    }
  }

  method PushAction(action: RouteAction, text: string, ghost lines: seq<string>) returns (out: string)
    requires text == Unlines(lines)
    ensures out == Unlines(lines + ActionLines(action))
  {
    match action {
      case ProxyPass(target) =>
        var line := "    proxy_pass " + target + ";";
        out := text + (line + "\n");
        Push(lines, line);
      case Static(root, index) =>
        var line := "    root " + root + ";";
        out := text + (line + "\n");
        Push(lines, line);
        if index.Some? {
          var more := "    index " + index.value + ";";
          out := out + (more + "\n");
          Push(lines + [line], more);
          assert lines + [line] + [more] == lines + ActionLines(action);
        }
      case Redirect(url, code) =>
        var line := "    return " + (Decimal(code) + " " + url) + ";";
        out := text + (line + "\n");
        Push(lines, line);
    }
  }

  method PushRoute(route: Route, text: string, ghost lines: seq<string>) returns (out: string)
    requires text == Unlines(lines)
    ensures out == Unlines(lines + RouteLines(RouteView(route.path, route.action)))
  {
    hide ActionLines;
    var open := "  location " + route.path + " {";
    out := text + (open + "\n");
    Push(lines, open);
    out := PushAction(route.action, out, lines + [open]);
    Push(lines + [open] + ActionLines(route.action), "  }");
    out := out + ("  }" + "\n");
    assert lines + [open] + ActionLines(route.action) + ["  }"]
        == lines + RouteLines(RouteView(route.path, route.action));
  }

  lemma ViewRoutesStep(sorted: seq<Route>, i: nat)
    requires i < |sorted|
    ensures ViewRoutes(sorted[..i + 1])
            == ViewRoutes(sorted[..i])
                + (if sorted[i].enabled then [RouteView(sorted[i].path, sorted[i].action)] else [])
  {
    assert sorted[..i + 1][..i] == sorted[..i];
  }

  lemma RoutesLinesStep(lines: seq<string>, rs: seq<RouteView>, r: RouteView)
    ensures lines + RoutesLines(rs + [r]) == lines + RoutesLines(rs) + RouteLines(r)
  {
    hide RouteLines;
    assert (rs + [r])[..|rs|] == rs;
  }

  lemma NoRoutes(lines: seq<string>)
    ensures lines + RoutesLines(ViewRoutes([])) == lines
  {
  }

  method PushRoutes(sorted: seq<Route>, text: string, ghost lines: seq<string>) returns (out: string)
    requires text == Unlines(lines)
    ensures out == Unlines(lines + RoutesLines(ViewRoutes(sorted)))
  {
    hide RouteLines, RoutesLines, ViewRoutes, Unlines;
    out := text;
    NoRoutes(lines);
    assert sorted[..0] == [];
    for i := 0 to |sorted|
      invariant out == Unlines(lines + RoutesLines(ViewRoutes(sorted[..i])))
    {
      ghost var before := ViewRoutes(sorted[..i]);
      ViewRoutesStep(sorted, i);
      if !sorted[i].enabled {
        assert before + [] == before;
        continue;
      }
      out := PushRoute(sorted[i], out, lines + RoutesLines(before));
      RoutesLinesStep(lines, before, RouteView(sorted[i].path, sorted[i].action));
    }
    assert sorted[..|sorted|] == sorted;
  }

  method PushExtra(extra: seq<string>, text: string, ghost lines: seq<string>) returns (out: string)
    requires text == Unlines(lines)
    ensures out == Unlines(lines + ExtraLines(extra))
  {
    out := text;
    assert lines + ExtraLines(extra)[..0] == lines;
    for i := 0 to |extra|
      invariant out == Unlines(lines + ExtraLines(extra)[..i])
    {
      out := out + (("  " + extra[i]) + "\n");
      Push(lines + ExtraLines(extra)[..i], "  " + extra[i]);
      assert lines + ExtraLines(extra)[..i] + ["  " + extra[i]] == lines + ExtraLines(extra)[..i + 1];
    }
    assert ExtraLines(extra)[..|extra|] == ExtraLines(extra);
  }

  /** The text of one server's file. */
  method RenderServer(server: Server) returns (text: string)
    ensures text == ServerText(View(server))
  {
    hide ListenLines, TlsLines, RoutesLines, ExtraLines, ViewListens, ViewRoutes;
    ghost var v := View(server);
    var name := "  server_name " + server.serverName + ";";
    text := "" + ("server {" + "\n");
    Push([], "server {");
    assert [] + ["server {"] == ["server {"];
    text := text + (name + "\n");
    Push(["server {"], name);
    ghost var lines := ["server {"] + [name];
    text := PushListens(server.listen, text, lines);
    lines := lines + ListenLines(v.listens);
    text := PushTls(server.tls, text, lines);
    lines := lines + TlsLines(v.tls);
    text := PushRoutes(Sort(RouteLe, server.routes), text, lines);
    lines := lines + RoutesLines(v.routes);
    text := PushExtra(UnwrapOr(server.extraDirectives, []), text, lines);
    lines := lines + ExtraLines(v.extra);
    Push(lines, "}");
    text := text + ("}" + "\n");
    assert lines + ["}"] == ServerLines(v);
  }

  method PushLines(more: seq<string>, text: string, ghost lines: seq<string>) returns (out: string)
    requires text == Unlines(lines)
    ensures out == Unlines(lines + more)
  {
    out := text;
    assert lines + more[..0] == lines;
    for i := 0 to |more|
      invariant out == Unlines(lines + more[..i])
    {
      Push(lines + more[..i], more[i]);
      assert lines + more[..i] + [more[i]] == lines + more[..i + 1];
      out := out + (more[i] + "\n");
    }
    assert more[..|more|] == more;
  }

  lemma ViewsStep(sorted: seq<Server>, i: nat)
    requires i < |sorted|
    ensures Views(Enabled(sorted[..i + 1]))
            == Views(Enabled(sorted[..i])) + (if sorted[i].enabled then [View(sorted[i])] else [])
  {
    hide View;
    assert sorted[..i + 1][..i] == sorted[..i];
  }

  lemma IncludeLinesStep(lines: seq<string>, vs: seq<ServerView>, v: ServerView)
    ensures lines + IncludeLines(vs + [v]) == lines + IncludeLines(vs) + [IncludeLine(v.file)]
  {
    hide IncludeLine;
    assert (vs + [v])[..|vs|] == vs;
  }

  lemma FilesStep(vs: seq<ServerView>, v: ServerView)
    ensures Files(vs + [v]) == Files(vs)[ServerPath(v.file) := ServerText(v)]
  {
    hide ServerText;
    assert (vs + [v])[..|vs|] == vs;
  }

  lemma NoServers(lines: seq<string>)
    ensures lines + IncludeLines(Views(Enabled([]))) == lines && Files(Views(Enabled([]))) == map[]
  {
  }

  /** The loop over the servers in id order: an include line and a file for each enabled one. */
  method PushServers(sorted: seq<Server>, text: string, ghost lines: seq<string>) returns (root: string, tree: Tree)
    requires text == Unlines(lines)
    ensures root == Unlines(lines + IncludeLines(Views(Enabled(sorted))))
    ensures tree == Files(Views(Enabled(sorted)))
  {
    hide ServerText, View, IncludeLine, IncludeLines, Files, Views, Enabled, Unlines;
    root, tree := text, map[];
    NoServers(lines);
    assert sorted[..0] == [];
    for i := 0 to |sorted|
      invariant root == Unlines(lines + IncludeLines(Views(Enabled(sorted[..i]))))
      invariant tree == Files(Views(Enabled(sorted[..i])))
    {
      ghost var before := Views(Enabled(sorted[..i]));
      ViewsStep(sorted, i);
      if !sorted[i].enabled {
        assert before + [] == before;
        continue;
      }
      var file := SanitizedFile(sorted[i]);
      var line := IncludeLine(file);
      Push(lines + IncludeLines(before), line);
      IncludeLinesStep(lines, before, View(sorted[i]));
      root := root + (line + "\n");
      var conf := RenderServer(sorted[i]);
      FilesStep(before, View(sorted[i]));
      tree := tree[ServerPath(file) := conf];
    }
    assert sorted[..|sorted|] == sorted;
  }

  /** `render_to_staging`: the tree it leaves in the staging directory. */
  method RenderToStaging(st: ControlPlaneState) returns (tree: Tree)
    ensures tree == Render(st)
  {
    hide Files, IncludeLines;
    var root := PushLines(ROOT_HEAD, "", []);
    assert [] + ROOT_HEAD == ROOT_HEAD;
    root, tree := PushServers(Sort(ServerLe, st.servers), root, ROOT_HEAD);
    Push(ROOT_HEAD + IncludeLines(Project(st)), "}");
    root := root + ("}" + "\n");
    tree := tree[ROOT_PATH := root];
  }

  method SanitizedFile(server: Server) returns (file: string)
    ensures file == View(server).file
  {
    file := "";
    for i := 0 to |server.id|
      invariant |file| == i && file == Sanitize(server.id)[..i]
    {
      file := file + [if PlainChar(server.id[i]) then server.id[i] else '_'];
    }
  }
}
