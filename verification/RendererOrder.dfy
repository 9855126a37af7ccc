/** Which files a state renders to, and what the order of servers and routes can change. */
module RendererOrder {
  import opened ConfigHash
  import opened Model
  import opened Ordering
  import opened Renderer
  import opened RendererParser
  import Validation

  // ----- the exact file map -----

  predicate Writes(vs: seq<ServerView>, p: Path)
  {
    exists i :: 0 <= i < |vs| && p == ServerPath(vs[i].file)
  }

  lemma WritesLast(vs: seq<ServerView>, p: Path)
    requires vs != []
    ensures Writes(vs, p) <==> Writes(vs[..|vs| - 1], p) || p == ServerPath(vs[|vs| - 1].file)
  {
    hide ServerPath;
    var init := vs[..|vs| - 1];
    if Writes(init, p) {
      var i :| 0 <= i < |init| && p == ServerPath(init[i].file);
      assert p == ServerPath(vs[i].file);
    }
    if Writes(vs, p) && p != ServerPath(vs[|vs| - 1].file) {
      var i :| 0 <= i < |vs| && p == ServerPath(vs[i].file);
      assert p == ServerPath(init[i].file);
    }
  }

  lemma {:induction false} FilesHas(vs: seq<ServerView>, p: Path)
    ensures p in Files(vs) <==> Writes(vs, p)
  {
    if vs != [] {
      hide ServerText, ServerPath, Writes;
      FilesHas(vs[..|vs| - 1], p);
      WritesLast(vs, p);
    }
  }

  lemma WritesFile(vs: seq<ServerView>, file: string)
    ensures Writes(vs, ServerPath(file)) <==> exists i :: 0 <= i < |vs| && vs[i].file == file
  {
    hide ServerPath;
    if Writes(vs, ServerPath(file)) {
      var i :| 0 <= i < |vs| && ServerPath(file) == ServerPath(vs[i].file);
      ServerPathInjective(vs[i].file, file);
    }
  }

  lemma DistinctLast(vs: seq<ServerView>)
    requires vs != []
    ensures DistinctFiles(vs) <==>
            DistinctFiles(vs[..|vs| - 1]) && !Writes(vs[..|vs| - 1], ServerPath(vs[|vs| - 1].file))
  {
    hide ServerPath, Writes;
    var init, file := vs[..|vs| - 1], vs[|vs| - 1].file;
    WritesFile(init, file);
    if DistinctFiles(vs) {
      assert forall i :: 0 <= i < |init| ==> init[i] == vs[i];
    }
    if DistinctFiles(init) && !Writes(init, ServerPath(file)) {
      forall i, j | 0 <= i < j < |vs| ensures vs[i].file != vs[j].file
      {
        assert vs[i] == init[i];
        if j < |init| { assert vs[j] == init[j]; }
      }
    }
  }

  lemma {:induction false} FileCount(vs: seq<ServerView>)
    ensures |Files(vs)| <= |vs|
    ensures |Files(vs)| == |vs| <==> DistinctFiles(vs)
  {
    if vs != [] {
      hide ServerText, ServerPath, Writes, DistinctFiles;
      var init, p := vs[..|vs| - 1], ServerPath(vs[|vs| - 1].file);
      FileCount(init);
      FilesHas(init, p);
      DistinctLast(vs);
      assert Files(vs).Keys == Files(init).Keys + {p};
      assert |Files(vs)| == |Files(vs).Keys| && |Files(init)| == |Files(init).Keys|;
      if p in Files(init) {
        assert Files(init).Keys + {p} == Files(init).Keys;
      }
    }
  }

  /**
   The tree of a state holds the root file, which includes every enabled server in id order, and
   one file per distinct sanitised id, with the text of the last server in that order; so there are
   as many server files as enabled servers exactly when the sanitised ids are distinct.
   */
  lemma FileMapExact(st: ControlPlaneState)
    ensures var tree := Render(st); var vs := Project(st);
            && ROOT_PATH in tree && tree[ROOT_PATH] == Unlines(ROOT_HEAD + IncludeLines(vs) + ["}"])
            && (forall p :: p in tree <==> p == ROOT_PATH || Writes(vs, p))
            && (forall i :: 0 <= i < |vs| && LastOfItsFile(vs, i) ==> tree[ServerPath(vs[i].file)] == ServerText(vs[i]))
            && (|tree| == 1 + |vs| <==> DistinctFiles(vs))
  {
    hide ServerText, Project;
    var vs := Project(st);
    FileCount(vs);
    forall p ensures p in Files(vs) <==> Writes(vs, p)
    {
      FilesHas(vs, p);
    }
    forall i | 0 <= i < |vs| && LastOfItsFile(vs, i) ensures Files(vs)[ServerPath(vs[i].file)] == ServerText(vs[i])
    {
      FilesLast(vs, i);
    }
    assert ROOT_PATH !in Files(vs);
    var tree := Render(st);
    assert tree.Keys == Files(vs).Keys + {ROOT_PATH};
    assert |tree| == |tree.Keys| && |Files(vs)| == |Files(vs).Keys|;
  }

  // ----- the order of routes -----

  lemma {:induction false} ViewRoutesHas(rs: seq<Route>, v: RouteView)
    ensures v in ViewRoutes(rs) <==> exists r :: r in rs && r.enabled && v == RouteView(r.path, r.action)
  {
    if rs != [] {
      var init, last := rs[..|rs| - 1], rs[|rs| - 1];
      assert rs == init + [last];
      ViewRoutesHas(init, v);
    }
  }

  lemma {:induction false} ViewRoutesSorted(rs: seq<Route>)
    requires Sorted(RouteLe, rs)
    ensures forall i, j :: 0 <= i < j < |ViewRoutes(rs)| ==> LexLe(ViewRoutes(rs)[i].path, ViewRoutes(rs)[j].path)
  {
    if rs != [] {
      hide LexLe;
      var init, last := rs[..|rs| - 1], rs[|rs| - 1];
      ViewRoutesSorted(init);
      forall i | 0 <= i < |ViewRoutes(init)| ensures LexLe(ViewRoutes(init)[i].path, last.path)
      {
        ViewRoutesHas(init, ViewRoutes(init)[i]);
        var r :| r in init && r.enabled && ViewRoutes(init)[i] == RouteView(r.path, r.action);
        var k :| 0 <= k < |init| && init[k] == r;
        assert RouteLe(rs[k], rs[|rs| - 1]);
      }
    }
  }

  /** The printed routes are exactly the enabled ones, ascending by path. */
  lemma RoutesExact(s: Server)
    ensures forall v :: v in View(s).routes <==>
            exists r :: r in s.routes && r.enabled && v == RouteView(r.path, r.action)
    ensures forall i, j :: 0 <= i < j < |View(s).routes| ==> LexLe(View(s).routes[i].path, View(s).routes[j].path)
  {
    hide LexLe, ViewRoutes;
    var sorted := Sort(RouteLe, s.routes);
    RouteLePreorder();
    SortSorts(RouteLe, s.routes);
    SameElements(sorted, s.routes);
    forall v ensures v in View(s).routes <==> exists r :: r in s.routes && r.enabled && v == RouteView(r.path, r.action)
    {
      ViewRoutesHas(sorted, v);
    }
    ViewRoutesSorted(sorted);
  }

  lemma RouteLePreorder()
    ensures TotalPreorder(RouteLe)
  {
    forall a: Route, b: Route ensures RouteLe(a, b) || RouteLe(b, a) { LexLeTotal(a.path, b.path); }
    forall a: Route, b: Route, c: Route | RouteLe(a, b) && RouteLe(b, c) ensures RouteLe(a, c)
    {
      LexLeTransitive(a.path, b.path, c.path);
    }
  }

  lemma SortRoutesIndependent(rs: seq<Route>, rs': seq<Route>)
    requires Validation.DistinctPaths(rs) && Permutation(rs, rs')
    ensures Sort(RouteLe, rs) == Sort(RouteLe, rs')
  {
    assert Antisymmetric(RouteLe, rs) by {
      forall i, j | 0 <= i < |rs| && 0 <= j < |rs| && RouteLe(rs[i], rs[j]) && RouteLe(rs[j], rs[i])
        ensures rs[i] == rs[j]
      {
        LexLeTotal(rs[i].path, rs[j].path);
      }
    }
    RouteLePreorder();
    SortOrderIndependent(RouteLe, rs, rs');
  }

  /** The same server with its routes in another order. */
  ghost predicate Reordered(a: Server, b: Server)
  {
    b == a.(routes := b.routes) && Permutation(a.routes, b.routes) && Validation.DistinctPaths(a.routes)
  }

  ghost predicate AllReordered(a: seq<Server>, b: seq<Server>)
  {
    |a| == |b| && forall i :: 0 <= i < |a| ==> Reordered(a[i], b[i])
  }

  lemma ReorderedSameView(a: Server, b: Server)
    requires Reordered(a, b)
    ensures View(a) == View(b)
  {
    SortRoutesIndependent(a.routes, b.routes);
  }

  lemma {:induction false} InsertReordered(a: seq<Server>, b: seq<Server>, x: Server, y: Server)
    requires AllReordered(a, b) && Reordered(x, y)
    ensures AllReordered(Insert(ServerLe, a, x), Insert(ServerLe, b, y))
  {
    hide Reordered;
    if a != [] && !ServerLe(a[|a| - 1], x) {
      assert Reordered(a[|a| - 1], b[|b| - 1]);
      SameId(a[|a| - 1], b[|b| - 1]);
      SameId(x, y);
      InsertReordered(a[..|a| - 1], b[..|b| - 1], x, y);
    } else if a != [] {
      SameId(a[|a| - 1], b[|b| - 1]);
      SameId(x, y);
    }
  }

  lemma SameId(a: Server, b: Server)
    requires Reordered(a, b)
    ensures a.id == b.id && a.enabled == b.enabled
  {
  }

  lemma {:induction false} SortReordered(a: seq<Server>, b: seq<Server>)
    requires AllReordered(a, b)
    ensures AllReordered(Sort(ServerLe, a), Sort(ServerLe, b))
  {
    hide Reordered;
    if a != [] {
      SortReordered(a[..|a| - 1], b[..|b| - 1]);
      InsertReordered(Sort(ServerLe, a[..|a| - 1]), Sort(ServerLe, b[..|b| - 1]), a[|a| - 1], b[|b| - 1]);
    }
  }

  lemma {:induction false} EnabledReordered(a: seq<Server>, b: seq<Server>)
    requires AllReordered(a, b)
    ensures AllReordered(Enabled(a), Enabled(b))
  {
    hide Reordered;
    if a != [] {
      EnabledReordered(a[..|a| - 1], b[..|b| - 1]);
      SameId(a[|a| - 1], b[|b| - 1]);
    }
  }

  /** In a valid state, the order of the routes of any server never changes the rendered bytes. */
  lemma RouteOrderIrrelevant(a: ControlPlaneState, b: ControlPlaneState)
    requires Validation.ValidState(a) && |a.servers| == |b.servers|
    requires forall i :: 0 <= i < |a.servers| ==>
                           && b.servers[i] == a.servers[i].(routes := b.servers[i].routes)
                           && Permutation(a.servers[i].routes, b.servers[i].routes)
    ensures Render(a) == Render(b)
  {
    forall i | 0 <= i < |a.servers| ensures Reordered(a.servers[i], b.servers[i])
    {
      assert Validation.ValidServer(a.servers[i]);
    }
    SortReordered(a.servers, b.servers);
    EnabledReordered(Sort(ServerLe, a.servers), Sort(ServerLe, b.servers));
    var x, y := InOrder(a.servers), InOrder(b.servers);
    forall i | 0 <= i < |x| ensures View(x[i]) == View(y[i])
    {
      ReorderedSameView(x[i], y[i]);
    }
    assert Project(a) == Project(b);
  }

  // ----- the order of servers -----

  function RenderServers(servers: seq<Server>): Tree
  {
    RenderViews(Views(InOrder(servers)))
  }

  lemma ServerLePreorder()
    ensures TotalPreorder(ServerLe)
  {
    forall a: Server, b: Server ensures ServerLe(a, b) || ServerLe(b, a) { LexLeTotal(a.id, b.id); }
    forall a: Server, b: Server, c: Server | ServerLe(a, b) && ServerLe(b, c) ensures ServerLe(a, c)
    {
      LexLeTransitive(a.id, b.id, c.id);
    }
  }

  lemma SortServers(s: seq<Server>)
    ensures Sorted(ServerLe, Sort(ServerLe, s)) && Permutation(Sort(ServerLe, s), s)
  {
    ServerLePreorder();
    SortSorts(ServerLe, s);
  }

  lemma {:induction false} EnabledCount(s: seq<Server>, x: Server)
    ensures multiset(Enabled(s))[x] == if x.enabled then multiset(s)[x] else 0
  {
    if s != [] {
      EnabledCount(s[..|s| - 1], x);
      assert s == s[..|s| - 1] + [s[|s| - 1]];
    }
  }

  lemma EnabledPermutation(s: seq<Server>, t: seq<Server>)
    requires Permutation(s, t)
    ensures Permutation(Enabled(s), Enabled(t))
  {
    forall x ensures multiset(Enabled(s))[x] == multiset(Enabled(t))[x]
    {
      EnabledCount(s, x);
      EnabledCount(t, x);
    }
  }

  lemma EnabledElements(s: seq<Server>, x: Server)
    ensures x in Enabled(s) <==> x in s && x.enabled
  {
    EnabledCount(s, x);
    assert x in Enabled(s) <==> x in multiset(Enabled(s));
    assert x in s <==> x in multiset(s);
  }

  lemma {:induction false} EnabledSorted(s: seq<Server>)
    requires Sorted(ServerLe, s)
    ensures Sorted(ServerLe, Enabled(s))
  {
    if s != [] {
      var init, last := s[..|s| - 1], s[|s| - 1];
      EnabledSorted(init);
      forall i | 0 <= i < |Enabled(init)| ensures ServerLe(Enabled(init)[i], last)
      {
        var x := Enabled(init)[i];
        EnabledElements(init, x);
        var k :| 0 <= k < |init| && init[k] == x;
        assert ServerLe(s[k], s[|s| - 1]);
      }
    }
  }

  /** As often as a server is listed and enabled, so often it is rendered. */
  lemma InOrderCount(servers: seq<Server>, x: Server)
    ensures multiset(InOrder(servers))[x] == if x.enabled then multiset(servers)[x] else 0
  {
    hide ServerLe;
    SortServers(servers);
    EnabledCount(Sort(ServerLe, servers), x);
  }

  /** The enabled servers in id order: ascending, and exactly the enabled ones. */
  lemma InOrderExact(servers: seq<Server>)
    ensures Sorted(ServerLe, InOrder(servers))
    ensures forall x :: x in InOrder(servers) <==> x in servers && x.enabled
  {
    hide ServerLe;
    SortServers(servers);
    EnabledSorted(Sort(ServerLe, servers));
    SameElements(Sort(ServerLe, servers), servers);
    forall x ensures x in InOrder(servers) <==> x in servers && x.enabled
    {
      EnabledElements(Sort(ServerLe, servers), x);
    }
  }

  function Ids(s: seq<Server>): seq<string>
  {
    seq(|s|, i requires 0 <= i < |s| => s[i].id)
  }

  function Without<T>(s: seq<T>, j: nat): seq<T>
    requires j < |s|
  {
    s[..j] + s[j + 1..]
  }

  lemma TakeOut<T>(s: seq<T>, j: nat)
    requires j < |s|
    ensures multiset(s) == multiset(Without(s, j)) + multiset{s[j]}
    ensures multiset(Without(s, j)) == multiset(s) - multiset{s[j]}
  {
    assert s == s[..j] + [s[j]] + s[j + 1..];
  }

  lemma IdsTakeOut(s: seq<Server>, j: nat)
    requires j < |s|
    ensures multiset(Ids(s)) == multiset(Ids(Without(s, j))) + multiset{s[j].id}
  {
    TakeOut(Ids(s), j);
    assert Without(Ids(s), j) == Ids(Without(s, j));
  }

  lemma {:induction false} IdsPermutation(s: seq<Server>, t: seq<Server>)
    requires Permutation(s, t)
    ensures Permutation(Ids(s), Ids(t))
  {
    SameElements(s, t);
    if s != [] {
      var x := s[0];
      assert x in t;
      var j :| 0 <= j < |t| && t[j] == x;
      TakeOut(s, 0);
      TakeOut(t, j);
      IdsTakeOut(s, 0);
      IdsTakeOut(t, j);
      hide Ids, Without;
      IdsPermutation(Without(s, 0), Without(t, j));
    }
  }

  /** Whatever the order of the servers, the ids come out in the same order. */
  lemma SameIdOrder(s: seq<Server>, t: seq<Server>)
    requires Permutation(s, t)
    ensures Ids(InOrder(s)) == Ids(InOrder(t))
  {
    var x, y := InOrder(s), InOrder(t);
    assert Permutation(x, y) by {
      SortServers(s);
      SortServers(t);
      EnabledPermutation(Sort(ServerLe, s), Sort(ServerLe, t));
    }
    InOrderExact(s);
    InOrderExact(t);
    IdsPermutation(x, y);
    assert Antisymmetric(LexLe, Ids(x)) by {
      forall i, j | 0 <= i < |x| && 0 <= j < |x| && LexLe(Ids(x)[i], Ids(x)[j]) && LexLe(Ids(x)[j], Ids(x)[i])
        ensures Ids(x)[i] == Ids(x)[j]
      {
        LexLeTotal(Ids(x)[i], Ids(x)[j]);
      }
    }
    IdsSorted(x);
    IdsSorted(y);
    SortedUnique(LexLe, Ids(x), Ids(y));
  }

  lemma IdsSorted(s: seq<Server>)
    requires Sorted(ServerLe, s)
    ensures Sorted(LexLe, Ids(s))
  {
    forall i, j | 0 <= i < j < |s| ensures LexLe(Ids(s)[i], Ids(s)[j])
    {
      assert ServerLe(s[i], s[j]);
    }
  }

  /** `a` is an enabled server of the greatest id among those that share its file. */
  ghost predicate Top(servers: seq<Server>, a: Server)
  {
    && a in servers && a.enabled
    && forall b :: b in servers && b.enabled && Sanitize(b.id) == Sanitize(a.id) ==> LexLe(b.id, a.id)
  }

  /** Two servers compete for one file with different texts and the same, greatest, id. */
  ghost predicate Ambiguous(servers: seq<Server>)
  {
    exists a, b :: Top(servers, a) && Top(servers, b) && a.id == b.id && ServerText(View(a)) != ServerText(View(b))
  }

  lemma LastIsTop(servers: seq<Server>, i: nat)
    requires i < |InOrder(servers)| && LastOfItsFile(Views(InOrder(servers)), i)
    ensures Top(servers, InOrder(servers)[i])
  {
    var x := InOrder(servers);
    InOrderExact(servers);
    assert x[i] in x;
    forall b | b in servers && b.enabled && Sanitize(b.id) == Sanitize(x[i].id) ensures LexLe(b.id, x[i].id)
    {
      assert b in x;
      var j :| 0 <= j < |x| && x[j] == b;
      assert Views(x)[j].file == Views(x)[i].file;
      LexLeTotal(b.id, b.id);
      if j < i { assert ServerLe(x[j], x[i]); }
    }
  }

  lemma {:induction false} LastIndex(vs: seq<ServerView>, k: nat) returns (i: nat)
    requires k < |vs|
    ensures k <= i < |vs| && LastOfItsFile(vs, i) && vs[i].file == vs[k].file
    decreases |vs| - k
  {
    if LastOfItsFile(vs, k) {
      i := k;
    } else {
      var j :| k < j < |vs| && vs[j].file == vs[k].file;
      i := LastIndex(vs, j);
    }
  }

  lemma SameViewFiles(x: seq<Server>, y: seq<Server>)
    requires Ids(x) == Ids(y)
    ensures |Views(x)| == |Views(y)| && forall i :: 0 <= i < |x| ==> Views(x)[i].file == Views(y)[i].file
  {
    assert |Ids(x)| == |Ids(y)|;
    forall i | 0 <= i < |x| ensures Views(x)[i].file == Views(y)[i].file
    {
      assert Ids(x)[i] == Ids(y)[i];
    }
  }

  lemma SameFiles(s: seq<Server>, t: seq<Server>, p: Path)
    requires Permutation(s, t) && !Ambiguous(s)
    ensures var a, b := Files(Views(InOrder(s))), Files(Views(InOrder(t)));
            (p in a <==> p in b) && (p in a ==> a[p] == b[p])
  {
    hide View, ServerText, ServerPath, InOrder;
    var x, y := InOrder(s), InOrder(t);
    var vx, vy := Views(x), Views(y);
    SameIdOrder(s, t);
    SameViewFiles(x, y);
    FilesHas(vx, p);
    FilesHas(vy, p);
    if Writes(vx, p) {
      var k :| 0 <= k < |vx| && p == ServerPath(vx[k].file);
      assert p == ServerPath(vy[k].file);
      var i := LastIndex(vx, k);
      assert LastOfItsFile(vy, i);
      FilesLast(vx, i);
      FilesLast(vy, i);
      LastIsTop(s, i);
      LastIsTop(t, i);
      SameElements(s, t);
      assert Top(s, y[i]);
      assert x[i].id == Ids(x)[i] == Ids(y)[i] == y[i].id;
    }
  }

  lemma UnambiguousIndependent(s: seq<Server>, t: seq<Server>)
    requires Permutation(s, t) && !Ambiguous(s)
    ensures RenderServers(s) == RenderServers(t)
  {
    hide InOrder, Ambiguous, Files;
    var vx, vy := Views(InOrder(s)), Views(InOrder(t));
    SameIdOrder(s, t);
    SameViewFiles(InOrder(s), InOrder(t));
    assert IncludeLines(vx) == IncludeLines(vy);
    forall p ensures (p in Files(vx) <==> p in Files(vy)) && (p in Files(vx) ==> Files(vx)[p] == Files(vy)[p])
    {
      SameFiles(s, t, p);
    }
    assert Files(vx) == Files(vy);
  }

  /** The stable sort puts a server after all those of a smaller or equal id. */
  lemma {:induction false} InsertSplit(s: seq<Server>, x: Server) returns (k: nat)
    requires Sorted(ServerLe, s)
    ensures k <= |s| && Insert(ServerLe, s, x) == s[..k] + [x] + s[k..]
    ensures forall i :: k <= i < |s| ==> !ServerLe(s[i], x)
  {
    if s == [] || ServerLe(s[|s| - 1], x) {
      k := |s|;
    } else {
      k := InsertSplit(s[..|s| - 1], x);
      assert s[..|s| - 1][..k] == s[..k] && s[k..] == s[..|s| - 1][k..] + [s[|s| - 1]];
    }
  }

  lemma {:induction false} EnabledAppend(a: seq<Server>, b: seq<Server>)
    ensures Enabled(a + b) == Enabled(a) + Enabled(b)
  {
    if b == [] {
      assert a + b == a;
    } else {
      EnabledAppend(a, b[..|b| - 1]);
      assert (a + b)[..|a + b| - 1] == a + b[..|b| - 1];
    }
  }

  lemma InOrderSplit(rest: seq<Server>, a: Server) returns (before: seq<Server>, after: seq<Server>)
    requires a.enabled
    ensures InOrder(rest + [a]) == before + [a] + after
    ensures forall b :: b in after ==> b in rest && b.enabled && !ServerLe(b, a)
  {
    var sorted := Sort(ServerLe, rest);
    SortServers(rest);
    SameElements(sorted, rest);
    assert (rest + [a])[..|rest|] == rest;
    var k := InsertSplit(sorted, a);
    EnabledAppend(sorted[..k] + [a], sorted[k..]);
    EnabledAppend(sorted[..k], [a]);
    assert Enabled([a]) == [a];
    before, after := Enabled(sorted[..k]), Enabled(sorted[k..]);
    forall b | b in after ensures b in rest && b.enabled && !ServerLe(b, a)
    {
      EnabledElements(sorted[k..], b);
      assert b in sorted;
    }
  }

  /** A top server listed last writes the file. */
  lemma LastWins(rest: seq<Server>, a: Server)
    requires Top(rest + [a], a)
    ensures var files := Files(Views(InOrder(rest + [a])));
            ServerPath(Sanitize(a.id)) in files && files[ServerPath(Sanitize(a.id))] == ServerText(View(a))
  {
    hide ServerText, ServerPath, Sort, InOrder, Enabled;
    var before, after := InOrderSplit(rest, a);
    var x, i := InOrder(rest + [a]), |before|;
    forall j | i < j < |x| ensures Views(x)[j].file != Views(x)[i].file
    {
      var b := after[j - i - 1];
      assert b == x[j] && b in after && b in rest + [a];
      assert Sanitize(b.id) == Sanitize(a.id) ==> LexLe(b.id, a.id);
    }
    FilesLast(Views(x), i);
  }

  lemma MoveLast(servers: seq<Server>, a: Server) returns (t: seq<Server>)
    requires Top(servers, a)
    ensures Permutation(servers, t) && t != [] && t[|t| - 1] == a && Top(t[..|t| - 1] + [a], a)
  {
    var j :| 0 <= j < |servers| && servers[j] == a;
    TakeOut(servers, j);
    var rest := Without(servers, j);
    t := rest + [a];
    SameElements(servers, t);
    assert t[..|t| - 1] + [a] == t;
  }

  lemma TopTextIsRendered(servers: seq<Server>, a: Server) returns (t: seq<Server>)
    requires Top(servers, a)
    ensures Permutation(servers, t) && ServerPath(Sanitize(a.id)) in RenderServers(t)
    ensures RenderServers(t)[ServerPath(Sanitize(a.id))] == ServerText(View(a))
  {
    hide ServerText, View, InOrder;
    t := MoveLast(servers, a);
    assert t == t[..|t| - 1] + [a];
    LastWins(t[..|t| - 1], a);
  }

  /**
   The order of the servers is irrelevant to the rendered bytes exactly when no two enabled servers
   share the greatest id of a file and differ in text. Validation does not rule that out.
   */
  lemma ServerOrderIrrelevantIff(servers: seq<Server>)
    ensures (forall t :: Permutation(servers, t) ==> RenderServers(t) == RenderServers(servers)) <==>
            !Ambiguous(servers)
  {
    hide ServerText, View, RenderServers, ServerPath;
    if Ambiguous(servers) {
      var a, b :| Top(servers, a) && Top(servers, b) && a.id == b.id && ServerText(View(a)) != ServerText(View(b));
      var t := TopTextIsRendered(servers, a);
      var u := TopTextIsRendered(servers, b);
      assert RenderServers(t) != RenderServers(u);
    } else {
      forall t | Permutation(servers, t) ensures RenderServers(t) == RenderServers(servers)
      {
        UnambiguousIndependent(servers, t);
      }
    }
  }

  /** Distinct ids are enough. */
  lemma DistinctIdsUnambiguous(servers: seq<Server>)
    requires forall i, j :: 0 <= i < j < |servers| ==> servers[i].id != servers[j].id
    ensures !Ambiguous(servers)
  {
    hide ServerText, View;
    forall a, b | Top(servers, a) && Top(servers, b) && a.id == b.id ensures a == b
    {
      var i :| 0 <= i < |servers| && servers[i] == a;
      var j :| 0 <= j < |servers| && servers[j] == b;
    }
  }

  /**
   Any valid enabled server and a copy under another name make a valid state whose rendering
   depends on which of the two is listed last.
   */
  lemma OrderCanMatter(a: Server, name: string, st: ControlPlaneState)
    requires Validation.ValidServer(a) && a.enabled && Clean(View(a))
    requires OneLine(name) && name != a.serverName
    requires st.servers == [a, a.(serverName := name)]
    ensures Validation.ValidState(st) && Ambiguous(st.servers)
  {
    hide Validation.ValidServer, Clean, Ambiguous, ServerText;
    var b := a.(serverName := name);
    CopyValid(a, name);
    assert View(b) == View(a).(name := name);
    hide View;
    if ServerText(View(a)) == ServerText(View(b)) {
      TextInjective(View(a), View(b));
    }
    PairAmbiguous(a, b);
  }

  lemma CopyValid(a: Server, name: string)
    requires Validation.ValidServer(a) && Clean(View(a)) && OneLine(name)
    ensures Validation.ValidServer(a.(serverName := name)) && Clean(View(a.(serverName := name)))
  {
    hide Validation.ValidRoutes, Validation.DistinctListens;
  }

  lemma PairAmbiguous(a: Server, b: Server)
    requires a.id == b.id && a.enabled && b.enabled && ServerText(View(a)) != ServerText(View(b))
    ensures Ambiguous([a, b])
  {
    hide ServerText, View;
    LexLeTotal(a.id, a.id);
    assert Top([a, b], a) && Top([a, b], b);
  }
}
