/** A rendered tree is a real directory: it can be listed. */
module RendererListing {
  import opened ConfigHash
  import opened Model
  import opened Ordering
  import opened Renderer

  ghost predicate ListsFiles(es: seq<Entry>, m: map<string, string>)
  {
    && (forall i, j :: 0 <= i < j < |es| ==> es[i].name != es[j].name)
    && (forall i :: 0 <= i < |es| ==> es[i].File? && es[i].name in m && m[es[i].name] == es[i].content)
    && (forall n :: n in m ==> exists i :: 0 <= i < |es| && es[i].name == n)
  }

  lemma OneMoreFile(rest: seq<Entry>, m: map<string, string>, n: string)
    requires n in m && ListsFiles(rest, m - {n})
    ensures ListsFiles(rest + [File(n, m[n])], m)
  {
    var es := rest + [File(n, m[n])];
    forall i | 0 <= i < |rest| ensures rest[i].name in m && rest[i].name != n && m[rest[i].name] == rest[i].content
    {
      assert rest[i].name in m - {n};
    }
    forall x | x in m ensures exists i :: 0 <= i < |es| && es[i].name == x
    {
      if x == n {
        assert es[|rest|].name == x;
      } else {
        assert x in m - {n};
        var i :| 0 <= i < |rest| && rest[i].name == x;
        assert es[i].name == x;
      }
    }
  }

  lemma {:induction false} ListFiles(m: map<string, string>) returns (es: seq<Entry>)
    ensures ListsFiles(es, m)
    decreases |m|
  {
    if m == map[] {
      return [];
    }
    var n :| n in m;
    assert (m - {n}).Keys == m.Keys - {n};
    hide ListsFiles;
    var rest := ListFiles(m - {n});
    OneMoreFile(rest, m, n);
    es := rest + [File(n, m[n])];
  }

  /** The content of the server files by file name. */
  function Contents(vs: seq<ServerView>): map<string, string>
  {
    if vs == [] then map[] else Contents(vs[..|vs| - 1])[vs[|vs| - 1].file + ".conf" := ServerText(vs[|vs| - 1])]
  }

  lemma {:induction false} ContentsAreFiles(vs: seq<ServerView>, p: Path)
    ensures p in Files(vs) <==> |p| == 2 && p[0] == "servers" && p[1] in Contents(vs)
    ensures p in Files(vs) ==> Files(vs)[p] == Contents(vs)[p[1]]
  {
    if vs != [] {
      hide ServerText;
      var name := vs[|vs| - 1].file + ".conf";
      ContentsAreFiles(vs[..|vs| - 1], p);
      assert p == ["servers", name] <==> |p| == 2 && p[0] == "servers" && p[1] == name;
    }
  }

  /** Two levels: the root file, and the server files below one directory. */
  lemma TwoLevels(root: string, es: seq<Entry>, m: map<string, string>, x: (Path, string))
    requires ListsFiles(es, m)
    ensures var dir := Dir("", [File("nginx.conf", root), Dir("servers", es)]);
            x in Walk([], dir) <==>
              x == (["nginx.conf"], root) || (|x.0| == 2 && x.0[0] == "servers" && x.0[1] in m && m[x.0[1]] == x.1)
  {
    var entries := [File("nginx.conf", root), Dir("servers", es)];
    var dir := Dir("", entries);
    assert Walk([], dir) == WalkAll([], entries);
    WalkAllHas([], entries, x);
    WalkAllHas(["servers"], es, x);
    assert [] + ["nginx.conf"] == ["nginx.conf"] && [] + ["servers"] == ["servers"];
    assert Walk(["nginx.conf"], entries[0]) == [(["nginx.conf"], root)]
        && Walk(["servers"], entries[1]) == WalkAll(["servers"], es);
    assert x in Walk([], dir) <==> x in Walk(["nginx.conf"], entries[0]) || x in Walk(["servers"], entries[1]);
    hide WalkAll;
    forall i | 0 <= i < |es|
        ensures Walk(["servers"] + [es[i].name], es[i]) == [(["servers", es[i].name], es[i].content)]
    {
      assert ["servers"] + [es[i].name] == ["servers", es[i].name];
    }
    if |x.0| == 2 && x.0[0] == "servers" && x.0[1] in m && m[x.0[1]] == x.1 {
      var i :| 0 <= i < |es| && es[i].name == x.0[1];
      assert x.0 == ["servers", es[i].name];
    }
  }

  lemma TwoLevelsWellFormed(root: string, es: seq<Entry>, m: map<string, string>)
    requires ListsFiles(es, m)
    ensures WellFormed(Dir("", [File("nginx.conf", root), Dir("servers", es)]))
  {
    assert |"nginx.conf"| != |"servers"|;
    assert WellFormed(File("nginx.conf", root)) && WellFormed(Dir("servers", es));
  }

  lemma RenderHas(st: ControlPlaneState, x: (Path, string))
    ensures var tree, m := Render(st), Contents(Project(st));
            && ROOT_PATH in tree
            && (x.0 in tree && tree[x.0] == x.1 <==>
                x == (["nginx.conf"], tree[ROOT_PATH])
                || (|x.0| == 2 && x.0[0] == "servers" && x.0[1] in m && m[x.0[1]] == x.1))
  {
    hide Contents, Files, Project;
    ContentsAreFiles(Project(st), x.0);
  }

  /** Every rendered tree has a listing. */
  lemma RenderCanBeListed(st: ControlPlaneState) returns (dir: Entry)
    ensures Shows(dir, Render(st))
  {
    var tree, m := Render(st), Contents(Project(st));
    assert ROOT_PATH in tree;
    var es := ListFiles(m);
    dir := Dir("", [File("nginx.conf", tree[ROOT_PATH]), Dir("servers", es)]);
    hide Contents, ListsFiles, Walk, Render, WellFormed, DistinctPaths, ToTree;
    TwoLevelsWellFormed(tree[ROOT_PATH], es, m);
    WalkDistinct([], dir);
    var w := Walk([], dir);
    forall x ensures x in w <==> x.0 in tree && tree[x.0] == x.1
    {
      TwoLevels(tree[ROOT_PATH], es, m, x);
      RenderHas(st, x);
    }
    TreeFromElements(w, tree);
  }
}
