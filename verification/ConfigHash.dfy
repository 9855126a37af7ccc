/**
 The configuration hash: walk a directory, sort the files by path, feed every path and
 every content to the hasher. The hasher itself is a parameter.
 */
module ConfigHash {
  import opened Ordering

  /** A directory entry; `entries` is in the order the file system enumerates it. */
  datatype Entry = File(name: string, content: string) | Dir(name: string, entries: seq<Entry>)

  /** What a directory holds, by path below its root; empty directories do not count. */
  type Tree = map<Path, string>

  /** The daemon hashes root-prefixed names; root-relative names are the alternative it could use. */
  datatype Naming = RootPrefixed | RootRelative

  type Listed = seq<(Path, string)>

  predicate ListedLe(a: (Path, string), b: (Path, string))
  {
    PathLe(a.0, b.0)
  }

  // ----- the walk -----

  function Walk(at: Path, e: Entry): Listed
    decreases e, 1
  {
    match e
    case File(_, content) => [(at, content)]
    case Dir(_, entries) => WalkAll(at, entries)
  }

  function WalkAll(at: Path, entries: seq<Entry>): Listed
    decreases entries, 0
  {
    if entries == [] then []
    else WalkAll(at, entries[..|entries| - 1]) + Walk(at + [entries[|entries| - 1].name], entries[|entries| - 1])
  }

  /** In every directory the names are distinct. */
  ghost predicate WellFormed(e: Entry)
  {
    e.Dir? ==>
      && (forall i, j :: 0 <= i < j < |e.entries| ==> e.entries[i].name != e.entries[j].name)
      && (forall i :: 0 <= i < |e.entries| ==> WellFormed(e.entries[i]))
  }

  function ToTree(l: Listed): Tree
  {
    map i | 0 <= i < |l| :: l[i].0 := FirstContent(l, l[i].0)
  }

  function FirstContent(l: Listed, p: Path): string
  {
    if l == [] then "" else if l[0].0 == p then l[0].1 else FirstContent(l[1..], p)
  }

  // ----- the bytes that are hashed -----

  function JoinPath(p: Path): string
  {
    if p == [] then "" else if |p| == 1 then p[0] else p[0] + "/" + JoinPath(p[1..])
  }

  function Show(naming: Naming, root: string, p: Path): string
  {
    if naming.RootPrefixed? then root + "/" + JoinPath(p) else JoinPath(p)
  }

  function Bytes(naming: Naming, root: string, l: Listed): string
  {
    if l == [] then [] else Bytes(naming, root, l[..|l| - 1]) + Show(naming, root, l[|l| - 1].0) + l[|l| - 1].1
  }

  lemma Least(keys: set<Path>) returns (least: Path)
    requires keys != {}
    ensures least in keys && forall q :: q in keys ==> PathLe(least, q)
  {
    var p :| p in keys;
    if keys == {p} {
      least := p;
      PathLeTotal(p, p);
    } else {
      var rest := Least(keys - {p});
      PathLeTotal(p, rest);
      PathLeTotal(p, p);
      least := if PathLe(p, rest) then p else rest;
      forall q | q in keys ensures PathLe(least, q)
      {
        if q != p && least == p { PathLeTransitive(p, rest, q); }
      }
    }
  }

  lemma LeastUnique(keys: set<Path>)
    requires keys != {}
    ensures exists p :: p in keys && forall q :: q in keys ==> PathLe(p, q)
    ensures forall p, p' :: (p in keys && p' in keys && PathLe(p, p') && PathLe(p', p)) ==> p == p'
  {
    var p := Least(keys);
    forall a, b | a in keys && b in keys && PathLe(a, b) && PathLe(b, a) ensures a == b
    {
      PathLeTotal(a, b);
    }
  }

  /** The files of a tree in ascending order of path. */
  function Listing(tree: Tree): (l: Listed)
    ensures |l| == |tree|
    decreases |tree|
  {
    if tree == map[] then [] else
      LeastUnique(tree.Keys);
      var p :| p in tree.Keys && forall q :: q in tree.Keys ==> PathLe(p, q);
      assert (tree - {p}).Keys == tree.Keys - {p};
      [(p, tree[p])] + Listing(tree - {p})
  }

  function TreeBytes(naming: Naming, root: string, tree: Tree): string
  {
    Bytes(naming, root, Listing(tree))
  }

  // ----- the walk is independent of enumeration order -----

  ghost predicate DistinctPaths(l: Listed)
  {
    forall i, j :: 0 <= i < j < |l| ==> l[i].0 != l[j].0
  }

  ghost predicate Below(at: Path, l: Listed)
  {
    forall i :: 0 <= i < |l| ==> at <= l[i].0
  }

  lemma {:induction false} WalkDistinct(at: Path, e: Entry)
    requires WellFormed(e)
    ensures DistinctPaths(Walk(at, e)) && Below(at, Walk(at, e))
    decreases e, 1
  {
    if e.Dir? {
      WalkAllDistinct(at, e.entries);
    }
  }

  lemma {:induction false} WalkAllDistinct(at: Path, entries: seq<Entry>)
    requires forall i, j :: 0 <= i < j < |entries| ==> entries[i].name != entries[j].name
    requires forall i :: 0 <= i < |entries| ==> WellFormed(entries[i])
    ensures DistinctPaths(WalkAll(at, entries))
    ensures forall k :: 0 <= k < |WalkAll(at, entries)| ==>
                          exists i :: 0 <= i < |entries| && at + [entries[i].name] <= WalkAll(at, entries)[k].0
    ensures Below(at, WalkAll(at, entries))
    decreases entries, 0
  {
    if entries != [] {
      var init, last := entries[..|entries| - 1], entries[|entries| - 1];
      WalkAllDistinct(at, init);
      WalkDistinct(at + [last.name], last);
      var a, b := WalkAll(at, init), Walk(at + [last.name], last);
      forall i, j | 0 <= i < |a| && 0 <= j < |b| ensures a[i].0 != b[j].0
      {
        var m :| 0 <= m < |init| && at + [init[m].name] <= a[i].0;
        assert a[i].0[|at|] == init[m].name && b[j].0[|at|] == last.name;
        assert entries[m] == init[m];
      }
      forall k | 0 <= k < |a + b|
        ensures exists i :: 0 <= i < |entries| && at + [entries[i].name] <= (a + b)[k].0
      {
        if k < |a| {
          var m :| 0 <= m < |init| && at + [init[m].name] <= a[k].0;
          assert entries[m] == init[m];
        } else {
          assert at + [entries[|entries| - 1].name] <= b[k - |a|].0;
        }
      }
      forall k | 0 <= k < |a + b| ensures at <= (a + b)[k].0
      {
        if k >= |a| { assert at <= at + [last.name] <= b[k - |a|].0; }
      }
    }
  }

  lemma FirstContentAt(l: Listed, i: nat)
    requires DistinctPaths(l) && i < |l|
    ensures FirstContent(l, l[i].0) == l[i].1
  {
    if i > 0 {
      FirstContentAt(l[1..], i - 1);
    }
  }

  ghost predicate Lists(l: Listed, tree: Tree)
  {
    && DistinctPaths(l)
    && (forall p :: p in tree <==> exists i :: 0 <= i < |l| && l[i].0 == p)
    && (forall i :: 0 <= i < |l| ==> l[i].0 in tree && tree[l[i].0] == l[i].1)
  }

  lemma ToTreeLists(l: Listed)
    requires DistinctPaths(l)
    ensures Lists(l, ToTree(l))
  {
    forall i | 0 <= i < |l| ensures l[i].0 in ToTree(l) && ToTree(l)[l[i].0] == l[i].1
    {
      FirstContentAt(l, i);
    }
  }

  lemma ListsCons(p: Path, content: string, l: Listed, tree: Tree)
    requires p in tree && tree[p] == content && Lists(l, tree - {p})
    ensures Lists([(p, content)] + l, tree)
  {
    var r := [(p, content)] + l;
    forall q | q in tree ensures exists i :: 0 <= i < |r| && r[i].0 == q
    {
      if q == p {
        assert r[0].0 == p;
      } else {
        assert q in tree - {p};
        var i :| 0 <= i < |l| && l[i].0 == q;
        assert r[i + 1].0 == q;
      }
    }
  }

  /** A listing begins with the least path. */
  lemma ListingFirst(tree: Tree) returns (p: Path)
    requires tree != map[]
    ensures p in tree && Listing(tree) == [(p, tree[p])] + Listing(tree - {p}) && |tree - {p}| < |tree|
    ensures forall q :: q in tree ==> PathLe(p, q)
  {
    hide PathLe;
    p := Listing(tree)[0].0;
    LeastUnique(tree.Keys);
    assert (tree - {p}).Keys == tree.Keys - {p};
    assert forall q :: q in tree ==> q in tree.Keys;
  }

  lemma {:induction false} ListingLists(tree: Tree)
    ensures Lists(Listing(tree), tree)
    decreases |tree|
  {
    if tree == map[] {
      assert Listing(tree) == [];
    } else {
      hide Listing, Lists, PathLe;
      var p := ListingFirst(tree);
      ListingLists(tree - {p});
      ListsCons(p, tree[p], Listing(tree - {p}), tree);
    }
  }

  lemma SortedCons(x: (Path, string), l: Listed)
    requires Sorted(ListedLe, l) && forall i :: 0 <= i < |l| ==> ListedLe(x, l[i])
    ensures Sorted(ListedLe, [x] + l)
  {
    hide PathLe;
  }

  lemma {:induction false} ListingSorted(tree: Tree)
    ensures Sorted(ListedLe, Listing(tree))
    decreases |tree|
  {
    if tree != map[] {
      hide Listing, PathLe, Sorted;
      var p := ListingFirst(tree);
      var rest := Listing(tree - {p});
      ListingSorted(tree - {p});
      ListingLists(tree - {p});
      forall i | 0 <= i < |rest| ensures ListedLe((p, tree[p]), rest[i])
      {
        assert rest[i].0 in tree - {p};
      }
      SortedCons((p, tree[p]), rest);
    }
  }

  lemma {:induction false} SameListingSameElements(l: Listed, m: Listed, tree: Tree)
    requires Lists(l, tree) && Lists(m, tree)
    ensures Permutation(l, m)
  {
    forall x: (Path, string) ensures multiset(l)[x] == multiset(m)[x]
    {
      CountInListing(l, tree, x);
      CountInListing(m, tree, x);
    }
  }

  lemma {:induction false} DistinctOnce(l: Listed, x: (Path, string))
    requires DistinctPaths(l)
    ensures multiset(l)[x] == if x in l then 1 else 0
  {
    if l != [] {
      var init, last := l[..|l| - 1], l[|l| - 1];
      assert l == init + [last];
      DistinctOnce(init, x);
    }
  }

  lemma CountInListing(l: Listed, tree: Tree, x: (Path, string))
    requires Lists(l, tree)
    ensures multiset(l)[x] == if x.0 in tree && tree[x.0] == x.1 then 1 else 0
  {
    DistinctOnce(l, x);
    if x.0 in tree && tree[x.0] == x.1 {
      var i :| 0 <= i < |l| && l[i].0 == x.0;
      assert l[i] == x;
    }
  }

  lemma ListedLePreorder()
    ensures TotalPreorder(ListedLe)
  {
    PathLePreorder();
  }

  lemma DistinctAntisymmetric(l: Listed)
    requires DistinctPaths(l)
    ensures Antisymmetric(ListedLe, l)
  {
    hide PathLe;
    forall i, j | 0 <= i < |l| && 0 <= j < |l| && ListedLe(l[i], l[j]) && ListedLe(l[j], l[i])
      ensures l[i] == l[j]
    {
      PathLeTotal(l[i].0, l[j].0);
    }
  }

  lemma ListingAntisymmetric(tree: Tree)
    ensures Antisymmetric(ListedLe, Listing(tree))
  {
    ListingLists(tree);
    DistinctAntisymmetric(Listing(tree));
  }

  lemma SortListed(l: Listed)
    ensures Sorted(ListedLe, Sort(ListedLe, l)) && Permutation(Sort(ListedLe, l), l)
  {
    ListedLePreorder();
    SortSorts(ListedLe, l);
  }

  lemma SortedListing(l: Listed, tree: Tree)
    requires Lists(l, tree)
    ensures Sort(ListedLe, l) == Listing(tree)
  {
    assert Permutation(l, Listing(tree)) by {
      ListingLists(tree);
      SameListingSameElements(l, Listing(tree), tree);
    }
    ListingSorted(tree);
    ListingAntisymmetric(tree);
    SortListed(l);
    SortedUnique(ListedLe, Listing(tree), Sort(ListedLe, l));
  }

  /** The sorted walk of a directory is the ascending listing of the files it holds. */
  lemma SortedWalk(e: Entry)
    requires WellFormed(e)
    ensures Sort(ListedLe, Walk([], e)) == Listing(ToTree(Walk([], e)))
  {
    var w := Walk([], e);
    WalkDistinct([], e);
    ToTreeLists(w);
    SortedListing(w, ToTree(w));
  }

  /**
   The same file, or the same directory with its entries enumerated in another order, here and in
   the directories below it.
   */
  ghost predicate Relisted(e: Entry, f: Entry)
    decreases e, 0
  {
    && e.name == f.name
    && match e {
      case File(_, content) => f.File? && f.content == content
      case Dir(_, entries) =>
        && f.Dir? && |f.entries| == |entries|
        && (forall i :: 0 <= i < |entries| ==> Among(entries[i], f.entries))
        && (forall j :: 0 <= j < |f.entries| ==> Covers(entries, f.entries[j]))
    }
  }

  ghost predicate Among(e: Entry, fs: seq<Entry>)
    decreases e, 1
  {
    exists j :: 0 <= j < |fs| && Relisted(e, fs[j])
  }

  ghost predicate Covers(es: seq<Entry>, f: Entry)
    decreases es
  {
    exists i :: 0 <= i < |es| && Relisted(es[i], f)
  }

  lemma {:induction false} RelistedItself(e: Entry)
    ensures Relisted(e, e)
  {
    if e.Dir? {
      forall i | 0 <= i < |e.entries| ensures Among(e.entries[i], e.entries) && Covers(e.entries, e.entries[i])
      {
        RelistedItself(e.entries[i]);
      }
    }
  }

  /** Any permutation of a directory's entries relists it. */
  lemma PermutedIsRelisted(name: string, entries: seq<Entry>, entries': seq<Entry>)
    requires Permutation(entries, entries')
    ensures Relisted(Dir(name, entries), Dir(name, entries'))
  {
    SameElements(entries, entries');
    forall i | 0 <= i < |entries| ensures Among(entries[i], entries')
    {
      assert entries[i] in entries && entries[i] in entries';
      var j :| 0 <= j < |entries'| && entries'[j] == entries[i];
      RelistedItself(entries[i]);
    }
    forall j | 0 <= j < |entries'| ensures Covers(entries, entries'[j])
    {
      assert entries'[j] in entries' && entries'[j] in entries;
      var i :| 0 <= i < |entries| && entries[i] == entries'[j];
      RelistedItself(entries[i]);
    }
  }

  lemma {:induction false} WalkAllHas(at: Path, entries: seq<Entry>, x: (Path, string))
    ensures x in WalkAll(at, entries) <==>
              exists i :: 0 <= i < |entries| && x in Walk(at + [entries[i].name], entries[i])
  {
    if entries != [] {
      var init, last := entries[..|entries| - 1], entries[|entries| - 1];
      WalkAllHas(at, init, x);
      if x in WalkAll(at, init) {
        var i :| 0 <= i < |init| && x in Walk(at + [init[i].name], init[i]);
        assert entries[i] == init[i];
      }
      if i :| 0 <= i < |entries| && x in Walk(at + [entries[i].name], entries[i]) {
        assert i < |init| ==> entries[i] == init[i];
      }
    }
  }

  lemma {:induction false} RelistedWalk(at: Path, e: Entry, f: Entry, x: (Path, string))
    requires Relisted(e, f)
    ensures x in Walk(at, e) <==> x in Walk(at, f)
    decreases e
  {
    if e.Dir? {
      assert Walk(at, e) == WalkAll(at, e.entries) && Walk(at, f) == WalkAll(at, f.entries);
      WalkAllHas(at, e.entries, x);
      WalkAllHas(at, f.entries, x);
      hide Walk, WalkAll;
      if i :| 0 <= i < |e.entries| && x in Walk(at + [e.entries[i].name], e.entries[i]) {
        assert Among(e.entries[i], f.entries);
        var j :| 0 <= j < |f.entries| && Relisted(e.entries[i], f.entries[j]);
        RelistedWalk(at + [e.entries[i].name], e.entries[i], f.entries[j], x);
      }
      if j :| 0 <= j < |f.entries| && x in Walk(at + [f.entries[j].name], f.entries[j]) {
        assert Covers(e.entries, f.entries[j]);
        var i :| 0 <= i < |e.entries| && Relisted(e.entries[i], f.entries[j]);
        RelistedWalk(at + [e.entries[i].name], e.entries[i], f.entries[j], x);
      }
    }
  }

  lemma TreeFromElements(w: Listed, tree: Tree)
    requires DistinctPaths(w)
    requires forall x :: x in w ==> x.0 in tree && tree[x.0] == x.1
    requires forall p :: p in tree ==> (p, tree[p]) in w
    ensures ToTree(w) == tree
  {
    ToTreeLists(w);
    hide ToTree, DistinctPaths;
    forall p | p in ToTree(w) ensures p in tree && tree[p] == ToTree(w)[p]
    {
      var i :| 0 <= i < |w| && w[i].0 == p;
      assert w[i] in w;
    }
    forall p | p in tree ensures p in ToTree(w)
    {
      var i :| 0 <= i < |w| && w[i] == (p, tree[p]);
    }
  }

  /**
   The order in which the file system enumerates directories does not matter: two listings of the
   same directory hold the same files and give the same sorted walk.
   */
  lemma WalkIndependentOfEnumeration(e: Entry, f: Entry)
    requires WellFormed(e) && WellFormed(f) && Relisted(e, f)
    ensures ToTree(Walk([], e)) == ToTree(Walk([], f))
    ensures Sort(ListedLe, Walk([], e)) == Sort(ListedLe, Walk([], f))
  {
    hide Relisted, Walk, ToTree, DistinctPaths;
    WalkDistinct([], e);
    WalkDistinct([], f);
    forall x ensures x in Walk([], e) <==> x in Walk([], f)
    {
      RelistedWalk([], e, f, x);
    }
    TreeElements(Walk([], f));
    TreeFromElements(Walk([], e), ToTree(Walk([], f)));
    SortedWalk(e);
    SortedWalk(f);
  }

  lemma TreeElements(w: Listed)
    requires DistinctPaths(w)
    ensures forall x :: x in w ==> x.0 in ToTree(w) && ToTree(w)[x.0] == x.1
    ensures forall p :: p in ToTree(w) ==> (p, ToTree(w)[p]) in w
  {
    ToTreeLists(w);
    hide ToTree, DistinctPaths;
    forall p | p in ToTree(w) ensures (p, ToTree(w)[p]) in w
    {
      var i :| 0 <= i < |w| && w[i].0 == p;
      assert w[i] == (p, ToTree(w)[p]);
    }
  }

  /** Two directories that hold the same files hash the same bytes. */
  lemma SameFilesSameBytes(naming: Naming, root: string, e: Entry, f: Entry)
    requires WellFormed(e) && WellFormed(f)
    requires ToTree(Walk([], e)) == ToTree(Walk([], f))
    ensures Bytes(naming, root, Sort(ListedLe, Walk([], e))) == Bytes(naming, root, Sort(ListedLe, Walk([], f)))
  {
    SortedWalk(e);
    SortedWalk(f);
  }

  /** `dir` is a listing of a directory that holds `tree`. */
  ghost predicate Shows(dir: Entry, tree: Tree)
  {
    dir.Dir? && WellFormed(dir) && ToTree(Walk([], dir)) == tree
  }

  // ----- the imperative walk -----

  /** `collect_files`: recurse into directories, push files. */
  method CollectFiles(at: Path, entries: seq<Entry>, sofar: Listed) returns (out: Listed)
    ensures out == sofar + WalkAll(at, entries)
    decreases entries
  {
    out := sofar;
    for i := 0 to |entries|
      invariant out == sofar + WalkAll(at, entries[..i])
    {
      assert entries[..i + 1][..i] == entries[..i];
      match entries[i] {
        case Dir(name, children) =>
          out := CollectFiles(at + [name], children, out);
        case File(name, content) =>
          out := out + [(at + [name], content)];
      }
    }
    assert entries[..|entries|] == entries;
  }

  /** `hash_directory`: the hash is that of the ascending listing of the files, for any enumeration order. */
  method HashDirectory(hash: string -> string, naming: Naming, root: string, dir: Entry) returns (digest: string)
    requires dir.Dir? && WellFormed(dir)
    ensures digest == hash(TreeBytes(naming, root, ToTree(Walk([], dir))))
  {
    var files := CollectFiles([], dir.entries, []);
    assert files == Walk([], dir);
    files := Sort(ListedLe, files);
    SortedWalk(dir);
    var hashed := Feed(naming, root, files);
    digest := hash(hashed);
  }

  method Feed(naming: Naming, root: string, files: Listed) returns (hashed: string)
    ensures hashed == Bytes(naming, root, files)
  {
    hashed := "";
    for i := 0 to |files|
      invariant hashed == Bytes(naming, root, files[..i])
    {
      assert files[..i + 1][..i] == files[..i];
      hashed := hashed + Show(naming, root, files[i].0) + files[i].1;
    }
    assert files[..|files|] == files;
  }

  // ----- what the bytes are -----

  /** A name without slashes. */
  predicate PlainName(n: string)
  {
    '/' !in n
  }

  /** The components of a shown path. */
  function SplitPath(s: string): Path
  {
    if s == "" then [""]
    else
      var rest := SplitPath(s[1..]);
      if s[0] == '/' then [""] + rest
      else if rest == [] then [[s[0]]]
      else [[s[0]] + rest[0]] + rest[1..]
  }

  lemma {:induction false} SplitName(n: string, rest: string)
    requires PlainName(n)
    ensures SplitPath(n) == [n] && SplitPath(n + "/" + rest) == [n] + SplitPath(rest)
  {
    if n == "" {
      assert ("" + "/" + rest)[1..] == rest;
    } else {
      SplitName(n[1..], rest);
      assert (n + "/" + rest)[1..] == n[1..] + "/" + rest;
      assert n == [n[0]] + n[1..];
    }
  }

  /** A shown path names its components: it splits back into them. */
  lemma {:induction false} JoinedPathSplits(p: Path)
    requires p != [] && forall i :: 0 <= i < |p| ==> PlainName(p[i])
    ensures SplitPath(JoinPath(p)) == p
  {
    if |p| == 1 {
      SplitName(p[0], "");
    } else {
      hide PlainName;
      JoinedPathSplits(p[1..]);
      SplitName(p[0], JoinPath(p[1..]));
    }
  }

  lemma SortedIsListing(l: Listed, tree: Tree)
    requires Lists(l, tree) && Sorted(ListedLe, l)
    ensures l == Listing(tree)
  {
    hide Lists, Listing, ListedLe;
    ListingLists(tree);
    SameListingSameElements(l, Listing(tree), tree);
    ListingSorted(tree);
    ListingAntisymmetric(tree);
    SortedUnique(ListedLe, Listing(tree), l);
  }

  lemma ListsSnoc(l: Listed, tree: Tree, p: Path, content: string)
    requires Lists(l, tree) && p !in tree
    ensures Lists(l + [(p, content)], tree[p := content])
  {
    var r, tree' := l + [(p, content)], tree[p := content];
    forall q | q in tree' ensures exists i :: 0 <= i < |r| && r[i].0 == q
    {
      if q == p {
        assert r[|l|].0 == q;
      } else {
        var i :| 0 <= i < |l| && l[i].0 == q;
        assert r[i].0 == q;
      }
    }
  }

  lemma SortedSnoc(l: Listed, x: (Path, string))
    requires Sorted(ListedLe, l) && forall i :: 0 <= i < |l| ==> ListedLe(l[i], x)
    ensures Sorted(ListedLe, l + [x])
  {
    hide PathLe;
  }

  lemma ListingSnoc(tree: Tree, p: Path, content: string)
    requires p !in tree && forall q :: q in tree ==> PathLe(q, p)
    ensures Listing(tree[p := content]) == Listing(tree) + [(p, content)]
  {
    hide Listing, PathLe, Sorted;
    var l := Listing(tree);
    ListingLists(tree);
    ListingSorted(tree);
    assert forall i :: 0 <= i < |l| ==> ListedLe(l[i], (p, content));
    hide ListedLe, Lists;
    SortedSnoc(l, (p, content));
    ListsSnoc(l, tree, p, content);
    SortedIsListing(l + [(p, content)], tree[p := content]);
  }

  /**
   The bytes, file by file: none for no file, and for one more file, greater than all others, its
   root, its name and its content after the rest.
   */
  lemma TreeBytesExact(naming: Naming, root: string, tree: Tree, p: Path, content: string)
    requires p !in tree && forall q :: q in tree ==> PathLe(q, p)
    ensures TreeBytes(naming, root, map[]) == ""
    ensures TreeBytes(naming, root, tree[p := content])
            == TreeBytes(naming, root, tree) + (if naming.RootPrefixed? then root + "/" else "") + JoinPath(p) + content
  {
    hide Listing, PathLe, Bytes, Show;
    ListingSnoc(tree, p, content);
    BytesSnoc(naming, root, Listing(tree), p, content);
    ShownName(naming, root, p);
    EmptyListing();
  }

  lemma ShownName(naming: Naming, root: string, p: Path)
    ensures Show(naming, root, p) == (if naming.RootPrefixed? then root + "/" else "") + JoinPath(p)
  {
    hide JoinPath;
    assert "" + JoinPath(p) == JoinPath(p);
  }

  lemma BytesSnoc(naming: Naming, root: string, l: Listed, p: Path, content: string)
    ensures Bytes(naming, root, []) == ""
    ensures Bytes(naming, root, l + [(p, content)]) == Bytes(naming, root, l) + Show(naming, root, p) + content
  {
    hide Show;
    assert (l + [(p, content)])[..|l|] == l;
  }

  lemma EmptyListing()
    ensures Listing(map[]) == []
  {
  }

  lemma Associates(a: string, b: string, c: string, d: string)
    ensures a + b + c + d == a + (b + c + d)
  {
  }

  lemma {:induction false} BytesAppend(naming: Naming, root: string, a: Listed, b: Listed)
    ensures Bytes(naming, root, a + b) == Bytes(naming, root, a) + Bytes(naming, root, b)
  {
    hide Show;
    if b == [] {
      assert a + b == a;
    } else {
      var init, last := b[..|b| - 1], b[|b| - 1];
      assert (a + b)[..|a + b| - 1] == a + init;
      BytesAppend(naming, root, a, init);
      Associates(Bytes(naming, root, a), Bytes(naming, root, init), Show(naming, root, last.0), last.1);
    }
  }

  lemma BytesAt(naming: Naming, root: string, l: Listed, i: nat)
    requires i < |l|
    ensures Bytes(naming, root, l) == Bytes(naming, root, l[..i]) + Show(naming, root, l[i].0) + l[i].1
                                      + Bytes(naming, root, l[i + 1..])
  {
    hide Bytes, Show;
    var upTo := l[..i] + [(l[i].0, l[i].1)];
    BytesSnoc(naming, root, l[..i], l[i].0, l[i].1);
    BytesAppend(naming, root, upTo, l[i + 1..]);
    assert upTo + l[i + 1..] == l;
  }

  lemma Cancel(a: string, x: string, y: string, b: string)
    requires a + x + b == a + y + b
    ensures x == y
  {
    assert |x| == |y|;
    assert x == (a + x + b)[|a|..|a| + |x|];
    assert y == (a + y + b)[|a|..|a| + |y|];
  }

  lemma ListsUpdate(l: Listed, tree: Tree, i: nat, content: string)
    requires i < |l| && Lists(l, tree)
    ensures Lists(l[i := (l[i].0, content)], tree[l[i].0 := content])
  {
    var p := l[i].0;
    var r, tree' := l[i := (p, content)], tree[p := content];
    assert forall k :: 0 <= k < |r| ==> r[k].0 == l[k].0;
    forall q | q in tree' ensures exists k :: 0 <= k < |r| && r[k].0 == q
    {
      var k :| 0 <= k < |l| && l[k].0 == q;
      assert r[k].0 == q;
    }
    forall k | 0 <= k < |r| ensures r[k].0 in tree' && tree'[r[k].0] == r[k].1
    {
      assert k != i ==> l[k].0 != p;
    }
  }

  lemma SortedUpdate(l: Listed, i: nat, content: string)
    requires i < |l| && Sorted(ListedLe, l)
    ensures Sorted(ListedLe, l[i := (l[i].0, content)])
  {
    hide PathLe;
    var r := l[i := (l[i].0, content)];
    forall a, b | 0 <= a < b < |r| ensures ListedLe(r[a], r[b])
    {
      assert ListedLe(l[a], l[b]);
    }
  }

  lemma UpdatedListing(tree: Tree, i: nat, content: string)
    requires i < |Listing(tree)|
    ensures Listing(tree)[i].0 in tree
    ensures Listing(tree[Listing(tree)[i].0 := content]) == Listing(tree)[i := (Listing(tree)[i].0, content)]
  {
    hide Listing, PathLe, Sorted, ListedLe;
    var l := Listing(tree);
    ListingLists(tree);
    ListingSorted(tree);
    assert l[i].0 in tree;
    hide Lists;
    ListsUpdate(l, tree, i, content);
    SortedUpdate(l, i, content);
    SortedIsListing(l[i := (l[i].0, content)], tree[l[i].0 := content]);
  }

  /** A change to the content of one file always changes the bytes. */
  lemma ContentIsHashed(naming: Naming, root: string, tree: Tree, p: Path, content: string)
    requires p in tree && tree[p] != content
    ensures TreeBytes(naming, root, tree[p := content]) != TreeBytes(naming, root, tree)
  {
    var l := Listing(tree);
    ListingLists(tree);
    var i: nat :| i < |l| && l[i].0 == p;
    UpdatedListing(tree, i, content);
    var r := Listing(tree[p := content]);
    BytesAt(naming, root, l, i);
    BytesAt(naming, root, r, i);
    hide Bytes, Listing, Lists, Show;
    assert l[..i] == r[..i] && l[i + 1..] == r[i + 1..];
    var before := Bytes(naming, root, l[..i]) + Show(naming, root, p);
    if Bytes(naming, root, l) == Bytes(naming, root, r) {
      Cancel(before, l[i].1, r[i].1, Bytes(naming, root, l[i + 1..]));
    }
  }

  /** The same files with the same sizes. */
  ghost predicate SameShape(t: Tree, t': Tree)
  {
    t.Keys == t'.Keys && forall p :: p in t && p in t' ==> |t[p]| == |t'[p]|
  }

  lemma {:induction false} SameShapeBytes(naming: Naming, root: string, l: Listed, r: Listed)
    requires |l| == |r| && Bytes(naming, root, l) == Bytes(naming, root, r)
    requires forall i :: 0 <= i < |l| ==> l[i].0 == r[i].0 && |l[i].1| == |r[i].1|
    ensures l == r
  {
    if l != [] {
      var n := |l| - 1;
      var shown := Show(naming, root, l[n].0);
      var a, b := Bytes(naming, root, l[..n]), Bytes(naming, root, r[..n]);
      assert a + shown + l[n].1 == b + shown + r[n].1;
      hide Show, Bytes;
      SameEnds(a + shown, l[n].1, b + shown, r[n].1);
      SameEnds(a, shown, b, shown);
      SameShapeBytes(naming, root, l[..n], r[..n]);
      assert l == l[..n] + [l[n]] && r == r[..n] + [r[n]];
    }
  }

  lemma SameEnds(a: string, x: string, b: string, y: string)
    requires a + x == b + y && |x| == |y|
    ensures a == b && x == y
  {
    assert a == (a + x)[..|a|] && b == (b + y)[..|b|];
    assert x == (a + x)[|a|..] && y == (b + y)[|b|..];
  }

  function UnwrapAt(tree: Tree, p: Path): string
  {
    if p in tree then tree[p] else ""
  }

  /** The same paths with the contents of another tree. */
  function Refilled(l: Listed, tree: Tree): (r: Listed)
    ensures |r| == |l|
  {
    seq(|l|, i requires 0 <= i < |l| => (l[i].0, UnwrapAt(tree, l[i].0)))
  }

  lemma RefilledLists(l: Listed, tree: Tree, tree': Tree)
    requires Lists(l, tree) && tree.Keys == tree'.Keys
    ensures Lists(Refilled(l, tree'), tree')
  {
    var r := Refilled(l, tree');
    forall k | 0 <= k < |r| ensures r[k].0 in tree' && tree'[r[k].0] == r[k].1
    {
      assert l[k].0 in tree.Keys;
    }
    forall q | q in tree' ensures exists k :: 0 <= k < |r| && r[k].0 == q
    {
      assert q in tree.Keys;
      var k :| 0 <= k < |l| && l[k].0 == q;
      assert r[k].0 == q;
    }
  }

  lemma RefilledSorted(l: Listed, tree: Tree)
    requires Sorted(ListedLe, l)
    ensures Sorted(ListedLe, Refilled(l, tree))
  {
    hide PathLe;
    var r := Refilled(l, tree);
    forall a, b | 0 <= a < b < |r| ensures ListedLe(r[a], r[b])
    {
      assert ListedLe(l[a], l[b]);
    }
  }

  lemma SamePaths(tree: Tree, tree': Tree)
    requires tree.Keys == tree'.Keys
    ensures Listing(tree') == Refilled(Listing(tree), tree')
  {
    hide Listing, PathLe, Sorted, ListedLe, Lists, Refilled;
    ListingLists(tree);
    ListingSorted(tree);
    RefilledLists(Listing(tree), tree, tree');
    RefilledSorted(Listing(tree), tree');
    SortedIsListing(Refilled(Listing(tree), tree'), tree');
  }

  lemma ListingDetermines(t: Tree, t': Tree)
    requires Listing(t) == Listing(t')
    ensures t == t'
  {
    ListingLists(t);
    ListingLists(t');
    hide Listing, DistinctPaths;
    forall p | p in t ensures p in t' && t[p] == t'[p]
    {
      var i :| 0 <= i < |Listing(t)| && Listing(t)[i].0 == p;
    }
    forall p | p in t' ensures p in t
    {
      var i :| 0 <= i < |Listing(t)| && Listing(t)[i].0 == p;
    }
  }

  lemma SameSizes(l: Listed, t: Tree, t': Tree)
    requires Lists(l, t) && SameShape(t, t')
    ensures forall i :: 0 <= i < |l| ==> |l[i].1| == |Refilled(l, t')[i].1|
  {
    forall i | 0 <= i < |l| ensures |l[i].1| == |Refilled(l, t')[i].1|
    {
      assert l[i].0 in t && l[i].0 in t.Keys && l[i].0 in t';
    }
  }

  /** Trees of one shape feed the same bytes exactly when they are equal. */
  lemma SameShapeSameBytesIff(naming: Naming, root: string, t: Tree, t': Tree)
    requires SameShape(t, t')
    ensures TreeBytes(naming, root, t) == TreeBytes(naming, root, t') <==> t == t'
  {
    if TreeBytes(naming, root, t) == TreeBytes(naming, root, t') {
      hide Bytes, Listing, Lists;
      ListingLists(t);
      SamePaths(t, t');
      SameSizes(Listing(t), t, t');
      SameShapeBytes(naming, root, Listing(t), Listing(t'));
      ListingDetermines(t, t');
    }
  }

  /**
   The shape is needed: names and contents are not framed, so a file that ends with the root, name
   and content of the next one feeds the same bytes as the two files.
   */
  lemma UnframedFilesMerge(root: string, first: string, second: string, content: string, next: string)
    requires LexLe(first, second) && first != second
    ensures TreeBytes(RootPrefixed, root, map[[first] := content, [second] := next])
            == TreeBytes(RootPrefixed, root, map[[first] := content + root + "/" + second + next])
  {
    var a, b := [first], [second];
    assert PathLe(a, b);
    assert JoinPath(a) == first && JoinPath(b) == second;
    hide PathLe, LexLe, JoinPath, TreeBytes;
    var merged := content + root + "/" + second + next;
    TreeBytesExact(RootPrefixed, root, map[], a, content);
    TreeBytesExact(RootPrefixed, root, map[], a, merged);
    var one: Tree := map[a := content];
    assert map[][a := content] == one && map[][a := merged] == map[a := merged];
    TreeBytesExact(RootPrefixed, root, one, b, next);
    assert one[b := next] == map[a := content, b := next];
    Merge(root + "/" + first, content, root, second, next);
    assert "" + (root + "/") == root + "/";
  }

  lemma Merge(a: string, content: string, root: string, second: string, next: string)
    ensures a + content + (root + "/") + second + next == a + (content + root + "/" + second + next)
  {
  }

  // ----- staging bytes and runtime bytes -----

  /** Bytes of a non-empty tree start with its root. */
  lemma {:induction false} BytesStartWithRoot(root: string, l: Listed)
    requires l != []
    ensures root + "/" <= Bytes(RootPrefixed, root, l)
  {
    var init := l[..|l| - 1];
    if init == [] {
      assert Bytes(RootPrefixed, root, init) == [];
      assert Bytes(RootPrefixed, root, l) == (root + "/") + (JoinPath(l[0].0) + l[0].1);
    } else {
      BytesStartWithRoot(root, init);
      assert Bytes(RootPrefixed, root, init) <= Bytes(RootPrefixed, root, l);
    }
  }

  lemma {:induction false} LongerRoot(root: string, other: string, l: Listed)
    requires |root| < |other|
    ensures |Bytes(RootPrefixed, root, l)| + (if l == [] then 0 else 1) <= |Bytes(RootPrefixed, other, l)|
  {
    if l != [] {
      hide JoinPath;
      LongerRoot(root, other, l[..|l| - 1]);
    }
  }

  lemma SamePrefix(root: string, other: string, bytes: string)
    requires |root| == |other| && root + "/" <= bytes && other + "/" <= bytes
    ensures root == other
  {
    assert root == (root + "/")[..|root|] == bytes[..|root|];
    assert other == (other + "/")[..|root|] == bytes[..|root|];
  }

  /** A non-empty tree feeds the same bytes to the hash under two roots exactly when the roots are the same. */
  lemma SameBytesSameRoot(root: string, other: string, tree: Tree)
    requires tree != map[]
    ensures TreeBytes(RootPrefixed, root, tree) == TreeBytes(RootPrefixed, other, tree) <==> root == other
  {
    var l := Listing(tree);
    hide Bytes, Listing;
    if TreeBytes(RootPrefixed, root, tree) == TreeBytes(RootPrefixed, other, tree) {
      if |root| < |other| {
        LongerRoot(root, other, l);
      } else if |other| < |root| {
        LongerRoot(other, root, l);
      }
      BytesStartWithRoot(root, l);
      BytesStartWithRoot(other, l);
      SamePrefix(root, other, Bytes(RootPrefixed, root, l));
    }
  }

  ghost predicate Separate(root: string, other: string)
  {
    !(root + "/" <= other + "/") && !(other + "/" <= root + "/")
  }

  lemma EqualBytesSameRoot(root: string, tree: Tree, other: string, otherTree: Tree)
    requires tree != map[]
    requires TreeBytes(RootPrefixed, root, tree) == TreeBytes(RootPrefixed, other, otherTree)
    ensures !Separate(root, other)
  {
    var bytes := TreeBytes(RootPrefixed, root, tree);
    BytesStartWithRoot(root, Listing(tree));
    BytesStartWithRoot(other, Listing(otherTree));
    assert root + "/" == bytes[..|root| + 1] && other + "/" == bytes[..|other| + 1];
  }

  /**
   With root-prefixed names, a non-empty tree under one root never has the bytes of any
   tree under a separate root, so the staging hash never equals a runtime hash.
   */
  lemma SeparateRootsDiffer(root: string, tree: Tree, other: string, otherTree: Tree)
    requires Separate(root, other) && tree != map[]
    ensures TreeBytes(RootPrefixed, root, tree) != TreeBytes(RootPrefixed, other, otherTree)
  {
    if TreeBytes(RootPrefixed, root, tree) == TreeBytes(RootPrefixed, other, otherTree) {
      EqualBytesSameRoot(root, tree, other, otherTree);
    }
  }

  /** The default directories of the daemon are separate. */
  lemma DefaultRootsSeparate()
    ensures Separate("/etc/nginx-admin/staging", "/etc/nginx-admin/generated")
  {
    var s, g := "/etc/nginx-admin/staging/", "/etc/nginx-admin/generated/";
    assert s[17] != g[17];
    assert "/etc/nginx-admin/staging" + "/" == s && "/etc/nginx-admin/generated" + "/" == g;
  }
}
