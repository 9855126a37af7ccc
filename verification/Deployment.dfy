/** The control loop with the real renderer, validation and directory hash in it. */
module Deployment {
  import opened Base
  import opened ConfigHash
  import opened Model
  import opened Ordering
  import opened Protocol
  import opened ProtocolRuns
  import opened ProtocolSkip
  import Renderer
  import Validation

  /** `drift_reason` for the runtime directory at `root`. */
  function DriftReason(root: string, expected: Option<string>, actual: Option<string>): string
  {
    match (expected, actual)
    case (_, None) => "runtime output is missing: " + root
    case (None, Some(a)) =>
      "runtime output exists but no activeConfigHash has been observed yet: activeConfigHash=" + a
    case (Some(e), Some(a)) =>
      "active runtime hash differs from observed hash: expected activeConfigHash=" + e
      + ", actual activeConfigHash=" + a
  }

  /** The reason of a drift says which of the hashes was expected and which was found, or that nothing was. */
  lemma DriftReasonExact(root: string, expected: string, actual: string)
    ensures DriftReason(root, Some(expected), None) == DriftReason(root, None, None)
            == "runtime output is missing: " + root
    ensures DriftReason(root, None, Some(actual))
            == "runtime output exists but no activeConfigHash has been observed yet: activeConfigHash=" + actual
    ensures var r := DriftReason(root, Some(expected), Some(actual));
            && "active runtime hash differs from observed hash: expected activeConfigHash=" + expected <= r
            && |r| >= |actual| && r[|r| - |actual|..] == actual
  {
    Around("active runtime hash differs from observed hash: expected activeConfigHash=" + expected,
           ", actual activeConfigHash=", actual);
  }

  lemma Around(before: string, middle: string, after: string)
    ensures var r := before + middle + after; before <= r && r[|r| - |after|..] == after
  {
  }

  datatype Settings = Settings(dryRun: bool, stagingRoot: string, runtimeRoot: string)

  /** `hash` is the hash of the collected bytes; the daemon names files with their root. */
  function Deployed(hash: string -> string, naming: Naming, settings: Settings): Config
  {
    Config(settings.dryRun, settings.stagingRoot, settings.runtimeRoot,
           (root: string, tree: Tree) => hash(TreeBytes(naming, root, tree)),
           (st: ControlPlaneState) => Renderer.Render(st),
           (st: ControlPlaneState) => Validation.ValidState(st),
           (expected: Option<string>, actual: Option<string>) => DriftReason(settings.runtimeRoot, expected, actual))
  }

  lemma DeployedReason(hash: string -> string, naming: Naming, settings: Settings, expected: Option<string>,
                       actual: Option<string>)
    ensures Deployed(hash, naming, settings).driftReason(expected, actual)
            == DriftReason(settings.runtimeRoot, expected, actual)
  {
    hide DriftReason;
  }

  /** Two different texts with the same hash. */
  ghost predicate Collide(hash: string -> string, a: string, b: string)
  {
    a != b && hash(a) == hash(b)
  }

  /** Every state in memory and on disk meets the specification of `validate_state`, in every history. */
  lemma StatesAlwaysValid(hash: string -> string, naming: Naming, settings: Settings, tr: seq<Sys>,
                          acts: seq<Action>, i: nat)
    requires History(Deployed(hash, naming, settings), tr, acts) && i < |tr|
    ensures Validation.ValidState(tr[i].mem) && Validation.ValidState(tr[i].disk)
  {
    HistoryInv(Deployed(hash, naming, settings), tr, acts, i);
  }

  function StagingBytes(settings: Settings, st: ControlPlaneState): string
  {
    TreeBytes(RootPrefixed, settings.stagingRoot, Renderer.Render(st))
  }

  /**
   With roots of which neither contains the other, a comparison that does not report drift, and so
   every skip, exhibits a collision of the hash: the staging bytes of the state applied last and
   the bytes of the runtime directory.
   */
  lemma NoDriftNeedsCollision(hash: string -> string, settings: Settings, tr: seq<Sys>, acts: seq<Action>, i: nat)
    returns (st: ControlPlaneState)
    requires Separate(settings.stagingRoot, settings.runtimeRoot)
    requires History(Deployed(hash, RootPrefixed, settings), tr, acts)
    requires i < |acts| && Compares(tr[i], acts[i])
    ensures !(tr[i + 1].rec.At? && tr[i + 1].rec.stage.MarkDrift?) ==>
              && LastApplied(tr, acts, i, st) && tr[i].runtime.Some?
              && Collide(hash, StagingBytes(settings, st),
                         TreeBytes(RootPrefixed, settings.runtimeRoot, tr[i].runtime.value))
  {
    var cfg := Deployed(hash, RootPrefixed, settings);
    DriftIff(cfg, tr, acts, i);
    hide TreeBytes, Renderer.Render, LastApplied, Compares, Next, Enabled;
    st := tr[i].mem;
    if RuntimeIsAsApplied(cfg, tr, acts, i) {
      st :| LastApplied(tr, acts, i, st) && HashesMeet(cfg, st, tr[i].runtime);
      NeverEmpty(st);
      SeparateRootsDiffer(settings.stagingRoot, Renderer.Render(st), settings.runtimeRoot, tr[i].runtime.value);
    }
  }

  /** So without collisions the daemon never reaches "already in sync": every comparison reports drift. */
  lemma DaemonNeverSkips(hash: string -> string, settings: Settings, tr: seq<Sys>, acts: seq<Action>, i: nat)
    requires Separate(settings.stagingRoot, settings.runtimeRoot)
    requires History(Deployed(hash, RootPrefixed, settings), tr, acts)
    requires i < |acts| && Compares(tr[i], acts[i])
    requires forall st, tree: Tree ::
               !Collide(hash, StagingBytes(settings, st), TreeBytes(RootPrefixed, settings.runtimeRoot, tree))
    ensures tr[i + 1].rec.At? && tr[i + 1].rec.stage.MarkDrift?
  {
    hide Collide, StagingBytes, TreeBytes, Compares, LastApplied;
    var st := NoDriftNeedsCollision(hash, settings, tr, acts, i);
  }

  /**
   The daemon's two hashes of a rendering agree, which makes reconciling a converged daemon a no-op
   (`ProtocolSkip.IdempotentIff`), exactly when it renders in the runtime directory itself or the
   hash collides on the two byte sequences.
   */
  lemma HashesMeetIff(hash: string -> string, settings: Settings, st: ControlPlaneState)
    ensures HashesMeet(Deployed(hash, RootPrefixed, settings), st, Some(Renderer.Render(st))) <==>
              || settings.stagingRoot == settings.runtimeRoot
              || Collide(hash, StagingBytes(settings, st),
                         TreeBytes(RootPrefixed, settings.runtimeRoot, Renderer.Render(st)))
  {
    hide TreeBytes, Renderer.RenderViews;
    NeverEmpty(st);
    SameBytesSameRoot(settings.stagingRoot, settings.runtimeRoot, Renderer.Render(st));
  }

  lemma NeverEmpty(st: ControlPlaneState)
    ensures Renderer.Render(st) != map[]
  {
    assert Renderer.ROOT_PATH in Renderer.Render(st);
  }

  lemma RelativeBytesIgnoreRoot(root: string, other: string, l: Listed)
    ensures Bytes(RootRelative, root, l) == Bytes(RootRelative, other, l)
  {
  }

  /**
   Had the hash used root-relative names, it would not depend on the root, for any hash function
   and any roots; `ProtocolSkip.RootFreeHashIsIdempotent` then makes reconciling a no-op.
   */
  lemma RelativeNamesAreRootFree(hash: string -> string, settings: Settings)
    ensures RootFree(Deployed(hash, RootRelative, settings))
  {
    var cfg := Deployed(hash, RootRelative, settings);
    forall tree: Tree ensures cfg.digest(cfg.stagingRoot, tree) == cfg.digest(cfg.runtimeRoot, tree)
    {
      RelativeBytesIgnoreRoot(settings.stagingRoot, settings.runtimeRoot, Listing(tree));
      assert TreeBytes(RootRelative, settings.stagingRoot, tree) == TreeBytes(RootRelative, settings.runtimeRoot, tree);
    }
  }

  /** A changed content of one runtime file changes the runtime hash, unless the hash collides. */
  lemma ChangedContentIsSeen(hash: string -> string, naming: Naming, settings: Settings, tree: Tree, p: Path,
                             content: string)
    requires p in tree && tree[p] != content
    ensures var cfg := Deployed(hash, naming, settings); var root := settings.runtimeRoot;
            RuntimeHash(cfg, Some(tree[p := content])) == RuntimeHash(cfg, Some(tree)) <==>
              Collide(hash, TreeBytes(naming, root, tree[p := content]), TreeBytes(naming, root, tree))
  {
    hide TreeBytes;
    ContentIsHashed(naming, settings.runtimeRoot, tree, p, content);
  }

  /** But two files merged into one can go unseen, whatever the hash. */
  lemma MergedFilesGoUnseen(hash: string -> string, settings: Settings, first: string, second: string,
                            content: string, next: string)
    requires LexLe(first, second) && first != second
    ensures var cfg := Deployed(hash, RootPrefixed, settings); var root := settings.runtimeRoot;
            RuntimeHash(cfg, Some(map[[first] := content, [second] := next]))
            == RuntimeHash(cfg, Some(map[[first] := content + root + "/" + second + next]))
  {
    hide TreeBytes;
    UnframedFilesMerge(settings.runtimeRoot, first, second, content, next);
  }
}
