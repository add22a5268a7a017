/** The two size-accounting loops over a tree: storage statistics and the artifact manifest.

    A tree entry carries the size the listing reports and the bytes a read of its path returns. */
module Accounting {
  import opened Prelude
  import opened Tally
  import LfsPointer
  import Arachne
  import Keyset
  import Listings

  const SMALL_FILE_BYTES: nat := 1024
  const INSPECTION_MAX: nat := 256 * 1024

  datatype Entry = Entry(path: string, size: nat, content: string, conflicted: bool)

  datatype Class = Class(role: string, format: string, family: string)

  datatype LargeFile = LargeFile(path: string, logicalBytes: nat, pointerBytes: nat, oid: string, arachneHash: string)

  datatype Stats = Stats(
    gitTreeBytes: nat, logicalBytes: nat, arachneFiles: nat, arachneLogicalBytes: nat, largeFiles: seq<LargeFile>)

  datatype Artifact = Artifact(
    path: string, kind: Class, size: nat, storage: string, oid: string, arachneHash: string, conflicted: bool)

  datatype Manifest = Manifest(
    totalFiles: nat, totalBytes: nat, arachneFiles: nat,
    roles: map<string, nat>, formats: map<string, nat>, artifacts: seq<Artifact>)

  function SaturatingSub(a: nat, b: nat): nat { if a >= b then a - b else 0 }

  // ---------------------------------------------------------------- sums

  function Stored(tree: seq<Entry>): nat {
    if tree == [] then 0 else tree[0].size + Stored(tree[1..])
  }

  predicate IsPointer(e: Entry) { LfsPointer.Parsed(e.content).Ok? }

  function PointerSize(e: Entry): nat
    requires IsPointer(e)
  {
    LfsPointer.Parsed(e.content).value.size
  }

  /** Small enough to be looked at, and a pointer. */
  predicate Counted(e: Entry) { e.size <= SMALL_FILE_BYTES && IsPointer(e) }

  /** The logical size of a file: what its pointer says, when the file is small enough to be looked at. */
  function LogicalSize(e: Entry): nat {
    if Counted(e) then PointerSize(e) else e.size
  }

  function Logical(tree: seq<Entry>): nat {
    if tree == [] then 0 else LogicalSize(tree[0]) + Logical(tree[1..])
  }

  function Pointers(tree: seq<Entry>): seq<Entry> {
    if tree == [] then []
    else (if Counted(tree[0]) then [tree[0]] else []) + Pointers(tree[1..])
  }

  // ---------------------------------------------------------------- storage statistics

  function StatsStep(logical: nat, e: Entry): nat {
    if Counted(e) then SaturatingAdd(SaturatingSub(logical, e.size), PointerSize(e)) else logical
  }

  function Large(e: Entry): LargeFile
    requires IsPointer(e)
  {
    var p := LfsPointer.Parsed(e.content).value;
    LargeFile(e.path, p.size, e.size, p.oid, p.arachneHash)
  }

  function StatsWalk(logical: nat, tree: seq<Entry>): nat
    decreases |tree|
  {
    if tree == [] then logical else StatsWalk(StatsStep(logical, tree[0]), tree[1..])
  }

  function LargeFiles(tree: seq<Entry>): seq<LargeFile> {
    if tree == [] then []
    else (if Counted(tree[0]) then [Large(tree[0])] else []) + LargeFiles(tree[1..])
  }

  /** `u64` addition over an iterator wraps in a release build. */
  method SumSizes(tree: seq<Entry>) returns (total: nat)
    ensures total == Stored(tree) % (U64_MAX + 1)
  {
    total := 0;
    for i := 0 to |tree|
      invariant total < U64_MAX + 1
      invariant (total + Stored(tree[i..])) % (U64_MAX + 1) == Stored(tree) % (U64_MAX + 1)
    {
      assert tree[i..][0] == tree[i] && tree[i..][1..] == tree[i + 1..];
      WrapOnce(total + tree[i].size, Stored(tree[i + 1..]));
      total := (total + tree[i].size) % (U64_MAX + 1);
    }
  }

  lemma {:induction false} WrapOnce(a: nat, b: nat)
    ensures (a % (U64_MAX + 1) + b) % (U64_MAX + 1) == (a + b) % (U64_MAX + 1)
  {
    var m := U64_MAX + 1;
    assert a == m * (a / m) + a % m;
    var q, r := (a % m + b) / m, (a % m + b) % m;
    assert a + b == m * (a / m + q) + r;
  }

  method StorageStats(tree: seq<Entry>) returns (s: Stats)
    ensures s.gitTreeBytes == Stored(tree) % (U64_MAX + 1)
    ensures s.logicalBytes == StatsWalk(s.gitTreeBytes, tree)
    ensures s.largeFiles == LargeFiles(tree)
    ensures s.arachneFiles == |Pointers(tree)|
    ensures s.arachneLogicalBytes == Min(Logical(Pointers(tree)), U64_MAX)
  {
    hide LfsPointer.Parsed, StatsWalk, LargeFiles, Pointers, Logical, SaturatingAdd;
    var git := SumSizes(tree);
    var logical := git;
    var arachne: nat := 0;
    var large: seq<LargeFile> := [];
    SatSumStart(Pointers(tree));
    assert tree[0..] == tree;
    for i := 0 to |tree|
      invariant StatsWalk(git, tree) == StatsWalk(logical, tree[i..])
      invariant LargeFiles(tree) == large + LargeFiles(tree[i..])
      invariant |Pointers(tree)| == |large| + |Pointers(tree[i..])|
      invariant arachne <= U64_MAX
      invariant Min(Logical(Pointers(tree)), U64_MAX) == SaturatingAdd(arachne, Logical(Pointers(tree[i..])))
    {
      var entry := tree[i];
      Unroll(tree, i, logical);
      if entry.size > SMALL_FILE_BYTES {
        continue;
      }
      var parsed := LfsPointer.Parse(entry.content);
      if parsed.Err? {
        continue;
      }
      var pointer := parsed.value;
      SatTwice(arachne, pointer.size, Logical(Pointers(tree[i + 1..])));
      logical := SaturatingAdd(SaturatingSub(logical, entry.size), pointer.size);
      arachne := SaturatingAdd(arachne, pointer.size);
      large := large + [LargeFile(entry.path, pointer.size, entry.size, pointer.oid, pointer.arachneHash)];
    }
    Finished(tree, logical, arachne);
    return Stats(git, logical, |large|, arachne, large);
  }

  lemma {:induction false} Unroll(tree: seq<Entry>, i: nat, logical: nat)
    requires i < |tree|
    ensures var e, rest := tree[i], tree[i + 1..];
            && StatsWalk(logical, tree[i..]) == StatsWalk(StatsStep(logical, e), rest)
            && LargeFiles(tree[i..]) == (if Counted(e) then [Large(e)] else []) + LargeFiles(rest)
            && |Pointers(tree[i..])| == (if Counted(e) then 1 else 0) + |Pointers(rest)|
            && Logical(Pointers(tree[i..])) == (if Counted(e) then PointerSize(e) else 0) + Logical(Pointers(rest))
  {
    hide Counted, StatsStep;
    assert tree[i..][0] == tree[i] && tree[i..][1..] == tree[i + 1..];
    var rest := Pointers(tree[i + 1..]);
    assert [] + rest == rest;
    LogicalOfCons(tree[i], rest);
  }

  lemma {:induction false} SatTwice(a: nat, b: nat, c: nat)
    ensures SaturatingAdd(SaturatingAdd(a, b), c) == SaturatingAdd(a, b + c) && SaturatingAdd(a, b) <= U64_MAX
  {
  }

  lemma {:induction false} Finished(tree: seq<Entry>, logical: nat, arachne: nat)
    ensures StatsWalk(logical, tree[|tree|..]) == logical && LargeFiles(tree[|tree|..]) == []
    ensures Pointers(tree[|tree|..]) == [] && SaturatingAdd(arachne, Logical([])) == Min(arachne, U64_MAX)
  {
  }

  lemma {:induction false} SatSumStart(tree: seq<Entry>)
    ensures Min(Logical(tree), U64_MAX) == SaturatingAdd(0, Logical(tree))
  {
  }

  lemma {:induction false} LogicalOfCons(e: Entry, rest: seq<Entry>)
    ensures Logical([e] + rest) == LogicalSize(e) + Logical(rest)
    ensures Counted(e) ==> LogicalSize(e) == PointerSize(e)
  {
    assert ([e] + rest)[1..] == rest;
  }

  /** The true size after the first `k` files have been exchanged for what they stand for. */
  function Hybrid(tree: seq<Entry>, k: nat): nat
    requires k <= |tree|
  {
    Logical(tree[..k]) + Stored(tree[k..])
  }

  ghost predicate Fits(done: nat, tree: seq<Entry>) {
    forall k :: 0 <= k <= |tree| ==> done + Hybrid(tree, k) <= U64_MAX
  }

  lemma {:induction false} HybridCons(tree: seq<Entry>, k: nat)
    requires 0 < k <= |tree|
    ensures Hybrid(tree, k) == LogicalSize(tree[0]) + Hybrid(tree[1..], k - 1)
  {
    assert tree[..k] == [tree[0]] + tree[1..][..k - 1];
    LogicalOfCons(tree[0], tree[1..][..k - 1]);
    assert tree[k..] == tree[1..][k - 1..];
  }

  lemma {:induction false} HybridStart(tree: seq<Entry>)
    ensures Hybrid(tree, 0) == Stored(tree)
  {
    assert tree[..0] == [] && tree[0..] == tree;
  }

  lemma {:induction false} HybridEnd(tree: seq<Entry>)
    ensures Hybrid(tree, |tree|) == Logical(tree)
  {
    hide Logical;
    assert tree[..|tree|] == tree && tree[|tree|..] == [];
    assert Stored([]) == 0;
  }

  lemma {:induction false} FitsCons(done: nat, tree: seq<Entry>)
    requires tree != []
    ensures Fits(done, tree) <==> done + Stored(tree) <= U64_MAX && Fits(done + LogicalSize(tree[0]), tree[1..])
  {
    HybridStart(tree);
    forall k | 0 < k <= |tree|
      ensures done + Hybrid(tree, k) == done + LogicalSize(tree[0]) + Hybrid(tree[1..], k - 1)
    {
      HybridCons(tree, k);
    }
    if Fits(done + LogicalSize(tree[0]), tree[1..]) && done + Stored(tree) <= U64_MAX {
      forall k | 0 <= k <= |tree| ensures done + Hybrid(tree, k) <= U64_MAX {
        if k > 0 {
          assert done + LogicalSize(tree[0]) + Hybrid(tree[1..], k - 1) <= U64_MAX;
        }
      }
    }
    if Fits(done, tree) {
      forall k | 0 <= k <= |tree[1..]| ensures done + LogicalSize(tree[0]) + Hybrid(tree[1..], k) <= U64_MAX {
        assert done + Hybrid(tree, k + 1) <= U64_MAX;
      }
    }
  }

  /** Without saturation the walk keeps the hybrid size exactly. */
  lemma {:induction false} WalkExact(done: nat, tree: seq<Entry>)
    requires Fits(done, tree)
    ensures StatsWalk(done + Stored(tree), tree) == done + Logical(tree)
    decreases |tree|
  {
    hide LfsPointer.Parsed;
    if tree != [] {
      FitsCons(done, tree);
      HybridStart(tree[1..]);
      assert done + LogicalSize(tree[0]) + Hybrid(tree[1..], 0) <= U64_MAX;
      WalkExact(done + LogicalSize(tree[0]), tree[1..]);
    }
  }

  /** Once the walk has fallen below the hybrid size with something already counted, it never catches up. */
  lemma {:induction false} WalkStaysShort(done: nat, value: nat, tree: seq<Entry>)
    requires done > 0 && value < done + Stored(tree)
    ensures StatsWalk(value, tree) < done + Logical(tree)
    decreases |tree|
  {
    hide LfsPointer.Parsed;
    if tree != [] {
      WalkStaysShort(done + LogicalSize(tree[0]), StatsStep(value, tree[0]), tree[1..]);
    }
  }

  lemma {:induction false} WalkSaturates(done: nat, tree: seq<Entry>)
    requires done + Stored(tree) <= U64_MAX && !Fits(done, tree)
    ensures StatsWalk(done + Stored(tree), tree) < done + Logical(tree)
    decreases |tree|
  {
    hide LfsPointer.Parsed;
    if tree == [] {
      HybridStart(tree);
      assert false;
    }
    FitsCons(done, tree);
    var next := done + LogicalSize(tree[0]);
    if next + Stored(tree[1..]) <= U64_MAX {
      WalkSaturates(next, tree[1..]);
    } else {
      WalkStaysShort(next, StatsStep(done + Stored(tree), tree[0]), tree[1..]);
    }
  }

  /** The reported sizes are the true ones exactly when every intermediate size fits `u64`: otherwise the sum
      wrapped or a saturating step fired. */
  lemma {:induction false} StatsExact(tree: seq<Entry>)
    ensures var git := Stored(tree) % (U64_MAX + 1);
            git == Stored(tree) && StatsWalk(git, tree) == Logical(tree)
            <==> forall k :: 0 <= k <= |tree| ==> Hybrid(tree, k) <= U64_MAX
  {
    hide StatsWalk, Hybrid, Stored, Logical;
    HybridStart(tree);
    if Stored(tree) <= U64_MAX {
      assert Fits(0, tree) <==> forall k :: 0 <= k <= |tree| ==> Hybrid(tree, k) <= U64_MAX;
      if Fits(0, tree) {
        WalkExact(0, tree);
      } else {
        WalkSaturates(0, tree);
      }
    } else {
      assert Hybrid(tree, 0) > U64_MAX;
    }
  }

  function Maxima(tree: seq<Entry>): nat {
    if tree == [] then 0
    else (if tree[0].size >= LogicalSize(tree[0]) then tree[0].size else LogicalSize(tree[0])) + Maxima(tree[1..])
  }

  lemma {:induction false} MaximaBoundHybrids(tree: seq<Entry>, k: nat)
    requires k <= |tree|
    ensures Hybrid(tree, k) <= Maxima(tree)
    decreases |tree|
  {
    HybridStart(tree);
    if tree != [] {
      HybridStart(tree[1..]);
      MaximaBoundHybrids(tree[1..], if k == 0 then 0 else k - 1);
      if k > 0 {
        HybridCons(tree, k);
      }
    }
  }

  /** A condition on the tree alone under which no step saturates. */
  lemma {:induction false} StatsExactWhenMaximaFit(tree: seq<Entry>)
    ensures Maxima(tree) <= U64_MAX
            ==> Stored(tree) <= U64_MAX && StatsWalk(Stored(tree) % (U64_MAX + 1), tree) == Logical(tree)
  {
    hide StatsWalk, Hybrid, Stored, Logical, Maxima;
    forall k | 0 <= k <= |tree| ensures Hybrid(tree, k) <= Maxima(tree) {
      MaximaBoundHybrids(tree, k);
    }
    HybridStart(tree);
    StatsExact(tree);
  }

  // ---------------------------------------------------------------- artifact manifest

  predicate Inspected(kind: Class) { kind.role in ["card", "model_config", "dataset_schema", "evaluation"] }

  predicate ShouldRead(kind: Class, e: Entry) {
    e.size <= SMALL_FILE_BYTES || (Inspected(kind) && e.size <= INSPECTION_MAX)
  }

  function ArtifactOf(sha: string -> string, classify: string -> Class, e: Entry): Artifact {
    var kind := classify(e.path);
    if ShouldRead(kind, e) && IsPointer(e) then
      var p := LfsPointer.Parsed(e.content).value;
      Artifact(e.path, kind, p.size, "arachne", p.oid, p.arachneHash, e.conflicted)
    else if ShouldRead(kind, e) then Artifact(e.path, kind, e.size, "git", sha(e.content), "", e.conflicted)
    else Artifact(e.path, kind, e.size, "git", "", "", e.conflicted)
  }

  function Artifacts(sha: string -> string, classify: string -> Class, tree: seq<Entry>): seq<Artifact> {
    seq(|tree|, i requires 0 <= i < |tree| => ArtifactOf(sha, classify, tree[i]))
  }

  datatype ArtifactKey = ArtifactKey(size: nat, path: string)

  predicate ListedBefore(a: ArtifactKey, b: ArtifactKey) {
    a.size > b.size || (a.size == b.size && Listings.LexLess(a.path, b.path))
  }

  const ARTIFACT_ORDER: Keyset.Order<Artifact, ArtifactKey> :=
    Keyset.Order((a: Artifact) => ArtifactKey(a.size, a.path), ListedBefore)

  lemma {:induction false} ListingOrderIsTotal()
    ensures Keyset.StrictTotal(ARTIFACT_ORDER.before)
  {
    forall a: ArtifactKey, b: ArtifactKey ensures a == b || ListedBefore(a, b) || ListedBefore(b, a) {
      Listings.LexTotal(a.path, b.path);
    }
    forall a: ArtifactKey ensures !ListedBefore(a, a) {
      Listings.LexTotal(a.path, a.path);
    }
    forall a: ArtifactKey, b: ArtifactKey, c: ArtifactKey | ListedBefore(a, b) && ListedBefore(b, c)
      ensures ListedBefore(a, c)
    {
      if Listings.LexLess(a.path, b.path) && Listings.LexLess(b.path, c.path) {
        Listings.LexTransitive(a.path, b.path, c.path);
      }
    }
  }

  lemma {:induction false} UniquePathsUniqueKeys(sha: string -> string, classify: string -> Class, tree: seq<Entry>)
    requires forall i, j :: 0 <= i < j < |tree| ==> tree[i].path != tree[j].path
    ensures Keyset.Distinct(Artifacts(sha, classify, tree), ARTIFACT_ORDER)
  {
    hide LfsPointer.Parsed;
    var all := Artifacts(sha, classify, tree);
    forall i, j | 0 <= i < j < |all| ensures ARTIFACT_ORDER.key(all[i]) != ARTIFACT_ORDER.key(all[j]) {
      assert all[i].path == tree[i].path && all[j].path == tree[j].path;
    }
  }

  /** The manifest lists every file once, largest first and by path among equals, when paths are unique. */
  lemma {:induction false} ManifestListsEveryFile(sha: string -> string, classify: string -> Class, tree: seq<Entry>)
    ensures var all := Artifacts(sha, classify, tree);
            && multiset(Keyset.Sort(all, ARTIFACT_ORDER)) == multiset(all)
            && ((forall i, j :: 0 <= i < j < |tree| ==> tree[i].path != tree[j].path)
                ==> LargestFirst(Keyset.Sort(all, ARTIFACT_ORDER)))
  {
    hide Artifacts, LargestFirst, Keyset.Sort, Keyset.Distinct, Keyset.Ascending;
    var all := Artifacts(sha, classify, tree);
    Keyset.SortPermutes(all, ARTIFACT_ORDER);
    if forall i, j :: 0 <= i < j < |tree| ==> tree[i].path != tree[j].path {
      ListingOrderIsTotal();
      UniquePathsUniqueKeys(sha, classify, tree);
      Keyset.SortSorts(all, ARTIFACT_ORDER);
      AscendingIsLargestFirst(Keyset.Sort(all, ARTIFACT_ORDER));
    }
  }

  /** Largest first; files of the same size by ascending path. */
  ghost predicate LargestFirst(artifacts: seq<Artifact>) {
    forall i, j :: 0 <= i < j < |artifacts| ==>
      && artifacts[i].size >= artifacts[j].size
      && (artifacts[i].size == artifacts[j].size ==> Listings.TextLess(artifacts[i].path, artifacts[j].path))
  }

  lemma {:induction false} AscendingIsLargestFirst(artifacts: seq<Artifact>)
    requires Keyset.Ascending(artifacts, ARTIFACT_ORDER)
    ensures LargestFirst(artifacts)
  {
    hide Listings.TextLess, Listings.LexLess;
    forall i, j | 0 <= i < j < |artifacts|
      ensures artifacts[i].size >= artifacts[j].size
      ensures artifacts[i].size == artifacts[j].size ==> Listings.TextLess(artifacts[i].path, artifacts[j].path)
    {
      var a, b := artifacts[i], artifacts[j];
      assert ListedBefore(ArtifactKey(a.size, a.path), ArtifactKey(b.size, b.path));
      Listings.LexIsTextOrder(a.path, b.path);
    }
  }

  function TotalSize(artifacts: seq<Artifact>): nat
    decreases |artifacts|
  {
    if artifacts == [] then 0 else TotalSize(artifacts[..|artifacts| - 1]) + artifacts[|artifacts| - 1].size
  }

  function InArachne(artifacts: seq<Artifact>): nat
    decreases |artifacts|
  {
    if artifacts == [] then 0
    else InArachne(artifacts[..|artifacts| - 1]) + if artifacts[|artifacts| - 1].storage == "arachne" then 1 else 0
  }

  function Roles(classify: string -> Class, tree: seq<Entry>): seq<string> {
    seq(|tree|, i requires 0 <= i < |tree| => classify(tree[i].path).role)
  }

  function Formats(classify: string -> Class, tree: seq<Entry>): seq<string> {
    seq(|tree|, i requires 0 <= i < |tree| => classify(tree[i].path).format)
  }

  method ArtifactManifest(sha: string -> string, classify: string -> Class, tree: seq<Entry>) returns (m: Manifest)
    ensures m.totalFiles == |tree|
    ensures m.artifacts == Keyset.Sort(Artifacts(sha, classify, tree), ARTIFACT_ORDER)
    ensures m.totalBytes == Min(TotalSize(Artifacts(sha, classify, tree)), U64_MAX)
    ensures m.arachneFiles == InArachne(Artifacts(sha, classify, tree))
    ensures Tallies(m.roles, Roles(classify, tree)) && SumCounts(m.roles) == m.totalFiles
    ensures Tallies(m.formats, Formats(classify, tree)) && SumCounts(m.formats) == m.totalFiles
  {
    hide LfsPointer.Parsed, Artifacts, Roles, Formats, Tallies, SumCounts, Count, TotalSize, InArachne;
    var artifacts: seq<Artifact> := [];
    var total: nat := 0;
    var arachneFiles: nat := 0;
    var roles: map<string, nat>, formats: map<string, nat> := map[], map[];
    ManifestStart(sha, classify, tree);
    for i := 0 to |tree|
      invariant artifacts == Artifacts(sha, classify, tree[..i]) && |artifacts| == i
      invariant total == Min(TotalSize(artifacts), U64_MAX)
      invariant arachneFiles == InArachne(artifacts)
      invariant Tallies(roles, Roles(classify, tree[..i])) && SumCounts(roles) == i
      invariant Tallies(formats, Formats(classify, tree[..i])) && SumCounts(formats) == i
    {
      var entry := tree[i];
      var kind := classify(entry.path);
      var logical, storage, oid, arachneHash := entry.size, "git", "", "";
      if entry.size <= SMALL_FILE_BYTES || (Inspected(kind) && entry.size <= INSPECTION_MAX) {
        var parsed := LfsPointer.Parse(entry.content);
        if parsed.Ok? {
          logical, storage := parsed.value.size, "arachne";
          oid, arachneHash := parsed.value.oid, parsed.value.arachneHash;
          arachneFiles := arachneFiles + 1;
        } else {
          oid := sha(entry.content);
        }
      }
      var artifact := Artifact(entry.path, kind, logical, storage, oid, arachneHash, entry.conflicted);
      ManifestStep(sha, classify, tree, i);
      ArtifactSnoc(artifacts, artifact);
      TallyOneMore(roles, Roles(classify, tree[..i]), kind.role);
      TallyOneMore(formats, Formats(classify, tree[..i]), kind.format);
      roles, formats := Count(roles, kind.role), Count(formats, kind.format);
      SatTwice(0, TotalSize(artifacts), logical);
      total := SaturatingAdd(total, logical);
      artifacts := artifacts + [artifact];
    }
    assert tree[..|tree|] == tree;
    return Manifest(|artifacts|, total, arachneFiles, roles, formats, Keyset.Sort(artifacts, ARTIFACT_ORDER));
  }

  lemma {:induction false} ManifestStart(sha: string -> string, classify: string -> Class, tree: seq<Entry>)
    ensures Artifacts(sha, classify, tree[..0]) == [] && TotalSize([]) == 0 && InArachne([]) == 0
    ensures Tallies(map[], Roles(classify, tree[..0])) && Tallies(map[], Formats(classify, tree[..0]))
    ensures SumCounts(map[]) == 0
  {
  }

  lemma {:induction false} ManifestStep(sha: string -> string, classify: string -> Class, tree: seq<Entry>, i: nat)
    requires i < |tree|
    ensures Artifacts(sha, classify, tree[..i + 1])
         == Artifacts(sha, classify, tree[..i]) + [ArtifactOf(sha, classify, tree[i])]
    ensures Roles(classify, tree[..i + 1]) == Roles(classify, tree[..i]) + [classify(tree[i].path).role]
    ensures Formats(classify, tree[..i + 1]) == Formats(classify, tree[..i]) + [classify(tree[i].path).format]
  {
    hide ArtifactOf;
  }

  lemma {:induction false} ArtifactSnoc(artifacts: seq<Artifact>, a: Artifact)
    ensures TotalSize(artifacts + [a]) == TotalSize(artifacts) + a.size
    ensures InArachne(artifacts + [a]) == InArachne(artifacts) + if a.storage == "arachne" then 1 else 0
  {
    var all := artifacts + [a];
    assert all[..|all| - 1] == artifacts;
  }

  // ---------------------------------------------------------------- columns

  /** The size a file is accounted at: its pointer's, if it has at most 1024 bytes and parses, else its own. */
  lemma {:induction false} LogicalSizeExactly(e: Entry)
    ensures LogicalSize(e) == if e.size <= 1024 && LfsPointer.Parsed(e.content).Ok?
                              then LfsPointer.Parsed(e.content).value.size else e.size
  {
    hide LfsPointer.Parsed;
  }

  /** The large-file list: the pointer files of at most 1024 bytes, in tree order, with their paths, the size each
      stands for, the size each has, and the two hashes. */
  lemma {:induction false} LargeFilesExactly(tree: seq<Entry>)
    ensures |LargeFiles(tree)| == |Pointers(tree)|
    ensures forall i :: 0 <= i < |Pointers(tree)| ==>
              var e, l := Pointers(tree)[i], LargeFiles(tree)[i];
              && e in tree && e.size <= 1024 && LfsPointer.Parsed(e.content).Ok?
              && var p := LfsPointer.Parsed(e.content).value;
                 l == LargeFile(e.path, p.size, e.size, p.oid, p.arachneHash)
    ensures forall e :: e in tree && e.size <= 1024 && LfsPointer.Parsed(e.content).Ok? ==> e in Pointers(tree)
    decreases |tree|
  {
    hide LfsPointer.Parsed;
    if tree != [] {
      LargeFilesExactly(tree[1..]);
      assert tree == [tree[0]] + tree[1..];
    }
  }

  /** An entry of the manifest. */
  lemma {:induction false} ArtifactExactly(sha: string -> string, classify: string -> Class, e: Entry)
    ensures var a, kind, parsed := ArtifactOf(sha, classify, e), classify(e.path), LfsPointer.Parsed(e.content);
            var looked := e.size <= 1024
                          || (e.size <= 262_144
                              && (kind.role == "card" || kind.role == "model_config" || kind.role == "dataset_schema"
                                  || kind.role == "evaluation"));
            && a.path == e.path && a.kind == kind && a.conflicted == e.conflicted
            && (looked && parsed.Ok? ==>
                  a.size == parsed.value.size && a.storage == "arachne" && a.oid == parsed.value.oid
                  && a.arachneHash == parsed.value.arachneHash)
            && (looked && parsed.Err? ==>
                  a.size == e.size && a.storage == "git" && a.oid == sha(e.content) && a.arachneHash == "")
            && (!looked ==> a.size == e.size && a.storage == "git" && a.oid == "" && a.arachneHash == "")
  {
    hide LfsPointer.Parsed;
  }

  // ---------------------------------------------------------------- the two loops agree

  /** A file over the pointer gate that only the manifest looks into, and that parses as a pointer. */
  predicate BigPointer(classify: string -> Class, e: Entry) {
    e.size > SMALL_FILE_BYTES && ShouldRead(classify(e.path), e) && IsPointer(e)
  }

  function BigPointers(classify: string -> Class, tree: seq<Entry>): nat
    decreases |tree|
  {
    if tree == [] then 0
    else BigPointers(classify, tree[..|tree| - 1]) + if BigPointer(classify, tree[|tree| - 1]) then 1 else 0
  }

  lemma {:induction false} LogicalSnoc(tree: seq<Entry>, e: Entry)
    ensures Logical(tree + [e]) == Logical(tree) + LogicalSize(e)
    ensures Pointers(tree + [e]) == Pointers(tree) + if Counted(e) then [e] else []
    decreases |tree|
  {
    hide Counted, LogicalSize;
    if tree == [] {
      assert tree + [e] == [e] && [e][1..] == [];
    } else {
      var all := tree + [e];
      assert all[0] == tree[0] && all[1..] == tree[1..] + [e];
      LogicalSnoc(tree[1..], e);
      var first, last := if Counted(tree[0]) then [tree[0]] else [], if Counted(e) then [e] else [];
      assert Pointers(all) == first + (Pointers(tree[1..]) + last) == (first + Pointers(tree[1..])) + last;
    }
  }

  lemma {:induction false} EntryAgrees(sha: string -> string, classify: string -> Class, e: Entry)
    ensures var a := ArtifactOf(sha, classify, e);
            && (a.storage == "arachne" <==> Counted(e) || BigPointer(classify, e))
            && !(Counted(e) && BigPointer(classify, e))
            && (!BigPointer(classify, e) ==> a.size == LogicalSize(e))
  {
    hide LfsPointer.Parsed;
    assert "arachne"[0] != "git"[0];
  }

  /** The manifest counts the statistics' Arachne files and the big pointers besides. */
  lemma {:induction false} CountsDiffer(sha: string -> string, classify: string -> Class, tree: seq<Entry>)
    ensures InArachne(Artifacts(sha, classify, tree)) == |Pointers(tree)| + BigPointers(classify, tree)
    decreases |tree|
  {
    hide ArtifactOf, Artifacts, LogicalSize, Counted, BigPointer;
    ManifestStart(sha, classify, tree);
    if tree != [] {
      var init, last := tree[..|tree| - 1], tree[|tree| - 1];
      assert tree == init + [last];
      CountsDiffer(sha, classify, init);
      LogicalSnoc(init, last);
      assert tree[..|tree|] == tree;
      ManifestStep(sha, classify, tree, |tree| - 1);
      EntryAgrees(sha, classify, last);
      ArtifactSnoc(Artifacts(sha, classify, init), ArtifactOf(sha, classify, last));
    }
  }

  lemma {:induction false} SizesAgree(sha: string -> string, classify: string -> Class, tree: seq<Entry>)
    requires BigPointers(classify, tree) == 0
    ensures TotalSize(Artifacts(sha, classify, tree)) == Logical(tree)
    decreases |tree|
  {
    hide ArtifactOf, Artifacts, LogicalSize, Counted, BigPointer;
    ManifestStart(sha, classify, tree);
    if tree != [] {
      var init, last := tree[..|tree| - 1], tree[|tree| - 1];
      assert tree == init + [last];
      SizesAgree(sha, classify, init);
      LogicalSnoc(init, last);
      assert tree[..|tree|] == tree;
      ManifestStep(sha, classify, tree, |tree| - 1);
      EntryAgrees(sha, classify, last);
      ArtifactSnoc(Artifacts(sha, classify, init), ArtifactOf(sha, classify, last));
    }
  }

  /** The loops count the same Arachne files exactly when no inspected blob over 1024 bytes parses as a
      pointer; the totals then agree wherever the statistics are exact. */
  lemma {:induction false} LoopsAgree(sha: string -> string, classify: string -> Class, tree: seq<Entry>)
    ensures InArachne(Artifacts(sha, classify, tree)) == |Pointers(tree)| <==> BigPointers(classify, tree) == 0
    ensures BigPointers(classify, tree) == 0 && Maxima(tree) <= U64_MAX
            ==> Min(TotalSize(Artifacts(sha, classify, tree)), U64_MAX)
                == StatsWalk(Stored(tree) % (U64_MAX + 1), tree)
  {
    CountsDiffer(sha, classify, tree);
    if BigPointers(classify, tree) == 0 && Maxima(tree) <= U64_MAX {
      SizesAgree(sha, classify, tree);
      StatsExactWhenMaximaFit(tree);
      MaximaBoundHybrids(tree, |tree|);
      HybridEnd(tree);
    }
  }

  lemma {:induction false} OneEntry(sha: string -> string, classify: string -> Class, e: Entry)
    ensures InArachne(Artifacts(sha, classify, [e]))
         == if ArtifactOf(sha, classify, e).storage == "arachne" then 1 else 0
    ensures TotalSize(Artifacts(sha, classify, [e])) == ArtifactOf(sha, classify, e).size
    ensures Pointers([e]) == (if Counted(e) then [e] else []) && Logical([e]) == LogicalSize(e)
  {
    hide ArtifactOf, Counted, LogicalSize;
    var all := Artifacts(sha, classify, [e]);
    assert all == [] + [ArtifactOf(sha, classify, e)];
    ArtifactSnoc([], ArtifactOf(sha, classify, e));
    assert [] + [e] == [e];
    LogicalSnoc([], e);
  }

  lemma {:induction false} BigPointerIsSeenOnce(sha: string -> string, classify: string -> Class, e: Entry)
    requires BigPointer(classify, e)
    ensures ArtifactOf(sha, classify, e).storage == "arachne" && ArtifactOf(sha, classify, e).size == PointerSize(e)
    ensures !Counted(e) && LogicalSize(e) == e.size
  {
    hide LfsPointer.Parsed;
  }

  function Repeated(c: char, n: nat): (s: string)
    ensures |s| == n && forall i :: 0 <= i < n ==> s[i] == c
  {
    seq(n, _ => c)
  }

  /** A model card of more than 1024 bytes that begins with a pointer: the manifest counts one Arachne file of
      seven bytes, the statistics an ordinary file of its own size. */
  lemma {:induction false} BigCardIsCountedOnce(sha: string -> string, classify: string -> Class) returns (card: Entry)
    requires classify("README.md").role == "card"
    ensures card.path == "README.md" && card.size == |card.content| > SMALL_FILE_BYTES
    ensures InArachne(Artifacts(sha, classify, [card])) == 1 && |Pointers([card])| == 0
    ensures TotalSize(Artifacts(sha, classify, [card])) == 7 && Logical([card]) == card.size
  {
    var digest, pad := Repeated('0', 64), Repeated('#', SMALL_FILE_BYTES + 1);
    var p := LfsPointer.Pointer(digest, 7, digest);
    var content := LfsPointer.Encode(p) + pad;
    card := Entry("README.md", |content|, content, false);
    LfsPointer.EncodedIsSmall(p);
    LfsPointer.PaddedPointer(p, pad);
    hide LfsPointer.Parsed, LfsPointer.Encode, ArtifactOf, Counted, LogicalSize, Artifacts, InArachne, TotalSize,
      Pointers, Logical;
    BigPointerIsSeenOnce(sha, classify, card);
    OneEntry(sha, classify, card);
  }

  // ---------------------------------------------------------------- a committed tree

  function CommittedEntry(sha: string -> string, address: string -> string, threshold: nat, path: string,
                          payload: string): Entry
  {
    var blob := Arachne.Committed(sha, address, threshold, payload);
    Entry(path, |blob|, blob, false)
  }

  function CommittedTree(sha: string -> string, address: string -> string, threshold: nat,
                         files: seq<(string, string)>): seq<Entry>
  {
    if files == [] then []
    else [CommittedEntry(sha, address, threshold, files[0].0, files[0].1)]
         + CommittedTree(sha, address, threshold, files[1..])
  }

  function PayloadBytes(files: seq<(string, string)>): nat {
    if files == [] then 0 else |files[0].1| + PayloadBytes(files[1..])
  }

  function RoutedFiles(threshold: nat, files: seq<(string, string)>): nat {
    if files == [] then 0
    else (if Arachne.Routed(threshold, files[0].1) then 1 else 0) + RoutedFiles(threshold, files[1..])
  }

  lemma {:induction false} CommittedLogicalSize(
      sha: string -> string, address: string -> string, threshold: nat, path: string, payload: string)
    requires Arachne.HashesAreDigests(sha, address) && |payload| <= U64_MAX
    requires Arachne.Routed(threshold, payload) || !LfsPointer.PointerShaped(payload)
    ensures var e := CommittedEntry(sha, address, threshold, path, payload);
            LogicalSize(e) == |payload| && (Counted(e) <==> Arachne.Routed(threshold, payload))
  {
    hide LfsPointer.Parsed, LfsPointer.Encode, LfsPointer.PointerShaped;
    if Arachne.Routed(threshold, payload) {
      var p := LfsPointer.ForPayload(sha, payload, address(payload));
      LfsPointer.ParseAfterEncode(p);
      LfsPointer.EncodedIsSmall(p);
    } else {
      Arachne.NotPointerMeansShape(payload);
    }
  }

  /** For a tree whose files were all committed through the service, the statistics' logical size is the
      number of payload bytes and their Arachne count the number of routed payloads. */
  lemma {:induction false} CommittedTreeIsCountedRight(
      sha: string -> string, address: string -> string, threshold: nat, files: seq<(string, string)>)
    requires Arachne.HashesAreDigests(sha, address)
    requires forall i :: 0 <= i < |files| ==> |files[i].1| <= U64_MAX
    requires forall i :: 0 <= i < |files| ==>
               Arachne.Routed(threshold, files[i].1) || !LfsPointer.PointerShaped(files[i].1)
    ensures var tree := CommittedTree(sha, address, threshold, files);
            Logical(tree) == PayloadBytes(files) && |Pointers(tree)| == RoutedFiles(threshold, files)
  {
    if files != [] {
      CommittedLogicalSize(sha, address, threshold, files[0].0, files[0].1);
      CommittedTreeIsCountedRight(sha, address, threshold, files[1..]);
      var rest := CommittedTree(sha, address, threshold, files[1..]);
      var e := CommittedEntry(sha, address, threshold, files[0].0, files[0].1);
      assert ([e] + rest)[1..] == rest;
    }
  }

  /** A routed payload is replaced by a pointer of at most 232 bytes. */
  const POINTER_BYTES: nat := 232

  lemma {:induction false} CommittedSizes(
      sha: string -> string, address: string -> string, threshold: nat, path: string, payload: string)
    requires Arachne.HashesAreDigests(sha, address) && |payload| <= U64_MAX
    ensures CommittedEntry(sha, address, threshold, path, payload).size <= |payload| + POINTER_BYTES
    ensures Arachne.Routed(threshold, payload)
            ==> CommittedEntry(sha, address, threshold, path, payload).size <= POINTER_BYTES
  {
    hide LfsPointer.Encode;
    if Arachne.Routed(threshold, payload) {
      LfsPointer.EncodedIsSmall(LfsPointer.ForPayload(sha, payload, address(payload)));
    }
  }

  /** No committed file is a big pointer. */
  lemma {:induction false} CommittedIsNotBig(
      sha: string -> string, address: string -> string, classify: string -> Class, threshold: nat, path: string,
      payload: string)
    requires Arachne.HashesAreDigests(sha, address) && |payload| <= U64_MAX
    requires Arachne.Routed(threshold, payload) || !LfsPointer.PointerShaped(payload)
    ensures !BigPointer(classify, CommittedEntry(sha, address, threshold, path, payload))
  {
    hide LfsPointer.Encode, LfsPointer.Parsed, LfsPointer.PointerShaped;
    CommittedSizes(sha, address, threshold, path, payload);
    Arachne.NotPointerMeansShape(payload);
  }

  lemma {:induction false} BigPointersCons(classify: string -> Class, e: Entry, tree: seq<Entry>)
    ensures BigPointers(classify, [e] + tree)
         == (if BigPointer(classify, e) then 1 else 0) + BigPointers(classify, tree)
    decreases |tree|
  {
    hide BigPointer;
    var all := [e] + tree;
    if tree == [] {
      assert all[..|all| - 1] == [];
    } else {
      BigPointersCons(classify, e, tree[..|tree| - 1]);
      assert all[..|all| - 1] == [e] + tree[..|tree| - 1];
    }
  }

  lemma {:induction false} CommittedMaxima(
      sha: string -> string, address: string -> string, classify: string -> Class, threshold: nat,
      files: seq<(string, string)>)
    requires Arachne.HashesAreDigests(sha, address)
    requires forall i :: 0 <= i < |files| ==> |files[i].1| <= U64_MAX
    requires forall i :: 0 <= i < |files| ==>
               Arachne.Routed(threshold, files[i].1) || !LfsPointer.PointerShaped(files[i].1)
    ensures var tree := CommittedTree(sha, address, threshold, files);
            && Maxima(tree) <= PayloadBytes(files) + POINTER_BYTES * |files|
            && BigPointers(classify, tree) == 0
    decreases |files|
  {
    hide CommittedEntry, LogicalSize, BigPointer, LfsPointer.PointerShaped, LfsPointer.Encode;
    if files != [] {
      var (path, payload) := files[0];
      CommittedLogicalSize(sha, address, threshold, path, payload);
      CommittedSizes(sha, address, threshold, path, payload);
      CommittedIsNotBig(sha, address, classify, threshold, path, payload);
      CommittedMaxima(sha, address, classify, threshold, files[1..]);
      var rest := CommittedTree(sha, address, threshold, files[1..]);
      var e := CommittedEntry(sha, address, threshold, path, payload);
      BigPointersCons(classify, e, rest);
      assert ([e] + rest)[1..] == rest && ([e] + rest)[0] == e;
    }
  }

  /** Both endpoints report, for a tree committed through the service, exactly the payload bytes and the number
      of routed files, unless the payloads come within 232 bytes a file of overflowing `u64`. */
  lemma {:induction false} CommittedTreeIsReportedRight(
      sha: string -> string, address: string -> string, classify: string -> Class, threshold: nat,
      files: seq<(string, string)>, stats: Stats, manifest: Manifest)
    requires Arachne.HashesAreDigests(sha, address)
    requires forall i :: 0 <= i < |files| ==>
               Arachne.Routed(threshold, files[i].1) || !LfsPointer.PointerShaped(files[i].1)
    requires forall i :: 0 <= i < |files| ==> |files[i].1| <= U64_MAX
    requires PayloadBytes(files) + POINTER_BYTES * |files| <= U64_MAX
    requires var tree := CommittedTree(sha, address, threshold, files);
             && stats.gitTreeBytes == Stored(tree) % (U64_MAX + 1)
             && stats.logicalBytes == StatsWalk(stats.gitTreeBytes, tree)
             && stats.arachneFiles == |Pointers(tree)|
             && manifest.totalBytes == Min(TotalSize(Artifacts(sha, classify, tree)), U64_MAX)
             && manifest.arachneFiles == InArachne(Artifacts(sha, classify, tree))
    ensures stats.gitTreeBytes == Stored(CommittedTree(sha, address, threshold, files))
    ensures stats.logicalBytes == manifest.totalBytes == PayloadBytes(files)
    ensures stats.arachneFiles == manifest.arachneFiles == RoutedFiles(threshold, files)
  {
    hide StatsWalk, Stored, Logical, Pointers, TotalSize, Artifacts, InArachne, CommittedTree, Maxima,
      LfsPointer.PointerShaped;
    var tree := CommittedTree(sha, address, threshold, files);
    CommittedMaxima(sha, address, classify, threshold, files);
    CommittedTreeIsCountedRight(sha, address, threshold, files);
    StatsExactWhenMaximaFit(tree);
    LoopsAgree(sha, classify, tree);
  }
}
