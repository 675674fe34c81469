/**
 * `create_dataset` (yoyo2yaml.py, lines 7-58) with its file-system calls recorded as
 * effects instead of performed: the directory listing and the class file's text come in
 * as parameters, and the result is the sequence of directory creations, file copies and
 * the manifest write, in the order the script makes them.
 */
module Dataset {
  import opened PyStr
  import opened Paths
  import opened ImageFilter
  import opened Partitioning
  import opened CopyPlanning
  import opened Manifests

  datatype Effect =
    | MakeDirectory(path: string)
    | CopyFile(copy: Copy)
    | WriteManifest(path: string, manifest: Manifest)

  /** Lines 27-33: the output directory, then images/train, val, test, then labels/train, val, test. */
  function OutputDirectories(output: string): (dirs: seq<string>)
    ensures |dirs| == 1 + 2 * |SPLIT_NAMES| && dirs[0] == output
    ensures forall i :: 0 <= i < |SPLIT_NAMES| ==> dirs[1 + i] == SplitDirectory(output, "images", SPLIT_NAMES[i])
    ensures forall i :: 0 <= i < |SPLIT_NAMES| ==> dirs[4 + i] == SplitDirectory(output, "labels", SPLIT_NAMES[i])
  {
    [output]
    + seq(|SPLIT_NAMES|, i requires 0 <= i < |SPLIT_NAMES| => SplitDirectory(output, "images", SPLIT_NAMES[i]))
    + seq(|SPLIT_NAMES|, i requires 0 <= i < |SPLIT_NAMES| => SplitDirectory(output, "labels", SPLIT_NAMES[i]))
  }

  function DirectoryEffects(dirs: seq<string>): (effects: seq<Effect>)
    ensures |effects| == |dirs| && forall i :: 0 <= i < |dirs| ==> effects[i] == MakeDirectory(dirs[i])
  {
    seq(|dirs|, i requires 0 <= i < |dirs| => MakeDirectory(dirs[i]))
  }

  function CopyEffects(plan: seq<Copy>): (effects: seq<Effect>)
    ensures |effects| == |plan| && forall i :: 0 <= i < |plan| ==> effects[i] == CopyFile(plan[i])
  {
    seq(|plan|, i requires 0 <= i < |plan| => CopyFile(plan[i]))
  }

  const MANIFEST_NAME: string := "data.yaml"

  /** The partition lines 20-24 compute from the listing. */
  function PartitionOf(listing: seq<string>, valSize: real, testSize: real, split: Splitter): Partition {
    SplitDataset(ImageFiles(listing), valSize, testSize, split)
  }

  /** Everything `create_dataset` does to the file system, in order. */
  function Trace(roots: Roots, listing: seq<string>, classText: string, valSize: real, testSize: real,
                 split: Splitter): (effects: seq<Effect>)
    ensures IsPartitioner(split) ==>
              |effects| == |OutputDirectories(roots.output)| + 2 * |ImageFiles(listing)| + 1
  {
    var files := AllFiles(PartitionOf(listing, valSize, testSize, split));
    assert |files| == |multiset(files)| && |ImageFiles(listing)| == |multiset(ImageFiles(listing))|;
    DirectoryEffects(OutputDirectories(roots.output))
    + CopyEffects(CopyPlan(roots, PartitionOf(listing, valSize, testSize, split)))
    + [WriteManifest(Join(roots.output, MANIFEST_NAME), MakeManifest(ClassNames(classText)))]
  }

  /**
   * Lines 7-58. `listing` is what `os.listdir(images_path)` returns and `classText` the
   * contents of the class file; `split` stands for `train_test_split` with `random_state=42`.
   */
  method CreateDataset(roots: Roots, listing: seq<string>, classText: string, valSize: real,
                       testSize: real, split: Splitter) returns (effects: seq<Effect>)
    ensures effects == Trace(roots, listing, classText, valSize, testSize, split)
  {
    var classes := ClassNames(classText);
    var imageFiles := ImageFiles(listing);
    var partition := SplitDataset(imageFiles, valSize, testSize, split);
    effects := DirectoryEffects(OutputDirectories(roots.output));
    var plan := PlanCopies(roots, partition);
    effects := effects + CopyEffects(plan);
    var manifest := MakeManifest(classes);
    effects := effects + [WriteManifest(Join(roots.output, MANIFEST_NAME), manifest)];
  }

  /** Directory creations, then copies, then one manifest write: the write is last and only. */
  lemma ManifestOnlyAtEnd(dirs: seq<string>, plan: seq<Copy>, last: Effect)
    requires last.WriteManifest?
    ensures var effects := DirectoryEffects(dirs) + CopyEffects(plan) + [last];
            && effects[|effects| - 1].WriteManifest?
            && forall k :: 0 <= k < |effects| - 1 ==> !effects[k].WriteManifest?
  {
    var front, copies := DirectoryEffects(dirs), CopyEffects(plan);
    var effects := front + copies + [last];
    assert forall k :: 0 <= k < |front| ==> effects[k] == front[k];
    assert forall k :: 0 <= k < |copies| ==> effects[|front| + k] == copies[k];
  }

  /**
   * The manifest is written once, as the very last effect: a run that stops at a failed
   * copy has written no manifest.
   */
  lemma ManifestWrittenLast(roots: Roots, listing: seq<string>, classText: string, valSize: real,
                            testSize: real, split: Splitter)
    ensures var effects := Trace(roots, listing, classText, valSize, testSize, split);
            && effects[|effects| - 1].WriteManifest?
            && forall k :: 0 <= k < |effects| - 1 ==> !effects[k].WriteManifest?
  {
    ManifestOnlyAtEnd(OutputDirectories(roots.output), CopyPlan(roots, PartitionOf(listing, valSize, testSize, split)),
                      WriteManifest(Join(roots.output, MANIFEST_NAME), MakeManifest(ClassNames(classText))));
  }

  /**
   * With a splitter that only rearranges its input and a listing without repeated names,
   * every image in the listing is placed in exactly one split and nothing else is placed.
   */
  lemma EveryImagePlacedOnce(listing: seq<string>, valSize: real, testSize: real, split: Splitter)
    requires IsPartitioner(split) && NoDuplicates(listing)
    ensures forall f :: SplitsHolding(PartitionOf(listing, valSize, testSize, split), f)
                        == if f in listing && IsImageName(f) then 1 else 0
  {
    ImageFilesNoDuplicates(listing);
    ExactlyOneSplit(ImageFiles(listing), valSize, testSize, split);
  }

  /** Every file the loop places comes from the listing. */
  lemma PlacedFilesFromListing(listing: seq<string>, valSize: real, testSize: real, split: Splitter)
    requires IsPartitioner(split)
    ensures forall f :: f in AllFiles(PartitionOf(listing, valSize, testSize, split)) ==> f in listing && IsImageName(f)
  {
    var p := PartitionOf(listing, valSize, testSize, split);
    SplitDatasetPermutes(ImageFiles(listing), valSize, testSize, split);
    forall f | f in AllFiles(p) ensures f in listing && IsImageName(f) {
      assert multiset(AllFiles(p))[f] > 0;
      assert f in ImageFiles(listing);
    }
  }

  /** Every copy of `plan` writes into one of `dirs`. */
  ghost predicate CopiesInto(plan: seq<Copy>, dirs: seq<string>) {
    forall c :: c in plan ==> exists i :: 0 <= i < |dirs| && JoinedOnto(c.dst, dirs[i])
  }

  /** When both copies of every entry write into one of `dirs`, every copy of the plan does. */
  lemma InterleavedCopiesInto<X>(plan: seq<Copy>, xs: seq<X>, first: X -> Copy, second: X -> Copy,
                                 dirs: seq<string>, into: (string, string) -> bool)
    requires Interleaves(plan, xs, first, second)
    requires forall m :: 0 <= m < |xs| ==>
               && (exists i :: 0 <= i < |dirs| && into(first(xs[m]).dst, dirs[i]))
               && (exists i :: 0 <= i < |dirs| && into(second(xs[m]).dst, dirs[i]))
    ensures forall c :: c in plan ==> exists i :: 0 <= i < |dirs| && into(c.dst, dirs[i])
  {
    forall c | c in plan ensures exists i :: 0 <= i < |dirs| && into(c.dst, dirs[i]) {
      var j :| 0 <= j < |plan| && plan[j] == c;
      var m, isFirst := InterleavesEntry(plan, xs, first, second, j);
    }
  }

  /** The two copies of a placement in split `i` write into that split's two created directories. */
  lemma PlacementCopiesInto(roots: Roots, q: Placement, i: nat)
    requires '/' !in q.file && i < |SPLIT_NAMES| && q.split == SPLIT_NAMES[i]
    ensures JoinedOnto(ImageOf(roots)(q).dst, OutputDirectories(roots.output)[1 + i])
    ensures JoinedOnto(LabelOf(roots)(q).dst, OutputDirectories(roots.output)[4 + i])
  {
    ImageOfJoinedOnto(roots, q);
    LabelOfJoinedOnto(roots, q);
  }

  /** Both copies of every placement write into one of the created directories. */
  lemma PlacementsCopyInto(roots: Roots, p: Partition)
    requires forall f :: f in AllFiles(p) ==> '/' !in f
    ensures forall m :: 0 <= m < |Placements(p)| ==>
              && (exists i :: 0 <= i < |OutputDirectories(roots.output)|
                              && JoinedOnto(ImageOf(roots)(Placements(p)[m]).dst, OutputDirectories(roots.output)[i]))
              && (exists i :: 0 <= i < |OutputDirectories(roots.output)|
                              && JoinedOnto(LabelOf(roots)(Placements(p)[m]).dst, OutputDirectories(roots.output)[i]))
  {
    var pl, dirs := Placements(p), OutputDirectories(roots.output);
    PlacementsInOrder(p);
    forall m | 0 <= m < |pl|
      ensures exists i :: 0 <= i < |dirs| && JoinedOnto(ImageOf(roots)(pl[m]).dst, dirs[i])
      ensures exists i :: 0 <= i < |dirs| && JoinedOnto(LabelOf(roots)(pl[m]).dst, dirs[i])
    {
      var q, i := pl[m], SplitIndex(p, m);
      assert q.file == AllFiles(p)[m] && q.split == SPLIT_NAMES[i];
      PlacementCopiesInto(roots, q, i);
    }
  }

  /** Each copy of the plan writes into one of the created directories, under its own base name. */
  lemma CopiesIntoCreatedDirectories(roots: Roots, listing: seq<string>, valSize: real, testSize: real,
                                     split: Splitter)
    requires IsPartitioner(split) && forall f :: f in listing ==> '/' !in f
    ensures CopiesInto(CopyPlan(roots, PartitionOf(listing, valSize, testSize, split)), OutputDirectories(roots.output))
  {
    var p := PartitionOf(listing, valSize, testSize, split);
    PlacedFilesFromListing(listing, valSize, testSize, split);
    PlacementsCopyInto(roots, p);
    CopyPlanFollowsPlacements(roots, p);
    InterleavedCopiesInto(CopyPlan(roots, p), Placements(p), ImageOf(roots), LabelOf(roots),
                          OutputDirectories(roots.output), JoinedOnto);
  }

  /** Every copy in `effects` comes after the creation of the directory it writes into. */
  ghost predicate DirectoryBeforeEachCopy(effects: seq<Effect>) {
    forall k :: 0 <= k < |effects| && effects[k].CopyFile? ==>
      exists j :: 0 <= j < k && effects[j].MakeDirectory? && JoinedOnto(effects[k].copy.dst, effects[j].path)
  }

  /** Creating the directories first, then copying only into them, puts each creation before its copies. */
  lemma DirectoriesThenCopies(dirs: seq<string>, plan: seq<Copy>, last: Effect)
    requires CopiesInto(plan, dirs) && !last.CopyFile?
    ensures DirectoryBeforeEachCopy(DirectoryEffects(dirs) + CopyEffects(plan) + [last])
  {
    var front, copies := DirectoryEffects(dirs), CopyEffects(plan);
    var effects := front + copies + [last];
    assert forall i :: 0 <= i < |front| ==> effects[i] == front[i];
    assert forall i :: 0 <= i < |copies| ==> effects[|front| + i] == copies[i];
    assert effects[|front| + |copies|] == last;
    forall k | 0 <= k < |effects| && effects[k].CopyFile?
      ensures exists j :: 0 <= j < k && effects[j].MakeDirectory? && JoinedOnto(effects[k].copy.dst, effects[j].path)
    {
      var c := plan[k - |front|];
      assert effects[k] == CopyFile(c);
      var j :| 0 <= j < |dirs| && JoinedOnto(c.dst, dirs[j]);
      assert effects[j] == MakeDirectory(dirs[j]);
    }
  }

  /** In the trace, every copy comes after the creation of the directory it writes into. */
  lemma DirectoriesBeforeCopies(roots: Roots, listing: seq<string>, classText: string, valSize: real,
                                testSize: real, split: Splitter)
    requires IsPartitioner(split) && forall f :: f in listing ==> '/' !in f
    ensures DirectoryBeforeEachCopy(Trace(roots, listing, classText, valSize, testSize, split))
  {
    CopiesIntoCreatedDirectories(roots, listing, valSize, testSize, split);
    DirectoriesThenCopies(OutputDirectories(roots.output),
                          CopyPlan(roots, PartitionOf(listing, valSize, testSize, split)),
                          WriteManifest(Join(roots.output, MANIFEST_NAME), MakeManifest(ClassNames(classText))));
  }
}
