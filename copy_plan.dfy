/**
 * The copy loop (yoyo2yaml.py, lines 36-46): for each split in the order train, val,
 * test, and for each file of that split in list order, one image copy and one label
 * copy. The model records the (source, destination) pairs that `shutil.copy` would
 * receive instead of copying.
 */
module CopyPlanning {
  import opened PyStr
  import opened Paths
  import opened LabelNames
  import opened Partitioning

  /** The three directories the script is given: images, labels and output. */
  datatype Roots = Roots(images: string, labels: string, output: string)

  /** One call `shutil.copy(src, dst)`. */
  datatype Copy = Copy(src: string, dst: string)

  const SPLIT_NAMES: seq<string> := ["train", "val", "test"]

  /** `os.path.join(output_path, kind, split)`, the directory created at lines 28-33. */
  function SplitDirectory(output: string, kind: string, split: string): string {
    JoinAll(output, [kind, split])
  }

  /** Lines 39-41: the image keeps its file name. */
  function ImageCopy(roots: Roots, split: string, file: string): (c: Copy)
    ensures EndsWith(c.src, file) && EndsWith(c.dst, file)
  {
    Copy(Join(roots.images, file), JoinAll(roots.output, ["images", split, file]))
  }

  /** Lines 44-46: source and destination use the same derived label name. */
  function LabelCopy(roots: Roots, split: string, file: string): (c: Copy)
    ensures EndsWith(c.src, LabelName(file)) && EndsWith(c.dst, LabelName(file))
  {
    var name := LabelName(file);
    Copy(Join(roots.labels, name), JoinAll(roots.output, ["labels", split, name]))
  }

  /** The copies of one split: the files in order, image first, then label. */
  function SplitCopies(roots: Roots, split: string, files: seq<string>): (plan: seq<Copy>)
    ensures |plan| == 2 * |files|
    decreases |files|
  {
    if files == [] then []
    else
      var last := files[|files| - 1];
      SplitCopies(roots, split, files[..|files| - 1]) + [ImageCopy(roots, split, last), LabelCopy(roots, split, last)]
  }

  /** The lists paired with the split names by `zip` at line 36. */
  function SplitLists(p: Partition): (lists: seq<seq<string>>)
    ensures |lists| == |SPLIT_NAMES|
  {
    [p.train, p.val, p.test]
  }

  /** The copies of the first `count` splits of the zipped pairs. */
  function PlanFor(roots: Roots, splits: seq<string>, lists: seq<seq<string>>, count: nat): seq<Copy>
    requires |splits| == |lists| && count <= |splits|
  {
    if count == 0 then []
    else PlanFor(roots, splits, lists, count - 1) + SplitCopies(roots, splits[count - 1], lists[count - 1])
  }

  /** Every copy the loop at lines 36-46 performs, in order. */
  function CopyPlan(roots: Roots, p: Partition): (plan: seq<Copy>)
    ensures |plan| == 2 * |AllFiles(p)|
  {
    var lists := SplitLists(p);
    assert PlanFor(roots, SPLIT_NAMES, lists, 1) == [] + SplitCopies(roots, SPLIT_NAMES[0], p.train);
    assert |PlanFor(roots, SPLIT_NAMES, lists, 2)| == 2 * (|p.train| + |p.val|);
    PlanFor(roots, SPLIT_NAMES, lists, |SPLIT_NAMES|)
  }

  /** The nested loop of lines 36-46, appending each copy as it would be made. */
  method PlanCopies(roots: Roots, p: Partition) returns (plan: seq<Copy>)
    ensures plan == CopyPlan(roots, p)
  {
    var splits, lists := SPLIT_NAMES, SplitLists(p);
    plan := [];
    for s := 0 to |splits|
      invariant plan == PlanFor(roots, splits, lists, s)
    {
      var split, files := splits[s], lists[s];
      for i := 0 to |files|
        invariant plan == PlanFor(roots, splits, lists, s) + SplitCopies(roots, split, files[..i])
      {
        var file := files[i];
        plan := plan + [ImageCopy(roots, split, file)];
        plan := plan + [LabelCopy(roots, split, file)];
        SplitCopiesExtend(roots, split, files, i);
        AppendPair(PlanFor(roots, splits, lists, s), SplitCopies(roots, split, files[..i]),
                   ImageCopy(roots, split, file), LabelCopy(roots, split, file));
      }
      assert files[..|files|] == files;
    }
  }

  /** Taking one more file adds its image copy and its label copy at the end. */
  lemma SplitCopiesExtend(roots: Roots, split: string, files: seq<string>, i: nat)
    requires i < |files|
    ensures SplitCopies(roots, split, files[..i + 1])
            == SplitCopies(roots, split, files[..i]) + [ImageCopy(roots, split, files[i]), LabelCopy(roots, split, files[i])]
  {
    assert files[..i + 1][..i] == files[..i];
  }

  lemma AppendPair<T>(a: seq<T>, b: seq<T>, x: T, y: T)
    ensures a + b + [x] + [y] == a + (b + [x, y])
  {
  }

  /** `path` is its own base name joined onto `dir`. */
  predicate JoinedOnto(path: string, dir: string) {
    path == Join(dir, Basename(path))
  }

  /** A file placed in a split. */
  datatype Placement = Placement(split: string, file: string)

  function Placed(split: string, files: seq<string>): (placed: seq<Placement>)
    ensures |placed| == |files|
    ensures forall k :: 0 <= k < |files| ==> placed[k] == Placement(split, files[k])
  {
    seq(|files|, k requires 0 <= k < |files| => Placement(split, files[k]))
  }

  /** The (split, file) pairs the loop visits: all train files, then val, then test. */
  function Placements(p: Partition): seq<Placement> {
    Placed(SPLIT_NAMES[0], p.train) + Placed(SPLIT_NAMES[1], p.val) + Placed(SPLIT_NAMES[2], p.test)
  }

  /** `plan[2k]` is `first(xs[k])` and `plan[2k + 1]` is `second(xs[k])`, and nothing else is in `plan`. */
  ghost predicate Interleaves<X, C>(plan: seq<C>, xs: seq<X>, first: X -> C, second: X -> C) {
    && |plan| == 2 * |xs|
    && forall k :: 0 <= k < |xs| ==> plan[2 * k] == first(xs[k]) && plan[2 * k + 1] == second(xs[k])
  }

  lemma InterleavesAppend<X, C>(plan1: seq<C>, plan2: seq<C>, xs1: seq<X>, xs2: seq<X>, first: X -> C, second: X -> C)
    requires Interleaves(plan1, xs1, first, second) && Interleaves(plan2, xs2, first, second)
    ensures Interleaves(plan1 + plan2, xs1 + xs2, first, second)
  {
    var plan, xs := plan1 + plan2, xs1 + xs2;
    forall k | 0 <= k < |xs|
      ensures plan[2 * k] == first(xs[k]) && plan[2 * k + 1] == second(xs[k])
    {
      if k >= |xs1| {
        var j := k - |xs1|;
        assert xs[k] == xs2[j];
        assert plan[2 * k] == plan2[2 * j] && plan[2 * k + 1] == plan2[2 * j + 1];
      }
    }
  }

  /** Entry `j` of an interleaving comes from element `j / 2`: its first or its second image. */
  lemma InterleavesEntry<X, C>(plan: seq<C>, xs: seq<X>, first: X -> C, second: X -> C, j: nat)
    returns (m: nat, isFirst: bool)
    requires Interleaves(plan, xs, first, second) && j < |plan|
    ensures m < |xs|
    ensures isFirst ==> plan[j] == first(xs[m])
    ensures !isFirst ==> plan[j] == second(xs[m])
  {
    m, isFirst := j / 2, j % 2 == 0;
    if !isFirst {
      assert j == 2 * m + 1;
    }
  }

  /** The image copy of a placement. */
  function ImageOf(roots: Roots): Placement -> Copy {
    (q: Placement) => ImageCopy(roots, q.split, q.file)
  }

  /** The label copy of a placement. */
  function LabelOf(roots: Roots): Placement -> Copy {
    (q: Placement) => LabelCopy(roots, q.split, q.file)
  }

  /** Copy `2k` is the image and copy `2k + 1` the label of the `k`-th placement. */
  ghost predicate Follows(plan: seq<Copy>, roots: Roots, placements: seq<Placement>) {
    Interleaves(plan, placements, ImageOf(roots), LabelOf(roots))
  }

  lemma InterleavesPair<X, C>(x: X, first: X -> C, second: X -> C)
    ensures Interleaves([first(x), second(x)], [x], first, second)
  {
  }

  lemma PlacedLast(split: string, files: seq<string>)
    requires files != []
    ensures Placed(split, files) == Placed(split, files[..|files| - 1]) + [Placement(split, files[|files| - 1])]
  {
  }

  /** The copies of one split follow its files, one image and one label each. */
  lemma {:induction false} SplitCopiesFollow(roots: Roots, split: string, files: seq<string>)
    ensures Follows(SplitCopies(roots, split, files), roots, Placed(split, files))
    decreases |files|
  {
    if files != [] {
      var init, last := files[..|files| - 1], files[|files| - 1];
      var q := Placement(split, last);
      SplitCopiesFollow(roots, split, init);
      InterleavesPair(q, ImageOf(roots), LabelOf(roots));
      var tail := [ImageOf(roots)(q), LabelOf(roots)(q)];
      assert SplitCopies(roots, split, files) == SplitCopies(roots, split, init) + tail;
      InterleavesAppend(SplitCopies(roots, split, init), tail, Placed(split, init), [q],
                        ImageOf(roots), LabelOf(roots));
      PlacedLast(split, files);
    }
  }

  /**
   * The whole plan: splits in the order train, val, test, files in list order, and each
   * file gives exactly one image copy followed by one label copy.
   */
  lemma CopyPlanFollowsPlacements(roots: Roots, p: Partition)
    ensures Follows(CopyPlan(roots, p), roots, Placements(p))
  {
    var lists := SplitLists(p);
    SplitCopiesFollow(roots, SPLIT_NAMES[0], p.train);
    SplitCopiesFollow(roots, SPLIT_NAMES[1], p.val);
    SplitCopiesFollow(roots, SPLIT_NAMES[2], p.test);
    assert PlanFor(roots, SPLIT_NAMES, lists, 1) == [] + SplitCopies(roots, SPLIT_NAMES[0], p.train);
    assert [] + SplitCopies(roots, SPLIT_NAMES[0], p.train) == SplitCopies(roots, SPLIT_NAMES[0], p.train);
    InterleavesAppend(SplitCopies(roots, SPLIT_NAMES[0], p.train), SplitCopies(roots, SPLIT_NAMES[1], p.val),
                      Placed(SPLIT_NAMES[0], p.train), Placed(SPLIT_NAMES[1], p.val), ImageOf(roots), LabelOf(roots));
    InterleavesAppend(PlanFor(roots, SPLIT_NAMES, lists, 2), SplitCopies(roots, SPLIT_NAMES[2], p.test),
                      Placed(SPLIT_NAMES[0], p.train) + Placed(SPLIT_NAMES[1], p.val), Placed(SPLIT_NAMES[2], p.test),
                      ImageOf(roots), LabelOf(roots));
  }

  /** Which of train (0), val (1) and test (2) the `k`-th file of `AllFiles(p)` belongs to. */
  function SplitIndex(p: Partition, k: nat): (i: nat)
    ensures i < |SPLIT_NAMES|
  {
    if k < |p.train| then 0 else if k < |p.train| + |p.val| then 1 else 2
  }

  /** The placements name every file of the three lists in order, each with its own split. */
  lemma PlacementsInOrder(p: Partition)
    ensures |Placements(p)| == |AllFiles(p)|
    ensures forall k :: 0 <= k < |AllFiles(p)| ==> Placements(p)[k].file == AllFiles(p)[k]
    ensures forall k :: 0 <= k < |Placements(p)| ==>
              Placements(p)[k].split == SPLIT_NAMES[SplitIndex(p, k)]
  {
    var pl, files := Placements(p), AllFiles(p);
    forall k | 0 <= k < |files| ensures pl[k].file == files[k] {
      if k < |p.train| {
      } else if k < |p.train| + |p.val| {
        assert files[k] == p.val[k - |p.train|];
      } else {
        assert files[k] == p.test[k - |p.train| - |p.val|];
      }
    }
  }

  /** An image is copied from the images directory into `images/<split>` under its own name. */
  lemma ImageCopyKeepsName(roots: Roots, split: string, file: string)
    requires '/' !in file
    ensures ImageCopy(roots, split, file).dst == Join(SplitDirectory(roots.output, "images", split), file)
    ensures Basename(ImageCopy(roots, split, file).src) == file
    ensures Basename(ImageCopy(roots, split, file).dst) == file
  {
    JoinAllLast(roots.output, ["images", split], file);
    assert ["images", split] + [file] == ["images", split, file];
    BasenameOfJoin(roots.images, file);
    BasenameOfJoin(SplitDirectory(roots.output, "images", split), file);
  }

  /**
   * A label is copied from the labels directory into `labels/<split>`, and source and
   * destination carry the same derived name.
   */
  lemma LabelCopySameName(roots: Roots, split: string, file: string)
    requires '/' !in file
    ensures LabelCopy(roots, split, file).dst
            == Join(SplitDirectory(roots.output, "labels", split), LabelName(file))
    ensures Basename(LabelCopy(roots, split, file).src) == LabelName(file)
    ensures Basename(LabelCopy(roots, split, file).dst) == LabelName(file)
  {
    var name := LabelName(file);
    LabelNameNoSeparator(file);
    JoinAllLast(roots.output, ["labels", split], name);
    assert ["labels", split] + [name] == ["labels", split, name];
    BasenameOfJoin(roots.labels, name);
    BasenameOfJoin(SplitDirectory(roots.output, "labels", split), name);
  }

  /** The image copy of a placement writes into `images/<split>` under the file's own name. */
  lemma ImageOfJoinedOnto(roots: Roots, q: Placement)
    requires '/' !in q.file
    ensures JoinedOnto(ImageOf(roots)(q).dst, SplitDirectory(roots.output, "images", q.split))
  {
    ImageCopyKeepsName(roots, q.split, q.file);
  }

  /** The label copy of a placement writes into `labels/<split>` under the derived name. */
  lemma LabelOfJoinedOnto(roots: Roots, q: Placement)
    requires '/' !in q.file
    ensures JoinedOnto(LabelOf(roots)(q).dst, SplitDirectory(roots.output, "labels", q.split))
  {
    LabelCopySameName(roots, q.split, q.file);
  }
}
