/**
 * The train/validation/test split (yoyo2yaml.py, lines 23-24): two successive two-way
 * splits. The splitting routine itself belongs to a foreign library; it is a parameter
 * here, and the only thing assumed of it is that its two outputs together are a
 * rearrangement of its input.
 */
module Partitioning {
  import opened ImageFilter

  /**
   * The size argument of a call to the splitter. The first call asks for `testSize` of
   * the images; the second asks for `valSize / (1 - testSize)` of what is left, a
   * floating-point quotient that only the splitter interprets, so it is kept unevaluated.
   */
  datatype SplitRequest =
    | TestShare(testSize: real)
    | ValShareOfRest(valSize: real, testSize: real)

  /** `train_test_split(xs, test_size=…, random_state=42)`: deterministic, so a function. */
  type Splitter = (seq<string>, SplitRequest) -> (seq<string>, seq<string>)

  /** The splitter returns two lists that together hold its input, each element as often. */
  ghost predicate IsPartitioner(split: Splitter) {
    forall xs, request :: multiset(split(xs, request).0) + multiset(split(xs, request).1) == multiset(xs)
  }

  datatype Partition = Partition(train: seq<string>, val: seq<string>, test: seq<string>)

  /** Lines 23-24: split off the test images, then split the rest into train and validation. */
  function SplitDataset(images: seq<string>, valSize: real, testSize: real, split: Splitter): (p: Partition)
    ensures IsPartitioner(split) ==>
              multiset(p.train) + multiset(p.val) + multiset(p.test) == multiset(images)
  {
    var (rest, test) := split(images, TestShare(testSize));
    var (train, val) := split(rest, ValShareOfRest(valSize, testSize));
    Partition(train, val, test)
  }

  /** The three lists one after the other, in the order the copy loop visits them. */
  function AllFiles(p: Partition): (files: seq<string>)
    ensures |files| == |p.train| + |p.val| + |p.test|
    ensures multiset(files) == multiset(p.train) + multiset(p.val) + multiset(p.test)
  {
    p.train + p.val + p.test
  }

  /** How many of the three lists hold `f`. */
  function SplitsHolding(p: Partition, f: string): nat {
    (if f in p.train then 1 else 0) + (if f in p.val then 1 else 0) + (if f in p.test then 1 else 0)
  }

  /** Train, validation and test together are a rearrangement of the images. */
  lemma SplitDatasetPermutes(images: seq<string>, valSize: real, testSize: real, split: Splitter)
    requires IsPartitioner(split)
    ensures multiset(AllFiles(SplitDataset(images, valSize, testSize, split))) == multiset(images)
    ensures |AllFiles(SplitDataset(images, valSize, testSize, split))| == |images|
  {
    var (rest, test) := split(images, TestShare(testSize));
    var (train, val) := split(rest, ValShareOfRest(valSize, testSize));
    assert multiset(rest) + multiset(test) == multiset(images);
    assert multiset(train) + multiset(val) == multiset(rest);
    var p := SplitDataset(images, valSize, testSize, split);
    assert p == Partition(train, val, test);
    assert |AllFiles(p)| == |multiset(AllFiles(p))|;
  }

  /** With no repeated image names, every image lands in exactly one split, and nothing else does. */
  lemma ExactlyOneSplit(images: seq<string>, valSize: real, testSize: real, split: Splitter)
    requires IsPartitioner(split) && NoDuplicates(images)
    ensures forall f :: SplitsHolding(SplitDataset(images, valSize, testSize, split), f)
                        == if f in images then 1 else 0
  {
    var p := SplitDataset(images, valSize, testSize, split);
    SplitDatasetPermutes(images, valSize, testSize, split);
    forall f ensures SplitsHolding(p, f) == if f in images then 1 else 0 {
      var m := multiset(p.train)[f] + multiset(p.val)[f] + multiset(p.test)[f];
      assert m == multiset(images)[f] <= 1;
      assert f in p.train <==> multiset(p.train)[f] > 0;
      assert f in p.val <==> multiset(p.val)[f] > 0;
      assert f in p.test <==> multiset(p.test)[f] > 0;
      assert f in images <==> multiset(images)[f] > 0;
    }
  }
}
