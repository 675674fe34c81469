/** Which directory entries count as images (yoyo2yaml.py, line 20). */
module ImageFilter {
  import opened PyStr

  const JPG: string := ".jpg"
  const PNG: string := ".png"
  const JPEG: string := ".jpeg"

  /** `f.endswith('.jpg') or f.endswith('.png') or f.endswith('.jpeg')` */
  predicate IsImageName(f: string)
    ensures |f| > |JPEG| ==> (IsImageName(f) <==> IsImageName(f[|f| - |JPEG|..]))
  {
    SuffixDecides(f, |JPEG|);
    EndsWith(f, JPG) || EndsWith(f, PNG) || EndsWith(f, JPEG)
  }

  /** Whether `s` ends with a pattern of length at most `n` depends only on its last `n` characters. */
  lemma SuffixDecides(s: string, n: nat)
    ensures |s| > n ==> forall p :: |p| <= n ==> (EndsWith(s, p) <==> EndsWith(s[|s| - n..], p))
  {
    if |s| > n {
      forall p | |p| <= n ensures EndsWith(s, p) <==> EndsWith(s[|s| - n..], p) {
        var t := s[|s| - n..];
        assert t[|t| - |p|..] == s[|s| - |p|..];
      }
    }
  }

  /** `[x for x in s if keep(x)]` */
  function Filter<T(!new)>(s: seq<T>, keep: T -> bool): (kept: seq<T>)
    ensures forall x :: x in kept <==> x in s && keep(x)
    ensures forall x :: multiset(kept)[x] == if keep(x) then multiset(s)[x] else 0
    decreases |s|
  {
    if s == [] then []
    else
      assert s == [s[0]] + s[1..];
      (if keep(s[0]) then [s[0]] else []) + Filter(s[1..], keep)
  }

  /**
   * The list comprehension over the directory listing: keeps the image names, drops the
   * rest, and keeps every image name as often as the listing has it.
   */
  function ImageFiles(listing: seq<string>): (images: seq<string>)
    ensures forall f :: f in images <==> f in listing && IsImageName(f)
    ensures forall f :: multiset(images)[f] == if IsImageName(f) then multiset(listing)[f] else 0
  {
    Filter(listing, IsImageName)
  }

  /** Each element occurs at most once; `os.listdir` never repeats a name. */
  ghost predicate NoDuplicates<T(!new)>(s: seq<T>) {
    forall x :: multiset(s)[x] <= 1
  }

  ghost predicate StrictlyIncreasing(idx: seq<int>) {
    forall i, j :: 0 <= i < j < |idx| ==> idx[i] < idx[j]
  }

  /**
   * `idx` lists, in increasing order, exactly the positions of `s` whose element
   * satisfies `keep`, and `kept` is what stands at those positions.
   */
  ghost predicate Selects<T>(s: seq<T>, keep: T -> bool, kept: seq<T>, idx: seq<int>) {
    && |idx| == |kept|
    && StrictlyIncreasing(idx)
    && (forall k :: 0 <= k < |idx| ==> 0 <= idx[k] < |s| && kept[k] == s[idx[k]])
    && (forall i :: 0 <= i < |s| && keep(s[i]) ==> i in idx)
  }

  function Shift(idx: seq<int>): (r: seq<int>)
    ensures |r| == |idx| && forall k :: 0 <= k < |idx| ==> r[k] == idx[k] + 1
  {
    seq(|idx|, k requires 0 <= k < |idx| => idx[k] + 1)
  }

  /** Prepending a position before a shifted increasing list keeps it increasing. */
  lemma ShiftIncreasing(idx: seq<int>, front: seq<int>)
    requires StrictlyIncreasing(idx) && forall k :: 0 <= k < |idx| ==> 0 <= idx[k]
    requires front == [] || front == [0]
    ensures StrictlyIncreasing(front + Shift(idx))
  {
  }

  /** The positions picked in the tail, shifted by one, pick the same elements in the whole. */
  lemma SelectsConsPositions<T>(s: seq<T>, tail: seq<T>, tailIdx: seq<int>, kept: seq<T>, idx: seq<int>, d: nat)
    requires s != [] && |tailIdx| == |tail|
    requires forall k :: 0 <= k < |tailIdx| ==> 0 <= tailIdx[k] < |s| - 1 && tail[k] == s[1..][tailIdx[k]]
    requires d <= 1 && kept == (if d == 1 then [s[0]] else []) + tail
    requires idx == (if d == 1 then [0] else []) + Shift(tailIdx)
    ensures forall k :: 0 <= k < |idx| ==> 0 <= idx[k] < |s| && kept[k] == s[idx[k]]
  {
    forall k | 0 <= k < |idx|
      ensures 0 <= idx[k] < |s| && kept[k] == s[idx[k]]
    {
      if k >= d {
        assert idx[k] == tailIdx[k - d] + 1 && kept[k] == tail[k - d];
        assert s[1..][tailIdx[k - d]] == s[tailIdx[k - d] + 1];
      }
    }
  }

  /** Every kept position of the whole is 0 or a kept position of the tail shifted by one. */
  lemma SelectsConsCovers<T>(s: seq<T>, keep: T -> bool, tailIdx: seq<int>, idx: seq<int>)
    requires s != [] && forall i :: 0 <= i < |s| - 1 && keep(s[1..][i]) ==> i in tailIdx
    requires idx == (if keep(s[0]) then [0] else []) + Shift(tailIdx)
    ensures forall i :: 0 <= i < |s| && keep(s[i]) ==> i in idx
  {
    var d := if keep(s[0]) then 1 else 0;
    forall i | 0 <= i < |s| && keep(s[i]) ensures i in idx {
      if i > 0 {
        assert s[1..][i - 1] == s[i];
        var j :| 0 <= j < |tailIdx| && tailIdx[j] == i - 1;
        assert idx[j + d] == i;
      }
    }
  }

  /** A selection from the tail of a sequence extends to the whole sequence. */
  lemma SelectsCons<T(!new)>(s: seq<T>, keep: T -> bool, tail: seq<T>, tailIdx: seq<int>)
    requires s != [] && Selects(s[1..], keep, tail, tailIdx)
    ensures Selects(s, keep, (if keep(s[0]) then [s[0]] else []) + tail,
                    (if keep(s[0]) then [0] else []) + Shift(tailIdx))
  {
    var kept := (if keep(s[0]) then [s[0]] else []) + tail;
    var idx := (if keep(s[0]) then [0] else []) + Shift(tailIdx);
    ShiftIncreasing(tailIdx, if keep(s[0]) then [0] else []);
    SelectsConsPositions(s, tail, tailIdx, kept, idx, if keep(s[0]) then 1 else 0);
    SelectsConsCovers(s, keep, tailIdx, idx);
  }

  /** The filter keeps the selected elements in their original order, skipping none. */
  lemma {:induction false} FilterInOrder<T(!new)>(s: seq<T>, keep: T -> bool)
    ensures exists idx :: Selects(s, keep, Filter(s, keep), idx)
    decreases |s|
  {
    if s == [] {
      assert Filter(s, keep) == [];
      assert Selects(s, keep, Filter(s, keep), []);
    } else {
      var rest := s[1..];
      FilterInOrder(rest, keep);
      var tailIdx :| Selects(rest, keep, Filter(rest, keep), tailIdx);
      SelectsCons(s, keep, Filter(rest, keep), tailIdx);
      var idx := (if keep(s[0]) then [0] else []) + Shift(tailIdx);
      assert Filter(s, keep) == (if keep(s[0]) then [s[0]] else []) + Filter(rest, keep);
      assert Selects(s, keep, Filter(s, keep), idx);
    }
  }

  /** The image names are kept in the order the listing gives them, and none is skipped. */
  lemma ImageFilesInListingOrder(listing: seq<string>)
    ensures exists idx :: Selects(listing, IsImageName, ImageFiles(listing), idx)
  {
    FilterInOrder(listing, IsImageName);
    assert ImageFiles(listing) == Filter(listing, IsImageName);
  }

  /** Filtering a listing without repeated names gives a list without repeated names. */
  lemma ImageFilesNoDuplicates(listing: seq<string>)
    requires NoDuplicates(listing)
    ensures NoDuplicates(ImageFiles(listing))
  {
  }
}
