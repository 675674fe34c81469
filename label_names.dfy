/**
 * How a label file name is derived from an image file name (yoyo2yaml.py, lines 44-45):
 * three chained global `str.replace` passes. Every extension involved begins with a dot
 * and has no other dot, so the passes cannot interfere, and together they do what a
 * single left-to-right pass rewriting any of the three extensions does.
 */
module LabelNames {
  import opened PyStr
  import opened ImageFilter

  const TXT: string := ".txt"

  /** `file.replace('.jpg', '.txt').replace('.png', '.txt').replace('.jpeg', '.txt')` */
  function LabelName(file: string): (derived: string)
    ensures !Contains(file, JPG) && !Contains(file, PNG) && !Contains(file, JPEG) ==> derived == file
  {
    Replace(Replace(Replace(file, JPG, TXT), PNG, TXT), JPEG, TXT)
  }

  /**
   * Reference definition: one scan from left to right that, wherever one of the three
   * image extensions starts, writes ".txt" in its place and continues after it.
   */
  function Relabel(s: string): string
    decreases |s|
  {
    if s == [] then []
    else if StartsWith(s, JPG) then TXT + Relabel(s[|JPG|..])
    else if StartsWith(s, PNG) then TXT + Relabel(s[|PNG|..])
    else if StartsWith(s, JPEG) then TXT + Relabel(s[|JPEG|..])
    else [s[0]] + Relabel(s[1..])
  }

  predicate IsExtension(e: string) {
    e == JPG || e == PNG || e == JPEG
  }

  lemma ExtensionsDotLed()
    ensures DotLed(JPG) && DotLed(PNG) && DotLed(JPEG) && DotLed(TXT)
  {
  }

  /**
   * The passes cannot disturb one another: ".jpg" does not occur in ".jpeg", and the
   * ".txt" that replaces an extension holds none of the three.
   */
  lemma ExtensionsIndependent()
    ensures !Contains(JPEG, JPG)
    ensures !Contains(TXT, JPG) && !Contains(TXT, PNG) && !Contains(TXT, JPEG)
  {
    ExtensionsDotLed();
    assert JPEG[..|JPG|][3] != JPG[3] && TXT[1] != JPG[1] && TXT[1] != PNG[1];
    DotFreeContainsNone(JPEG[1..], JPG);
    DotFreeContainsNone(TXT[1..], JPG);
    DotFreeContainsNone(TXT[1..], PNG);
    DotFreeContainsNone(TXT[1..], JPEG);
  }

  /** The three passes act separately on the two sides of a dot boundary. */
  lemma LabelNameAppend(a: string, b: string)
    requires DotBoundary(b)
    ensures LabelName(a + b) == LabelName(a) + LabelName(b)
  {
    ExtensionsDotLed();
    ReplaceAppend(a, b, JPG, TXT);
    var a1, b1 := Replace(a, JPG, TXT), Replace(b, JPG, TXT);
    ReplaceKeepsBoundary(b, JPG, TXT);
    ReplaceAppend(a1, b1, PNG, TXT);
    var a2, b2 := Replace(a1, PNG, TXT), Replace(b1, PNG, TXT);
    ReplaceKeepsBoundary(b1, PNG, TXT);
    ReplaceAppend(a2, b2, JPEG, TXT);
  }

  /** The single pass also acts separately on the two sides of a dot boundary. */
  lemma {:induction false} RelabelAppend(a: string, b: string)
    requires DotBoundary(b)
    ensures Relabel(a + b) == Relabel(a) + Relabel(b)
    decreases |a|
  {
    if a == [] {
      assert a + b == b;
    } else {
      var n, front := RelabelStepAppend(a, b);
      RelabelAppend(a[n..], b);
      AppendAssociative(front, Relabel(a[n..]), Relabel(b));
    }
  }

  /** How much of `s` one step of the single pass consumes. */
  function StepLength(s: string): (n: nat)
    requires s != []
    ensures 1 <= n <= |s|
  {
    if StartsWith(s, JPG) || StartsWith(s, PNG) then |JPG|
    else if StartsWith(s, JPEG) then |JPEG|
    else 1
  }

  /** A dot boundary after `a` does not change how much the first step consumes. */
  lemma StepLengthAtBoundary(a: string, b: string)
    requires a != [] && DotBoundary(b)
    ensures StepLength(a + b) == StepLength(a)
  {
    ExtensionsDotLed();
    StartsWithAtBoundary(a, b, JPG);
    StartsWithAtBoundary(a, b, PNG);
    StartsWithAtBoundary(a, b, JPEG);
  }

  /**
   * The first step of the single pass on `a + b` consumes and writes what it does on `a`
   * alone, when `b` begins at a dot.
   */
  lemma RelabelStepAppend(a: string, b: string) returns (n: nat, front: string)
    requires a != [] && DotBoundary(b)
    ensures n == StepLength(a)
    ensures Relabel(a) == front + Relabel(a[n..])
    ensures Relabel(a + b) == front + Relabel(a[n..] + b)
  {
    n := RelabelStep(a);
    front := if n == 1 then [a[0]] else TXT;
    StepLengthAtBoundary(a, b);
    DropAppend(a, b, n);
    var m := RelabelStep(a + b);
  }

  lemma DropAppend(a: string, b: string, n: nat)
    requires n <= |a|
    ensures (a + b)[n..] == a[n..] + b
    ensures a != [] ==> (a + b)[0] == a[0]
  {
  }

  lemma AppendAssociative(x: string, y: string, z: string)
    ensures x + (y + z) == (x + y) + z
  {
  }

  /** One step of the single pass: how much of `s` it consumes, and what it writes for it. */
  lemma RelabelStep(s: string) returns (n: nat)
    requires s != []
    ensures n == StepLength(s)
    ensures Relabel(s) == (if n == 1 then [s[0]] else TXT) + Relabel(s[n..])
  {
    n := StepLength(s);
  }

  /** A name without dots goes through the single pass unchanged. */
  lemma {:induction false} RelabelDotFree(s: string)
    requires '.' !in s
    ensures Relabel(s) == s
    decreases |s|
  {
    if s != [] {
      assert s[0] in s;
      assert !StartsWith(s, JPG) && !StartsWith(s, PNG) && !StartsWith(s, JPEG);
      assert Relabel(s) == [s[0]] + Relabel(s[1..]);
      assert forall c :: c in s[1..] ==> c in s;
      RelabelDotFree(s[1..]);
      assert [s[0]] + s[1..] == s;
    }
  }

  /**
   * One replace pass on a single dot segment (a dot followed by no other dot): the
   * pattern is rewritten if the segment begins with it, and nothing else changes.
   */
  lemma SegmentReplace(s: string, pattern: string, replacement: string)
    requires s != [] && s[0] == '.' && '.' !in s[1..] && DotLed(pattern)
    ensures Replace(s, pattern, replacement)
         == if StartsWith(s, pattern) then replacement + s[|pattern|..] else s
  {
    if StartsWith(s, pattern) {
      assert forall c :: c in s[|pattern|..] ==> c in s[1..];
      DotFreeContainsNone(s[|pattern|..], pattern);
    } else {
      DotFreeContainsNone(s[1..], pattern);
      assert [s[0]] + s[1..] == s;
    }
  }

  /** A dot-led pattern followed by a dot-free rest is a single dot segment. */
  lemma DotLedThenRest(e: string, rest: string)
    requires DotLed(e) && '.' !in rest
    ensures (e + rest)[0] == '.' && '.' !in (e + rest)[1..]
    ensures (e + rest)[..|e|] == e && (e + rest)[|e|..] == rest
  {
    var s := e + rest;
    assert s[1..] == e[1..] + rest;
    assert forall c :: c in e[1..] + rest ==> c in e[1..] || c in rest;
  }

  /** Past a rewritten extension, the rest of a segment meets no further pattern. */
  lemma RewrittenSegment(rest: string)
    requires '.' !in rest
    ensures Replace(TXT + rest, PNG, TXT) == TXT + rest
    ensures Replace(TXT + rest, JPEG, TXT) == TXT + rest
  {
    ExtensionsDotLed();
    var s := TXT + rest;
    DotLedThenRest(TXT, rest);
    assert s[1] == 't' && PNG[1] == 'p' && JPEG[1] == 'j';
    SegmentReplace(s, PNG, TXT);
    SegmentReplace(s, JPEG, TXT);
  }

  /** An extension followed by a dot-free rest is a single dot segment. */
  lemma ExtensionThenRest(e: string, rest: string)
    requires IsExtension(e) && '.' !in rest
    ensures (e + rest)[0] == '.' && '.' !in (e + rest)[1..]
    ensures (e + rest)[..|e|] == e && (e + rest)[|e|..] == rest
  {
    ExtensionsDotLed();
    DotLedThenRest(e, rest);
  }

  /** A segment that begins with ".jpg": the first pass rewrites it, the others leave it. */
  lemma JpgSegment(rest: string)
    requires '.' !in rest
    ensures LabelName(JPG + rest) == TXT + rest
  {
    ExtensionsDotLed();
    ExtensionThenRest(JPG, rest);
    SegmentReplace(JPG + rest, JPG, TXT);
    RewrittenSegment(rest);
  }

  /** A segment that begins with ".png": only the second pass rewrites it. */
  lemma PngSegment(rest: string)
    requires '.' !in rest
    ensures LabelName(PNG + rest) == TXT + rest
  {
    ExtensionsDotLed();
    var s := PNG + rest;
    ExtensionThenRest(PNG, rest);
    assert s[1] == 'p' && JPG[1] == 'j';
    SegmentReplace(s, JPG, TXT);
    SegmentReplace(s, PNG, TXT);
    RewrittenSegment(rest);
  }

  /** A segment that begins with ".jpeg": ".jpg" is not part of it, so only the third pass rewrites it. */
  lemma JpegSegment(rest: string)
    requires '.' !in rest
    ensures LabelName(JPEG + rest) == TXT + rest
  {
    ExtensionsDotLed();
    var s := JPEG + rest;
    ExtensionThenRest(JPEG, rest);
    assert s[1] == 'j' && s[3] == 'e' && JPG[3] == 'g' && PNG[1] == 'p';
    SegmentReplace(s, JPG, TXT);
    SegmentReplace(s, PNG, TXT);
    SegmentReplace(s, JPEG, TXT);
  }

  /** The single pass rewrites a leading extension and leaves the dot-free rest. */
  lemma RelabelExtensionSegment(e: string, rest: string)
    requires IsExtension(e) && '.' !in rest
    ensures Relabel(e + rest) == TXT + rest
  {
    var s := e + rest;
    ExtensionThenRest(e, rest);
    assert e == PNG ==> s[1] == 'p' && JPG[1] == 'j';
    assert e == JPEG ==> s[1] == 'j' && s[3] == 'e' && JPG[3] == 'g' && PNG[1] == 'p';
    RelabelDotFree(rest);
  }

  /** A segment that begins with an image extension: only that extension is rewritten. */
  lemma ExtensionSegment(e: string, rest: string)
    requires IsExtension(e) && '.' !in rest
    ensures LabelName(e + rest) == TXT + rest
    ensures Relabel(e + rest) == TXT + rest
  {
    RelabelExtensionSegment(e, rest);
    if e == JPG {
      JpgSegment(rest);
    } else if e == PNG {
      PngSegment(rest);
    } else {
      JpegSegment(rest);
    }
  }

  /** A dot segment that begins with no image extension is left as it is. */
  lemma PlainSegment(s: string)
    requires s != [] && s[0] == '.' && '.' !in s[1..]
    requires !StartsWith(s, JPG) && !StartsWith(s, PNG) && !StartsWith(s, JPEG)
    ensures LabelName(s) == s
    ensures Relabel(s) == s
  {
    ExtensionsDotLed();
    SegmentReplace(s, JPG, TXT);
    SegmentReplace(s, PNG, TXT);
    SegmentReplace(s, JPEG, TXT);
    RelabelDotFree(s[1..]);
  }

  /** A name without dots is left alone by the three passes and by the single pass. */
  lemma DotFreeUnchanged(s: string)
    requires '.' !in s
    ensures LabelName(s) == s && Relabel(s) == s
  {
    ExtensionsDotLed();
    DotFreeContainsNone(s, JPG);
    DotFreeContainsNone(s, PNG);
    DotFreeContainsNone(s, JPEG);
    RelabelDotFree(s);
  }

  /** A dot segment that begins with the extension `e`. */
  lemma SegmentWithExtension(h: string, e: string)
    requires IsExtension(e) && StartsWith(h, e) && '.' !in h[1..]
    ensures LabelName(h) == Relabel(h)
  {
    var rest := h[|e|..];
    assert h == e + rest;
    assert forall c :: c in rest ==> c in h[1..];
    ExtensionSegment(e, rest);
  }

  /** On a single dot segment the three passes agree with the single pass. */
  lemma LabelNameSegment(h: string)
    requires h != [] && '.' !in h[1..]
    ensures LabelName(h) == Relabel(h)
  {
    if h[0] != '.' {
      assert '.' !in h by {
        assert h == [h[0]] + h[1..];
      }
      DotFreeUnchanged(h);
    } else if StartsWith(h, JPG) {
      SegmentWithExtension(h, JPG);
    } else if StartsWith(h, PNG) {
      SegmentWithExtension(h, PNG);
    } else if StartsWith(h, JPEG) {
      SegmentWithExtension(h, JPEG);
    } else {
      PlainSegment(h);
    }
  }

  /**
   * The chained replace passes equal the single left-to-right pass: no pass undoes or
   * re-creates what another pass matched.
   */
  lemma {:induction false} LabelNameIsRelabel(s: string)
    ensures LabelName(s) == Relabel(s)
    decreases |s|
  {
    if s != [] {
      var k := 1 + DotFreePrefixLength(s[1..]);
      var h, t := s[..k], s[k..];
      assert s == h + t;
      assert h[1..] == s[1..][..k - 1];
      assert t == s[1..][k - 1..];
      LabelNameAppend(h, t);
      RelabelAppend(h, t);
      LabelNameSegment(h);
      LabelNameIsRelabel(t);
    }
  }

  /** Which image extension `f` ends with. */
  function ImageExtension(f: string): (e: string)
    requires IsImageName(f)
    ensures IsExtension(e) && EndsWith(f, e)
  {
    if EndsWith(f, JPG) then JPG else if EndsWith(f, PNG) then PNG else JPEG
  }

  /** An extension on its own becomes ".txt". */
  lemma ExtensionLabel(e: string)
    requires IsExtension(e)
    ensures LabelName(e) == TXT
  {
    assert e == e + [];
    ExtensionSegment(e, []);
  }

  /** The label of an image name is the label of its stem followed by ".txt". */
  lemma LabelNameOfImage(f: string)
    requires IsImageName(f)
    ensures LabelName(f) == LabelName(f[..|f| - |ImageExtension(f)|]) + TXT
    ensures EndsWith(LabelName(f), TXT)
  {
    var e := ImageExtension(f);
    var stem := f[..|f| - |e|];
    assert f == stem + e;
    ExtensionsDotLed();
    LabelNameAppend(stem, e);
    ExtensionLabel(e);
  }

  /** A stem holding none of the three extensions keeps its name; only the extension changes. */
  lemma LabelNameOfPlainStem(stem: string, e: string)
    requires IsExtension(e)
    requires !Contains(stem, JPG) && !Contains(stem, PNG) && !Contains(stem, JPEG)
    ensures LabelName(stem + e) == stem + TXT
  {
    ExtensionsDotLed();
    LabelNameAppend(stem, e);
    ExtensionLabel(e);
  }

  /**
   * The replace is global, not a suffix swap: an extension inside the stem is rewritten too,
   * so "a.png.jpg" becomes "a.txt.txt".
   */
  lemma LabelNameRewritesInnerExtensions()
    ensures LabelName("a" + PNG + JPG) == "a" + TXT + TXT
  {
    ExtensionsDotLed();
    LabelNameAppend("a" + PNG, JPG);
    LabelNameAppend("a", PNG);
    DotFreeUnchanged("a");
    ExtensionLabel(PNG);
    ExtensionLabel(JPG);
  }

  /** A name without "/" keeps having none: the label stays in the directory it is written to. */
  lemma LabelNameNoSeparator(file: string)
    requires '/' !in file
    ensures '/' !in LabelName(file)
  {
    ReplaceAvoids(file, JPG, TXT, '/');
    ReplaceAvoids(Replace(file, JPG, TXT), PNG, TXT, '/');
    ReplaceAvoids(Replace(Replace(file, JPG, TXT), PNG, TXT), JPEG, TXT, '/');
  }
}
