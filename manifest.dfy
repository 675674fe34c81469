/**
 * The class list and the manifest record (yoyo2yaml.py, lines 14 and 49-55): the class
 * file is read line by line, each line is stripped of surrounding whitespace, and the
 * manifest carries three fixed image-directory paths, the class count and the names.
 */
module Manifests {
  import opened PyStr

  const NEWLINE: char := '\n'

  /** The length of the first line of `text`, its line break included when it has one. */
  function FirstLineLength(text: string): (n: nat)
    requires text != []
    ensures 1 <= n <= |text|
    ensures forall k :: 0 <= k < n - 1 ==> text[k] != NEWLINE
    ensures n < |text| ==> text[n - 1] == NEWLINE
    decreases |text|
  {
    if text[0] == NEWLINE || |text| == 1 then 1 else 1 + FirstLineLength(text[1..])
  }

  /**
   * `f.readlines()`: the text cut after every line break; each line keeps its break, and
   * a last line without one is kept as it is.
   */
  function ReadLines(text: string): (lines: seq<string>)
    ensures (lines == []) == (text == [])
    ensures |lines| <= |text|
    decreases |text|
  {
    if text == [] then []
    else
      var n := FirstLineLength(text);
      [text[..n]] + ReadLines(text[n..])
  }

  /** The lines written one after the other. */
  function Concat(lines: seq<string>): string
    decreases |lines|
  {
    if lines == [] then [] else lines[0] + Concat(lines[1..])
  }

  /** How many line breaks `text` holds. */
  function NewlineCount(text: string): nat
    decreases |text|
  {
    if text == [] then 0 else (if text[0] == NEWLINE then 1 else 0) + NewlineCount(text[1..])
  }

  /** How many lines `text` has: one per line break, plus one for a last line without a break. */
  function LineCount(text: string): nat {
    NewlineCount(text) + if text == [] || text[|text| - 1] == NEWLINE then 0 else 1
  }

  /** A line as `readlines` returns it: not empty, and a break can only be its last character. */
  predicate IsLine(line: string) {
    line != [] && forall k :: 0 <= k < |line| - 1 ==> line[k] != NEWLINE
  }

  lemma CutAndJoin(text: string, n: nat)
    requires n <= |text|
    ensures text[..n] + text[n..] == text
  {
  }

  /** Reading the lines loses nothing: written back one after the other they give the text. */
  lemma {:induction false} ReadLinesConcat(text: string)
    ensures Concat(ReadLines(text)) == text
    decreases |text|
  {
    if text != [] {
      var n := FirstLineLength(text);
      ReadLinesConcat(text[n..]);
      assert ReadLines(text)[1..] == ReadLines(text[n..]);
      CutAndJoin(text, n);
    }
  }

  /** Every line is a proper line, and every line but the last ends in a line break. */
  lemma {:induction false} ReadLinesShape(text: string)
    ensures forall i :: 0 <= i < |ReadLines(text)| ==> IsLine(ReadLines(text)[i])
    ensures forall i :: 0 <= i < |ReadLines(text)| - 1 ==> EndsWith(ReadLines(text)[i], [NEWLINE])
    decreases |text|
  {
    if text != [] {
      var n := FirstLineLength(text);
      var lines, rest := ReadLines(text), ReadLines(text[n..]);
      ReadLinesShape(text[n..]);
      assert lines == [text[..n]] + rest;
      forall i | 0 <= i < |lines| ensures IsLine(lines[i]) {
        if i > 0 {
          assert lines[i] == rest[i - 1];
        }
      }
      forall i | 0 <= i < |lines| - 1 ensures EndsWith(lines[i], [NEWLINE]) {
        if i > 0 {
          assert lines[i] == rest[i - 1];
        } else {
          assert rest != [] && n < |text|;
          assert lines[0][n - 1..] == [NEWLINE];
        }
      }
    }
  }

  lemma {:induction false} NewlineCountAppend(a: string, b: string)
    ensures NewlineCount(a + b) == NewlineCount(a) + NewlineCount(b)
    decreases |a|
  {
    if a == [] {
      assert a + b == b;
    } else {
      assert (a + b)[0] == a[0] && (a + b)[1..] == a[1..] + b;
      NewlineCountAppend(a[1..], b);
    }
  }

  lemma {:induction false} NewlineCountNone(s: string)
    requires forall k :: 0 <= k < |s| ==> s[k] != NEWLINE
    ensures NewlineCount(s) == 0
    decreases |s|
  {
    if s != [] {
      NewlineCountNone(s[1..]);
    }
  }

  /** The first line holds a line break only if it ends in one. */
  lemma FirstLineNewlines(text: string)
    requires text != []
    ensures var n := FirstLineLength(text);
            NewlineCount(text[..n]) == if text[n - 1] == NEWLINE then 1 else 0
  {
    var n := FirstLineLength(text);
    var line := text[..n];
    NewlineCountNone(line[..n - 1]);
    assert line == line[..n - 1] + [line[n - 1]];
    NewlineCountAppend(line[..n - 1], [line[n - 1]]);
    assert [line[n - 1]][1..] == [];
  }

  lemma SameLastCharacter(text: string, n: nat)
    requires n < |text|
    ensures text[|text| - 1] == text[n..][|text| - n - 1]
  {
  }

  /** `readlines` returns one line per line break, plus one for a last line without a break. */
  lemma {:induction false} ReadLinesCount(text: string)
    ensures |ReadLines(text)| == LineCount(text)
    decreases |text|
  {
    if text != [] {
      var n := FirstLineLength(text);
      var rest := text[n..];
      ReadLinesCount(rest);
      assert |ReadLines(text)| == 1 + |ReadLines(rest)|;
      CutAndJoin(text, n);
      NewlineCountAppend(text[..n], rest);
      FirstLineNewlines(text);
      if rest != [] {
        SameLastCharacter(text, n);
      }
    }
  }

  /** Line 14: `[line.strip() for line in f.readlines()]`. */
  function ClassNames(text: string): (names: seq<string>)
    ensures |names| == |ReadLines(text)|
  {
    var lines := ReadLines(text);
    seq(|lines|, i requires 0 <= i < |lines| => Strip(lines[i]))
  }

  /** `name` is `line` with a front and a back of whitespace cut off. */
  ghost predicate StrippedFrom(name: string, line: string) {
    exists a, b :: 0 <= a <= b <= |line| && name == line[a..b]
                   && (forall k :: 0 <= k < a ==> IsSpace(line[k]))
                   && (forall k :: b <= k < |line| ==> IsSpace(line[k]))
  }

  /**
   * Each class name is its line with a whitespace front and back cut off; the name begins
   * and ends with no whitespace, and so holds no line break.
   */
  lemma ClassNamesAreStrippedLines(text: string)
    ensures forall i :: 0 <= i < |ClassNames(text)| ==> StrippedFrom(ClassNames(text)[i], ReadLines(text)[i])
    ensures forall i :: 0 <= i < |ClassNames(text)| ==>
              ClassNames(text)[i] == [] || (!IsSpace(ClassNames(text)[i][0]) && !IsSpace(ClassNames(text)[i][|ClassNames(text)[i]| - 1]))
    ensures forall i :: 0 <= i < |ClassNames(text)| ==> NEWLINE !in ClassNames(text)[i]
  {
    var names, lines := ClassNames(text), ReadLines(text);
    ReadLinesShape(text);
    forall i | 0 <= i < |names|
      ensures StrippedFrom(names[i], lines[i])
      ensures names[i] == [] || (!IsSpace(names[i][0]) && !IsSpace(names[i][|names[i]| - 1]))
      ensures NEWLINE !in names[i]
    {
      assert names[i] == Strip(lines[i]);
      StripSlice(lines[i]);
      StrippedLineHasNoBreak(lines[i]);
    }
  }

  /** A line break, being whitespace at the very end of a line, never survives the strip. */
  lemma StrippedLineHasNoBreak(line: string)
    requires IsLine(line)
    ensures NEWLINE !in Strip(line)
  {
    var t := TrimStart(line);
    var r := TrimEnd(t);
    assert Strip(line) == r;
    var n := |line| - |t|;
    forall j | 0 <= j < |r| ensures r[j] != NEWLINE {
      StripIndex(line, t, r, n, j);
      if j == |r| - 1 {
        assert IsSpace(NEWLINE);
      }
    }
  }

  /** Position `j` of the stripped line is position `n + j` of the line. */
  lemma StripIndex(line: string, t: string, r: string, n: nat, j: nat)
    requires n <= |line| && t == line[n..] && |r| <= |t| && r == t[..|r|] && j < |r|
    ensures r[j] == line[n + j] && n + j < |line|
  {
  }

  /** The `data` dictionary of lines 49-55. */
  datatype Manifest = Manifest(train: string, val: string, test: string, nc: nat, names: seq<string>)

  const TRAIN_PATH: string := "../images/train"
  const VAL_PATH: string := "../images/val"
  const TEST_PATH: string := "../images/test"

  /** Lines 49-55: the class count is the length of the name list it is given. */
  function MakeManifest(classes: seq<string>): (m: Manifest)
    ensures m.nc == |m.names| && m.names == classes
    ensures m.train == TRAIN_PATH && m.val == VAL_PATH && m.test == TEST_PATH
  {
    Manifest(TRAIN_PATH, VAL_PATH, TEST_PATH, |classes|, classes)
  }

  /** The class count is the number of lines of the class file, blank ones included. */
  lemma ManifestClassCount(text: string)
    ensures MakeManifest(ClassNames(text)).nc == LineCount(text)
  {
    assert MakeManifest(ClassNames(text)).nc == |ReadLines(text)|;
    ReadLinesCount(text);
  }
}
