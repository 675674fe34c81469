/** The few Python `str` operations the conversion script relies on, on `seq<char>`. */
module PyStr {

  /** `s.startswith(p)` */
  predicate StartsWith(s: string, p: string) {
    |p| <= |s| && s[..|p|] == p
  }

  /** `s.endswith(p)` */
  predicate EndsWith(s: string, p: string) {
    |p| <= |s| && s[|s| - |p|..] == p
  }

  /** `p in s`: `p` occurs at some position of `s`. */
  predicate Contains(s: string, p: string)
    decreases |s|
  {
    StartsWith(s, p) || (s != [] && Contains(s[1..], p))
  }

  /** A pattern that begins with a dot and has no other dot, such as ".jpg" or ".txt". */
  predicate DotLed(p: string) {
    |p| > 0 && p[0] == '.' && '.' !in p[1..]
  }

  /** `s` is empty or begins with a dot: a place where a dot-led pattern can start but not straddle. */
  predicate DotBoundary(s: string) {
    s == [] || s[0] == '.'
  }

  /**
   * `s.replace(pattern, replacement)`: scanning left to right, every occurrence of
   * `pattern` that does not overlap an earlier replaced one is rewritten. An empty
   * pattern inserts `replacement` before every character and at the end, as Python does.
   */
  function Replace(s: string, pattern: string, replacement: string): (r: string)
    ensures pattern != [] && !Contains(s, pattern) ==> r == s
    decreases |s|
  {
    if pattern == [] then
      if s == [] then replacement else replacement + [s[0]] + Replace(s[1..], pattern, replacement)
    else if s == [] then []
    else if StartsWith(s, pattern) then replacement + Replace(s[|pattern|..], pattern, replacement)
    else [s[0]] + Replace(s[1..], pattern, replacement)
  }

  /** A dot-led pattern cannot start in `a` and end in `b` when `b` begins at a dot. */
  lemma StartsWithAtBoundary(a: string, b: string, p: string)
    requires DotLed(p) && DotBoundary(b) && a != []
    ensures StartsWith(a + b, p) <==> StartsWith(a, p)
  {
    assert forall i :: 0 < i < |p| ==> p[i] == p[1..][i - 1] != '.';
    assert b != [] ==> (a + b)[|a|] == b[0];
    if StartsWith(a, p) {
      assert (a + b)[..|p|] == a[..|p|];
    }
  }

  /** Replacing a dot-led pattern acts separately on the two sides of a dot boundary. */
  lemma {:induction false} ReplaceAppend(a: string, b: string, pattern: string, replacement: string)
    requires DotLed(pattern) && DotBoundary(b)
    ensures Replace(a + b, pattern, replacement)
         == Replace(a, pattern, replacement) + Replace(b, pattern, replacement)
    decreases |a|
  {
    if a == [] {
      assert a + b == b;
    } else {
      StartsWithAtBoundary(a, b, pattern);
      if StartsWith(a, pattern) {
        assert (a + b)[|pattern|..] == a[|pattern|..] + b;
        ReplaceAppend(a[|pattern|..], b, pattern, replacement);
      } else {
        assert (a + b)[1..] == a[1..] + b;
        ReplaceAppend(a[1..], b, pattern, replacement);
      }
    }
  }

  /** A string without dots holds no dot-led pattern. */
  lemma {:induction false} DotFreeContainsNone(s: string, p: string)
    requires '.' !in s && DotLed(p)
    ensures !Contains(s, p)
    decreases |s|
  {
    if s != [] {
      assert s[0] in s;
      assert forall c :: c in s[1..] ==> c in s;
      DotFreeContainsNone(s[1..], p);
    }
  }

  /** The length of the dot-free front of `s`: `s` has its first dot (if any) there. */
  function DotFreePrefixLength(s: string): (n: nat)
    ensures n <= |s| && '.' !in s[..n] && DotBoundary(s[n..])
    decreases |s|
  {
    if s == [] || s[0] == '.' then 0
    else
      var n := 1 + DotFreePrefixLength(s[1..]);
      assert s[..n] == [s[0]] + s[1..][..n - 1];
      n
  }

  /** Replacing a dot-led pattern by a dot-led string keeps a dot boundary at the front. */
  lemma ReplaceKeepsBoundary(s: string, pattern: string, replacement: string)
    requires DotLed(pattern) && DotLed(replacement) && DotBoundary(s)
    ensures DotBoundary(Replace(s, pattern, replacement))
  {
  }

  /** A character that neither the input nor the replacement holds is not in the output. */
  lemma {:induction false} ReplaceAvoids(s: string, pattern: string, replacement: string, c: char)
    requires c !in s && c !in replacement
    ensures c !in Replace(s, pattern, replacement)
    decreases |s|
  {
    if s != [] {
      assert s[0] in s;
      assert forall x :: x in s[1..] ==> x in s;
      if pattern != [] && StartsWith(s, pattern) {
        assert forall x :: x in s[|pattern|..] ==> x in s;
        ReplaceAvoids(s[|pattern|..], pattern, replacement, c);
      } else {
        ReplaceAvoids(s[1..], pattern, replacement, c);
      }
    }
  }

  /**
   * `str.isspace()` for one character: the characters Python treats as whitespace
   * (and therefore strips with `str.strip()` called without arguments).
   */
  predicate IsSpace(c: char) {
    ('\U{0009}' <= c <= '\U{000D}') || ('\U{001C}' <= c <= '\U{0020}')
    || c == '\U{0085}' || c == '\U{00A0}' || c == '\U{1680}'
    || ('\U{2000}' <= c <= '\U{200A}') || c == '\U{2028}' || c == '\U{2029}'
    || c == '\U{202F}' || c == '\U{205F}' || c == '\U{3000}'
  }

  /** `s.lstrip()`: what is left after dropping the leading whitespace. */
  function TrimStart(s: string): (r: string)
    ensures |r| <= |s| && r == s[|s| - |r|..]
    ensures forall i :: 0 <= i < |s| - |r| ==> IsSpace(s[i])
    ensures r == [] || !IsSpace(r[0])
    decreases |s|
  {
    if s != [] && IsSpace(s[0]) then TrimStart(s[1..]) else s
  }

  /** `s.rstrip()`: what is left after dropping the trailing whitespace. */
  function TrimEnd(s: string): (r: string)
    ensures |r| <= |s| && r == s[..|r|]
    ensures forall i :: |r| <= i < |s| ==> IsSpace(s[i])
    ensures r == [] || !IsSpace(r[|r| - 1])
    decreases |s|
  {
    if s != [] && IsSpace(s[|s| - 1]) then TrimEnd(s[..|s| - 1]) else s
  }

  /** `s.strip()`: the result neither begins nor ends with whitespace. */
  function Strip(s: string): (r: string)
    ensures |r| <= |s|
    ensures r == [] || (!IsSpace(r[0]) && !IsSpace(r[|r| - 1]))
  {
    var t := TrimStart(s);
    var r := TrimEnd(t);
    assert r != [] ==> r[0] == t[0];
    r
  }

  /** `Strip(s)` is what is left of `s` once a front and a back of whitespace are cut off. */
  lemma StripSlice(s: string)
    ensures exists i, j :: 0 <= i <= j <= |s| && Strip(s) == s[i..j]
                           && (forall k :: 0 <= k < i ==> IsSpace(s[k]))
                           && (forall k :: j <= k < |s| ==> IsSpace(s[k]))
  {
    var t := TrimStart(s);
    var r := TrimEnd(t);
    var i := |s| - |t|;
    var j := i + |r|;
    assert Strip(s) == s[i..j] by {
      assert t == s[i..] && r == t[..|r|];
    }
    assert forall k :: j <= k < |s| ==> IsSpace(s[k]) by {
      forall k | j <= k < |s| ensures IsSpace(s[k]) {
        assert t == s[i..] && s[k] == t[k - i];
      }
    }
  }

  /** A string without whitespace is its own strip; an all-whitespace string strips to nothing. */
  lemma StripPlain(s: string)
    ensures (forall k :: 0 <= k < |s| ==> !IsSpace(s[k])) ==> Strip(s) == s
    ensures (forall k :: 0 <= k < |s| ==> IsSpace(s[k])) ==> Strip(s) == []
  {
    if forall k :: 0 <= k < |s| ==> !IsSpace(s[k]) {
      assert TrimStart(s) == s;
      assert TrimEnd(s) == s;
    }
    if forall k :: 0 <= k < |s| ==> IsSpace(s[k]) {
      assert TrimStart(s) == [];
    }
  }

  /** Stripping twice is stripping once. */
  lemma StripIdempotent(s: string)
    ensures Strip(Strip(s)) == Strip(s)
  {
    var r := Strip(s);
    assert TrimStart(r) == r;
    assert TrimEnd(r) == r;
  }
}
