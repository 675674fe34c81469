/** POSIX path handling as `os.path.join` and `os.path.basename` do it, on strings. */
module Paths {
  import opened PyStr

  const SEP: string := "/"

  /**
   * `os.path.join(path, name)` on POSIX: an absolute `name` replaces `path`; otherwise
   * `name` is appended, with a "/" in between unless `path` is empty or already ends in one.
   */
  function Join(path: string, name: string): (r: string)
    ensures EndsWith(r, name)
    ensures StartsWith(name, SEP) ==> r == name
    ensures !StartsWith(name, SEP) ==> StartsWith(r, path) && |r| <= |path| + 1 + |name|
  {
    if StartsWith(name, SEP) then name
    else if path == [] || EndsWith(path, SEP) then path + name
    else path + SEP + name
  }

  /** `os.path.join(path, *names)`: the names joined on from left to right. */
  function JoinAll(path: string, names: seq<string>): (r: string)
    ensures names == [] ==> r == path
    ensures names != [] ==> EndsWith(r, names[|names| - 1])
    decreases |names|
  {
    if names == [] then path
    else
      var rest := names[1..];
      assert rest != [] ==> rest[|rest| - 1] == names[|names| - 1];
      JoinAll(Join(path, names[0]), rest)
  }

  /** Joining several names ends with joining the last one onto the rest. */
  lemma {:induction false} JoinAllLast(path: string, names: seq<string>, name: string)
    ensures JoinAll(path, names + [name]) == Join(JoinAll(path, names), name)
    decreases |names|
  {
    if names == [] {
      assert names + [name] == [name];
    } else {
      assert (names + [name])[1..] == names[1..] + [name];
      JoinAllLast(Join(path, names[0]), names[1..], name);
    }
  }

  /** `os.path.basename(path)`: the part after the last "/", the whole path when it has none. */
  function Basename(path: string): (r: string)
    ensures '/' !in r && EndsWith(path, r)
    ensures r == path || path[|path| - |r| - 1] == '/'
    decreases |path|
  {
    if path == [] || path[|path| - 1] == '/' then []
    else Basename(path[..|path| - 1]) + [path[|path| - 1]]
  }

  /** Appending a name without "/" after a separator (or at the start) gives that name as basename. */
  lemma {:induction false} BasenameAfterSeparator(prefix: string, name: string)
    requires prefix == [] || prefix[|prefix| - 1] == '/'
    requires '/' !in name
    ensures Basename(prefix + name) == name
    decreases |name|
  {
    var whole := prefix + name;
    if name == [] {
      assert whole == prefix;
    } else {
      var init, last := name[..|name| - 1], name[|name| - 1];
      assert name == init + [last];
      assert last in name;
      assert '/' !in init by {
        assert forall c :: c in init ==> c in name;
      }
      assert whole[|whole| - 1] == last;
      assert whole[..|whole| - 1] == prefix + init;
      BasenameAfterSeparator(prefix, init);
    }
  }

  /** Joining a plain file name (no "/") onto any directory keeps that name as the basename. */
  lemma BasenameOfJoin(path: string, name: string)
    requires '/' !in name
    ensures Basename(Join(path, name)) == name
  {
    assert !StartsWith(name, SEP) by {
      if name != [] {
        assert name[0] in name;
      }
    }
    if path == [] || EndsWith(path, SEP) {
      BasenameAfterSeparator(path, name);
    } else {
      assert path + SEP + name == (path + SEP) + name;
      BasenameAfterSeparator(path + SEP, name);
    }
  }
}
