/**
 The part of PHP's `pathinfo()` that the request handler relies on: the
 basename of a path (trailing slashes stripped, then everything after the
 last `/`) and its extension (everything after the last `.` of the basename,
 absent when the basename has no dot). Only `/` separates segments, as on
 every non-Windows host.
 */
module PathInfo {

  datatype Option<+T> = None | Some(value: T) {
    /** The contained value, or `default` for None. */
    function GetOr(default: T): T {
      match this
      case Some(v) => v
      case None => default
    }
  }

  /** `t` is a suffix of `s`. (Prefixes are written `t <= s`.) */
  predicate EndsWith(s: string, t: string) {
    |t| <= |s| && s[|s| - |t|..] == t
  }

  /** The last character of `s` is a slash; false for the empty string. */
  predicate EndsWithSlash(s: string) {
    |s| > 0 && s[|s| - 1] == '/'
  }

  /** Index of the last occurrence of `c` in `s`, if there is one. */
  function LastIndexOf(s: string, c: char): (r: Option<nat>)
    ensures r.None? <==> c !in s
    ensures r.Some? ==> r.value < |s| && s[r.value] == c
    ensures r.Some? ==> forall j | r.value < j < |s| :: s[j] != c
  {
    if |s| == 0 then None
    else if s[|s| - 1] == c then Some(|s| - 1)
    else
      assert s == s[..|s| - 1] + [s[|s| - 1]];
      LastIndexOf(s[..|s| - 1], c)
  }

  /** `s` with every trailing slash removed. */
  function TrimTrailingSlashes(s: string): (r: string)
    ensures r <= s && !EndsWithSlash(r)
    ensures forall k | |r| <= k < |s| :: s[k] == '/'
  {
    if EndsWithSlash(s) then TrimTrailingSlashes(s[..|s| - 1]) else s
  }

  /** The text after the last slash of `t` (all of `t` when it has none). */
  function AfterLastSlash(t: string): (b: string)
    ensures '/' !in b && EndsWith(t, b)
    ensures |b| < |t| ==> t[|t| - |b| - 1] == '/'
  {
    match LastIndexOf(t, '/')
    case None => t
    case Some(i) => t[i + 1..]
  }

  /** PHP's `basename()`: the final segment of `path`, ignoring trailing slashes. */
  function Basename(path: string): (b: string)
    ensures '/' !in b
    ensures !EndsWithSlash(path) ==> EndsWith(path, b)
    ensures !EndsWithSlash(path) && |b| < |path| ==> path[|path| - |b| - 1] == '/'
  {
    AfterLastSlash(TrimTrailingSlashes(path))
  }

  /** The text after the last dot of a segment, or None when it has no dot. */
  function DotExtension(b: string): (r: Option<string>)
    ensures r.None? <==> '.' !in b
    ensures r.Some? ==> '.' !in r.value && EndsWith(b, ['.'] + r.value)
  {
    match LastIndexOf(b, '.')
    case None => None
    case Some(i) =>
      assert b[i] in b && b[i..] == ['.'] + b[i + 1..];
      Some(b[i + 1..])
  }

  /**
   The `extension` entry of PHP's `pathinfo()`: the text after the last dot
   of the basename, or None when the basename holds no dot (PHP then leaves
   the entry out of the array).
   */
  function Extension(path: string): (r: Option<string>)
    ensures r.None? <==> '.' !in Basename(path)
    ensures r.Some? ==> '.' !in r.value && '/' !in r.value
    ensures r.Some? ==> EndsWith(Basename(path), ['.'] + r.value)
  {
    var b := Basename(path);
    var r := DotExtension(b);
    assert r.Some? ==> '/' !in r.value by {
      if r.Some? { NotInSuffix(b, ['.'] + r.value, '/'); }
    }
    r
  }

  // ---------------------------------------------------------------------------
  // Helper facts about suffixes

  /** A character missing from a string is missing from its suffixes. */
  lemma NotInSuffix(s: string, t: string, c: char)
    requires EndsWith(s, t) && c !in s
    ensures c !in t
  {
  }

  /** A suffix of a suffix is a suffix. */
  lemma EndsWithTransitive(a: string, b: string, c: string)
    requires EndsWith(a, b) && EndsWith(b, c)
    ensures EndsWith(a, c)
  {
    assert a[|a| - |c|..] == b[|b| - |c|..];
  }

  /** Whatever ends a string also ends that string with anything put before it. */
  lemma EndsWithAfterPrefix(prefix: string, s: string, t: string)
    requires EndsWith(s, t)
    ensures EndsWith(prefix + s, t)
  {
    assert (prefix + s)[|prefix + s| - |t|..] == s[|s| - |t|..];
  }

  /** A string ending in `.e`, for a slash-free `e`, does not end in a slash. */
  lemma DotSuffixIsNotSlash(s: string, e: string)
    requires '/' !in e && EndsWith(s, ['.'] + e)
    ensures !EndsWithSlash(s)
  {
    var t := ['.'] + e;
    assert s[|s| - 1] == t[|t| - 1];
    assert t[|t| - 1] in t;
  }

  /** The three properties of LastIndexOf's contract single out one index. */
  lemma LastIndexOfUnique(s: string, c: char, i: nat)
    requires i < |s| && s[i] == c
    requires forall j | i < j < |s| :: s[j] != c
    ensures LastIndexOf(s, c) == Some(i)
  {
    assert s[i] in s;
  }

  // ---------------------------------------------------------------------------
  // Properties of basename and extension

  /** Trailing slashes never change the basename, as with PHP's `basename("a/b/")`. */
  lemma BasenameIgnoresTrailingSlash(path: string)
    ensures Basename(path + "/") == Basename(path)
  {
    assert (path + "/")[..|path|] == path;
    assert TrimTrailingSlashes(path + "/") == TrimTrailingSlashes(path);
  }

  /** A path without slashes is its own basename. */
  lemma BasenameOfSegment(name: string)
    requires '/' !in name
    ensures Basename(name) == name
  {
    assert !EndsWithSlash(name) by {
      if |name| > 0 { assert name[|name| - 1] in name; }
    }
    assert TrimTrailingSlashes(name) == name;
  }

  /** The basename of `dir/name` is `name`, whatever `dir` holds. */
  lemma BasenameAfterSlash(dir: string, name: string)
    requires name != [] && '/' !in name
    ensures Basename(dir + "/" + name) == name
  {
    var p := dir + "/" + name;
    assert p[|p| - 1] == name[|name| - 1];
    assert name[|name| - 1] in name;
    assert TrimTrailingSlashes(p) == p;
    assert p[|dir|] == '/' && p[|dir| + 1..] == name;
    forall j | |dir| < j < |p| ensures p[j] != '/' {
      assert p[j] == name[j - |dir| - 1];
    }
    LastIndexOfUnique(p, '/', |dir|);
  }

  /**
   Only the final segment decides the extension: the dots (or lack of them)
   in the directories before it never matter.
   */
  lemma ExtensionIgnoresDirectories(dir: string, name: string)
    requires name != [] && '/' !in name
    ensures Extension(dir + "/" + name) == Extension(name)
  {
    BasenameAfterSlash(dir, name);
    BasenameOfSegment(name);
  }

  /**
   A slash-free suffix `s` of `p` fits inside any suffix `b` of `p` that is
   preceded by a slash (or is all of `p`).
   */
  lemma SlashFreeSuffixFits(p: string, b: string, s: string)
    requires '/' !in s && EndsWith(p, s) && EndsWith(p, b)
    requires |b| < |p| ==> p[|p| - |b| - 1] == '/'
    ensures EndsWith(b, s)
  {
    forall k | |p| - |s| <= k < |p| ensures p[k] != '/' {
      assert p[k] == s[k - (|p| - |s|)];
      assert s[k - (|p| - |s|)] in s;
    }
    assert b[|b| - |s|..] == p[|p| - |s|..];
  }

  /** A slash-free suffix of a path that does not end in a slash lies inside its basename. */
  lemma SuffixWithinBasename(path: string, s: string)
    requires !EndsWithSlash(path) && '/' !in s && EndsWith(path, s)
    ensures EndsWith(Basename(path), s)
  {
    SlashFreeSuffixFits(path, Basename(path), s);
  }

  /** In a segment ending in `.e`, with no dot in `e`, the extension is `e`. */
  lemma DotExtensionOfSuffix(b: string, e: string)
    requires '.' !in e && EndsWith(b, ['.'] + e)
    ensures DotExtension(b) == Some(e)
  {
    var i := |b| - |e| - 1;
    assert b[i..] == ['.'] + e;
    assert b[i] == '.';
    forall j | i < j < |b| ensures b[j] != '.' {
      assert b[j] == e[j - i - 1];
      assert e[j - i - 1] in e;
    }
    LastIndexOfUnique(b, '.', i);
    assert b[i + 1..] == e;
  }

  /** The extension, dot included, ends the path it was taken from. */
  lemma ExtensionEndsPath(path: string)
    requires !EndsWithSlash(path) && Extension(path).Some?
    ensures EndsWith(path, ['.'] + Extension(path).value)
  {
    EndsWithTransitive(path, Basename(path), ['.'] + Extension(path).value);
  }

  /** A path ending in `.e`, for a dot-free and slash-free `e`, has extension `e`. */
  lemma ExtensionFromSuffix(path: string, e: string)
    requires '.' !in e && '/' !in e && EndsWith(path, ['.'] + e)
    ensures Extension(path) == Some(e)
  {
    DotSuffixIsNotSlash(path, e);
    var b := Basename(path);
    assert '/' !in ['.'] + e;
    SuffixWithinBasename(path, ['.'] + e);
    DotExtensionOfSuffix(b, e);
  }

  /**
   For a path that does not end in a slash, the extension is `e` exactly
   when the path ends in `.e` and `e` holds neither a dot nor a slash.
   */
  lemma ExtensionBySuffix(path: string, e: string)
    requires !EndsWithSlash(path)
    ensures Extension(path) == Some(e) <==> '.' !in e && '/' !in e && EndsWith(path, ['.'] + e)
  {
    if Extension(path) == Some(e) {
      ExtensionEndsPath(path);
    } else if '.' !in e && '/' !in e && EndsWith(path, ['.'] + e) {
      ExtensionFromSuffix(path, e);
    }
  }

  /** A segment without a dot has no extension at all. */
  lemma NoExtensionWithoutDot(name: string)
    requires '/' !in name && '.' !in name
    ensures Extension(name) == None
  {
    BasenameOfSegment(name);
  }
}
