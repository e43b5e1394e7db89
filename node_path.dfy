/** The two string operations of Node's standard library that the server calls:
    `path.extname` (POSIX flavour) and `String.prototype.replace` with a string
    pattern, which replaces the first occurrence only. Characters stand for
    JavaScript's UTF-16 code units. Like Node's own `extname`, the path is
    read backwards by index rather than cut into pieces. */
module NodePath {

  /** Index of the first `c` in `s`, or -1 when `s` has none. */
  function IndexOf(s: string, c: char): (r: int)
    ensures -1 <= r < |s|
  {
    if |s| == 0 then -1
    else if s[0] == c then 0
    else
      var k := IndexOf(s[1..], c);
      if k < 0 then -1 else k + 1
  }

  /** IndexOf finds a `c`, and no `c` comes before it; -1 means there is none. */
  lemma {:induction false} IndexOfSpec(s: string, c: char)
    ensures var r := IndexOf(s, c);
      && (r >= 0 ==> s[r] == c)
      && (forall j :: 0 <= j < |s| && (r < 0 || j < r) ==> s[j] != c)
  {
    if |s| > 0 && s[0] != c {
      IndexOfSpec(s[1..], c);
      assert forall j :: 0 < j < |s| ==> s[j] == s[1..][j - 1];
    }
  }

  /** `s.replace(c, rep)` for a one-character string pattern and a
      replacement without `$`: the first occurrence of `c`, if any, is
      replaced by `rep`. JavaScript would expand `$` patterns in `rep`; the
      server passes the empty replacement, which has none. */
  function ReplaceFirst(s: string, c: char, rep: string): (r: string)
    ensures |s| > 0 && s[0] == c ==> r == rep + s[1..]
  {
    var i := IndexOf(s, c);
    if i < 0 then s else s[..i] + rep + s[i + 1..]
  }

  /** A string without the pattern is left as it is, and otherwise exactly
      one character, the first `c`, is replaced. */
  lemma ReplaceFirstSpec(s: string, c: char, rep: string)
    ensures c !in s ==> ReplaceFirst(s, c, rep) == s
    ensures c in s ==>
      exists i :: 0 <= i < |s| && s[i] == c && c !in s[..i] && ReplaceFirst(s, c, rep) == s[..i] + rep + s[i + 1..]
  {
    IndexOfSpec(s, c);
    var i := IndexOf(s, c);
    if i >= 0 {
      assert c !in s[..i];
    }
  }

  /** Index of the last `c` among the first `n` characters of `s`, or -1. */
  function LastIndexBefore(s: string, c: char, n: nat): (r: int)
    requires n <= |s|
    ensures -1 <= r < n
  {
    if n == 0 then -1
    else if s[n - 1] == c then n - 1
    else LastIndexBefore(s, c, n - 1)
  }

  /** LastIndexBefore finds a `c`, and no `c` comes after it before `n`. */
  lemma {:induction false} LastIndexBeforeSpec(s: string, c: char, n: nat)
    requires n <= |s|
    ensures var r := LastIndexBefore(s, c, n);
      && (r >= 0 ==> s[r] == c)
      && (forall j :: r < j < n ==> s[j] != c)
  {
    if n > 0 && s[n - 1] != c {
      LastIndexBeforeSpec(s, c, n - 1);
    }
  }

  /** A `c` with no `c` after it before `n` is the one LastIndexBefore finds. */
  lemma LastIndexBeforeIs(s: string, c: char, n: nat, k: int)
    requires n <= |s| && -1 <= k < n
    requires k >= 0 ==> s[k] == c
    requires forall j :: k < j < n ==> s[j] != c
    ensures LastIndexBefore(s, c, n) == k
  {
    LastIndexBeforeSpec(s, c, n);
  }

  /** LastIndexBefore reads only the first `n` characters. */
  lemma {:induction false} LastIndexBeforePrefix(s: string, t: string, c: char, n: nat)
    requires n <= |s| && n <= |t|
    requires forall j :: 0 <= j < n ==> s[j] == t[j]
    ensures LastIndexBefore(s, c, n) == LastIndexBefore(t, c, n)
  {
    if n > 0 && s[n - 1] != c {
      LastIndexBeforePrefix(s, t, c, n - 1);
    }
  }

  /** The end of the first `n` characters of `s` once trailing `/` are dropped. */
  function TrimmedEnd(s: string, n: nat): (e: nat)
    requires n <= |s|
    ensures e <= n
  {
    if n > 0 && s[n - 1] == '/' then TrimmedEnd(s, n - 1) else n
  }

  /** Trimming stops at a character that is not `/` and drops only slashes. */
  lemma {:induction false} TrimmedEndSpec(s: string, n: nat)
    requires n <= |s|
    ensures var e := TrimmedEnd(s, n);
      && (e == 0 || s[e - 1] != '/')
      && (forall j :: e <= j < n ==> s[j] == '/')
  {
    if n > 0 && s[n - 1] == '/' {
      TrimmedEndSpec(s, n - 1);
    }
  }

  /** TrimmedEnd reads only the first `n` characters. */
  lemma {:induction false} TrimmedEndPrefix(s: string, t: string, n: nat)
    requires n <= |s| && n <= |t|
    requires forall j :: 0 <= j < n ==> s[j] == t[j]
    ensures TrimmedEnd(s, n) == TrimmedEnd(t, n)
  {
    if n > 0 && s[n - 1] == '/' {
      TrimmedEndPrefix(s, t, n - 1);
    }
  }

  /** Node's `path.extname` (POSIX). Past the trailing slashes, the last
      component runs from just after the `/` before it to `end`; the extension
      is that component's text from its last `.` to `end`. It is empty when
      the component has no `.`, when its only `.` is its first character (a
      hidden file such as `.bashrc`), and for the component `..`. */
  function ExtName(path: string): string
  {
    var end := TrimmedEnd(path, |path|);
    var start := LastIndexBefore(path, '/', end) + 1;
    var dot := LastIndexBefore(path, '.', end);
    if dot <= start || path[start..end] == ".." then "" else path[dot..end]
  }

  /** An extension is empty, or a `.` followed by text with no `.` and no `/`. */
  lemma ExtNameShape(path: string)
    ensures var e := ExtName(path);
      e == [] || (e[0] == '.' && '.' !in e[1..] && '/' !in e)
  {
    var end := TrimmedEnd(path, |path|);
    var start := LastIndexBefore(path, '/', end) + 1;
    var dot := LastIndexBefore(path, '.', end);
    LastIndexBeforeSpec(path, '/', end);
    LastIndexBeforeSpec(path, '.', end);
    if dot > start && path[start..end] != ".." {
      var e := path[dot..end];
      assert forall j :: 0 <= j < |e| ==> e[j] == path[dot + j];
    }
  }

  /** Trailing slashes do not change the extension: `/a.css/` has `.css`. */
  lemma ExtNameIgnoresTrailingSlash(path: string)
    ensures ExtName(path + "/") == ExtName(path)
  {
    var p := path + "/";
    assert forall j :: 0 <= j < |path| ==> p[j] == path[j];
    TrimmedEndPrefix(p, path, |path|);
    var end := TrimmedEnd(path, |path|);
    assert TrimmedEnd(p, |p|) == end;
    LastIndexBeforePrefix(p, path, '/', end);
    LastIndexBeforePrefix(p, path, '.', end);
    var start := LastIndexBefore(path, '/', end) + 1;
    var dot := LastIndexBefore(path, '.', end);
    assert p[start..end] == path[start..end];
    if dot > start {
      assert p[dot..end] == path[dot..end];
    }
  }

  /** The path `dir/name`, for a non-empty `name` without `/`: its last
      component is `name`, right after the `/` at index `|dir|`. */
  lemma LastComponentOf(dir: string, name: string)
    requires name != [] && '/' !in name
    ensures var p := dir + "/" + name;
      && TrimmedEnd(p, |p|) == |p|
      && LastIndexBefore(p, '/', |p|) == |dir|
      && p[|dir| + 1..] == name
  {
    var p := dir + "/" + name;
    assert p[|p| - 1] == name[|name| - 1];
    assert forall j :: |dir| < j < |p| ==> p[j] == name[j - |dir| - 1];
    LastIndexBeforeIs(p, '/', |p|, |dir|);
  }

  /** In `dir/stem.ext` with a dot-free `ext`, the last `.` is the one after `stem`. */
  lemma LastDotOfFileName(dir: string, stem: string, ext: string)
    requires '.' !in ext
    ensures var p := dir + "/" + (stem + "." + ext);
      LastIndexBefore(p, '.', |p|) == |dir| + 1 + |stem|
  {
    var name := stem + "." + ext;
    var p := dir + "/" + name;
    forall j | |dir| + 1 + |stem| < j < |p| ensures p[j] != '.' {
      assert p[j] == name[j - |dir| - 1] == ext[j - |dir| - 2 - |stem|];
    }
    assert p[|dir| + 1 + |stem|] == name[|stem|] == '.';
    LastIndexBeforeIs(p, '.', |p|, |dir| + 1 + |stem|);
  }

  /** `stem.ext` spells `..` only for the stem `.` and the empty extension. */
  lemma DotDotFileName(stem: string, ext: string)
    requires stem != []
    ensures stem + "." + ext == ".." <==> stem == "." && ext == ""
  {
    var name := stem + "." + ext;
    if |stem| == 1 && ext == [] {
      assert name == [stem[0], '.'];
    } else {
      assert |name| != 2;
    }
  }

  /** ExtName of a path without trailing slash, given where its last `/`
      and its last `.` are. */
  lemma ExtNameAt(p: string, slash: int, dot: int)
    requires p != [] && p[|p| - 1] != '/'
    requires LastIndexBefore(p, '/', |p|) == slash && LastIndexBefore(p, '.', |p|) == dot
    ensures ExtName(p) == if dot <= slash + 1 || p[slash + 1..] == ".." then "" else p[dot..]
  {
    assert TrimmedEnd(p, |p|) == |p|;
  }

  /** A file name `stem.ext` under any directory has the extension `.ext`
      (for the one name `..`, where `stem` is `.` and `ext` is empty, it has none). */
  lemma ExtNameOfFileName(dir: string, name: string, stem: string, ext: string)
    requires name == stem + "." + ext
    requires stem != [] && '/' !in stem
    requires '/' !in ext && '.' !in ext
    ensures ExtName(dir + "/" + name) == if stem == "." && ext == "" then "" else "." + ext
  {
    var p := dir + "/" + name;
    LastComponentOf(dir, name);
    LastDotOfFileName(dir, stem, ext);
    ExtNameAt(p, |dir|, |dir| + 1 + |stem|);
    DotDotFileName(stem, ext);
    assert p[|dir| + 1 + |stem|..] == name[|stem|..] == "." + ext;
  }

  /** A file name without a `.` under any directory has no extension. */
  lemma ExtNameWithoutDot(dir: string, name: string)
    requires name != [] && '/' !in name && '.' !in name
    ensures ExtName(dir + "/" + name) == ""
  {
    var p := dir + "/" + name;
    LastComponentOf(dir, name);
    LastIndexBeforeSpec(p, '.', |p|);
  }
}
