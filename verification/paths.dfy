/** POSIX path arithmetic on strings: `os.path.splitext`, joining with `/`
    and the `pathlib` accessors `name`, `parent`, `suffix`, `stem` and
    `with_name`, for paths already in normal form (no empty component, no
    trailing `/`). */
module Paths {
  import opened Text

  /** The extension `os.path.splitext(p)[1]` of a POSIX path: from the last
      `.` of the last component, unless that component is all dots before it. */
  function Ext(p: string): (e: string)
    ensures e == [] || (e[0] == '.' && '.' !in e[1..] && '/' !in e && |e| <= |p| && e == p[|p| - |e|..])
  {
    var sepIndex := RFind(p, '/');
    var dotIndex := RFind(p, '.');
    if dotIndex > sepIndex && exists k :: sepIndex + 1 <= k < dotIndex && p[k] != '.' then
      assert forall k :: dotIndex < k < |p| ==> p[k] != '.' && p[k] != '/';
      p[dotIndex..]
    else ""
  }

  /** `dir / name`: the joined path, a bare `name` when `dir` is empty or `.`. */
  function JoinPath(dir: string, name: string): (p: string)
  {
    if dir == "" || dir == "." then name
    else if dir[|dir| - 1] == '/' then dir + name
    else dir + "/" + name
  }

  /** `p` ends with the path component `n`. */
  predicate EndsWithComponent(p: string, n: string)
  {
    |n| <= |p| && p[|p| - |n|..] == n && (|p| == |n| || p[|p| - |n| - 1] == '/')
  }

  /** The last component of `JoinPath(dir, name)` is `name`. */
  lemma JoinPathShape(dir: string, name: string)
    ensures EndsWithComponent(JoinPath(dir, name), name)
  {
    var p := JoinPath(dir, name);
    if dir == "" || dir == "." {
      assert p == name;
    } else if dir[|dir| - 1] == '/' {
      assert p == dir + name;
    } else {
      assert p == dir + "/" + name;
    }
  }

  /** The last `/` of a path is the one before its last component. */
  lemma ComponentLastSep(p: string, n: string)
    requires EndsWithComponent(p, n) && '/' !in n
    ensures RFind(p, '/') == |p| - |n| - 1
  {
    var pre := p[..|p| - |n|];
    assert p == pre + n;
    LastAfter(pre, '/', n);
  }

  /** A character other than `/` in neither part is not in the joined path. */
  lemma JoinPathAvoids(dir: string, name: string, c: char)
    requires c != '/' && c !in dir && c !in name
    ensures c !in JoinPath(dir, name)
  {
  }

  /** `s.rfind(c)` is pinned down by a position holding `c` with none after it. */
  lemma RFindIs(s: string, c: char, i: int)
    requires i == -1 || (0 <= i < |s| && s[i] == c)
    requires forall k :: i < k < |s| ==> s[k] != c
    ensures RFind(s, c) == i
  {
  }

  /** The last `c` of `pre + name` ends `pre` when `name` holds no `c`. */
  lemma LastAfter(pre: string, c: char, name: string)
    requires pre == [] || pre[|pre| - 1] == c
    requires c !in name
    ensures RFind(pre + name, c) == |pre| - 1
  {
    var p := pre + name;
    forall k | |pre| <= k < |p|
      ensures p[k] != c
    {
      assert p[k] == name[k - |pre|];
    }
    RFindIs(p, c, |pre| - 1);
  }

  predicate HasNonDot(s: string)
  {
    exists k :: 0 <= k < |s| && s[k] != '.'
  }

  lemma LastSepBeforeName(pre: string, stem: string, ext: string)
    requires pre == [] || pre[|pre| - 1] == '/'
    requires '/' !in stem && '/' !in ext
    ensures RFind(pre + stem + ext, '/') == |pre| - 1
  {
    assert pre + stem + ext == pre + (stem + ext);
    LastAfter(pre, '/', stem + ext);
  }

  lemma LastDotStartsExt(pre: string, stem: string, ext: string)
    requires ext != [] && ext[0] == '.' && '.' !in ext[1..]
    ensures RFind(pre + stem + ext, '.') == |pre| + |stem|
  {
    assert pre + stem + ext == (pre + stem + [ext[0]]) + ext[1..];
    LastAfter(pre + stem + [ext[0]], '.', ext[1..]);
  }

  /** `splitext` of `pre + stem + ext` where `pre` is a directory prefix:
      the extension is found exactly when the stem is not all dots, so a
      name that is only a leading-dot extension, such as `.png`, has none. */
  lemma ExtOfName(pre: string, stem: string, ext: string)
    requires pre == [] || pre[|pre| - 1] == '/'
    requires '/' !in stem
    requires ext != [] && ext[0] == '.' && '.' !in ext[1..] && '/' !in ext
    ensures Ext(pre + stem + ext) == if HasNonDot(stem) then ext else ""
  {
    var p := pre + stem + ext;
    var dotIndex := |pre| + |stem|;
    LastSepBeforeName(pre, stem, ext);
    LastDotStartsExt(pre, stem, ext);
    var between := exists k :: |pre| <= k < dotIndex && p[k] != '.';
    assert Ext(p) == if between then p[dotIndex..] else "";
    assert between <==> HasNonDot(stem) by {
      assert forall k :: |pre| <= k < dotIndex ==> p[k] == stem[k - |pre|];
      if HasNonDot(stem) {
        var j :| 0 <= j < |stem| && stem[j] != '.';
        assert p[|pre| + j] != '.';
      }
    }
    assert p[dotIndex..] == ext;
  }


  /** The directory part of `p` up to and including its last `/`. */
  function DirPrefix(p: string): (d: string)
    ensures d <= p && (d == [] || d[|d| - 1] == '/') && '/' !in p[|d|..]
  {
    p[..RFind(p, '/') + 1]
  }

  /** `PurePosixPath(p).name`: the last component. */
  function Name(p: string): (n: string)
    ensures '/' !in n && EndsWithComponent(p, n) && |DirPrefix(p)| + |n| == |p|
  {
    p[|DirPrefix(p)|..]
  }

  /** `.parent`: everything before the last `/`, the root for a child of the
      root, and `.` for a bare name. */
  function Parent(p: string): (r: string)
    ensures '/' !in p ==> r == "."
    ensures RFind(p, '/') == 0 ==> r == "/"
    ensures RFind(p, '/') > 0 ==> r + "/" + Name(p) == p
  {
    var i := RFind(p, '/');
    if i < 0 then "." else if i == 0 then "/" else p[..i]
  }

  /** `.suffix`: the name from its last `.` on, unless that dot is the first
      or the last character of the name. */
  function Suffix(p: string): (s: string)
    ensures s == [] || (|s| >= 2 && s[0] == '.' && '.' !in s[1..] && |s| < |Name(p)|)
    ensures var n := Name(p);
      s != [] <==> |n| >= 2 && n[|n| - 1] != '.' && exists i :: 0 < i < |n| - 1 && n[i] == '.'
    ensures |s| <= |Name(p)| && Name(p)[|Name(p)| - |s|..] == s
    ensures '/' !in s
  {
    NameSuffix(Name(p))
  }

  function NameSuffix(name: string): (s: string)
    ensures s == [] || (|s| >= 2 && s[0] == '.' && '.' !in s[1..] && |s| < |name|)
    ensures |s| <= |name| && name[|name| - |s|..] == s
    ensures '/' !in name ==> '/' !in s
    ensures s != [] <==> |name| >= 2 && name[|name| - 1] != '.' && exists i :: 0 < i < |name| - 1 && name[i] == '.'
  {
    LastDotInside(name);
    var i := RFind(name, '.');
    if 0 < i < |name| - 1 then
      var s := name[i..];
      assert forall k :: 1 <= k < |s| ==> s[k] == name[i + k] && i < i + k < |name|;
      s
    else ""
  }

  /** The last dot of a name lies strictly inside it exactly when the name
      has an inner dot and does not end with one. */
  lemma LastDotInside(name: string)
    ensures var i := RFind(name, '.');
      0 < i < |name| - 1 <==> |name| >= 2 && name[|name| - 1] != '.' && exists k :: 0 < k < |name| - 1 && name[k] == '.'
  {
    var i := RFind(name, '.');
    if |name| >= 2 && name[|name| - 1] != '.' && exists k :: 0 < k < |name| - 1 && name[k] == '.' {
      var k :| 0 < k < |name| - 1 && name[k] == '.';
      assert k <= i;
    }
  }

  /** `.stem`: the name without its suffix. */
  function Stem(p: string): (s: string)
    ensures Name(p) == s + Suffix(p)
  {
    StemOfName(Name(p))
  }

  function StemOfName(name: string): (s: string)
    ensures name == s + NameSuffix(name)
  {
    var sfx := NameSuffix(name);
    var s := name[..|name| - |sfx|];
    assert name == s + sfx;
    s
  }

  /** `.with_name(n)`: the last component replaced by `n`. */
  function WithName(p: string, n: string): (q: string)
    ensures '/' !in n ==> DirPrefix(q) == DirPrefix(p) && Name(q) == n
  {
    var d := DirPrefix(p);
    LastSepOfJoined(d, n);
    d + n
  }

  lemma LastSepOfJoined(d: string, n: string)
    requires d == [] || d[|d| - 1] == '/'
    ensures '/' !in n ==> RFind(d + n, '/') == |d| - 1
  {
    if '/' !in n {
      LastAfter(d, '/', n);
    }
  }

  /** The suffix and stem of `dir/stem.ext`: the extension, when the stem
      is not empty and the extension has text after its dot. */
  lemma SuffixOfName(pre: string, stem: string, ext: string)
    requires pre == [] || pre[|pre| - 1] == '/'
    requires stem != [] && '/' !in stem
    requires |ext| >= 2 && ext[0] == '.' && '.' !in ext[1..] && '/' !in ext
    ensures Suffix(pre + stem + ext) == ext && Stem(pre + stem + ext) == stem
  {
    var p := pre + stem + ext;
    LastSepBeforeName(pre, stem, ext);
    assert Name(p) == stem + ext;
    NameSuffixOf(stem, ext);
  }

  lemma NameSuffixOf(stem: string, ext: string)
    requires stem != [] && |ext| >= 2 && ext[0] == '.' && '.' !in ext[1..]
    ensures NameSuffix(stem + ext) == ext && StemOfName(stem + ext) == stem
  {
    LastDotStartsExt([], stem, ext);
    assert [] + stem + ext == stem + ext;
    var name := stem + ext;
    assert name[|stem|..] == ext;
  }

  /** `Path(p)` made absolute against the working directory. */
  function Resolve(cwd: string, p: string): string
  {
    if StartsWith(p, "/") then p else JoinPath(cwd, p)
  }

  /** The parent of `dir / name` is `dir` and its name is `name`, for a
      directory in normal form. */
  lemma ParentOfJoin(dir: string, name: string)
    requires dir != "" && (dir == "/" || dir[|dir| - 1] != '/')
    requires name != "" && '/' !in name
    ensures Parent(JoinPath(dir, name)) == dir
    ensures Name(JoinPath(dir, name)) == name
  {
    var p := JoinPath(dir, name);
    JoinPathShape(dir, name);
    ComponentLastSep(p, name);
    if dir != "." && dir != "/" {
      assert p == dir + "/" + name;
      assert p[..|dir|] == dir;
    }
  }
}
