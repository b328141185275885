/** Cache keys for cover images (`safe_filename`, `expected_cover_path`).
    Paths are strings in pathlib's normal form: no trailing `/` except on the
    root, `.` or the empty string for the working directory. */
module CoverKey {
  import opened Records
  import opened Text
  import opened Paths

  /** The characters `safe_filename` keeps: `[A-Za-z0-9._-]`. */
  predicate IsSafeChar(c: char)
  {
    'A' <= c <= 'Z' || 'a' <= c <= 'z' || '0' <= c <= '9' || c == '.' || c == '_' || c == '-'
  }

  predicate AllSafe(s: string)
  {
    forall i :: 0 <= i < |s| ==> IsSafeChar(s[i])
  }

  predicate NoneSafe(s: string)
  {
    forall i :: 0 <= i < |s| ==> !IsSafeChar(s[i])
  }

  /** The text after the leading run of characters outside the safe class. */
  function DropUnsafe(s: string): (r: string)
    ensures |r| <= |s| && r == s[|s| - |r|..]
    ensures r == [] || IsSafeChar(r[0])
    ensures NoneSafe(s[..|s| - |r|])
  {
    if s != [] && !IsSafeChar(s[0]) then
      var t := s[1..];
      var r := DropUnsafe(t);
      NoneSafeCons(s[0], t[..|t| - |r|]);
      assert s[..|s| - |r|] == [s[0]] + t[..|t| - |r|];
      assert t[|t| - |r|..] == s[|s| - |r|..];
      r
    else s
  }

  lemma NoneSafeCons(c: char, t: string)
    requires !IsSafeChar(c) && NoneSafe(t)
    ensures NoneSafe([c] + t)
  {
    var u := [c] + t;
    forall i | 0 <= i < |u|
      ensures !IsSafeChar(u[i])
    {
      if i > 0 {
        assert u[i] == t[i - 1];
      }
    }
  }

  /** `re.sub(r"[^A-Za-z0-9._-]+", "_", s)`: every maximal run of other
      characters becomes one underscore. */
  function Collapse(s: string): (r: string)
    ensures AllSafe(r)
    ensures r == [] <==> s == []
    ensures |r| <= |s|
    decreases |s|
  {
    if s == [] then []
    else if IsSafeChar(s[0]) then [s[0]] + Collapse(s[1..])
    else "_" + Collapse(DropUnsafe(s[1..]))
  }

  /** A safe prefix passes through unchanged. */
  lemma {:induction false} CollapseSafePrefix(p: string, t: string)
    requires AllSafe(p)
    ensures Collapse(p + t) == p + Collapse(t)
    decreases |p|
  {
    if p != [] {
      var s := p + t;
      assert s[0] == p[0] && IsSafeChar(s[0]);
      assert s[1..] == p[1..] + t;
      CollapseSafePrefix(p[1..], t);
      calc {
        Collapse(s);
        [p[0]] + Collapse(p[1..] + t);
        [p[0]] + (p[1..] + Collapse(t));
        { assert [p[0]] + p[1..] == p; }
        p + Collapse(t);
      }
    } else {
      assert p + t == t;
    }
  }

  /** A maximal run of unsafe characters becomes a single underscore. */
  lemma {:induction false} CollapseRun(u: string, t: string)
    requires u != [] && NoneSafe(u)
    requires t == [] || IsSafeChar(t[0])
    ensures Collapse(u + t) == "_" + Collapse(t)
  {
    var s := u + t;
    assert s[0] == u[0] && !IsSafeChar(s[0]);
    assert s[1..] == u[1..] + t;
    DropUnsafeRun(u[1..], t);
    assert Collapse(s) == "_" + Collapse(DropUnsafe(s[1..]));
  }

  lemma {:induction false} DropUnsafeRun(u: string, t: string)
    requires NoneSafe(u)
    requires t == [] || IsSafeChar(t[0])
    ensures DropUnsafe(u + t) == t
    decreases |u|
  {
    if u != [] {
      assert (u + t)[1..] == u[1..] + t;
      DropUnsafeRun(u[1..], t);
    } else {
      assert u + t == t;
    }
  }

  const DEFAULT_NAME: string := "cover"

  /** `safe_filename`: strip, collapse every run of other characters to `_`,
      and fall back to `cover` when nothing is left. */
  function SafeFilename(name: string): (r: string)
    ensures r != [] && AllSafe(r)
    ensures Strip(name) == [] ==> r == DEFAULT_NAME
    ensures Strip(name) != [] ==> |r| <= |Strip(name)|
    ensures Strip(name) != [] ==> r == Collapse(Strip(name))
  {
    var c := Collapse(Strip(name));
    if c == [] then DEFAULT_NAME else c
  }

  /** Sanitising a sanitised name changes nothing. */
  lemma SafeFilenameIdempotent(name: string)
    ensures SafeFilename(SafeFilename(name)) == SafeFilename(name)
  {
    var r := SafeFilename(name);
    assert !IsSpace(r[0]) && !IsSpace(r[|r| - 1]);
    StripTrimmed(r);
    CollapseSafePrefix(r, []);
    assert r + [] == r;
  }

  /** A name that is already safe and non-empty comes out unchanged. */
  lemma SafeFilenameOfSafe(x: string)
    requires x != [] && AllSafe(x)
    ensures SafeFilename(x) == x
  {
    assert IsSafeChar(x[0]) && IsSafeChar(x[|x| - 1]);
    StripTrimmed(x);
    CollapseSafePrefix(x, []);
    assert x + [] == x;
  }

  /** `s[:n]`. */
  function Prefix(s: string, n: nat): (r: string)
    ensures r <= s && |r| == if |s| <= n then |s| else n
  {
    if |s| <= n then s else s[..n]
  }

  /** The identifier a cover is cached under: `book_id`, else the first ten
      hex digits of the md5 of the Douban URL (when there is a URL), else the
      title. `md5hex` stands for `hashlib.md5(...).hexdigest()`. */
  function CoverIdentifier(b: Book, md5hex: string -> string): (id: string)
    ensures Truthy(b.bookId) ==> id == b.bookId.value
    ensures !Truthy(b.bookId) && b.doubanUrl != "" && |md5hex(b.doubanUrl)| >= 10 ==> id == md5hex(b.doubanUrl)[..10]
    ensures !Truthy(b.bookId) && b.doubanUrl != "" && md5hex(b.doubanUrl) != "" ==> id == Prefix(md5hex(b.doubanUrl), 10)
    ensures !Truthy(b.bookId) && (b.doubanUrl == "" || md5hex(b.doubanUrl) == "") ==> id == b.title
  {
    if Truthy(b.bookId) then b.bookId.value
    else if b.doubanUrl != "" && Prefix(md5hex(b.doubanUrl), 10) != "" then Prefix(md5hex(b.doubanUrl), 10)
    else b.title
  }

  /** The cover's extension with any query string removed, `.jpg` if none. */
  function CoverExt(b: Book): (e: string)
    ensures e != [] && e[0] == '.' && '.' !in e[1..] && '/' !in e && '?' !in e
    ensures var u := Ext(BeforeFirst(OrEmpty(b.coverImage), '?'));
      (u == "" ==> e == ".jpg") && (u != "" ==> e == u)
    ensures !Truthy(b.coverImage) ==> e == ".jpg"
  {
    var e := Ext(BeforeFirst(OrEmpty(b.coverImage), '?'));
    if e == "" then ".jpg" else e
  }

  /** A cover reference with a query string takes its extension from the
      part before the first `?`. */
  lemma CoverExtIgnoresQuery(b: Book, u: string, q: string)
    requires '?' !in u && b.coverImage == Some(u + "?" + q)
    ensures CoverExt(b) == if Ext(u) == "" then ".jpg" else Ext(u)
  {
    var s := u + "?" + q;
    assert s[|u|] == '?';
    assert BeforeFirst(s, '?') == u;
  }

  /** The file name of a cover in the cache: a safe stem and the extension. */
  function CoverFileName(b: Book, md5hex: string -> string): (n: string)
    ensures n == CoverStem(b, md5hex) + CoverExt(b)
    ensures |n| > |CoverExt(b)| && n[|n| - |CoverExt(b)|..] == CoverExt(b)
    ensures '/' !in n && '?' !in n
  {
    var stem, ext := CoverStem(b, md5hex), CoverExt(b);
    SafeAvoids(stem);
    ConcatAvoids(stem, ext, '/');
    ConcatAvoids(stem, ext, '?');
    assert (stem + ext)[|stem|..] == ext;
    stem + ext
  }

  /** A safe name holds no `/` and no `?`. */
  lemma SafeAvoids(s: string)
    requires AllSafe(s)
    ensures '/' !in s && '?' !in s
  {
    assert !IsSafeChar('/') && !IsSafeChar('?');
  }

  lemma ConcatAvoids(x: string, y: string, c: char)
    requires c !in x && c !in y
    ensures c !in x + y
  {
  }

  /** The sanitised identifier that names the cover file. */
  function CoverStem(b: Book, md5hex: string -> string): (stem: string)
    ensures stem != [] && AllSafe(stem)
    ensures CoverIdentifier(b, md5hex) == "" ==> stem == DEFAULT_NAME
    ensures CoverIdentifier(b, md5hex) != "" ==> stem == SafeFilename(CoverIdentifier(b, md5hex))
    ensures var id := CoverIdentifier(b, md5hex); id != "" && AllSafe(id) ==> stem == id
  {
    var id := CoverIdentifier(b, md5hex);
    assert AllSafe(DEFAULT_NAME);
    SafeFilenameOfSafe(DEFAULT_NAME);
    if id != "" && AllSafe(id) then
      SafeFilenameOfSafe(id);
      SafeFilename(id)
    else SafeFilename(if id == "" then DEFAULT_NAME else id)
  }

  /** `expected_cover_path`: a file directly inside `imgDir`, named by
      `CoverFileName`; its last `/` is the one before that name. */
  function ExpectedCoverPath(b: Book, imgDir: string, md5hex: string -> string): (p: string)
    ensures var n := CoverFileName(b, md5hex);
      EndsWithComponent(p, n) && RFind(p, '/') == |p| - |n| - 1
    ensures imgDir != "" && (imgDir == "/" || imgDir[|imgDir| - 1] != '/') ==>
      Parent(p) == imgDir && Name(p) == CoverFileName(b, md5hex)
  {
    var n := CoverFileName(b, md5hex);
    JoinPathShape(imgDir, n);
    ComponentLastSep(JoinPath(imgDir, n), n);
    if imgDir != "" && (imgDir == "/" || imgDir[|imgDir| - 1] != '/') then
      ParentOfJoin(imgDir, n);
      JoinPath(imgDir, n)
    else JoinPath(imgDir, n)
  }

  /** The cache key depends on the identifier fields and the cover reference
      only: the same (book_id, URL, title, cover) gives the same path. */
  lemma CoverKeyDeterministic(a: Book, b: Book, imgDir: string, md5hex: string -> string)
    requires a.bookId == b.bookId && a.doubanUrl == b.doubanUrl && a.title == b.title && a.coverImage == b.coverImage
    ensures ExpectedCoverPath(a, imgDir, md5hex) == ExpectedCoverPath(b, imgDir, md5hex)
  {
    CoverStemOfIds(a, b, md5hex);
    CoverPathJoins(a, imgDir, md5hex);
    CoverPathJoins(b, imgDir, md5hex);
  }

  /** The extension read back from a cache path is the one it was built
      with, unless the stem is all dots. */
  lemma ExtOfCoverPath(imgDir: string, stem: string, ext: string)
    requires '?' !in imgDir
    requires stem != [] && AllSafe(stem)
    requires ext != [] && ext[0] == '.' && '.' !in ext[1..] && '/' !in ext && '?' !in ext
    ensures Ext(BeforeFirst(JoinPath(imgDir, stem + ext), '?')) == if HasNonDot(stem) then ext else ""
  {
    var name := stem + ext;
    var p := JoinPath(imgDir, name);
    assert !IsSafeChar('/') && !IsSafeChar('?');
    assert '/' !in stem && '?' !in stem;
    JoinPathAvoids(imgDir, name, '?');
    assert BeforeFirst(p, '?') == p;
    JoinPathShape(imgDir, name);
    var pre := p[..|p| - |name|];
    assert p == pre + stem + ext by {
      assert p == pre + name;
    }
    ExtOfName(pre, stem, ext);
  }

  /** When a book's cover is set to its own cache path, the cache path comes
      out the same again, provided the directory has no `?` and the stem is
      not all dots (an all-dot stem hides the extension from `splitext`). */
  predicate StableKey(b: Book, imgDir: string, md5hex: string -> string)
  {
    '?' !in imgDir && (HasNonDot(CoverStem(b, md5hex)) || CoverExt(b) == ".jpg")
  }

  lemma CoverPathStable(b: Book, imgDir: string, md5hex: string -> string)
    requires StableKey(b, imgDir, md5hex)
    ensures var p := ExpectedCoverPath(b, imgDir, md5hex);
      ExpectedCoverPath(b.(coverImage := Some(p)), imgDir, md5hex) == p
  {
    var p := ExpectedCoverPath(b, imgDir, md5hex);
    var b' := b.(coverImage := Some(p));
    var stem := CoverStem(b, md5hex);
    var ext := CoverExt(b);
    CoverPathJoins(b, imgDir, md5hex);
    CoverExtOfPath(b', imgDir, stem, ext);
    CoverStemOfIds(b', b, md5hex);
    CoverPathJoins(b', imgDir, md5hex);
  }

  lemma CoverStemOfIds(a: Book, b: Book, md5hex: string -> string)
    requires a.bookId == b.bookId && a.doubanUrl == b.doubanUrl && a.title == b.title
    ensures CoverStem(a, md5hex) == CoverStem(b, md5hex)
  {
    assert CoverIdentifier(a, md5hex) == CoverIdentifier(b, md5hex);
  }

  lemma CoverPathJoins(b: Book, imgDir: string, md5hex: string -> string)
    ensures ExpectedCoverPath(b, imgDir, md5hex) == JoinPath(imgDir, CoverStem(b, md5hex) + CoverExt(b))
  {
  }

  lemma CoverExtOfPath(b: Book, imgDir: string, stem: string, ext: string)
    requires '?' !in imgDir
    requires stem != [] && AllSafe(stem)
    requires ext != [] && ext[0] == '.' && '.' !in ext[1..] && '/' !in ext && '?' !in ext
    requires HasNonDot(stem) || ext == ".jpg"
    requires b.coverImage == Some(JoinPath(imgDir, stem + ext))
    ensures CoverExt(b) == ext
  {
    ExtOfCoverPath(imgDir, stem, ext);
  }
}
