/** The entry point's page output: which books need a download, how the
    books are split into pages, where each page is written, and the loop
    that prepares and renders every page. Files that exist are a set of
    paths; creating a directory or writing a page adds its path. */
module Pages {
  import opened Records
  import opened Text
  import opened Paths
  import opened Render

  /** Lines 253-258: the books handed to `download_images`, those whose
      cover reference is set but is not a usable local file, in order. */
  function NeedDownload(books: seq<Book>, cwd: string, disk: set<string>): (r: seq<Book>)
    ensures |r| <= |books|
    ensures forall b :: b in r ==> b in books && Truthy(b.coverImage) && !LocalCover(b, cwd, disk)
    ensures forall b :: b in books && Truthy(b.coverImage) && !LocalCover(b, cwd, disk) ==> b in r
  {
    if books == [] then []
    else
      var rest := NeedDownload(books[1..], cwd, disk);
      assert forall b :: b in books[1..] ==> b in books;
      assert forall b :: b in books ==> b == books[0] || b in books[1..];
      if Truthy(books[0].coverImage) && !LocalCover(books[0], cwd, disk) then [books[0]] + rest else rest
  }

  /** The selection keeps the order of the books: one more book at the end
      adds it at the end exactly when it needs a download. */
  lemma {:induction false} NeedDownloadSnoc(books: seq<Book>, b: Book, cwd: string, disk: set<string>)
    ensures NeedDownload(books + [b], cwd, disk) ==
      NeedDownload(books, cwd, disk) + (if Truthy(b.coverImage) && !LocalCover(b, cwd, disk) then [b] else [])
    decreases |books|
  {
    if books == [] {
      assert [] + [b] == [b] && [b][1..] == [];
    } else {
      assert (books + [b])[1..] == books[1..] + [b];
      NeedDownloadSnoc(books[1..], b, cwd, disk);
    }
  }

  /** `max(1, x)`. */
  function AtLeastOne(x: int): (r: nat)
    ensures r >= 1 && r >= x && (x >= 1 ==> r == x)
    ensures x < 1 ==> r == 1
  {
    if x < 1 then 1 else x
  }

  /** The number of books per page: clamped columns times clamped rows. */
  function PageSize(columns: int, rowsPerPage: int): (n: nat)
    ensures n >= 1 && n >= AtLeastOne(columns) && n >= AtLeastOne(rowsPerPage)
    ensures columns >= 1 && rowsPerPage >= 1 ==> n == columns * rowsPerPage
    ensures columns < 1 ==> n == AtLeastOne(rowsPerPage)
    ensures rowsPerPage < 1 ==> n == AtLeastOne(columns)
  {
    var c, r := AtLeastOne(columns), AtLeastOne(rowsPerPage);
    assert c * r >= c * 1 && c * r >= 1 * r;
    c * r
  }

  /** The split loop of lines 284-287: `books[i:i + page_size]` for every
      multiple `i` of the page size below the number of books. */
  method SplitPages(books: seq<Book>, pageSize: nat) returns (pages: seq<seq<Book>>)
    requires pageSize >= 1
    ensures pages == Chunks(books, pageSize)
  {
    var all := Chunks(books, pageSize);
    pages := [];
    var i := 0;
    while i < |books|
      invariant |pages| <= |all|
      invariant Chunks(Rest(books, i), pageSize) == all[|pages|..]
      invariant pages == all[..|pages|]
      decreases |books| - i
    {
      ChunksStep(books, i, pageSize);
      pages := pages + [books[i..Min(i + pageSize, |books|)]];
      i := i + pageSize;
    }
  }

  /** The pages partition the books: laid end to end they are the books in
      order, every page but the last holds exactly a page's worth, none is
      empty, and there are `ceil(len(books) / page_size)` of them. */
  lemma PageSplit(books: seq<Book>, columns: int, rowsPerPage: int)
    ensures var size := PageSize(columns, rowsPerPage);
      var pages := Chunks(books, size);
      Flatten(pages) == books &&
      (|pages| - 1) * size < |books| <= |pages| * size &&
      (forall k :: 0 <= k < |pages| ==> 1 <= |pages[k]| <= size && (k < |pages| - 1 ==> |pages[k]| == size))
  {
    var size := PageSize(columns, rowsPerPage);
    ChunksFlatten(books, size);
    ChunksCount(books, size);
    ChunksFull(books, size);
  }

  /** Fourteen books at three columns and two rows per page make three
      pages of six, six and two books. */
  lemma PageSplitFourteen(books: seq<Book>)
    requires |books| == 14
    ensures var pages := Chunks(books, PageSize(3, 2));
      |pages| == 3 && pages[0] == books[..6] && pages[1] == books[6..12] && pages[2] == books[12..]
  {
    assert PageSize(3, 2) == 6;
    var rest := books[6..];
    assert Chunks(rest[6..], 6) == [rest[6..]];
    assert Chunks(rest, 6) == [rest[..6]] + [rest[6..]];
    assert rest[..6] == books[6..12] && rest[6..] == books[12..];
  }

  /** `base_output.suffix or ".md"`. */
  function PageSuffix(out: string): (r: string)
    ensures Suffix(out) == "" ==> r == ".md"
    ensures Suffix(out) != "" ==> r == Suffix(out)
    ensures |r| >= 2 && r[0] == '.' && '.' !in r[1..] && '/' !in r
  {
    if Suffix(out) == "" then ".md" else Suffix(out)
  }

  /** The name of the directory of page `idx`: `<stem>_<idx>`. */
  function PageDirName(out: string, idx: nat): (n: string)
    ensures n != [] && '/' !in n && '0' <= n[|n| - 1] <= '9'
  {
    NoSepInName(out);
    NumberedNoSep(Stem(out), NatToString(idx));
    Stem(out) + "_" + NatToString(idx)
  }

  lemma NumberedNoSep(stem: string, digits: string)
    requires '/' !in stem
    requires digits != [] && forall i :: 0 <= i < |digits| ==> '0' <= digits[i] <= '9'
    ensures var n := stem + "_" + digits; '/' !in n && '0' <= n[|n| - 1] <= '9'
  {
    var n := stem + "_" + digits;
    forall k | 0 <= k < |n|
      ensures n[k] != '/'
    {
      if k > |stem| {
        assert n[k] == digits[k - |stem| - 1];
      }
    }
    assert n[|n| - 1] == digits[|digits| - 1];
  }

  lemma NoSepInName(out: string)
    ensures '/' !in Stem(out)
  {
    var n, stem := Name(out), Stem(out);
    assert forall k :: 0 <= k < |stem| ==> stem[k] == n[k];
  }

  /** The directory of page `idx` from the second on: `<stem>_<idx>` next
      to the output file. */
  function PageDir(out: string, idx: nat): (d: string)
    ensures DirPrefix(d) == DirPrefix(out) && Name(d) == PageDirName(out, idx)
    ensures d != "" && '0' <= d[|d| - 1] <= '9'
  {
    WithName(out, PageDirName(out, idx))
  }

  /** Where page `idx` (1-based) is written: the output path for the first
      page, `<stem>_<idx>/index<suffix>` for the others. */
  function PagePath(out: string, idx: nat): (p: string)
    requires idx >= 1
    ensures idx == 1 ==> p == out
    ensures idx >= 2 ==> p == PageDir(out, idx) + "/" + IndexName(out)
    ensures idx >= 2 ==> Parent(p) == PageDir(out, idx) && Name(p) == IndexName(out)
  {
    if idx == 1 then out
    else
      JoinAfterDigit(PageDir(out, idx), IndexName(out));
      JoinPath(PageDir(out, idx), IndexName(out))
  }

  /** `"index" + suffix`. */
  function IndexName(out: string): (n: string)
    ensures n == "index" + PageSuffix(out) && n != [] && '/' !in n
  {
    IndexNameNoSep(PageSuffix(out));
    "index" + PageSuffix(out)
  }

  /** The directory page `idx` is prepared for (`out_path.parent`). */
  function PageDirOf(out: string, idx: nat): string
    requires idx >= 1
  {
    if idx == 1 then Parent(out) else PageDir(out, idx)
  }

  /** `dir / name` for a directory whose last character is a digit. */
  lemma JoinAfterDigit(dir: string, name: string)
    requires dir != "" && '0' <= dir[|dir| - 1] <= '9'
    requires name != "" && '/' !in name
    ensures JoinPath(dir, name) == dir + "/" + name
    ensures Parent(JoinPath(dir, name)) == dir && Name(JoinPath(dir, name)) == name
  {
    ParentOfJoin(dir, name);
  }

  lemma IndexNameNoSep(sfx: string)
    requires '/' !in sfx
    ensures '/' !in "index" + sfx
  {
    var name := "index" + sfx;
    forall k | 0 <= k < |name|
      ensures name[k] != '/'
    {
      if k >= 5 {
        assert name[k] == sfx[k - 5];
      }
    }
  }

  /** Page `idx >= 2` is the file `index<suffix>` in the directory
      `<stem>_<idx>` beside the output file, and it is prepared for that
      directory. */
  lemma PagePathShape(out: string, idx: nat)
    requires idx >= 2
    ensures PageDir(out, idx) == DirPrefix(out) + (Stem(out) + "_" + NatToString(idx))
    ensures PagePath(out, idx) == PageDir(out, idx) + "/" + ("index" + PageSuffix(out))
    ensures Name(PagePath(out, idx)) == "index" + PageSuffix(out)
    ensures Parent(PagePath(out, idx)) == PageDirOf(out, idx)
  {
    var d := PageDir(out, idx);
    assert d == DirPrefix(out) + PageDirName(out, idx);
  }

  /** With the default output `out.md`, page two is `out_2/index.md` and
      page three `out_3/index.md`. */
  lemma PagePathDefault()
    ensures PagePath("out.md", 2) == "out_2/index.md"
    ensures PagePath("out.md", 3) == "out_3/index.md"
  {
    OutMdParts();
    SmallNumerals();
    PagePathOfParts("out.md", "", "out", ".md", 2, "2");
    PagePathOfParts("out.md", "", "out", ".md", 3, "3");
    PageLiterals();
  }

  lemma SmallNumerals()
    ensures NatToString(2) == "2" && NatToString(3) == "3"
  {
  }

  lemma PageLiterals()
    ensures "" + ("out" + "_" + "2") + "/" + ("index" + ".md") == "out_2/index.md"
    ensures "" + ("out" + "_" + "3") + "/" + ("index" + ".md") == "out_3/index.md"
  {
  }

  /** The path of page `idx` from the parts of the output path. */
  lemma PagePathOfParts(out: string, dir: string, stem: string, sfx: string, idx: nat, digits: string)
    requires idx >= 2
    requires DirPrefix(out) == dir && Stem(out) == stem && PageSuffix(out) == sfx && NatToString(idx) == digits
    ensures PagePath(out, idx) == dir + (stem + "_" + digits) + "/" + ("index" + sfx)
  {
    assert PageDir(out, idx) == DirPrefix(out) + PageDirName(out, idx);
  }

  lemma OutMdParts()
    ensures DirPrefix("out.md") == "" && Stem("out.md") == "out" && PageSuffix("out.md") == ".md"
  {
    SuffixOfName("", "out", ".md");
    LastSepBeforeName("", "out", ".md");
    assert "" + "out" + ".md" == "out.md";
  }

  /** Different pages go to different files: no page overwrites another. */
  lemma PagePathsDistinct(out: string, i: nat, j: nat)
    requires 1 <= i < j
    ensures PagePath(out, i) != PagePath(out, j)
  {
    PagePathShape(out, j);
    if i == 1 {
      assert |out| == |DirPrefix(out)| + |Stem(out)| + |Suffix(out)|;
      assert |PageSuffix(out)| >= |Suffix(out)|;
    } else {
      PagePathShape(out, i);
      if NatToString(i) == NatToString(j) {
        NatToStringInjective(i, j);
      }
      FrameDiffers(DirPrefix(out), Stem(out), NatToString(i), NatToString(j), "index" + PageSuffix(out));
    }
  }

  /** Page paths that differ only in the page number differ. */
  lemma FrameDiffers(pre: string, stem: string, a: string, b: string, name: string)
    requires a != b
    ensures pre + (stem + "_" + a) + "/" + name != pre + (stem + "_" + b) + "/" + name
  {
    var x := pre + (stem + "_" + a) + "/" + name;
    var y := pre + (stem + "_" + b) + "/" + name;
    var k := |pre| + |stem| + 1;
    if |a| == |b| {
      assert x[k..k + |a|] == a;
      assert y[k..k + |b|] == b;
    }
  }
}
