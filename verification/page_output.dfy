/** The page-writing loop of the entry point: every page is prepared
    against the files that exist at that moment, rendered as a table and
    written to its page path. Files that exist are a set of absolute paths;
    creating a directory or writing a page adds its path resolved against
    the working directory. */
module PageOutput {
  import opened Records
  import opened Text
  import opened Paths
  import opened Render
  import opened Pages

  /** One page written: where it went and the table it holds. */
  datatype Saved = Saved(path: string, table: Table)

  /** The table of page `idx`: its books prepared for the page's directory
      against the files in `disk`, then laid out in `columns` columns. */
  function PageTable(page: seq<Book>, idx: nat, columns: nat, out: string, cwd: string, disk: set<string>,
                     relpath: (string, string) -> string): Table
    requires idx >= 1 && columns >= 1
  {
    TableOf(Prepared(page, PageDirOf(out, idx), cwd, disk, relpath), columns)
  }

  /** Where page `idx` is written, resolved against the working directory. */
  function FileAt(out: string, cwd: string, idx: nat): string
    requires idx >= 1
  {
    Resolve(cwd, PagePath(out, idx))
  }

  /** The directory of page `idx`, resolved against the working directory. */
  function DirAt(out: string, cwd: string, idx: nat): string
  {
    Resolve(cwd, PageDir(out, idx))
  }

  /** The values of `f` on `lo <= j < hi`. */
  function Image(f: nat -> string, lo: nat, hi: nat): set<string>
  {
    set j: nat | lo <= j < hi :: f(j)
  }

  lemma ImageSnoc(f: nat -> string, lo: nat, hi: nat)
    requires lo <= hi
    ensures Image(f, lo, hi + 1) == Image(f, lo, hi) + {f(hi)}
  {
    var small, big := Image(f, lo, hi), Image(f, lo, hi + 1);
    forall x | x in big
      ensures x in small + {f(hi)}
    {
      var j: nat :| lo <= j < hi + 1 && x == f(j);
      if j < hi {
        assert x in small;
      }
    }
    assert f(hi) in big;
    forall x | x in small
      ensures x in big
    {
      var j: nat :| lo <= j < hi && x == f(j);
    }
  }

  lemma ImageHas(f: nat -> string, lo: nat, hi: nat, j: nat)
    requires lo <= j < hi
    ensures f(j) in Image(f, lo, hi)
  {
  }

  lemma ImageEmpty(f: nat -> string, lo: nat)
    ensures Image(f, lo, lo) == {}
  {
  }

  /** The files of the pages, by page number (there is no page 0, and
      index 0 is never looked up). */
  function PageFiles(out: string, cwd: string): nat -> string
  {
    (j: nat) => if j == 0 then "" else FileAt(out, cwd, j)
  }

  /** The directories of the pages, by page number. */
  function PageDirs(out: string, cwd: string): nat -> string
  {
    (j: nat) => DirAt(out, cwd, j)
  }

  lemma PageFilesAt(out: string, cwd: string, j: nat)
    requires j >= 1
    ensures PageFiles(out, cwd)(j) == Resolve(cwd, PagePath(out, j))
  {
    assert PageFiles(out, cwd)(j) == FileAt(out, cwd, j);
  }

  lemma PageDirsAt(out: string, cwd: string, j: nat)
    ensures PageDirs(out, cwd)(j) == Resolve(cwd, PageDir(out, j))
  {
    assert PageDirs(out, cwd)(j) == DirAt(out, cwd, j);
  }

  /** `disk0` with `files(j)` for `1 <= j < idx` and `dirs(j)` for
      `2 <= j <= idx`, the page naming left abstract. */
  function GrownBefore(disk0: set<string>, files: nat -> string, dirs: nat -> string, idx: nat): set<string>
  {
    disk0 + Image(files, 1, idx) + Image(dirs, 2, idx + 1)
  }

  /** `GrownBefore` for page `n` with the file of page `n` added. */
  function GrownAfter(disk0: set<string>, files: nat -> string, dirs: nat -> string, n: nat): set<string>
  {
    if n == 0 then disk0 else GrownBefore(disk0, files, dirs, n) + {files(n)}
  }

  lemma UnionStep(d0: set<string>, files: set<string>, dirs: set<string>, f: string, d: string,
                  files': set<string>, dirs': set<string>)
    requires files' == files + {f} && dirs' == dirs + {d}
    ensures d0 + files' + dirs' == d0 + files + dirs + {f} + {d}
  {
  }

  /** Before page `idx` is the state after page `idx - 1` plus the
      directory of page `idx`; after page `idx` is that plus its file. */
  lemma GrownStep(disk0: set<string>, files: nat -> string, dirs: nat -> string, idx: nat)
    requires idx >= 1
    ensures GrownBefore(disk0, files, dirs, idx) ==
      if idx == 1 then GrownAfter(disk0, files, dirs, idx - 1)
      else GrownAfter(disk0, files, dirs, idx - 1) + {dirs(idx)}
    ensures GrownAfter(disk0, files, dirs, idx) == GrownBefore(disk0, files, dirs, idx) + {files(idx)}
  {
    if idx == 1 {
      ImageEmpty(files, 1);
      ImageEmpty(dirs, 2);
    } else {
      ImageSnoc(files, 1, idx - 1);
      ImageSnoc(dirs, 2, idx);
      UnionStep(disk0, Image(files, 1, idx - 1), Image(dirs, 2, idx), files(idx - 1), dirs(idx),
                Image(files, 1, idx), Image(dirs, 2, idx + 1));
    }
  }

  /** The files that exist when the books of page `idx` are prepared: those
      there at the start, the file of every earlier page, and the
      directories created for the pages up to this one. */
  function DiskBefore(out: string, cwd: string, disk0: set<string>, idx: nat): set<string>
  {
    GrownBefore(disk0, PageFiles(out, cwd), PageDirs(out, cwd), idx)
  }

  /** The files that exist after `n` pages are written. */
  function DiskAfter(out: string, cwd: string, disk0: set<string>, n: nat): set<string>
  {
    GrownAfter(disk0, PageFiles(out, cwd), PageDirs(out, cwd), n)
  }

  /** Nothing is removed, and by the time page `idx` is prepared every
      earlier page file and every page directory up to `idx` exists. */
  lemma DiskBeforeGrows(out: string, cwd: string, disk0: set<string>, idx: nat)
    requires idx >= 1
    ensures disk0 <= DiskBefore(out, cwd, disk0, idx)
    ensures forall j :: 1 <= j < idx ==> Resolve(cwd, PagePath(out, j)) in DiskBefore(out, cwd, disk0, idx)
    ensures forall j :: 2 <= j <= idx ==> Resolve(cwd, PageDir(out, j)) in DiskBefore(out, cwd, disk0, idx)
  {
    forall j | 1 <= j < idx
      ensures Resolve(cwd, PagePath(out, j)) in DiskBefore(out, cwd, disk0, idx)
    {
      ImageHas(PageFiles(out, cwd), 1, idx, j);
      PageFilesAt(out, cwd, j);
    }
    forall j | 2 <= j <= idx
      ensures Resolve(cwd, PageDir(out, j)) in DiskBefore(out, cwd, disk0, idx)
    {
      ImageHas(PageDirs(out, cwd), 2, idx + 1, j);
      PageDirsAt(out, cwd, j);
    }
  }

  /** Every file and every directory counted so far is in `GrownAfter`. */
  lemma GrownAfterHas(disk0: set<string>, files: nat -> string, dirs: nat -> string, n: nat, j: nat)
    requires 1 <= j <= n
    ensures files(j) in GrownAfter(disk0, files, dirs, n)
    ensures j >= 2 ==> dirs(j) in GrownAfter(disk0, files, dirs, n)
  {
    if j < n {
      ImageHas(files, 1, n, j);
    }
    if j >= 2 {
      ImageHas(dirs, 2, n + 1, j);
    }
  }

  /** After `n` pages are written, nothing has been removed, and every page
      file and every page directory up to page `n` exists. */
  lemma DiskAfterHasPages(out: string, cwd: string, disk0: set<string>, n: nat)
    ensures disk0 <= DiskAfter(out, cwd, disk0, n)
    ensures forall j :: 1 <= j <= n ==> Resolve(cwd, PagePath(out, j)) in DiskAfter(out, cwd, disk0, n)
    ensures forall j :: 2 <= j <= n ==> Resolve(cwd, PageDir(out, j)) in DiskAfter(out, cwd, disk0, n)
  {
    forall j | 1 <= j <= n
      ensures Resolve(cwd, PagePath(out, j)) in DiskAfter(out, cwd, disk0, n)
    {
      GrownAfterHas(disk0, PageFiles(out, cwd), PageDirs(out, cwd), n, j);
      PageFilesAt(out, cwd, j);
    }
    forall j | 2 <= j <= n
      ensures Resolve(cwd, PageDir(out, j)) in DiskAfter(out, cwd, disk0, n)
    {
      GrownAfterHas(disk0, PageFiles(out, cwd), PageDirs(out, cwd), n, j);
      PageDirsAt(out, cwd, j);
    }
  }

  /** One turn of the loop of lines 293-303, for chunk `n` of `pages`
      when the first `n` pages are written: page `idx = n + 1` after the
      first creates its directory; the page's books are prepared against the
      files that exist at that moment, rendered, and written to the page
      path. `stem` and `suffix` are those of the output path, computed
      once. */
  method WritePage(disk: set<string>, pages: seq<seq<Book>>, n: nat, columns: nat, out: string, stem: string,
                   suffix: string, cwd: string, relpath: (string, string) -> string, ghost disk0: set<string>)
    returns (entry: Saved, disk': set<string>)
    requires n < |pages| && columns >= 1
    requires stem == Stem(out) && suffix == PageSuffix(out)
    requires disk == DiskAfter(out, cwd, disk0, n)
    ensures entry == Planned(pages, n, columns, out, cwd, disk0, relpath)
    ensures disk' == DiskAfter(out, cwd, disk0, n + 1)
  {
    var idx := n + 1;
    ghost var before := if n == 0 then disk else disk + {Resolve(cwd, PageDir(out, idx))};
    DiskAfterStep(out, cwd, disk0, n, disk, before);
    var made := disk;
    var outPath, pageDir;
    if idx == 1 {
      outPath, pageDir := out, Parent(out);
    } else {
      var outDir := WithName(out, stem + "_" + NatToString(idx));
      made := made + {Resolve(cwd, outDir)};
      outPath, pageDir := JoinPath(outDir, "index" + suffix), outDir;
    }
    assert made == before;
    var pageBooks := PreparePageBooks(pages[n], pageDir, cwd, made, relpath);
    var content := BuildTable(pageBooks, columns);
    entry, disk' := Saved(outPath, content), made + {Resolve(cwd, outPath)};
    EntryPlanned(pages, n, columns, out, cwd, disk0, relpath, made, entry);
  }

  /** What the loop saves for chunk `j`: page `j + 1` at its page path,
      holding the table of the chunk prepared against the files that exist
      by then. */
  function Planned(pages: seq<seq<Book>>, j: nat, columns: nat, out: string, cwd: string, disk0: set<string>,
                   relpath: (string, string) -> string): Saved
    requires j < |pages| && columns >= 1
  {
    Saved(PagePath(out, j + 1), PageTable(pages[j], j + 1, columns, out, cwd, DiskBefore(out, cwd, disk0, j + 1), relpath))
  }

  /** Extending the pages saved so far by the page planned next keeps
      every entry the planned one. */
  lemma PlanExtends(saved: seq<Saved>, entry: Saved, pages: seq<seq<Book>>, n: nat, columns: nat, out: string,
                    cwd: string, disk0: set<string>, relpath: (string, string) -> string)
    requires n < |pages| && columns >= 1 && |saved| == n
    requires forall j :: 0 <= j < n ==> saved[j] == Planned(pages, j, columns, out, cwd, disk0, relpath)
    requires entry == Planned(pages, n, columns, out, cwd, disk0, relpath)
    ensures forall j :: 0 <= j < n + 1 ==> (saved + [entry])[j] == Planned(pages, j, columns, out, cwd, disk0, relpath)
  {
    var s := saved + [entry];
    forall j | 0 <= j < n + 1
      ensures s[j] == Planned(pages, j, columns, out, cwd, disk0, relpath)
    {
      if j < n {
        assert s[j] == saved[j];
      } else {
        assert s[j] == entry;
      }
    }
  }

  /** The files that exist once page `n + 1` is written, from those after
      page `n`: the directory of the page (after the first) and its file. */
  lemma DiskAfterStep(out: string, cwd: string, disk0: set<string>, n: nat, disk: set<string>, made: set<string>)
    requires disk == DiskAfter(out, cwd, disk0, n)
    requires made == if n == 0 then disk else disk + {Resolve(cwd, PageDir(out, n + 1))}
    ensures made == DiskBefore(out, cwd, disk0, n + 1)
    ensures made + {Resolve(cwd, PagePath(out, n + 1))} == DiskAfter(out, cwd, disk0, n + 1)
  {
    var idx := n + 1;
    assert idx - 1 == n;
    GrownStep(disk0, PageFiles(out, cwd), PageDirs(out, cwd), idx);
    PageFilesAt(out, cwd, idx);
    PageDirsAt(out, cwd, idx);
  }

  /** The page written for chunk `n` against the files in `made` is the
      planned one when `made` is what exists before page `n + 1`. */
  lemma EntryPlanned(pages: seq<seq<Book>>, n: nat, columns: nat, out: string, cwd: string, disk0: set<string>,
                     relpath: (string, string) -> string, made: set<string>, entry: Saved)
    requires n < |pages| && columns >= 1
    requires made == DiskBefore(out, cwd, disk0, n + 1)
    requires entry == Saved(PagePath(out, n + 1), PageTable(pages[n], n + 1, columns, out, cwd, made, relpath))
    ensures entry == Planned(pages, n, columns, out, cwd, disk0, relpath)
  {
  }

  /** The loop of lines 293-303 over all pages: page `j + 1` is saved at
      its page path with the table of chunk `j` prepared against the files
      that exist at that point. */
  method WriteAll(pages: seq<seq<Book>>, columns: nat, out: string, cwd: string, disk0: set<string>,
                  relpath: (string, string) -> string) returns (saved: seq<Saved>, disk: set<string>)
    requires columns >= 1
    ensures |saved| == |pages|
    ensures forall j :: 0 <= j < |pages| ==> saved[j] == Planned(pages, j, columns, out, cwd, disk0, relpath)
    ensures disk == DiskAfter(out, cwd, disk0, |pages|)
  {
    var stem := Stem(out);
    var suffix := PageSuffix(out);
    saved, disk := [], disk0;
    var n := 0;
    while n < |pages|
      invariant n <= |pages|
      invariant |saved| == n
      invariant forall j :: 0 <= j < n ==> saved[j] == Planned(pages, j, columns, out, cwd, disk0, relpath)
      invariant disk == DiskAfter(out, cwd, disk0, n)
    {
      var entry;
      entry, disk := WritePage(disk, pages, n, columns, out, stem, suffix, cwd, relpath, disk0);
      PlanExtends(saved, entry, pages, n, columns, out, cwd, disk0, relpath);
      saved := saved + [entry];
      n := n + 1;
    }
  }

  /** Lines 280-303: clamp the layout, split the books into pages, and
      write every page: page `j + 1` holds the cards of the `j`-th slice of
      `page_size` books, is saved at its page path, and every page file
      exists afterwards alongside the files there before. */
  method RenderPages(books: seq<Book>, columns: int, rowsPerPage: int, out: string, cwd: string,
                     disk0: set<string>, relpath: (string, string) -> string)
    returns (saved: seq<Saved>, disk: set<string>)
    ensures var pages := Chunks(books, PageSize(columns, rowsPerPage));
      |saved| == |pages| &&
      forall j :: 0 <= j < |pages| ==> saved[j] == Planned(pages, j, AtLeastOne(columns), out, cwd, disk0, relpath)
    ensures disk == DiskAfter(out, cwd, disk0, |Chunks(books, PageSize(columns, rowsPerPage))|)
  {
    var cols := AtLeastOne(columns);
    var rows := AtLeastOne(rowsPerPage);
    var pages := SplitPages(books, cols * rows);
    saved, disk := WriteAll(pages, cols, out, cwd, disk0, relpath);
  }
}
