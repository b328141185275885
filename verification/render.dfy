/** The Markdown side of the generator: `truncate`, what `render_cell`
    decides for one card, the row layout of `build_table`, and the
    per-page copies made by `prepare_page_books`. The HTML and CSS text
    around these decisions is not modelled; a card is the pair of what it
    shows as a cover and the text it shows below. */
module Render {
  import opened Records
  import opened Text
  import opened Paths

  /** The character `truncate` appends. */
  const ELLIPSIS: string := "…"

  /** The longest publication line a card shows. */
  const META_LIMIT: int := 160

  /** The text a card shows when there is no publication line. */
  const NO_INFO: string := "暂无信息"

  /** Python's `s[:k]`: a negative `k` counts from the end. */
  function Take(s: string, k: int): (r: string)
    ensures r <= s
    ensures k >= |s| ==> r == s
    ensures 0 <= k <= |s| ==> |r| == k
    ensures -|s| <= k < 0 ==> |r| == |s| + k
    ensures k < -|s| ==> r == ""
  {
    if k >= |s| then s
    else if k >= 0 then s[..k]
    else if |s| + k >= 0 then s[..|s| + k]
    else ""
  }

  /** `truncate(text, limit)`: the text when it fits, otherwise its first
      `limit - 1` characters and an ellipsis. */
  function Truncate(text: string, limit: int): (r: string)
    ensures |text| <= limit ==> r == text
    ensures |text| > limit ==> r == Take(text, limit - 1) + ELLIPSIS
    ensures |text| > limit ==> r[..|r| - 1] <= text && r[|r| - 1] == '…'
    ensures |text| > limit && limit >= 1 ==> |r| == limit && r[..limit - 1] == text[..limit - 1]
    ensures limit >= 1 ==> |r| <= limit
  {
    if |text| <= limit then text else Take(text, limit - 1) + ELLIPSIS
  }

  /** With a positive limit, truncating twice is truncating once: the first
      result already fits. */
  lemma TruncateIdempotent(text: string, limit: int)
    requires limit >= 1
    ensures Truncate(Truncate(text, limit), limit) == Truncate(text, limit)
  {
  }

  /** `s.startswith(("http://", "https://"))`. */
  predicate IsRemote(s: string)
  {
    StartsWith(s, "http://") || StartsWith(s, "https://")
  }

  /** What a card shows as its cover: a linked image or an empty box. */
  datatype CoverView = Image(href: string, src: string) | Placeholder

  /** One card: its cover and its publication line. */
  datatype Cell = Cell(cover: CoverView, meta: string)

  /** The image source exactly as lines 168-172 compute it: remote
      references are dropped first, then backslashes of a path that is not
      `/`-rooted become slashes. */
  function CoverSrcAsWritten(cover: Option<string>): (src: string)
    ensures src != "" <==> Truthy(cover) && !IsRemote(cover.value)
    ensures src != "" ==> src == Normalised(cover.value)
  {
    var src := OrEmpty(cover);
    var local := if IsRemote(src) then "" else src;
    if local != "" && !(StartsWith(local, "/") || IsRemote(local)) then ReplaceChar(local, '\\', '/') else local
  }

  /** A cover reference with Windows separators turned into slashes, unless
      it is a `/`-rooted path. */
  function Normalised(s: string): (r: string)
    ensures |r| == |s|
    ensures forall i :: 0 <= i < |s| ==> r[i] == (if s[i] == '\\' && !StartsWith(s, "/") then '/' else s[i])
  {
    if StartsWith(s, "/") then s else ReplaceChar(s, '\\', '/')
  }

  /** The image source with the remote test applied to the normalised
      reference, so that no remote address reaches the page. */
  function CoverSrc(cover: Option<string>): (src: string)
    ensures src != "" <==> Truthy(cover) && !IsRemote(Normalised(cover.value))
    ensures src != "" ==> src == Normalised(cover.value) && !IsRemote(src)
  {
    var s := Normalised(OrEmpty(cover));
    if IsRemote(s) then "" else s
  }

  /** The correction only ever removes an image the code as written would
      have pointed at a remote address; everywhere else the two agree. */
  lemma CoverSrcFixOnlyDropsRemote(cover: Option<string>)
    ensures CoverSrc(cover) == CoverSrcAsWritten(cover) || (CoverSrc(cover) == "" && IsRemote(CoverSrcAsWritten(cover)))
  {
    var s := OrEmpty(cover);
    if s != "" && !IsRemote(s) && !StartsWith(s, "/") {
      assert CoverSrcAsWritten(cover) == Normalised(s);
    }
  }

  /** A cover written with backslashes, `http:\\h`, is not caught by the
      remote test of line 169 and becomes the remote address `http://h`
      after the replacement of line 172; the corrected source drops it. */
  lemma BackslashUrlAsWritten()
    ensures IsRemote(CoverSrcAsWritten(Some("http:\\\\h")))
    ensures CoverSrc(Some("http:\\\\h")) == ""
  {
    var u := "http:\\\\h";
    assert u[0] == 'h' && u[5] == '\\';
    assert "http://"[5] == '/' && "https://"[5] == ':';
    assert !IsRemote(u) && !StartsWith(u, "/");
    assert ReplaceChar(u, '\\', '/') == "http://h";
  }

  /** `render_cell`: an image linking to the Douban page exactly when the
      cover is a non-empty local reference; the publication line cut to 160
      characters, or the no-information text when there is none. */
  function RenderCell(b: Book): (c: Cell)
    ensures c.cover.Image? <==> Truthy(b.coverImage) && !IsRemote(Normalised(b.coverImage.value))
    ensures c.cover.Image? ==> c.cover.href == b.doubanUrl && c.cover.src == Normalised(b.coverImage.value) && !IsRemote(c.cover.src)
    ensures !Truthy(b.rawPub) ==> c.meta == NO_INFO
    ensures Truthy(b.rawPub) ==> c.meta == Truncate(b.rawPub.value, META_LIMIT)
    ensures c.meta != "" && |c.meta| <= META_LIMIT
  {
    var meta := if Truthy(b.rawPub) then Truncate(b.rawPub.value, META_LIMIT) else NO_INFO;
    var src := CoverSrc(b.coverImage);
    Cell(if src != "" then Image(b.doubanUrl, src) else Placeholder, meta)
  }

  /** `[s[i:i + n] for i in range(0, len(s), n)]`. */
  function Chunks<T>(s: seq<T>, n: nat): (rows: seq<seq<T>>)
    requires n >= 1
    ensures forall k :: 0 <= k < |rows| ==> 1 <= |rows[k]| <= n
    ensures s == [] <==> rows == []
    decreases |s|
  {
    if s == [] then []
    else if |s| <= n then [s]
    else [s[..n]] + Chunks(s[n..], n)
  }

  /** The rows laid end to end. */
  function Flatten<T>(rows: seq<seq<T>>): seq<T>
  {
    if rows == [] then [] else rows[0] + Flatten(rows[1..])
  }

  /** Chunking loses and reorders nothing. */
  lemma {:induction false} ChunksFlatten<T>(s: seq<T>, n: nat)
    requires n >= 1
    ensures Flatten(Chunks(s, n)) == s
    decreases |s|
  {
    if s != [] && |s| > n {
      ChunksFlatten(s[n..], n);
      var rows := Chunks(s, n);
      assert rows[1..] == Chunks(s[n..], n);
      assert s[..n] + s[n..] == s;
    }
  }

  /** Every chunk but the last is full. */
  lemma {:induction false} ChunksFull<T>(s: seq<T>, n: nat)
    requires n >= 1
    ensures forall k :: 0 <= k < |Chunks(s, n)| - 1 ==> |Chunks(s, n)[k]| == n
    decreases |s|
  {
    if s != [] && |s| > n {
      ChunksFull(s[n..], n);
      assert Chunks(s, n)[1..] == Chunks(s[n..], n);
    }
  }

  /** There are `ceil(len(s) / n)` chunks: the fewest whose total
      capacity holds the input. */
  lemma {:induction false} ChunksCount<T>(s: seq<T>, n: nat)
    requires n >= 1
    ensures (|Chunks(s, n)| - 1) * n < |s| <= |Chunks(s, n)| * n
    decreases |s|
  {
    if s != [] && |s| > n {
      ChunksCount(s[n..], n);
      var m := |Chunks(s[n..], n)|;
      assert |Chunks(s, n)| == m + 1;
      assert (m + 1) * n == m * n + n;
    }
  }

  lemma MulPred(k: nat, n: nat)
    requires k >= 1
    ensures (k - 1) * n + n == k * n
  {
  }

  /** Chunk `k` is the slice of the input from `k * n`, `n` long or up to the end. */
  lemma {:induction false} ChunkAt<T>(s: seq<T>, n: nat, k: nat)
    requires n >= 1 && k < |Chunks(s, n)|
    ensures k * n < |s| && Chunks(s, n)[k] == s[k * n..Min(k * n + n, |s|)]
    decreases k
  {
    if k > 0 {
      assert |s| > n;
      var t := s[n..];
      assert Chunks(s, n)[k] == Chunks(t, n)[k - 1];
      ChunkAt(t, n, k - 1);
      var m := (k - 1) * n;
      MulPred(k, n);
      var e := Min(m + n, |t|);
      assert e + n == Min(k * n + n, |s|);
      assert t[m..e] == s[m + n..e + n];
    }
  }

  /** Chunk `k` is `s[k * n:(k + 1) * n]`, for every `k`. */
  lemma ChunksIndex<T>(s: seq<T>, n: nat)
    requires n >= 1
    ensures forall k :: 0 <= k < |Chunks(s, n)| ==>
              k * n < |s| && Chunks(s, n)[k] == s[k * n..Min(k * n + n, |s|)]
  {
    forall k | 0 <= k < |Chunks(s, n)|
      ensures k * n < |s| && Chunks(s, n)[k] == s[k * n..Min(k * n + n, |s|)]
    {
      ChunkAt(s, n, k);
    }
  }

  /** One step of the chunking loop: from position `i`, the next chunk is
      `s[i:i + n]` and the rest starts at `i + n`. */
  lemma ChunksStep<T>(s: seq<T>, i: nat, n: nat)
    requires n >= 1 && i < |s|
    ensures Chunks(s[i..], n) == [s[i..Min(i + n, |s|)]] + Chunks(Rest(s, i + n), n)
  {
    if |s| - i > n {
      assert s[i..][..n] == s[i..i + n];
      assert s[i..][n..] == s[i + n..];
    } else {
      assert Rest(s, i + n) == [];
      assert s[i..Min(i + n, |s|)] == s[i..];
    }
  }

  function Min(a: int, b: int): int
  {
    if a <= b then a else b
  }

  /** `s[i:]`, empty once `i` is past the end. */
  function Rest<T>(s: seq<T>, i: nat): seq<T>
  {
    if i <= |s| then s[i..] else []
  }

  /** One table row: the cards of a chunk of books. */
  function CellRow(chunk: seq<Book>): (row: seq<Cell>)
    ensures |row| == |chunk| && forall j :: 0 <= j < |chunk| ==> row[j] == RenderCell(chunk[j])
  {
    seq(|chunk|, j requires 0 <= j < |chunk| => RenderCell(chunk[j]))
  }

  /** A rendered table: the number of `<col>` entries and the rows of cards. */
  datatype Table = Table(columns: nat, rows: seq<seq<Cell>>)

  /** The table `build_table` renders for `books`. */
  function TableOf(books: seq<Book>, columns: nat): (t: Table)
    requires columns >= 1
    ensures t.columns == columns && (t.rows == [] <==> books == [])
  {
    var chunks := Chunks(books, columns);
    Table(columns, seq(|chunks|, k requires 0 <= k < |chunks| => CellRow(chunks[k])))
  }

  /** The layout of a table: `ceil(len(books) / columns)` rows, all full but
      the last, and row `k` holds the cards of books `k * columns` to
      `(k + 1) * columns - 1`. */
  lemma TableLayout(books: seq<Book>, columns: nat)
    requires columns >= 1
    ensures TableOf(books, columns).columns == columns
    ensures var rows := TableOf(books, columns).rows;
      (|rows| - 1) * columns < |books| <= |rows| * columns
    ensures var rows := TableOf(books, columns).rows;
      forall k :: 0 <= k < |rows| ==> 1 <= |rows[k]| <= columns && (k < |rows| - 1 ==> |rows[k]| == columns)
    ensures var rows := TableOf(books, columns).rows;
      forall k :: 0 <= k < |rows| ==>
        k * columns < |books| && rows[k] == CellRow(books[k * columns..Min(k * columns + columns, |books|)])
  {
    ChunksCount(books, columns);
    ChunksFull(books, columns);
    ChunksIndex(books, columns);
  }

  /** `build_table`: the loop over `range(0, len(books), columns)`. */
  method BuildTable(books: seq<Book>, columns: nat) returns (t: Table)
    requires columns >= 1
    ensures t == TableOf(books, columns)
  {
    var all := Chunks(books, columns);
    var rows: seq<seq<Cell>> := [];
    var i := 0;
    while i < |books|
      invariant |rows| <= |all|
      invariant Chunks(Rest(books, i), columns) == all[|rows|..]
      invariant forall k :: 0 <= k < |rows| ==> rows[k] == CellRow(all[k])
      decreases |books| - i
    {
      ChunksStep(books, i, columns);
      var chunk := books[i..Min(i + columns, |books|)];
      rows := rows + [CellRow(chunk)];
      i := i + columns;
    }
    t := Table(columns, rows);
  }

  /** A cover the page can show: a non-empty local reference to a file that
      exists. */
  predicate LocalCover(b: Book, cwd: string, disk: set<string>)
  {
    Truthy(b.coverImage) && !IsRemote(b.coverImage.value) && Resolve(cwd, b.coverImage.value) in disk
  }

  /** The copy `prepare_page_books` makes of one book: the cover becomes the
      path of the existing local file relative to the page directory, or
      None; nothing else changes. `relpath` stands for `os.path.relpath`. */
  function PrepareOne(b: Book, pageDir: string, cwd: string, disk: set<string>,
                      relpath: (string, string) -> string): (r: Book)
    ensures SameExceptCover(b, r)
    ensures r.coverImage.Some? <==> LocalCover(b, cwd, disk)
    ensures r.coverImage.Some? ==> r.coverImage.value == relpath(Resolve(cwd, b.coverImage.value), pageDir)
  {
    var cover := b.coverImage;
    if Truthy(cover) && !IsRemote(cover.value) && Resolve(cwd, cover.value) in disk then
      b.(coverImage := Some(relpath(Resolve(cwd, cover.value), pageDir)))
    else
      b.(coverImage := None)
  }

  /** The copies `prepare_page_books` returns, in the order of the books. */
  function Prepared(books: seq<Book>, pageDir: string, cwd: string, disk: set<string>,
                    relpath: (string, string) -> string): seq<Book>
  {
    seq(|books|, i requires 0 <= i < |books| => PrepareOne(books[i], pageDir, cwd, disk, relpath))
  }

  /** `prepare_page_books`: one copy per book, in order. */
  method PreparePageBooks(books: seq<Book>, pageDir: string, cwd: string, disk: set<string>,
                          relpath: (string, string) -> string) returns (prepared: seq<Book>)
    ensures prepared == Prepared(books, pageDir, cwd, disk, relpath)
    ensures |prepared| == |books|
    ensures forall i :: 0 <= i < |books| ==>
              SameExceptCover(books[i], prepared[i]) && (prepared[i].coverImage.Some? <==> LocalCover(books[i], cwd, disk))
  {
    prepared := [];
    for i := 0 to |books|
      invariant prepared == Prepared(books[..i], pageDir, cwd, disk, relpath)
    {
      prepared := prepared + [PrepareOne(books[i], pageDir, cwd, disk, relpath)];
    }
    assert books[..|books|] == books;
  }
}
