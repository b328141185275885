/** The local cover cache: matching covers already on disk
    (`attach_existing_images`) and downloading the missing ones with retries
    (`download_images`). The filesystem is the set of absolute paths that
    exist: a path exists when its resolution against the working directory
    `cwd` is in the set, and creating a file adds that resolution. The
    network is an oracle telling whether the `n`-th download attempt of the
    run (counted from 0 across all books) fetched and wrote the image.
    The specifications take the cache key as a function `key`; the methods
    use `CacheKey(imgDir, md5hex)`, which is `expected_cover_path`. */
module CoverCache {
  import opened Records
  import opened Paths
  import opened CoverKey

  /** `lambda book: expected_cover_path(book, img_dir)`. */
  function CacheKey(imgDir: string, md5hex: string -> string): Book -> string
  {
    b => ExpectedCoverPath(b, imgDir, md5hex)
  }

  /** The key is a non-empty path, and setting a book's cover to its key
      leaves the key unchanged. */
  predicate KeyStable(key: Book -> string, b: Book)
  {
    key(b) != "" && key(b.(coverImage := Some(key(b)))) == key(b)
  }

  /** `expected_cover_path` is a stable key for every book with `StableKey`. */
  lemma CacheKeyStable(imgDir: string, md5hex: string -> string, b: Book)
    requires StableKey(b, imgDir, md5hex)
    ensures KeyStable(CacheKey(imgDir, md5hex), b)
  {
    CoverPathStable(b, imgDir, md5hex);
    assert CoverFileName(b, md5hex) != "";
  }

  /** The pre-pass for one book: point the cover at its cache path when that
      file exists, otherwise leave the book alone. */
  function AttachOne(b: Book, key: Book -> string, cwd: string, disk: set<string>): (r: Book)
    ensures SameExceptCover(r, b)
    ensures Resolve(cwd, key(b)) in disk ==> r.coverImage == Some(key(b))
    ensures Resolve(cwd, key(b)) !in disk ==> r == b
  {
    if Resolve(cwd, key(b)) in disk then b.(coverImage := Some(key(b))) else b
  }

  /** How many of `books` have their cache file on disk. */
  function CountCached(books: seq<Book>, key: Book -> string, cwd: string, disk: set<string>): (n: nat)
    ensures n <= |books|
    decreases |books|
  {
    if books == [] then 0
    else
      var n := |books| - 1;
      CountCached(books[..n], key, cwd, disk) + (if Resolve(cwd, key(books[n])) in disk then 1 else 0)
  }

  /** `attach_existing_images`: when the image directory exists, every book
      whose cache file exists gets that file as its cover, every other book
      is left alone, and the result counts the matches; when it does not
      exist nothing changes. */
  method AttachExistingImages(books: array<Book>, imgDir: string, md5hex: string -> string,
                              cwd: string, disk: set<string>)
    returns (matched: nat)
    modifies books
    ensures Resolve(cwd, imgDir) !in disk ==> matched == 0 && books[..] == old(books[..])
    ensures Resolve(cwd, imgDir) in disk ==>
      matched == CountCached(old(books[..]), CacheKey(imgDir, md5hex), cwd, disk) &&
      forall i :: 0 <= i < books.Length ==> books[i] == AttachOne(old(books[i]), CacheKey(imgDir, md5hex), cwd, disk)
  {
    if Resolve(cwd, imgDir) !in disk {
      return 0;
    }
    matched := AttachCached(books, CacheKey(imgDir, md5hex), cwd, disk);
  }

  /** The loop of `attach_existing_images`, for any cache key. */
  method AttachCached(books: array<Book>, key: Book -> string, cwd: string, disk: set<string>)
    returns (matched: nat)
    modifies books
    ensures matched == CountCached(old(books[..]), key, cwd, disk)
    ensures forall i :: 0 <= i < books.Length ==> books[i] == AttachOne(old(books[i]), key, cwd, disk)
  {
    ghost var input := books[..];
    matched := 0;
    var i := 0;
    while i < books.Length
      invariant 0 <= i <= books.Length
      invariant matched == CountCached(input[..i], key, cwd, disk)
      invariant forall j :: 0 <= j < i ==> books[j] == AttachOne(input[j], key, cwd, disk)
      invariant forall j :: i <= j < books.Length ==> books[j] == input[j]
    {
      var dest := key(books[i]);
      assert input[..i + 1][..i] == input[..i];
      if Resolve(cwd, dest) in disk {
        books[i] := books[i].(coverImage := Some(dest));
        matched := matched + 1;
      }
      i := i + 1;
    }
    assert input[..books.Length] == input;
  }

  /** The pre-pass is idempotent on a book with a stable key. */
  lemma AttachOneIdempotent(b: Book, key: Book -> string, cwd: string, disk: set<string>)
    requires KeyStable(key, b)
    ensures var r := AttachOne(b, key, cwd, disk);
      AttachOne(r, key, cwd, disk) == r
  {
  }

  /** The number of matches is the number of books whose cache file exists. */
  lemma {:induction false} CountCachedCountsMatches(books: seq<Book>, key: Book -> string, cwd: string, disk: set<string>)
    ensures CountCached(books, key, cwd, disk) == |set i | 0 <= i < |books| && Resolve(cwd, key(books[i])) in disk|
    decreases |books|
  {
    if books != [] {
      var n := |books| - 1;
      var init := books[..n];
      CountCachedCountsMatches(init, key, cwd, disk);
      var s0 := set i | 0 <= i < |init| && Resolve(cwd, key(init[i])) in disk;
      var s1 := set i | 0 <= i < |books| && Resolve(cwd, key(books[i])) in disk;
      assert forall i :: 0 <= i < n ==> init[i] == books[i];
      if Resolve(cwd, key(books[n])) in disk {
        assert s1 == s0 + {n};
      } else {
        assert s1 == s0;
      }
    }
  }

  /** The outcome of the retry loop: whether an attempt succeeded and how
      many attempts were made. */
  datatype Tries = Tries(ok: bool, attempts: nat)

  /** `for _ in range(left)`, starting at global attempt `at`: attempts are
      made until one succeeds; a count of zero or less makes none. */
  function Retry(net: nat -> bool, at: nat, left: int): (t: Tries)
    ensures t.attempts <= if left > 0 then left else 0
    ensures t.ok ==> t.attempts >= 1 && net(at + t.attempts - 1)
    ensures forall j :: at <= j < at + t.attempts - 1 ==> !net(j)
    ensures !t.ok ==> t.attempts == (if left > 0 then left else 0) && forall j :: at <= j < at + t.attempts ==> !net(j)
    decreases left
  {
    if left <= 0 then Tries(false, 0)
    else if net(at) then Tries(true, 1)
    else
      var t := Retry(net, at + 1, left - 1);
      Tries(t.ok, t.attempts + 1)
  }

  /** The download loop succeeds exactly when one of its attempts would. */
  lemma RetrySucceedsIff(net: nat -> bool, at: nat, left: int)
    ensures Retry(net, at, left).ok <==> exists j :: at <= j < at + left && net(j)
  {
    var t := Retry(net, at, left);
    if t.ok {
      assert net(at + t.attempts - 1);
    }
  }

  /** The state after one book: the book, whether it failed, the files on
      disk, and the attempts used so far. */
  datatype Step = Step(book: Book, failed: bool, disk: set<string>, used: nat)

  /** The body of the download loop for one book, from the files on disk and
      the attempts used before it: only the cover changes, and the book
      fails exactly when its cover ends up cleared and otherwise points at
      its cache file. */
  function DownloadOne(b: Book, key: Book -> string, cwd: string, disk: set<string>,
                       net: nat -> bool, used: nat, maxRetries: int): (s: Step)
    ensures SameExceptCover(s.book, b)
    ensures s.failed <==> s.book.coverImage == None
    ensures !s.failed ==> s.book.coverImage == Some(key(b))
  {
    if !Truthy(b.coverImage) then Step(b.(coverImage := None), true, disk, used)
    else if Resolve(cwd, key(b)) in disk then Step(b.(coverImage := Some(key(b))), false, disk, used)
    else
      var t := Retry(net, used, maxRetries);
      if t.ok then Step(b.(coverImage := Some(key(b))), false, disk + {Resolve(cwd, key(b))}, used + t.attempts)
      else Step(b.(coverImage := None), true, disk, used + t.attempts)
  }

  /** What one book's turn does besides its cover: a book that did not fail
      has its cache file on disk afterwards; at most that file is added to
      the disk and at most `maxRetries` attempts are made; a book without a
      cover reference, or whose file already exists, makes no request; and a
      book that needed a download fails exactly when all its attempts
      fail. */
  lemma DownloadOneOutcome(b: Book, key: Book -> string, cwd: string, disk: set<string>,
                           net: nat -> bool, used: nat, maxRetries: int)
    ensures var s := DownloadOne(b, key, cwd, disk, net, used, maxRetries);
      var file := Resolve(cwd, key(b));
      (!s.failed ==> file in s.disk) &&
      disk <= s.disk <= disk + {file} &&
      used <= s.used <= used + (if maxRetries > 0 then maxRetries else 0) &&
      (!Truthy(b.coverImage) ==> s.failed && s.disk == disk && s.used == used) &&
      (Truthy(b.coverImage) && file in disk ==> !s.failed && s.disk == disk && s.used == used) &&
      (Truthy(b.coverImage) && file !in disk ==>
        (s.failed <==> forall j :: used <= j < used + maxRetries ==> !net(j)))
  {
    RetrySucceedsIff(net, used, maxRetries);
  }

  /** The state after the whole loop. */
  datatype Batch = Batch(books: seq<Book>, failed: seq<bool>, disk: set<string>, used: nat)

  /** The download loop over `books` in order. */
  function DownloadAll(books: seq<Book>, key: Book -> string, cwd: string, disk: set<string>,
                       net: nat -> bool, maxRetries: int): (r: Batch)
    ensures |r.books| == |books| && |r.failed| == |books|
    decreases |books|
  {
    if books == [] then Batch([], [], disk, 0)
    else
      var n := |books| - 1;
      var prev := DownloadAll(books[..n], key, cwd, disk, net, maxRetries);
      var s := DownloadOne(books[n], key, cwd, prev.disk, net, prev.used, maxRetries);
      Batch(prev.books + [s.book], prev.failed + [s.failed], s.disk, s.used)
  }

  /** No file disappears, and the run makes at most `maxRetries` attempts
      for each book. */
  lemma {:induction false} DownloadAllBounds(books: seq<Book>, key: Book -> string, cwd: string,
                                             disk: set<string>, net: nat -> bool, maxRetries: int)
    ensures var r := DownloadAll(books, key, cwd, disk, net, maxRetries);
      disk <= r.disk && r.used <= |books| * (if maxRetries > 0 then maxRetries else 0)
    decreases |books|
  {
    if books != [] {
      var n := |books| - 1;
      var prev := DownloadAll(books[..n], key, cwd, disk, net, maxRetries);
      DownloadAllBounds(books[..n], key, cwd, disk, net, maxRetries);
      DownloadOneOutcome(books[n], key, cwd, prev.disk, net, prev.used, maxRetries);
      var m := if maxRetries > 0 then maxRetries else 0;
      MulSucc(n, m);
    }
  }

  lemma MulSucc(n: nat, m: nat)
    ensures (n + 1) * m == n * m + m
  {
  }

  /** The turn of book `i` within the run: it starts from the attempts and
      files left by the books before it, uses at most `maxRetries` attempts
      and none at all unless the book has a cover reference whose cache
      file is missing at that moment. */
  lemma DownloadAllPerBook(books: seq<Book>, i: nat, key: Book -> string, cwd: string,
                           disk: set<string>, net: nat -> bool, maxRetries: int)
    requires i < |books|
    ensures var prev := DownloadAll(books[..i], key, cwd, disk, net, maxRetries);
      var next := DownloadAll(books[..i + 1], key, cwd, disk, net, maxRetries);
      prev.used <= next.used <= prev.used + (if maxRetries > 0 then maxRetries else 0) &&
      (!Truthy(books[i].coverImage) || Resolve(cwd, key(books[i])) in prev.disk ==> next.used == prev.used)
  {
    var prev := DownloadAll(books[..i], key, cwd, disk, net, maxRetries);
    assert books[..i + 1] == books[..i] + [books[i]];
    DownloadAllSnoc(books[..i], books[i], key, cwd, disk, net, maxRetries);
    DownloadOneOutcome(books[i], key, cwd, prev.disk, net, prev.used, maxRetries);
  }

  /** What the loop does to every book: only covers change; a book fails
      exactly when its cover is cleared and otherwise points at its cache
      file, which exists afterwards; and a book without a cover reference
      always fails. */
  lemma {:induction false} DownloadAllOutcome(books: seq<Book>, key: Book -> string, cwd: string,
                                              disk: set<string>, net: nat -> bool, maxRetries: int)
    ensures var r := DownloadAll(books, key, cwd, disk, net, maxRetries);
      (forall i :: 0 <= i < |books| ==> SameExceptCover(r.books[i], books[i])) &&
      (forall i :: 0 <= i < |books| ==> (r.failed[i] <==> r.books[i].coverImage == None)) &&
      (forall i :: 0 <= i < |books| && !r.failed[i] ==>
         r.books[i].coverImage == Some(key(books[i])) && Resolve(cwd, key(books[i])) in r.disk) &&
      (forall i :: 0 <= i < |books| && !Truthy(books[i].coverImage) ==> r.failed[i])
    decreases |books|
  {
    if books != [] {
      var n := |books| - 1;
      var prev := DownloadAll(books[..n], key, cwd, disk, net, maxRetries);
      DownloadAllOutcome(books[..n], key, cwd, disk, net, maxRetries);
      DownloadOneOutcome(books[n], key, cwd, prev.disk, net, prev.used, maxRetries);
      var r := DownloadAll(books, key, cwd, disk, net, maxRetries);
      var s := DownloadOne(books[n], key, cwd, prev.disk, net, prev.used, maxRetries);
      assert r.books == prev.books + [s.book] && r.failed == prev.failed + [s.failed] && r.disk == s.disk;
      forall i | 0 <= i < |books|
        ensures SameExceptCover(r.books[i], books[i])
        ensures r.failed[i] <==> r.books[i].coverImage == None
        ensures !r.failed[i] ==> r.books[i].coverImage == Some(key(books[i])) && Resolve(cwd, key(books[i])) in r.disk
        ensures !Truthy(books[i].coverImage) ==> r.failed[i]
      {
        if i < n {
          assert r.books[i] == prev.books[i] && r.failed[i] == prev.failed[i] && books[i] == books[..n][i];
        }
      }
    }
  }

  /** The books that failed, in input order: `failures` in `download_images`. */
  function Failures(books: seq<Book>, failed: seq<bool>): seq<Book>
    requires |books| == |failed|
    decreases |books|
  {
    if books == [] then []
    else
      var n := |books| - 1;
      Failures(books[..n], failed[..n]) + (if failed[n] then [books[n]] else [])
  }

  /** `xs` is `ys` with some elements left out, order kept. */
  predicate IsSubsequence<T(==)>(xs: seq<T>, ys: seq<T>)
    decreases |ys|
  {
    if xs == [] then true
    else if ys == [] then false
    else (xs[|xs| - 1] == ys[|ys| - 1] && IsSubsequence(xs[..|xs| - 1], ys[..|ys| - 1])) ||
         IsSubsequence(xs, ys[..|ys| - 1])
  }

  /** The failures keep the order of the books they come from. */
  lemma {:induction false} FailuresInOrder(books: seq<Book>, failed: seq<bool>)
    requires |books| == |failed|
    ensures IsSubsequence(Failures(books, failed), books)
    decreases |books|
  {
    if books != [] {
      var n := |books| - 1;
      FailuresInOrder(books[..n], failed[..n]);
      var f0 := Failures(books[..n], failed[..n]);
      assert books[..|books| - 1] == books[..n];
      if failed[n] {
        var f := f0 + [books[n]];
        assert Failures(books, failed) == f;
        assert f[..|f| - 1] == f0 && f[|f| - 1] == books[|books| - 1];
      } else {
        assert Failures(books, failed) == f0 + [];
        assert f0 + [] == f0;
      }
    }
  }

  /** Every failed book is among the failures. */
  lemma {:induction false} FailedAreFailures(books: seq<Book>, failed: seq<bool>)
    requires |books| == |failed|
    ensures forall i :: 0 <= i < |books| && failed[i] ==> books[i] in Failures(books, failed)
    decreases |books|
  {
    if books != [] {
      var n := |books| - 1;
      FailedAreFailures(books[..n], failed[..n]);
      assert forall i :: 0 <= i < n ==> books[..n][i] == books[i] && failed[..n][i] == failed[i];
    }
  }

  /** Every failure is a failed book. */
  lemma {:induction false} FailuresAreFailed(books: seq<Book>, failed: seq<bool>)
    requires |books| == |failed|
    ensures forall x :: x in Failures(books, failed) ==> exists i :: 0 <= i < |books| && failed[i] && books[i] == x
    decreases |books|
  {
    if books != [] {
      var n := |books| - 1;
      FailuresAreFailed(books[..n], failed[..n]);
      assert forall i :: 0 <= i < n ==> books[..n][i] == books[i] && failed[..n][i] == failed[i];
    }
  }

  /** There are as many failures as failed books. */
  lemma {:induction false} FailuresCount(books: seq<Book>, failed: seq<bool>)
    requires |books| == |failed|
    ensures |Failures(books, failed)| == |set i | 0 <= i < |books| && failed[i]|
    decreases |books|
  {
    if books != [] {
      var n := |books| - 1;
      FailuresCount(books[..n], failed[..n]);
      var s0 := set i | 0 <= i < n && failed[..n][i];
      var s1 := set i | 0 <= i < |books| && failed[i];
      assert forall i :: 0 <= i < n ==> failed[..n][i] == failed[i];
      if failed[n] {
        assert s1 == s0 + {n};
      } else {
        assert s1 == s0;
      }
    }
  }

  /** `download_images`: after creating the image directory, for each book
      in order, a book without a cover reference fails at once; a book whose
      cache file exists is pointed at it without a request; otherwise up to
      `maxRetries` attempts are made, and a success writes the file and points
      the book at it while running out of attempts clears the cover and
      records the failure. */
  method DownloadImages(books: array<Book>, imgDir: string, md5hex: string -> string, cwd: string,
                        disk0: set<string>, net: nat -> bool, maxRetries: int)
    returns (failures: seq<Book>, disk: set<string>, attempts: nat)
    modifies books
    ensures var r := DownloadAll(old(books[..]), CacheKey(imgDir, md5hex), cwd, disk0 + {Resolve(cwd, imgDir)}, net, maxRetries);
      books[..] == r.books && disk == r.disk && attempts == r.used && failures == Failures(r.books, r.failed)
  {
    failures, disk, attempts := DownloadMissing(books, CacheKey(imgDir, md5hex), cwd, disk0 + {Resolve(cwd, imgDir)},
                                                net, maxRetries);
  }

  /** The loop of `download_images`, for any cache key. */
  method DownloadMissing(books: array<Book>, key: Book -> string, cwd: string, disk0: set<string>,
                         net: nat -> bool, maxRetries: int)
    returns (failures: seq<Book>, disk: set<string>, attempts: nat)
    modifies books
    ensures var r := DownloadAll(old(books[..]), key, cwd, disk0, net, maxRetries);
      books[..] == r.books && disk == r.disk && attempts == r.used && failures == Failures(r.books, r.failed)
  {
    disk := disk0;
    attempts := 0;
    failures := [];
    ghost var failed: seq<bool> := [];
    ghost var input := books[..];
    var i := 0;
    while i < books.Length
      invariant 0 <= i <= books.Length && |failed| == i
      invariant DownloadAll(input[..i], key, cwd, disk0, net, maxRetries) == Batch(books[..i], failed, disk, attempts)
      invariant failures == Failures(books[..i], failed)
      invariant forall j :: i <= j < books.Length ==> books[j] == input[j]
    {
      ghost var before, diskBefore, usedBefore := books[..i], disk, attempts;
      assert books[i] == input[i];
      var book, bookFailed;
      book, bookFailed, disk, attempts := DownloadBook(books[i], key, cwd, disk, net, attempts, maxRetries);
      books[i] := book;
      assert books[..i + 1] == before + [book];
      if bookFailed {
        failures := failures + [book];
      }
      DownloadStep(input, i, key, cwd, disk0, net, maxRetries, before, failed, diskBefore, usedBefore,
                   book, bookFailed, disk, attempts);
      failed := failed + [bookFailed];
      i := i + 1;
    }
    assert input[..books.Length] == input;
  }

  /** One turn of the download loop, on values: the loop state over the
      first `i + 1` books extends that over the first `i` by the outcome of
      book `i`. */
  lemma DownloadStep(input: seq<Book>, i: nat, key: Book -> string, cwd: string, disk0: set<string>,
                     net: nat -> bool, maxRetries: int, before: seq<Book>, failed: seq<bool>,
                     disk: set<string>, used: nat, book: Book, bookFailed: bool, disk': set<string>, used': nat)
    requires i < |input| && |before| == |failed|
    requires DownloadAll(input[..i], key, cwd, disk0, net, maxRetries) == Batch(before, failed, disk, used)
    requires Step(book, bookFailed, disk', used') == DownloadOne(input[i], key, cwd, disk, net, used, maxRetries)
    ensures DownloadAll(input[..i + 1], key, cwd, disk0, net, maxRetries) ==
      Batch(before + [book], failed + [bookFailed], disk', used')
    ensures Failures(before + [book], failed + [bookFailed]) == Failures(before, failed) + (if bookFailed then [book] else [])
  {
    assert input[..i + 1] == input[..i] + [input[i]];
    DownloadAllSnoc(input[..i], input[i], key, cwd, disk0, net, maxRetries);
    FailuresSnoc(before, failed, book, bookFailed);
  }

  /** The loop extended by one book. */
  lemma DownloadAllSnoc(xs: seq<Book>, x: Book, key: Book -> string, cwd: string, disk: set<string>,
                        net: nat -> bool, maxRetries: int)
    ensures var prev := DownloadAll(xs, key, cwd, disk, net, maxRetries);
      var s := DownloadOne(x, key, cwd, prev.disk, net, prev.used, maxRetries);
      DownloadAll(xs + [x], key, cwd, disk, net, maxRetries) == Batch(prev.books + [s.book], prev.failed + [s.failed], s.disk, s.used)
  {
    assert (xs + [x])[..|xs|] == xs;
  }

  lemma FailuresSnoc(books: seq<Book>, failed: seq<bool>, b: Book, f: bool)
    requires |books| == |failed|
    ensures Failures(books + [b], failed + [f]) == Failures(books, failed) + (if f then [b] else [])
  {
    assert (books + [b])[..|books|] == books;
    assert (failed + [f])[..|failed|] == failed;
  }

  /** The loop body of `download_images` for one book. */
  method DownloadBook(b: Book, key: Book -> string, cwd: string, disk0: set<string>, net: nat -> bool,
                      used: nat, maxRetries: int)
    returns (book: Book, failed: bool, disk: set<string>, attempts: nat)
    ensures Step(book, failed, disk, attempts) == DownloadOne(b, key, cwd, disk0, net, used, maxRetries)
  {
    disk, attempts := disk0, used;
    if !(b.coverImage.Some? && b.coverImage.value != "") {
      return b.(coverImage := None), true, disk, attempts;
    }
    var dest := key(b);
    if Resolve(cwd, dest) in disk {
      return b.(coverImage := Some(dest)), false, disk, attempts;
    }
    var success := false;
    var k := 0;
    while k < maxRetries
      invariant 0 <= k && attempts == used + k && !success && disk == disk0
      invariant Retry(net, used, maxRetries) == var t := Retry(net, used + k, maxRetries - k); Tries(t.ok, t.attempts + k)
    {
      var fetched := net(attempts);
      attempts := attempts + 1;
      if fetched {
        disk := disk + {Resolve(cwd, dest)};
        success := true;
        break;
      }
      k := k + 1;
    }
    if success {
      book, failed := b.(coverImage := Some(dest)), false;
    } else {
      book, failed := b.(coverImage := None), true;
    }
  }

  /** Running the download again after a run makes no request and changes
      nothing when every book's key is stable: a book that failed has no
      cover and fails again at once, and any other points at a file that
      exists. */
  lemma SecondRunFetchesNothing(books: seq<Book>, key: Book -> string, cwd: string, disk: set<string>,
                                net: nat -> bool, net2: nat -> bool, maxRetries: int)
    requires forall i :: 0 <= i < |books| ==> KeyStable(key, books[i])
    ensures var r := DownloadAll(books, key, cwd, disk, net, maxRetries);
      DownloadAll(r.books, key, cwd, r.disk, net2, maxRetries) == Batch(r.books, r.failed, r.disk, 0)
  {
    var r := DownloadAll(books, key, cwd, disk, net, maxRetries);
    DownloadAllOutcome(books, key, cwd, disk, net, maxRetries);
    DownloadAllBounds(books, key, cwd, disk, net, maxRetries);
    forall i | 0 <= i < |books| && !r.failed[i]
      ensures r.books[i].coverImage == Some(key(r.books[i])) && key(r.books[i]) != ""
    {
      assert r.books[i] == books[i].(coverImage := Some(key(books[i])));
    }
    Settled(r.books, r.failed, key, cwd, r.disk, net2, maxRetries);
  }

  /** Books that are either without a cover or point at an existing cache
      file pass through the download loop untouched and without requests. */
  lemma {:induction false} Settled(xs: seq<Book>, failed: seq<bool>, key: Book -> string, cwd: string,
                                   disk: set<string>, net: nat -> bool, maxRetries: int)
    requires |xs| == |failed|
    requires forall i :: 0 <= i < |xs| ==> (failed[i] <==> xs[i].coverImage == None)
    requires forall i :: 0 <= i < |xs| && !failed[i] ==>
               xs[i].coverImage == Some(key(xs[i])) && key(xs[i]) != "" && Resolve(cwd, key(xs[i])) in disk
    ensures DownloadAll(xs, key, cwd, disk, net, maxRetries) == Batch(xs, failed, disk, 0)
    decreases |xs|
  {
    if xs != [] {
      var n := |xs| - 1;
      Settled(xs[..n], failed[..n], key, cwd, disk, net, maxRetries);
      assert xs[..n] + [xs[n]] == xs;
      assert failed[..n] + [failed[n]] == failed;
    }
  }
}
