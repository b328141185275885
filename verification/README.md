# douban_book_list, modelled in Dafny

`douban_book_list` is two Python scripts:

- `fetch_douban_wish.py` walks a Douban user's "want to read" list page by page, fifteen books per page. It turns every entry into a `Book` record and saves the records as JSON.
- `build_markdown_from_json.py` reads the records back. It first reuses cover images already cached in an image directory. It then downloads the missing covers with retries. Finally it renders the books as HTML tables of cards, split over Markdown pages: `out.md`, `out_2/index.md`, `out_3/index.md`, and so on.

This project models the algorithmic core of both scripts and proves properties of the model:

- the `Book` record;
- the publication-line parser and the subject-id extractor;
- the pagination driver of the scraper;
- the cover cache key;
- the cache pre-pass and the download loop;
- truncation, the per-card decisions of the renderer and the row layout of a table;
- the per-page copies of the books, the page split, and page naming and writing.

The model talks to the world only through parameters:

- **Filesystem.** The files and directories that exist are a `set<string>` of absolute paths. A path exists when its resolution against the working directory is in the set, and creating a directory or writing a file adds that resolution.
- **Network.** An oracle `net: nat -> bool` says whether download attempt number `n` of a run succeeds. Attempts are numbered from 0 across all books.
- **Scraper pages.** The pages the scraper would receive are a `seq<PageFetch>`.
- **Other calls.** `hashlib.md5(...).hexdigest()`, `os.path.relpath` and the working directory are parameters too.

Lists that the scripts mutate in place are `array<Book>`, and the loops that mutate them are methods. Each method is proved against a specification function, and the lemmas state what the scripts promise about that function.

Modules, file by file:

| file | module | models |
|---|---|---|
| `records.dfy` | `Records` | the `Book` dataclass, `Option`, Python truthiness |
| `text.dfy` | `Text` | `strip`, `split`, `join`, `rfind`, `replace`, `str(n)` |
| `paths.dfy` | `Paths` | `os.path.splitext` and the `pathlib` accessors on POSIX strings |
| `wish_parse.dfy` | `WishParse`, `WishParseExamples` | `parse_pub_info`, `extract_book_id`, and worked lines and URLs |
| `wish_list.dfy` | `WishList` | `fetch_wish_list` |
| `cover_key.dfy` | `CoverKey` | `safe_filename`, `expected_cover_path` |
| `cover_cache.dfy` | `CoverCache` | `attach_existing_images`, `download_images` |
| `render.dfy` | `Render` | `truncate`, `render_cell`, `build_table`, `prepare_page_books` |
| `pages.dfy` | `Pages` | download selection, page split and page naming in `main` |
| `page_output.dfy` | `PageOutput` | the page-writing loop of `main` |

## Model

| member | source | states |
|---|---|---|
| Records.OrEmpty | build_markdown_from_json.py:165 | `o or ""` is the string itself when it is present and non-empty, and `""` otherwise |
| Text.Strip | fetch_douban_wish.py:59 | `strip()` is the slice left after dropping leading and trailing whitespace; the result neither starts nor ends with whitespace |
| Text.Split | fetch_douban_wish.py:59 | `split("/")` yields at least one part, and no part contains the separator |
| Text.JoinSplit | fetch_douban_wish.py:59 | joining the parts of a split with the separator gives back the original line |
| Text.SplitJoin | fetch_douban_wish.py:59 | splitting a join of separator-free parts gives the parts back |
| Text.BeforeFirst | build_markdown_from_json.py:80 | `split("?")[0]` is the prefix before the first `?`, or the whole string |
| Text.ReplaceChar | build_markdown_from_json.py:172 | `replace` changes exactly the occurrences of the character and keeps the length |
| Text.NatToString | build_markdown_from_json.py:297 | `str(n)` is a non-empty string of decimal digits: `0` for zero, and without a leading zero otherwise |
| Text.NatToStringValue | build_markdown_from_json.py:297 | read back as a decimal number, `str(n)` is `n`, so its digits are those of `n` |
| Text.NatToStringInjective | build_markdown_from_json.py:297 | different page numbers print differently |
| Text.RFind | build_markdown_from_json.py:80 | `rfind` gives the last index of the character, or -1 when there is none |
| Paths.Ext | build_markdown_from_json.py:80 | `os.path.splitext(p)[1]` is empty, or a suffix of `p` that starts with its only `.` and holds no `/` |
| Paths.ExtOfName | build_markdown_from_json.py:80 | `splitext` of `dir/stem.ext` returns `.ext` exactly when the stem is not all dots, so a name that is only `.ext` (an empty stem) has no extension |
| Paths.Parent | build_markdown_from_json.py:300 | `.parent` of a bare name is `.`, of a child of the root is `/`, and otherwise it is the text before the last `/`, so that parent, `/` and name make up the path |
| Paths.Suffix | build_markdown_from_json.py:292 | `.suffix` is a tail of the name that starts with its only `.`; it is non-empty exactly when the name has a `.` after its first character and does not end with `.` |
| Paths.SuffixOfName | build_markdown_from_json.py:291-292 | for `dir/stem.ext` with a non-empty stem, `.suffix` is `.ext` and `.stem` is `stem` |
| Paths.Stem | build_markdown_from_json.py:291 | the name is `.stem` followed by `.suffix` |
| Paths.WithName | build_markdown_from_json.py:297 | for a name without `/`, `.with_name(n)` keeps the directory part of the path and its last component is `n` |
| Paths.JoinPathShape | build_markdown_from_json.py:87 | the last component of `dir / name` is `name` |
| Paths.ParentOfJoin | build_markdown_from_json.py:299-300 | the parent of `dir / name` is `dir`, and its name is `name` |
| WishParse.CleanParts | fetch_douban_wish.py:59 | keeping the stripped, non-empty segments gives no more parts than segments, each trimmed, non-empty and free of `/` |
| WishParse.CleanPartsSingle | fetch_douban_wish.py:59 | one segment gives its stripped text, or nothing when it is blank |
| WishParse.CleanPartsAppend | fetch_douban_wish.py:59 | the parts of two runs of segments laid end to end are the parts of the first followed by those of the second, so blank segments are dropped and the others kept in order |
| WishParse.Assign | fetch_douban_wish.py:60-73 | the fields laid end to end are the parts; there is a publisher iff there is at least one part, a date iff there are at least three, and exactly one author when there are two |
| WishParse.ParsePubInfo | fetch_douban_wish.py:58-73 | the same, for the parts of the line: nothing is lost or reordered, and the case split is on the number of parts |
| WishParse.ParsePubInfoUnique | fetch_douban_wish.py:58-73 | any reading with the fields of `ParsePubInfo`'s contract equals `ParsePubInfo`, so that contract determines the result completely |
| WishParseExamples.PubPartsOfSegments | fetch_douban_wish.py:59 | a line of `/`-separated padded segments yields exactly the trimmed segment texts |
| WishParseExamples.PubInfoFourParts | fetch_douban_wish.py:64-68 | for any four parts `a / b / c / d`, the authors are `[a, b]`, the publisher is `c` and the date is `d` |
| WishParseExamples.PubInfoDocumentedLine | fetch_douban_wish.py:64-68 | `A / B / Pub / 2020` parses to authors `[A, B]`, publisher `Pub` and date `2020` |
| WishParseExamples.PubInfoOnePart | fetch_douban_wish.py:73 | example: the line `Pub` gives the publisher `Pub`, with no authors and no date |
| WishParseExamples.PubInfoEmpty | fetch_douban_wish.py:60-61 | an empty line gives no authors, no publisher and no date |
| WishParse.RunEnd | fetch_douban_wish.py:54 | the greedy `+` run ends at the first character outside the class, or at the end |
| WishParse.MatchAt | fetch_douban_wish.py:54 | a match at `i` is `/subject/`, then a token of the group's class, then `/`, and the group is that token |
| WishParse.MatchAtComplete | fetch_douban_wish.py:54 | conversely, every `/subject/<token>/` in the text is a match at its position that captures exactly that token |
| WishParse.NoOccurrence | fetch_douban_wish.py:54 | no match at any position means no `/subject/<token>/` anywhere in the text |
| WishParse.SearchFrom | fetch_douban_wish.py:54 | `re.search` returns the leftmost position with a match, and no match starts before it; no result means no match anywhere |
| WishParse.ExtractBookId | fetch_douban_wish.py:53-55 | as written: the result is the group of the leftmost match, a backslash followed by letters `d`; it is None iff the URL holds no `/subject/<such token>/` |
| WishParse.ExtractBookIdDigits | fetch_douban_wish.py:53-55 | corrected: the result is the ASCII digits of the leftmost `/subject/<digits>/`; it is None iff the URL holds none |
| WishParseExamples.SubjectIdAsWrittenMisses | fetch_douban_wish.py:54 | on `https://book.douban.com/subject/1/` the pattern as written finds nothing |
| WishParseExamples.SearchSkips | fetch_douban_wish.py:54 | the search moves past positions where nothing matches |
| WishParseExamples.SubjectIdDigitsFinds | fetch_douban_wish.py:53-55 | on the same URL the corrected pattern returns `1` |
| WishList.PageAt | fetch_douban_wish.py:143-145 | a fetch past the end of the given pages is an empty page without a next link |
| WishList.CapReached | fetch_douban_wish.py:153 | `max_pages and page >= max_pages` never holds for None or 0, always holds for a negative cap, and holds iff `page >= max_pages` for a positive one |
| WishList.HarvestFrom | fetch_douban_wish.py:140-158 | the run from fetch `k` requests at least one page, and its first offset is `15 * k` |
| WishList.FetchWishList | fetch_douban_wish.py:136-158 | the loop yields exactly the books, offsets and failure of the reference run `HarvestFrom(pages, maxPages, 0)` |
| WishList.HarvestShape | fetch_douban_wish.py:140-158 | from fetch `k`, request `j` asks for offset `15 * (k + j)`. Every fetch but the last continues the loop and the last stops it. The books are those of the fetched pages in order, and the run fails iff its last fetch failed |
| WishList.RunShape | fetch_douban_wish.py:140-158 | the same from offset 0: at least one request, offsets 0, 15, 30, ..., stopping at the first page that ends the loop |
| WishList.PageCap | fetch_douban_wish.py:153-154 | with a non-zero `max_pages`, at most that many pages are requested, whatever the pages say about a next page; a negative cap allows one page |
| WishList.NoCap | fetch_douban_wish.py:147-156 | with `max_pages` None or 0, a run ends only on a failed fetch, an empty page or a page without a next link |
| WishList.Exhaustion | fetch_douban_wish.py:147-148 | if `n` non-empty pages with next links are followed by an empty page, and there is no cap, exactly `n + 1` pages are fetched and the books of the first `n` are yielded |
| CoverKey.Collapse | build_markdown_from_json.py:75 | `re.sub` leaves only safe characters, is empty iff its input is, and never lengthens |
| CoverKey.CollapseSafePrefix | build_markdown_from_json.py:75 | a prefix of safe characters passes through unchanged |
| CoverKey.CollapseRun | build_markdown_from_json.py:75 | a maximal run of unsafe characters becomes a single `_` |
| CoverKey.SafeFilename | build_markdown_from_json.py:74-76 | the name is non-empty and holds only `[A-Za-z0-9._-]`. A blank input gives `cover`; otherwise the name is the stripped input with its unsafe runs collapsed, and no longer than it |
| CoverKey.SafeFilenameIdempotent | build_markdown_from_json.py:74-76 | sanitising a sanitised name changes nothing |
| CoverKey.SafeFilenameOfSafe | build_markdown_from_json.py:74-76 | a non-empty name of safe characters comes out unchanged |
| CoverKey.Prefix | build_markdown_from_json.py:83 | `s[:10]` is a prefix of `s`, of length 10 or all of `s` when shorter |
| CoverKey.CoverIdentifier | build_markdown_from_json.py:81-85 | a truthy book id wins; otherwise, for a non-empty URL with a non-empty digest, the first ten hex digits of its md5; otherwise the title |
| CoverKey.CoverExt | build_markdown_from_json.py:80 | the extension of the cover with its query string removed, or `.jpg` when that has none or there is no cover; it starts with its only `.` and holds no `/` or `?` |
| CoverKey.CoverExtIgnoresQuery | build_markdown_from_json.py:80 | a cover `u?q` with no `?` in `u` takes its extension from `u`, `.jpg` when `u` has none |
| CoverKey.CoverStem | build_markdown_from_json.py:81-86 | the stem is `safe_filename` of the identifier, `cover` when the identifier is empty, and the identifier itself when that is already safe; it is non-empty and safe |
| CoverKey.CoverFileName | build_markdown_from_json.py:86 | the cache file name is the stem followed by the extension, and holds no `/` or `?` |
| CoverKey.ExpectedCoverPath | build_markdown_from_json.py:79-87 | the path ends with the cache file name after its last `/`; for an image directory in normal form, its parent is that directory and its name is the cache file name |
| CoverKey.CoverKeyDeterministic | build_markdown_from_json.py:79-87 | books that agree on book id, URL, title and cover get the same cache path |
| CoverKey.ExtOfCoverPath | build_markdown_from_json.py:80 | the extension read back from a cache path is the one it was built with, unless the stem is all dots |
| CoverKey.CoverExtOfPath | build_markdown_from_json.py:80 | a book whose cover is its cache path has that path's extension |
| CoverKey.CoverPathStable | build_markdown_from_json.py:79-87 | pointing a book's cover at its own cache path leaves the cache path unchanged |
| CoverCache.CacheKeyStable | build_markdown_from_json.py:79-87 | `expected_cover_path` is a stable cache key for such books |
| CoverCache.AttachOne | build_markdown_from_json.py:94-98 | only the cover changes. It becomes the cache path when that file exists, and the book is left alone otherwise |
| CoverCache.CountCached | build_markdown_from_json.py:94-99 | the match count never exceeds the number of books |
| CoverCache.CountCachedCountsMatches | build_markdown_from_json.py:94-99 | the match count is the number of books whose cache file exists |
| CoverCache.AttachExistingImages | build_markdown_from_json.py:90-100 | without the image directory, nothing changes and 0 is returned. Otherwise every book becomes `AttachOne` of itself, and the count is the number of matches |
| CoverCache.AttachCached | build_markdown_from_json.py:94-99 | the loop sets element `i` to `AttachOne` of its old value and returns `CountCached` of the old array |
| CoverCache.AttachOneIdempotent | build_markdown_from_json.py:90-100 | running the pre-pass twice on a book with a stable key is running it once |
| CoverCache.Retry | build_markdown_from_json.py:133-149 | attempts stop at the first success. At most `max_retries` are made, none when it is 0 or less. A failure means every attempt failed |
| CoverCache.RetrySucceedsIff | build_markdown_from_json.py:133-150 | the retry loop succeeds iff one of its `max_retries` attempts would |
| CoverCache.DownloadOne | build_markdown_from_json.py:122-153 | one book's turn changes only its cover; the book fails iff its cover is cleared, and otherwise its cover is its cache path |
| CoverCache.DownloadOneOutcome | build_markdown_from_json.py:121-153 | a book that did not fail has its cache file on disk. At most that file is added and at most `max_retries` attempts are made. A missing cover or a cached file makes no request, and a book that needed a download fails iff all its attempts fail |
| CoverCache.DownloadAll | build_markdown_from_json.py:121-153 | the loop yields one book and one failure flag per input book |
| CoverCache.DownloadAllBounds | build_markdown_from_json.py:121-153 | no file disappears, and the whole run makes at most `len(books) * max_retries` attempts, none when `max_retries <= 0` |
| CoverCache.DownloadAllPerBook | build_markdown_from_json.py:121-153 | within the run, the turn of book `i` adds at most `max_retries` attempts, and none when the book has no cover or its cache file already exists at that moment |
| CoverCache.DownloadAllOutcome | build_markdown_from_json.py:121-153 | for every book, only the cover changes. It fails iff its cover is cleared, otherwise it points at a cache file that exists, and a book without a cover always fails |
| CoverCache.FailuresInOrder | build_markdown_from_json.py:119-153 | the failure list keeps the order of the books |
| CoverCache.FailedAreFailures | build_markdown_from_json.py:124-153 | every failed book is in the failure list |
| CoverCache.FailuresAreFailed | build_markdown_from_json.py:124-153 | every entry of the failure list is a failed book |
| CoverCache.FailuresCount | build_markdown_from_json.py:124-153 | the failure list is as long as the number of failed books |
| CoverCache.DownloadImages | build_markdown_from_json.py:103-155 | after creating the image directory, the array, failures, disk and attempt count are those of `DownloadAll` over the old books |
| CoverCache.DownloadMissing | build_markdown_from_json.py:119-155 | the loop alone, for any cache key: the same agreement with `DownloadAll` and `Failures` |
| CoverCache.DownloadStep | build_markdown_from_json.py:121-153 | one turn of the loop extends the state over the first `i` books by book `i`'s outcome, and extends the failure list by that book if it failed |
| CoverCache.DownloadBook | build_markdown_from_json.py:122-153 | the loop body for one book, including its retry loop, computes `DownloadOne` |
| CoverCache.SecondRunFetchesNothing | build_markdown_from_json.py:121-153 | with stable keys, running the download again on its own output makes no request and changes nothing |
| CoverCache.Settled | build_markdown_from_json.py:122-131 | books with no cover, or pointing at an existing cache file, pass through untouched and without requests |
| Render.Take | build_markdown_from_json.py:161 | `s[:k]` is a prefix of `s`: all of `s` when `k >= len(s)`, `k` characters when `0 <= k`, `len(s) + k` characters for a negative `k` down to `-len(s)`, and empty below that |
| Render.Truncate | build_markdown_from_json.py:158-161 | text within the limit is returned unchanged. Longer text becomes its first `limit - 1` characters plus `…`, exactly `limit` long for a positive limit |
| Render.TruncateIdempotent | build_markdown_from_json.py:158-161 | with a positive limit, truncating twice is truncating once |
| Render.CoverSrcAsWritten | build_markdown_from_json.py:168-172 | as written: the source is non-empty iff the cover is set and is not remote before its backslashes are replaced, and then it is the normalised cover |
| Render.Normalised | build_markdown_from_json.py:171-172 | backslashes become `/` unless the reference is `/`-rooted; nothing else changes |
| Render.CoverSrc | build_markdown_from_json.py:168-172 | corrected: the source is non-empty iff the cover is set and its normalised form is not remote, and then it is that form |
| Render.CoverSrcFixOnlyDropsRemote | build_markdown_from_json.py:168-172 | the correction agrees with the code as written, except that it drops a source the code would point at a remote address |
| Render.BackslashUrlAsWritten | build_markdown_from_json.py:168-172 | as written, the cover `http:\\h` renders the remote source `http://h`; the corrected source drops it |
| Render.RenderCell | build_markdown_from_json.py:164-183 | corrected (second Findings row): a card shows an image linking to the Douban page iff the normalised cover is a non-remote reference. Its text is the publication line cut to 160 characters, or `暂无信息` when there is none, and is never empty |
| Render.Chunks | build_markdown_from_json.py:188-189 | every chunk holds 1 to `n` items, and there are no chunks iff the input is empty |
| Render.ChunksFlatten | build_markdown_from_json.py:188-189 | laid end to end, the chunks are the input |
| Render.ChunksFull | build_markdown_from_json.py:188-189 | every chunk but the last is full |
| Render.ChunksCount | build_markdown_from_json.py:188-189 | there are `ceil(len / n)` chunks |
| Render.ChunksIndex | build_markdown_from_json.py:188-189 | chunk `k` is `s[k*n:(k+1)*n]` |
| Render.ChunksStep | build_markdown_from_json.py:188-189 | one loop step takes the chunk at `i` and continues at `i + n` |
| Render.CellRow | build_markdown_from_json.py:190 | a row has one card per book of its chunk, in order |
| Render.TableOf | build_markdown_from_json.py:186-204 | a table has `columns` column entries, and no rows iff there are no books |
| Render.TableLayout | build_markdown_from_json.py:186-204 | there are `ceil(len / columns)` rows, all full but the last; row `k` holds the cards of books `k*columns` to `(k+1)*columns - 1` |
| Render.BuildTable | build_markdown_from_json.py:186-204 | the loop computes `TableOf(books, columns)` |
| Render.PrepareOne | build_markdown_from_json.py:210-219 | the copy changes only the cover. The cover is set iff the original is a non-remote reference to an existing file, and then it is that file's path relative to the page directory |
| Render.PreparePageBooks | build_markdown_from_json.py:207-220 | one copy per book, in order, each `PrepareOne` of its book |
| Pages.NeedDownload | build_markdown_from_json.py:253-258 | the selection holds exactly the books whose cover is set but is not an existing local file, and is no longer than the list |
| Pages.NeedDownloadSnoc | build_markdown_from_json.py:253-258 | the selection keeps the order of the books: one more book at the end is added at the end of the selection iff it needs a download |
| Pages.AtLeastOne | build_markdown_from_json.py:280-281 | `max(1, x)` is 1 when `x < 1` and `x` otherwise |
| Pages.PageSize | build_markdown_from_json.py:280-283 | the page size is the product of the clamped dimensions: `columns * rows` when both are positive, the other clamped dimension when one is below 1, and never below 1 |
| Pages.SplitPages | build_markdown_from_json.py:284-287 | the split loop computes the chunks of the books |
| Pages.PageSplit | build_markdown_from_json.py:280-287 | the pages laid end to end are the books. There are `ceil(len / page_size)` pages, none empty, and all but the last hold a full page |
| Pages.PageSplitFourteen | build_markdown_from_json.py:280-287 | fourteen books at three columns and two rows make pages of books 1-6, 7-12 and 13-14 |
| Pages.PageSuffix | build_markdown_from_json.py:292 | the suffix of the output path, or `.md` when it has none; it starts with its only `.` and holds no `/` |
| Pages.PageDir | build_markdown_from_json.py:297 | the directory of page `idx` sits in the directory of the output path and is named `<stem>_<idx>` |
| Pages.PagePath | build_markdown_from_json.py:293-299 | page 1 is the output path; page `idx >= 2` is `index<suffix>` inside the directory of page `idx`, which is its parent |
| Pages.PagePathDefault | build_markdown_from_json.py:291-299 | with the output `out.md`, page 2 is `out_2/index.md` and page 3 is `out_3/index.md` |
| Pages.JoinAfterDigit | build_markdown_from_json.py:299-300 | inside a directory whose name ends in a digit, `index<suffix>` is joined with one `/`, and its parent is that directory |
| Pages.PagePathShape | build_markdown_from_json.py:291-300 | page `idx >= 2` is `index<suffix>` inside `<stem>_<idx>`, next to the output file, and is prepared for that directory |
| Pages.PagePathsDistinct | build_markdown_from_json.py:293-303 | different pages are written to different files, so no page overwrites another |
| PageOutput.DiskBeforeGrows | build_markdown_from_json.py:293-303 | when page `idx` is prepared, nothing has been removed, every earlier page file exists, and every page directory up to `idx` exists |
| PageOutput.DiskAfterStep | build_markdown_from_json.py:296-302 | the files that exist when page `n + 1` is prepared are those after page `n`, plus the page's directory from page 2 on; writing the page adds its file |
| PageOutput.DiskAfterHasPages | build_markdown_from_json.py:293-303 | after `n` pages, nothing has been removed, and every page file and every page directory up to page `n` exists |
| PageOutput.WritePage | build_markdown_from_json.py:294-303 | one turn of the loop saves page `n + 1` as planned (its path, and the table of its books prepared against the files that exist by then) and leaves the files as after page `n + 1` |
| PageOutput.PlanExtends | build_markdown_from_json.py:293-303 | saving the planned page `n + 1` after the first `n` planned pages gives the first `n + 1` planned pages |
| PageOutput.WriteAll | build_markdown_from_json.py:293-303 | one entry per chunk: page `j + 1` is saved at its page path with the table of chunk `j`, prepared against the files that exist by then; the files afterwards are those after the last page |
| PageOutput.RenderPages | build_markdown_from_json.py:280-303 | the layout is clamped, the books are split into pages of `page_size`, and every page is written as in `WriteAll` |

## Left out

- HTTP transport, `time.sleep`, `random.uniform` and request headers are not modelled. A page fetch is an element of the page sequence, and an image download attempt is the value of `net`.
- `parse_books`, `fetch_page_html` and the command-line `main` of the scraper are not modelled. They select HTML nodes with BeautifulSoup and parse a float rating, and the JSON they write is I/O. The rating-count pattern at fetch_douban_wish.py:99 sits inside `parse_books` and is not part of this model.
- `WishList.PageAt`: the pages the site returns are a finite sequence, and the model assumes that every fetch past its end finds an empty page without a next link. Every run therefore ends, and termination of `HarvestFrom` and `FetchWishList` rests on that assumption. A site that keeps returning non-empty pages with a next link, on which the script with `max_pages` None or 0 never stops, cannot be represented.
- `WishParse.ExtractBookIdDigits` reads `\d` as the ASCII digits `0`-`9`. Python 3's `\d` on a `str` pattern also matches other Unicode decimal digits, which the model does not.
- `hashlib.md5` and `os.path.relpath` are parameters (`md5hex`, `relpath`), and the working directory is the parameter `cwd`.
- `load_books`, JSON decoding, `argparse`, the default output name and every `print` are left out, as I/O.
- Paths are POSIX strings in pathlib's normal form. Windows separators, `os.sep` and path normalisation (`..`, repeated `/`, symbolic links) are not modelled. `replace(os.sep, "/")` is therefore the identity.
- The disk is the set of absolute paths that exist, in every module. A path `p` exists when its resolution against the working directory (`p` itself when it starts with `/`, otherwise `cwd/p`) is in the set, and creating a file adds that resolution. Two spellings that resolve to the same string are the same file; spellings that differ only by `..` or a link are not identified.
- Partial writes and failing `mkdir`, `write_bytes` or `write_text` are not modelled. `mkdir(parents=True)` adds only the directory itself.
- The counting of cached files at lines 246-250, and the messages at 262-271 and 305-314, are left out, as they only print.
- `Pages.NeedDownload` returns copies. In the script `need_download` holds the same objects as `books`, so covers cleared or set by `download_images` show up in the list that is rendered. The model's `DownloadImages` works on an array of its own, and this aliasing is not captured.
- `Render.RenderCell` follows the corrected image source `CoverSrc` (second Findings row), not lines 168-172 as written: for a cover such as `http:\\h` the script shows an image of `http://h`, and the model shows a placeholder. `Render.CoverSrcAsWritten` models the lines as written, and `Render.CoverSrcFixOnlyDropsRemote` proves that this is the only kind of card on which the two differ.
- `Render.RenderCell` models what a card shows (image source and link, or placeholder, and its text). The HTML and CSS text, the palette, `textwrap.dedent` and the column width `100/columns` are not modelled.
- `Render.TableOf`: `build_table` is only modelled for `columns >= 1`, which `main` guarantees by clamping. With 0 columns `range` would raise, and negative columns give an empty table.
- `Render.Truncate` with a negative limit follows Python slicing in `Take`, but no lemma is stated for that case. The renderer always passes 160.
- `CoverCache.Retry`: the network oracle is indexed by the attempt number within one `download_images` call, so the model cannot express a server whose answers depend on the URL. Any such behaviour is a particular `net`.
- `CoverKey.CoverPathStable` holds only under `StableKey`: the image directory holds no `?`, and the stem is not all dots. Outside it, `splitext` can read a different extension back from the cached path.
- The `rating` field is a `real`. Nothing computes with it.

## Findings

| source | as written | input that shows it | evidently intended | confidence | as-written member | corrected member |
|---|---|---|---|---|---|---|
| fetch_douban_wish.py:54 | the raw-string pattern `r"/subject/(\\d+)/"` matches a backslash followed by letters `d`, not digits | `https://book.douban.com/subject/1/` gives None | `/subject/(\d+)/`, returning `1` | high; not executed | WishParseExamples.SubjectIdAsWrittenMisses (over WishParse.ExtractBookId) | WishParseExamples.SubjectIdDigitsFinds (over WishParse.ExtractBookIdDigits) |
| build_markdown_from_json.py:168-172 | the remote test runs before backslashes are turned into slashes, so a backslashed remote address passes it | cover `http:\\h` renders image source `http://h` | no remote address reaches the page (local images only) | medium; not executed | Render.BackslashUrlAsWritten (over Render.CoverSrcAsWritten) | Render.CoverSrcFixOnlyDropsRemote (over Render.CoverSrc, used by Render.RenderCell) |

The extractor's result is stored as `book_id` (fetch_douban_wish.py:127), a Douban subject number. The same `(\\d+)` idiom appears at fetch_douban_wish.py:99, and its group feeds `int(...)` at fetch_douban_wish.py:100, which only a string of digits satisfies. Both show that digits were meant. The model follows the code in `WishParse.ExtractBookId`, and proves the corrected `WishParse.ExtractBookIdDigits` alongside.
