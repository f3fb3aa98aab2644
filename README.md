# everyday: composer and splitter

The repository keeps a developer log as one Markdown note per day. Two small
batch tools move between the two forms of that log:

- the **composer** (`_tools/composer`) reads the notes directory, keeps the
  files whose name passes the filter and whose heading carries a
  `MM.DD.YYYY` date, orders them newest first and writes them into one log,
  each followed by a blank line;
- the **splitter** (`_tools/splitter`) reads such a log line by line, cuts it
  into posts at every heading line (`# ...`) and writes each post into
  `./output/<title>.md`, with every `/` in the title replaced by a space.

This project models both tools' logic in Dafny, without their file I/O, and
proves what they do, both separately and together.

- `wrappers.dfy` (`Wrappers`) defines `Option` and `Result`.
- `text.dfy` (`Text`) models the string operations the tools use:
  - `starts_with` and `ends_with`;
  - `replace`: non-overlapping, left to right;
  - `split_once`;
  - `lines()`, modelled as `Lines`, and its inverse `Terminated` (each line followed by `'\n'`);
  - the UTF-8 byte length that `String::len` returns.
- `heading.dfy` (`Heading`) holds the heading convention both tools share: a heading starts with `"# "`, and its title is the line with every `"# "` removed.
- `dates.dfy` (`Dates`) is a strict `MM.DD.YYYY` reader with Gregorian month lengths and leap years, its inverse, and the chronological order on dates.
- `composer.dfy` (`Composer`) covers the composer:
  - the name filter and heading extraction, with the two `unwrap` failures;
  - the collect loop (`CollectPosts`), proved against the fold `Collected`;
  - the newest-first stable sort, as a reference insertion sort proved sorted, a permutation, stable, and the only arrangement with those three properties;
  - the concatenation loop (`Concatenate`);
  - the whole run (`Compose`).
- `splitter.dfy` (`Splitter`) covers the splitter:
  - the `Post` class (`new`, `add_line`, the struct literal);
  - the scan loop (`Split`), proved against the fold `Scan` of a state machine;
  - the segmentation properties;
  - the output name and what the write loop leaves in the output directory.
- `roundtrip.dfy` (`RoundTrip`) proves the law relating the two tools. Take posts whose first line, and no other line, is a heading. Splitting the composed log gives the posts back in the log's newest-first order, each post's content being the file's text followed by `"\n\n"`. When no two such posts share an output name, every collected file's text plus `"\n\n"` lands in its own output file.

Assumptions of the model:

- The directory listing is a sequence of (file name, content) pairs, taken in the order the directory yields it.
- `lines()` is modelled as splitting on `'\n'`, with no empty line after a final `'\n'`. The text is assumed to hold no `'\r'`: Rust's `lines()` would also drop a `'\r'` before each `'\n'`.
- A title's heading marker: the code's `replace("# ", "")` removes every `"# "` in the line, not only the leading marker, and the model follows the code. So does the composer's date text, which is cut from that title.
- A composer heading with no `" - "` makes the code panic through `unwrap`. The model turns that into an abort of the whole run (`HeaderError.MissingDateSeparator`), not a skip. An empty file aborts the same way (`HeaderError.MissingFirstLine`).

## Model

| member | source | states |
|---|---|---|
| Composer.EligibleNameChars | _tools/composer/src/main.rs:18 | a file name is read iff it has at least three characters, does not start with `.` or `_`, and ends in `.md` |
| Composer.FirstLine | _tools/composer/src/main.rs:20 | there is no first line iff the file is empty; otherwise the first line is the prefix of the content up to, and not including, the first `'\n'` (or the whole content) |
| Composer.FirstLineOfLines | _tools/composer/src/main.rs:20 | the first line of a non-empty file is the first element of its `lines()` |
| Composer.DateText | _tools/composer/src/main.rs:20-21 | `MissingFirstLine` iff the file is empty; `MissingDateSeparator` iff the title holds no `" - "`; otherwise the date text is the part of the title before its first `" - "` |
| Composer.Contribution | _tools/composer/src/main.rs:18-29 | a filtered-out name contributes nothing; an eligible file aborts iff its heading cannot be taken apart, with that error; it yields a post iff its date text reads as a calendar date, and the post holds the file's content and that date |
| Composer.CollectPosts | _tools/composer/src/main.rs:15-33 | the collect loop returns the fold `Collected` of the listing (posts in listing order, or the first abort), and its size counter is the sum of each post's UTF-8 byte length plus 2 |
| Composer.CollectedSkipsFile | _tools/composer/src/main.rs:22-29 | a file that is filtered out, or whose date text is not a date, leaves the collection exactly as if it were absent |
| Composer.CollectedAborts | _tools/composer/src/main.rs:20-21 | the run aborts with error `e` iff some file aborts with `e` and every file before it is accepted or skipped |
| Composer.CollectedCount | _tools/composer/src/main.rs:22-28 | the number of posts collected, which `posts.len()` reports at line 46, is the number of eligible files whose date reads |
| Composer.SortPermutes | _tools/composer/src/main.rs:35 | the sorted posts are a permutation (same multiset) of the collected posts |
| Composer.SortOrders | _tools/composer/src/main.rs:35 | after the sort no post is older than a post after it |
| Composer.SortIsStable | _tools/composer/src/main.rs:35 | after the sort, the posts of every date are in the order they were collected |
| Composer.NewerComesFirst | _tools/composer/src/main.rs:35 | of two collected posts with different dates, the newer one is placed before the older one |
| Composer.SortedIsUnique | _tools/composer/src/main.rs:35 | any newest-first arrangement that keeps each date's posts in collection order equals `SortNewestFirst`, so the model agrees with any stable sort |
| Composer.SortKeepsSize | _tools/composer/src/main.rs:35-36 | sorting leaves the size the log needs unchanged |
| Composer.Concatenate | _tools/composer/src/main.rs:36-41 | the loop produces each post's content followed by `"\n\n"`, in order, and the result is exactly as many UTF-8 bytes long as the sum of each post's length plus 2 |
| Composer.ConcatenatedCons | _tools/composer/src/main.rs:38-41 | the log of a post followed by others is that post's content, `"\n\n"`, then the log of the others |
| Composer.ConcatenatedLength | _tools/composer/src/main.rs:36-41 | the log's UTF-8 length equals `total_content_size` as line 23 adds it up |
| Composer.Compose | _tools/composer/src/main.rs:10-49 | the run aborts iff the collection aborts, with its error; otherwise it writes the newest-first concatenation, reports the number of eligible dated files, and the log's byte length is the accumulated size |
| Dates.DaysInMonth | _tools/composer/src/main.rs:22 | every month has 28 to 31 days, and a month has 29 days iff it is February of a leap year |
| Dates.ParseDate | _tools/composer/src/main.rs:22 | an accepted date text is ten characters `MM.DD.YYYY` and names a calendar date with a year from 0 to 9999 |
| Dates.ParseFormatDate | _tools/composer/src/main.rs:22 | every calendar date with a four-digit year is accepted back from its zero-padded written form |
| Dates.FormatParsedDate | _tools/composer/src/main.rs:22 | an accepted date text is exactly the written form of the date it names |
| Dates.BeforeIsStrictTotalOrder | _tools/composer/src/main.rs:35 | the date order used by the sort is irreflexive, asymmetric, transitive and total |
| Heading.HeadingTitle | _tools/splitter/src/main.rs:36 | a heading's title is its text after the marker with every further `"# "` removed, and exactly that text when it holds no `'#'` |
| Splitter.Post.New | _tools/splitter/src/main.rs:10-15 | a new post has the given title and empty content |
| Splitter.Post.constructor | _tools/splitter/src/main.rs:35-38 | the struct literal sets the title and content it is given |
| Splitter.Post.AddLine | _tools/splitter/src/main.rs:17-20 | the content grows by exactly the line and a `'\n'`; the title is unchanged |
| Splitter.Split | _tools/splitter/src/main.rs:27-48 | the scan loop over a document's lines returns the posts of the state machine `Scan`, the post still open at the end included |
| Splitter.PostsFollowHeadings | _tools/splitter/src/main.rs:29-48 | there are as many posts as heading lines; the k-th post is titled after the k-th heading and its content starts with that heading and `'\n'` |
| Splitter.SplitKeepsText | _tools/splitter/src/main.rs:29-48 | the posts' contents, concatenated in order, are exactly the lines from the first heading on, each followed by `'\n'` |
| Splitter.PreambleIsDropped | _tools/splitter/src/main.rs:39-43 | lines before the first heading change nothing: they belong to no post |
| Splitter.ScanBlock | _tools/splitter/src/main.rs:29-44 | a heading followed by non-heading lines closes the open post and leaves open one post whose content is those lines, each followed by `'\n'` |
| Splitter.Sanitize | _tools/splitter/src/main.rs:51 | the sanitised title has the title's length, every `/` replaced by a space and every other character kept, so it holds no `/` |
| Splitter.OutputNameInDirectory | _tools/splitter/src/main.rs:51 | every output name is `./output/`, then the sanitised title, then `.md`, with no `/` after the directory; a title without `/` is used as it is |
| Splitter.WriteOutputs | _tools/splitter/src/main.rs:50-54 | the write loop leaves the directory `OutputFiles`: each post written under its output name, in post order |
| Splitter.OutputFilesCoverPosts | _tools/splitter/src/main.rs:50-54 | every post's output name is a file after the write loop |
| Splitter.OutputFileWriter | _tools/splitter/src/main.rs:50-54 | every file written holds the content of the last post with its name, and no later post has that name (duplicate titles clobber earlier ones) |
| Splitter.DistinctNamesKeepEveryPost | _tools/splitter/src/main.rs:50-54 | when no two posts share an output name, each post's content is in its own file |
| Splitter.SplitAndWrite | _tools/splitter/src/main.rs:23-57 | the splitter's run leaves the output files of the posts cut from the document's lines |
| RoundTrip.SplitSnoc | _tools/composer/src/main.rs:38-41 | appending one well-formed post to the log adds exactly that post's entry to what the splitter cuts out |
| RoundTrip.SplitInvertsConcatenate | _tools/composer/src/main.rs:36-41 | splitting the concatenation of well-formed posts gives one entry per post, in order, titled as the post's heading, with the post's content plus `"\n\n"` |
| RoundTrip.ComposedLogSplitsBack | _tools/splitter/src/main.rs:29-48 | splitting the composer's log gives the collected posts in newest-first order, each with its file's text plus `"\n\n"` (posts whose first line, and no other, is a heading) |
| RoundTrip.ComposedFilesComeBack | _tools/splitter/src/main.rs:50-54 | when, in addition, no two composed posts share an output name, every collected file's text plus `"\n\n"` is written under the name derived from its title |

## Left out

- Filesystem and console I/O are not modelled: `fs::read_dir`, `fs::read_to_string`, `File::open`, `File::create`, `write_all` and `println!`. The directory listing is an input sequence. The log, the count and the output directory are returned values.
- Directory-listing order is platform-defined, so the listing is taken in the order given.
- `to_str()` failing on non-UTF-8 names, failed directory entries (`if let Ok(entry)`), `?` on read or write errors, and a `lines()` read error are operating-system plumbing and are not modelled.
- Dates.ParseDate: accepts only the strict ten-character zero-padded form. chrono's `%m.%d.%Y` may accept slightly more, such as unpadded fields or a year written with a sign or more digits.
- `lines()` dropping a `'\r'` before `'\n'` is not modelled; the text is assumed to hold no `'\r'`.
- `String::with_capacity(total_content_size)` only reserves memory, which has no observable effect; the model keeps the size as a number and proves it equals the log's length.
- `total_content_size` is a `usize` and could overflow; it is modelled as an unbounded `nat`, since no realistic log reaches that size.
- Composer.SortNewestFirst: `posts.sort_by` sorts the vector in place with Rust's library sort. The model sorts values with a reference insertion sort instead. `SortedIsUnique` proves every stable newest-first sort gives the same sequence.
- Panics other than the two `unwrap`s in the composer's heading extraction are not modelled, and neither are I/O error codes.
