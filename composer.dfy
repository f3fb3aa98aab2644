/**
 * The composer: it reads a directory listing of note files, keeps the files
 * whose names pass the filter and whose heading carries a calendar date,
 * orders them newest first and concatenates them, each followed by a blank
 * line. The listing is given as a sequence of (name, content) pairs in the
 * order the directory yields them.
 */
module Composer {
  import opened Wrappers
  import opened Text
  import opened Heading
  import opened Dates

  /** One directory entry: the file's name and the text it holds. */
  datatype FileEntry = FileEntry(name: string, content: string)

  /** A post kept for the log: the whole file text and the date of its heading. */
  datatype Post = Post(content: string, date: Date)

  /**
   * The two `unwrap` failures that abort a run: a file with no first line
   * at all, and a title that holds no `" - "`.
   */
  datatype HeaderError = MissingFirstLine | MissingDateSeparator

  const DateSeparator: string := " - "
  const PostSeparator: string := "\n\n"

  // ---------------------------------------------------------------------
  // Name filter and heading (one file)
  // ---------------------------------------------------------------------

  /** File names the composer reads: not hidden, not starting with `_`, ending in `.md`. */
  predicate IsEligibleName(name: string)
  {
    !StartsWith(name, ".") && !StartsWith(name, "_") && EndsWith(name, ".md")
  }

  /** The filter stated character by character. */
  lemma EligibleNameChars(name: string)
    ensures IsEligibleName(name) <==>
      |name| >= 3 && name[0] != '.' && name[0] != '_'
      && name[|name| - 3] == '.' && name[|name| - 2] == 'm' && name[|name| - 1] == 'd'
  {
    if |name| >= 3 {
      assert name[|name| - 3..] == [name[|name| - 3], name[|name| - 2], name[|name| - 1]];
      assert name[..1] == [name[0]];
    }
  }

  /** `content.lines().next()`: the text up to the first `'\n'`; nothing for an empty file. */
  function FirstLine(content: string): (r: Option<string>)
    ensures r.None? <==> content == []
    ensures r.Some? ==> '\n' !in r.value && StartsWith(content, r.value)
    ensures r.Some? ==> |r.value| == |content| || content[|r.value|] == '\n'
  {
    if content == [] then None
    else
      PrefixBeforeIndexOf(content, '\n');
      Some(content[..IndexOf(content, '\n')])
  }

  lemma PrefixBeforeIndexOf(s: string, c: char)
    ensures c !in s[..IndexOf(s, c)]
  {
    IndexOfFirst(s, c);
    var i := IndexOf(s, c);
    assert forall j :: 0 <= j < i ==> s[..i][j] == s[j];
  }

  /** The first line is the first of `Lines`. */
  lemma FirstLineOfLines(content: string)
    requires content != []
    ensures Lines(content) != [] && FirstLine(content) == Some(Lines(content)[0])
  {
    var i := IndexOf(content, '\n');
    if i < |content| {
      LinesStep(content, i);
    } else {
      assert content[..i] == content;
    }
  }

  /** The title written in a file's heading: its first line with every "# " removed. */
  function Title(content: string): string
    requires content != []
  {
    TitleOf(FirstLine(content).value)
  }

  /**
   * The date text of a file: the part of its title before the first
   * `" - "`, or the `unwrap` that fails on the way.
   */
  function DateText(content: string): (r: Result<string, HeaderError>)
    ensures r == Err(MissingFirstLine) <==> content == []
    ensures r == Err(MissingDateSeparator) <==>
      content != [] && forall j: nat :: !OccursAt(Title(content), DateSeparator, j)
    ensures r.Ok? ==> content != [] && StartsWith(Title(content), r.value + DateSeparator)
    ensures r.Ok? ==> forall j: nat :: j < |r.value| ==> !OccursAt(Title(content), DateSeparator, j)
  {
    if content == [] then Err(MissingFirstLine)
    else
      match SplitOnce(Title(content), DateSeparator)
      case None => Err(MissingDateSeparator)
      case Some((before, after)) =>
        assert (before + DateSeparator + after)[..|before + DateSeparator|] == before + DateSeparator;
        Ok(before)
  }

  /**
   * What one directory entry adds to the collection: nothing when its name
   * is filtered out or its date text is not a date, a post when it is, and
   * an abort when its heading cannot be taken apart.
   */
  function Contribution(f: FileEntry): (r: Result<Option<Post>, HeaderError>)
    ensures !IsEligibleName(f.name) ==> r == Ok(None)
    ensures r.Err? <==> IsEligibleName(f.name) && DateText(f.content).Err?
    ensures r.Err? ==> r.error == DateText(f.content).error
    ensures r.Ok? && r.value.Some? <==>
      IsEligibleName(f.name) && DateText(f.content).Ok? && ParseDate(DateText(f.content).value).Some?
    ensures r.Ok? && r.value.Some? ==>
      r.value.value.content == f.content && IsValid(r.value.value.date)
      && ParseDate(DateText(f.content).value) == Some(r.value.value.date)
  {
    if !IsEligibleName(f.name) then Ok(None)
    else
      match DateText(f.content)
      case Err(e) => Err(e)
      case Ok(dateText) =>
        match ParseDate(dateText)
        case None => Ok(None)
        case Some(date) => Ok(Some(Post(f.content, date)))
  }

  /** A file that yields a post. */
  predicate IsDated(f: FileEntry)
  {
    Contribution(f).Ok? && Contribution(f).value.Some?
  }

  // ---------------------------------------------------------------------
  // Collecting the posts (the first loop)
  // ---------------------------------------------------------------------

  /** The posts gathered from a listing, in listing order, or the first abort. */
  function Collected(listing: seq<FileEntry>): Result<seq<Post>, HeaderError>
  {
    if listing == [] then Ok([])
    else
      match Collected(listing[..|listing| - 1])
      case Err(e) => Err(e)
      case Ok(posts) =>
        match Contribution(listing[|listing| - 1])
        case Err(e) => Err(e)
        case Ok(None) => Ok(posts)
        case Ok(Some(post)) => Ok(posts + [post])
  }

  /** The bytes the log needs: each post's content and its two `'\n'`s. */
  function TotalSize(posts: seq<Post>): nat
  {
    if posts == [] then 0
    else TotalSize(posts[..|posts| - 1]) + Utf8Length(posts[|posts| - 1].content) + |PostSeparator|
  }

  /** The loop of lines 15-33: push the posts, add up their sizes, abort on a bad heading. */
  method CollectPosts(listing: seq<FileEntry>) returns (outcome: Result<seq<Post>, HeaderError>, totalContentSize: nat)
    ensures outcome == Collected(listing)
    ensures outcome.Ok? ==> totalContentSize == TotalSize(outcome.value)
  {
    var posts: seq<Post> := [];
    totalContentSize := 0;
    for i := 0 to |listing|
      invariant Collected(listing[..i]) == Ok(posts)
      invariant totalContentSize == TotalSize(posts)
    {
      CollectedStep(listing, i);
      var entry := listing[i];
      if IsEligibleName(entry.name) {
        var content := entry.content;
        var dateText := DateText(content);
        if dateText.Err? {
          CollectedAbortStays(listing[..i + 1], listing[i + 1..]);
          assert listing[..i + 1] + listing[i + 1..] == listing;
          outcome := Err(dateText.error);
          return;
        }
        var date := ParseDate(dateText.value);
        if date.Some? {
          totalContentSize := totalContentSize + Utf8Length(content) + |PostSeparator|;
          var post := Post(content, date.value);
          assert (posts + [post])[..|posts|] == posts;
          posts := posts + [post];
        }
      }
    }
    assert listing[..|listing|] == listing;
    outcome := Ok(posts);
  }

  /** One more file of the listing. */
  lemma CollectedStep(listing: seq<FileEntry>, i: nat)
    requires i < |listing|
    ensures Collected(listing[..i + 1]) ==
      match Collected(listing[..i])
      case Err(e) => Err(e)
      case Ok(posts) =>
        match Contribution(listing[i])
        case Err(e) => Err(e)
        case Ok(None) => Ok(posts)
        case Ok(Some(post)) => Ok(posts + [post])
  {
    assert listing[..i + 1][..i] == listing[..i];
  }

  /** Once a prefix of the listing aborts, so does the whole listing, with the same error. */
  lemma CollectedAbortStays(a: seq<FileEntry>, b: seq<FileEntry>)
    requires Collected(a).Err?
    ensures Collected(a + b) == Collected(a)
  {
    CollectedAppend(a, b);
  }

  /** How the results of two parts of a listing combine: the first abort wins. */
  function Join(first: Result<seq<Post>, HeaderError>, second: Result<seq<Post>, HeaderError>): Result<seq<Post>, HeaderError>
  {
    match first
    case Err(e) => Err(e)
    case Ok(p) =>
      match second
      case Err(e) => Err(e)
      case Ok(q) => Ok(p + q)
  }

  /** Collecting is a homomorphism from listings to posts: parts can be collected separately. */
  lemma {:induction false} CollectedAppend(a: seq<FileEntry>, b: seq<FileEntry>)
    ensures Collected(a + b) == Join(Collected(a), Collected(b))
    decreases |b|
  {
    if b == [] {
      assert a + b == a;
      if Collected(a).Ok? { assert Collected(a).value + [] == Collected(a).value; }
    } else {
      var init := b[..|b| - 1];
      assert (a + b)[..|a + b| - 1] == a + init;
      assert (a + b)[|a + b| - 1] == b[|b| - 1];
      CollectedAppend(a, init);
      match Collected(a)
      case Err(_) =>
      case Ok(p) =>
        match Collected(init)
        case Err(_) =>
        case Ok(q) =>
          match Contribution(b[|b| - 1])
          case Err(_) =>
          case Ok(None) =>
          case Ok(Some(post)) =>
            assert p + (q + [post]) == (p + q) + [post];
    }
  }

  /**
   * A file whose name is filtered out, or whose date text is not a date,
   * leaves the collection exactly as if it were not in the directory.
   */
  lemma CollectedSkipsFile(a: seq<FileEntry>, f: FileEntry, b: seq<FileEntry>)
    requires !IsEligibleName(f.name) || (DateText(f.content).Ok? && ParseDate(DateText(f.content).value).None?)
    ensures Collected(a + [f] + b) == Collected(a + b)
  {
    assert Contribution(f) == Ok(None);
    assert Collected([f]) == Ok([]) by {
      assert [f][..0] == [];
    }
    CollectedAppend(a, [f]);
    CollectedAppend(a + [f], b);
    CollectedAppend(a, b);
    if Collected(a).Ok? {
      assert Collected(a).value + [] == Collected(a).value;
    }
  }

  /** A run aborts exactly when some eligible file's heading cannot be taken apart, with the first such error. */
  lemma CollectedAborts(listing: seq<FileEntry>, e: HeaderError)
    ensures Collected(listing) == Err(e) <==>
      exists i :: 0 <= i < |listing| && Contribution(listing[i]) == Err(e)
        && forall j :: 0 <= j < i ==> Contribution(listing[j]).Ok?
  {
    if Collected(listing) == Err(e) {
      var i := FirstAbort(listing);
      FirstAbortDecides(listing, i);
    }
    if exists i :: 0 <= i < |listing| && Contribution(listing[i]) == Err(e)
        && forall j :: 0 <= j < i ==> Contribution(listing[j]).Ok? {
      var i :| 0 <= i < |listing| && Contribution(listing[i]) == Err(e)
        && forall j :: 0 <= j < i ==> Contribution(listing[j]).Ok?;
      FirstAbortDecides(listing, i);
    }
  }

  /** The first file that aborts decides the error of the run. */
  lemma FirstAbortDecides(listing: seq<FileEntry>, i: nat)
    requires i < |listing| && Contribution(listing[i]).Err?
    requires forall j :: 0 <= j < i ==> Contribution(listing[j]).Ok?
    ensures Collected(listing) == Err(Contribution(listing[i]).error)
  {
    OkPrefixCollectsOk(listing, i);
    CollectedStep(listing, i);
    CollectedAbortStays(listing[..i + 1], listing[i + 1..]);
    assert listing[..i + 1] + listing[i + 1..] == listing;
  }

  lemma OkPrefixCollectsOk(listing: seq<FileEntry>, i: nat)
    requires i <= |listing|
    requires forall j :: 0 <= j < i ==> Contribution(listing[j]).Ok?
    ensures Collected(listing[..i]).Ok?
  {
    var prefix := listing[..i];
    forall j | 0 <= j < |prefix| ensures Contribution(prefix[j]).Ok? {
      assert prefix[j] == listing[j];
    }
    AllOkCollectsOk(prefix);
  }

  /** An aborting collection has a first aborting file. */
  lemma {:induction false} FirstAbort(listing: seq<FileEntry>) returns (i: nat)
    requires Collected(listing).Err?
    ensures i < |listing| && Contribution(listing[i]).Err?
    ensures forall j :: 0 <= j < i ==> Contribution(listing[j]).Ok?
    decreases |listing|
  {
    var init := listing[..|listing| - 1];
    if Collected(init).Err? {
      i := FirstAbort(init);
      assert listing[i] == init[i];
      assert forall j :: 0 <= j < i ==> listing[j] == init[j];
    } else {
      i := |listing| - 1;
      forall j | 0 <= j < i ensures Contribution(listing[j]).Ok? {
        assert listing[j] == init[j];
        NoAbortBeforeOk(init, j);
      }
    }
  }

  /** When the collection of a listing succeeds, no file in it aborts. */
  lemma {:induction false} NoAbortBeforeOk(listing: seq<FileEntry>, j: nat)
    requires Collected(listing).Ok? && j < |listing|
    ensures Contribution(listing[j]).Ok?
    decreases |listing|
  {
    var init := listing[..|listing| - 1];
    if j < |init| {
      assert listing[j] == init[j];
      NoAbortBeforeOk(init, j);
    }
  }

  /** When no file aborts, the collection succeeds. */
  lemma {:induction false} AllOkCollectsOk(listing: seq<FileEntry>)
    requires forall j :: 0 <= j < |listing| ==> Contribution(listing[j]).Ok?
    ensures Collected(listing).Ok?
    decreases |listing|
  {
    if listing != [] {
      var init := listing[..|listing| - 1];
      forall j | 0 <= j < |init| ensures Contribution(init[j]).Ok? {
        assert init[j] == listing[j];
      }
      AllOkCollectsOk(init);
    }
  }

  /** Indices of the files that yield a post. */
  function DatedIndices(listing: seq<FileEntry>): set<int>
  {
    set i | 0 <= i < |listing| && IsDated(listing[i])
  }

  /** The number of posts collected is the number of eligible files with a date. */
  lemma {:induction false} CollectedCount(listing: seq<FileEntry>)
    requires Collected(listing).Ok?
    ensures |Collected(listing).value| == |DatedIndices(listing)|
    decreases |listing|
  {
    if listing == [] {
      assert DatedIndices(listing) == {};
    } else {
      var n := |listing| - 1;
      CollectedStep(listing, n);
      assert listing[..n + 1] == listing;
      CollectedCount(listing[..n]);
      DatedIndicesStep(listing);
    }
  }

  lemma DatedIndicesStep(listing: seq<FileEntry>)
    requires listing != []
    ensures var n := |listing| - 1;
      DatedIndices(listing) == DatedIndices(listing[..n]) + (if IsDated(listing[n]) then {n} else {})
      && n !in DatedIndices(listing[..n])
  {
    var n := |listing| - 1;
    var init := listing[..n];
    forall i | 0 <= i < n ensures IsDated(listing[i]) == IsDated(init[i]) {
      assert listing[i] == init[i];
    }
  }

  // ---------------------------------------------------------------------
  // Ordering: `posts.sort_by(|a, b| b.date.cmp(&a.date))`
  // ---------------------------------------------------------------------

  /** Newest first: no post is older than a post after it. */
  ghost predicate IsNewestFirst(posts: seq<Post>)
  {
    forall i, j :: 0 <= i < j < |posts| ==> !Before(posts[i].date, posts[j].date)
  }

  /** The posts of one date, in the order they appear. */
  function WithDate(posts: seq<Post>, date: Date): seq<Post>
  {
    if posts == [] then []
    else (if posts[0].date == date then [posts[0]] else []) + WithDate(posts[1..], date)
  }

  /** Puts `post` in front of the first post that is not newer than it. */
  function Insert(post: Post, posts: seq<Post>): seq<Post>
  {
    if posts == [] then [post]
    else if !Before(post.date, posts[0].date) then [post] + posts
    else [posts[0]] + Insert(post, posts[1..])
  }

  /**
   * A stable sort, newest first. Rust's `sort_by` is a merge sort; which
   * algorithm is used does not matter, since `SortedIsUnique` shows there
   * is only one stable newest-first arrangement of a sequence of posts.
   */
  function SortNewestFirst(posts: seq<Post>): seq<Post>
  {
    if posts == [] then [] else Insert(posts[0], SortNewestFirst(posts[1..]))
  }

  lemma {:induction false} InsertPermutes(post: Post, posts: seq<Post>)
    ensures multiset(Insert(post, posts)) == multiset(posts) + multiset{post}
    decreases |posts|
  {
    if posts != [] && Before(post.date, posts[0].date) {
      InsertPermutes(post, posts[1..]);
      assert posts == [posts[0]] + posts[1..];
    }
  }

  lemma {:induction false} InsertKeepsOrder(post: Post, posts: seq<Post>)
    requires IsNewestFirst(posts)
    ensures IsNewestFirst(Insert(post, posts))
    decreases |posts|
  {
    if posts != [] {
      var r := Insert(post, posts);
      if !Before(post.date, posts[0].date) {
        forall i, j | 0 <= i < j < |r| ensures !Before(r[i].date, r[j].date) {
          if i == 0 {
            assert r[j] == posts[j - 1];
            BeforeIsStrictTotalOrder(post.date, posts[0].date, posts[j - 1].date);
            BeforeIsStrictTotalOrder(posts[j - 1].date, posts[0].date, post.date);
          } else {
            assert r[i] == posts[i - 1] && r[j] == posts[j - 1];
          }
        }
      } else {
        var tail := Insert(post, posts[1..]);
        InsertKeepsOrder(post, posts[1..]);
        InsertPermutes(post, posts[1..]);
        assert r == [posts[0]] + tail;
        forall i, j | 0 <= i < j < |r| ensures !Before(r[i].date, r[j].date) {
          if i == 0 {
            var x := r[j];
            assert x in multiset(tail);
            assert x == post || x in multiset(posts[1..]);
            if x == post {
              BeforeIsStrictTotalOrder(post.date, posts[0].date, post.date);
            } else {
              var k :| 0 <= k < |posts[1..]| && posts[1..][k] == x;
              assert posts[k + 1] == x;
            }
          } else {
            assert r[i] == tail[i - 1] && r[j] == tail[j - 1];
          }
        }
      }
    }
  }

  /** Inserting passes only newer posts, so the posts of every date keep their order. */
  lemma {:induction false} InsertIsStable(post: Post, posts: seq<Post>, date: Date)
    ensures WithDate(Insert(post, posts), date) == WithDate([post] + posts, date)
    decreases |posts|
  {
    if posts != [] && Before(post.date, posts[0].date) {
      var first, rest := posts[0], posts[1..];
      InsertIsStable(post, rest, date);
      assert ([first] + Insert(post, rest))[1..] == Insert(post, rest);
      assert ([post] + rest)[1..] == rest;
      assert ([post] + posts)[1..] == posts;
      assert post.date != first.date;
    }
  }

  /** The sorted posts are a rearrangement of the collected ones. */
  lemma {:induction false} SortPermutes(posts: seq<Post>)
    ensures multiset(SortNewestFirst(posts)) == multiset(posts)
    decreases |posts|
  {
    if posts != [] {
      var rest := posts[1..];
      var sortedRest := SortNewestFirst(rest);
      assert multiset(sortedRest) == multiset(rest) by {
        SortPermutes(rest);
      }
      assert multiset(SortNewestFirst(posts)) == multiset(sortedRest) + multiset{posts[0]} by {
        InsertPermutes(posts[0], sortedRest);
      }
      assert multiset(posts) == multiset(rest) + multiset{posts[0]} by {
        assert posts == [posts[0]] + rest;
      }
    }
  }

  /** The sorted posts are newest first. */
  lemma {:induction false} SortOrders(posts: seq<Post>)
    ensures IsNewestFirst(SortNewestFirst(posts))
    decreases |posts|
  {
    if posts != [] {
      SortOrders(posts[1..]);
      InsertKeepsOrder(posts[0], SortNewestFirst(posts[1..]));
    }
  }

  /** Posts of the same date stay in encounter order. */
  lemma {:induction false} SortIsStable(posts: seq<Post>, date: Date)
    ensures WithDate(SortNewestFirst(posts), date) == WithDate(posts, date)
    decreases |posts|
  {
    if posts != [] {
      var sortedRest := SortNewestFirst(posts[1..]);
      SortIsStable(posts[1..], date);
      InsertIsStable(posts[0], sortedRest, date);
      assert ([posts[0]] + sortedRest)[1..] == sortedRest;
    }
  }

  /** Of two posts with different dates, the newer one comes first. */
  lemma NewerComesFirst(posts: seq<Post>, i: nat, j: nat)
    requires i < |posts| && j < |posts|
    requires Before(posts[j].date, posts[i].date)
    ensures var sorted := SortNewestFirst(posts);
      exists p, q :: 0 <= p < q < |sorted| && sorted[p] == posts[i] && sorted[q] == posts[j]
  {
    var sorted := SortNewestFirst(posts);
    SortPermutes(posts);
    SortOrders(posts);
    assert posts[i] in multiset(posts) && posts[j] in multiset(posts);
    assert posts[i] in multiset(sorted) && posts[j] in multiset(sorted);
    var p :| 0 <= p < |sorted| && sorted[p] == posts[i];
    var q :| 0 <= q < |sorted| && sorted[q] == posts[j];
    BeforeIsStrictTotalOrder(posts[j].date, posts[i].date, posts[j].date);
    assert p != q;
    assert !(q < p);
  }

  lemma {:induction false} WithDateMember(posts: seq<Post>, date: Date, x: Post)
    ensures x in WithDate(posts, date) <==> x in posts && x.date == date
    decreases |posts|
  {
    if posts != [] {
      WithDateMember(posts[1..], date, x);
      assert posts == [posts[0]] + posts[1..];
    }
  }

  /**
   * A newest-first sequence is fixed by its posts of each date: two
   * newest-first sequences that agree on the posts of every date, in order,
   * are equal.
   */
  lemma {:induction false} NewestFirstIsDeterminedByDates(r: seq<Post>, t: seq<Post>)
    requires IsNewestFirst(r) && IsNewestFirst(t)
    requires forall date :: WithDate(r, date) == WithDate(t, date)
    ensures r == t
    decreases |r| + |t|
  {
    if r == [] || t == [] {
      if r != [] {
        NonEmptyHasDate(r);
      } else if t != [] {
        NonEmptyHasDate(t);
      }
    } else {
      SameFirstPost(r, t);
      forall date ensures WithDate(r[1..], date) == WithDate(t[1..], date) {
        WithDateTail(r, date);
        WithDateTail(t, date);
      }
      NewestFirstTail(r);
      NewestFirstTail(t);
      NewestFirstIsDeterminedByDates(r[1..], t[1..]);
      assert r == [r[0]] + r[1..] && t == [t[0]] + t[1..];
    }
  }

  lemma NonEmptyHasDate(r: seq<Post>)
    requires r != []
    ensures WithDate(r, r[0].date) != []
  {
  }

  /** The first post of a newest-first sequence is at least as new as every other. */
  lemma FirstIsNewest(r: seq<Post>, x: Post)
    requires IsNewestFirst(r) && x in r
    ensures !Before(r[0].date, x.date)
  {
    var k :| 0 <= k < |r| && r[k] == x;
    if k > 0 { assert !Before(r[0].date, r[k].date); }
  }

  /** Two newest-first sequences with the same posts of every date start with the same post. */
  lemma SameFirstPost(r: seq<Post>, t: seq<Post>)
    requires r != [] && t != []
    requires IsNewestFirst(r) && IsNewestFirst(t)
    requires forall date :: WithDate(r, date) == WithDate(t, date)
    ensures r[0] == t[0]
  {
    var a, b := r[0], t[0];
    assert b in r by {
      WithDateMember(t, b.date, b);
      assert WithDate(t, b.date) == WithDate(r, b.date);
      WithDateMember(r, b.date, b);
    }
    FirstIsNewest(r, b);
    assert a in t by {
      WithDateMember(r, a.date, a);
      assert WithDate(r, a.date) == WithDate(t, a.date);
      WithDateMember(t, a.date, a);
    }
    FirstIsNewest(t, a);
    BeforeIsStrictTotalOrder(a.date, b.date, a.date);
    assert a.date == b.date;
    assert WithDate(r, a.date)[0] == a;
    assert WithDate(t, a.date)[0] == b;
    assert WithDate(r, a.date) == WithDate(t, a.date);
  }

  /** The posts of a date after the first post of the sequence. */
  lemma WithDateTail(r: seq<Post>, date: Date)
    requires r != []
    ensures WithDate(r[1..], date) == if r[0].date == date then WithDate(r, date)[1..] else WithDate(r, date)
  {
    assert WithDate(r, date) == (if r[0].date == date then [r[0]] else []) + WithDate(r[1..], date);
  }

  lemma NewestFirstTail(r: seq<Post>)
    requires r != [] && IsNewestFirst(r)
    ensures IsNewestFirst(r[1..])
  {
    forall i, j | 0 <= i < j < |r| - 1 ensures !Before(r[1..][i].date, r[1..][j].date) {
      assert r[1..][i] == r[i + 1] && r[1..][j] == r[j + 1];
    }
  }

  /**
   * Whatever stable sort the library uses, its result is this one: any
   * newest-first rearrangement that keeps each date's posts in encounter
   * order is `SortNewestFirst(posts)`.
   */
  lemma SortedIsUnique(posts: seq<Post>, r: seq<Post>)
    requires IsNewestFirst(r)
    requires forall date :: WithDate(r, date) == WithDate(posts, date)
    ensures r == SortNewestFirst(posts)
  {
    SortOrders(posts);
    forall date ensures WithDate(r, date) == WithDate(SortNewestFirst(posts), date) {
      SortIsStable(posts, date);
    }
    NewestFirstIsDeterminedByDates(r, SortNewestFirst(posts));
  }

  // ---------------------------------------------------------------------
  // The log: every post followed by a blank line (the second loop)
  // ---------------------------------------------------------------------

  /** The log text: each post's content followed by `"\n\n"`, in order. */
  function Concatenated(posts: seq<Post>): string
  {
    if posts == [] then ""
    else Concatenated(posts[..|posts| - 1]) + posts[|posts| - 1].content + PostSeparator
  }

  /** The loop of lines 36-41. */
  method Concatenate(posts: seq<Post>) returns (content: string)
    ensures content == Concatenated(posts)
    ensures Utf8Length(content) == TotalSize(posts)
  {
    content := "";
    for i := 0 to |posts|
      invariant content == Concatenated(posts[..i])
    {
      assert posts[..i + 1][..i] == posts[..i];
      content := content + posts[i].content;
      content := content + PostSeparator;
    }
    assert posts[..|posts|] == posts;
    ConcatenatedLength(posts);
  }

  /** The log seen from its first post. */
  lemma {:induction false} ConcatenatedCons(post: Post, posts: seq<Post>)
    ensures Concatenated([post] + posts) == post.content + PostSeparator + Concatenated(posts)
    decreases |posts|
  {
    if posts == [] {
      assert ([post] + posts)[..0] == [];
    } else {
      var init := posts[..|posts| - 1];
      assert ([post] + posts)[..|posts|] == [post] + init;
      ConcatenatedCons(post, init);
    }
  }

  /** The log is exactly as many bytes long as the size the first loop adds up. */
  lemma {:induction false} ConcatenatedLength(posts: seq<Post>)
    ensures Utf8Length(Concatenated(posts)) == TotalSize(posts)
    decreases |posts|
  {
    if posts != [] {
      var init, last := posts[..|posts| - 1], posts[|posts| - 1];
      ConcatenatedLength(init);
      Utf8LengthAppend(Concatenated(init) + last.content, PostSeparator);
      Utf8LengthAppend(Concatenated(init), last.content);
      Utf8LengthAscii(PostSeparator);
    }
  }

  lemma {:induction false} TotalSizeAppend(a: seq<Post>, b: seq<Post>)
    ensures TotalSize(a + b) == TotalSize(a) + TotalSize(b)
    decreases |b|
  {
    if b == [] {
      assert a + b == a;
    } else {
      assert (a + b)[..|a + b| - 1] == a + b[..|b| - 1];
      TotalSizeAppend(a, b[..|b| - 1]);
    }
  }

  lemma {:induction false} InsertKeepsSize(post: Post, posts: seq<Post>)
    ensures TotalSize(Insert(post, posts)) == TotalSize([post]) + TotalSize(posts)
    decreases |posts|
  {
    if posts != [] {
      if !Before(post.date, posts[0].date) {
        TotalSizeAppend([post], posts);
      } else {
        InsertKeepsSize(post, posts[1..]);
        TotalSizeAppend([posts[0]], Insert(post, posts[1..]));
        TotalSizeAppend([posts[0]], posts[1..]);
        assert posts == [posts[0]] + posts[1..];
      }
    }
  }

  /** Sorting does not change the size the log needs. */
  lemma {:induction false} SortKeepsSize(posts: seq<Post>)
    ensures TotalSize(SortNewestFirst(posts)) == TotalSize(posts)
    decreases |posts|
  {
    if posts != [] {
      SortKeepsSize(posts[1..]);
      InsertKeepsSize(posts[0], SortNewestFirst(posts[1..]));
      TotalSizeAppend([posts[0]], posts[1..]);
      assert posts == [posts[0]] + posts[1..];
    }
  }

  // ---------------------------------------------------------------------
  // One run
  // ---------------------------------------------------------------------

  /** What a run ends with: an abort, or the log text and the count it reports. */
  datatype Outcome = Aborted(error: HeaderError) | Written(log: string, count: nat)

  /** `main` without its I/O: collect, sort newest first, concatenate, count. */
  method Compose(listing: seq<FileEntry>) returns (outcome: Outcome)
    ensures outcome.Aborted? <==> Collected(listing).Err?
    ensures outcome.Aborted? ==> outcome.error == Collected(listing).error
    ensures outcome.Written? ==>
      var collected := Collected(listing).value;
      && outcome.log == Concatenated(SortNewestFirst(collected))
      && outcome.count == |DatedIndices(listing)|
      && Utf8Length(outcome.log) == TotalSize(collected)
  {
    var collected, totalContentSize := CollectPosts(listing);
    if collected.Err? {
      return Aborted(collected.error);
    }
    var posts := collected.value;
    posts := SortNewestFirst(posts);
    SortKeepsSize(collected.value);
    SortPermutes(collected.value);
    assert |posts| == |multiset(posts)| == |collected.value|;
    var content := Concatenate(posts);
    assert Utf8Length(content) == totalContentSize;
    CollectedCount(listing);
    outcome := Written(content, |posts|);
  }
}
