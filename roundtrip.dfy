/**
 * The two tools run in opposite directions: splitting the composer's log
 * gives back the composed posts, in the log's order, each with the blank
 * line the composer put after it.
 */
module RoundTrip {
  import opened Text
  import opened Heading
  import Composer
  import opened Splitter

  /** Post text the splitter can cut back out: its first line, and no other, is a heading. */
  ghost predicate IsSplittable(content: string)
  {
    var lines := Lines(content);
    lines != [] && IsHeading(lines[0]) && forall k :: 1 <= k < |lines| ==> !IsHeading(lines[k])
  }

  /** The entry the splitter is expected to produce for one composed post. */
  function Expected(post: Composer.Post): Entry
    requires post.content != []
  {
    Entry(Composer.Title(post.content), post.content + Composer.PostSeparator)
  }

  lemma ConcatenatedEndsLine(posts: seq<Composer.Post>)
    ensures EndsWithNewlineOrEmpty(Composer.Concatenated(posts))
  {
  }

  /** The separator after a post adds one or two empty lines to its own. */
  lemma SeparatorLines(content: string)
    ensures Lines(content + Composer.PostSeparator) == Lines(content) + [""]
      || Lines(content + Composer.PostSeparator) == Lines(content) + ["", ""]
  {
    var once := content + "\n";
    assert once + "\n" == content + Composer.PostSeparator;
    LinesAddNewline(content);
    assert EndsWithNewlineOrEmpty(once);
    LinesAddNewline(once);
  }

  /** The lines of one composed post: its own lines, then one or two empty ones. */
  lemma BlockLines(content: string)
    requires IsSplittable(content)
    ensures var lines := Lines(content + Composer.PostSeparator);
      && lines != [] && lines[0] == Lines(content)[0]
      && (forall k :: 1 <= k < |lines| ==> !IsHeading(lines[k]))
      && Terminated(lines) == content + Composer.PostSeparator
  {
    SeparatorLines(content);
    var own, lines := Lines(content), Lines(content + Composer.PostSeparator);
    forall k | 1 <= k < |lines| ensures !IsHeading(lines[k]) {
      if k >= |own| {
        assert lines[k] == "";
      } else {
        assert lines[k] == own[k];
      }
    }
    TerminatedLines(content + Composer.PostSeparator);
  }

  /** Composing one more post adds exactly its entry to what the splitter produces. */
  lemma SplitSnoc(init: seq<Composer.Post>, post: Composer.Post)
    requires IsSplittable(post.content)
    ensures post.content != []
    ensures SplitLines(Lines(Composer.Concatenated(init + [post])))
      == SplitLines(Lines(Composer.Concatenated(init))) + [Expected(post)]
  {
    var a, b := Composer.Concatenated(init), post.content + Composer.PostSeparator;
    assert (init + [post])[..|init|] == init;
    assert Composer.Concatenated(init + [post]) == a + b;
    ConcatenatedEndsLine(init);
    LinesAppend(a, b);
    BlockLines(post.content);
    var block := Lines(b);
    var heading, body := block[0], block[1..];
    assert block == [heading] + body;
    ScanAppend(Start, Lines(a), block);
    ScanBlock(Scan(Start, Lines(a)), heading, body);
    Composer.FirstLineOfLines(post.content);
  }

  /** Splitting a composed log gives back the composed posts, one entry per post, in order. */
  lemma {:induction false} SplitInvertsConcatenate(posts: seq<Composer.Post>)
    requires forall k :: 0 <= k < |posts| ==> IsSplittable(posts[k].content)
    ensures var entries := SplitLines(Lines(Composer.Concatenated(posts)));
      && |entries| == |posts|
      && forall k :: 0 <= k < |posts| ==> posts[k].content != [] && entries[k] == Expected(posts[k])
    decreases |posts|
  {
    if posts != [] {
      var init, post := posts[..|posts| - 1], posts[|posts| - 1];
      SplitInvertsConcatenate(init);
      assert posts == init + [post];
      SplitSnoc(init, post);
      var before := SplitLines(Lines(Composer.Concatenated(init)));
      var entries := before + [Expected(post)];
      forall k | 0 <= k < |posts|
        ensures posts[k].content != [] && entries[k] == Expected(posts[k])
      {
        if k < |init| {
          assert entries[k] == before[k] && posts[k] == init[k];
        }
      }
    }
  }

  /**
   * The law of the two tools together: when every collected post's first
   * line, and no other, is a heading, splitting the composed log yields the
   * posts in the composer's newest-first order, each post's content being
   * its file's text followed by `"\n\n"`.
   */
  lemma ComposedLogSplitsBack(listing: seq<Composer.FileEntry>)
    requires Composer.Collected(listing).Ok?
    requires forall post :: post in Composer.Collected(listing).value ==> IsSplittable(post.content)
    ensures var sorted := Composer.SortNewestFirst(Composer.Collected(listing).value);
      var entries := SplitLines(Lines(Composer.Concatenated(sorted)));
      && |entries| == |sorted|
      && forall k :: 0 <= k < |sorted| ==> sorted[k].content != [] && entries[k] == Expected(sorted[k])
  {
    var collected := Composer.Collected(listing).value;
    var sorted := Composer.SortNewestFirst(collected);
    Composer.SortPermutes(collected);
    forall k | 0 <= k < |sorted| ensures IsSplittable(sorted[k].content) {
      assert sorted[k] in multiset(sorted);
      assert sorted[k] in collected;
    }
    SplitInvertsConcatenate(sorted);
  }

  /**
   * The round trip down to the files: when, in addition, no two composed
   * posts share an output name, the splitter writes every collected file's
   * text, followed by `"\n\n"`, under the name derived from its title.
   */
  lemma ComposedFilesComeBack(listing: seq<Composer.FileEntry>, post: Composer.Post)
    requires Composer.Collected(listing).Ok?
    requires forall p :: p in Composer.Collected(listing).value ==> IsSplittable(p.content)
    requires var sorted := Composer.SortNewestFirst(Composer.Collected(listing).value);
      forall i, j :: 0 <= i < j < |sorted| ==>
        sorted[i].content != [] && sorted[j].content != []
        && OutputName(Composer.Title(sorted[i].content)) != OutputName(Composer.Title(sorted[j].content))
    requires post in Composer.Collected(listing).value
    ensures var files := OutputFiles(SplitLines(Lines(Composer.Concatenated(
        Composer.SortNewestFirst(Composer.Collected(listing).value)))));
      && post.content != []
      && OutputName(Composer.Title(post.content)) in files
      && files[OutputName(Composer.Title(post.content))] == post.content + Composer.PostSeparator
  {
    var collected := Composer.Collected(listing).value;
    var sorted := Composer.SortNewestFirst(collected);
    var entries := SplitLines(Lines(Composer.Concatenated(sorted)));
    ComposedLogSplitsBack(listing);
    Composer.SortPermutes(collected);
    assert post in multiset(sorted);
    var k :| 0 <= k < |sorted| && sorted[k] == post;
    forall i, j | 0 <= i < j < |entries|
      ensures OutputName(entries[i].title) != OutputName(entries[j].title)
    {
      assert entries[i] == Expected(sorted[i]) && entries[j] == Expected(sorted[j]);
    }
    DistinctNamesKeepEveryPost(entries, k);
    assert entries[k] == Expected(post);
  }
}
