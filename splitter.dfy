/**
 * The splitter: it reads the log line by line and cuts it into posts at
 * every heading line. A line before the first heading belongs to no post.
 */
module Splitter {
  import opened Wrappers
  import opened Text
  import opened Heading

  /** A finished post, as it is pushed onto the list (moved, never changed again). */
  datatype Entry = Entry(title: string, content: string)

  /** The post being read: its title, and its lines read so far, each newline-terminated. */
  class Post {
    var title: string
    var content: string

    /** `Post::new`: a post with a title and no content yet. */
    constructor New(title: string)
      ensures this.title == title && content == ""
    {
      this.title := title;
      content := "";
    }

    /** The struct literal `Post { title, content }`. */
    constructor (title: string, content: string)
      ensures this.title == title && this.content == content
    {
      this.title := title;
      this.content := content;
    }

    /** `add_line`: the line and a `'\n'` go to the end of the content. */
    method AddLine(line: string)
      modifies this
      ensures content == old(content) + line + "\n"
      ensures title == old(title)
    {
      content := content + line;
      content := content + "\n";
    }

    function Value(): Entry
      reads this
    {
      Entry(title, content)
    }
  }

  // ---------------------------------------------------------------------
  // The line-driven state machine, as a function of the lines read
  // ---------------------------------------------------------------------

  /** The finished posts and the post being read, if any (`current_post`). */
  datatype ScanState = ScanState(posts: seq<Entry>, current: Option<Entry>)

  const Start := ScanState([], None)

  /** The posts of a state once the input ends: the current one is pushed too. */
  function Finish(state: ScanState): seq<Entry>
  {
    match state.current
    case None => state.posts
    case Some(post) => state.posts + [post]
  }

  /** One line: a heading closes the current post and opens a new one; any other line extends it. */
  function Step(state: ScanState, line: string): ScanState
  {
    if IsHeading(line) then
      ScanState(Finish(state), Some(Entry(TitleOf(line), line + "\n")))
    else
      match state.current
      case None => state
      case Some(post) => ScanState(state.posts, Some(Entry(post.title, post.content + line + "\n")))
  }

  /** The state after reading `lines`, one by one, from `state`. */
  function Scan(state: ScanState, lines: seq<string>): ScanState
  {
    if lines == [] then state
    else Step(Scan(state, lines[..|lines| - 1]), lines[|lines| - 1])
  }

  /** The posts cut out of a sequence of lines. */
  function SplitLines(lines: seq<string>): seq<Entry>
  {
    Finish(Scan(Start, lines))
  }

  /** The loop of lines 27-48, over the lines of the log. */
  method Split(document: string) returns (posts: seq<Entry>)
    ensures posts == SplitLines(Lines(document))
  {
    var lines := Lines(document);
    posts := [];
    var current: Post? := null;
    for i := 0 to |lines|
      invariant current != null ==> fresh(current)
      invariant ScanState(posts, if current == null then None else Some(current.Value()))
        == Scan(Start, lines[..i])
    {
      assert lines[..i + 1][..i] == lines[..i];
      var line := lines[i];
      if StartsWith(line, Marker) {
        if current != null {
          posts := posts + [current.Value()];
        }
        current := new Post(ReplaceAll(line, Marker, ""), line + "\n");
      } else {
        if current != null {
          current.AddLine(line);
        }
      }
    }
    if current != null {
      posts := posts + [current.Value()];
    }
    assert lines[..|lines|] == lines;
  }

  // ---------------------------------------------------------------------
  // Properties of the cut
  // ---------------------------------------------------------------------

  /** The heading lines, in document order. */
  function Headings(lines: seq<string>): seq<string>
  {
    if lines == [] then []
    else Headings(lines[..|lines| - 1]) + (if IsHeading(lines[|lines| - 1]) then [lines[|lines| - 1]] else [])
  }

  /** A post opened by heading line `h`: titled after it, content starting with it. */
  predicate OpenedBy(post: Entry, h: string)
  {
    post.title == TitleOf(h) && StartsWith(post.content, h + "\n")
  }

  /** The state after reading some lines with headings `hs`: one post per heading, in order. */
  ghost predicate OnePostPerHeading(state: ScanState, hs: seq<string>)
  {
    && (state.current.Some? <==> hs != [])
    && |Finish(state)| == |hs|
    && forall k :: 0 <= k < |hs| ==> OpenedBy(Finish(state)[k], hs[k])
  }

  lemma {:induction false} ScanOnePostPerHeading(lines: seq<string>)
    ensures OnePostPerHeading(Scan(Start, lines), Headings(lines))
    decreases |lines|
  {
    if lines != [] {
      var init, line := lines[..|lines| - 1], lines[|lines| - 1];
      ScanOnePostPerHeading(init);
      var before, hs := Scan(Start, init), Headings(init);
      var after := Step(before, line);
      if IsHeading(line) {
        assert Finish(after) == Finish(before) + [Entry(TitleOf(line), line + "\n")];
        assert StartsWith(line + "\n", line + "\n");
      } else if before.current.Some? {
        var post := before.current.value;
        var grown := Entry(post.title, post.content + line + "\n");
        assert Finish(after) == before.posts + [grown];
        assert Finish(before) == before.posts + [post];
        assert OpenedBy(grown, hs[|hs| - 1]) by {
          var h := hs[|hs| - 1];
          assert OpenedBy(Finish(before)[|hs| - 1], h);
          assert (post.content + line + "\n")[..|h + "\n"|] == post.content[..|h + "\n"|];
        }
      }
    }
  }

  /**
   * There is one post per heading line, in document order: the k-th post
   * is titled after the k-th heading and its content starts with that
   * heading and a `'\n'`.
   */
  lemma PostsFollowHeadings(lines: seq<string>)
    ensures |SplitLines(lines)| == |Headings(lines)|
    ensures forall k :: 0 <= k < |Headings(lines)| ==>
      SplitLines(lines)[k].title == TitleOf(Headings(lines)[k])
      && StartsWith(SplitLines(lines)[k].content, Headings(lines)[k] + "\n")
  {
    ScanOnePostPerHeading(lines);
  }

  /** The lines from the first heading on. */
  function FromFirstHeading(lines: seq<string>): (r: seq<string>)
    ensures r != [] ==> IsHeading(r[0])
  {
    if lines == [] then []
    else if IsHeading(lines[0]) then lines
    else FromFirstHeading(lines[1..])
  }

  lemma {:induction false} FromFirstHeadingSnoc(lines: seq<string>, line: string)
    ensures FromFirstHeading(lines + [line]) ==
      if FromFirstHeading(lines) != [] then FromFirstHeading(lines) + [line]
      else if IsHeading(line) then [line]
      else []
    decreases |lines|
  {
    if lines == [] {
      assert lines + [line] == [line];
      assert [line][1..] == [];
    } else {
      assert (lines + [line])[1..] == lines[1..] + [line];
      assert (lines + [line])[0] == lines[0];
      if !IsHeading(lines[0]) {
        FromFirstHeadingSnoc(lines[1..], line);
      }
    }
  }

  /** All posts' contents, in order. */
  function Contents(posts: seq<Entry>): string
  {
    if posts == [] then "" else Contents(posts[..|posts| - 1]) + posts[|posts| - 1].content
  }

  function CurrentContent(state: ScanState): string
  {
    if state.current.Some? then state.current.value.content else ""
  }

  lemma ContentsFinish(state: ScanState)
    ensures Contents(Finish(state)) == Contents(state.posts) + CurrentContent(state)
  {
    if state.current.Some? {
      assert (state.posts + [state.current.value])[..|state.posts|] == state.posts;
    }
  }

  lemma TerminatedSnoc(lines: seq<string>, line: string)
    ensures Terminated(lines + [line]) == Terminated(lines) + line + "\n"
  {
    assert (lines + [line])[..|lines|] == lines;
  }

  /** One step of the scan keeps the text read since the first heading. */
  lemma KeepsTextStep(state: ScanState, kept: seq<string>, line: string)
    requires state.current.None? <==> kept == []
    requires Contents(state.posts) + CurrentContent(state) == Terminated(kept)
    ensures var after, next := Step(state, line),
      if kept != [] then kept + [line] else if IsHeading(line) then [line] else [];
      && (after.current.None? <==> next == [])
      && Contents(after.posts) + CurrentContent(after) == Terminated(next)
  {
    if IsHeading(line) {
      ContentsFinish(state);
      TerminatedSnoc(kept, line);
      if kept == [] {
        assert [] + [line] == [line];
      }
    } else if state.current.Some? {
      TerminatedSnoc(kept, line);
    }
  }

  lemma {:induction false} ScanKeepsText(lines: seq<string>)
    ensures Scan(Start, lines).current.None? <==> FromFirstHeading(lines) == []
    ensures Contents(Scan(Start, lines).posts) + CurrentContent(Scan(Start, lines))
      == Terminated(FromFirstHeading(lines))
    decreases |lines|
  {
    if lines != [] {
      var init, line := lines[..|lines| - 1], lines[|lines| - 1];
      assert init + [line] == lines;
      ScanKeepsText(init);
      FromFirstHeadingSnoc(init, line);
      KeepsTextStep(Scan(Start, init), FromFirstHeading(init), line);
    }
  }

  /**
   * Nothing is lost, added or reordered: the posts' contents, concatenated
   * in order, are the lines from the first heading on, each with its `'\n'`.
   */
  lemma SplitKeepsText(lines: seq<string>)
    ensures Contents(SplitLines(lines)) == Terminated(FromFirstHeading(lines))
  {
    ScanKeepsText(lines);
    ContentsFinish(Scan(Start, lines));
  }

  lemma {:induction false} ScanAppend(state: ScanState, a: seq<string>, b: seq<string>)
    ensures Scan(state, a + b) == Scan(Scan(state, a), b)
    decreases |b|
  {
    if b == [] {
      assert a + b == a;
    } else {
      assert (a + b)[..|a + b| - 1] == a + b[..|b| - 1];
      ScanAppend(state, a, b[..|b| - 1]);
    }
  }

  /** Lines without a heading, read before any heading, change nothing. */
  lemma {:induction false} ScanPreamble(lines: seq<string>)
    requires forall k :: 0 <= k < |lines| ==> !IsHeading(lines[k])
    ensures Scan(Start, lines) == Start
    decreases |lines|
  {
    if lines != [] {
      ScanPreamble(lines[..|lines| - 1]);
    }
  }

  /** Lines before the first heading are in no post. */
  lemma PreambleIsDropped(preamble: seq<string>, rest: seq<string>)
    requires forall k :: 0 <= k < |preamble| ==> !IsHeading(preamble[k])
    ensures SplitLines(preamble + rest) == SplitLines(rest)
  {
    ScanAppend(Start, preamble, rest);
    ScanPreamble(preamble);
  }

  /**
   * A heading line followed by non-heading lines closes whatever post was
   * open and leaves one post open whose content is exactly those lines.
   */
  lemma {:induction false} ScanBlock(state: ScanState, heading: string, body: seq<string>)
    requires IsHeading(heading)
    requires forall k :: 0 <= k < |body| ==> !IsHeading(body[k])
    ensures Scan(state, [heading] + body)
      == ScanState(Finish(state), Some(Entry(TitleOf(heading), Terminated([heading] + body))))
    decreases |body|
  {
    if body == [] {
      assert [heading] + body == [heading];
      assert [heading][..0] == [];
      assert Terminated([heading]) == heading + "\n";
    } else {
      var init, last := body[..|body| - 1], body[|body| - 1];
      var lines := [heading] + body;
      assert lines[..|lines| - 1] == [heading] + init;
      assert lines[|lines| - 1] == last;
      ScanBlock(state, heading, init);
    }
  }

  // ---------------------------------------------------------------------
  // Output file names
  // ---------------------------------------------------------------------

  /** `title.replace("/", " ")`: every `'/'` becomes a space, nothing else changes. */
  function Sanitize(title: string): (r: string)
    ensures |r| == |title|
    ensures forall i :: 0 <= i < |r| ==> r[i] == if title[i] == '/' then ' ' else title[i]
    ensures '/' !in r
  {
    ReplaceCharPointwise(title, '/', ' ');
    ReplaceAll(title, "/", " ")
  }

  const OutputDirectory: string := "./output/"

  /** `format!("./output/{}.md", ...)` with the sanitised title. */
  function OutputName(title: string): string
  {
    OutputDirectory + Sanitize(title) + ".md"
  }

  /**
   * Every output file lies directly in the output directory, under a name
   * as long as the title plus `.md`; a title without `'/'` is used as it is.
   */
  lemma OutputNameInDirectory(title: string)
    ensures StartsWith(OutputName(title), OutputDirectory) && EndsWith(OutputName(title), ".md")
    ensures |OutputName(title)| == |OutputDirectory| + |title| + 3
    ensures forall i :: |OutputDirectory| <= i < |OutputName(title)| ==> OutputName(title)[i] != '/'
    ensures '/' !in title ==> OutputName(title) == OutputDirectory + title + ".md"
  {
    var name := OutputName(title);
    var s := Sanitize(title);
    assert name[..|OutputDirectory|] == OutputDirectory;
    assert name[|name| - 3..] == ".md";
    forall i | |OutputDirectory| <= i < |name| ensures name[i] != '/' {
      if i < |OutputDirectory| + |s| {
        assert name[i] == s[i - |OutputDirectory|];
      }
    }
    if '/' !in title {
      assert s == title;
    }
  }

  /**
   * The output directory after the write loop: one file per distinct
   * output name, written in post order, so a later post with the same
   * output name replaces an earlier one.
   */
  function OutputFiles(posts: seq<Entry>): map<string, string>
  {
    if posts == [] then map[]
    else
      var last := posts[|posts| - 1];
      OutputFiles(posts[..|posts| - 1])[OutputName(last.title) := last.content]
  }

  /** The loop of lines 50-54, writing into a map from file name to content. */
  method WriteOutputs(posts: seq<Entry>) returns (files: map<string, string>)
    ensures files == OutputFiles(posts)
  {
    files := map[];
    for i := 0 to |posts|
      invariant files == OutputFiles(posts[..i])
    {
      assert posts[..i + 1][..i] == posts[..i];
      var post := posts[i];
      var fileName := OutputName(post.title);
      files := files[fileName := post.content];
    }
    assert posts[..|posts|] == posts;
  }

  /** Post `k` is the last one the write loop puts under `name`. */
  predicate LastWrittenBy(posts: seq<Entry>, name: string, k: nat)
  {
    k < |posts| && OutputName(posts[k].title) == name
    && forall j :: k < j < |posts| ==> OutputName(posts[j].title) != name
  }

  /** Every post's output name is written. */
  lemma {:induction false} OutputFilesCoverPosts(posts: seq<Entry>, k: nat)
    requires k < |posts|
    ensures OutputName(posts[k].title) in OutputFiles(posts)
    decreases |posts|
  {
    var init := posts[..|posts| - 1];
    if k < |init| {
      assert posts[k] == init[k];
      OutputFilesCoverPosts(init, k);
    }
  }

  /** Only posts' output names are written, each holding the content of the last post with that name. */
  lemma {:induction false} OutputFileWriter(posts: seq<Entry>, name: string) returns (k: nat)
    requires name in OutputFiles(posts)
    ensures LastWrittenBy(posts, name, k) && OutputFiles(posts)[name] == posts[k].content
    decreases |posts|
  {
    var init, last := posts[..|posts| - 1], posts[|posts| - 1];
    if name == OutputName(last.title) {
      k := |posts| - 1;
    } else {
      k := OutputFileWriter(init, name);
      assert posts[k] == init[k];
      forall j | k < j < |posts| ensures OutputName(posts[j].title) != name {
        if j < |init| {
          assert posts[j] == init[j];
        }
      }
    }
  }

  /** When no two posts share an output name, every post ends up in its own file. */
  lemma DistinctNamesKeepEveryPost(posts: seq<Entry>, k: nat)
    requires k < |posts|
    requires forall i, j :: 0 <= i < j < |posts| ==> OutputName(posts[i].title) != OutputName(posts[j].title)
    ensures OutputName(posts[k].title) in OutputFiles(posts)
    ensures OutputFiles(posts)[OutputName(posts[k].title)] == posts[k].content
  {
    OutputFilesCoverPosts(posts, k);
    var w := OutputFileWriter(posts, OutputName(posts[k].title));
    assert w == k;
  }

  /** `main` without its I/O: cut the log into posts, then write each under its output name. */
  method SplitAndWrite(document: string) returns (files: map<string, string>)
    ensures files == OutputFiles(SplitLines(Lines(document)))
  {
    var posts := Split(document);
    files := WriteOutputs(posts);
  }
}
