/**
 * The string operations of Rust's standard library that the two tools use,
 * written out over `seq<char>`: prefix and suffix tests, `str::replace`,
 * `str::split_once`, `str::lines` and the UTF-8 byte length `str::len`.
 */
module Text {
  import opened Wrappers

  predicate StartsWith(s: string, prefix: string)
  {
    |prefix| <= |s| && s[..|prefix|] == prefix
  }

  predicate EndsWith(s: string, suffix: string)
  {
    |suffix| <= |s| && s[|s| - |suffix|..] == suffix
  }

  /** `pat` occurs in `s` starting at index `i`. */
  predicate OccursAt(s: string, pat: string, i: nat)
  {
    i + |pat| <= |s| && s[i..i + |pat|] == pat
  }

  /**
   * `str::replace`: every non-overlapping occurrence of `pat`, found left to
   * right, is replaced by `rep`.
   */
  function ReplaceAll(s: string, pat: string, rep: string): string
    requires pat != []
    decreases |s|
  {
    if |s| < |pat| then s
    else if s[..|pat|] == pat then rep + ReplaceAll(s[|pat|..], pat, rep)
    else [s[0]] + ReplaceAll(s[1..], pat, rep)
  }

  /** Replacing a single character by a single character works position by position. */
  lemma {:induction false} ReplaceCharPointwise(s: string, c: char, d: char)
    ensures |ReplaceAll(s, [c], [d])| == |s|
    ensures forall i :: 0 <= i < |s| ==>
      ReplaceAll(s, [c], [d])[i] == if s[i] == c then d else s[i]
    decreases |s|
  {
    if |s| > 0 {
      ReplaceCharPointwise(s[1..], c, d);
      var r := ReplaceAll(s, [c], [d]);
      var tail := ReplaceAll(s[1..], [c], [d]);
      assert r == [if s[0] == c then d else s[0]] + tail;
      forall i | 0 <= i < |s|
        ensures r[i] == if s[i] == c then d else s[i]
      {
        if i > 0 { assert r[i] == tail[i - 1]; }
      }
    }
  }

  /** A string in which `pat` does not occur in full is left unchanged. */
  lemma {:induction false} ReplaceAllNoOccurrence(s: string, pat: string, rep: string)
    requires pat != []
    requires forall i: nat :: !OccursAt(s, pat, i)
    ensures ReplaceAll(s, pat, rep) == s
    decreases |s|
  {
    if |s| >= |pat| {
      assert !OccursAt(s, pat, 0);
      assert s[..|pat|] != pat;
      forall i: nat ensures !OccursAt(s[1..], pat, i) {
        assert !OccursAt(s, pat, i + 1);
        if i + |pat| <= |s[1..]| {
          assert s[1..][i..i + |pat|] == s[i + 1..i + 1 + |pat|];
        }
      }
      ReplaceAllNoOccurrence(s[1..], pat, rep);
      assert [s[0]] + s[1..] == s;
    }
  }

  /** The first index at or after `from` where `pat` occurs, if any. */
  function FindFrom(s: string, pat: string, from: nat): (r: Option<nat>)
    requires from <= |s|
    ensures r.Some? ==> from <= r.value && OccursAt(s, pat, r.value)
    ensures r.Some? ==> forall j: nat :: from <= j < r.value ==> !OccursAt(s, pat, j)
    ensures r.None? ==> forall j: nat :: from <= j ==> !OccursAt(s, pat, j)
    decreases |s| - from
  {
    if OccursAt(s, pat, from) then Some(from)
    else if from + |pat| >= |s| then None
    else FindFrom(s, pat, from + 1)
  }

  /**
   * `str::split_once`: the parts before and after the first occurrence of
   * `pat`, or `None` when `pat` does not occur.
   */
  function SplitOnce(s: string, pat: string): (r: Option<(string, string)>)
    ensures r.None? <==> forall j: nat :: !OccursAt(s, pat, j)
    ensures r.Some? ==> s == r.value.0 + pat + r.value.1
    ensures r.Some? ==> OccursAt(s, pat, |r.value.0|)
    ensures r.Some? ==> forall j: nat :: j < |r.value.0| ==> !OccursAt(s, pat, j)
  {
    match FindFrom(s, pat, 0)
    case None => None
    case Some(i) =>
      assert s == s[..i] + pat + s[i + |pat|..] by {
        assert s[i..i + |pat|] == pat;
        assert s == s[..i] + s[i..i + |pat|] + s[i + |pat|..];
      }
      Some((s[..i], s[i + |pat|..]))
  }

  /** Index of the first `c` in `s`, or `|s|` when there is none. */
  function IndexOf(s: string, c: char): (r: nat)
    ensures r <= |s|
    ensures r < |s| ==> s[r] == c
  {
    if s == [] then 0
    else if s[0] == c then 0
    else 1 + IndexOf(s[1..], c)
  }

  /** The first `c` is at `i` when `s[i]` is `c` and nothing before it is. */
  lemma {:induction false} IndexOfAt(s: string, c: char, i: nat)
    requires i <= |s|
    requires i < |s| ==> s[i] == c
    requires forall j :: 0 <= j < i ==> s[j] != c
    ensures IndexOf(s, c) == i
    decreases i
  {
    if i > 0 {
      assert s[0] != c;
      IndexOfAt(s[1..], c, i - 1);
    }
  }

  /** No `c` comes before the first one. */
  lemma {:induction false} IndexOfFirst(s: string, c: char)
    ensures forall j :: 0 <= j < IndexOf(s, c) ==> s[j] != c
    decreases |s|
  {
    if s != [] && s[0] != c {
      IndexOfFirst(s[1..], c);
    }
  }

  /**
   * `str::lines` for text without carriage returns: the pieces between
   * `'\n'` characters; a final `'\n'` does not start an empty last line,
   * and the empty text has no lines at all.
   */
  function Lines(s: string): seq<string>
    decreases |s|
  {
    if s == [] then []
    else
      var i := IndexOf(s, '\n');
      if i == |s| then [s] else [s[..i]] + Lines(s[i + 1..])
  }

  /** A `c` found in `a` is also the first `c` of `a + b`. */
  lemma IndexOfAppend(a: string, b: string, c: char)
    requires IndexOf(a, c) < |a|
    ensures IndexOf(a + b, c) == IndexOf(a, c)
  {
    var i := IndexOf(a, c);
    IndexOfFirst(a, c);
    assert forall j :: 0 <= j <= i ==> (a + b)[j] == a[j];
    IndexOfAt(a + b, c, i);
  }

  /** One step of `Lines` on text that holds a `'\n'`. */
  lemma LinesStep(s: string, i: nat)
    requires i < |s| && IndexOf(s, '\n') == i
    ensures Lines(s) == [s[..i]] + Lines(s[i + 1..])
  {
  }

  /** Every line, each followed by `'\n'`, concatenated. */
  function Terminated(lines: seq<string>): string
  {
    if lines == [] then ""
    else Terminated(lines[..|lines| - 1]) + lines[|lines| - 1] + "\n"
  }

  predicate EndsWithNewlineOrEmpty(s: string)
  {
    s == [] || s[|s| - 1] == '\n'
  }

  lemma {:induction false} TerminatedAppend(a: seq<string>, b: seq<string>)
    ensures Terminated(a + b) == Terminated(a) + Terminated(b)
    decreases |b|
  {
    if b == [] {
      assert a + b == a;
    } else {
      var init, last := b[..|b| - 1], b[|b| - 1];
      assert Terminated(a + b) == Terminated(a + init) + last + "\n" by {
        assert (a + b)[..|a + b| - 1] == a + init;
        assert (a + b)[|a + b| - 1] == last;
      }
      TerminatedAppend(a, init);
    }
  }

  /** `Terminated` seen from the first line. */
  lemma TerminatedCons(line: string, rest: seq<string>)
    ensures Terminated([line] + rest) == line + "\n" + Terminated(rest)
  {
    TerminatedAppend([line], rest);
    assert Terminated([line]) == line + "\n" by {
      assert [line][..0] == [];
    }
  }

  /** Lines none of which contains `'\n'` come back out of `Lines` unchanged. */
  lemma {:induction false} LinesOfTerminated(lines: seq<string>)
    requires forall k :: 0 <= k < |lines| ==> '\n' !in lines[k]
    ensures Lines(Terminated(lines)) == lines
    decreases |lines|
  {
    if lines != [] {
      var line, rest := lines[0], lines[1..];
      var s := Terminated(lines);
      assert s == line + "\n" + Terminated(rest) by {
        assert [line] + rest == lines;
        TerminatedCons(line, rest);
      }
      assert Lines(s) == [line] + Lines(Terminated(rest)) by {
        assert s[|line|] == '\n';
        assert forall j :: 0 <= j < |line| ==> s[j] == line[j];
        assert forall j :: 0 <= j < |line| ==> s[j] != '\n';
        IndexOfAt(s, '\n', |line|);
        LinesStep(s, |line|);
        assert s[..|line|] == line;
        assert s[|line| + 1..] == Terminated(rest);
      }
      LinesOfTerminated(rest);
      assert [line] + rest == lines;
    }
  }

  /** Text that is empty or ends in `'\n'` is its own lines, each terminated again. */
  lemma {:induction false} TerminatedLines(s: string)
    requires EndsWithNewlineOrEmpty(s)
    ensures Terminated(Lines(s)) == s
    decreases |s|
  {
    if s != [] {
      var i := FirstNewline(s);
      var line, rest := s[..i], s[i + 1..];
      AroundNewline(s, i);
      TerminatedLines(rest);
      LinesStep(s, i);
      TerminatedCons(line, Lines(rest));
    }
  }

  /** Cutting text at a `'\n'`: the part after it still ends as the text does. */
  lemma AroundNewline(s: string, i: nat)
    requires i < |s| && s[i] == '\n' && EndsWithNewlineOrEmpty(s)
    ensures s[..i] + "\n" + s[i + 1..] == s
    ensures EndsWithNewlineOrEmpty(s[i + 1..])
  {
    assert s == s[..i] + [s[i]] + s[i + 1..];
  }

  /** Text that ends in `'\n'` has a first `'\n'`. */
  lemma FirstNewline(s: string) returns (i: nat)
    requires s != [] && s[|s| - 1] == '\n'
    ensures i == IndexOf(s, '\n') && i < |s| && s[i] == '\n'
  {
    i := IndexOf(s, '\n');
    IndexOfFirst(s, '\n');
    assert s[|s| - 1] == '\n';
  }

  /** Lines of a concatenation whose first part ends a line. */
  lemma {:induction false} LinesAppend(a: string, b: string)
    requires EndsWithNewlineOrEmpty(a)
    ensures Lines(a + b) == Lines(a) + Lines(b)
    decreases |a|
  {
    if a == [] {
      assert a + b == b;
    } else {
      var i := FirstNewline(a);
      var line, rest := a[..i], a[i + 1..];
      calc {
        Lines(a + b);
        { LinesAppendStep(a, b, i); }
        [line] + Lines(rest + b);
        { LinesAppend(rest, b); }
        [line] + (Lines(rest) + Lines(b));
        ([line] + Lines(rest)) + Lines(b);
        { LinesStep(a, i); }
        Lines(a) + Lines(b);
      }
    }
  }

  /** The first line of `a + b` when `a` already holds a `'\n'`. */
  lemma LinesAppendStep(a: string, b: string, i: nat)
    requires i < |a| && IndexOf(a, '\n') == i
    ensures Lines(a + b) == [a[..i]] + Lines(a[i + 1..] + b)
  {
    var ab := a + b;
    assert ab[..i] == a[..i];
    assert ab[i + 1..] == a[i + 1..] + b;
    IndexOfAppend(a, b, '\n');
    LinesStep(ab, i);
  }

  /** Appending `'\n'` adds an empty last line exactly when the text already ended a line. */
  lemma LinesAddNewline(s: string)
    ensures Lines(s + "\n") == if EndsWithNewlineOrEmpty(s) then Lines(s) + [""] else Lines(s)
  {
    if EndsWithNewlineOrEmpty(s) {
      LinesAppend(s, "\n");
      assert Lines("\n") == [""] by {
        assert IndexOf("\n", '\n') == 0;
        LinesStep("\n", 0);
      }
    } else {
      LinesCloseLastLine(s);
    }
  }

  /** A `'\n'` after an unfinished last line only finishes it. */
  lemma {:induction false} LinesCloseLastLine(s: string)
    requires !EndsWithNewlineOrEmpty(s)
    ensures Lines(s + "\n") == Lines(s)
    decreases |s|
  {
    var i := IndexOf(s, '\n');
    if i == |s| {
      LinesSingle(s);
    } else {
      var line, rest := s[..i], s[i + 1..];
      calc {
        Lines(s + "\n");
        { LinesAppendStep(s, "\n", i); }
        [line] + Lines(rest + "\n");
        { LinesCloseLastLine(rest); }
        [line] + Lines(rest);
        { LinesStep(s, i); }
        Lines(s);
      }
    }
  }

  /** Non-empty text without `'\n'` is one line, with or without a final `'\n'`. */
  lemma LinesSingle(s: string)
    requires s != [] && IndexOf(s, '\n') == |s|
    ensures Lines(s) == [s]
    ensures Lines(s + "\n") == [s]
  {
    var t := s + "\n";
    assert forall j :: 0 <= j < |s| ==> t[j] != '\n' by {
      IndexOfFirst(s, '\n');
      assert forall j :: 0 <= j < |s| ==> t[j] == s[j];
    }
    IndexOfAt(t, '\n', |s|);
    LinesStep(t, |s|);
    assert t[..|s|] == s;
    assert t[|s| + 1..] == [];
  }

  /** Number of bytes in the UTF-8 encoding of one character. */
  function Utf8Width(c: char): (n: nat)
    ensures 1 <= n <= 4
  {
    if c as int < 0x80 then 1
    else if c as int < 0x800 then 2
    else if c as int < 0x1_0000 then 3
    else 4
  }

  /** `str::len`: the length of a string in UTF-8 bytes. */
  function Utf8Length(s: string): nat
  {
    if s == [] then 0 else Utf8Length(s[..|s| - 1]) + Utf8Width(s[|s| - 1])
  }

  lemma {:induction false} Utf8LengthAppend(a: string, b: string)
    ensures Utf8Length(a + b) == Utf8Length(a) + Utf8Length(b)
    decreases |b|
  {
    if b == [] {
      assert a + b == a;
    } else {
      assert (a + b)[..|a + b| - 1] == a + b[..|b| - 1];
      Utf8LengthAppend(a, b[..|b| - 1]);
    }
  }

  /** A text of ASCII characters is as many bytes long as it has characters. */
  lemma {:induction false} Utf8LengthAscii(s: string)
    requires forall i :: 0 <= i < |s| ==> s[i] as int < 0x80
    ensures Utf8Length(s) == |s|
    decreases |s|
  {
    if s != [] {
      Utf8LengthAscii(s[..|s| - 1]);
    }
  }
}
