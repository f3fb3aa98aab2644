/**
 * The heading convention both tools rely on: a line that starts with the
 * marker "# " opens an entry, and the entry's title is that line with every
 * "# " removed (Rust's `str::replace("# ", "")`, which removes every
 * occurrence, not only the leading marker).
 */
module Heading {
  import opened Text

  const Marker: string := "# "

  predicate IsHeading(line: string)
  {
    StartsWith(line, Marker)
  }

  function TitleOf(line: string): string
  {
    ReplaceAll(line, Marker, "")
  }

  /**
   * On a heading line the marker itself is dropped; when the rest holds no
   * `'#'` the title is exactly the rest of the line.
   */
  lemma HeadingTitle(line: string)
    requires IsHeading(line)
    ensures TitleOf(line) == TitleOf(line[|Marker|..])
    ensures '#' !in line[|Marker|..] ==> TitleOf(line) == line[|Marker|..]
  {
    var rest := line[|Marker|..];
    if '#' !in rest {
      forall i: nat ensures !OccursAt(rest, Marker, i) {
        if i < |rest| { assert rest[i] != '#'; }
      }
      ReplaceAllNoOccurrence(rest, Marker, "");
    }
  }
}
