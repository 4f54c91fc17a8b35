/**
 * `CodeFormatter`: `format` is still the identity (apart from its null check), and
 * the unused helper `normalizeLineEndings` turns every line ending into `\n`.
 */
module CodeFormatter {
  import opened Outcomes

  /** `format`: a `null` source is refused, any other source comes back as it is. */
  function Format(source: Option<string>): (r: Result<string, Failure>)
    ensures source.None? <==> r.Err?
    ensures source.None? ==> r.error == NullPointer("source must not be null")
    ensures source.Some? ==> r.value == source.value
  {
    if source.None? then Err(NullPointer("source must not be null")) else Ok(source.value)
  }

  /**
   * `String.replace` with a non-empty literal target: the string is scanned from the
   * left and each occurrence not overlapping an earlier one is replaced.
   */
  function Replace(s: string, target: string, replacement: string): (r: string)
    requires target != []
    ensures !Occurs(s, target) ==> r == s
    ensures |target| == 1 && target[0] !in replacement ==> target[0] !in r
    ensures |target| == |replacement| ==> |r| == |s|
    decreases |s|
  {
    if |s| < |target| then s
    else if s[..|target|] == target then
      assert OccursAt(s, target, 0);
      replacement + Replace(s[|target|..], target, replacement)
    else
      assert forall i: nat :: i <= |s[1..]| && OccursAt(s[1..], target, i) ==> OccursAt(s, target, i + 1);
      [s[0]] + Replace(s[1..], target, replacement)
  }

  /** `target` occurs in `s` starting at position `i`. */
  predicate OccursAt(s: string, target: string, i: nat) {
    i + |target| <= |s| && s[i..i + |target|] == target
  }

  /** `target` occurs somewhere in `s`. */
  predicate Occurs(s: string, target: string) {
    exists i: nat :: i <= |s| && OccursAt(s, target, i)
  }

  /**
   * `normalizeLineEndings`: first every "\r\n" becomes "\n", then every remaining
   * '\r' does; together, each line ending read one at a time becomes one '\n'.
   */
  function NormalizeLineEndings(source: string): (r: string)
    ensures r == LineFeeds(source)
  {
    ReplacementsAreLineFeeds(source);
    Replace(Replace(source, "\r\n", "\n"), "\r", "\n")
  }

  /**
   * Line endings read one at a time: "\r\n", a lone '\r' and '\n' each give one '\n';
   * every other character is kept.
   */
  function LineFeeds(s: string): string
    decreases |s|
  {
    if s == [] then []
    else if s[0] == '\r' then "\n" + (if |s| > 1 && s[1] == '\n' then LineFeeds(s[2..]) else LineFeeds(s[1..]))
    else [s[0]] + LineFeeds(s[1..])
  }

  /** The two chained replacements agree with reading the line endings one at a time. */
  lemma {:induction false} ReplacementsAreLineFeeds(s: string)
    ensures Replace(Replace(s, "\r\n", "\n"), "\r", "\n") == LineFeeds(s)
    decreases |s|
  {
    if s == [] {
    } else if |s| > 1 && s[0] == '\r' && s[1] == '\n' {
      assert s[..2] == "\r\n";
      var once := Replace(s, "\r\n", "\n");
      assert once == "\n" + Replace(s[2..], "\r\n", "\n");
      assert once[..1] != "\r" && once[1..] == Replace(s[2..], "\r\n", "\n");
      ReplacementsAreLineFeeds(s[2..]);
    } else if s[0] == '\r' {
      assert |s| >= 2 ==> s[..2] != "\r\n";
      var once := Replace(s, "\r\n", "\n");
      if |s| < 2 {
        assert once == s == "\r";
        assert Replace(once, "\r", "\n") == "\n" + Replace(once[1..], "\r", "\n");
      } else {
        assert once == [s[0]] + Replace(s[1..], "\r\n", "\n");
        assert once[..1] == "\r" && once[1..] == Replace(s[1..], "\r\n", "\n");
        ReplacementsAreLineFeeds(s[1..]);
      }
    } else {
      var once := Replace(s, "\r\n", "\n");
      if |s| < 2 {
        assert once == s;
        assert s[..1] != "\r";
        assert s[1..] == [] && s == [s[0]];
        assert Replace(s, "\r", "\n") == [s[0]] + Replace(s[1..], "\r", "\n");
        assert LineFeeds(s) == [s[0]] + LineFeeds(s[1..]);
      } else {
        assert s[..2] != "\r\n";
        assert once == [s[0]] + Replace(s[1..], "\r\n", "\n");
        assert once[..1] != "\r" && once[1..] == Replace(s[1..], "\r\n", "\n");
        ReplacementsAreLineFeeds(s[1..]);
      }
    }
  }

  /** No '\r' is left once the line endings are read one at a time. */
  lemma {:induction false} LineFeedsNoCarriageReturn(s: string)
    ensures '\r' !in LineFeeds(s)
    decreases |s|
  {
    if s != [] {
      if s[0] == '\r' && |s| > 1 && s[1] == '\n' {
        LineFeedsNoCarriageReturn(s[2..]);
      } else {
        LineFeedsNoCarriageReturn(s[1..]);
      }
    }
  }

  /** A string with no '\r' has nothing to normalise. */
  lemma {:induction false} LineFeedsWithoutCarriageReturn(s: string)
    requires '\r' !in s
    ensures LineFeeds(s) == s
    decreases |s|
  {
    if s != [] {
      assert s[0] != '\r' && '\r' !in s[1..];
      LineFeedsWithoutCarriageReturn(s[1..]);
      assert s == [s[0]] + s[1..];
    }
  }

  /** Each line ending shrinks or keeps its length, so the output is never longer. */
  lemma {:induction false} LineFeedsNoLonger(s: string)
    ensures |LineFeeds(s)| <= |s|
    decreases |s|
  {
    if s != [] {
      if s[0] == '\r' && |s| > 1 && s[1] == '\n' {
        LineFeedsNoLonger(s[2..]);
      } else {
        LineFeedsNoLonger(s[1..]);
      }
    }
  }

  /** The normalised text holds no '\r'. */
  lemma NormalizeNoCarriageReturn(s: string)
    ensures '\r' !in NormalizeLineEndings(s)
  {
    LineFeedsNoCarriageReturn(s);
  }

  /** A string without '\r' is returned unchanged. */
  lemma NormalizeWithoutCarriageReturn(s: string)
    requires '\r' !in s
    ensures NormalizeLineEndings(s) == s
  {
    LineFeedsWithoutCarriageReturn(s);
  }

  /** Normalising never makes the text longer. */
  lemma NormalizeNoLonger(s: string)
    ensures |NormalizeLineEndings(s)| <= |s|
  {
    LineFeedsNoLonger(s);
  }

  /** Normalising twice is normalising once. */
  lemma NormalizeIdempotent(s: string)
    ensures NormalizeLineEndings(NormalizeLineEndings(s)) == NormalizeLineEndings(s)
  {
    NormalizeNoCarriageReturn(s);
    NormalizeWithoutCarriageReturn(NormalizeLineEndings(s));
  }
}
