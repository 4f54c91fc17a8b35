/**
 * The `java.lang.String` operations the core relies on, on `seq<char>`:
 * `isBlank`, `startsWith`, `equalsIgnoreCase` (ASCII case only) and
 * `split` around a single literal character.
 */
module JavaText {

  /**
   * `Character.isWhitespace`: the space, tab, line and form separators of ASCII and
   * Unicode, but not the no-break spaces.
   */
  predicate IsWhitespace(c: char)
    ensures IsWhitespace(c) ==> c <= ' ' || '\U{1680}' <= c <= '\U{3000}'
    ensures c == '\U{A0}' || c == '\U{2007}' || c == '\U{202F}' ==> !IsWhitespace(c)
    ensures c == ' ' || c == '\t' || c == '\n' || c == '\r' ==> IsWhitespace(c)
  {
    || c == ' ' || '\t' <= c <= '\r' || '\U{1C}' <= c <= '\U{1F}'
    || c == '\U{1680}' || '\U{2000}' <= c <= '\U{2006}' || '\U{2008}' <= c <= '\U{200A}'
    || c == '\U{2028}' || c == '\U{2029}' || c == '\U{205F}' || c == '\U{3000}'
  }

  /** Concatenation regroups freely. */
  lemma AppendAssoc(a: string, b: string, c: string)
    ensures (a + b) + c == a + (b + c)
  {
  }

  /** `String.isBlank`: empty or whitespace only. */
  predicate IsBlank(s: string)
    ensures s == [] ==> IsBlank(s)
    ensures s != [] ==> (IsBlank(s) <==> IsWhitespace(s[0]) && IsBlank(s[1..]))
  {
    forall i :: 0 <= i < |s| ==> IsWhitespace(s[i])
  }

  /** `String.startsWith`: `s` is `prefix` followed by the rest of `s`. */
  predicate StartsWith(s: string, prefix: string)
    ensures StartsWith(s, prefix) <==> |prefix| <= |s| && s == prefix + s[|prefix|..]
    ensures prefix == [] || prefix == s ==> StartsWith(s, prefix)
  {
    |prefix| <= |s| && s[..|prefix|] == prefix
  }

  /** ASCII letters fold to lower case; every other character is kept. */
  function FoldCase(c: char): (f: char)
    ensures !('A' <= f <= 'Z')
    ensures !('A' <= c <= 'Z') ==> f == c
  {
    if 'A' <= c <= 'Z' then (c as int + 32) as char else c
  }

  /** `String.equalsIgnoreCase`, with case folding restricted to ASCII letters. */
  predicate EqualsIgnoreCase(s: string, t: string)
    ensures s == t ==> EqualsIgnoreCase(s, t)
    ensures EqualsIgnoreCase(s, t) ==> |s| == |t|
    ensures |s| == |t| && (forall i :: 0 <= i < |s| ==> s[i] == t[i] || FoldCase(s[i]) == t[i] || s[i] == FoldCase(t[i]))
      ==> EqualsIgnoreCase(s, t)
  {
    |s| == |t| && forall i :: 0 <= i < |s| ==> FoldCase(s[i]) == FoldCase(t[i])
  }

  /** Comparing without case is symmetric. */
  lemma EqualsIgnoreCaseSymmetric(s: string, t: string)
    ensures EqualsIgnoreCase(s, t) <==> EqualsIgnoreCase(t, s)
  {
  }

  /** Every piece between occurrences of `sep`, trailing empty pieces included. */
  function Pieces(s: string, sep: char): (ps: seq<string>)
    ensures |ps| > 0
    ensures forall k :: 0 <= k < |ps| ==> sep !in ps[k]
    ensures sep !in s ==> ps == [s]
  {
    if sep !in s then [s]
    else
      var i := IndexOf(s, sep);
      [s[..i]] + Pieces(s[i + 1..], sep)
  }

  /** The first position of `c` in `s`. */
  function IndexOf(s: string, c: char): (i: nat)
    requires c in s
    ensures i < |s| && s[i] == c && c !in s[..i]
  {
    if s[0] == c then 0 else 1 + IndexOf(s[1..], c)
  }

  /**
   * `String.indexOf(c, from)`: the first position at or after `from` holding `c`,
   * or -1 when there is none (also when `from` is past the end).
   */
  function IndexOfFrom(s: string, c: char, from: nat): (r: int)
    ensures r == -1 <==> from >= |s| || c !in s[from..]
    ensures r != -1 ==> from <= r < |s| && s[r] == c && c !in s[from..r]
  {
    if from >= |s| || c !in s[from..] then -1
    else
      var k := IndexOf(s[from..], c);
      assert s[from..][..k] == s[from..from + k];
      from + k
  }

  /** The pieces written back with `sep` between them. */
  function JoinWith(ps: seq<string>, sep: char): string
    requires |ps| > 0
  {
    if |ps| == 1 then ps[0] else ps[0] + [sep] + JoinWith(ps[1..], sep)
  }

  /** Joining a piece in front of at least one more puts `sep` after it. */
  lemma JoinCons(p: string, ps: seq<string>, sep: char)
    requires |ps| > 0
    ensures JoinWith([p] + ps, sep) == p + [sep] + JoinWith(ps, sep)
  {
    assert ([p] + ps)[1..] == ps;
  }

  /** `Pieces` loses nothing: joining the pieces gives the string back. */
  lemma {:induction false} PiecesJoin(s: string, sep: char)
    ensures JoinWith(Pieces(s, sep), sep) == s
    decreases |s|
  {
    if sep in s {
      var i := IndexOf(s, sep);
      var before, after := s[..i], s[i + 1..];
      calc {
        JoinWith(Pieces(s, sep), sep);
        JoinWith([before] + Pieces(after, sep), sep);
        { JoinCons(before, Pieces(after, sep), sep); }
        before + [sep] + JoinWith(Pieces(after, sep), sep);
        { PiecesJoin(after, sep); }
        before + [sep] + after;
        { assert s == s[..i] + [s[i]] + s[i + 1..]; }
        s;
      }
    }
  }

  /** `s` without its trailing empty strings. */
  function DropTrailingEmpty(ps: seq<string>): (r: seq<string>)
    ensures |r| <= |ps| && r == ps[..|r|]
    ensures r != [] ==> r[|r| - 1] != []
    ensures forall k :: |r| <= k < |ps| ==> ps[k] == []
  {
    if ps == [] || ps[|ps| - 1] != [] then ps else DropTrailingEmpty(ps[..|ps| - 1])
  }

  /**
   * `String.split` around the literal character `sep`: with no occurrence the
   * whole string is the only part; otherwise the pieces, trailing empty ones
   * removed (which may leave none).
   */
  function Split(s: string, sep: char): (parts: seq<string>)
    ensures forall k :: 0 <= k < |parts| ==> sep !in parts[k]
    ensures sep !in s ==> parts == [s]
  {
    if sep !in s then [s] else DropTrailingEmpty(Pieces(s, sep))
  }
}
