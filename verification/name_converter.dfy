/**
 * `DefaultNameConverter`: Pascal and camel case over ASCII alphanumeric tokens.
 *
 * `toPascalCase` turns every run of characters outside `[A-Za-z0-9]` into one space,
 * trims, splits on whitespace and appends each part with its first character
 * upper-cased. The tokens are therefore exactly the maximal ASCII-alphanumeric runs
 * of the input. `Pascal` below is an independent, character-by-character definition
 * of the same result, and `ToPascalCase` is proved to compute it.
 */
module NameConverter {
  import opened Outcomes
  import JavaText

  predicate IsAlnum(c: char) {
    'A' <= c <= 'Z' || 'a' <= c <= 'z' || '0' <= c <= '9'
  }

  predicate AllAlnum(s: string) {
    forall i :: 0 <= i < |s| ==> IsAlnum(s[i])
  }

  /** `Character.toUpperCase` on ASCII: only lower-case letters change. */
  function Upper(c: char): (u: char)
    ensures IsAlnum(c) <==> IsAlnum(u)
    ensures !('a' <= u <= 'z')
    ensures !('a' <= c <= 'z') ==> u == c
  {
    if 'a' <= c <= 'z' then (c as int - 32) as char else c
  }

  /** `Character.toLowerCase` on ASCII: only upper-case letters change. */
  function Lower(c: char): (l: char)
    ensures IsAlnum(c) <==> IsAlnum(l)
    ensures !('A' <= l <= 'Z')
    ensures !('A' <= c <= 'Z') ==> l == c
  {
    if 'A' <= c <= 'Z' then (c as int + 32) as char else c
  }

  /**
   * The maximal ASCII-alphanumeric runs of `s`, in order: what the parts of
   * `replaceAll("[^A-Za-z0-9]+", " ").trim().split("\\s+")` are when there is at
   * least one.
   */
  function Tokens(s: string): (ts: seq<string>)
    ensures forall k :: 0 <= k < |ts| ==> |ts[k]| > 0 && AllAlnum(ts[k])
    ensures s != [] && IsAlnum(s[0]) ==> |ts| > 0 && ts[0][0] == s[0]
  {
    if s == [] then []
    else if !IsAlnum(s[0]) then Tokens(s[1..])
    else
      var rest := Tokens(s[1..]);
      if |s| > 1 && IsAlnum(s[1]) then [[s[0]] + rest[0]] + rest[1..]
      else [[s[0]]] + rest
  }

  /**
   * The array `split` returns: splitting the empty trimmed string gives one empty
   * part, otherwise the parts are the tokens.
   */
  function Parts(s: string): (ps: seq<string>)
    ensures |ps| > 0
    ensures Tokens(s) != [] ==> ps == Tokens(s)
    ensures Tokens(s) == [] ==> ps == [""]
  {
    if Tokens(s) == [] then [""] else Tokens(s)
  }

  /** One part appended by the loop: skipped when empty, else first character upper-cased. */
  function Capitalized(p: string): string {
    if p == [] then [] else [Upper(p[0])] + p[1..]
  }

  /** The parts `ps` capitalised and concatenated, in order. */
  function Joined(ps: seq<string>): string {
    if ps == [] then [] else Capitalized(ps[0]) + Joined(ps[1..])
  }

  /**
   * The reference definition: keep exactly the ASCII-alphanumeric characters of `s`
   * and upper-case each one that starts a run (`inRun` says whether the character
   * before `s` was alphanumeric).
   */
  function Caps(s: string, inRun: bool): string {
    if s == [] then []
    else if !IsAlnum(s[0]) then Caps(s[1..], false)
    else [if inRun then s[0] else Upper(s[0])] + Caps(s[1..], true)
  }

  function Pascal(s: string): string {
    Caps(s, false)
  }

  /** `toCamelCase` on a non-null argument: the Pascal form with its first character lower-cased. */
  function Camel(s: string): (c: string)
    ensures |c| == |Pascal(s)|
    ensures c != [] ==> c[0] == Lower(Pascal(s)[0]) && c[1..] == Pascal(s)[1..]
  {
    var p := Pascal(s);
    if p == [] then p else [Lower(p[0])] + p[1..]
  }

  /** `toPascalCase`: `null` and "" come back unchanged, anything else is converted. */
  method ToPascalCase(s: Option<string>) returns (r: Option<string>)
    ensures s.None? ==> r.None?
    ensures s.Some? ==> r == Some(Pascal(s.value))
  {
    if s.None? || s.value == [] {
      return s;
    }
    var parts := Parts(s.value);
    var sb: string := [];
    for i := 0 to |parts|
      invariant sb + Joined(parts[i..]) == Joined(parts)
    {
      var p := parts[i];
      ghost var sbBefore := sb;
      JoinedFrom(sbBefore, parts, i);
      if p == [] {
        continue;
      }
      sb := sb + [Upper(p[0])];
      if |p| > 1 {
        sb := sb + p[1..];
      }
      assert sb == sbBefore + Capitalized(p);
    }
    assert parts[|parts|..] == [];
    assert sb == Joined(parts);
    PartsMatchPascal(s.value);
    return Some(sb);
  }

  /** `toCamelCase`: `null` and "" come back unchanged, anything else is camel-cased. */
  method ToCamelCase(s: Option<string>) returns (r: Option<string>)
    ensures s.None? ==> r.None?
    ensures s.Some? ==> r == Some(Camel(s.value))
  {
    var pascal := ToPascalCase(s);
    if pascal.None? || pascal.value == [] {
      return pascal;
    }
    return Some([Lower(pascal.value[0])] + pascal.value[1..]);
  }

  /** Appending part `i` capitalised, then the parts after it, is appending the parts from `i`. */
  lemma JoinedFrom(acc: string, ps: seq<string>, i: nat)
    requires i < |ps|
    ensures (acc + Capitalized(ps[i])) + Joined(ps[i + 1..]) == acc + Joined(ps[i..])
    ensures ps[i] == [] ==> acc + Joined(ps[i + 1..]) == acc + Joined(ps[i..])
  {
    assert ps[i..][1..] == ps[i + 1..];
  }

  /**
   * Tokens and the run-based definition agree: inside a run the first token
   * continues the run unchanged, outside a run every token is capitalised.
   */
  lemma {:induction false} TokensMatchCaps(s: string)
    ensures Joined(Tokens(s)) == Caps(s, false)
    ensures s != [] && IsAlnum(s[0]) ==> Tokens(s)[0] + Joined(Tokens(s)[1..]) == Caps(s, true)
    ensures s == [] || !IsAlnum(s[0]) ==> Caps(s, true) == Caps(s, false)
    decreases |s|
  {
    if s == [] || !IsAlnum(s[0]) {
      if s != [] {
        TokensMatchCaps(s[1..]);
      }
      return;
    }
    TokensMatchCaps(s[1..]);
    if |s| > 1 && IsAlnum(s[1]) {
      RunContinues(s);
    } else {
      RunEnds(s);
    }
  }

  /** The step of `TokensMatchCaps` where the run of `s[0]` goes on into `s[1..]`. */
  lemma RunContinues(s: string)
    requires |s| > 1 && IsAlnum(s[0]) && IsAlnum(s[1])
    requires Tokens(s[1..])[0] + Joined(Tokens(s[1..])[1..]) == Caps(s[1..], true)
    ensures Joined(Tokens(s)) == Caps(s, false)
    ensures Tokens(s)[0] + Joined(Tokens(s)[1..]) == Caps(s, true)
  {
    var ts, rs := Tokens(s), Tokens(s[1..]);
    var run, later := rs[0], Joined(rs[1..]);
    assert ts[1..] == rs[1..];
    assert ts[0] == [s[0]] + run;
    assert Capitalized(ts[0]) == [Upper(s[0])] + run;
    assert Joined(ts) == ([Upper(s[0])] + run) + later;
    JavaText.AppendAssoc([Upper(s[0])], run, later);
    JavaText.AppendAssoc([s[0]], run, later);
  }

  /** The step of `TokensMatchCaps` where the run of `s[0]` ends with it. */
  lemma RunEnds(s: string)
    requires s != [] && IsAlnum(s[0]) && (|s| == 1 || !IsAlnum(s[1]))
    requires Joined(Tokens(s[1..])) == Caps(s[1..], false)
    requires Caps(s[1..], true) == Caps(s[1..], false)
    ensures Joined(Tokens(s)) == Caps(s, false)
    ensures Tokens(s)[0] + Joined(Tokens(s)[1..]) == Caps(s, true)
  {
    var ts, rs := Tokens(s), Tokens(s[1..]);
    assert ts == [[s[0]]] + rs;
    assert ts[1..] == rs;
    assert Joined(ts) == Capitalized([s[0]]) + Joined(rs);
    assert Capitalized([s[0]]) == [Upper(s[0])];
  }

  /** The loop over `Parts(s)` produces the Pascal form of `s`. */
  lemma PartsMatchPascal(s: string)
    ensures Joined(Parts(s)) == Pascal(s)
  {
    TokensMatchCaps(s);
    if Tokens(s) == [] {
      assert Joined([""]) == Capitalized("") + Joined([]);
    }
  }

  /** The output holds only ASCII letters and digits. */
  lemma {:induction false} CapsAlnum(s: string, inRun: bool)
    ensures AllAlnum(Caps(s, inRun))
    decreases |s|
  {
    if s != [] {
      CapsAlnum(s[1..], true);
      CapsAlnum(s[1..], false);
    }
  }

  /** The camel-case form holds only ASCII letters and digits. */
  lemma CamelAlnum(s: string)
    ensures AllAlnum(Camel(s))
  {
    CapsAlnum(s, false);
    var c := Camel(s);
    if c != [] {
      assert forall i :: 1 <= i < |c| ==> c[i] == Pascal(s)[i];
    }
  }

  /** The output is never longer than the input. */
  lemma {:induction false} CapsShorter(s: string, inRun: bool)
    ensures |Caps(s, inRun)| <= |s|
    decreases |s|
  {
    if s != [] {
      CapsShorter(s[1..], true);
      CapsShorter(s[1..], false);
    }
  }

  /** An input made only of separators gives "". */
  lemma {:induction false} CapsSeparators(s: string, inRun: bool)
    requires forall i :: 0 <= i < |s| ==> !IsAlnum(s[i])
    ensures Caps(s, inRun) == []
    decreases |s|
  {
    if s != [] {
      CapsSeparators(s[1..], false);
    }
  }

  /** Inside a run, an alphanumeric string is copied unchanged. */
  lemma {:induction false} CapsInRun(t: string)
    requires AllAlnum(t)
    ensures Caps(t, true) == t
    decreases |t|
  {
    if t != [] {
      CapsInRun(t[1..]);
    }
  }

  /** Converting an already converted name changes nothing. */
  lemma PascalIdempotent(s: string)
    ensures Pascal(Pascal(s)) == Pascal(s)
  {
    var p := Pascal(s);
    CapsAlnum(s, false);
    if p != [] {
      CapsInRun(p[1..]);
      FirstIsCapital(s, false);
    }
  }

  /** Outside a run, the first output character is an upper-cased one. */
  lemma {:induction false} FirstIsCapital(s: string, inRun: bool)
    requires !inRun && Caps(s, inRun) != []
    ensures Upper(Caps(s, inRun)[0]) == Caps(s, inRun)[0]
    decreases |s|
  {
    if !IsAlnum(s[0]) {
      FirstIsCapital(s[1..], false);
    }
  }

  /** Inside a run, a word is copied and the run goes on. */
  lemma {:induction false} CapsWord(w: string, rest: string)
    requires AllAlnum(w)
    ensures Caps(w + rest, true) == w + Caps(rest, true)
    decreases |w|
  {
    if w == [] {
      assert w + rest == rest;
    } else {
      assert (w + rest)[1..] == w[1..] + rest;
      CapsWord(w[1..], rest);
      JavaText.AppendAssoc([w[0]], w[1..], Caps(rest, true));
    }
  }

  /** A word after a separator, or at the start, is capitalised. */
  lemma CapsWordStart(w: string, rest: string)
    requires w != [] && AllAlnum(w)
    ensures Caps(w + rest, false) == [Upper(w[0])] + w[1..] + Caps(rest, true)
  {
    assert (w + rest)[1..] == w[1..] + rest;
    CapsWord(w[1..], rest);
    JavaText.AppendAssoc([Upper(w[0])], w[1..], Caps(rest, true));
  }

  /** A separator is dropped and ends the run. */
  lemma CapsSeparator(c: char, rest: string, inRun: bool)
    requires !IsAlnum(c)
    ensures Caps([c] + rest, inRun) == Caps(rest, false)
  {
    assert ([c] + rest)[1..] == rest;
  }

  /** A word followed by a separator: the word is capitalised and a new run starts after it. */
  lemma SeparatedWord(w: string, c: char, rest: string)
    requires w != [] && AllAlnum(w) && !IsAlnum(c)
    ensures Caps(w + [c] + rest, false) == [Upper(w[0])] + w[1..] + Caps(rest, false)
  {
    assert w + [c] + rest == w + ([c] + rest);
    CapsWordStart(w, [c] + rest);
    CapsSeparator(c, rest, true);
  }

  /** A last word is capitalised. */
  lemma LastWord(w: string)
    requires w != [] && AllAlnum(w)
    ensures Caps(w, false) == [Upper(w[0])] + w[1..]
  {
    assert w + "" == w;
    CapsWordStart(w, "");
  }

  /** "profit_rate" becomes "ProfitRate". */
  lemma ExampleSnakeCase(s: string)
    requires s == "profit_rate"
    ensures Pascal(s) == "ProfitRate"
  {
    assert s == "profit" + ['_'] + "rate";
    SeparatedWord("profit", '_', "rate");
    LastWord("rate");
  }

  /** ... and "profitRate". */
  lemma ExampleSnakeCaseCamel(s: string)
    requires s == "profit_rate"
    ensures Camel(s) == "profitRate"
  {
    ExampleSnakeCase(s);
  }

  /** Several kinds of separator: "user-name id" becomes "UserNameId". */
  lemma ExampleMixedSeparators(s: string)
    requires s == "user-name id"
    ensures Pascal(s) == "UserNameId"
  {
    assert s == "user" + ['-'] + ("name" + [' '] + "id");
    SeparatedWord("user", '-', "name" + [' '] + "id");
    SeparatedWord("name", ' ', "id");
    LastWord("id");
  }

  /** ... and "userNameId". */
  lemma ExampleMixedSeparatorsCamel(s: string)
    requires s == "user-name id"
    ensures Camel(s) == "userNameId"
  {
    ExampleMixedSeparators(s);
  }
}
