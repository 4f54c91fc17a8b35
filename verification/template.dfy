/**
 * `Template`: a pattern string whose `${name}` placeholders `render` replaces with
 * the values of a variable map. A name missing from the map leaves its placeholder
 * as written, a `null` value renders as the empty string, and a `${` with no later
 * `}` copies the rest of the pattern from the `$` on.
 */
module Template {
  import opened Outcomes
  import opened JavaText

  /** A `Map<String, String>` whose values may be `null`. */
  type Variables = map<string, Option<string>>

  /** What a present key renders as: its value, or "" for `null`. */
  function ValueText(v: Option<string>): string {
    if v.Some? then v.value else ""
  }

  /** Whether `s` opens a placeholder at position `k`: a `$` directly followed by `{`. */
  predicate OpensAt(s: string, k: int) {
    0 <= k && k + 1 < |s| && s[k] == '$' && s[k + 1] == '{'
  }

  /**
   * The rendering of `s`, read from left to right: a `${` opens a placeholder whose
   * name runs to the first `}` after it; without such a `}` the rest is copied as it
   * stands. Every other character is copied one for one. Rendering continues after
   * the placeholder's `}`, so a substituted value is never read again.
   */
  function Rendered(s: string, vars: Variables): string
    decreases |s|
  {
    if s == [] then []
    else if OpensAt(s, 0) then
      var rest := s[2..];
      if '}' !in rest then s
      else
        var e := IndexOf(rest, '}');
        var name := rest[..e];
        (if name in vars then ValueText(vars[name]) else s[..e + 3]) + Rendered(rest[e + 1..], vars)
    else [s[0]] + Rendered(s[1..], vars)
  }

  class Template {
    const pattern: string

    /** `new Template(pattern)` on a non-null pattern. */
    constructor(pattern: string)
      ensures this.pattern == pattern
    {
      this.pattern := pattern;
    }

    /** `Template.of`: the constructor's null check, then a fresh template. */
    static method Of(pattern: Option<string>) returns (r: Result<Template, Failure>)
      ensures pattern.None? ==> r == Err(NullPointer("pattern must not be null"))
      ensures pattern.Some? ==> r.Ok? && fresh(r.value) && r.value.pattern == pattern.value
    {
      if pattern.None? {
        return Err(NullPointer("pattern must not be null"));
      }
      var t := new Template(pattern.value);
      return Ok(t);
    }

    /**
     * `render`: a `null` map is refused; otherwise one left-to-right scan of the
     * pattern appending to a builder, which produces the pattern's rendering.
     */
    method Render(variables: Option<Variables>) returns (r: Result<string, Failure>)
      ensures variables.None? ==> r == Err(NullPointer("variables must not be null"))
      ensures variables.Some? ==> r == Ok(Rendered(pattern, variables.value))
    {
      if variables.None? {
        return Err(NullPointer("variables must not be null"));
      }
      var vars := variables.value;
      ghost var total := Rendered(pattern, vars);
      var result := "";
      var length := |pattern|;
      var index := 0;
      while index < length
        invariant 0 <= index <= length
        invariant result + Rendered(pattern[index..], vars) == total
      {
        var ch := pattern[index];
        if ch == '$' && index + 1 < length && pattern[index + 1] == '{' {
          var start := index + 2;
          var end := IndexOfFrom(pattern, '}', start);
          if end == -1 {
            ghost var prev := result;
            result := result + pattern[index..];
            UnclosedAdvances(pattern, vars, index, total, prev, result);
            break;
          }
          var name := pattern[start..end];
          ghost var prev := result;
          if name !in vars {
            result := result + pattern[index..end + 1];
          } else {
            var value := vars[name];
            result := result + (if value.Some? then value.value else "");
          }
          PlaceholderAdvances(pattern, vars, index, end, total, prev, result);
          index := end + 1;
        } else {
          ghost var prev := result;
          result := result + [ch];
          CopyAdvances(pattern, vars, index, total, prev, result);
          index := index + 1;
        }
      }
      assert index == length ==> result + Rendered(pattern[index..], vars) == result;
      return Ok(result);
    }
  }

  /** Copying one character that opens no placeholder keeps the scan's invariant. */
  lemma CopyAdvances(p: string, vars: Variables, index: nat, total: string, prev: string, next: string)
    requires index < |p| && !OpensAt(p, index)
    requires prev + Rendered(p[index..], vars) == total && next == prev + [p[index]]
    ensures next + Rendered(p[index + 1..], vars) == total
  {
    CopyStep(p, vars, index);
    AppendAssoc(prev, [p[index]], Rendered(p[index + 1..], vars));
  }

  /** Copying the rest after a placeholder with no `}` completes the rendering. */
  lemma UnclosedAdvances(p: string, vars: Variables, index: nat, total: string, prev: string, next: string)
    requires OpensAt(p, index) && '}' !in p[index + 2..]
    requires prev + Rendered(p[index..], vars) == total && next == prev + p[index..]
    ensures next == total
  {
    UnclosedStep(p, vars, index);
  }

  /** Appending what a closed placeholder renders as keeps the scan's invariant. */
  lemma PlaceholderAdvances(p: string, vars: Variables, index: nat, end: nat, total: string, prev: string, next: string)
    requires OpensAt(p, index)
    requires index + 2 <= end < |p| && p[end] == '}' && '}' !in p[index + 2..end]
    requires prev + Rendered(p[index..], vars) == total
    requires next == prev + (if p[index + 2..end] in vars then ValueText(vars[p[index + 2..end]]) else p[index..end + 1])
    ensures next + Rendered(p[end + 1..], vars) == total
  {
    PlaceholderStep(p, vars, index, end);
    var piece := if p[index + 2..end] in vars then ValueText(vars[p[index + 2..end]]) else p[index..end + 1];
    AppendAssoc(prev, piece, Rendered(p[end + 1..], vars));
  }

  /** One character of the scan that opens no placeholder is copied. */
  lemma CopyStep(p: string, vars: Variables, index: nat)
    requires index < |p| && !OpensAt(p, index)
    ensures Rendered(p[index..], vars) == [p[index]] + Rendered(p[index + 1..], vars)
  {
    assert !OpensAt(p[index..], 0);
    assert p[index..][1..] == p[index + 1..];
  }

  /** A placeholder of the scan with no `}` after it: the rest is copied as it stands. */
  lemma UnclosedStep(p: string, vars: Variables, index: nat)
    requires OpensAt(p, index) && '}' !in p[index + 2..]
    ensures Rendered(p[index..], vars) == p[index..]
  {
    assert OpensAt(p[index..], 0);
    assert p[index..][2..] == p[index + 2..];
  }

  /** One placeholder of the scan, closed by the first `}` at `end`. */
  lemma PlaceholderStep(p: string, vars: Variables, index: nat, end: nat)
    requires OpensAt(p, index)
    requires index + 2 <= end < |p| && p[end] == '}' && '}' !in p[index + 2..end]
    ensures Rendered(p[index..], vars) ==
      (if p[index + 2..end] in vars then ValueText(vars[p[index + 2..end]]) else p[index..end + 1])
      + Rendered(p[end + 1..], vars)
  {
    var s := p[index..];
    var rest := s[2..];
    assert OpensAt(s, 0);
    assert rest == p[index + 2..];
    assert rest[end - index - 2] == '}';
    var e := IndexOf(rest, '}');
    assert rest[..end - index - 2] == p[index + 2..end];
    assert e == end - index - 2;
    assert rest[..e] == p[index + 2..end];
    assert s[..e + 3] == p[index..end + 1];
    assert rest[e + 1..] == p[end + 1..];
  }

  /** Text holding no `$` is copied unchanged, and rendering goes on after it. */
  lemma {:induction false} LiteralPrefix(lit: string, s: string, vars: Variables)
    requires '$' !in lit
    ensures Rendered(lit + s, vars) == lit + Rendered(s, vars)
    decreases |lit|
  {
    if lit != [] {
      var t := lit + s;
      assert t[0] == lit[0] && lit[0] != '$';
      assert Rendered(t, vars) == [t[0]] + Rendered(t[1..], vars);
      assert t[1..] == lit[1..] + s;
      LiteralPrefix(lit[1..], s, vars);
      assert lit == [lit[0]] + lit[1..];
      AppendAssoc([lit[0]], lit[1..], Rendered(s, vars));
    } else {
      assert lit + s == s;
    }
  }

  /**
   * A placeholder `${name}` (the name holding no `}`, possibly empty) renders as its
   * value when the name is a key and stays as written otherwise; the text after it is
   * rendered on its own, whatever the value holds.
   */
  lemma Placeholder(name: string, s: string, vars: Variables)
    requires '}' !in name
    ensures Rendered("${" + name + "}" + s, vars) ==
      (if name in vars then ValueText(vars[name]) else "${" + name + "}") + Rendered(s, vars)
  {
    var p := "${" + name + "}" + s;
    assert p[2..2 + |name|] == name;
    PlaceholderStep(p, vars, 0, 2 + |name|);
    assert p[0..] == p;
    assert p[..3 + |name|] == "${" + name + "}";
    assert p[3 + |name|..] == s;
  }

  /** A `${` with no `}` after it: the rest is copied from the `$` on. */
  lemma Unclosed(s: string, vars: Variables)
    requires '}' !in s
    ensures Rendered("${" + s, vars) == "${" + s
  {
    assert ("${" + s)[2..] == s;
  }

  /** Without any `${` in the pattern, rendering is the identity, whatever the map. */
  lemma {:induction false} NoPlaceholder(s: string, vars: Variables)
    requires forall k :: !OpensAt(s, k)
    ensures Rendered(s, vars) == s
    decreases |s|
  {
    if s != [] {
      assert !OpensAt(s, 0);
      forall k
        ensures !OpensAt(s[1..], k)
      {
        assert !OpensAt(s, k + 1);
      }
      NoPlaceholder(s[1..], vars);
    }
  }

  /** With an empty map every placeholder stays as written: the pattern comes back unchanged. */
  lemma {:induction false} EmptyMapIdentity(s: string)
    ensures Rendered(s, map[]) == s
    decreases |s|
  {
    if s != [] {
      if OpensAt(s, 0) && '}' in s[2..] {
        var rest := s[2..];
        var e := IndexOf(rest, '}');
        EmptyMapIdentity(rest[e + 1..]);
        assert s == s[..e + 3] + rest[e + 1..];
      } else if !OpensAt(s, 0) {
        EmptyMapIdentity(s[1..]);
        assert s == [s[0]] + s[1..];
      }
    }
  }

  /** "Hello, ${name}!" with name = "World" renders as "Hello, World!". */
  lemma SubstitutesValue()
    ensures Rendered("Hello, ${name}!", map["name" := Some("World")]) == "Hello, World!"
  {
    var vars := map["name" := Some("World")];
    var tail := "${" + "name" + "}" + "!";
    assert "Hello, ${name}!" == "Hello, " + tail;
    LiteralPrefix("Hello, ", tail, vars);
    Placeholder("name", "!", vars);
    NoPlaceholder("!", vars);
    assert Rendered(tail, vars) == "World!";
    assert "Hello, " + "World!" == "Hello, World!";
  }

  /** "Value: ${v}" with v mapped to `null` renders as "Value: ". */
  lemma NullValueIsEmpty()
    ensures Rendered("Value: ${v}", map["v" := None]) == "Value: "
  {
    var vars := map["v" := None];
    assert "Value: ${v}" == "Value: " + ("${" + "v" + "}" + "");
    LiteralPrefix("Value: ", "${" + "v" + "}" + "", vars);
    Placeholder("v", "", vars);
  }

  /** "Hello, ${name" has no closing brace and comes back as written. */
  lemma UnclosedKeepsRest()
    ensures Rendered("Hello, ${name", map["name" := Some("World")]) == "Hello, ${name"
  {
    var vars := map["name" := Some("World")];
    assert "Hello, ${name" == "Hello, " + ("${" + "name");
    LiteralPrefix("Hello, ", "${" + "name", vars);
    Unclosed("name", vars);
  }

  /** A value that itself looks like a placeholder is appended as it is, not expanded again. */
  lemma ValueNotRescanned()
    ensures Rendered("${a}", map["a" := Some("${b}"), "b" := Some("x")]) == "${b}"
  {
    var vars := map["a" := Some("${b}"), "b" := Some("x")];
    assert "${a}" == "${" + "a" + "}" + "";
    Placeholder("a", "", vars);
  }
}
