/**
 * `ArgumentParser`: command-line arguments come as option/value pairs. `parse`
 * first checks the options' structure, then each option's value, and only then
 * collects the values into a `ParsedArguments`.
 */
module ArgumentParser {
  import opened Outcomes
  import opened LinkedCollections
  import opened JavaText

  /** `ParsedArguments`: an option that was not given stays `null`. */
  datatype ParsedArguments = ParsedArguments(
    inputPath: Option<string>,
    rootClass: Option<string>,
    packageName: Option<string>,
    outDir: Option<string>,
    innerClasses: bool)

  /**
   * What `parse` throws: a `UserException` with its message, or the
   * `IllegalArgumentException` that the output-directory check raised.
   */
  datatype ParseError = UserError(message: string) | OutDirectoryError(message: string)

  /**
   * The parts of the Java platform the value checks call: `SourceVersion.isIdentifier`,
   * `SourceVersion.isKeyword` and `FileValidator.validateOutDirectory`, the last
   * giving the message of the exception it throws, if any.
   */
  datatype JavaEnv = JavaEnv(
    isIdentifier: string -> bool,
    isKeyword: string -> bool,
    validateOutDirectory: string -> Option<string>)

  const PairMessage := "[ERROR] 옵션과 값은 쌍으로 입력해야 합니다."

  /** The five supported options. */
  const Allowed: set<string> := {"--input", "--root-class", "--package", "--out", "--inner-classes"}

  /** The arguments read two at a time: option `args[2k]` with value `args[2k + 1]`. */
  function Pairs(args: seq<string>): (ps: seq<(string, string)>)
    requires |args| % 2 == 0
    ensures 2 * |ps| == |args|
    decreases |args|
  {
    if args == [] then [] else [(args[0], args[1])] + Pairs(args[2..])
  }

  /** The pair at an even argument position `i` is the pair `i / 2`. */
  lemma {:induction false} PairAt(args: seq<string>, i: nat)
    requires |args| % 2 == 0 && i % 2 == 0 && i < |args|
    ensures i + 1 < |args| && i / 2 < |Pairs(args)|
    ensures Pairs(args)[i / 2] == (args[i], args[i + 1])
    decreases i
  {
    if i > 0 {
      PairAt(args[2..], i - 2);
      assert args[2..][i - 2] == args[i] && args[2..][i - 1] == args[i + 1];
    }
  }

  // ---------------------------------------------------------------- validateOptions

  /** The checks on one pair, in the source's order; `seen` holds the options before it. */
  function PairError(option: string, value: string, seen: set<string>): Option<ParseError> {
    if !StartsWith(option, "--") then Some(UserError("[ERROR] 옵션은 '--'으로 시작해야 합니다: " + option))
    else if option !in Allowed then Some(UserError("[ERROR] 지원하지 않는 옵션입니다: " + option))
    else if option in seen then Some(UserError("[ERROR] 옵션이 중복되었습니다: " + option))
    else if IsBlank(value) || StartsWith(value, "--") then Some(UserError("[ERROR] 옵션의 값이 없습니다: " + option))
    else None
  }

  /** The first failing pair check, scanning the pairs in order. */
  function PairsError(ps: seq<(string, string)>, seen: set<string>): Option<ParseError>
    decreases |ps|
  {
    if ps == [] then None
    else if PairError(ps[0].0, ps[0].1, seen).Some? then PairError(ps[0].0, ps[0].1, seen)
    else PairsError(ps[1..], seen + {ps[0].0})
  }

  /** The required options, checked in this order. */
  function RequiredError(options: seq<string>): Option<ParseError> {
    if "--input" !in options then Some(UserError("[ERROR] --input은 필수입니다."))
    else if "--root-class" !in options then Some(UserError("[ERROR] --root-class는 필수입니다."))
    else if "--package" !in options then Some(UserError("[ERROR] --package는 필수입니다."))
    else if "--out" !in options then Some(UserError("[ERROR] --out은 필수입니다."))
    else None
  }

  /** What `validateOptions` throws, if anything. */
  function OptionsError(args: seq<string>): Option<ParseError> {
    if |args| % 2 != 0 then Some(UserError(PairMessage))
    else
      var ps := Pairs(args);
      if PairsError(ps, {}).Some? then PairsError(ps, {}) else RequiredError(Keys(ps))
  }

  /** One pair's option is supported and its value is present. */
  predicate PairOk(p: (string, string)) {
    p.0 in Allowed && !IsBlank(p.1) && !StartsWith(p.1, "--")
  }

  /**
   * Option structure as `validateOptions` demands it: whole pairs, every option
   * supported and given once with a present value, and the four required options
   * all given.
   */
  predicate WellFormedOptions(args: seq<string>) {
    && |args| % 2 == 0
    && (forall k :: 0 <= k < |Pairs(args)| ==> PairOk(Pairs(args)[k]))
    && Distinct(Keys(Pairs(args)))
    && "--input" in Keys(Pairs(args))
    && "--root-class" in Keys(Pairs(args))
    && "--package" in Keys(Pairs(args))
    && "--out" in Keys(Pairs(args))
  }

  lemma AllowedStartsWithDashes(option: string)
    requires option in Allowed
    ensures StartsWith(option, "--")
  {
  }

  /** One pair passes its checks exactly when it is fine and its option was not seen. */
  lemma PairErrorNone(p: (string, string), seen: set<string>)
    ensures PairError(p.0, p.1, seen).None? <==> PairOk(p) && p.0 !in seen
  {
    if p.0 in Allowed {
      AllowedStartsWithDashes(p.0);
    }
  }

  /** Keys are distinct exactly when the first differs from the rest and the rest are distinct. */
  lemma DistinctCons<K, V>(ps: seq<(K, V)>)
    requires ps != []
    ensures Distinct(Keys(ps)) <==> (forall k :: 1 <= k < |ps| ==> ps[k].0 != ps[0].0) && Distinct(Keys(ps[1..]))
  {
    var tail := ps[1..];
    assert Keys(ps)[0] == ps[0].0;
    assert forall k :: 0 <= k < |tail| ==> Keys(ps)[k + 1] == Keys(tail)[k] && tail[k] == ps[k + 1];
  }

  /** The pair scan finds nothing exactly when every pair is fine and no option repeats or was seen. */
  lemma {:induction false} PairsErrorNone(ps: seq<(string, string)>, seen: set<string>)
    ensures PairsError(ps, seen).None? <==>
      (forall k :: 0 <= k < |ps| ==> PairOk(ps[k]) && ps[k].0 !in seen) && Distinct(Keys(ps))
    decreases |ps|
  {
    if ps != [] {
      var seen' := seen + {ps[0].0};
      var tail := ps[1..];
      PairsErrorNone(tail, seen');
      PairErrorNone(ps[0], seen);
      DistinctCons(ps);
      assert (forall k :: 0 <= k < |tail| ==> PairOk(tail[k]) && tail[k].0 !in seen') <==>
             (forall k :: 1 <= k < |ps| ==> PairOk(ps[k]) && ps[k].0 !in seen && ps[k].0 != ps[0].0) by {
        forall k | 1 <= k < |ps|
          ensures ps[k] == tail[k - 1]
        {
        }
      }
    }
  }

  /** `validateOptions` accepts the arguments exactly when their option structure is well formed. */
  lemma OptionsErrorIff(args: seq<string>)
    ensures OptionsError(args).None? <==> WellFormedOptions(args)
  {
    if |args| % 2 == 0 {
      PairsErrorNone(Pairs(args), {});
    }
  }

  /** An odd number of arguments is refused with the pairing message. */
  lemma OddRejected(args: seq<string>)
    requires |args| % 2 != 0
    ensures OptionsError(args) == Some(UserError(PairMessage))
  {
  }

  /** Well-formed pairs with the input option missing are refused for that option first. */
  lemma MissingInputReported(args: seq<string>)
    requires |args| % 2 == 0 && PairsError(Pairs(args), {}).None?
    requires "--input" !in Keys(Pairs(args))
    ensures OptionsError(args) == Some(UserError("[ERROR] --input은 필수입니다."))
  {
  }

  /** The second loop of `validateOptions`: the options, every other argument from the first. */
  method OptionNames(args: seq<string>) returns (options: seq<string>)
    requires |args| % 2 == 0
    ensures options == Keys(Pairs(args))
  {
    ghost var ps := Pairs(args);
    options := [];
    var i := 0;
    ghost var j := 0;
    while i < |args|
      invariant 0 <= i <= |args| && i == 2 * j
      invariant options == Keys(ps[..j])
    {
      PairAt(args, i);
      assert ps[..j + 1] == ps[..j] + [ps[j]];
      KeysAppend(ps[..j], ps[j]);
      options := options + [args[i]];
      i := i + 2;
      j := j + 1;
    }
    assert ps[..j] == ps;
  }

  /** The pair scan, one pair further on. */
  lemma PairsStep(ps: seq<(string, string)>, j: nat, seen: set<string>)
    requires j < |ps|
    ensures PairsError(ps[j..], seen) ==
      if PairError(ps[j].0, ps[j].1, seen).Some? then PairError(ps[j].0, ps[j].1, seen)
      else PairsError(ps[j + 1..], seen + {ps[j].0})
  {
    assert ps[j..][0] == ps[j];
    assert ps[j..][1..] == ps[j + 1..];
  }

  /** `validateOptions`: the pair loop with its `seen` set, then the loop collecting the options. */
  method ValidateOptions(args: seq<string>) returns (r: Option<ParseError>)
    ensures r == OptionsError(args)
  {
    if |args| % 2 != 0 {
      return Some(UserError(PairMessage));
    }
    ghost var ps := Pairs(args);
    var seen: set<string> := {};
    var i := 0;
    ghost var j := 0;
    while i < |args|
      invariant 0 <= i <= |args| && i == 2 * j
      invariant PairsError(ps, {}) == PairsError(ps[j..], seen)
    {
      var option := args[i];
      var value := args[i + 1];
      PairAt(args, i);
      PairsStep(ps, j, seen);
      if !StartsWith(option, "--") {
        return Some(UserError("[ERROR] 옵션은 '--'으로 시작해야 합니다: " + option));
      }
      if option !in Allowed {
        return Some(UserError("[ERROR] 지원하지 않는 옵션입니다: " + option));
      }
      if option in seen {
        return Some(UserError("[ERROR] 옵션이 중복되었습니다: " + option));
      }
      seen := seen + {option};
      if IsBlank(value) || StartsWith(value, "--") {
        return Some(UserError("[ERROR] 옵션의 값이 없습니다: " + option));
      }
      i := i + 2;
      j := j + 1;
    }
    assert ps[j..] == [];

    var options := OptionNames(args);
    if "--input" !in options {
      return Some(UserError("[ERROR] --input은 필수입니다."));
    }
    if "--root-class" !in options {
      return Some(UserError("[ERROR] --root-class는 필수입니다."));
    }
    if "--package" !in options {
      return Some(UserError("[ERROR] --package는 필수입니다."));
    }
    if "--out" !in options {
      return Some(UserError("[ERROR] --out은 필수입니다."));
    }
    return None;
  }

  // ---------------------------------------------------------------- validateValues

  /** The checks on the segments of a package name, in order, stopping at the first failure. */
  function SegmentsError(tokens: seq<string>, value: string, env: JavaEnv): Option<ParseError>
    decreases |tokens|
  {
    if tokens == [] then None
    else if IsBlank(tokens[0]) then Some(UserError("[ERROR] --package 값에 빈 세그먼트가 포함되어 있습니다: " + value))
    else if !env.isIdentifier(tokens[0]) then Some(UserError("[ERROR] --package 값의 일부가 유효한 식별자가 아닙니다: " + tokens[0]))
    else if env.isKeyword(tokens[0]) then Some(UserError("[ERROR] --package 값에 Java 키워드가 포함되어 있습니다: " + tokens[0]))
    else SegmentsError(tokens[1..], value, env)
  }

  /** The `--package` check: split on '.', refuse no segments, then check each segment. */
  function PackageError(value: string, env: JavaEnv): Option<ParseError> {
    var tokens := Split(value, '.');
    if |tokens| == 0 then Some(UserError("[ERROR] --package 값이 비어 있습니다: " + value))
    else SegmentsError(tokens, value, env)
  }

  /** The value check of one pair; options without a value check pass. */
  function ValueError(option: string, value: string, env: JavaEnv): Option<ParseError> {
    if option == "--root-class" && (!env.isIdentifier(value) || env.isKeyword(value)) then
      Some(UserError("[ERROR] --root-class 값이 유효한 자바 클래스명이 아닙니다: " + value))
    else if option == "--package" && PackageError(value, env).Some? then
      PackageError(value, env)
    else if option == "--out" && env.validateOutDirectory(value).Some? then
      Some(OutDirectoryError(env.validateOutDirectory(value).value))
    else if option == "--inner-classes" && !EqualsIgnoreCase(value, "true") && !EqualsIgnoreCase(value, "false") then
      Some(UserError("[ERROR] --inner-classes 옵션은 true 또는 false만 허용됩니다: " + value))
    else None
  }

  /** The first failing value check, scanning the pairs in order. */
  function ValuesError(ps: seq<(string, string)>, env: JavaEnv): Option<ParseError>
    decreases |ps|
  {
    if ps == [] then None
    else if ValueError(ps[0].0, ps[0].1, env).Some? then ValueError(ps[0].0, ps[0].1, env)
    else ValuesError(ps[1..], env)
  }

  /** What `validateValues` throws, if anything. */
  function ValuesCheck(args: seq<string>, env: JavaEnv): Option<ParseError> {
    if |args| % 2 != 0 then Some(UserError(PairMessage)) else ValuesError(Pairs(args), env)
  }

  /** A package name has at least one segment, and every segment is a non-blank identifier that is no keyword. */
  predicate ValidPackage(value: string, env: JavaEnv) {
    var tokens := Split(value, '.');
    && |tokens| > 0
    && forall k :: 0 <= k < |tokens| ==>
         !IsBlank(tokens[k]) && env.isIdentifier(tokens[k]) && !env.isKeyword(tokens[k])
  }

  /** The value an option demands: a class name, a package name, a usable directory, a boolean. */
  predicate ValidValue(option: string, value: string, env: JavaEnv) {
    && (option == "--root-class" ==> env.isIdentifier(value) && !env.isKeyword(value))
    && (option == "--package" ==> ValidPackage(value, env))
    && (option == "--out" ==> env.validateOutDirectory(value).None?)
    && (option == "--inner-classes" ==> EqualsIgnoreCase(value, "true") || EqualsIgnoreCase(value, "false"))
  }

  lemma {:induction false} SegmentsErrorNone(tokens: seq<string>, value: string, env: JavaEnv)
    ensures SegmentsError(tokens, value, env).None? <==>
      forall k :: 0 <= k < |tokens| ==> !IsBlank(tokens[k]) && env.isIdentifier(tokens[k]) && !env.isKeyword(tokens[k])
    decreases |tokens|
  {
    if tokens != [] {
      SegmentsErrorNone(tokens[1..], value, env);
      assert forall k :: 1 <= k < |tokens| ==> tokens[k] == tokens[1..][k - 1];
    }
  }

  /** The `--package` check passes exactly on valid package names. */
  lemma PackageErrorIff(value: string, env: JavaEnv)
    ensures PackageError(value, env).None? <==> ValidPackage(value, env)
  {
    SegmentsErrorNone(Split(value, '.'), value, env);
  }

  lemma {:induction false} ValuesErrorNone(ps: seq<(string, string)>, env: JavaEnv)
    ensures ValuesError(ps, env).None? <==> forall k :: 0 <= k < |ps| ==> ValidValue(ps[k].0, ps[k].1, env)
    decreases |ps|
  {
    if ps != [] {
      PackageErrorIff(ps[0].1, env);
      ValuesErrorNone(ps[1..], env);
      assert forall k :: 1 <= k < |ps| ==> ps[k] == ps[1..][k - 1];
    }
  }

  /** `validateValues` accepts the arguments exactly when they pair up and every value suits its option. */
  lemma ValuesCheckIff(args: seq<string>, env: JavaEnv)
    ensures ValuesCheck(args, env).None? <==>
      |args| % 2 == 0 && forall k :: 0 <= k < |Pairs(args)| ==> ValidValue(Pairs(args)[k].0, Pairs(args)[k].1, env)
  {
    if |args| % 2 == 0 {
      var ps := Pairs(args);
      ValuesErrorNone(ps, env);
      assert ValuesCheck(args, env) == ValuesError(ps, env);
    }
  }

  /** The `--package` block of `validateValues`: split, then the loop over the segments. */
  method ValidatePackage(value: string, env: JavaEnv) returns (r: Option<ParseError>)
    ensures r == PackageError(value, env)
  {
    var tokens := Split(value, '.');
    if |tokens| == 0 {
      return Some(UserError("[ERROR] --package 값이 비어 있습니다: " + value));
    }
    for k := 0 to |tokens|
      invariant SegmentsError(tokens, value, env) == SegmentsError(tokens[k..], value, env)
    {
      var token := tokens[k];
      assert tokens[k..][1..] == tokens[k + 1..];
      if IsBlank(token) {
        return Some(UserError("[ERROR] --package 값에 빈 세그먼트가 포함되어 있습니다: " + value));
      }
      if !env.isIdentifier(token) {
        return Some(UserError("[ERROR] --package 값의 일부가 유효한 식별자가 아닙니다: " + token));
      }
      if env.isKeyword(token) {
        return Some(UserError("[ERROR] --package 값에 Java 키워드가 포함되어 있습니다: " + token));
      }
    }
    assert tokens[|tokens|..] == [];
    return None;
  }

  /** The value scan, one pair further on. */
  lemma ValuesStep(ps: seq<(string, string)>, j: nat, env: JavaEnv)
    requires j < |ps|
    ensures ValuesError(ps[j..], env) ==
      if ValueError(ps[j].0, ps[j].1, env).Some? then ValueError(ps[j].0, ps[j].1, env)
      else ValuesError(ps[j + 1..], env)
  {
    assert ps[j..][0] == ps[j];
    assert ps[j..][1..] == ps[j + 1..];
  }

  /**
   * The checks of one option and its value inside the loop of `validateValues`: the
   * first that fails gives the error, and options without a value rule pass.
   */
  method ValidatePair(option: string, value: string, env: JavaEnv) returns (r: Option<ParseError>)
    ensures r == ValueError(option, value, env)
    ensures option !in ["--root-class", "--package", "--out", "--inner-classes"] ==> r.None?
  {
    if option == "--root-class" {
      if !env.isIdentifier(value) || env.isKeyword(value) {
        return Some(UserError("[ERROR] --root-class 값이 유효한 자바 클래스명이 아닙니다: " + value));
      }
    }
    if option == "--package" {
      var e := ValidatePackage(value, env);
      if e.Some? {
        return e;
      }
    }
    if option == "--out" {
      var failure := env.validateOutDirectory(value);
      if failure.Some? {
        return Some(OutDirectoryError(failure.value));
      }
    }
    if option == "--inner-classes" {
      if !EqualsIgnoreCase(value, "true") && !EqualsIgnoreCase(value, "false") {
        return Some(UserError("[ERROR] --inner-classes 옵션은 true 또는 false만 허용됩니다: " + value));
      }
    }
    return None;
  }

  /** `validateValues`: the loop over the pairs, each option's value checked in turn. */
  method ValidateValues(args: seq<string>, env: JavaEnv) returns (r: Option<ParseError>)
    ensures r == ValuesCheck(args, env)
  {
    if |args| % 2 != 0 {
      return Some(UserError(PairMessage));
    }
    ghost var ps := Pairs(args);
    var i := 0;
    ghost var j := 0;
    while i < |args|
      invariant 0 <= i <= |args| && i == 2 * j
      invariant ValuesError(ps, env) == ValuesError(ps[j..], env)
    {
      var option := args[i];
      var value := args[i + 1];
      PairAt(args, i);
      ValuesStep(ps, j, env);
      var e := ValidatePair(option, value, env);
      if e.Some? {
        return e;
      }
      i := i + 2;
      j := j + 1;
    }
    assert ps[j..] == [];
    return None;
  }

  // ---------------------------------------------------------------- parse

  /** `Boolean.parseBoolean` on a non-null string: "true" in any case, and nothing else. */
  predicate ParseBoolean(s: string)
    ensures ParseBoolean(s) ==> |s| == 4 && FoldCase(s[0]) == 't'
    ensures s == "true" || s == "TRUE" || s == "True" ==> ParseBoolean(s)
    ensures s == "false" || s == "yes" || s == "1" || s == "" ==> !ParseBoolean(s)
  {
    EqualsIgnoreCase(s, "true")
  }

  /** Nothing collected yet: every option `null`, `innerClasses` false. */
  const Unset := ParsedArguments(None, None, None, None, false)

  /** The `switch` of the collecting loop: the option's name selects the field the value goes to. */
  function Assign(acc: ParsedArguments, name: string, value: string): ParsedArguments {
    match name
    case "input" => acc.(inputPath := Some(value))
    case "root-class" => acc.(rootClass := Some(value))
    case "package" => acc.(packageName := Some(value))
    case "out" => acc.(outDir := Some(value))
    case "inner-classes" => acc.(innerClasses := ParseBoolean(value))
    case _ => acc
  }

  /** One pair of the collecting loop: the option without its "--" is the name switched on. */
  function Step(acc: ParsedArguments, option: string, value: string): ParsedArguments
    requires |option| >= 2
  {
    Assign(acc, option[2..], value)
  }

  predicate Dashed(ps: seq<(string, string)>) {
    forall k :: 0 <= k < |ps| ==> StartsWith(ps[k].0, "--")
  }

  /** The collecting loop over the remaining pairs. */
  function CollectFrom(ps: seq<(string, string)>, acc: ParsedArguments): ParsedArguments
    requires Dashed(ps)
    decreases |ps|
  {
    if ps == [] then acc else CollectFrom(ps[1..], Step(acc, ps[0].0, ps[0].1))
  }

  lemma WellFormedDashed(args: seq<string>)
    requires WellFormedOptions(args)
    ensures Dashed(Pairs(args))
  {
    forall k | 0 <= k < |Pairs(args)|
      ensures StartsWith(Pairs(args)[k].0, "--")
    {
      assert PairOk(Pairs(args)[k]);
      AllowedStartsWithDashes(Pairs(args)[k].0);
    }
  }

  /**
   * `parse`: `validateOptions` runs to completion before `validateValues`, so a
   * structural error is reported whatever the values are; with both passing, the
   * pairs are collected.
   */
  method Parse(args: seq<string>, env: JavaEnv) returns (r: Result<ParsedArguments, ParseError>)
    ensures OptionsError(args).Some? ==> r == Err(OptionsError(args).value)
    ensures OptionsError(args).None? && ValuesCheck(args, env).Some? ==> r == Err(ValuesCheck(args, env).value)
    ensures OptionsError(args).None? && ValuesCheck(args, env).None? ==>
      WellFormedOptions(args) && Dashed(Pairs(args)) && r == Ok(CollectFrom(Pairs(args), Unset))
  {
    var e := ValidateOptions(args);
    if e.Some? {
      return Err(e.value);
    }
    e := ValidateValues(args, env);
    if e.Some? {
      return Err(e.value);
    }
    OptionsErrorIff(args);
    WellFormedDashed(args);
    var parsed := Collect(args);
    return Ok(parsed);
  }

  /** The collecting loop of `parse`: each even index is an option, the next its value. */
  method Collect(args: seq<string>) returns (parsed: ParsedArguments)
    requires |args| % 2 == 0 && Dashed(Pairs(args))
    ensures parsed == CollectFrom(Pairs(args), Unset)
  {
    ghost var ps := Pairs(args);
    var inputPath: Option<string> := None;
    var rootClass: Option<string> := None;
    var packageName: Option<string> := None;
    var outDir: Option<string> := None;
    var innerClasses := false;
    for i := 0 to |args|
      invariant CollectFrom(ps, Unset) ==
        CollectFrom(ps[(i + 1) / 2..], ParsedArguments(inputPath, rootClass, packageName, outDir, innerClasses))
    {
      HalfStep(i);
      if i % 2 != 0 {
        continue;
      }
      ghost var j := i / 2;
      PairAt(args, i);
      CollectStep(ps, j, ParsedArguments(inputPath, rootClass, packageName, outDir, innerClasses));
      ghost var before := ParsedArguments(inputPath, rootClass, packageName, outDir, innerClasses);
      var name := args[i][2..];
      match name {
        case "input" => inputPath := Some(args[i + 1]);
        case "root-class" => rootClass := Some(args[i + 1]);
        case "package" => packageName := Some(args[i + 1]);
        case "out" => outDir := Some(args[i + 1]);
        case "inner-classes" => innerClasses := ParseBoolean(args[i + 1]);
        case _ =>
      }
      ghost var after := ParsedArguments(inputPath, rootClass, packageName, outDir, innerClasses);
      assert after == Assign(before, name, args[i + 1]) == Step(before, ps[j].0, ps[j].1);
      assert CollectFrom(ps, Unset) == CollectFrom(ps[j + 1..], after);
    }
    assert ps[(|args| + 1) / 2..] == [];
    return ParsedArguments(inputPath, rootClass, packageName, outDir, innerClasses);
  }

  /** The collecting loop, one pair further on. */
  lemma CollectStep(ps: seq<(string, string)>, j: nat, acc: ParsedArguments)
    requires Dashed(ps) && j < |ps|
    ensures StartsWith(ps[j].0, "--") && Dashed(ps[j + 1..])
    ensures CollectFrom(ps[j..], acc) == CollectFrom(ps[j + 1..], Step(acc, ps[j].0, ps[j].1))
  {
    assert ps[j..][0] == ps[j];
    assert ps[j..][1..] == ps[j + 1..];
  }

  /** How the pair index `i / 2` moves as `i` steps by one. */
  lemma HalfStep(i: nat)
    ensures i % 2 != 0 ==> (i + 2) / 2 == (i + 1) / 2
    ensures i % 2 == 0 ==> (i + 1) / 2 == i / 2 && (i + 2) / 2 == i / 2 + 1
  {
    var q := i / 2;
    assert i == 2 * q + i % 2;
    if i % 2 == 0 {
      assert i + 1 == 2 * q + 1 && i + 2 == 2 * (q + 1);
    } else {
      assert i + 1 == 2 * (q + 1) && i + 2 == 2 * (q + 1) + 1;
    }
  }

  /** With a "--" prefix, the option's tail names a field exactly when the option is that field's option. */
  lemma DashedName(option: string, name: string)
    requires StartsWith(option, "--")
    ensures option[2..] == name <==> option == "--" + name
  {
    assert option == option[..2] + option[2..];
  }

  /** One collecting step sets exactly the field of its option. */
  lemma StepFields(acc: ParsedArguments, option: string, value: string)
    requires StartsWith(option, "--")
    ensures Step(acc, option, value).inputPath == if option == "--input" then Some(value) else acc.inputPath
    ensures Step(acc, option, value).rootClass == if option == "--root-class" then Some(value) else acc.rootClass
    ensures Step(acc, option, value).packageName == if option == "--package" then Some(value) else acc.packageName
    ensures Step(acc, option, value).outDir == if option == "--out" then Some(value) else acc.outDir
    ensures Step(acc, option, value).innerClasses ==
      if option == "--inner-classes" then ParseBoolean(value) else acc.innerClasses
  {
    assert Step(acc, option, value) == Assign(acc, option[2..], value);
    DashedName(option, "input");
    assert "--" + "input" == "--input";
    DashedName(option, "root-class");
    assert "--" + "root-class" == "--root-class";
    DashedName(option, "package");
    assert "--" + "package" == "--package";
    DashedName(option, "out");
    assert "--" + "out" == "--out";
    DashedName(option, "inner-classes");
    assert "--" + "inner-classes" == "--inner-classes";
  }

  lemma DashedTail(ps: seq<(string, string)>)
    requires ps != [] && Dashed(ps)
    ensures StartsWith(ps[0].0, "--") && Dashed(ps[1..])
  {
    forall k | 0 <= k < |ps[1..]|
      ensures StartsWith(ps[1..][k].0, "--")
    {
      assert ps[1..][k] == ps[k + 1];
    }
  }

  /** A field whose option is not among the pairs keeps its starting value. */
  lemma {:induction false} CollectAbsent(ps: seq<(string, string)>, acc: ParsedArguments)
    requires Dashed(ps)
    ensures "--input" !in Keys(ps) ==> CollectFrom(ps, acc).inputPath == acc.inputPath
    ensures "--root-class" !in Keys(ps) ==> CollectFrom(ps, acc).rootClass == acc.rootClass
    ensures "--package" !in Keys(ps) ==> CollectFrom(ps, acc).packageName == acc.packageName
    ensures "--out" !in Keys(ps) ==> CollectFrom(ps, acc).outDir == acc.outDir
    ensures "--inner-classes" !in Keys(ps) ==> CollectFrom(ps, acc).innerClasses == acc.innerClasses
    decreases |ps|
  {
    if ps != [] {
      DashedTail(ps);
      var next := Step(acc, ps[0].0, ps[0].1);
      StepFields(acc, ps[0].0, ps[0].1);
      CollectAbsent(ps[1..], next);
      assert Keys(ps) == [ps[0].0] + Keys(ps[1..]);
      assert CollectFrom(ps, acc) == CollectFrom(ps[1..], next);
    }
  }

  /** The four options whose value is kept as text, each with the field it fills. */
  datatype TextOption = Input | RootClass | Package | Out

  function OptionName(f: TextOption): string {
    match f
    case Input => "--input"
    case RootClass => "--root-class"
    case Package => "--package"
    case Out => "--out"
  }

  function TextField(p: ParsedArguments, f: TextOption): Option<string> {
    match f
    case Input => p.inputPath
    case RootClass => p.rootClass
    case Package => p.packageName
    case Out => p.outDir
  }

  /** One collecting step sets a text field exactly when its option is that field's. */
  lemma StepText(acc: ParsedArguments, option: string, value: string, f: TextOption)
    requires StartsWith(option, "--")
    ensures TextField(Step(acc, option, value), f) == if option == OptionName(f) then Some(value) else TextField(acc, f)
  {
    StepFields(acc, option, value);
  }

  /** Distinct keys stay distinct without the first pair, whose key is not among the rest. */
  lemma DistinctTail<K, V>(ps: seq<(K, V)>)
    requires ps != [] && Distinct(Keys(ps))
    ensures ps[0].0 !in Keys(ps[1..]) && Distinct(Keys(ps[1..]))
  {
    var tail := ps[1..];
    assert Keys(ps) == [ps[0].0] + Keys(tail);
    forall j | 0 <= j < |tail|
      ensures Keys(tail)[j] != ps[0].0
    {
      assert Keys(ps)[0] == ps[0].0 && Keys(ps)[j + 1] == Keys(tail)[j];
    }
    forall a, b | 0 <= a < b < |tail|
      ensures Keys(tail)[a] != Keys(tail)[b]
    {
      assert Keys(tail)[a] == Keys(ps)[a + 1] && Keys(tail)[b] == Keys(ps)[b + 1];
    }
  }

  /** With distinct options, a text field collected is the value paired with its option. */
  lemma {:induction false} CollectText(ps: seq<(string, string)>, acc: ParsedArguments, f: TextOption, k: nat)
    requires Dashed(ps) && Distinct(Keys(ps))
    requires k < |ps| && ps[k].0 == OptionName(f)
    ensures TextField(CollectFrom(ps, acc), f) == Some(ps[k].1)
    decreases |ps|
  {
    var tail := ps[1..];
    var next := Step(acc, ps[0].0, ps[0].1);
    DashedTail(ps);
    DistinctTail(ps);
    StepText(acc, ps[0].0, ps[0].1, f);
    assert CollectFrom(ps, acc) == CollectFrom(tail, next);
    if k == 0 {
      CollectAbsent(tail, next);
    } else {
      assert tail[k - 1] == ps[k];
      CollectText(tail, next, f, k - 1);
    }
  }

  /** One collecting step sets `innerClasses` exactly on `--inner-classes`. */
  lemma StepInner(acc: ParsedArguments, option: string, value: string)
    requires StartsWith(option, "--")
    ensures Step(acc, option, value).innerClasses ==
      if option == "--inner-classes" then ParseBoolean(value) else acc.innerClasses
  {
    StepFields(acc, option, value);
  }

  /** With distinct options, `innerClasses` is what `--inner-classes`'s value parses to. */
  lemma {:induction false} CollectInner(ps: seq<(string, string)>, acc: ParsedArguments, k: nat)
    requires Dashed(ps) && Distinct(Keys(ps))
    requires k < |ps| && ps[k].0 == "--inner-classes"
    ensures CollectFrom(ps, acc).innerClasses == ParseBoolean(ps[k].1)
    decreases |ps|
  {
    var tail := ps[1..];
    var next := Step(acc, ps[0].0, ps[0].1);
    DashedTail(ps);
    DistinctTail(ps);
    StepInner(acc, ps[0].0, ps[0].1);
    assert CollectFrom(ps, acc) == CollectFrom(tail, next);
    if k == 0 {
      CollectAbsent(tail, next);
    } else {
      assert tail[k - 1] == ps[k];
      CollectInner(tail, next, k - 1);
    }
  }

  /**
   * Arguments that pass both checks give each required field the value paired with
   * its option, and `innerClasses` true exactly when `--inner-classes` was given a
   * value equal to "true" ignoring case.
   */
  lemma ParsedFields(args: seq<string>)
    requires WellFormedOptions(args)
    ensures Dashed(Pairs(args))
    ensures var ps := Pairs(args); var c := CollectFrom(ps, Unset);
      && c.inputPath.Some? && c.rootClass.Some? && c.packageName.Some? && c.outDir.Some?
      && (forall k :: 0 <= k < |ps| && ps[k].0 == "--input" ==> c.inputPath == Some(ps[k].1))
      && (forall k :: 0 <= k < |ps| && ps[k].0 == "--root-class" ==> c.rootClass == Some(ps[k].1))
      && (forall k :: 0 <= k < |ps| && ps[k].0 == "--package" ==> c.packageName == Some(ps[k].1))
      && (forall k :: 0 <= k < |ps| && ps[k].0 == "--out" ==> c.outDir == Some(ps[k].1))
      && (c.innerClasses <==> exists k :: 0 <= k < |ps| && ps[k].0 == "--inner-classes" && ParseBoolean(ps[k].1))
  {
    var ps := Pairs(args);
    WellFormedDashed(args);
    CollectAbsent(ps, Unset);
    var c := CollectFrom(ps, Unset);
    forall k | 0 <= k < |ps| && ps[k].0 == "--input"
      ensures c.inputPath == Some(ps[k].1)
    {
      CollectText(ps, Unset, Input, k);
    }
    forall k | 0 <= k < |ps| && ps[k].0 == "--root-class"
      ensures c.rootClass == Some(ps[k].1)
    {
      CollectText(ps, Unset, RootClass, k);
    }
    forall k | 0 <= k < |ps| && ps[k].0 == "--package"
      ensures c.packageName == Some(ps[k].1)
    {
      CollectText(ps, Unset, Package, k);
    }
    forall k | 0 <= k < |ps| && ps[k].0 == "--out"
      ensures c.outDir == Some(ps[k].1)
    {
      CollectText(ps, Unset, Out, k);
    }
    forall k | 0 <= k < |ps| && ps[k].0 == "--inner-classes"
      ensures c.innerClasses == ParseBoolean(ps[k].1)
    {
      CollectInner(ps, Unset, k);
    }
    forall o | o in Keys(ps)
      ensures exists k :: 0 <= k < |ps| && ps[k].0 == o
    {
      var k :| 0 <= k < |Keys(ps)| && Keys(ps)[k] == o;
      assert ps[k].0 == o;
    }
  }
}
