# json-dto-converter core, modelled in Dafny

json-dto-converter is a command-line tool that reads a JSON sample and generates Java
DTO classes for it. This project models the core of its pipeline and proves properties
of that model:

- **Argument parsing** (`ArgumentParser`): the options come as `--option value` pairs.
  Their structure is checked first: whole pairs, supported options, no repeats, a
  value present, the four required options given. Then each value is checked: a class
  name, a package name, an output directory, a boolean. Only then are the values
  collected into a `ParsedArguments`.
- **Schema analysis** (`JsonAnalyzer`, `Schema`): a parsed JSON tree becomes a tree of
  freshly allocated schema nodes: primitives, objects with insertion-ordered fields,
  arrays with an identity-keyed set of element types, and unions.
- **Type inference** (`TypeInferencer`): schema nodes map to Java type references. As
  written, only primitives get a specific type. Containers and unions are stubbed to
  `Object`, and only the root is entered in the map.
- **Model graph** (`ModelGraph`): one `ModelClass` per object node. The walk starts at
  the root and goes through array element types and union variants. The classes are
  keyed by qualified name, and a duplicate name is rejected.
- **Names** (`NameConverter`): `toPascalCase` and `toCamelCase` over ASCII-alphanumeric
  tokens.
- **Templates** (`Template`): `${name}` placeholders are replaced by the values of a
  variable map.
- **Code formatting** (`CodeFormatter`): `format` is still the identity. The helper
  `normalizeLineEndings` turns every line ending into `\n`.
- **Byte-order marks** (`JsonValidator`): detecting a UTF-8 byte order mark and
  stripping it.

Modelling choices:

- Java `null` is `Option`. A thrown exception is the `Err` side of a `Result`, carrying
  the exception's kind and message.
- A `LinkedHashSet` is a sequence without repeats, and a `LinkedHashMap` is a sequence
  of entries with distinct keys (module `LinkedCollections`).
- Schema nodes are Dafny classes, one per Java subclass. The datatype `SchemaNode`
  holds a reference to one of them, so collections of nodes are identity-keyed, as in
  Java.
- The recursive walks over the schema graph are justified by a ghost ranking of the
  nodes (`Schema.Ranked`). `JsonAnalyzer.Analyze` produces that ranking.

Where the tests and the code disagree, the model follows the code:

- `TypeInferencerTest` expects `List<Double>` for arrays and class names for objects,
  but `inferRecursive` returns `Object` for both.
- `CodeFormatterTest` expects line-ending normalisation, trailing-space removal and
  blank-line collapsing from `format`, but `format` returns its input unchanged.

## Model

| member | source | states |
|---|---|---|
| ArgumentParser.Pairs | src/main/java/org/example/cli/ArgumentParser.java:82-86 | the arguments read two at a time: pair k is option `args[2k]` with value `args[2k+1]`, and there are half as many pairs as arguments |
| ArgumentParser.PairAt | src/main/java/org/example/cli/ArgumentParser.java:82-86 | at an even index i, the option and its value are pair i/2 |
| ArgumentParser.AllowedStartsWithDashes | src/main/java/org/example/cli/ArgumentParser.java:79 | every supported option starts with "--", so once an option passes the "allowed" check, its "--" check cannot fail |
| ArgumentParser.PairErrorNone | src/main/java/org/example/cli/ArgumentParser.java:82-98 | one pair passes its four checks exactly when its option is supported, its value is present (not blank, not starting with "--") and the option was not seen before |
| ArgumentParser.PairsErrorNone | src/main/java/org/example/cli/ArgumentParser.java:82-98 | the pair loop finds no error exactly when every pair is fine and no option repeats (both directions) |
| ArgumentParser.OptionsErrorIff | src/main/java/org/example/cli/ArgumentParser.java:74-112 | `validateOptions` accepts the arguments exactly when they are whole pairs, every option is supported, given once and has a value, and --input, --root-class, --package and --out are all present |
| ArgumentParser.OddRejected | src/main/java/org/example/cli/ArgumentParser.java:76-77 | an odd number of arguments is refused with the pairing message, before any pair is looked at |
| ArgumentParser.MissingInputReported | src/main/java/org/example/cli/ArgumentParser.java:104-105 | well-formed pairs without --input are refused with the --input message, ahead of the other required options |
| ArgumentParser.OptionNames | src/main/java/org/example/cli/ArgumentParser.java:100-103 | the second loop collects exactly the options, one per pair, in order |
| ArgumentParser.ValidateOptions | src/main/java/org/example/cli/ArgumentParser.java:74-112 | the two loops with the `seen` set report exactly the error the option checks define, the first failing pair first, then the required options in order |
| ArgumentParser.SegmentsErrorNone | src/main/java/org/example/cli/ArgumentParser.java:136-148 | the segment loop passes exactly when every segment is non-blank, an identifier and not a keyword |
| ArgumentParser.PackageErrorIff | src/main/java/org/example/cli/ArgumentParser.java:129-149 | the --package check passes exactly when splitting on '.' gives at least one segment and every segment is valid |
| ArgumentParser.ValuesErrorNone | src/main/java/org/example/cli/ArgumentParser.java:119-160 | the value loop passes exactly when every pair's value suits its option |
| ArgumentParser.ValuesCheckIff | src/main/java/org/example/cli/ArgumentParser.java:114-161 | `validateValues` accepts exactly when the arguments pair up and every value suits its option: a non-keyword identifier for --root-class, a valid package for --package, a usable directory for --out, "true" or "false" ignoring case for --inner-classes |
| ArgumentParser.ValidatePackage | src/main/java/org/example/cli/ArgumentParser.java:129-149 | the split and the loop over the segments report exactly the first failing package check |
| ArgumentParser.ValidatePair | src/main/java/org/example/cli/ArgumentParser.java:120-159 | the checks of one pair, in source order, report exactly the error `ValueError` defines for it; an option without a value rule always passes |
| ArgumentParser.ValidateValues | src/main/java/org/example/cli/ArgumentParser.java:114-161 | the loop over the pairs reports exactly the first failing value check |
| ArgumentParser.WellFormedDashed | src/main/java/org/example/cli/ArgumentParser.java:52 | after `validateOptions` has passed, every option starts with "--", so `substring(2)` is defined |
| ArgumentParser.Parse | src/main/java/org/example/cli/ArgumentParser.java:35-72 | a structural error is reported whatever the values are; a value error is reported only after the structure has passed; with both passing, the result is the pairs collected over an all-null start |
| ArgumentParser.Collect | src/main/java/org/example/cli/ArgumentParser.java:48-69 | the loop that skips odd indices and switches on the option's name computes the pairs collected in order |
| ArgumentParser.CollectStep | src/main/java/org/example/cli/ArgumentParser.java:48-69 | collecting from pair j is one switch step on pair j, then collecting from pair j+1 |
| ArgumentParser.DashedName | src/main/java/org/example/cli/ArgumentParser.java:52 | for an option starting with "--", the name switched on equals `name` exactly when the option is "--" followed by `name` |
| ArgumentParser.StepFields | src/main/java/org/example/cli/ArgumentParser.java:52-67 | one switch step sets exactly the field its option names (the parsed boolean for --inner-classes) and leaves every other field as it was |
| ArgumentParser.CollectAbsent | src/main/java/org/example/cli/ArgumentParser.java:48-69 | a field whose option is not among the pairs keeps its starting value |
| ArgumentParser.StepText | src/main/java/org/example/cli/ArgumentParser.java:52-64 | one step sets a text field to the value exactly when the option is that field's option |
| ArgumentParser.CollectText | src/main/java/org/example/cli/ArgumentParser.java:48-69 | with distinct options, a collected text field is the value paired with its option |
| ArgumentParser.StepInner | src/main/java/org/example/cli/ArgumentParser.java:65-67 | one step sets innerClasses to the parsed value exactly on --inner-classes |
| ArgumentParser.ParseBoolean | src/main/java/org/example/cli/ArgumentParser.java:66 | `Boolean.parseBoolean`: only a four-character string starting with `t` or `T` can parse as true; "true", "TRUE" and "True" do, and "false", "yes", "1" and "" do not |
| ArgumentParser.CollectInner | src/main/java/org/example/cli/ArgumentParser.java:48-69 | with distinct options, innerClasses is what --inner-classes's value parses to |
| ArgumentParser.ParsedFields | src/main/java/org/example/cli/ArgumentParser.java:35-72 | for arguments that pass `validateOptions`: the four required fields are non-null, each holds the value paired with its option, and innerClasses is true exactly when --inner-classes was given a value equal to "true" ignoring case |
| Schema.SchemaPrimitive.constructor | src/main/java/org/example/json/SchemaPrimitive.java:12-15 | the primitive keeps the given kind, possibly null |
| Schema.PresentOnce | src/main/java/org/example/json/SchemaObject.java:7-21 | a field seen in one sample out of one, and therefore not optional |
| Schema.SchemaObject.constructor | src/main/java/org/example/json/SchemaObject.java:23-27 | a new object has no fields |
| Schema.SchemaArray.constructor | src/main/java/org/example/json/SchemaArray.java:13-20 | a new array has no element types and is not flagged empty |
| Schema.SchemaArray.SetEmpty | src/main/java/org/example/json/SchemaArray.java:26-32 | `isEmpty` then returns the flag that was set; the element types are unchanged |
| Schema.SchemaUnion.constructor | src/main/java/org/example/json/SchemaUnion.java:12-16 | a new union has no variants |
| Schema.SchemaUnion.AddVariant | src/main/java/org/example/json/SchemaUnion.java:19-27 | null is ignored; a union contributes its variants in order and is never added itself; any other node is added unless that very instance is present; a variant list holding no union stays free of unions |
| Schema.FieldSchemas | src/main/java/org/example/json/SchemaObject.java:23-29 | the field schemas of an object, one per field, in key order |
| Schema.RankedJoin | src/main/java/org/example/json/SchemaNode.java:7-20 | two acyclicity rankings of disjoint node sets combine into one, and their footprints add up |
| Schema.FootprintInsert | src/main/java/org/example/json/SchemaNode.java:7-20 | ranking one more node adds exactly that node's object to the footprint |
| JsonAnalyzer.MergeSchemas | src/main/java/org/example/json/JsonAnalyzer.java:72-76 | the merge stub keeps `a` whenever it is present, and returns `b` otherwise |
| JsonAnalyzer.ScalarKind | src/main/java/org/example/json/JsonAnalyzer.java:28-34 | the kind of a scalar node: NUMBER exactly for a number, BOOLEAN exactly for a boolean, NULL exactly for null, STRING for text and for every other node |
| JsonAnalyzer.Analyze | src/main/java/org/example/json/JsonAnalyzer.java:11-16 | a null root gives a NULL primitive; any other root gives a freshly allocated, acyclic schema tree that describes it |
| JsonAnalyzer.Visit | src/main/java/org/example/json/JsonAnalyzer.java:19-35 | the schema built is fresh and acyclic, and it describes the JSON node: a scalar of the matching kind, an object field by field, an array through its first element |
| JsonAnalyzer.VisitObject | src/main/java/org/example/json/JsonAnalyzer.java:37-47 | a new object node with one field per JSON member, keys in order, each present once with the schema of its value |
| JsonAnalyzer.VisitMembers | src/main/java/org/example/json/JsonAnalyzer.java:40-45 | the member loop builds those fields, allocating only fresh nodes ranked below the object |
| JsonAnalyzer.MemberStep | src/main/java/org/example/json/JsonAnalyzer.java:40-45 | the next member's key is not yet a field, so `put` appends it, and the fields still describe the members so far |
| JsonAnalyzer.VisitArray | src/main/java/org/example/json/JsonAnalyzer.java:49-68 | an empty array is flagged empty with no element types; a non-empty one is not flagged and has the first element's schema as its only element type, because the merge stub drops the others |
| JsonAnalyzer.AddFoldResult | src/main/java/org/example/json/JsonAnalyzer.java:61-66 | a union fold result contributes its variants to the element types, and any other result is added itself |
| JsonAnalyzer.DescribesGrow | src/main/java/org/example/json/JsonAnalyzer.java:19-68 | a description stays true when more nodes are ranked |
| JsonAnalyzer.DescribesNoUnion | src/main/java/org/example/json/JsonAnalyzer.java:19-35 | the analyzer never produces a union at the top of what it builds |
| JsonAnalyzer.ObjectRanked | src/main/java/org/example/json/JsonAnalyzer.java:37-47 | a new object node whose fields describe the members can be ranked above them and then describes the object |
| JsonAnalyzer.ArrayRanked | src/main/java/org/example/json/JsonAnalyzer.java:49-68 | a new non-empty array node whose one element type describes the first element can be ranked above it and then describes the array |
| TypeInferencer.NewTypeRef | src/main/java/org/example/json/TypeInferencer.java:34-41 | the import set is copied: a null set gives no imports; otherwise the imports are exactly the given ones, each once, and the given order is kept when there are no repeats |
| TypeInferencer.WithGeneric | src/main/java/org/example/json/TypeInferencer.java:49-53 | `outer<T>`, a list and not an object, with the receiver's imports plus `importFqcn` when that is non-null and non-empty |
| TypeInferencer.Plain | src/main/java/org/example/json/TypeInferencer.java:98-118 | a type with the given name, no imports, neither an object nor a list |
| TypeInferencer.InferPrimitive | src/main/java/org/example/json/TypeInferencer.java:98-118 | STRING gives String, BOOLEAN gives Boolean, NUMBER gives Double, NULL or a null kind gives Object; each in both directions, with no imports |
| TypeInferencer.InferNode | src/main/java/org/example/json/TypeInferencer.java:67-95 | a primitive gets its primitive type; arrays, objects and unions get Object |
| TypeInferencer.InferRecursive | src/main/java/org/example/json/TypeInferencer.java:67-95 | the node's type is returned and entered in the map, and the other entries are unchanged |
| TypeInferencer.RootClassName | src/main/java/org/example/json/TypeInferencer.java:58-65 | a null or blank name becomes "Root"; any other name is kept; the result is never blank |
| TypeInferencer.InferTypes | src/main/java/org/example/json/TypeInferencer.java:58-65 | a null root is an illegal argument; otherwise the map holds exactly the root, with its type |
| NameConverter.Upper | src/main/java/org/example/json/DefaultNameConverter.java:16 | only lower-case letters change, and alphanumerics stay alphanumeric |
| NameConverter.Lower | src/main/java/org/example/json/DefaultNameConverter.java:26 | only upper-case letters change, and alphanumerics stay alphanumeric |
| NameConverter.Tokens | src/main/java/org/example/json/DefaultNameConverter.java:12-14 | the maximal runs of ASCII letters and digits: each token is non-empty and alphanumeric |
| NameConverter.Parts | src/main/java/org/example/json/DefaultNameConverter.java:12-14 | the split gives the tokens, or one empty part when there are none |
| NameConverter.Camel | src/main/java/org/example/json/DefaultNameConverter.java:23-27 | the Pascal form with only its first character lower-cased |
| NameConverter.ToPascalCase | src/main/java/org/example/json/DefaultNameConverter.java:10-20 | null comes back null; any other string comes back in the independently defined Pascal form (the runs kept, each run's first character upper-cased, everything else dropped) |
| NameConverter.ToCamelCase | src/main/java/org/example/json/DefaultNameConverter.java:23-27 | null comes back null; any other string comes back in camel case |
| NameConverter.JoinedFrom | src/main/java/org/example/json/DefaultNameConverter.java:15-18 | one loop step appends the capitalised part, and an empty part is skipped |
| NameConverter.TokensMatchCaps | src/main/java/org/example/json/DefaultNameConverter.java:12-18 | capitalising and joining the tokens equals the character-by-character definition |
| NameConverter.PartsMatchPascal | src/main/java/org/example/json/DefaultNameConverter.java:12-18 | the replace, trim, split and loop pipeline produces the Pascal form |
| NameConverter.CapsAlnum | src/main/java/org/example/json/DefaultNameConverter.java:10-20 | the output holds only ASCII letters and digits |
| NameConverter.CamelAlnum | src/main/java/org/example/json/DefaultNameConverter.java:23-27 | the camel-case output also holds only ASCII letters and digits |
| NameConverter.CapsShorter | src/main/java/org/example/json/DefaultNameConverter.java:10-20 | the output is never longer than the input |
| NameConverter.CapsSeparators | src/main/java/org/example/json/DefaultNameConverter.java:10-20 | an input made only of separators gives "" |
| NameConverter.CapsInRun | src/main/java/org/example/json/DefaultNameConverter.java:10-20 | inside a run, alphanumeric text is copied unchanged |
| NameConverter.PascalIdempotent | src/main/java/org/example/json/DefaultNameConverter.java:10-20 | converting an already converted name changes nothing |
| NameConverter.FirstIsCapital | src/main/java/org/example/json/DefaultNameConverter.java:10-20 | a non-empty result starts with an upper-cased character |
| NameConverter.CapsWord | src/main/java/org/example/json/DefaultNameConverter.java:10-20 | inside a run, a word is copied and the run goes on |
| NameConverter.CapsWordStart | src/main/java/org/example/json/DefaultNameConverter.java:10-20 | a word at the start or after a separator gets its first character upper-cased |
| NameConverter.CapsSeparator | src/main/java/org/example/json/DefaultNameConverter.java:10-20 | a separator is dropped and ends the run |
| NameConverter.SeparatedWord | src/main/java/org/example/json/DefaultNameConverter.java:10-20 | a word followed by a separator comes out with its first character upper-cased, and the text after the separator starts a new run |
| NameConverter.LastWord | src/main/java/org/example/json/DefaultNameConverter.java:10-20 | a word alone comes out with its first character upper-cased and the rest unchanged |
| NameConverter.ExampleSnakeCase | src/test/java/org/example/json/DefaultNameConverterTest.java:11-15 | "profit_rate" becomes "ProfitRate" |
| NameConverter.ExampleSnakeCaseCamel | src/test/java/org/example/json/DefaultNameConverterTest.java:17-21 | "profit_rate" becomes "profitRate" |
| NameConverter.ExampleMixedSeparators | src/test/java/org/example/json/DefaultNameConverterTest.java:23-28 | "user-name id" becomes "UserNameId" |
| NameConverter.ExampleMixedSeparatorsCamel | src/test/java/org/example/json/DefaultNameConverterTest.java:23-28 | "user-name id" becomes "userNameId" |
| ModelGraph.QualifiedNameShape | src/main/java/org/example/json/ModelGraph.java:290-295 | without a package the qualified name is the simple name; with one it is the package, a dot and the simple name |
| ModelGraph.SamePackageNames | src/main/java/org/example/json/ModelGraph.java:290-295 | within one package, two classes share a qualified name exactly when they share a simple name |
| ModelGraph.Graph.DeclaredClasses | src/main/java/org/example/json/ModelGraph.java:211-213 | `getDeclaredClasses`: the map's values, one per entry, in insertion order |
| ModelGraph.Graph.FindClass | src/main/java/org/example/json/ModelGraph.java:219-222 | `findClass`: empty exactly when no entry has that qualified name; a class found is a declared class, and with distinct keys it is the class stored under that name |
| ModelGraph.Graph.Size | src/main/java/org/example/json/ModelGraph.java:227-229 | `size`: the number of declared classes |
| ModelGraph.Names | src/main/java/org/example/json/ModelGraph.java:53-59 | the qualified names of the classes, one per class, in order |
| ModelGraph.Entries | src/main/java/org/example/json/ModelGraph.java:53-59 | the entries `of` puts: each class under its qualified name, in order |
| ModelGraph.EntriesKeysValues | src/main/java/org/example/json/ModelGraph.java:53-59 | the entries' keys are the names and their values are the classes |
| ModelGraph.Of | src/main/java/org/example/json/ModelGraph.java:48-67 | fails exactly when two classes share a qualified name, naming the first repeated name; otherwise the classes are keyed by qualified name in input order, the root is appended only when its name is not yet a key, the keys are distinct, and the root can be found |
| ModelGraph.IndexClasses | src/main/java/org/example/json/ModelGraph.java:53-59 | the loop either puts every class under its name, with distinct keys, or stops at the first name seen twice |
| ModelGraph.KeysOfPrefix | src/main/java/org/example/json/ModelGraph.java:53-59 | after i iterations the map's keys are the first i names |
| ModelGraph.RepeatFound | src/main/java/org/example/json/ModelGraph.java:55-56 | a name that occurred earlier means the names are not distinct |
| ModelGraph.FirstRepeatFound | src/main/java/org/example/json/ModelGraph.java:55-56 | the first name that `containsKey` finds is the first repeated name |
| ModelGraph.NoRepeat | src/main/java/org/example/json/ModelGraph.java:53-59 | a loop that put every name with no hit means the names are distinct |
| ModelGraph.FieldFor | src/main/java/org/example/json/ModelGraph.java:136-151 | the `Field` of one entry: the JSON name is the key, the type name is the `TypeRef`'s Java type, nullable exactly when the field is optional, and the field name is the camel-case key: only letters and digits, not starting with an upper-case letter, and non-empty whenever the key holds a letter or digit |
| ModelGraph.FieldsOf | src/main/java/org/example/json/ModelGraph.java:135-155 | one `Field` per entry of the object's field map, in key order |
| ModelGraph.NamedNestedLast | src/main/java/org/example/json/ModelGraph.java:175-184 | a nested class named by its node's type and not marked root keeps the nested classes so named |
| ModelGraph.NestedInGrow | src/main/java/org/example/json/ModelGraph.java:169-198 | once a nested object is registered it stays registered |
| ModelGraph.BelowRegisteredGrow | src/main/java/org/example/json/ModelGraph.java:135-155 | the objects nested below a node's fields stay registered as more classes are added |
| ModelGraph.RegistryAppend | src/main/java/org/example/json/ModelGraph.java:157-159 | recording a new object's class, after the classes nested below it, keeps every registered class built from its node |
| ModelGraph.ChildStep | src/main/java/org/example/json/ModelGraph.java:186-197 | handling one more element type or variant adds only nodes ranked below the parent and keeps the earlier ones registered |
| ModelGraph.NewKeyAppends | src/main/java/org/example/json/ModelGraph.java:125-127 | a node absent before, and ranked above every node added since, is still absent |
| ModelGraph.NewObjectsFresh | src/main/java/org/example/json/ModelGraph.java:117-198 | the depth-first walk from a node lists only object nodes, none twice, none already registered, none ranked above the start |
| ModelGraph.NewObjectsFromFresh | src/main/java/org/example/json/ModelGraph.java:135-155 | the same for the walks below the children of a node, each ranked below that node |
| ModelGraph.WalkStep | src/main/java/org/example/json/ModelGraph.java:186-197 | after one more child is handled, what is left to register below the later children is unchanged |
| ModelGraph.Advance | src/main/java/org/example/json/ModelGraph.java:186-197 | handling the next child of a loop keeps the registry valid and the earlier children registered, and moves the loop one step through the walk |
| ModelGraph.Finished | src/main/java/org/example/json/ModelGraph.java:186-197 | a loop over all the children registers everything below them, exactly in walk order |
| ModelGraph.BuildClassForNode | src/main/java/org/example/json/ModelGraph.java:117-161 | a node already in `created` returns its class unchanged; a non-object fails with the object-expected error; a field without a type fails; otherwise the class holds one field per entry, in this package, and is recorded last, after the classes nested below its fields; with every node typed it succeeds; the nodes newly registered are exactly those of the walk from the node, in walk order |
| ModelGraph.RegisterNew | src/main/java/org/example/json/ModelGraph.java:157-159 | the new node is not yet a key, so `put` appends its class, which `get` then returns, and the registry stays valid |
| ModelGraph.RegisteredWalk | src/main/java/org/example/json/ModelGraph.java:125-127 | the walk from a node already in `created` registers nothing |
| ModelGraph.RegisterOrder | src/main/java/org/example/json/ModelGraph.java:157-159 | putting a new object after the classes nested below its fields completes its walk |
| ModelGraph.FieldsStep | src/main/java/org/example/json/ModelGraph.java:135-155 | appending one more entry's `Field` keeps the fields matching the entries so far |
| ModelGraph.BuildFields | src/main/java/org/example/json/ModelGraph.java:135-155 | the entry loop yields `FieldsOf` the object's fields, fails exactly when some field schema has no type (when everything is typed it succeeds), and registers the objects nested below the fields, in walk order |
| ModelGraph.BuildField | src/main/java/org/example/json/ModelGraph.java:136-152 | one entry: an untyped field schema fails with the missing-type error; otherwise its `Field` is `FieldFor` the entry, the classes nested below its schema are created, and the loop moves one step through the walk |
| ModelGraph.CreateNestedClassesIfNeeded | src/main/java/org/example/json/ModelGraph.java:169-198 | an object without a type fails; an object gets its class (named by its type, not a root); a primitive changes nothing; every object at or below the schema ends up registered; the nodes newly registered are exactly the depth-first walk `NewObjects` from the schema: field schemas, element types and variants in declaration order, each object after the objects nested below it, registered objects skipped |
| ModelGraph.CreateNestedBelow | src/main/java/org/example/json/ModelGraph.java:186-197 | the loops over the element types and the variants stop at the first failure; on success everything below them is registered, in walk order; with every node typed they succeed |
| ModelGraph.CreateNestedAt | src/main/java/org/example/json/ModelGraph.java:187-196 | one pass of those loops creates the classes nested below one element type or variant and moves the loop one step through the walk |
| ModelGraph.From | src/main/java/org/example/json/ModelGraph.java:77-111 | the four null checks, in order, with their messages; a non-object root fails; an untyped root field fails; with every node typed, `from` succeeds exactly when the created classes have distinct qualified names, and otherwise fails with the first repeated name; on success the root class is built from the root's fields in the package, marked root, recorded last, and the declared classes are exactly those created, in the walk order from the root, with distinct names |
| ModelGraph.BuildGraph | src/main/java/org/example/json/ModelGraph.java:99-110 | the part of `from` after its null checks, with the same outcomes: not an object, untyped, a duplicate name, or the graph of the walk from the root |
| ModelGraph.BuildRoot | src/main/java/org/example/json/ModelGraph.java:99-108 | the root class built with nothing created yet: the not-object and untyped failures, success with every node typed, and then the root class recorded last after its walk |
| ModelGraph.WalkFromNothing | src/main/java/org/example/json/ModelGraph.java:99-108 | starting from an empty `created`, the nodes registered are exactly the walk from the root |
| ModelGraph.OfIncludedRoot | src/main/java/org/example/json/ModelGraph.java:61-66 | when the root class is among the classes, `of` declares exactly those classes |
| ModelGraph.RootOnlyTypesLeaveFieldsUntyped | src/main/java/org/example/json/ModelGraph.java:140-145 | with a type map holding only the root, as `inferTypes` returns it, no field of a root object has a type, so `from` fails on every root object with a field |
| Template.Template.constructor | src/main/java/org/example/generator/Template.java:35-37 | the template keeps the pattern |
| Template.Template.Of | src/main/java/org/example/generator/Template.java:111-113 | a null pattern is refused with its message; otherwise a fresh template holding the pattern |
| Template.Template.Render | src/main/java/org/example/generator/Template.java:60-102 | a null map is refused; otherwise the scan's builder equals the left-to-right rendering of the pattern |
| Template.CopyStep | src/main/java/org/example/generator/Template.java:95-98 | a character that opens no placeholder is copied |
| Template.UnclosedStep | src/main/java/org/example/generator/Template.java:75-79 | a `${` with no later `}` copies the rest from the `$` on |
| Template.PlaceholderStep | src/main/java/org/example/generator/Template.java:70-93 | a placeholder closed by the first `}` renders as its value when the name is a key, and as written otherwise |
| Template.CopyAdvances | src/main/java/org/example/generator/Template.java:95-98 | copying a character that opens no placeholder keeps the builder a prefix of the rendering, one character further on |
| Template.UnclosedAdvances | src/main/java/org/example/generator/Template.java:75-79 | appending the rest after an unclosed `${` makes the builder the whole rendering |
| Template.PlaceholderAdvances | src/main/java/org/example/generator/Template.java:81-94 | appending what a closed placeholder renders as keeps the builder a prefix of the rendering, continuing after the `}` |
| Template.LiteralPrefix | src/main/java/org/example/generator/Template.java:67-99 | text without `$` is copied and rendering goes on after it |
| Template.Placeholder | src/main/java/org/example/generator/Template.java:84-91 | `${name}` renders as its value (null as "") when the name is a key, and stays as written otherwise |
| Template.Unclosed | src/main/java/org/example/generator/Template.java:75-79 | `${` followed by text without `}` is kept as written |
| Template.NoPlaceholder | src/main/java/org/example/generator/Template.java:60-102 | a pattern with no `${` renders unchanged, whatever the map |
| Template.EmptyMapIdentity | src/test/java/org/example/generator/TemplateTest.java:20-26 | with an empty map every pattern renders unchanged |
| Template.SubstitutesValue | src/test/java/org/example/generator/TemplateTest.java:12-18 | "Hello, ${name}!" with name "World" gives "Hello, World!" |
| Template.NullValueIsEmpty | src/test/java/org/example/generator/TemplateTest.java:28-38 | "Value: ${v}" with v null gives "Value: " |
| Template.UnclosedKeepsRest | src/test/java/org/example/generator/TemplateTest.java:40-46 | "Hello, ${name" is kept as written |
| Template.ValueNotRescanned | src/main/java/org/example/generator/Template.java:84-99 | a value that looks like a placeholder is appended as it is and not expanded again |
| CodeFormatter.Format | src/main/java/org/example/generator/CodeFormatter.java:20-24 | a null source is refused with its message; any other source comes back unchanged |
| CodeFormatter.Replace | src/main/java/org/example/generator/CodeFormatter.java:27-28 | `String.replace`: a string where the target does not occur comes back unchanged; a one-character target absent from the replacement is gone afterwards; a replacement as long as the target keeps the length |
| CodeFormatter.NormalizeLineEndings | src/main/java/org/example/generator/CodeFormatter.java:26-29 | the two replacements give the line endings read one at a time: "\r\n", a lone "\r" and "\n" each become one "\n" |
| CodeFormatter.ReplacementsAreLineFeeds | src/main/java/org/example/generator/CodeFormatter.java:26-29 | the two chained replacements equal reading the line endings one at a time ("\r\n", a lone "\r" and "\n" each become "\n") |
| CodeFormatter.LineFeedsNoCarriageReturn | src/main/java/org/example/generator/CodeFormatter.java:26-29 | no '\r' is left |
| CodeFormatter.LineFeedsWithoutCarriageReturn | src/main/java/org/example/generator/CodeFormatter.java:26-29 | text without '\r' is unchanged |
| CodeFormatter.LineFeedsNoLonger | src/main/java/org/example/generator/CodeFormatter.java:26-29 | the output is never longer |
| CodeFormatter.NormalizeNoCarriageReturn | src/main/java/org/example/generator/CodeFormatter.java:26-29 | normalised text holds no '\r' |
| CodeFormatter.NormalizeWithoutCarriageReturn | src/main/java/org/example/generator/CodeFormatter.java:26-29 | text without '\r' is returned unchanged |
| CodeFormatter.NormalizeNoLonger | src/main/java/org/example/generator/CodeFormatter.java:26-29 | normalising never makes the text longer |
| CodeFormatter.NormalizeIdempotent | src/main/java/org/example/generator/CodeFormatter.java:26-29 | normalising twice is normalising once |
| JsonValidator.Unsigned | src/main/java/org/example/json/JsonValidator.java:26-31 | `b & 0xFF` lies in 0..255 and agrees with the byte modulo 256 |
| JsonValidator.HasUtf8Bom | src/main/java/org/example/json/JsonValidator.java:26-31 | true exactly when there are at least three bytes and they start with EF BB BF |
| JsonValidator.StripBom | src/main/java/org/example/json/JsonValidator.java:38-43 | without a mark the very same array is returned; with one, a fresh array three bytes shorter holds the rest; the input is left unchanged |
| JsonValidator.StripAfterBom | src/main/java/org/example/json/JsonValidator.java:38-43 | the mark followed by any bytes strips back to those bytes |
| JsonValidator.StripWithoutBom | src/main/java/org/example/json/JsonValidator.java:38-43 | bytes that do not start with the mark are kept |
| JsonValidator.StripOnlyOnce | src/main/java/org/example/json/JsonValidator.java:38-43 | a doubled mark loses only the first copy |
| JsonValidator.StripShifts | src/main/java/org/example/json/JsonValidator.java:38-43 | with a mark, the result is three bytes shorter and shifted by three |
| JavaText.FoldCase | src/main/java/org/example/cli/ArgumentParser.java:157 | ASCII upper-case letters fold to lower case, and every other character is kept |
| JavaText.IsWhitespace | src/main/java/org/example/cli/ArgumentParser.java:96 | `Character.isWhitespace`: space, tab, line feed and carriage return are whitespace, the no-break spaces are not, and nothing above U+0020 outside U+1680..U+3000 is |
| JavaText.IsBlank | src/main/java/org/example/cli/ArgumentParser.java:96 | `isBlank`: the empty string is blank, and a non-empty one is blank exactly when its first character is whitespace and the rest is blank |
| JavaText.StartsWith | src/main/java/org/example/cli/ArgumentParser.java:87 | `startsWith`: exactly when the string is the prefix followed by the rest; the empty prefix and the string itself always match |
| JavaText.EqualsIgnoreCase | src/main/java/org/example/cli/ArgumentParser.java:157 | `equalsIgnoreCase`: equal strings match, matching strings have the same length, and strings equal position by position up to one side's case folding match |
| JavaText.EqualsIgnoreCaseSymmetric | src/main/java/org/example/cli/ArgumentParser.java:157 | comparing without case does not depend on the order of the two strings |
| JavaText.Pieces | src/main/java/org/example/cli/ArgumentParser.java:130 | the pieces between separators, none holding the separator; with no separator, the whole string |
| JavaText.PiecesJoin | src/main/java/org/example/cli/ArgumentParser.java:130 | joining the pieces with the separator gives the string back |
| JavaText.IndexOf | src/main/java/org/example/generator/Template.java:73 | the first position of the character |
| JavaText.IndexOfFrom | src/main/java/org/example/generator/Template.java:73 | `indexOf(c, from)`: -1 exactly when `c` does not occur at or after `from`; otherwise the first such position |
| JavaText.DropTrailingEmpty | src/main/java/org/example/cli/ArgumentParser.java:130 | a prefix that ends in a non-empty string, with only empty strings dropped after it |
| JavaText.Split | src/main/java/org/example/cli/ArgumentParser.java:130 | no part holds the separator, and a string without the separator is its own only part |
| LinkedCollections.Add | src/main/java/org/example/json/SchemaUnion.java:19-27 | `LinkedHashSet.add`: appends `x` only when it is absent, keeps the order and keeps elements distinct |
| LinkedCollections.AddAll | src/main/java/org/example/json/JsonAnalyzer.java:61-66 | `addAll`: the old elements first, every new element present, nothing else, still distinct |
| LinkedCollections.AddAllFresh | src/main/java/org/example/json/SchemaUnion.java:19-27 | adding distinct new elements appends them in order |
| LinkedCollections.Keys | src/main/java/org/example/json/ModelGraph.java:53-59 | the keys of a linked map, in iteration order |
| LinkedCollections.Values | src/main/java/org/example/json/ModelGraph.java:110 | the values of a linked map, in iteration order |
| LinkedCollections.Get | src/main/java/org/example/json/ModelGraph.java:125-127 | `get`: null exactly for an absent key; otherwise the value stored under that key |
| LinkedCollections.Put | src/main/java/org/example/json/ModelGraph.java:157-159 | `put`: a present key keeps its place and gets the new value, a new key is appended, the keys stay distinct, and `get` then returns the value |

## Left out

- `Main`, `FileWriter`, `ClassGenerator`, `FileValidator` and the file reading in `JsonValidator` are I/O and are not part of this model.
- `FileValidator.validateOutDirectory`, `SourceVersion.isIdentifier` and `SourceVersion.isKeyword` are calls into code outside the core. They are parameters of the model (`ArgumentParser.JavaEnv`), and the directory check gives the message of the exception it would throw.
- `JsonValidator.assertValidAndParse` and Jackson's parsing are not modelled. The analyzer starts from an already parsed tree (`JsonAnalyzer.Json`) whose object keys are distinct.
- `JsonValidator.StripBom`: a null byte array is not modelled; Dafny arrays are never null.
- `ArgumentParser.Parse`: the elements of `args` are taken to be non-null strings.
- ArgumentParserTest's expected exception types are not modelled. The model's `ParseError` tells a `UserException` apart from the directory check's `IllegalArgumentException`.
- The failure messages that append a node (`"...: " + node`) leave the node's `toString` out. Only the constant message text is kept.
- The `toString` methods and `Template.pattern()` are not modelled. The other getters (`isEmpty`, `fields()`, `elementTypes()`, `variants()`, `getRootClass` and the getters of `ModelClass` and `Field`) are the fields of the model's classes and datatypes, or functions over them.
- `TypeInferencer.TypeRef.getRequiredImports` returns an unmodifiable view in Java. In the model, `TypeRef` is an immutable value.
- `JavaText.FoldCase`: `equalsIgnoreCase`, `toUpperCase` and `toLowerCase` fold ASCII letters only. Case folding outside ASCII is not modelled.
- `Schema.FieldInfo.Optional` and `Schema.PresentOnce` are assumed definitions. The Java `optional()` and `presentOnce` they stand for are called but not defined in `SchemaObject`: `optional()` is taken as `presentCount < totalSamples`, and `presentOnce(s)` as `FieldInfo(s, 1, 1)`.
- `ModelGraph.From`: the name converter is fixed to the default converter, as in the four-argument `from`. The null check on a caller-supplied converter is not modelled.
- `ModelGraph.Of`: the `requireNonNull` checks of `of` (ModelGraph.java:49-50), of the private constructor (34-36), of the `ModelClass` constructor (265-268) and of the `Field` constructor (350-352) are not modelled. `from` is the only caller of `of`, and it never passes null: the root class and the values of `created` are built there, and every string and list it passes is a non-null value in the model.
- `ModelGraph.BuildClassForNode`: the `created` map is threaded through by value, not shared by reference. Since nobody else holds the map, no aliasing is lost.
- The loops of `of`, `buildClassForNode`, `visitObject`, `validateOptions`, `validateValues` (its package block) and `parse` are separate methods (`IndexClasses`, `BuildFields`, `VisitMembers`, `OptionNames`, `ValidatePackage`, `Collect`). So are some loop bodies: one entry of `buildClassForNode` (`BuildField`), the loops of `createNestedClassesIfNeeded` and one pass of them (`CreateNestedBelow`, `CreateNestedAt`), and one pair of `validateValues` (`ValidatePair`). The part of `from` after its null checks is `BuildGraph`, and its call of `buildClassForNode` is `BuildRoot`. Their callers keep the same order of effects.
- `ModelGraph.ModelClass.QualifiedName` has no contract of its own; its shape is stated by the lemma `ModelGraph.QualifiedNameShape`.
- `JsonAnalyzer.MergeSchemas` is modelled as the stub it is. Unions of mixed-type arrays, which JsonAnalyzerTest expects, never arise from the code as written.
- The CodeFormatterTest behaviours (trailing-space removal, blank-line collapsing, normalisation inside `format`) are not in the code, so they are not modelled.
- `TypeInferencer.InferRecursive`: the suggested class name and the path are accepted but unused, as in the code. The List, class-name and union-merging types that TypeInferencerTest expects are not in the code.
- `TypeInferencer`'s constructors store a name converter that inference never uses, so they are not modelled.
