# Strong parameters: a verified model of the `StrongParam` filter

`StrongParam` wraps the parameters of a request and filters them by key.

- **Construction.** `new StrongParam(raw)` keeps a key-value mapping as it is. Anything else becomes the empty mapping: null, a number, a string, Infinity.
- **`permit(args...)`** keeps only the keys the arguments name.
- **`except(args...)`** drops the keys the arguments name.
- **Arguments.** Each argument is a key name or a pattern string. `*` stands for any run of characters, and `(a,b,...)` for one of the options. An argument can also be a one-key mapping `{key: [sub...]}`, which filters the sub-mapping under `key`. Several arguments name the union of what each names.
- **Results.** Both calls return a new container and leave the receiver unchanged, so calls chain.

The behaviour is the one the `StrongParam` test suite pins down (`test/tests/strong_param.js`). The implementation of the class is not part of this model. Where the suite is silent, the model makes its own choices, and they are listed under "Left out" below.

The model is pure: datatypes, functions and lemmas.

- `Values` (values.dfy): parameter values, as a tree of `Str`, `Num`, `Arr`, `Obj` (a `map<string, Value>`) and `Other`.
- `Patterns` (pattern.dfy):
  - the pattern language: a compiler from pattern strings to a small pattern datatype, and an anchored matcher;
  - `Render`, which writes a pattern back as text, so that compiling loses nothing.
- `FilterSpec` (filter_spec.dfy): the arguments (`Key(text)` or `Nested(key, sub)`), their validity, and their normal form. The normal form is the compiled matchers of one level plus the nested argument lists per key.
- `TreeFilter` (tree_filter.dfy): `permit` and `except` on mappings, descending into nested mappings.
- `StrongParams` (strong_param.dfy): the container, its two entry points and their general properties.
- `Scenarios` (scenarios.dfy): every test case of the suite as a lemma. Each lemma is proved for every input that has the keys of the test's input, and the test's inputs are shown to have them.

## Model

| member | source | states |
|---|---|---|
| StrongParams.New | test/tests/strong_param.js:139-151 | a mapping is wrapped key for key with every value unchanged; any other value gives a container with no keys |
| Scenarios.ActsLikePlainObject | test/tests/strong_param.js:11-23 | a container built from `{title, name}` holds both keys with the given values |
| Scenarios.NonObjectInputs | test/tests/strong_param.js:139-151 | null/Infinity (`Other`), a string and a number each give a container with zero keys |
| StrongParams.Permit | test/tests/strong_param.js:63-97 | fails exactly when some pattern argument does not compile, with the error `FirstError` reports (the first failing argument in reading order, a modelling choice); otherwise keeps exactly the input keys some argument names, leaves every value without nested arguments unchanged, and only prunes (the value under a nested key is stated by `PermitDescends`) |
| StrongParams.PermitDescends | test/tests/strong_param.js:80-97 | under a key with nested arguments and a mapping value, `permit`'s result holds exactly `permit` of that sub-mapping with the key's sub-arguments, so nested filtering applies at every depth |
| StrongParams.Except | test/tests/strong_param.js:25-61 | fails exactly when some pattern argument does not compile, with the error `FirstError` reports (the first failing argument in reading order, a modelling choice); otherwise keeps exactly the input keys that no argument names or that have nested arguments, leaves every value without nested arguments unchanged, and only prunes (the value under a nested key is stated by `ExceptDescends`) |
| StrongParams.ExceptDescends | test/tests/strong_param.js:44-61 | under a key with nested arguments and a mapping value, `except` keeps the key and its value is exactly `except` of that sub-mapping with the key's sub-arguments, so nested filtering applies at every depth |
| FilterSpec.SubArgs | test/tests/strong_param.js:53 | the sub-arguments for a key are valid and are exactly the sub-arguments of all nested arguments for that key |
| TreeFilter.PermitFields | test/tests/strong_param.js:80-97 | the output keys are the admitted input keys; a key with nested arguments and a mapping value gets the sub-mapping restricted to the keys the nested arguments admit; that sub-mapping is exactly `PermitFields` of it under the normalised nested arguments, at every depth; every other value is unchanged; the output is a pruning of the input |
| TreeFilter.ExceptFields | test/tests/strong_param.js:44-61 | the output keys are the input keys that are not admitted or have nested arguments; a key with nested arguments keeps its place, and a mapping under it is replaced by exactly `ExceptFields` of it under the normalised nested arguments, at every depth; every other value is unchanged; the output is a pruning of the input |
| TreeFilter.PermitIdempotent | test/tests/strong_param.js:63-97 | permitting an already permitted mapping again, at any depth, changes nothing |
| TreeFilter.ExceptIdempotent | test/tests/strong_param.js:25-61 | excepting an already excepted mapping again, at any depth, changes nothing |
| TreeFilter.PermitExceptPartition | test/tests/strong_param.js:25-78 | without nested arguments, the permit and except outputs have disjoint keys and together are the input mapping |
| StrongParams.PermitTwice | test/tests/strong_param.js:63-97 | `c.permit(args).permit(args) == c.permit(args)` |
| StrongParams.ExceptTwice | test/tests/strong_param.js:25-61 | `c.except(args).except(args) == c.except(args)` |
| StrongParams.PermitExceptComplement | test/tests/strong_param.js:25-78 | for string arguments only, `permit` and `except` split the container: disjoint key sets whose union, with values, is the original mapping |
| StrongParams.PermitUnion | test/tests/strong_param.js:129 | a key is kept by `permit(a..., b...)` exactly when `permit(a...)` or `permit(b...)` keeps it |
| StrongParams.NoArguments | test/tests/strong_param.js:25-42 | `except()` returns the container unchanged; `permit()` returns the empty container |
| StrongParams.PermitLiterals | test/tests/strong_param.js:72 | `permit` with key names is the restriction of the mapping to those names |
| StrongParams.ExceptLiterals | test/tests/strong_param.js:34 | `except` with a list of key names returns the input mapping with exactly those keys removed and every other key and value kept |
| StrongParams.ExceptOneKey | test/tests/strong_param.js:34 | `except(t)` with one key name `t` is the mapping minus `t` |
| StrongParams.LiteralKeysName | test/tests/strong_param.js:34 | a list of key names is valid, names exactly its own members, and nests under no key |
| StrongParams.PermitNested | test/tests/strong_param.js:89 | `permit({q: sub})` is empty without `q`, else keeps only `q`, with its sub-mapping permitted by `sub` when it is a mapping and kept whole otherwise |
| StrongParams.ExceptNested | test/tests/strong_param.js:53 | `except({q: sub})` keeps every key, `q` included, and replaces only a mapping under `q` by its `except(sub)` |
| StrongParams.NestedSingle | test/tests/strong_param.js:53 | the normal form of one nested argument `{q: sub}` is the exact matcher of `q` plus `sub` as the nested arguments of `q` and of no other key |
| StrongParams.PermitOneNested | test/tests/strong_param.js:89 | the tree filter under that normal form keeps only `q`, with a mapping under it permitted by `sub` and any other value kept whole |
| StrongParams.ExceptOneNested | test/tests/strong_param.js:53 | the tree filter under that normal form keeps every key and replaces only a mapping under `q` by its except under `sub` |
| StrongParams.NormalizeMeaning | test/tests/strong_param.js:129 | for every key, the normal form admits it iff some argument names it, and has nested arguments for it iff some argument nests under it |
| FilterSpec.FirstError | test/tests/strong_param.js:129 | an argument tree has no error exactly when every pattern string in it, at any depth, compiles |
| FilterSpec.FirstErrorIsFirst | test/tests/strong_param.js:129 | an error reported for an argument list is the error of an argument all of whose predecessors are valid, so it is the first failing argument in reading order (a modelling choice, no test covers it) |
| FilterSpec.SpecError | test/tests/strong_param.js:129 | one argument has no error exactly when it is valid; a nested argument reports the first error of its sub-arguments (a modelling choice, no test covers it) |
| FilterSpec.Normalize | test/tests/strong_param.js:129 | one matcher per argument, and the collected nested argument lists are themselves valid |
| FilterSpec.NormalizeAdmits | test/tests/strong_param.js:129 | the normal form admits a key exactly when some argument of the list names it (union of the arguments) |
| FilterSpec.NormalizeNested | test/tests/strong_param.js:53 | a key has nested arguments exactly when some argument is a nested argument for it, and such a key is always admitted, so a nested argument never drops its own key |
| FilterSpec.NormalizeNestedArgs | test/tests/strong_param.js:53 | the nested arguments collected for a key are exactly the sub-arguments of all nested arguments for that key |
| FilterSpec.ValidAppend | test/tests/strong_param.js:129 | two valid argument lists make a valid list together |
| Patterns.CompileKey | test/tests/strong_param.js:34 | an argument without `*` and `(` always compiles, to a matcher of exactly itself; any other argument is compiled as a pattern |
| Patterns.Compile | test/tests/strong_param.js:99-137 | a compiled pattern has at most one segment per character and is empty exactly for the empty string; its meaning is fixed by `RenderCompile`, `CompileRender` and `CompileWellFormed` (a bijection between the strings it accepts and well-formed patterns) and by the `Compile…` lemmas for `pre*` and `pre(w1,w2)` |
| Patterns.Matches | test/tests/strong_param.js:99-137 | no contract of its own: it is the definition of a pattern matching the whole key, anchored at both ends; `PrefixStar`, `PrefixGroup` and `EscapeExact` state what it means for each kind of pattern |
| Patterns.GlobMatch | test/tests/strong_param.js:99-137 | no contract of its own: it is the definition of one group option matching a whole piece of the key; `LitGlobExact` and `SingleGroupMatch` state what it means |
| Patterns.Escape | test/tests/strong_param.js:99-137 | no contract of its own: the pattern of a key name taken literally; `EscapeExact` states that it matches exactly that key |
| Patterns.KeyNameMatcher | test/tests/strong_param.js:34 | the escaped form of a key name matches exactly that key, and agrees with the compiler on text without parentheses |
| Patterns.EscapeExact | test/tests/strong_param.js:34 | an escaped key matches exactly that key, whatever characters it holds |
| Patterns.EscapePrefix | test/tests/strong_param.js:109 | an escaped prefix in front of a pattern matches exactly the strings that start with the prefix and whose rest the pattern matches |
| Patterns.PrefixStar | test/tests/strong_param.js:109 | `pre*` matches exactly the keys that start with `pre` |
| Patterns.StarMatchesAll | test/tests/strong_param.js:109 | a lone `*` matches every key, the empty one included |
| Patterns.PrefixGroup | test/tests/strong_param.js:129 | `pre(w0,w1,...)` with literal options matches exactly the keys `pre + wj` |
| Patterns.SingleGroupMatch | test/tests/strong_param.js:129 | a pattern made of one group matches exactly what one of its options matches |
| Patterns.LitGlobExact | test/tests/strong_param.js:129 | a literal option matches exactly its own text |
| Patterns.CompileLiteralPrefix | test/tests/strong_param.js:129 | literal text in front of a pattern string compiles to its escaped form in front of what the rest compiles to, errors included |
| Patterns.CompileLiteral | test/tests/strong_param.js:34 | text without `*` and parentheses compiles to its exact-match pattern |
| Patterns.CompilePrefixStar | test/tests/strong_param.js:109 | `pre*` with literal `pre` compiles to the escaped prefix followed by the wildcard |
| Patterns.CompilePrefixGroup | test/tests/strong_param.js:129 | `pre(w1,w2)` with literal `pre` and plain words compiles to the escaped prefix followed by one group with the two literal options |
| Patterns.CompileTwoOptions | test/tests/strong_param.js:129 | `(w1,w2)` compiles to one group with the two literal options |
| Patterns.ParseGlob | test/tests/strong_param.js:129 | reading one option stops at the end or at `,`, `(` or `)`, and never lengthens the text |
| Patterns.ParseGroupBody | test/tests/strong_param.js:129 | a group that is read has at least one option and consumes at least its `)`; reading a group never reports a stray `)` |
| Patterns.ParseGlobSplits | test/tests/strong_param.js:129 | reading one option of a group loses nothing: the option's text followed by the remaining text is the input again |
| Patterns.ParseGroupBodySplits | test/tests/strong_param.js:129 | reading the options of a group loses nothing: the options' text, the closing `)` and the remainder are the input again |
| Patterns.RenderCompile | test/tests/strong_param.js:99-137 | whenever a pattern string compiles, writing the result back gives the very string (compile is injective on the strings it accepts) |
| Patterns.CompileRender | test/tests/strong_param.js:99-137 | every well-formed pattern is written as a string that compiles back to it |
| Patterns.CompileWellFormed | test/tests/strong_param.js:99-137 | every pattern a string compiles to is well-formed, so with the two round trips compiling is a bijection between accepted strings and well-formed patterns |
| Patterns.ParseGlobPlain | test/tests/strong_param.js:129 | every character of an option that is read may stand in a group |
| Patterns.ParseGroupBodyPlain | test/tests/strong_param.js:129 | every character of every option of a group that is read may stand in a group |
| Patterns.ParseGlobRender | test/tests/strong_param.js:129 | an option written out and followed by an end-of-option character is read back as that option |
| Patterns.ParseGroupBodyRender | test/tests/strong_param.js:129 | a list of options written out with commas and a closing `)` is read back as that list |
| Patterns.LitGlobRender | test/tests/strong_param.js:129 | a plain word is written back as itself from its literal option, and every character of that option may stand in a group |
| Patterns.ParseGlobLiteral | test/tests/strong_param.js:129 | a plain word followed by the end or by `,`, `(` or `)` is read as the literal option of that word |
| Scenarios.NameArgument | test/tests/strong_param.js:34 | the argument `'name'` is valid, names only `name`, and nests under no key |
| Scenarios.ExceptTopLevel | test/tests/strong_param.js:25-42 | `except('name')` keeps `title` and `query`, drops `name`, and leaves `query` (with its `name` and `task`) unchanged |
| Scenarios.ExceptSubLevel | test/tests/strong_param.js:44-61 | `except({query: ['name']})` keeps `title`, `name`, `query`, and inside `query` drops `name` and keeps `task` |
| Scenarios.PermitTopLevel | test/tests/strong_param.js:63-78 | `permit('name')` keeps `name` with its value and drops `title` and `query` |
| Scenarios.PermitSubLevel | test/tests/strong_param.js:80-97 | `permit({query: ['name']})` keeps only `query`, and inside it `name` but not `task` |
| Scenarios.ArticleShape | test/tests/strong_param.js:27-34 | the suite's first input has `title`, `name` and a mapping `query` holding `name` and `task` |
| Scenarios.FiltersShape | test/tests/strong_param.js:101-107 | the suite's query-operator input has the keys `name__gte`, `name__in`, `name__like`, `age`, `hello` |
| Scenarios.PermitTwoLevels | test/tests/strong_param.js:80-97 | `permit({a: [{b: leaf}]})` keeps only `a`, inside it only `b`, and inside that exactly what `leaf` permits: nested arguments act two levels down |
| Scenarios.PermitOneKey | test/tests/strong_param.js:89 | permitting one key name keeps that key and drops every other key |
| Scenarios.StarArgument | test/tests/strong_param.js:109 | an argument `pre*` with literal `pre` is valid and names exactly the keys starting with `pre` |
| Scenarios.NameStarArgument | test/tests/strong_param.js:109 | the argument `'name*'` names exactly the keys that start with `name` |
| Scenarios.PermitStar | test/tests/strong_param.js:99-117 | `permit('name*')` keeps `name__gte`, `name__in`, `name__like` and drops `age` and `hello` |
| Scenarios.GroupArgument | test/tests/strong_param.js:129 | an argument `pre(w1,w2)` with literal `pre` and plain words is valid and names exactly `pre + w1` and `pre + w2` |
| Scenarios.GroupThenKey | test/tests/strong_param.js:129 | a group argument followed by a key name `h` names exactly the group's two keys and `h` |
| Scenarios.AlternationArguments | test/tests/strong_param.js:129 | `'name__(gte,in)', 'hello'` are valid and name exactly `name__gte`, `name__in` and `hello` |
| Scenarios.PermitAlternation | test/tests/strong_param.js:119-137 | `permit('name__(gte,in)', 'hello')` keeps `name__gte`, `name__in`, `hello` and drops `name__like` and `age` |
| Scenarios.MalformedPatterns | test/tests/strong_param.js:129 | a modelling choice for a malformed argument to the call at :129, which no test covers: an unclosed group, a group inside a group and a stray `)` after a `*` make `permit`/`except` fail with that error instead of returning a container |
| Scenarios.KeyError | test/tests/strong_param.js:129 | a modelling choice for a malformed argument to the call at :129, which no test covers: a single argument that does not compile makes both entry points fail with its error |
| Scenarios.SecondKeyError | test/tests/strong_param.js:129 | a modelling choice for a malformed argument to the call at :129, which no test covers: when the first argument compiles, the error of the second is the one reported |
| Scenarios.CloseInKeyName | test/tests/strong_param.js:34 | `except('name)')` is the mapping minus the key `name)`: a `)` in a key name is an ordinary character |

## Left out

- The implementation of `StrongParam` is not part of this model. The model follows the test suite; everything the suite leaves open is a modelling choice listed here.
- JavaScript object semantics are not modelled: own properties, prototypes, and data exposed as fields of the container. The container is a wrapper around a `map<string, Value>`.
- Floating-point values and `Infinity` are not modelled; they are the opaque `Other`. Only "mapping or not" matters to the filter.
- Key insertion order is not modelled: a Dafny `map` has none, and the suite checks only presence and absence.
- Arrays are opaque and are not filtered into. A nested argument on an array value leaves it unchanged. An array passed to the constructor gives the empty container, like any other non-mapping value.
- A mapping argument with several keys is not modelled separately. It means the same as several one-key arguments, and `Nested(key, sub)` is the one-key form.
- The regular-expression engine is replaced by the small anchored matcher of `Patterns`. The suite leaves three points open, and the model chooses:
  - a pattern matches the whole key;
  - characters other than `*`, `(`, `)` and `,` always match literally;
  - group options may hold `*` but not another group.
- Malformed patterns are modelled as one of three errors, as a modelling choice: `UnclosedGroup`, `NestedGroup` or `UnmatchedClose`. The suite has no error case. The first failing argument, in reading order at any depth, is reported, and no container is produced.
- An argument without `*` and `(` is treated as a key name and matched exactly, so a `)` or `,` in it is literal. This is a modelling choice.
- StrongParams.Permit, StrongParams.Except: their own contracts describe the value under a nested key only as a pruning of the input value. The exact recursive result is stated by `PermitDescends` and `ExceptDescends` (and, for the tree filter, by the contracts of `PermitFields` and `ExceptFields`). A recursive clause in the entry points' own contracts would make the solver unfold it once per level for every caller.
- `except` keeps a key that has nested arguments, even when a plain string argument also names it; `permit` descends into it. Nested arguments given several times for the same key add up.
- Validation, compilation and filtering are described as pure values. The shallow copy at construction, and the freedom to mutate the raw input afterwards, coincide with value semantics in Dafny and are not stated separately.
