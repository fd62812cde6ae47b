# node-pbac in Dafny

A model of the policy-based access control engine of node-pbac: AWS-IAM-style
policies (statements with `Effect`, `Principal`/`NotPrincipal`,
`Action`/`NotAction`, `Resource`/`NotResource` and `Condition` blocks)
evaluated against a request. A request is allowed when no applicable `Deny`
statement exists and some `Allow` statement applies.

The model covers three source files.

- `conditions.js` is the table of condition operators: 28 base operators,
  each with an `IfExists`, a `ForAllValues:` and a `ForAnyValue:` variant.
  - `conditions.dfy` holds the base operators.
  - `pattern.dfy` holds the wildcard matcher behind StringLike and ArnLike.
  - `registry.dfy` holds the finished table: names, lookup and the variants.
- `pbac.js` is the current engine (`Pbac` module in `pbac.dfy`).
  - The `PBAC` class holds the policy list. Its `Add` method appends to it.
  - Statement matching and the decision are functions.
  - `context.dfy` holds context lookup and `${namespace:name}` interpolation.
- `index.js` is the earlier engine (`Legacy` module in `legacy.dfy`), with its
  own `Engine` class. It differs from `pbac.js` in ways the lemmas spell out:
  - every statement is tested on `Resource`;
  - `Action`, `NotAction` and `Resource` entries are matched with the
    REQUEST as the pattern;
  - condition operators get the policy value first;
  - a `conditions` option replaces the built-in table;
  - nothing is validated.

Shared modules:
- `js_value.dfy`: JavaScript values, truthiness, property reads.
- `finds.dfy`: `find` and `every`, with and without callbacks that throw.
- `results.dfy`: `Result` and `Option`.

Everything JavaScript throws is an `Err` result, for example:
- reading a property of `undefined` or `null`;
- `find` on a non-array;
- `replace` on a non-string resource;
- calling an operator name the table lacks.

What the engines borrow from the host is passed in as a `Host` value:
- `Date` parsing;
- `ip-range-check`;
- `toLowerCase`;
- Node's `Buffer` comparison.

Schema validation is passed in as a `Validator` value.

Where the code departs from the policy language it imitates, the model
follows the code:
- `NotPrincipal` excludes a request when, for some principal type, EVERY
  principal the statement lists is among the request's identifiers
  (`ForAllValues:StringEquals`, pbac.js:127-131). In AWS IAM a request is
  excluded by `NotPrincipal` as soon as it matches ANY listed principal.
- `index.js` does not treat a statement without `Action`/`NotAction` or
  without `Resource` as matching everything. The first never applies and
  the second throws.
- A matched policy value that is falsy (`false`, `0`, `""`, `null`) never
  counts (pbac.js:166). So `Null: false` never holds in a Condition.
- Two operator calls throw where the code evidently means to answer (see
  "## Findings"). The engines model the calls as written, and the intended
  answer is defined and proved beside them.
- Tests that expect otherwise are not turned into properties:
  - Bool accepting the strings "true"/"false";
  - null and "" matches, and interpolation of condition values;
  - a wildcard in a context value matching under `index.js`.

## Model

| member | source | states |
|---|---|---|
| JsValue.Lookup | pbac.js:117-118 | a property read yields a value the object holds under that key, or undefined |
| JsValue.LookupDistinct | pbac.js:117-118 | in an object with distinct keys each property is what its key reads |
| JsValue.Keys | pbac.js:128 | `Object.keys` lists every own key, in order |
| JsValue.Get | pbac.js:117 | reading a property throws exactly on undefined and null; an object yields what its key holds; anything else yields undefined unless the name is `length` or starts with a digit |
| JsValue.IndexRead | pbac.js:117 | an array read under the decimal text of an index yields that element, a string read the one-character string there |
| JsValue.NatTextInjective | pbac.js:117 | distinct indices have distinct decimal texts |
| JsValue.OwnKeys | pbac.js:128 | `Object.keys` throws exactly on undefined and null and lists an object's keys |
| JsValue.Wrap | pbac.js:144 | an array is kept, anything else becomes a one-element list |
| Finds.FindIndex | pbac.js:139-141 | `find` stops at the first element its callback accepts, and finds nothing iff none is accepted |
| Finds.FindIndexIsFirst | pbac.js:139-141 | an accepted element after only rejected ones is where `find` stops |
| Finds.Every | conditions.js:159-163 | `every` holds iff the callback holds for every element |
| Finds.FindR | pbac.js:89-108 | with a throwing callback: the first acceptance, no acceptance iff all reject, or the first exception before any acceptance |
| Finds.EveryR | pbac.js:153-168 | with a throwing callback: true iff all accept; false and exceptions come from the first element that is not accepted |
| Finds.FindROfTotal | pbac.js:89-108 | a callback that never throws makes the throwing `find` the plain one |
| Finds.EveryROfTotal | index.js:60-62 | a callback that never throws makes the throwing `every` the plain one |
| Finds.FindRPrefix | pbac.js:89-108 | what `find` decides within a prefix it decides for any extension |
| Finds.FindRAt | pbac.js:89-108 | `find` stops at an accepted element preceded only by rejections |
| Pattern.Compile | conditions.js:136-139 | a pattern is translated one character to one regular-expression token |
| Pattern.RenderCompile | conditions.js:136-139 | escaping loses nothing: the pattern can be read back from its translation |
| Pattern.CompiledMeansGlob | conditions.js:134-141 | the anchored regular expression matches exactly the texts the wildcard pattern describes (`*` any run, `?` one character, no line terminators; no colon in ARN mode) |
| Pattern.LiteralGlob | conditions.js:136-139 | a pattern without `*` or `?` matches only itself |
| Pattern.StarGlob | conditions.js:138 | a lone `*` matches exactly the texts made of characters a star may consume |
| Pattern.ArnGlobIsPlainGlob | conditions.js:94 | ARN matching is StringLike matching with stars kept from crossing colons |
| Conditions.NumericSemantics | conditions.js:16-39 | numeric operators need two numbers; the NotEquals/…Equals forms are the negations of Equals, LessThan and GreaterThan |
| Conditions.DateSemantics | conditions.js:40-69 | an unparsable date makes every date operator false; otherwise they compare the parsed times |
| Conditions.StringEqualitySemantics | conditions.js:118-133 | string equality operators need two strings; IgnoreCase compares lower-cased texts |
| Conditions.BoolAndNullSemantics | conditions.js:108-111 | Null(a, true) iff a is undefined, Null(a, false) iff defined (null counts as defined), non-boolean b is false; Bool (lines 146-149) is boolean equality |
| Conditions.IpAddressSemantics | conditions.js:112-117 | NotIpAddress is the negation of IpAddress; a falsy range becomes "" |
| Conditions.BinarySemantics | conditions.js:76-87 | Binary operators are false unless b is a string and a a buffer, then compare with the base64 decoding |
| Conditions.StringLikeMeaning | conditions.js:134-141 | StringLike(a, b) iff b is a string whose wildcard pattern matches the text of a |
| Conditions.ArnLikeMeaning | conditions.js:90-97 | ArnLike(a, b) iff b is a string whose pattern matches with stars not crossing colons |
| Conditions.NotLikeSemantics | conditions.js:98-107 | the NotLike forms are false on a non-string b and the negation otherwise; ArnEquals is ArnLike; ArnNotEquals as written throws on a string b, is false otherwise, and never holds |
| Conditions.NotLikeOnTable | conditions.js:98-101 | a NotLike function called as a method of the table throws exactly on a string b, and is false otherwise |
| Conditions.ArnNotEquals | conditions.js:105-107 | as written: throws exactly on a string b, and otherwise agrees with ArnNotLike |
| Conditions.ArnNotEqualsIntended | conditions.js:102-107 | as intended: on a string b the negation of ArnEquals, false otherwise |
| Conditions.ArnNotEqualsDiscrepancy | conditions.js:105-107 | for a literal ARN pattern, as written both an equal and a different ARN throw; as intended the equal one is false and the different one true |
| Conditions.LiteralPatternIsEquality | conditions.js:134-141 | a pattern without wildcards is string equality |
| Conditions.LoneStar | conditions.js:134-141 | `*` matches any text without line terminators (even "undefined"); in ARN mode any text without colons |
| Conditions.ArnLikeRefinesStringLike | conditions.js:90-97 | on texts without line terminators ArnLike implies StringLike, and on texts without colons the converse |
| Registry.ByName | conditions.js:15-150 | a base operator found under a name is the one with that name |
| Registry.NameIsFound | conditions.js:15-150 | every base operator is found under its own name |
| Registry.DecoratedIsFound | conditions.js:152-174 | each derived name (`IfExists` suffix, quantifier prefix) finds its base operator and variant |
| Registry.FoundIsDecorated | conditions.js:152-174 | every name the table resolves is a base name, decorated in one of the four ways |
| Registry.TableIsDerived | conditions.js:152-174 | name and (operator, variant) are in one-to-one correspondence |
| Registry.MatchedByMeaning | conditions.js:160-162 | a request value is matched iff the first policy value the operator accepts is truthy |
| Registry.IfExistsSemantics | conditions.js:153-156 | `OpIfExists` holds on undefined and is `Op` otherwise |
| Registry.QuantifierBoundaries | conditions.js:157-172 | a scalar request value is its one-element list; an empty list makes ForAllValues true and ForAnyValue falsy |
| Registry.CallBase | conditions.js:153-172 | a base operator's call throws exactly for ArnNotEquals on a string policy value, and otherwise answers as the operator's semantics |
| Registry.ArnNotEqualsNeverHolds | conditions.js:105-107 | ArnNotEquals and its IfExists form on a defined value throw on a string policy value and are false on any other |
| Registry.MatchedTotal | conditions.js:160-162 | when no policy value throws, the inner `find` is the match of MatchedBy |
| Registry.MatchedThrows | conditions.js:160-162 | under ArnNotEquals a string policy value makes the inner `find` throw, since no value before it is accepted |
| Registry.ForAllValuesMeaning | conditions.js:157-164 | ForAllValues holds iff every request value is matched; a non-array policy value throws, and so does a string policy value under ArnNotEquals once there is a request value |
| Registry.ForAnyValueMeaning | conditions.js:165-172 | ForAnyValue is truthy iff the first matched request value is itself truthy; a non-array policy value throws, and so does a string policy value under ArnNotEquals once there is a request value |
| Registry.StringEqualsMatchedBy | conditions.js:118-121 | under StringEquals a value is matched iff it is a non-empty string among the policy values |
| Registry.ForAnyStringEquals | conditions.js:165-172 | `ForAnyValue:StringEquals` is truthy iff the two lists share a non-empty string |
| Registry.ForAllStringEquals | conditions.js:157-164 | `ForAllValues:StringEquals` holds iff every request value is a non-empty string among the policy values |
| Context.Before | pbac.js:116 | the text before the first colon is a colon-free prefix ended by a colon or the end |
| Context.KeySplit | pbac.js:116-117 | `ns:attr` and `ns:attr:more` read namespace `ns` and attribute `attr`; a key without a colon reads the attribute "undefined" |
| Context.ContextValue | pbac.js:115-120 | the lookup throws exactly on an undefined or null context and never yields undefined |
| Context.ContextValueMeaning | pbac.js:115-120 | `ns:attr` yields the defined value under `ns`/`attr` of a plain-object namespace, else the key itself |
| Context.IndexedContextValue | pbac.js:115-120 | on an array context, `i:attr` reads the attribute of element `i` (else the key); on a string context it yields the key |
| Context.CloseFrom | pbac.js:111 | the lazy `(.+?)` stops at the first `}` with no line terminator before it |
| Context.PlaceholderEnd | pbac.js:111 | a placeholder is `${`, at least one character, and the first `}` |
| Context.Interpolate | pbac.js:110-114 | interpolation throws only on an undefined or null context |
| Context.NoPlaceholder | pbac.js:110-114 | a text without `$` is left unchanged |
| Context.PlaceholderStep | pbac.js:110-114 | a placeholder at the front becomes the text of its context value, and a throwing lookup aborts |
| Context.OnePlaceholder | pbac.js:110-114 | `pre${key}post` becomes `pre` + the text of the context value of `key` + `post` |
| Pbac.Resolve | pbac.js:21 | built-in operators win over the caller's of the same name; unknown names resolve to nothing |
| Pbac.Field | pbac.js:67-72 | an own property of the options overrides the default, even when set to undefined |
| Pbac.RequestOf | pbac.js:67-72 | building the request throws exactly when no options are given |
| Pbac.RequestDefaults | pbac.js:67-72 | defaults are "", "", `{}` and `variables` (else `{}`) as the context |
| Pbac.Statements | pbac.js:89-91 | every statement comes from some policy's `Statement`, spread one level |
| Pbac.StatementsAppend | pbac.js:89-91 | the statements of appended policies are appended |
| Pbac.EvaluatePrincipal | pbac.js:132-137 | throws on an undefined or null request principal; passing needs a principal type that matches |
| Pbac.PrincipalMeaning | pbac.js:132-137 | with non-empty identifier lists, Principal passes iff for some type the statement lists one of the request's identifiers (`principals[type]` read as JavaScript reads it, indices of strings and arrays included) |
| Pbac.IndexedPrincipal | pbac.js:135 | a string Principal is read by index: a request type `i` whose identifier is the character at `i` meets it |
| Pbac.EmptyPrincipalNeverMatches | pbac.js:134 | an empty identifier list never matches |
| Pbac.EvaluateNotPrincipal | pbac.js:127-131 | throws on an undefined or null request principal; excluding needs a matching principal type |
| Pbac.NotPrincipalMeaning | pbac.js:127-131 | NotPrincipal excludes iff for some type every principal the statement lists is among the request's identifiers (`principals[type]` read as JavaScript reads it) |
| Pbac.IndexedNotPrincipal | pbac.js:129 | an array NotPrincipal is read by index: a request type `i` listing the string element at `i` is excluded |
| Pbac.EvaluateAction | pbac.js:138-142 | throws iff the actions are not an array; passing needs an action pattern matching the request action |
| Pbac.ActionMeaning | pbac.js:138-142 | with non-empty string patterns, Action holds iff one pattern matches the request action |
| Pbac.ActionWildcard | pbac.js:138-142 | `"*"` admits every action without line terminators |
| Pbac.ResourceMatches | pbac.js:145-148 | a non-string resource entry throws |
| Pbac.EvaluateResource | pbac.js:143-149 | passing needs a non-empty string entry that, interpolated, matches the request resource |
| Pbac.ResourceMeaning | pbac.js:143-149 | with non-empty entries without `$`, Resource holds iff one entry matches the request resource |
| Pbac.ResourceVariable | pbac.js:143-149 | a `${key}` placeholder is replaced by the text of its context value before matching |
| Pbac.QuantifiedNames | pbac.js:159-163 | the quantified variants are recognised by their prefix |
| Pbac.EvaluateCondition | pbac.js:150-169 | a non-object Condition holds; otherwise it holds iff every operator holds |
| Pbac.SingleOperatorBlock | pbac.js:153-154 | a block with one operator is that operator's outcome |
| Pbac.SingleContextKey | pbac.js:154-167 | the first context key's value and the wrapped policy values go to the operator |
| Pbac.OneOperatorCondition | pbac.js:165-167 | an unquantified operator over truthy policy values holds iff it holds of the context value and one policy value, when no call throws; a throwing call makes the Condition throw |
| Pbac.UnquantifiedOperator | pbac.js:166 | when no call throws, an unquantified operator holds iff some policy value satisfies it; a call that throws (ArnNotEquals on a string) makes it throw |
| Pbac.QuantifiedCondition | pbac.js:163-164 | a quantified operator gets the context value and the whole policy list |
| Pbac.UnknownOperator | pbac.js:164-166 | an unknown operator throws once reached; over an empty list it is not reached and fails |
| Pbac.EmptyExpressionThrows | pbac.js:155-156 | an operator without a context key throws |
| Pbac.ScalarPolicyValue | pbac.js:157 | a single policy value counts as a one-element list |
| Pbac.FalsyValuesNeverCount | pbac.js:166 | an unquantified operator whose policy values are all falsy never holds |
| Pbac.NullTrueNeverHolds | pbac.js:115-120 | the context value is never undefined, so `Null: true` never holds |
| Pbac.NullFalseNeverHolds | pbac.js:115-120 | `Null: false` is satisfied by every context value, but the matched policy value false is falsy, so it never holds |
| Pbac.BuiltinsWin | pbac.js:21 | a caller's operator never replaces a built-in one |
| Pbac.Applies | pbac.js:92-107 | a statement applies only with the asked effect and every check passing; an undefined or null statement throws |
| Pbac.FilterPoliciesBy | pbac.js:88-109 | nothing is found iff every statement is rejected without throwing |
| Pbac.FilterMeaning | pbac.js:88-109 | something is found iff a statement applies before any throws |
| Pbac.DecisionMeaning | pbac.js:66-87 | allowed iff no Deny statement applies (none throwing) and an Allow statement applies first |
| Pbac.DenyOverrides | pbac.js:73-79 | an applicable Deny statement denies, whatever Allow says |
| Pbac.DefaultDeny | pbac.js:80-86 | without an applicable Allow nothing is allowed; no policies deny every request |
| Pbac.DenyPersists | pbac.js:73-79 | adding policies after an applicable Deny cannot allow |
| Pbac.AbsentClausePasses | pbac.js:94-105 | a check the statement leaves out passes |
| Pbac.AbsentClausesImposeNothing | pbac.js:93-106 | a statement with only an effect applies to every request of that effect and to none of another |
| Pbac.EffectOnlyStatement | pbac.js:93-106 | `{Effect: e}` applies to every request for effect `e` |
| Pbac.BoolOption | pbac.js:24-25 | a non-boolean option defaults to true |
| Pbac.PBAC.constructor | pbac.js:23-27 | a new evaluator holds no policies and its options |
| Pbac.PBAC.Validate | pbac.js:55-65 | validation succeeds iff every policy is valid |
| Pbac.PBAC.Add | pbac.js:35-39 | appends the policies, or with validation on and an invalid policy throws and changes nothing; only valid policies are held |
| Pbac.PBAC.Evaluate | pbac.js:66-87 | the decision over the held policies; without policies nothing is allowed |
| Pbac.Create | pbac.js:19-32 | construction fails iff the schema or a policy is invalid under validation; otherwise it holds exactly the given policies |
| Legacy.Lookup | index.js:20 | with the built-in table lookup is the built-in one; a caller's table holds only its own names |
| Legacy.CallNamed | index.js:57-62 | calling a name the table lacks throws |
| Legacy.Members | index.js:57-62 | lodash walks an array's elements, a string's characters, an object's values, and nothing else |
| Legacy.RequestOf | index.js:31-35 | without options the request is "", "" and `{}` |
| Legacy.ResourceMatches | index.js:80-83 | a non-string resource entry throws |
| Legacy.EvaluateResource | index.js:78-84 | a statement without Resource throws |
| Legacy.FirstEntry | index.js:89-92 | an object's first property is read; nothing for empty or non-collection expressions |
| Legacy.ConditionCall | index.js:93-95 | an unknown operator or a missing context key throws |
| Legacy.EvaluateCondition | index.js:85-97 | a non-object Condition holds; otherwise it holds iff every operator holds |
| Legacy.Applies | index.js:52-65 | an undefined or null statement throws; applying needs the asked effect |
| Legacy.NotActionStatementThrows | index.js:52-62 | with the built-in table, a statement of the asked effect that passes Resource and has NotAction entries throws on a string request action |
| Legacy.FilterPoliciesBy | index.js:51-66 | nothing is found iff every statement is rejected without throwing |
| Legacy.FilterMeaning | index.js:51-66 | something is found iff a statement applies before any throws |
| Legacy.DecisionMeaning | index.js:30-50 | allowed iff no Deny statement applies and an Allow statement applies first; Deny wins; no policies deny |
| Legacy.BuiltinLikeCalls | index.js:57-62 | the built-in StringLike called by name is StringLike; StringNotLike called as a method of the table throws on a string action and is false otherwise; called on the engine it is StringNotLike |
| Legacy.NotLikeMethod | index.js:60-62 | with the built-in table the NotAction call throws exactly on a string action and never holds; a caller's table is called as usual |
| Legacy.ActionNeverThrows | index.js:57-59 | with the built-in table the Action test never throws |
| Legacy.NotActionIntended | index.js:60-62 | as intended, NotAction holds iff no entry is matched by the request action taken as the pattern |
| Legacy.MissingResourceThrows | index.js:55-56 | a statement of the asked effect without Resource throws |
| Legacy.ResourceMeaning | index.js:78-84 | Resource holds iff an entry is matched by the REQUEST resource as the pattern |
| Legacy.ActionMeaning | index.js:57-59 | Action holds iff an entry is matched by the REQUEST action as the pattern |
| Legacy.RequestIsThePattern | index.js:57-59 | a request `*` admits any entry; an entry such as `iam:*` does not admit a different literal request action |
| Legacy.NoActionNeverApplies | index.js:54-63 | a statement with neither Action nor NotAction never applies |
| Legacy.NotActionDecides | index.js:60-63 | when NotAction is present it alone decides: with no entries the actions apply; with entries it throws on a string action and fails on any other |
| Legacy.CustomTableReplacesBuiltins | index.js:20 | a caller's table without StringLike makes any Action list throw |
| Legacy.PolicyValueCall | index.js:93-95 | the operator gets the policy value first and the context value second |
| Legacy.CallThrows | index.js:93-95 | an unquantified call throws exactly for built-in ArnNotEquals on a string second argument, unless it is the IfExists form on undefined |
| Legacy.SingleOperatorBlock | index.js:88-96 | a block with one operator is that operator's outcome |
| Legacy.OperatorOverValues | index.js:89-95 | over truthy policy values and with no call throwing, an operator holds iff it holds for one policy value against the context value; a throwing call makes it throw |
| Legacy.OneOperatorCondition | index.js:85-97 | a one-operator Condition holds iff the operator holds for one policy value against the context value, when no call throws; a throwing call makes the Condition throw |
| Legacy.UnknownOperatorThrows | index.js:93-95 | an operator the table lacks throws once there is a policy value |
| Legacy.Engine.constructor | index.js:14-21 | a new engine holds no policies and its options |
| Legacy.Engine.Add | index.js:26-29 | appends the policies without any check |
| Legacy.Engine.Evaluate | index.js:30-50 | the decision over the held policies; without policies nothing is allowed |
| Legacy.StoredVariablesUnread | index.js:30-47 | the stored `variables` option plays no part in a decision |
| Legacy.Create | index.js:12-23 | options default to `{}`, `variables` to `{}` and `validate` to true, and a `conditions` object replaces the table |

## Findings

| source | as written | input that shows it | evidently intended | confidence | as-written member | corrected member |
|---|---|---|---|---|---|---|
| conditions.js:105-107 | ArnNotEquals calls `this.conditions.ArnNotLike(a, b)`, so ArnNotLike runs with the table as `this` and reads `ArnLike` of an undefined `conditions`: a TypeError for every string pattern | `ArnNotEquals("arn:x", "arn:y")`, or a Condition `{ArnNotEquals: {"aws:SourceArn": "arn:x"}}` | ArnNotLike under another name, as ArnEquals is ArnLike | not executed | Conditions.ArnNotEqualsDiscrepancy | Conditions.ArnNotEqualsIntended |
| index.js:60-62 | the NotAction test calls `this.conditions.StringNotLike(...)`, so with the built-in table StringNotLike reads `StringLike` of an undefined `conditions`: a TypeError for every string request action | a statement `{Effect: "Allow", Resource: ["*"], NotAction: ["a"]}` evaluated with `{resource: "*"}` and the default action "" (the Resource entry `*` is then matched by the request `*`, so the NotAction test is reached) | NotAction holds iff no entry is StringLike-matched by the request action | not executed | Legacy.NotActionStatementThrows | Legacy.NotActionIntended |

Both engines keep the code as written: ArnNotEquals throws there, and so
does the legacy NotAction test. `Registry.Semantics` gives ArnNotEquals its
intended answer, and only `Registry.CallBase` adds the throw.

## Left out

- Schema validation is not modelled. This covers z-schema, `addConditionsToSchema`, `_validateSchema` and `throw` (pbac.js:40-65, 170-175). Whether the schema is valid and which policies it accepts are a `Validator` parameter, and a failure is an `Err` without the library's message.
- Binary operators are modelled only as far as their Node branch. The buffer comparison is a host function, and the browser branch (`process.env.BROWSER`, `atob`) is left out.
- `ip-range-check`, `new Date(...)` and `toLowerCase` are host functions, because they are foreign code.
- Numbers are integers. NaN, Infinity and fractions are left out, and with them `String()` of non-integers.
- Strings are sequences of characters, not UTF-16 code units. Surrogate pairs are not modelled.
- Object keys keep insertion order. JavaScript's ordering of integer-like keys first is not modelled.
- Properties inherited from `Object.prototype` are left out. For example, `conditions["constructor"]` is not found in the table.
- JsValue.Get: arrays and strings yield their elements, characters and `length`; other names, prototype methods such as `map` included, read as undefined. Index texts with a sign, a leading zero or an exponent read as undefined, as in JavaScript.
- `Object.keys` and `_.keys` of strings and arrays (their indices) are taken to be empty. The exception is the legacy first-entry read, which does model them.
- Custom conditions are total functions of two values. A custom condition that throws, or a non-function entry in `options.conditions`, is not modelled.
- `Object.assign(options.conditions, conditions)` mutates the caller's map in place. Only the merged result is modelled, in which built-ins win.
- No operator variants are derived for custom conditions, as in the source.
- The `schema` and `logger` options are not modelled, because nothing in the core reads them.
- The regular expression is rebuilt on every call. Only the match it decides is modelled.
