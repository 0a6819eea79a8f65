# Expression translation of the migrator, in Dafny

The migrator rewrites first-generation `${...}` placeholders in configuration
files into next-generation `<+...>` expressions. This project models the engine
that does this.

- **Extraction** (`patterns.dfy`). The two placeholder patterns are modelled
  as hand-written scanners. `FindAllExpressions` concatenates their
  leftmost, non-overlapping matches.
- **Resolution** (`expressions.dfy`). The resolver first tries the table of
  built-in translations, `ExpressionsMap`. It then tries the registry of nine
  prefix resolvers, `DynamicExpressions`. For a chosen prefix, it cuts the
  argument out of the key and applies that prefix's resolver. Secret keys are
  camel-cased and qualified by the secret scope.
- **The engine** (`expressions.dfy`). A class holds the translation table and
  the secret scope. Its methods are:
  - the override merge of `loadYamlFromFile`;
  - the replacement loop `ReplaceAllExpressions`;
  - the "Supported?" decision of `renderSupportedExpressionsTable`;
  - the per-file step of `ReplaceCurrentGenExpressionsWithNextGen`, which
    extracts, de-duplicates and replaces.
- **The helpers of helper.go** (`helper.dfy`): `ToCamelCase`, `Split`, `Set`,
  `EndsWith`, `ContainsAny`, `getOrDefault`, `GetEndpointFromType`,
  `GetBaseUrl`, `GetUrl`, `GetUrlWithQueryParams` and `GetEntityIds`.
- **Go's `strings` package** (`go_strings.dfy`). The functions the source
  calls are modelled as `seq<char>` functions.

Some modelling choices:

- **Map iteration order.** Go's map iteration order is unspecified, and the
  model keeps it unspecified.
  - `getDynamicExpressionKey` picks *any* registered prefix of the key.
  - `getDynamicExpressionValue` may therefore return any member of
    `AdmissibleValues`.
  - `Set`, the query string of `GetUrlWithQueryParams` and the merge loop
    visit keys in any order.
- **Fatal exits.** `log.Fatal` and `panic` become `Err` results:
  `InvalidEnvironment` and `UnknownService` in `GetBaseUrl`.
  - The slice `exp[2 : len(exp)-1]` panics on tokens shorter than three
    characters. It becomes the requirement that every token has at least
    three characters, which every extracted token satisfies.
- **De-duplication.** `FindAllExpressions` does not de-duplicate: a token
  that matches both patterns is listed twice. Its caller,
  `ReplaceCurrentGenExpressionsWithNextGen`, removes duplicates with `Set`.
- **The `workflow.variables` resolver** produces `<+stage.variables..x>`. The
  doubled dot is kept as written.
- **Global state as parameters.** `migrationReq.SecretScope`,
  `migrationReq.BaseUrl`, the `UserGroups` constant and the name→id map of
  `GetEntityIds` are parameters.

## Model

| member | source | states |
|---|---|---|
| Patterns.MatchAt | expressions.go:15-16 | A match found at a start position is a whole token of that pattern: `${`, a non-empty run of class characters, `}` (secret calls: `${secrets`, one non-newline character, `getValue(`, non-brace characters ending in `)`, `}`) |
| Patterns.MatchAtComplete | expressions.go:15-16 | Any token of a pattern that starts at position i is exactly the match found at i, so each start position has at most one match |
| Patterns.NoOpenInside | expressions.go:15-16 | No `${` occurs strictly inside a token, so no match of either pattern starts inside another |
| Patterns.Scan | expressions.go:200-208 | Every string FindAllString returns for a pattern is a token of that pattern |
| Patterns.ScanIsAllMatches | expressions.go:200-208 | The leftmost, non-overlapping scan equals the list of the matches at every position, so jumping past a match loses nothing |
| Patterns.AllMatchesMembers | expressions.go:200-208 | The matches from position i are exactly the tokens of the pattern that occur in the text at or after i |
| Patterns.FindAllExpressions | expressions.go:200-209 | Every extracted token has at least four characters, starts with `${` and ends with `}` |
| Patterns.FindAllExpressionsMembers | expressions.go:200-209 | A string is extracted if and only if it is a generic or a secret-call token that occurs in the text |
| Patterns.BothKindsListedTwice | expressions.go:200-209 | A token matching both patterns appears at least twice in the result: nothing is de-duplicated here |
| Patterns.SecretCallOfBothKinds | expressions.go:15-16 | `${secrets.getValue(x)}` matches both patterns |
| Expressions.Key | expressions.go:214 | The lookup key is the token without its first two and its last character: the token is rebuilt from those three parts and the key |
| Expressions.SecretKeyWithScope | expressions.go:109-119 | The secret key is `Account.` or `Org.` (for those scopes, nothing for any other) followed by the camel-cased key |
| Expressions.SecretKeyDotOnlyInQualifier | expressions.go:109-119 | After the scope qualifier a secret key contains no dot |
| Expressions.SecretScopeRecoverable | expressions.go:109-119 | A secret key contains a dot if and only if the scope is Account or Org |
| Expressions.RegistryKeys | expressions.go:79-107 | The registry holds exactly the nine prefixes of the source |
| Expressions.ResolverOutputs | expressions.go:79-106 | Every registered resolver gives a `<+...>` expression. A non-secret resolver's output ends with its argument then `>`; the secret resolver's ends with the scope-qualified key then `")>` |
| Expressions.DynamicArgument | expressions.go:270-278 | The argument is never longer than the key; for a dotted prefix, a key that does not contain `prefix.` is passed on whole |
| Expressions.DottedArgument | expressions.go:276-278 | For a prefix not ending in `(`, the argument of `prefix.rest` is `rest` |
| Expressions.CallArgument | expressions.go:271-275 | For a prefix ending in `(`, the argument of `prefix rest` is `rest` without one trailing `)`, if it has one |
| Expressions.AdmissibleValues | expressions.go:268-289 | The set of values the resolver may give for a key is non-empty exactly when some registered prefix starts the key |
| Expressions.DynamicExpressionKey | expressions.go:282-289 | The result is `""` exactly when no registered prefix starts the key; otherwise it is a registered prefix that starts the key |
| Expressions.DynamicExpressionValue | expressions.go:268-280 | The value is the resolver of one matching prefix applied to the argument cut out for that prefix |
| Expressions.PipelineVariablesResolve | expressions.go:83-85 | `pipeline.variables.name` resolves to `<+pipeline.variables.name>` whatever prefix is chosen |
| Expressions.SecretCallResolves | expressions.go:101-103 | `secrets.getValue(arg)` resolves to `<+secrets.getValue("` + scope-qualified camel-cased arg + `")>` |
| Expressions.ServiceVariablesValue | expressions.go:89-91 | Through prefix `serviceVariables`, `serviceVariables.foo` resolves to `<+serviceVariables.foo>` |
| Expressions.ServiceVariableValue | expressions.go:86-88 | Through prefix `serviceVariable`, `serviceVariables.foo` resolves to `<+serviceVariables.serviceVariables.foo>`, because there is no `serviceVariable.` to cut |
| Expressions.OverlappingPrefixesDiverge | expressions.go:282-289 | As written, both of those values are admissible for `serviceVariables.foo`, so the output depends on map order |
| Expressions.LongestDynamicPrefix | expressions.go:282-289 | Corrected choice: the longest registered prefix of the key, which is unique |
| Expressions.CorrectedDynamicValue | expressions.go:268-280 | The corrected value is one of the values the source may produce |
| Expressions.CorrectedServiceVariables | expressions.go:268-289 | With the corrected choice, `serviceVariables.foo` always resolves to `<+serviceVariables.foo>` |
| Expressions.CorrectedSkipsShorterPrefix | expressions.go:282-289 | The corrected choice never picks a prefix that a longer registered prefix of the key extends |
| Expressions.ExpressionEngine.constructor | expressions.go:18-77 | The table starts as the 46 built-in translations |
| Expressions.Merge | expressions.go:305-307 | Writing every loaded entry into the table, in any order, gives the union with the loaded values winning |
| Expressions.OverridesMerge | expressions.go:305-307 | After the merge, the keys are the union, a loaded key has its loaded value and every other key keeps its value |
| Expressions.ExpressionEngine.LoadOverrides | expressions.go:291-309 | A blank path leaves the table unchanged; otherwise the loaded entries are merged in, loaded values winning |
| Expressions.OverrideDecides | expressions.go:215-217 | Once merged, a loaded key is resolvable and its only admissible replacement is the loaded value, whatever a resolver would give |
| Expressions.ExpressionEngine.Translate | expressions.go:214-223 | The key is resolved exactly when it is in the table or a prefix matches. A table key gets the table value, with no resolver consulted; otherwise the value is admissible; an unresolved key gets `""` |
| Expressions.ExpressionEngine.ReplaceAllExpressions | expressions.go:211-226 | The not-replaced list is the unresolvable tokens in input order. Each token's value obeys static precedence. The output is the text with every occurrence of each resolvable token replaced in turn |
| Expressions.UnresolvedMembers | expressions.go:211-226 | A token is reported as not replaced if and only if it is listed and neither the table nor a resolver translates its key |
| Expressions.RewrittenUnchanged | expressions.go:211-226 | When every resolvable token is replaced by itself, in particular when nothing resolves, the text is unchanged |
| Expressions.ExpressionEngine.SupportRows | expressions.go:234-245 | One row per token; "Supported?" is Yes exactly when the key is in the table or a prefix matches, which is the complement of the not-replaced condition; the value obeys static precedence and is empty when unsupported |
| Expressions.ExpressionEngine.RewriteContent | expressions.go:142-184 | The per-file steps at lines 142-146 and 176-184. A file's tokens are the distinct extracted tokens. A file without tokens is not changed. Each token gets a replacement value with static precedence, and the output is the content rewritten token by token with those values. The not-replaced tokens are exactly the extracted tokens nothing translates |
| Expressions.RerunRewritesAgain | expressions.go:200-226 | Rewriting is not idempotent. Consider `${secrets.getValue(q${pipeline.variables.x})}`, where no override covers the keys involved. A first run finds only the inner `${pipeline.variables.x}` and turns the text into `${secrets.getValue(q<+pipeline.variables.x>)}`. That text is a secret-call token, and a second run rewrites it again |
| Helper.ToCamelCase | helper.go:175-213 | The byte loop with its `capNext` flag computes `CamelCase` of the input |
| Helper.CamelWalk | helper.go:184-212 | The byte loop writes the leading `_` for a leading digit, then what every turn emits, which is `CamelBody` of the whole input |
| Helper.CamelTurn | helper.go:184-210 | One turn of the loop writes the letter or digit of the byte (cased by the flag) or nothing, and sets the flag exactly after a digit or a separator |
| Helper.CamelCaseOfBlank | helper.go:176-180 | Empty or all-white-space input gives `""` |
| Helper.CamelCaseUnderscore | helper.go:188-190 | The output starts with `_` exactly when the trimmed input starts with a digit |
| Helper.CamelCaseAlnum | helper.go:202-210 | The output holds only ASCII letters and digits, apart from that leading `_` |
| Helper.CamelCaseLetters | helper.go:184-212 | After the `_`, the output lower-cased is the input's letters and digits in order, with everything else dropped |
| Helper.CamelCaseLength | helper.go:184-212 | The output is at most one character longer than the trimmed input |
| Helper.CamelCaseCapitals | helper.go:191-209 | An emitted letter is upper case exactly when the byte before it is a digit or one of `_`, space, `-`, `.`; it is the input letter otherwise |
| Helper.CamelCaseHasNoDot | helper.go:184-212 | The output contains no `.` |
| Helper.CamelExampleWords | helper.go:175-213 | `a-b` becomes `aB` |
| Helper.CamelExampleDigit | helper.go:175-213 | `1a` becomes `_1A` |
| Helper.Split | helper.go:215-224 | The result is empty for blank input and otherwise the pieces of strings.Split, each trimmed in place |
| Helper.SplitTrimmedPieces | helper.go:215-224 | Blank input gives no pieces. Otherwise there is one trimmed piece per separator-delimited segment; the segments join back to the input and contain no separator |
| Helper.Set | helper.go:144-154 | The result has no duplicates and holds exactly the input's elements |
| Helper.EndsWith | helper.go:135-142 | True if and only if some listed suffix ends the string |
| Helper.ContainsAny | helper.go:115-123 | True if and only if some element of `values` occurs in `source` |
| Helper.GetOrDefault | helper.go:108-113 | The default exactly when the value is empty, the value otherwise |
| Helper.GetEndpointFromType | helper.go:424-429 | `usergroups` for the user-group type, otherwise the lower-cased type plus `s` |
| Helper.EndpointIsPlural | helper.go:424-429 | Every endpoint ends in `s` |
| Helper.EndpointIsLower | helper.go:424-429 | No endpoint holds an upper-case letter |
| Helper.GetBaseUrl | helper.go:247-273 | The base URL is found if and only if the environment and the service are known (Prod1 and Prod2 included). A failure is `UnknownService` exactly for SelfManaged and `InvalidEnvironment` otherwise |
| Helper.BaseUrlProdAliases | helper.go:248-250 | Prod1 and Prod2 give what Prod gives |
| Helper.BaseUrlSelfManaged | helper.go:256-271 | For SelfManaged the URL is the configured base URL plus the service path; an unknown service is an error |
| Helper.GetUrl | helper.go:104-106 | A failed base-URL lookup is passed on; otherwise the URL is exactly the base URL followed by `/path?accountIdentifier=id` (it starts with one, ends with the other, and is as long as both together) |
| Helper.GetUrlWithQueryParams | helper.go:95-102 | The URL is the base URL, `/endpoint?`, and `key=value&` for every parameter, in some order that lists each key once |
| Helper.GetEntityIds | helper.go:275-298 | Non-empty ids are returned as split, and the names are ignored; otherwise the names are mapped through the name→id map |
| Helper.LookupIds | helper.go:289-296 | The loop collects the ids of the known names, in the names' order |
| Helper.KnownIdsSpec | helper.go:289-297 | Mapping names never gives more ids than names; an id is listed exactly when some known name maps to it; when every name is known the ids correspond position by position |
| GoStrings.TrimSpace | helper.go:216 | The result is a contiguous part of the input with only white space before and after it in the input. It is empty exactly for blank input, and otherwise neither starts nor ends with white space |
| GoStrings.Index | expressions.go:272 | -1 exactly when the pattern does not occur, otherwise the first occurrence |
| GoStrings.ReplaceFirst | expressions.go:277 | Replaces the first occurrence, or returns the string when there is none |
| GoStrings.SplitJoin | helper.go:219 | The segments of strings.Split join back to the string and none contains the separator |
| GoStrings.ReplaceAllIsSplitJoin | expressions.go:217 | strings.ReplaceAll is splitting on the token and joining with the replacement |
| GoStrings.ReplaceAllUnchanged | expressions.go:217 | Replacing a token by itself, or one that does not occur, leaves the text unchanged |
| GoStrings.ToLowerAppend | helper.go:177 | Lower-casing distributes over concatenation |

## Left out

- File I/O is not modelled: reading and writing files, YAML decoding in `loadYamlFromFile`, and `MkDir`, `ReadFile` and `WriteToFile`. `LoadOverrides` takes the decoded map.
- The directory walk of `ReplaceCurrentGenExpressionsWithNextGen`, its `"." + ext` extension list, the dry-run switch and the corpus-wide summary maps are not modelled. Only the per-file extract-and-replace step is (`RewriteContent`).
- Console output is not modelled: the go-pretty tables, including the row sort of the "Equivalent Expressions" table, and the log messages.
- The interactive prompts, `listEntities`, `GetEntityNameIdMap` and `MigrateEntities` are not modelled. They are HTTP and survey-library calls; `GetEntityIds` takes the name→id map as a parameter.
- `log.Fatal` and `panic` do not stop a process here. They become `Err` results, or the `|exp| >= 3` requirement of the replacement loop.
- Helper.ToCamelCase: `strings.ToLower` and `unicode.IsSpace` are modelled on characters, and the loop walks characters rather than UTF-8 bytes. The modelled `ToLower` changes only ASCII letters. The output is the same as Go's for ASCII input. It differs for non-ASCII letters whose lower case is ASCII. Go lower-cases U+212A KELVIN SIGN to `k` and U+0130 to `i`, and the loop then keeps those letters. So Go turns `"\u212Aey"` into `key`, while the model gives `ey`. Any other non-ASCII character is dropped by the loop in both.
- Expressions.SecretKeyWithScope: the scope names `Account` and `Org` are constants declared outside the modelled files. The model assumes they are the strings `"Account"` and `"Org"`.
- Expressions.ExpressionEngine.RewriteContent: a second run on a rewritten file can change it again. A placeholder inside a secret call stops both patterns from matching the call. Once the placeholder is replaced, the call matches the secret-call pattern. For example, `${secrets.getValue(q${pipeline.variables.x})}` becomes `${secrets.getValue(q<+pipeline.variables.x>)}` after one run, and `<+secrets.getValue("...")>` after the next (`RerunRewritesAgain`). The contract describes one run only and promises nothing across runs.
- Helper.Set: the result's order, and the parameter order in `GetUrlWithQueryParams`, are those of Go's map iteration. The contracts allow any order.
- Expressions.DynamicExpressionKey: the prefix Go's map iteration finds first is modelled as any matching prefix. The contracts state what holds for every choice.

## Findings

| source | as written | input that shows it | evidently intended | confidence | as-written member | corrected member |
|---|---|---|---|---|---|---|
| expressions.go:282-289 | `getDynamicExpressionKey` returns the first registered prefix that map iteration reaches, and `serviceVariable`/`serviceVariables` (likewise `environmentVariable`/`environmentVariables`) both start some keys | `${serviceVariables.foo}` becomes `<+serviceVariables.foo>` or `<+serviceVariables.serviceVariables.foo>` depending on map order | the longest registered prefix wins, so `serviceVariables.foo` always becomes `<+serviceVariables.foo>` | not executed | Expressions.OverlappingPrefixesDiverge | Expressions.LongestDynamicPrefix |
