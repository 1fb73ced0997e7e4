# Command-line argument resolver of the pages-boilerplate gulpfile

The gulpfile of pages-boilerplate does not use an argument-parsing library.
Three of its tasks read their options through one small resolver:

- `expendAliasRules` mutates a rule table (a JavaScript object from flag
  name to rule) in place. For every rule with a truthy `alias` it adds an
  entry under the alias that holds the same rule.
- `commandArgumentsHandle` scans `process.argv.slice(2)`. For every token
  that is a key of the table, it writes under the rule's `dataIndex`
  either the rule's `omittedValue` (when `valueOmit === true`) or the next
  token. The next token can be `undefined` past the end, or another flag.
- `argumentsToConfig` runs both, then walks the rules again. It gives every
  field whose value is falsy the rule's `default`.

The model has five modules:

- `JsValue`: the JavaScript values the resolver sees and ToBoolean.
- `RuleTables`: the rule table as an ordered-key value (`Table`) and as an
  object updated in place (`RuleTable`, whose `ExpandAliases` method is
  `expendAliasRules`).
- `ArgParse`: the token scan, as a method with a loop proved against the
  specification function `Parse`.
- `ArgConfig`: the default-filling loop and `argumentsToConfig`, proved
  against `Resolve`. The properties of `Resolve` are proved here.
- `Tasks`: the rule tables that `server`, `useref` and `deploy` pass, and
  what each task then reads from the configuration.

Key order is modelled. `Object.values` visits keys in insertion order, and
an assignment to a new key appends it. This order decides which rule wins
when two rules share an alias. It also decides the order in which defaults
are filled.

Three properties one might expect of this resolver need conditions in the
code as written. The model proves them under conditions that suffice:

- Expanding aliases again changes nothing when no two rules share an alias
  (`ExpandIdempotent`). Without that condition it can change the table:
  `SharedAliasNotIdempotent` gives a four-key table with keys `k`, `a`, `b`,
  `c`, where the rules of `a` and `b` both have the alias `k` and the rule
  of `c` has the alias `b`. The first expansion reorders the values, so the
  second puts the other rule under `k`.
- Passing an alias instead of its flag gives the same configuration when
  no two rules share an alias, the flag's own key is no rule's alias, and
  the token before it is not a flag that takes a value
  (`AliasResolvesLikeFlag`). A value-taking flag just before would take the
  spelling itself as its value; a second rule with the same alias could win
  the alias entry.
- A rule can drop out of the table. When a rule's alias equals another
  rule's key, the expansion overwrites that key. If the overwritten rule has
  no alias of its own, it is no longer a value of the table, and if no
  other rule writes its `dataIndex`, that field then gets no entry:
  with `--a` (alias `--b`, field `x`) and `--b` (field `y`), the
  configuration has no `y` (`OverwrittenRuleDropped`). This is why
  `ResolveKeys` speaks of the fields of the expanded table, not of the table
  the caller wrote.

## Model

| member | source | states |
|---|---|---|
| RuleTables.RuleTable.constructor | pages-boilerplate/gulpfile.js:170-183 | the object holds the literal table the call site writes |
| RuleTables.RuleTable.Assign | pages-boilerplate/gulpfile.js:76 | `rules[k] = r`: an existing key keeps its place, a new key is appended, the entry under `k` becomes `r`, and the table stays well formed |
| RuleTables.RuleTable.ExpandAliases | pages-boilerplate/gulpfile.js:73-79 | the loop over a snapshot of the values leaves the object holding `Expanded` of the table it had before |
| RuleTables.ValuesCoverEntries | pages-boilerplate/gulpfile.js:74 | `Object.values` visits the rule of every own key of a well-formed table, and each value it yields is the rule of some key |
| RuleTables.Expanded | pages-boilerplate/gulpfile.js:73-79 | the expanded table is well formed, and its keys are the old keys plus the truthy aliases of the old rules |
| RuleTables.ExpandShape | pages-boilerplate/gulpfile.js:73-79 | after any prefix of the snapshot, the keys are the old keys plus the aliases visited so far, old keys keep their positions, and the table stays well formed |
| RuleTables.AliasStepShape | pages-boilerplate/gulpfile.js:75-77 | one visited rule adds its alias as a key (at the end when new) and nothing else |
| RuleTables.ExpandKeepsUnaliased | pages-boilerplate/gulpfile.js:74-78 | a key that no visited rule names as its alias keeps its rule |
| RuleTables.ExpandLastAliasWins | pages-boilerplate/gulpfile.js:74-78 | the entry under an alias is the last visited rule that names it |
| RuleTables.ExpandEntriesFrom | pages-boilerplate/gulpfile.js:74-78 | every entry after expansion is either the key's old entry or one of the visited rules |
| RuleTables.ExpandSettled | pages-boilerplate/gulpfile.js:74-78 | visiting rules that already sit under their aliases leaves the table unchanged |
| RuleTables.AliasReachable | pages-boilerplate/gulpfile.js:75-77 | with unique aliases, every aliased rule is found under its alias after expansion |
| RuleTables.UnaliasedKeyKept | pages-boilerplate/gulpfile.js:74-78 | a key that is no rule's alias still holds its own rule after expansion |
| RuleTables.ExpandedValuesFromTable | pages-boilerplate/gulpfile.js:74-78 | expansion invents no rule: every entry of the expanded table is a rule of the original table |
| RuleTables.ExpandIdempotent | pages-boilerplate/gulpfile.js:73-79 | with unique aliases, expanding an expanded table changes nothing |
| RuleTables.SharedAliasNotIdempotent | pages-boilerplate/gulpfile.js:73-79 | for keys `k`, `a`, `b`, `c` in that order, where the rules of `a` and `b` share the alias `k` and the rule of `c` has the alias `b`, the first expansion leaves the rule of `b` under `k` and a second expansion leaves the rule of `a` there |
| ArgParse.ParamsDropsTwo | pages-boilerplate/gulpfile.js:55 | the interpreter and script positions never reach the scan |
| ArgParse.ParsedKeys | pages-boilerplate/gulpfile.js:57-65 | a field is in the parsed configuration exactly when some token is a table key whose rule writes it; other tokens are ignored |
| ArgParse.LastOccurrenceWins | pages-boilerplate/gulpfile.js:57-65 | the last token writing a field decides its value: `omittedValue` when `valueOmit === true`, else the next token, or undefined past the end, even when that token is a flag |
| ArgParse.LastWriterExists | pages-boilerplate/gulpfile.js:57-65 | a field written by some token has a last token writing it |
| ArgParse.SameSteps | pages-boilerplate/gulpfile.js:57-65 | two token lists that every scan step treats alike give the same configuration |
| ArgParse.AliasParsesLikeFlag | pages-boilerplate/gulpfile.js:57-65 | two keys holding the same rule parse alike when the token before them is absent, no table key, or a switch (`valueOmit === true`) |
| ArgParse.CommandArgumentsHandle | pages-boilerplate/gulpfile.js:54-67 | the scan loop over `argv` without its first two positions returns `Parse` of those tokens |
| ArgConfig.FillKeys | pages-boilerplate/gulpfile.js:99-103 | the filling adds exactly the fields of the visited rules |
| ArgConfig.FillUntouched | pages-boilerplate/gulpfile.js:99-103 | a field no visited rule writes keeps its value |
| ArgConfig.FillKeepsTruthy | pages-boilerplate/gulpfile.js:99-103 | a truthy value is never replaced |
| ArgConfig.FillTruthyDefault | pages-boilerplate/gulpfile.js:99-103 | a field with a rule whose default is truthy ends up truthy |
| ArgConfig.FillAt | pages-boilerplate/gulpfile.js:99-103 | when all rules for a field share one default, the field keeps a truthy value and otherwise gets that default, including an explicit '' |
| ArgConfig.FillKeepsFalsy | pages-boilerplate/gulpfile.js:99-103 | a falsy field stays falsy while every visited rule writing it has a falsy default |
| ArgConfig.FillFirstTruthyDefault | pages-boilerplate/gulpfile.js:99-103 | rules writing one field with different defaults: a falsy field gets the first truthy default among them, in visiting order |
| ArgConfig.FillLastFalsyDefault | pages-boilerplate/gulpfile.js:99-103 | when every rule writing a falsy field has a falsy default, the field gets the default of the last of them |
| ArgConfig.ParsedFieldsAreRuleFields | pages-boilerplate/gulpfile.js:57-65 | the scan writes only fields named by rules of the table |
| ArgConfig.ResolveKeys | pages-boilerplate/gulpfile.js:94-105 | the configuration has one entry per `dataIndex` of the expanded table and no other |
| ArgConfig.OverwrittenRuleDropped | pages-boilerplate/gulpfile.js:73-105 | with keys `a` then `b`, where the rule of `a` has the alias `b` and the rule of `b` has no alias and another field, the field of the rule of `b` is missing from the configuration for every command line |
| ArgConfig.ResolveTruthyDefault | pages-boilerplate/gulpfile.js:94-105 | a field whose rule in the expanded table has a truthy default is never falsy in the configuration |
| ArgConfig.SharedDefaultOfEntries | pages-boilerplate/gulpfile.js:99-103 | rules reached through the keys all have one default when every entry does |
| ArgConfig.ResolveFirstTruthyDefault | pages-boilerplate/gulpfile.js:94-105 | a field the scan leaves falsy gets the first truthy default among the rules of the expanded table that write it, in `Object.values` order, whatever the other defaults are |
| ArgConfig.ResolveLastFalsyDefault | pages-boilerplate/gulpfile.js:94-105 | a field the scan leaves falsy, all of whose rules in the expanded table have falsy defaults, gets the default of the last of those rules |
| ArgConfig.ResolveAbsent | pages-boilerplate/gulpfile.js:94-105 | a field that no token writes gets the one default its rules in the expanded table share |
| ArgConfig.ResolveLastWriter | pages-boilerplate/gulpfile.js:94-105 | when the rules writing a field in the expanded table share one default, the field gets its last writer's value when that value is truthy, and that default when it is falsy |
| ArgConfig.ResolveSwitchOn | pages-boilerplate/gulpfile.js:94-105 | a switch field (`valueOmit === true`) whose `omittedValue` is truthy and whose rules share one default gets that `omittedValue` when some token writes it |
| ArgConfig.ResolveSwitch | pages-boilerplate/gulpfile.js:94-105 | a switch field whose `omittedValue` is truthy and whose rules share one default gets that `omittedValue` when its flag or alias appears, and the default otherwise |
| ArgConfig.ResolveValueFlag | pages-boilerplate/gulpfile.js:94-105 | a value-taking field whose rules share one default is the non-empty token after its last flag, else that default |
| ArgConfig.ResolveValueAt | pages-boilerplate/gulpfile.js:94-105 | the same, for one given last flag position |
| ArgConfig.AliasResolvesLikeFlag | pages-boilerplate/gulpfile.js:94-105 | passing the alias instead of the flag gives the same configuration when no two rules share an alias, the flag's own key is no rule's alias, and the token before is not a value-taking flag |
| ArgConfig.ResolveAgain | pages-boilerplate/gulpfile.js:94-105 | with unique aliases, a second call on the same, now expanded, rules object gives the same configuration |
| ArgConfig.ApplyDefaults | pages-boilerplate/gulpfile.js:99-103 | the default-filling loop returns `FillDefaults` over the values of the expanded table |
| ArgConfig.ArgumentsToConfig | pages-boilerplate/gulpfile.js:94-105 | the rules object ends up expanded and the result is `Resolve` of the table it held before |
| Tasks.ServerExpanded | pages-boilerplate/gulpfile.js:170-183 | the server table expands to `--open`, `--port` and `--p`, the last two holding the port rule |
| Tasks.ServerWrites | pages-boilerplate/gulpfile.js:170-183 | only `--open` writes `open`; only `--port` and `--p` write `port` |
| Tasks.ServerOpenField | pages-boilerplate/gulpfile.js:171-176 | `open` is a switch with default false |
| Tasks.ServerPortField | pages-boilerplate/gulpfile.js:177-182 | `port` takes a value and defaults to 2080 |
| Tasks.ServerOpen | pages-boilerplate/gulpfile.js:170-187 | `config.open` is true exactly when `--open` is among the tokens |
| Tasks.ServerPort | pages-boilerplate/gulpfile.js:170-185 | `config.port` is the non-empty token after the last `--port` or `--p`, else 2080 |
| Tasks.Server | pages-boilerplate/gulpfile.js:163-187 | the values `server` hands to the preview server, as in `ServerOpen` and `ServerPort` |
| Tasks.UserefExpanded | pages-boilerplate/gulpfile.js:200-208 | the useref table expands to `--production` and `--prod`, both holding the production rule |
| Tasks.UserefProduction | pages-boilerplate/gulpfile.js:200-209 | `config.production` is true when `--production` or `--prod` is among the tokens, and the task's `production` argument otherwise |
| Tasks.Useref | pages-boilerplate/gulpfile.js:198-209 | `useref` takes the minifying branch exactly when `production` is true or one of its flags is given |
| Tasks.DeployExpanded | pages-boilerplate/gulpfile.js:230-236 | the deploy table has no alias and expansion leaves it as it is |
| Tasks.DeployBranch | pages-boilerplate/gulpfile.js:230-240 | `config.branch` is the non-empty token after the last `--branch`, else 'gh-pages' |
| Tasks.Deploy | pages-boilerplate/gulpfile.js:229-240 | the branch `deploy` publishes to, as in `DeployBranch` |

## Left out

- Reading `process.argv`: the token list is a parameter `argv`, and the first two positions are dropped as `slice(2)` does.
- The gulp tasks, plugins, browser-sync, watchers, the template data object and the `series`/`parallel` composition (lines 1-48, 107-160, 184-195, 209-226, 237-261). These are calls into libraries whose code is not part of this model. Only the configuration values each task reads are modelled.
- JavaScript numbers are modelled as integers. NaN, -0 and fractions do not occur in the rule tables, so the model does not need them.
- Lookups through the prototype chain are not modelled, on either object. On the rule table, a token such as `constructor` or `__proto__` would find an inherited property. The model treats only own keys as rules.
- The same holds for reads and writes on `config`, which is a plain `{}` (lines 56, 61-63, 100-102). A rule whose `dataIndex` is an inherited name such as `toString` reads a truthy function there, so the source never writes its default; `Resolve` writes it. A write to `config['__proto__']` creates no own key in JavaScript, but does in the model. The model treats `config` as holding only own properties, and a missing one reads as `undefined`.
- A rule's `default` or `omittedValue` that is an object, array or function cannot be represented: `Value` has only undefined, null, booleans, numbers and strings. Such a value is always truthy, so it would behave like a non-empty string in every test the resolver makes. None of the three rule tables uses one.
- Integer-like property names are not modelled. JavaScript lists such keys first, in numeric order. Flag names start with `-`, so insertion order is modelled and numeric ordering is not.
- Rule identity is not modelled: rules are compared by value. `expendAliasRules` stores the same object under two keys, and nothing in the resolver can tell that apart from an equal copy.
- A non-string `alias` or `dataIndex` would be converted to a string by JavaScript. The model takes both as strings, with `alias` optional.
- Tasks.Useref: the `production` argument is a boolean. A non-boolean argument would become the default value as it is.
- Mutation that outlives a call is modelled through `ArgumentsToConfig` leaving its `RuleTable` expanded. Each task builds a fresh literal table, so no table is shared between calls.
