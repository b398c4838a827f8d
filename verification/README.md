# Webjumps, modelled in Dafny

This project models the webjump registry of conkeror's `modules/webjump.js`.
A webjump is a named URL template such as `maps` → `http://maps.google.com/?q=%s`.
The user types `maps paris` in the URL prompt, and the registry turns that into
the search URL. The model covers these parts:

- registration (`define_webjump`), including the defaulting of the `argument` and
  `alternative` properties and the handler that `make_handler` compiles from a template;
- `clear_webjumps`;
- input matching (`match_webjump`): the split at the first space, the exact match,
  the unique-prefix partial match, and the missing-argument error;
- resolution (`get_webjump`, `get_url_or_webjump`);
- the decisions taken by `webjump_completer`: the name-completion string, the
  description, and the choice between delegating to an argument completer, offering
  nothing, and completing webjump names.

The registry is an immutable `map<string, Def>`, and every operation is a pure
function. A thrown error becomes a `Result`, and JavaScript `null` becomes `None`.
The functions the module calls but does not define are fields of a `Host` value
passed as a parameter:

- `encodeURIComponent` (section 15.1.3 of ECMA-262, 5th edition);
- `url_path_trim`;
- the bodies of function handlers.

Files, one module each:

- `wrappers.dfy`: `Option` and `Result`.
- `jsstring.dfy`: `indexOf`, `substring(0, n)` with its clamping, and the regular-expression class `\s`.
- `registry.dfy`: definitions, `NormalizeDef` (the defaulting rules), `Substitute` (the compiled template), `Define`, `Clear`.
- `matching.dfy`: `SplitInput`, `PrefixMatches`, `UniquePrefixKey`, `MatchWebjump`, and the scan loop `ScanPartialMatch`.
- `resolve.dfy`: `GetWebjump` and `GetUrlOrWebjump`.
- `completer.dfy`: `CompletionString`, `CompletionDescription`, `NameCandidates` and `Complete`.
- `examples.dfy`: the `maps`, `lastfm` and `delicious` webjumps of the module's default lists.

Where the module's own comments and its code disagree, the model follows the code:

- A template without `%s` always gets `argument = false`, even when `$argument` was given.
  The comment at modules/webjump.js:32-34 describes a default chosen only "if the property is not specified".
- The name-completion string has a trailing space only when `argument` is truthy (`true` or `'optional'`).
  So an entry whose argument stayed unset gets no space.
  The comment at modules/webjump.js:34-36 says only that `false` suppresses the space.
- An entry with `argument == true` and a truthy alternative still raises the missing-argument error when no argument is typed.
  The error comes from `match_webjump` before `get_webjump` can look at the alternative.
  The comment at modules/webjump.js:20-23 says the alternative "is used in place of the handler when no arguments are supplied".
- An unset argument reaches a `%s` template as JavaScript `null`, which is substituted as the encoding of `"null"`.
  This happens when the entry has no truthy alternative.
  The comments do not cover this case.

## Model

| member | source | states |
|---|---|---|
| JsString.IndexOf | modules/webjump.js:51 | the result is the first index where the pattern occurs, or None exactly when it occurs nowhere |
| JsString.SubstringTo | modules/webjump.js:197 | `substring(0, n)` is a prefix of the string whose length is `n` clamped into [0, length] |
| JsString.SubstringPrefixTest | modules/webjump.js:152 | the test `k.substring(0, key.length) == key` holds iff `key` is a prefix of `k`, also when `key` is longer |
| Registry.Substitute | modules/webjump.js:50-58 | the compiled template returns the template itself when it has no `%s`, and otherwise the text before its first `%s`, the encoded argument and the text after it, two characters shorter than template plus encoding |
| Registry.JsToString | modules/webjump.js:57 | a string argument is passed through and `null` becomes the string "null" |
| Registry.Invoke | modules/webjump.js:178 | a template handler always yields a URL (the template itself when it has no `%s`); a function handler yields what the host function returns |
| Registry.NormalizeDef | modules/webjump.js:38-48 | a template without `%s` gets argument `false`; a function with neither argument nor alternative gets `true`; a `%s` template without an alternative gets the trimmed template; an explicit alternative is kept; an explicit argument is kept unless the template has no `%s`; an unset argument becomes `'optional'` once the alternative is truthy; it stays unset exactly when no rule applied |
| Registry.Define | modules/webjump.js:64-69 | the new definition is stored under the key, the key set grows by that key only, every other entry is unchanged, and entries stay stored under their own key |
| Registry.DefineTwiceLastWins | modules/webjump.js:64 | registering a key twice leaves the table as if only the second registration had happened |
| Registry.Clear | modules/webjump.js:98-100 | the cleared table is empty |
| Registry.FixedTemplateIgnoresArgument | modules/webjump.js:54-56 | a compiled template without `%s` returns the template for every argument, `null` included |
| Registry.PlaceholderSplit | modules/webjump.js:51-57 | a template splits at its first `%s` into a prefix that holds no `%s`, the placeholder and the rest |
| Registry.SubstituteFirstPlaceholder | modules/webjump.js:50-58 | in `p + "%s" + q` with no `%s` in `p`, the first placeholder is at `p`'s end and the handler yields `p + enc + q`, so later `%s` stay verbatim |
| Matching.ErrorMessage | modules/webjump.js:164 | the message is "Webjump ", the key as typed, and " requires an argument." |
| Matching.SplitInput | modules/webjump.js:133-144 | the key is the space-free text before the first space; the argument is None without a space or when the rest is blank, otherwise the input is key + " " + argument |
| Matching.SplitJoin | modules/webjump.js:133-144 | splitting a space-free name alone gives no argument, and splitting name + " " + a gives back the name and `a` (None when `a` is blank) |
| Matching.PrefixMatches | modules/webjump.js:151-152 | the candidates of the partial match are exactly the registered keys that start with the typed name |
| Matching.UniquePrefixKey | modules/webjump.js:150-160 | a key is chosen iff exactly one registered key starts with the typed name, and then it is that key |
| Matching.Lookup | modules/webjump.js:146-160 | a registered name selects its own entry; otherwise nothing without partial matching, and with it an entry iff exactly one key starts with the name, that key's entry |
| Matching.MatchWebjump | modules/webjump.js:132-167 | a result carries the TYPED key, the split argument and the definition the typed name selects (exactly or as a unique prefix); the error names the typed key and occurs only without an argument |
| Matching.ScanPartialMatch | modules/webjump.js:150-160 | the loop that stops at a second match, visiting keys in any order, returns a key iff the typed name is a prefix of exactly one key, and then that key; so it agrees with `UniquePrefixKey` |
| Matching.UniquePrefixKeyDetermined | modules/webjump.js:149-160 | what the scan establishes determines the unique-prefix key, so the result does not depend on iteration order |
| Matching.TwoPrefixMatchesAreAmbiguous | modules/webjump.js:153-155 | two distinct keys starting with the typed name make the prefix ambiguous |
| Matching.ExactMatchWins | modules/webjump.js:146-147 | a registered name matches its own entry even when it prefixes other keys, whether partial matching is on or off |
| Matching.ExactOnlyWithoutPartial | modules/webjump.js:150 | with partial matching off only a registered name is found, and any other name gives null |
| Matching.PartialMatchUnique | modules/webjump.js:149-160 | with partial matching on and no exact entry, something is found iff exactly one key starts with the typed name, and it is that key's entry |
| Matching.AmbiguousPrefixIsNoMatch | modules/webjump.js:153-156 | two or more prefix matches give null, not an error |
| Matching.EmptyNameMatchesEveryKey | modules/webjump.js:152 | with partial matching on, the empty name is a prefix of every key, so (unless "" is itself a key) it finds something iff exactly one webjump is registered |
| Matching.MissingArgumentExactly | modules/webjump.js:162-164 | the error is raised iff a definition is found, no argument was typed, and its argument is `true`; `'optional'` never raises |
| Resolve.GetWebjump | modules/webjump.js:171-179 | the error is raised iff matching raises it; no match gives null; otherwise the result comes from the entry the typed name selects (exactly or as a unique prefix): its truthy alternative when no argument was typed, else its handler applied to the argument |
| Resolve.GetUrlOrWebjump | modules/webjump.js:181-187 | the result is the webjump's URL when there is one, and otherwise the input unchanged |
| Resolve.ClearedTablePassesThrough | modules/webjump.js:181-187 | after clearing, every input is returned unchanged |
| Resolve.UnknownNamePassesThrough | modules/webjump.js:181-187 | a name that is neither registered nor a unique prefix (with partial matching on) is returned unchanged |
| Resolve.AlternativeWithoutArgument | modules/webjump.js:162-177 | without an argument, the selected entry's truthy alternative is returned in place of the handler, for an exact name or a unique prefix, unless its argument is `true`, which raises the error first |
| Resolve.HandlerWithoutArgument | modules/webjump.js:162-178 | without an argument and without a truthy alternative, the selected entry's handler receives `null`, unless its argument is `true`, which raises the error first |
| Resolve.DefineThenResolveTemplate | modules/webjump.js:50-58 | after registering `p + "%s" + q` under a space-free name, the name followed by a non-blank argument `a` resolves to `p + enc(a) + q` |
| Resolve.DefineThenResolveFixed | modules/webjump.js:42-43 | after registering a template without `%s` under a space-free name, the name followed by an argument resolves to the template, and so does the bare name unless the alternative is truthy (the argument must be non-blank when it is) |
| Resolve.NullArgumentReachesTemplate | modules/webjump.js:178 | a `%s` template reached without an argument or truthy alternative substitutes the encoding of "null" |
| Completer.CompletionString | modules/webjump.js:194 | the completion is the key followed by a space iff the entry's argument is truthy, and the bare key otherwise |
| Completer.CompletionDescription | modules/webjump.js:195 | the description when there is one, and "" otherwise |
| Completer.NameCandidates | modules/webjump.js:192-195 | one candidate per registered entry, whose text is the entry's completion string and whose description is its completion description |
| Completer.Complete | modules/webjump.js:196-211 | names are completed iff matching the text before the cursor raises, finds nothing, or finds no argument; otherwise the completer delegates iff the entry has a completer, else offers nothing; it delegates to the selected entry's completer with the argument and offset `pos - typedKey.length - 1`, which is the argument's length when the cursor is inside the input, nesting results under the entry's full key and a space |
| Completer.NameCompletionRoundTrip | modules/webjump.js:194 | for a space-free key, accepting its name completion matches the same entry, alone when it takes no argument and followed by any non-blank argument when it does |
| Completer.DelegatesAfterCompletedName | modules/webjump.js:203-206 | after a completed name and an argument, the entry's completer gets the argument with the cursor at its end, nested under key + " " |
| Completer.PartialMatchDelegation | modules/webjump.js:202-208 | on a partial match the offset comes from the typed name while results nest under the full key, and without a completer nothing is offered |
| Examples.MapsSearch | modules/webjump.js:107 | `maps paris` resolves to `http://maps.google.com/?q=` followed by the encoding of `paris` |
| Examples.LastfmUserPage | modules/webjump.js:87 | `lastfm` gets argument `false` and resolves to the user page |
| Examples.LastfmIgnoresArgument | modules/webjump.js:87 | `lastfm anything` resolves to the user page too |
| Examples.DeliciousBareName | modules/webjump.js:73-74 | `delicious` gets argument `'optional'`, and the bare name resolves to the alternative |
| Examples.DeliciousTag | modules/webjump.js:73-74 | `delicious tag` resolves to the user's page for the encoded tag |
| Examples.MapIsAmbiguous | modules/webjump.js:153-156 | with `maps` and an invented second key `map2` registered, `map` matches nothing and raises no error |
| Examples.MapsMatchesExactly | modules/webjump.js:146-147 | in the same table `maps x` matches the `maps` entry exactly |
| Examples.DeliciousPrefix | modules/webjump.js:149-160 | with partial matching at its default and only `delicious` registered, the bare prefix `del` opens the user page |
| Examples.FunctionRequiresArgument | modules/webjump.js:38-40 | a function webjump without options requires an argument, and typing its name alone raises the error naming it |

## Left out

- `modules/debug.js` (`dump_obj_r`, `dump_obj`, `DEBUG_HERE`): it reflects over arbitrary host objects and `eval`, which is not sequential logic over values.
- The coroutine plumbing of `webjump_completer`: `yield`, `co_return`, `prefix_completer` and `nest_completions` belong to the host. `Complete` returns the decision and its inputs instead of a lazy candidate stream. The base completer's own prefix filtering is host code too.
- `encodeURIComponent`, `url_path_trim` and function-handler bodies are abstract `Host` fields. Their possible exceptions are not modelled.
- `in_module`, `keywords`, `define_keywords`, `define_variable` and `provide` are host machinery. The `webjump_partial_match` variable is the `partial` parameter, with `Matching.PartialMatchDefault` as its default.
- Keyword values outside `null`/`undefined`, `false`, `true` and `'optional'` for `$argument` are not modelled, nor non-string alternatives.
- JavaScript object-prototype lookups (a typed name such as `constructor`) are not modelled. Neither is iteration order: the table is a finite map, and the scan is proved independent of order.
- `define_default_webjumps`, `define_delicious_webjumps` and `define_lastfm_webjumps` are data. Only `maps`, `lastfm` and `delicious` appear, as example lemmas; `map2` is an invented second key that makes `map` ambiguous.
- Strings are sequences of Unicode scalar values, so positions and lengths count characters, not UTF-16 code units as JavaScript does. Before the cursor, a character outside the Basic Multilingual Plane makes `pos` and the delegation offset differ from the browser's. Input holding a lone surrogate cannot be represented, so the URIError `encodeURIComponent` throws on it is not modelled.
- `webjump_completer()` builds its base completer over a copy of the table taken when it is called (modules/webjump.js:192-193), while the returned function matches against the live table (modules/webjump.js:199). `NameCandidates` and `Complete` each take the table as a parameter and do not model that the two can differ.
- The `\s` class follows current ECMAScript. U+180E, which older Unicode versions counted as a space separator, is not whitespace here.
