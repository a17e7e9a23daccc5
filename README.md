# blacklisted_name — a verified model of clippy's placeholder-name lint

This project models clippy's `blacklisted_name` lint (`clippy_lints/src/blacklisted_name.rs`).
The lint pass `BlackListedName` holds a configured list of forbidden names. The compiler walks
every pattern of the program's HIR and calls `check_pat` on each one. When the pattern is a
`PatKind::Binding` whose identifier text equals some list entry, the pass reports one warning
under the lint `BLACKLISTED_NAME` (default level `Warn`). The warning carries the pattern's span
and the message ``use of a blacklisted/placeholder name `NAME` ``.

The model is pure, like the source:

- `wrappers.dfy`: the `Option` datatype.
- `blacklisted_name.dfy` (module `BlacklistedName`):
  - the lint metadata as constants;
  - patterns, spans and diagnostics as datatypes;
  - the pass as a datatype holding its list;
  - `check_pat` as the function `CheckPat`, which returns the diagnostic `span_lint` would receive, or `None`.

`check_pat` takes `&mut self` but never writes a field, so the model passes the pass by value.
To state what a whole lint run reports, `RunPass` folds `CheckPat` over the patterns a walk visits,
in visiting order.

## Model

| member | source | states |
|---|---|---|
| `BlacklistedName.New` | clippy_lints/src/blacklisted_name.rs:28-31 | the pass keeps the given list unchanged: same entries, same order and multiplicity, empty strings and duplicates kept (the stored list equals the argument) |
| `BlacklistedName.Message` | clippy_lints/src/blacklisted_name.rs:47 | the message is the fixed prefix ``use of a blacklisted/placeholder name ` ``, then the name verbatim, then a closing backtick |
| `BlacklistedName.MessageName` | clippy_lints/src/blacklisted_name.rs:47 | reading the name back out of a message of the lint's shape gives a name whose message is that text |
| `BlacklistedName.MessageRoundTrip` | clippy_lints/src/blacklisted_name.rs:47 | the offending name can always be recovered from the message built for it |
| `BlacklistedName.MessageInjective` | clippy_lints/src/blacklisted_name.rs:47 | two different names never produce the same message |
| `BlacklistedName.AnyMatch` | clippy_lints/src/blacklisted_name.rs:43 | the short-circuiting `iter().any` test of each entry against the name is true iff the name is an entry of the list, i.e. iff some index holds exactly that text |
| `BlacklistedName.CheckPat` | clippy_lints/src/blacklisted_name.rs:41-50 | a diagnostic is produced iff the pattern is a `Binding` whose identifier is an entry of the list; it is reported under `BLACKLISTED_NAME` (level `Warn`), at the pattern's span, with exactly the message built for the identifier |
| `BlacklistedName.NonBindingNeverFires` | clippy_lints/src/blacklisted_name.rs:42 | a pattern that is not a `Binding` never yields a diagnostic, whatever the list holds |
| `BlacklistedName.EmptyBlacklistNeverFires` | clippy_lints/src/blacklisted_name.rs:43 | with an empty list no pattern ever yields a diagnostic |
| `BlacklistedName.DiagnosticContent` | clippy_lints/src/blacklisted_name.rs:44-47 | for a listed name the diagnostic is exactly (`BLACKLISTED_NAME`, the pattern's span, the message for that name) |
| `BlacklistedName.SameEntriesSameOutcome` | clippy_lints/src/blacklisted_name.rs:43 | two lists holding the same set of names decide every pattern identically |
| `BlacklistedName.PermutationSameOutcome` | clippy_lints/src/blacklisted_name.rs:43 | reordering the list changes no outcome |
| `BlacklistedName.DuplicateEntrySameOutcome` | clippy_lints/src/blacklisted_name.rs:43 | appending an entry that is already listed changes no outcome |
| `BlacklistedName.Emitted` | clippy_lints/src/blacklisted_name.rs:43-48 | one call hands the sink at most one diagnostic, and exactly the one it decided on |
| `BlacklistedName.RunPass` | clippy_lints/src/blacklisted_name.rs:41-50 | a run reports no more diagnostics than patterns were visited, each under `BLACKLISTED_NAME` and each stemming from a visited pattern that binds a listed name, at its span and naming it |
| `BlacklistedName.RunPassAppend` | clippy_lints/src/blacklisted_name.rs:41-50 | the pass keeps no state between calls: a run over two stretches of patterns reports the two runs' diagnostics one after the other |
| `BlacklistedName.RunPassSplit` | clippy_lints/src/blacklisted_name.rs:41-50 | at any position of the walk, the run is the diagnostics before it, then exactly the zero or one diagnostic that pattern's own call emits, then the diagnostics after: diagnostics correspond to patterns one to one, in visiting order |
| `BlacklistedName.RunPassComplete` | clippy_lints/src/blacklisted_name.rs:42-48 | every visited pattern that binds a listed name is reported, with its span and its message |
| `BlacklistedName.AtMostOnePerCall` | clippy_lints/src/blacklisted_name.rs:43-48 | one call reports at most one diagnostic, and one exactly when the pattern binds a listed name, however often that name is listed |
| `BlacklistedName.RepeatedCallSameResult` | clippy_lints/src/blacklisted_name.rs:41-50 | checking the same pattern twice reports it twice, identically |
| `BlacklistedName.ListedNameReported` | clippy_lints/src/blacklisted_name.rs:43-47 | with list `["foo", "bar"]`, binding `foo` yields exactly one diagnostic, with message ``use of a blacklisted/placeholder name `foo` `` |
| `BlacklistedName.UnlistedNameNotReported` | clippy_lints/src/blacklisted_name.rs:43 | with list `["foo", "bar"]`, binding `baz` yields nothing |
| `BlacklistedName.CaseSensitiveMatch` | clippy_lints/src/blacklisted_name.rs:43 | with list `["Foo"]`, binding `foo` yields nothing: matching is case-sensitive |
| `BlacklistedName.DuplicateListedOnce` | clippy_lints/src/blacklisted_name.rs:43-48 | with list `["x", "x"]`, binding `x` yields exactly one diagnostic |

## Left out

- The rustc types `LateContext`, `Pat` and `PatKind`: every pattern kind other than `Binding` is folded into `Wild` or `Other`. The lint ignores all of them alike.
- The binding mode, the binding's id and the optional sub-pattern of `PatKind::Binding`. The lint ignores them; the walk visits a sub-pattern as a pattern of its own.
- The `LintPass`/`LateLintPass` registration, `get_lints` and the `lint_array!` macro. They are bookkeeping with no decision in them. The lint's name, default level and description are kept as the constant `BLACKLISTED_NAME`.
- How `span_lint` renders, filters or suppresses a diagnostic (lint levels set by attributes or flags). The model returns the diagnostic as a value instead of performing the call.
- Symbol interning (`ident.node.as_str()`). Identifiers are plain strings; `Display` of a symbol is taken to print its text.
- Where the list comes from (clippy's configuration loading). It is a parameter of `New`.
- The order in which the compiler's walk visits patterns. `RunPass` takes the visited patterns as a given sequence.
