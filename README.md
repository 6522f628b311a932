# tox.ini substitution, modelled in Dafny

This project models `ctox/subst.py`, the substitution engine of ctox. It
rewrites tox.ini configuration text in five ways:

- **Brace expansion.** `expand_curlys` and `_replace_curly` take the cartesian
  product of the flat `{a,b}` groups of a string. `_split_out_of_braces`
  splits an envlist on the commas outside such groups. `bash_expand` and
  `parse_envlist` concatenate the expansions of those segments.
- **Factor conditions.** `expand_factor_conditions` keeps the value of a
  `labels: value` line only when the environment's name shares a label with
  the expanded labels.
- **Positional arguments.** `positional_args` picks the arguments after a
  leading `--`, or else those before the first flag.
- **Quote-aware splitting.** `split_on` splits text on a separator except
  inside quotes. `_strip_speechmarks` removes one pair of outer quotes.
- **Placeholder resolution.** `replace_braces` makes exactly `DEPTH` = 5
  passes. Each pass replaces every flat `{...}` group. `_replace_match`
  resolves a group's text as an environment attribute, `env:KEY[:DEFAULT]`,
  `[section]option` or `posargs[:DEFAULT]`, tried in that order.

Modules, one per concern:

- `Wrappers`: `Option`.
- `Text`: Python string primitives (`strip`, `split`, `join`,
  `startswith`, `endswith`).
- `Scan`: hand-written matchers for the regular expressions the code uses:
  - `{[^{}]*}`, the leftmost non-overlapping flat groups;
  - `\s*,\s*` and `\s*:\s*`, both via `re.split`.
- `BraceExpand`: `expand_curlys` and `_replace_curly`.
  - The reduce over the reversed groups is proved equal to an independent
    cartesian-product definition, `Product`.
- `EnvList`: `_split_out_of_braces` as a loop over the matches of the
  combined pattern, plus `bash_expand` and `parse_envlist`.
- `Factors`: `expand_factor_conditions`.
- `Posargs`: `positional_args`.
- `Quoting`: `split_on` and `_strip_speechmarks`.
- `Resolve`: `replace_braces`, `_replace_match` and the three strategies.
- `Samples`: the documented examples, proved about the model.

Python's exceptions become values:

- A strategy that raises `TypeError` ("not this shape") returns
  `NotApplicable`.
- A failed lookup, or the `NotImplementedError` for text of no known shape,
  returns a `Failure`:
  - `MissingEnvVar`: a `KeyError` from `os.environ`;
  - `MissingConfig`: the config has no such option;
  - `MissingPosargsDefault`: the `IndexError` on `e[1]`;
  - `NotUnderstood`: the `NotImplementedError`.
- `replace_braces` then returns `Err` carrying that failure.

Outside inputs are parameters:

- `os.environ` is a `map<string, string>`.
- The environment is an `Env` value. `getattr(env, ...)` reads its `attrs`
  map, `env.config.get` its `config` map, and `env.options` and `env.name`
  its fields.
- In the source, `name` is also an attribute of the environment, so
  `{name}` gives the environment's name. `Resolve.NamedEnv` states this
  of an `Env`, and `Resolve.MatchName` proves `{name}` under it. Every
  lemma about `Env` holds for all environments, so it holds for named
  ones too.

Where the code and its docstrings disagree, the model follows the code:

- The example at `ctox/subst.py:73-74` shows `_split_out_of_braces`
  returning one part. The code splits at the comma before ` py32`.
- The example at `ctox/subst.py:119-120` shows `"kwarg"`. The code yields
  `"--kwarg"` unchanged (`Posargs.PositionalArgsSamples`).
- A bare `{posargs}` with no positional arguments fails on `e[1]`
  (`ctox/subst.py:218`). It does not default to the empty string
  (`Resolve.PosargsBare`).

## Model

| member | source | states |
|---|---|---|
| BraceExpand.ExpandCurlys | ctox/subst.py:33-44 | `expand_curlys`: the reduce of `_replace_curly` over the flat groups in reverse order, seeded with `[s]`; what it computes is stated by `ExpandIsProduct`, `ExpandCount` and `ExpandNoGroup` |
| BraceExpand.ReplaceCurly | ctox/subst.py:47-51 | `_replace_curly`: every alternative of the group put in place of the group in every candidate, alternatives in the outer loop; `FoldIsProduct` states what the reduce of it builds |
| BraceExpand.ExpandIsProduct | ctox/subst.py:33-51 | reducing `_replace_curly` over the groups in reverse order gives the cartesian product of every group's alternatives, with the text between groups kept |
| BraceExpand.FoldIsProduct | ctox/subst.py:44 | each step of the reversed reduce extends the product of the groups already processed by one group to the left |
| BraceExpand.ExpandCount | ctox/subst.py:33-51 | the number of candidates is the product of the groups' alternative counts |
| BraceExpand.ProductCount | ctox/subst.py:33-51 | the reference product has exactly the product of the alternative counts as its length |
| BraceExpand.PrefixedAt | ctox/subst.py:49-51 | with `n` tails, candidate `i * n + j` is alternative `i` followed by tail `j`, so the rightmost group varies fastest |
| BraceExpand.ExpandNoGroup | ctox/subst.py:33-44 | a string with no flat group expands to itself alone |
| BraceExpand.ExpandPlain | ctox/subst.py:33-44 | a string without `{` expands to itself alone |
| BraceExpand.ExpandEmptyGroup | ctox/subst.py:33-51 | `{}` contributes one empty alternative |
| BraceExpand.Alternatives | ctox/subst.py:50 | a group always has at least one alternative |
| BraceExpand.GroupFields | ctox/subst.py:50 | the alternatives of `{u,v}` are `u` right-stripped and `v` left-stripped: only the whitespace around the comma is dropped |
| BraceExpand.GroupPair | ctox/subst.py:50 | `{u,v}` with no whitespace at the comma gives exactly `u` and `v` |
| BraceExpand.ExpandOnePair | ctox/subst.py:33-51 | one two-way group gives the two candidates with the surrounding text kept |
| BraceExpand.ExpandTwoPairs | ctox/subst.py:33-51 | two two-way groups give the four candidates in row-major order |
| Scan.FindGroupsExact | ctox/subst.py:43 | a span is found by the group scan if and only if it is a flat group at or after the starting point |
| Scan.FindGroupsComplete | ctox/subst.py:43 | every flat group is among the matches |
| Scan.NoFlatGroupScan | ctox/subst.py:43 | the scan finds nothing exactly when the string has no flat group |
| Scan.ReSplitFields | ctox/subst.py:50 | splitting on `\s*X\s*` equals splitting on `X` and trimming the whitespace that touches each separator |
| Scan.ReSplitPair | ctox/subst.py:101 | with one separator, the two fields are the left side right-stripped and the right side left-stripped |
| Scan.SepSearchFirst | ctox/subst.py:78 | the leftmost match of `\s*X\s*` from a position starts at the whitespace run before the first `X`, but not before that position; there is none when no `X` follows |
| EnvList.BashExpand | ctox/subst.py:54-66 | `bash_expand`: the expansions of the segments, one after another; `BashExpandOne` and `ParseEnvlistSample` state its results |
| EnvList.ParseEnvlist | ctox/subst.py:18-30 | `parse_envlist` is `bash_expand`; `ParseEnvlistSample` and `ParseEnvlistEmpty` state its documented results |
| EnvList.SepOutsideGroups | ctox/subst.py:69-86 | in every string, no separator match overlaps a flat group, so a comma inside a group never splits wherever the other commas are |
| EnvList.SplitOutOfBraces | ctox/subst.py:69-86 | the loop over the matches yields exactly the segments between separators outside flat groups, and never an empty one |
| EnvList.Segments | ctox/subst.py:69-86 | no segment is empty |
| EnvList.HitsGroups | ctox/subst.py:78 | the group matches of the combined pattern are exactly the flat groups of the string |
| EnvList.SegmentsWhole | ctox/subst.py:69-86 | when every comma sits inside a flat group, the string is one segment, or none if it is empty |
| EnvList.SegmentsSplit | ctox/subst.py:69-86 | without braces, the segments are the comma-separated fields, trimmed around each comma, with empty fields dropped |
| EnvList.BashExpandOne | ctox/subst.py:54-66 | a string that is a single segment expands as `expand_curlys` does |
| Samples.ParseEnvlistSample | ctox/subst.py:18-30 | `{py26,py27}-django{15,16}, py32` gives the four django combinations followed by `py32` |
| Samples.ParseEnvlistEmpty | ctox/subst.py:18-30 | the empty envlist gives no environments |
| Samples.ExpandCurlySample | ctox/subst.py:33-41 | `py{26, 27}` gives `py26` and `py27` |
| Factors.ExpandFactorConditions | ctox/subst.py:89-109 | `expand_factor_conditions`, characterised for every line by `FactorConditions` |
| Factors.FactorConditions | ctox/subst.py:89-109 | a line with exactly one colon whose stripped left part is not `env` gives the left-stripped right part when a label matches and `''` when none does; every other line comes back unchanged |
| Factors.ColonFields | ctox/subst.py:101-102 | splitting on `\s*:\s*` gives two fields exactly when there is one colon |
| Factors.FactorConditionsSuffix | ctox/subst.py:89-109 | the result is the line itself, empty, or a suffix of the line |
| Factors.FactorConditionsNoNewline | ctox/subst.py:89-109 | the result contains no newline when the line contains none |
| Factors.FactorConditionsNoColon | ctox/subst.py:109 | a line without a colon is returned unchanged |
| Factors.FactorConditionsEnv | ctox/subst.py:102 | an `env:` line is returned unchanged |
| Samples.FactorConditionsSample | ctox/subst.py:94-98 | `py{33,34}: docformatter` gives `docformatter` for `py34` and `''` for `py26` |
| Samples.LabelsMatch | ctox/subst.py:103-105 | the labels of `py{33,34}` meet those of `py34` but not those of `py26` |
| Posargs.PositionalArgs | ctox/subst.py:112-130 | `positional_args`, characterised by `PositionalArgsShape` and computed by the loop `CollectPositional` |
| Posargs.CollectPositional | ctox/subst.py:112-130 | the loop yields the arguments after a leading `--`, or else those up to the first flag |
| Posargs.FlagFree | ctox/subst.py:127-130 | the result is a prefix of the arguments without flags, followed by a flag or by nothing |
| Posargs.FlagFreeUnique | ctox/subst.py:127-130 | that prefix is the only one with this property |
| Posargs.PositionalArgsShape | ctox/subst.py:112-130 | after `--` the result is the rest verbatim; otherwise it is the longest flag-free prefix |
| Posargs.NoFlags | ctox/subst.py:112-130 | without flags and without a leading `--`, every argument is positional |
| Posargs.PositionalArgsSamples | ctox/subst.py:117-120 | `["arg1","arg2","--kwarg"]` gives the first two; `["--","arg1","--kwarg"]` gives `arg1` and `--kwarg` |
| Quoting.Unquoted | ctox/subst.py:140-144 | `_strip_speechmarks`, characterised by `UnquoteFirst` and computed by the loop `StripSpeechmarks` |
| Quoting.SplitOn | ctox/subst.py:133-137 | `split_on`: the tokens of the pattern, each unquoted; `SplitOnPlain`, `SplitOnQuotedHead` and `SplitOnQuoted` state what it gives |
| Quoting.StripSpeechmarks | ctox/subst.py:140-144 | the loop removes the first of `'''`, `"""`, `'`, `"` that both opens and closes the token, or returns it unchanged |
| Quoting.UnquoteFirst | ctox/subst.py:141-144 | when no mark from `k` on wraps the token, it comes back unchanged; otherwise the first mark in `'''`, `"""`, `'`, `"` order that wraps it is the one removed |
| Quoting.UnquoteShape | ctox/subst.py:140-144 | the result is the token, empty, or the token with one or three characters removed at each end |
| Quoting.TokenEnd | ctox/subst.py:135 | a token runs as long as the token pattern matches and stops where it no longer does |
| Quoting.Tokens | ctox/subst.py:135-137 | no token is empty |
| Quoting.TokensPlain | ctox/subst.py:133-137 | without quotes, the tokens are the non-empty fields between separators |
| Quoting.SplitOnPlain | ctox/subst.py:133-137 | without quotes, `split_on` is a plain split that drops empty fields |
| Quoting.QuotedSpanKept | ctox/subst.py:135 | a quote that opens a unit takes in everything up to its next occurrence, so the token runs past the closing quote whatever separators lie between |
| Quoting.UnquoteQuoted | ctox/subst.py:141-143 | text between a quote and the same quote, holding no such quote, is unquoted to itself |
| Quoting.SplitOnQuotedHead | ctox/subst.py:133-137 | a quoted piece followed by a separator is one token whatever separators it holds, and `split_on` gives its inside and goes on with the rest |
| Quoting.SplitOnQuoted | ctox/subst.py:133-137 | a quoted piece alone is one token, and `split_on` gives its inside |
| Quoting.SplitOnSample | ctox/subst.py:133-137 | `a "b c" d` splits on spaces into `a`, `b c`, `d` |
| Resolve.ReplaceBracesOf | ctox/subst.py:147-164 | `replace_braces`: `DEPTH` passes with `_replace_match` as the callback; `DepthCap`, `ReplaceBracesNoGroup` and the documented examples state its results |
| Resolve.SubFrom | ctox/subst.py:163 | one `re.sub` pass from a position: each flat group is replaced by the callback's result and the scan resumes after the group; `SubIsSplice` and `PassOneGroup` state what it does |
| Resolve.Dispatch | ctox/subst.py:177-187 | the strategy chain on the stripped text never reports "not applicable"; `DispatchNone` and `AttributeFirst` state its order |
| Resolve.ReplaceEnvvar | ctox/subst.py:190-199 | `_replace_envvar`; `EnvvarKey`, `EnvvarDefault` and `EnvvarTooMany` state its three cases |
| Resolve.ReplaceConfig | ctox/subst.py:202-211 | `_replace_config`; `ConfigOutcome` and `ConfigLines` state its result |
| Resolve.ReplacePosargs | ctox/subst.py:214-220 | `_replace_posargs`; `PosargsDefault`, `PosargsBare` and `PosargsExtraColon` state its cases |
| Resolve.ReplaceBraces | ctox/subst.py:147-164 | the loop of `DEPTH` passes computes the `DEPTH`-fold pass, and stops at the first failure |
| Resolve.SubIsSplice | ctox/subst.py:163 | one pass replaces the flat groups found by the scan left to right, in one sweep, and copies the text between them |
| Resolve.PassOneGroup | ctox/subst.py:163 | a pass over text with one flat group puts the replacement in its place, or fails as the replacement does |
| Resolve.PassNoGroup | ctox/subst.py:163 | a pass leaves text without a flat group unchanged |
| Resolve.PassesFixed | ctox/subst.py:162-163 | once a pass changes nothing, any number of passes changes nothing |
| Resolve.ReplaceBracesNoGroup | ctox/subst.py:147-164 | text without a flat group is returned as it is, so a fully resolved result is a fixed point |
| Resolve.NestResolved | ctox/subst.py:162-163 | `k` nested `{posargs:...}` groups are resolved by `k` passes |
| Resolve.NestOneLeft | ctox/subst.py:162-163 | `k+1` nested groups leave one literal group after `k` passes |
| Resolve.DepthCap | ctox/subst.py:162-163 | five nested levels resolve fully; a sixth level comes back as literal braces, with no error and no further pass |
| Resolve.DocumentedUser | ctox/subst.py:152-157 | for a non-empty user name without braces or colons and without blanks at its ends, `echo {posargs:{env:USER:} passed no posargs}` with no positional arguments gives `echo `, the name and ` passed no posargs` |
| Resolve.DocumentedNoUser | ctox/subst.py:152-157 | with `USER` unset or empty, the fallback the docstring names, the result is `echo passed no posargs`: the blank after `posargs:` is eaten by the `\s*:\s*` split |
| Resolve.DocumentedAndy | ctox/subst.py:152-153 | with `USER` set to `andy`, the result is `echo andy passed no posargs` |
| Resolve.ReplaceMatch | ctox/subst.py:167-187 | resolving a group's text never reports "not applicable": it gives a value or a failure |
| Resolve.MatchStrips | ctox/subst.py:171 | whitespace around the text inside the braces does not change the outcome |
| Resolve.MatchEnvDefault | ctox/subst.py:181-199 | `{env:KEY:DEFAULT}` is the variable's value, or else `DEFAULT` |
| Resolve.MatchConfig | ctox/subst.py:181-211 | `{[section]option}` is the option's value filtered line by line for the environment, or a failure naming the missing option |
| Resolve.MatchPosargs | ctox/subst.py:181-218 | `{posargs:DEFAULT}` is the space-joined positional arguments, or the default when there are none |
| Resolve.AttributeFirst | ctox/subst.py:177 | an attribute of the environment wins over every other reading of the text |
| Resolve.MatchName | ctox/subst.py:177 | in an environment whose name is among its attributes, `{name}` is the name |
| Resolve.DispatchNone | ctox/subst.py:177-187 | the chain reports "not understood" exactly when the text is no attribute and no strategy takes it |
| Resolve.NotUnderstoodIff | ctox/subst.py:171-220 | text is not understood exactly when it is no attribute, its `:` fields are not `env` with one or two more, it is no `[section]option` reference and its first `\s*:\s*` field is not `posargs` |
| Resolve.MatchEnvTooMany | ctox/subst.py:187-194 | `{env:a:b:c}` has too many fields for `env:` and is not understood |
| Resolve.MatchOtherPrefix | ctox/subst.py:187-194 | `{word:rest}` with a word other than `env` or `posargs`, not opening with `[`, is not understood |
| Resolve.MatchUnknown | ctox/subst.py:187 | text of no known shape that is no attribute is not understood |
| Resolve.BracketNotEnvvar | ctox/subst.py:192-194 | text opening with `[` is not taken by the `env:` strategy |
| Resolve.EnvvarKey | ctox/subst.py:195-197 | `env:KEY` is the variable's value, and a failure naming the key when it is unset |
| Resolve.EnvvarTooMany | ctox/subst.py:192-194 | `env:` with more than two further fields is not of the `env:` shape |
| Resolve.EnvvarDefault | ctox/subst.py:198-199 | `env:KEY:DEFAULT` is the variable's value if set and `DEFAULT` otherwise |
| Resolve.ConfigRefOf | ctox/subst.py:204-206 | `[section]option` parses back into that section and option; the match stops at the first `]` and at the end of the line |
| Resolve.ConfigRefShape | ctox/subst.py:204-206 | a parsed reference is the `[section]option` text at the start, with no `]` in the section and no newline in either part |
| Resolve.ConfigOutcome | ctox/subst.py:202-209 | `_replace_config` on `[section]option` gives the option's value filtered line by line, or a failure naming the missing option |
| Resolve.ConfigLines | ctox/subst.py:207-209 | the lines of the result are the value's lines, each filtered by the factor conditions |
| Resolve.FilterEach | ctox/subst.py:208-209 | filtering keeps the number of lines |
| Resolve.FilterEachNoNewline | ctox/subst.py:208-209 | no filtered line contains a newline |
| Resolve.PosargsDefault | ctox/subst.py:216-218 | `posargs:DEFAULT` is the joined positional arguments, or else the default without leading whitespace |
| Resolve.PosargsExtraColon | ctox/subst.py:216-218 | `posargs:a:b` without positional arguments gives `a` stripped: what follows a second colon is dropped |
| Resolve.PosargsBare | ctox/subst.py:216-218 | bare `posargs` is the joined positional arguments, or a failure when there are none |

## Left out

- `parse_commands` (`ctox/subst.py:14-15`) has an empty body. It is not
  modelled.
- Process environment and config file: `os.environ` and `env.config.get`
  are maps passed in, so the model does no I/O.
  - A missing config option is a `MissingConfig` failure. The real
    `config.get` may raise its own exception type instead.
- `getattr(env, s)` reads a map of string attributes.
  - Methods, callables and non-string attribute values are not modelled.
  - Python's built-in attributes, such as `__class__`, are not modelled
    either.
- Resolve.Env: the datatype does not force the environment's `name`
  into its attributes. `Resolve.NamedEnv` states that condition, and the
  lemmas hold with or without it.
- The failures keep only their kind. The Python exception types and
  messages are not modelled.
- A stray `TypeError` raised inside a real lookup, which the strategy loop
  would swallow as "not this shape", is not modelled. The lookups here are
  map reads.
- Generators (`_split_out_of_braces`, `positional_args`) are modelled as the
  finite sequences they produce. Laziness is not modelled.
- Regular expressions are matched by hand-written scanners, one per
  pattern the code uses. The general regex engine is not modelled.
- Quoting.SplitOn: the separator is a single character. A
  multi-character or empty `sep`, which the code pastes into a character
  class, is not modelled.
- Quoting.SplitOnPlain and Quoting.TokensPlain require the separator not to
  be a backslash. Inside the character class, a backslash would escape the
  quote that follows it.
