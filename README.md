# Nextflow action helpers, modelled in Dafny

This project models the logic at the core of three GitHub Actions that
support Nextflow pipelines:

- **run-nextflow-tests** turns the Java-properties dump that
  `nextflow config` prints into a nested JSON tree (`parse_config`,
  `parse_value`, `_parse_list_value`, `_parse_dict_value`). It diffs that tree
  against the expected tree (`diff_json`). Finally it decides a
  configuration test (`check_results`): it drops seven namespaces, ignores
  timestamp-only differences in dated fields, and saves a rewritten record
  when the test fails.
- **build-and-deploy-docs** does two things:
  - it orders release tags (`TAG_REGEX`, `sort_key`) and picks the
    documentation version and its `latest` alias (`get_version_and_alias`);
  - it splits a README's Markdown token stream into one page per H2, names
    the pages by GitHub heading anchors, records which page holds each
    anchor, rewrites fragment-only links, and builds the mkdocs
    configuration and navigation.
- **render-and-deploy-docs** has two scripts. Each splits a README line by
  line into one section per `## ` header, names each section's file, and
  writes an mkdocs configuration whose navigation lists the sections.

## Modules

- `wrappers.dfy`: `Option` and `Result`.
- `text.dfy`: the string operations the scripts use, on ASCII:
  - `strip`, `lower`/`casefold`, `split`, `join`, `replace`, `rsplit`;
  - decimal digits;
  - the ordering Python uses for strings.
- `nodes.dfy`: the JSON tree.
  - Dicts are association lists in insertion order.
  - `Equal` is Python's `==`, which compares dicts without regard to order.
  - `Null` stands for the `None` that `diff_json` pads with.
- `values.dfy`: `parse_value` and the two literal parsers, together with the
  four regular expressions of `utils.py` written out as predicates.
  - The list loop is the method `ParseListValue`; its body is
    `ScanCharacter`.
  - The dict loop is `ParseDictValue`.
  - Both are proved equal to the functions `ParseList` and `ParseDict`.
- `literals.dfy`: what the two literal parsers return for a whole input,
  stated without their loops.
  - A list without brackets inside holds the values of its `,`-pieces.
  - A dict holds, for each key, the value of the last `, `-token that
    names it.
- `dates.dfy`: the `\d{8}T\d{6}Z` timestamp pattern.
  - Replacing timestamps with the sentinel `19970704T165655Z` is
    `MaskDates`.
  - Deleting them is `DeleteDates`.
- `canonical.dfy`: `json.loads(json.dumps(config, sort_keys=True))` seen as
  recursive key sorting.
- `config.dfy`: `parse_config` with `assign_value`, the manifest-version
  search and the key pattern.
- `diff.dfy`: `diff_json`, as a specification function `Diff` and as the
  method `DiffJson` with the source's loops.
- `resultcheck.dfy`: the post-processing in `check_results`.
- `tags.dfy`: tag matching, sort keys, and version/alias selection.
- `pages.dfy`: the builder of `build-and-deploy-docs/create_mkdocs_config.py`.
- `sections.dfy`: the two `render-and-deploy-docs` scripts.

Inputs that the scripts read from processes, files or the environment are
parameters here:

- the lines of `git tag --points-at HEAD`;
- the versions listed by `mike list`;
- the Markdown token stream;
- the README's lines;
- the repository name;
- the result tree of a test run.

## Model

Several rows state properties of specification functions, each of which models one function of
the source: `ValueParser.ParseValue` is `parse_value`, `JsonDiff.Diff` is `diff_json`,
`Config.Parse` is `parse_config`, `Config.MaskValue` is the two masking `if`s of `parse_config`,
`ResultCheck.Check` is `check_results` of `NextflowConfigTest`, `Tags.MatchTag` is a match of
`TAG_REGEX`, `Tags.SortKey` is `sort_key`, `Tags.VersionAndAlias` is `get_version_and_alias`,
`Pages.SanitizeLink` is `sanitize_link`, and `Sections.SplitLines` is the line loop of
`split_readme` in the render scripts.

| member | source | states |
|---|---|---|
| ValueParser.ValueValid | run-nextflow-tests/utils.py:123-153 | Whatever `parse_value` returns is a well-formed tree: every dict has unique keys and nothing is `None`. |
| ValueParser.ListBranch | run-nextflow-tests/utils.py:138-139 | A bracketed value that is neither a closure nor a pointer is parsed by the list parser. |
| ValueParser.PlainBranch | run-nextflow-tests/utils.py:144-151 | A value that is none of closure, pointer, list, dict, `true` and `false` becomes its stripped and unescaped text. |
| ValueParser.PlainToken | run-nextflow-tests/utils.py:150-151 | A token with no space, backslash, bracket or special prefix parses to itself as a string. |
| ValueParser.SpacedElement | run-nextflow-tests/utils.py:92 | An element cut after `, ` starts with a space, so it falls through to the string branch and is stripped. |
| ValueParser.UnescapeEscape | run-nextflow-tests/utils.py:13 | Unescaping undoes backslash-escaping of space, `=` and `:` whenever no two escapable characters are adjacent and the text does not start with one. |
| ValueParser.AdjacentEscapesStay | run-nextflow-tests/utils.py:13 | Matches of the escape pattern do not overlap, so the second of two adjacent escapes keeps its backslash. |
| ValueParser.DictKey | run-nextflow-tests/utils.py:118 | A parsed value can be a dict key exactly when it is a string or a bool; a list or dict key raises. |
| ValueParser.MaskPointer | run-nextflow-tests/utils.py:135-136 | The masked text keeps everything up to and including the last `;@`. The word characters from there to the end of the match are replaced by `dec0ded`, and a final newline stays. |
| ValueParser.ParseList | run-nextflow-tests/utils.py:69-100 | A list literal that parses gives a list node. |
| LiteralShapes.FlatList | run-nextflow-tests/utils.py:69-100 | A list literal without braces or parentheses inside parses exactly when every `,`-piece of its body parses, and then holds their values in order. The last piece is kept only when it has at least two characters. |
| ValueParser.ListStep | run-nextflow-tests/utils.py:82-93 | One character moves the element start no further than past it, and adds at most the one element that ends there. |
| ValueParser.ParseDict | run-nextflow-tests/utils.py:103-120 | A dict literal that parses gives a dict node. |
| LiteralShapes.DictOkIff | run-nextflow-tests/utils.py:103-120 | A dict literal parses exactly when every `, `-token has a hashable parsed key and a parsed value. A token without `\=` makes it fail, as the two-name unpacking of `split` raises. |
| LiteralShapes.DictNoSeparator | run-nextflow-tests/utils.py:111-113 | A token without `\=` makes the whole dict literal fail. |
| LiteralShapes.DictHasKey | run-nextflow-tests/utils.py:111-118 | Each token of a parsed dict has a hashable parsed key, and that key is in the dict. |
| LiteralShapes.DictKeyFromToken | run-nextflow-tests/utils.py:111-118 | Every key of the dict is the parsed key of some token. |
| LiteralShapes.DictLastWins | run-nextflow-tests/utils.py:111-118 | The value of a key is the parsed right side of the last token with that key. |
| LiteralShapes.FoldIsPutAll | run-nextflow-tests/utils.py:103-120 | The token loop succeeds exactly when every token yields a key-value pair, and then builds the dict those pairs give when assigned one after another into an empty dict. |
| ValueParser.Unescape | run-nextflow-tests/utils.py:13 | Unescaping never lengthens text and leaves text without a backslash unchanged. |
| ValueParser.ListValid | run-nextflow-tests/utils.py:69-100 | A parsed list holds only well-formed trees. |
| ValueParser.ScanStep | run-nextflow-tests/utils.py:82-93 | Character by character: `{` and `(` push their closer; a closer pops only a matching top and otherwise fails; a top-level `,` cuts off the current element; anything else leaves the state alone. |
| ValueParser.ListScanFails | run-nextflow-tests/utils.py:86-88 | Once a closer has failed to match, the whole scan fails. |
| ValueParser.ScanCharacter | run-nextflow-tests/utils.py:81-93 | One turn of the character loop: the new stack, element start and parsed elements are those of the scan one character further; a failure means that scan or an element's parse fails. |
| ValueParser.FinishList | run-nextflow-tests/utils.py:95-100 | After the loop, an open bracket fails the list, and a trailing element is parsed only when it has at least two characters. |
| ValueParser.ParseListValue | run-nextflow-tests/utils.py:69-100 | The list loop returns exactly the list parser's result, failures included. |
| ValueParser.EmptyList | run-nextflow-tests/utils.py:97 | `[]` parses to the empty list. |
| ValueParser.SingleCharacterListIsEmpty | run-nextflow-tests/utils.py:97-98 | A list whose only element is one character parses to the empty list: that element is dropped. |
| ValueParser.ParseTwo | run-nextflow-tests/utils.py:81-98 | `[x,y]` with plain elements gives `[x, y]` when `y` has two characters or more, and only `[x]` otherwise. |
| ValueParser.TwoElementList | run-nextflow-tests/utils.py:90-98 | The same result for the list written as `"[" + x + "," + y + "]"`. |
| ValueParser.DictValid | run-nextflow-tests/utils.py:103-120 | A parsed dict has unique keys and well-formed values. |
| ValueParser.ParseDictValue | run-nextflow-tests/utils.py:103-120 | The dict loop returns exactly the dict parser's result, failures included. |
| ValueParser.EmptyDictFails | run-nextflow-tests/utils.py:110-116 | `{}` raises: its only token is empty and has no `\=`. |
| ValueParser.StoreDigit | run-nextflow-tests/utils.py:112-118 | The token `a\=d` stores the string `d` under the key `a`. |
| ValueParser.DuplicateKeyOverwrites | run-nextflow-tests/utils.py:118 | In `{a\=1, a\=2}` the later value wins, and the key keeps its first position. |
| Nodes.Put | run-nextflow-tests/utils.py:167 | Dict assignment: the key maps to the new value, other keys keep their values and positions, and a new key goes last. |
| Nodes.PutUnique | run-nextflow-tests/utils.py:167 | Assignment keeps keys unique. |
| Nodes.Remove | run-nextflow-tests/configtest.py:237 | `dict.pop(key, None)`: the key is gone and every other entry stays. |
| Nodes.EqualReflexive | run-nextflow-tests/utils.py:26 | Every well-keyed tree equals itself. |
| Config.SplitLinesUnbroken | run-nextflow-tests/utils.py:192 | No line that `splitlines` yields contains a line boundary. |
| Config.SplitLinesContent | run-nextflow-tests/utils.py:192 | Concatenated, the lines are the text with its line boundaries removed. |
| Config.FirstManifest | run-nextflow-tests/utils.py:177-188 | The version is the rest of the first line that starts with `manifest`, any character except a newline, then `version=`; without such a line there is no version. |
| Config.MasksFields | run-nextflow-tests/utils.py:161-188 | `manifest.version` joins the version fields exactly when a version was found; the caller's list stays a prefix of the copy. |
| Config.MaskOnlyListed | run-nextflow-tests/utils.py:203-210 | A key in neither list keeps its value. Outside the version fields, or when the version is missing or empty, only a dated key's timestamps change. |
| Config.SplitFrom | run-nextflow-tests/utils.py:160 | The lazy key pattern splits at the first `=` it can: the key has at least two characters, no whitespace except possibly its last, and does not end in a backslash. |
| Config.OneCharacterKeyRejected | run-nextflow-tests/utils.py:192-199 | `a=1` has no split point, so `parse_config("a=1", …)` raises `ValueError` naming the line; `ab=1` splits after `ab`. |
| Config.EscapedEqualsInKey | run-nextflow-tests/utils.py:201-203 | An escaped `=` stays in the key; the key is then unescaped. |
| Config.Assign | run-nextflow-tests/utils.py:163-174 | Assigning a dotted key adds its first segment as a top-level key and leaves every other top-level key unchanged; a `json_object` leaf at the top changes nothing. |
| Config.AssignStores | run-nextflow-tests/utils.py:163-174 | After assignment, following the dotted key through the tree finds the parsed value, unless the leaf is `json_object`. |
| Config.AssignIgnoresJsonObject | run-nextflow-tests/utils.py:164-167 | For a `json_object` leaf the result does not depend on the value text at all: it is never parsed or stored. |
| Config.AssignValid | run-nextflow-tests/utils.py:163-174 | Assignment keeps the tree well-formed. |
| Config.ParseValid | run-nextflow-tests/utils.py:156-215 | A parsed config is well-formed and its keys are sorted at every level. |
| Config.ParseConfig | run-nextflow-tests/utils.py:156-215 | The line loop returns exactly the specification `Parse`, errors included. |
| Config.BlankSkipped | run-nextflow-tests/utils.py:193-195 | A line that strips to nothing changes nothing: the rest of the loop gives the same result without it. |
| Config.BlankLinesIgnored | run-nextflow-tests/utils.py:192-195 | The loop over all the lines gives the same dict or error as the loop over the non-blank lines alone. |
| Config.LineRejected | run-nextflow-tests/utils.py:193-199 | A non-blank line the key pattern does not match raises `ValueError` naming the stripped line, whatever the dict built so far. |
| Config.ParseAborts | run-nextflow-tests/utils.py:192-199 | One such line anywhere among the lines makes the whole loop end in an error. |
| Config.ParseRejects | run-nextflow-tests/utils.py:156-199 | If any line of the text is non-blank and has no split point, `parse_config` raises. |
| Config.LineAssigns | run-nextflow-tests/utils.py:197-212 | A matched line assigns, under its unescaped key, the text after the `=` with its timestamps and version masked. |
| Config.StoredByLine | run-nextflow-tests/utils.py:201-212 | After a matched line whose leaf is not `json_object`, the dict looks up under the line's dotted key `parse_value` of the masked text. |
| Config.StoredByLastLine | run-nextflow-tests/utils.py:192-212 | The key on the last line keeps the value that line stores, whatever the lines before it built. |
| Config.CanonLookup | run-nextflow-tests/utils.py:215 | Sorting the keys loses no value: the sorted tree finds, under every dotted key the unsorted one finds, a value Python-equal to it. |
| Config.ParseStoresLast | run-nextflow-tests/utils.py:156-215 | In the dict `parse_config` returns, the dotted key of the text's last line (leaf not `json_object`) looks up a value Python-equal to `parse_value` of that line's masked text. |
| Dates.SentinelIsDate | run-nextflow-tests/utils.py:206 | The sentinel `19970704T165655Z` is itself a timestamp of the pattern's shape. |
| Dates.ReplaceDatesNoDate | run-nextflow-tests/utils.py:206 | Text without a timestamp is left unchanged. |
| Dates.MaskKeepsShape | run-nextflow-tests/utils.py:206 | Replacing timestamps with a timestamp keeps every digit a digit and every other character in its class. |
| Dates.ReplaceAfterMask | run-nextflow-tests/utils.py:206 | A substitution after masking gives the same text as substituting the original. |
| Dates.MaskDatesIdempotent | run-nextflow-tests/utils.py:206 | Masking twice is masking once. |
| Dates.DeleteDates | run-nextflow-tests/configtest.py:246 | Deleting timestamps never lengthens text, text without a timestamp is unchanged, and a leading timestamp removes at least its 16 characters. |
| Dates.DeleteDatesOfMask | run-nextflow-tests/configtest.py:246 | Masked and unmasked text agree once timestamps are deleted. |
| Canonical.SortEntries | run-nextflow-tests/utils.py:215 | Sorting the keys is a permutation of the entries. |
| Canonical.SortEntriesSorted | run-nextflow-tests/utils.py:215 | With unique keys, the sorted entries are in strictly ascending key order. |
| Canonical.CanonEqual | run-nextflow-tests/utils.py:215 | The JSON round trip gives a tree equal to its input with sorted keys at every level. |
| Canonical.CanonDeterministic | run-nextflow-tests/utils.py:215 | Equal trees have the same canonical form, whatever their key order. |
| JsonDiff.DiffSelf | run-nextflow-tests/utils.py:26-28 | A tree has no differences from itself. |
| JsonDiff.DiffEmptyIff | run-nextflow-tests/utils.py:17-66 | For trees without `None`, the diff is empty exactly when the trees are equal. |
| JsonDiff.PaddingHidesLength | run-nextflow-tests/utils.py:53-55 | Padding with `None` hides a trailing `None`: `[None]` and `[]` differ but give no difference. |
| JsonDiff.DiffMismatch | run-nextflow-tests/utils.py:30-32 | Unequal values that are not both dicts or both lists give exactly the one triple `("", a, b)`. |
| JsonDiff.MapDiffShape | run-nextflow-tests/utils.py:34-48 | All triples from the first dict's keys come before all triples for keys only the second dict has. |
| JsonDiff.MapDiffOnlyFirst | run-nextflow-tests/utils.py:43-44 | A key only the first dict has yields `(key, value, None)`, with the bare key as its path. |
| JsonDiff.MapDiffOnlySecond | run-nextflow-tests/utils.py:46-48 | A key only the second dict has yields `(key, None, value)`. |
| JsonDiff.MapDiffShared | run-nextflow-tests/utils.py:36-42 | Each difference under a shared key appears with `.key` in front of its path. |
| JsonDiff.ListDiffShape | run-nextflow-tests/utils.py:50-60 | Every triple of a list diff has a path starting `[i]` with `i` below the longer length; each comes from the items at `i`, padded with `None`; triples are in index order. |
| JsonDiff.ListDiffItem | run-nextflow-tests/utils.py:53-60 | Every difference of the items at `i` appears with `[i]` in front of its path. |
| JsonDiff.AppendPrefixed | run-nextflow-tests/utils.py:55-60 | The inner loop appends the sub-diff's triples, each path prefixed, to the results. |
| JsonDiff.DiffJson | run-nextflow-tests/utils.py:17-66 | The looping differ returns exactly `Diff`. |
| ResultCheck.DropKeys | run-nextflow-tests/configtest.py:226-237 | Dropping a set of keys keeps exactly the entries whose key is not in the set, and removes exactly those keys. |
| ResultCheck.DropBoringKeys | run-nextflow-tests/configtest.py:236-237 | Popping the seven keys one by one removes exactly those keys. |
| ResultCheck.RemoveDropKeys | run-nextflow-tests/configtest.py:237 | Popping one more key is the same as dropping it with the others. |
| ResultCheck.StripDots | run-nextflow-tests/configtest.py:245 | The path without leading dots is no longer than the path and does not start with a dot. |
| ResultCheck.StripDotsSuffix | run-nextflow-tests/configtest.py:245 | `re.sub(r"^\.+", "", path)` removes the leading dots and nothing else. |
| ResultCheck.Pop | run-nextflow-tests/configtest.py:247 | `list.pop(index)` removes the one element and keeps the others in order. |
| ResultCheck.KeptStep | run-nextflow-tests/configtest.py:243-247 | Walking backwards, each triple is popped or kept in front of the survivors after it. |
| ResultCheck.KeptCrash | run-nextflow-tests/configtest.py:246 | A dated triple whose sides are not both strings makes `re.sub` raise, and so makes the whole check raise. |
| ResultCheck.FilterDates | run-nextflow-tests/configtest.py:242-247 | The backwards pop loop leaves exactly the triples that are not timestamp noise, in their order, or raises. |
| ResultCheck.KeptIsSubsequence | run-nextflow-tests/configtest.py:243-247 | The survivors are a subsequence of the differences. A triple survives exactly when it is a difference that is not timestamp noise: its dotless path is not dated, or its sides still differ once timestamps are deleted. |
| ResultCheck.KeptEmptyIff | run-nextflow-tests/configtest.py:242-249 | Nothing survives exactly when every triple is timestamp noise. |
| ResultCheck.PassIff | run-nextflow-tests/configtest.py:239-266 | The test passes exactly when every difference is a dated field that differs only in timestamps. |
| ResultCheck.CheckPass | run-nextflow-tests/configtest.py:249-266 | The verdict is `True` exactly when the filter leaves no triple. |
| ResultCheck.PassWhenEqual | run-nextflow-tests/configtest.py:236-266 | A result equal to the expected tree, once the seven keys are dropped, passes. |
| ResultCheck.MaskedDateIsNoise | run-nextflow-tests/configtest.py:245-247 | A dated field whose value only had its timestamps masked is noise, in either direction. |
| ResultCheck.RewrittenRecord | run-nextflow-tests/configtest.py:256-262 | The record saved for a failing test is the test with `expected_result` replaced by the result without the seven keys. |
| ResultCheck.CheckResults | run-nextflow-tests/configtest.py:225-266 | The imperative check returns exactly the verdict `Check`. |
| Tags.MatchFormatted | build-and-deploy-docs/action.py:18-26 | The pattern reads back the version of a well-formed tag, whatever follows that cannot extend the tag: there is no end anchor. |
| Tags.KeyOfFormatted | build-and-deploy-docs/action.py:29-54 | The corrected key of a tag is `(major, minor, patch, rc)` with a missing rc on top; as written the key raises `IndexError`. |
| Tags.SortKeyAsWrittenRaises | build-and-deploy-docs/action.py:47-53 | `v1.2.3` matches, yet `sort_key` as written raises on it, with either setting of `strings_high`. |
| Tags.KeysOfFinals | build-and-deploy-docs/action.py:35-38 | `v1.2.3` and `v1.2.4` get their final-release keys. |
| Tags.KeysOfCandidates | build-and-deploy-docs/action.py:36-37 | `v1.2.4-rc.1` and `v1.2.4-rc.2` get their candidate keys. |
| Tags.FormattedOrder | build-and-deploy-docs/action.py:29-54 | Well-formed tags compare by their corrected keys exactly as their versions rank. |
| Tags.DocstringChain | build-and-deploy-docs/action.py:33-38 | With either setting of `strings_high`, the corrected keys order v1.2.3 < v1.2.4-rc.1 < v1.2.4-rc.2 < v1.2.4. |
| Tags.FinalAboveCandidates | build-and-deploy-docs/action.py:40-41 | A final release ranks above each of its own candidates. |
| Tags.KeyOfTagged | build-and-deploy-docs/action.py:47 | A string that begins with a tag is keyed by that tag's numbers; the rest is ignored. |
| Tags.StringsAtTheEnds | build-and-deploy-docs/action.py:55-63 | Non-version strings rank below every version under the low key and above under the high key; among themselves they are ordered as strings. |
| Tags.KeyLessIrreflexive | build-and-deploy-docs/action.py:49-59 | No key is below itself. |
| Tags.KeyLessTransitive | build-and-deploy-docs/action.py:49-59 | The key order is transitive. |
| Tags.KeyLessTotal | build-and-deploy-docs/action.py:49-59 | Any two different keys are ordered. |
| Tags.HeadTags | build-and-deploy-docs/action.py:106-112 | Every head tag matches the pattern. |
| Tags.Filter | build-and-deploy-docs/action.py:106-112 | The list comprehension keeps only elements that pass its test. |
| Tags.FilterEmpty | build-and-deploy-docs/action.py:114 | The filtered list is empty exactly when no element passes. |
| Tags.HeadTagsComplete | build-and-deploy-docs/action.py:106-112 | Every stripped line that matches is a head tag. |
| Tags.HeadTagsSound | build-and-deploy-docs/action.py:106-112 | Every head tag comes from a line. |
| Tags.MaxIndex | build-and-deploy-docs/action.py:118 | `max` picks the first position whose key no other exceeds. |
| Tags.BelowMax | build-and-deploy-docs/action.py:118 | A key is above the maximum exactly when it is above every key. |
| Tags.AboveHighestDoc | build-and-deploy-docs/action.py:125-127 | A key is above the highest published version exactly when it is above each published version. |
| Tags.Untagged | build-and-deploy-docs/action.py:114-116 | Without a matching head tag, the result is `("development", None)`. |
| Tags.HighestHeadTag | build-and-deploy-docs/action.py:106-118 | Otherwise the version is a matching head tag that no head tag outranks. |
| Tags.LatestIff | build-and-deploy-docs/action.py:121-130 | The alias is `latest` exactly when the version outranks every published version, or `v0.0.0` when none is published; otherwise it is `None`. |
| Tags.AsWrittenTaggedCommitRaises | build-and-deploy-docs/action.py:103-130 | As written, `get_version_and_alias` returns only for untagged commits. |
| Pages.DashSpaces | build-and-deploy-docs/create_mkdocs_config.py:97 | Each whitespace character becomes `-`, and nothing else changes. |
| Pages.DropSpecials | build-and-deploy-docs/create_mkdocs_config.py:98 | Only word characters and `-` remain, and the result is never longer. |
| Pages.DropSpecialsCounts | build-and-deploy-docs/create_mkdocs_config.py:98 | Each word character and `-` is kept as many times as it occurs. |
| Pages.DropSpecialsKeeps | build-and-deploy-docs/create_mkdocs_config.py:98 | Text made only of word characters and `-` is unchanged. |
| Pages.DropSpecialsConcat | build-and-deploy-docs/create_mkdocs_config.py:98 | The substitution works character by character: on a concatenation it is the concatenation of the results, so kept characters stay in order. |
| Pages.Anchor | build-and-deploy-docs/create_mkdocs_config.py:90-99 | An anchor consists of lower-case word characters and `-`. |
| Pages.AnchorHasNoSpace | build-and-deploy-docs/create_mkdocs_config.py:90-99 | An anchor holds no whitespace. |
| Pages.AnchorIdempotent | build-and-deploy-docs/create_mkdocs_config.py:97-99 | The anchor of an anchor is itself. |
| Pages.FileName | build-and-deploy-docs/create_mkdocs_config.py:109-113 | A page's file name is never empty: its explicit file name, or its title's anchor with `.md`. |
| Pages.TakeToken | build-and-deploy-docs/create_mkdocs_config.py:139-154 | One turn of the `pairwise` loop. An H2 opens a page, each heading records its anchor, and the token joins the current page. A heading as the last token, or a repeated anchor, fails. |
| Pages.Step | build-and-deploy-docs/create_mkdocs_config.py:139-154 | A step that succeeds leaves a heading only with a token after it and gives the pages that the token's turn produces. |
| Pages.SplitPages | build-and-deploy-docs/create_mkdocs_config.py:134-154 | A split that succeeds has at least the Home page. |
| Pages.SplitReadme | build-and-deploy-docs/create_mkdocs_config.py:134-154 | The page loop returns exactly the split `SplitPages`. |
| Pages.SplitKeepsTokens | build-and-deploy-docs/create_mkdocs_config.py:136-154 | The first page is Home at `index.md`, there is one more page per H2, and the pages' tokens, concatenated, are the input in order. |
| Pages.SplitTitles | build-and-deploy-docs/create_mkdocs_config.py:141-147 | Each page after Home starts with its H2, holds no other H2, is titled by that heading's text and is named by its anchor. |
| Pages.SplitAnchors | build-and-deploy-docs/create_mkdocs_config.py:141-152 | Each heading's anchor names the file of the page the heading lands in; an H2's anchor names its own page; no two headings share an anchor. |
| Pages.SplitSucceedsIff | build-and-deploy-docs/create_mkdocs_config.py:139-152 | The split fails exactly when a heading is the last token or two headings share an anchor. |
| Pages.UntouchedLinks | build-and-deploy-docs/create_mkdocs_config.py:156-161 | Links with a scheme or host, and links with neither path nor fragment, are returned unchanged. |
| Pages.LinkToHeading | build-and-deploy-docs/create_mkdocs_config.py:212-222 | A fragment-only link naming a heading, by its text or by its anchor, goes to that heading's page followed by `#fragment`. |
| Pages.TableOfContents | build-and-deploy-docs/create_mkdocs_config.py:248-257 | One `{title: filename}` entry per page, in page order. |
| Text.AfterLast | build-and-deploy-docs/create_mkdocs_config.py:264 | `rsplit('/', 1)[-1]`: the result is a `/`-free suffix of the text, preceded by `/` whenever it is shorter than the text. |
| Pages.PipelineNameLast | build-and-deploy-docs/create_mkdocs_config.py:262-265 | The pipeline name is the text after the last `/`, or the whole name when there is none. |
| Pages.DefaultBuild | build-and-deploy-docs/create_mkdocs_config.py:281-291 | Without a config file, the site is named after the repository, `repo_url` is the GitHub address, and the nav is the README's pages. |
| Pages.BuiltNavigation | build-and-deploy-docs/create_mkdocs_config.py:310-317 | The nav is Home, then one entry per H2 named by its anchor, then the configured entries. Nothing else in the config changes. |
| Sections.HeaderOfHeaderLine | render-and-deploy-docs/create_mkdocs_config.py:58-59 | The header is the right-stripped line without its `## `; a line that is only `##` and whitespace keeps `##`. |
| Sections.DocFileNameShape | render-and-deploy-docs/create_mkdocs_config.py:64-69 | Home is `index.md`; any other section's file is its name in lower case, spaces turned to `-`, plus `.md`. |
| Sections.SharedFileName | render-and-deploy-docs/create_mkdocs_config.py:64-69 | A section headed `Index` gets the same file as Home. |
| Sections.SplitReadme | render-and-deploy-docs/create_mkdocs_config.py:54-88 | The line loop returns exactly the sections and paths of `SplitLines`; `build_config_yaml_from_readme.py` lines 25-59 run the same loop. |
| Sections.SplitLinesSections | render-and-deploy-docs/create_mkdocs_config.py:54-88 | One section per distinct name, in order of first appearance. Each holds, in input order, its header lines and the lines up to the next header. Its path is its name's file. |
| Sections.PreambleDropped | render-and-deploy-docs/create_mkdocs_config.py:72-73 | Without a header line nothing is kept. |
| Sections.UnderStartsWithHeader | render-and-deploy-docs/build_config_yaml_from_readme.py:29-34 | Every section begins with its own header line. |
| Sections.OrderDistinct | render-and-deploy-docs/build_config_yaml_from_readme.py:34 | No section is listed twice. |
| Sections.Reopen | render-and-deploy-docs/create_mkdocs_config.py:63-70 | A repeated header adds its line to the section it names and changes neither the order of sections nor any path. |
| Sections.PipelineNameOf | render-and-deploy-docs/create_mkdocs_config.py:98-101 | The pipeline name is the second `/`-separated segment; a name without `/` raises. |
| Sections.PipelineNameOfLonger | render-and-deploy-docs/create_mkdocs_config.py:100 | Segments after the second are ignored. |
| Sections.PipelineNameFromEnvironment | render-and-deploy-docs/build_config_yaml_from_readme.py:69-77 | The prefix loop discards what `replace` returns, so the second segment comes back unchanged. |
| Sections.NavOfAt | render-and-deploy-docs/build_config_yaml_from_readme.py:92 | Each path becomes the entry pairing its section with the file's base name. |
| Sections.NavOf | render-and-deploy-docs/create_mkdocs_config.py:140-141 | One nav entry per path. |
| Sections.BaseNameOfPlain | render-and-deploy-docs/build_config_yaml_from_readme.py:92 | For a section name without `/`, the base name of its file is the file name itself. |
| Sections.AppendNav | render-and-deploy-docs/create_mkdocs_config.py:140-141 | The append loop adds one entry per path, in order, after the existing nav. |
| Sections.BuildRenderConfig | render-and-deploy-docs/create_mkdocs_config.py:126-141 | Without a config file, the built configuration is the default one with the sections' entries appended to its nav. |
| Sections.ConfigsAgree | render-and-deploy-docs/build_config_yaml_from_readme.py:85-95 | Both scripts write the same configuration. The site name is the second segment, `repo_url` is the GitHub address, and the nav has one entry per section in first-appearance order, pairing the section with its file name. |

## Left out

- Running Nextflow in Docker, temporary files, environment and mount arguments, and the splitting of its stdout are not modelled. `check_results` starts from the result tree of such a run, given as a parameter.
- Printing the remaining differences and writing the rewritten record to disk are left out. `Fail` carries the record that would be written. Whether the test has a file path to write beside is not modelled: the record is produced either way.
- The command-line entry point of the test runner is not part of this model.
- The git and mike subprocess calls are replaced by their outputs, given as lists of lines and versions.
- Markdown tokenising and rendering are left out, and so are MIME sniffing, path resolution, image copies and the file-path branch of `sanitize_link`. In `Pages.SanitizeLink` that branch's result is a parameter. Only the token stream's `(type, tag, content)` is modelled, and only the top-level tokens, not the nested children the link walk visits.
- The image-line rewriting in both `split_readme` loops is left out, because it depends on files existing and uses the path as a regex. Each line is kept as read.
- YAML and JSON reading and writing are left out, together with argument parsing, the `None` config-file check, and the config-file branch of `get_mkdocs_config_data`. In `render-and-deploy-docs/create_mkdocs_config.py` that branch returns nothing, so a run with a config file would fail on `config_data['nav']`.
- Config.Parse: the JSON round trip is modelled as recursive key sorting. `json.dumps` turns bool keys into `true`/`false` (ValueParser.DictKey does this at parse time) and raises `TypeError` on dicts mixing string and bool keys; that error is not modelled.
- Text.IsSpace, Text.IsWordChar, Text.Lower: `\s`, `\w`, `\d`, `strip`, `lower` and `casefold` are restricted to ASCII.
- Tags.KeyLess: `sys.maxsize` is a top element above every version number rather than the integer 2**63-1, and `High` keys are placed above every release key without comparing their string against a number.
- ValueParser.ParseValue: all exceptions raised while parsing a value are one error, `Invalid`. `parse_config` distinguishes the `ValueError` of a malformed line (`Malformed`) from anything raised further down (`Failed`).
- Nodes.Node has no number constructor. `parse_value` never yields numbers, but JSON numbers in a test's expected-result file are outside the model. So is Python's `1 == True` and `1 == 1.0` in the `alpha == beta` test of `diff_json`.
- Pages.SanitizeLink takes the result of `urlparse(url)` as a parameter, `link`, that is not tied to `url`. URL parsing is not modelled.

## Findings

| source | as written | input that shows it | evidently intended | confidence | as-written member | corrected member |
|---|---|---|---|---|---|---|
| build-and-deploy-docs/action.py:47-53 | `sort_key` reads `numbers[4]`, but `TAG_REGEX` has only four groups, so `numbers[4]` raises `IndexError` for every tag that matches. `IndexError` is not the caught `AttributeError`, so `get_version_and_alias` fails on every tagged commit. | `v1.2.3` (any head tag that matches) | read the `rc` group, `numbers[3]`: a missing rc ranks as `sys.maxsize`, as the docstring orders v1.2.3 < v1.2.4-rc.1 < v1.2.4-rc.2 < v1.2.4 | not executed | Tags.SortKeyAsWrittenRaises | Tags.FormattedOrder |
