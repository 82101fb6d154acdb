# yamltrimmer core in Dafny

yamltrimmer reads a YAML document and writes back a trimmed copy. The copy
keeps only the keys named by a tree of inclusion rules (`IncludeConfigItem`:
a key, plus optional nested rules for that key's value). This project models
that trimming engine, `filterByRules`, and the structural part of `trim`. It
also models the two small helpers that decide where the input comes from:
`isURL`, and `generateFileName`, which names the cache files after the URL's
MD5 digest.

The model works on values, not on yaml.v3's node pointers:

- `Yaml.Node` holds the node fields the trimmer reads or sets: kind, style,
  scalar text and the flat content list. A mapping's content alternates key
  and value nodes.
- `Projection` holds the specification:
  - `Project` is the recursive function over rules and input.
  - `Scan` is the inner loop that walks a mapping two entries at a time.
  - `Conforms`, `IsEntry`, `Selected` and `DistinctKeys` are the reference
    predicates the lemmas state properties in.
- `Filter.FilterByRules` is the loop program. Its outer loop runs over the
  rules and its inner loop over the content, stepping by two, exactly as in
  the Go code. It is proved equal to `Project` on every input, error paths
  included. `Filter.Trim` unwraps the parsed document node and calls it.
- `ProjectionLemmas` proves what the output holds, and in what order:
  - each output pair comes from the first matching key;
  - each value is copied as is, or projected again when the rule has nested
    rules;
  - projection fails exactly when the input does not match the rule tree;
  - a projection with no matches gives the empty mapping, and only then.
- `Idempotence` proves that trimming an already trimmed document with the
  same rules changes nothing, provided sibling rules have distinct keys.
- `Sources` models `isURL` and `generateFileName`. The MD5 function is a
  parameter; the `%x` hex formatting is modelled explicitly.
- `Examples` works the three cases of the Go test table out on concrete
  documents. It also gives a counterexample to idempotence when sibling
  rules repeat a key and carry nested rules.

How the Go failure modes are modelled:

- `logrus.Fatalf` ends the process. Here it is an `Err` result:
  - `NotAMapping` when a rule forest meets a node that is not a mapping;
  - `MultipleDocuments` when the parsed document has more than one top-level
    node.
- The returned error "no content in the input YAML" is `EmptyDocument`.
- The inner loop reads `Content[i+1]` before it compares the key, so a
  trailing key with no value panics with an index out of range. That panic
  is `IndexOutOfRange(|content|, |content|)`. It happens only when no
  earlier key matched.
- A nested failure stops the whole projection: the process exits, so no
  partial output exists.

Trimming is not idempotent in general. Pairwise distinct sibling keys, at
every depth, are enough for it (`Idempotence.ProjectIdempotent`). Repeated
keys that carry nested rules can break it. Take two sibling rules for the
same key `a`, one keeping `x` and one keeping `y`. They emit the first `a`
pair twice, once with `x` and once with `y`. On a second pass, both rules
find the first of these again, and it no longer holds `y`
(`Examples.RepeatedKeysBreakIdempotence`). Repeated keys without nested
rules only copy the same pair again, and such outputs can still project back
to themselves (`Examples.RepeatedPlainKeysIdempotent`).

## Model

| member | source | states |
|---|---|---|
| Projection.Project | cmd/yamltrimmer.go:156-163 | A non-mapping input fails with `NotAMapping` naming that node. A successful result is a mapping with the input's style and no scalar text, holding an even number of nodes and at most two per rule. |
| Projection.ProjectPairs | cmd/yamltrimmer.go:166-188 | The rules are applied in order, and the first failing rule's error is the result. On success the content forms whole key/value pairs, at most one pair per rule. |
| Projection.ProjectRule | cmd/yamltrimmer.go:168-186 | A single rule adds either nothing or exactly one key/value pair. |
| Projection.Scan | cmd/yamltrimmer.go:168-172 | A match is a key position at or after the start, its value is in range, and its key text equals the rule key. Running out of range happens only by reading one past the end. |
| Filter.FilterByRules | cmd/yamltrimmer.go:156-189 | The nested loops plus recursion compute exactly `Project`: the same output mapping, or the same error. |
| Filter.Trim | cmd/yamltrimmer.go:199-212 | An empty document fails with `EmptyDocument`. More than one top-level node fails with `MultipleDocuments` and its count. Otherwise the result is the projection of the single document node. |
| ProjectionLemmas.ScanFindsFirstKey | cmd/yamltrimmer.go:168-185 | The inner loop finds a key exactly when the key occurs among the mapping's pair keys, and then at the first pair carrying it. It runs out of range exactly when the key is absent and a trailing key follows. |
| ProjectionLemmas.ScanFindsKey | cmd/yamltrimmer.go:168-172 | A search from the first node finds the key exactly when it is among the pair keys, and then at the pair of its first occurrence. It runs out of range exactly when the key is absent and the content ends in a key without a value. |
| ProjectionLemmas.PresentRule | cmd/yamltrimmer.go:172-185 | For a key that is present, the rule copies the first matching key node. Without nested rules it copies the value node too. With nested rules it copies the value's projection, or passes on that projection's error. |
| ProjectionLemmas.RuleAtTrailingKey | cmd/yamltrimmer.go:168-170 | A rule whose search reaches a trailing key without a value fails with an index-out-of-range error. |
| ProjectionLemmas.AbsentKeyAppendsNothing | cmd/yamltrimmer.go:166-187 | In well-formed (even) content, a rule whose key is absent adds nothing and does not fail. |
| ProjectionLemmas.RuleMeaning | cmd/yamltrimmer.go:172-185 | A successful rule adds nothing if its key is absent. Otherwise it adds the first matching key node and its value, copied or projected onto the nested rules. |
| ProjectionLemmas.FailedPrefixFails | cmd/yamltrimmer.go:166-188 | Once a rule has failed, later rules are never looked at, and the projection fails with that error. |
| ProjectionLemmas.PairsMeaning | cmd/yamltrimmer.go:166-188 | The output holds two nodes per rule whose key is present. The p-th pair is the entry the p-th such rule selects. |
| ProjectionLemmas.ProjectEntries | cmd/yamltrimmer.go:166-187 | A successful projection holds exactly one key/value pair per rule whose key occurs in the input, in rule order. Each pair is that rule's first matching key node with its value copied or projected further. |
| ProjectionLemmas.ProjectKeyOrder | cmd/yamltrimmer.go:166-174 | The output's keys, in order, are the keys of the rules present in the input, in rule declaration order, not input order. |
| ProjectionLemmas.ProjectSucceedsIffConforms | cmd/yamltrimmer.go:157-159 | Projection succeeds if and only if the input is a mapping and every rule conforms. Conformance is stated over the mapping's pair keys, not over the search. A rule whose key is absent conforms when the content has no trailing key. A rule whose key is present conforms when it has no nested rules, or when the value of the first pair with that key conforms to them. |
| ProjectionLemmas.PairsSucceedIffRulesConform | cmd/yamltrimmer.go:166-188 | The fold over the rules succeeds if and only if each rule conforms to the content. |
| ProjectionLemmas.RuleSucceedsIffConforms | cmd/yamltrimmer.go:168-185 | One rule succeeds if and only if it conforms. |
| ProjectionLemmas.AbsentRuleOk | cmd/yamltrimmer.go:168-170 | A rule whose key is absent succeeds exactly when the content has no trailing key. |
| ProjectionLemmas.PresentRuleOk | cmd/yamltrimmer.go:172-185 | A rule whose key is present succeeds exactly when it has no nested rules, or when the first value with that key projects onto them. |
| ProjectionLemmas.NestedMismatchFails | cmd/yamltrimmer.go:157-159 | A rule with nested rules whose key's first value is not a mapping makes the whole projection fail. When the input is a mapping and the rules before it succeed, the error is `NotAMapping` of that very value node. |
| ProjectionLemmas.NoMatchGivesEmptyMapping | cmd/yamltrimmer.go:161-163 | A well-formed mapping in which no rule's key occurs projects to the empty mapping with the input's style, not to an error. |
| ProjectionLemmas.EmptyOutputOnlyWithoutMatch | cmd/yamltrimmer.go:166-187 | Conversely, an empty output only arises when no rule's key occurs in the input. |
| Idempotence.ProjectIdempotent | cmd/yamltrimmer.go:156-189 | With pairwise distinct sibling keys at every depth, projecting a projection's output through the same rules returns that output unchanged. |
| Examples.SimpleFiltering | cmd/yamltrimmer/yamltrimmer_test.go:19-38 | Keeping `cache` from `{cache: {...}, database: {...}}` copies `cache` and its whole value. |
| Examples.NestedFiltering | cmd/yamltrimmer/yamltrimmer_test.go:39-67 | Nested rules keep `database.host` and only `username` under `database.credentials`. |
| Examples.NoMatchingKeys | cmd/yamltrimmer/yamltrimmer_test.go:68-83 | A rule for a key that does not occur yields `{}`. |
| Examples.ScalarUnderNestedRules | cmd/yamltrimmer.go:157-159 | Nested rules applied under a scalar value fail, naming that scalar. |
| Examples.RepeatedKeysBreakIdempotence | cmd/yamltrimmer.go:166-185 | For rules that repeat a sibling key, a first projection succeeds, but projecting its output again gives a different result. |
| Examples.RepeatedPlainKeysIdempotent | cmd/yamltrimmer.go:166-185 | Rules that repeat a key without nested rules turn `{a: 1}` into `{a: 1, a: 1}`, which projects back to itself: distinct keys are sufficient for idempotence, not necessary. |
| Sources.HasPrefix | cmd/yamltrimmer.go:57 | `strings.HasPrefix`: the prefix is no longer than the string and agrees with it character by character. `Sources.HasPrefixIffSplits` characterises it as "some suffix completes the prefix to the string". |
| Sources.IsURL | cmd/yamltrimmer.go:55-58 | An input is a URL exactly when it has at least 7 characters, starts with `http`, and continues with `://` or with `s://`. `Sources.IsURLIffScheme` restates this as "`http://` or `https://` followed by anything". |
| Sources.GenerateFileName | cmd/yamltrimmer.go:148-154 | The name starts with the hex digest text. It is exactly that long for the empty extension, and one `.` plus the extension longer otherwise. `Sources.FileNameRoundTrip` and `Sources.FileNameInjective` show that the digest and the extension can be read back from the name. |
| Sources.HasPrefixIffSplits | cmd/yamltrimmer.go:57 | The prefix test holds exactly when some suffix completes the prefix to the string. |
| Sources.IsURLIffScheme | cmd/yamltrimmer.go:55-58 | An input is a URL exactly when it is `http://` or `https://` followed by anything. |
| Sources.IsURLExamples | cmd/yamltrimmer.go:55-58 | An `https://` URL counts as a URL. A plain path, an `ftp://` URL and an upper-case `HTTP://` URL do not. |
| Sources.Hex | cmd/yamltrimmer.go:149 | The `%x` text of a digest has two characters per byte, all lower-case hex digits. |
| Sources.UnhexHex | cmd/yamltrimmer.go:149 | The `%x` text determines the digest: reading the digit pairs back gives the bytes. |
| Sources.FileNameRoundTrip | cmd/yamltrimmer.go:148-154 | A cache file name splits at its first `.` into the URL's hex digest and the extension. The name contains a `.` exactly when the extension is not empty. |
| Sources.FileNameInjective | cmd/yamltrimmer.go:148-154 | For one URL, two extensions give the same file name if and only if they are equal. |
| Sources.CacheFilesDistinct | cmd/yamltrimmer.go:301-302 | The cached copy (`""`) and its ETag record (`"etag"`) never share a file name. |
| Sources.SameNameSameDigest | cmd/yamltrimmer.go:148-154 | Two URLs get the same cache file name for an extension only when their MD5 digests are equal. |

## Left out

- YAML parsing and serialisation (`yaml.Unmarshal`, the encoder with indent 2, lines 191-197 and 215-224). These are foreign library code. The model starts from the parsed node tree and ends at the output node.
- `parseConfiguration`, `isFile`, `downloadFile`, `checkCacheAndDownload` and `main`. These are file, network and command-line I/O.
- Logging (`logrus.Debugf`) is left out. The difference between a returned error and a process exit (`logrus.Fatalf`) or a panic is not kept: all three are an `Err` value. Message texts are not modelled.
- MD5 itself is a foreign crypto call. It is a parameter `md5: string -> seq<byte>`. The `[]byte(url)` UTF-8 conversion is folded into it.
- Filter.FilterByRules: the Go function writes into a caller-supplied output node through a pointer. The model returns the node instead, so it does not capture that pointer out-parameter. The Go output also shares the copied key and value nodes with the input by pointer. That sharing is invisible in a value model, so the input being left unchanged holds by construction.
- Node fields the trimmer neither reads nor sets are not modelled: tag, anchor, alias target, comments, line and column. The output mapping gets only kind, style and content, as the Go code gives it; its scalar text is the empty string.
- Projection.Scan: keys are compared by their scalar text only, as `keyNode.Value == rule.Key` does. A non-scalar key node with equal text therefore matches too.
- Idempotence.ProjectIdempotent requires pairwise distinct sibling keys: with a repeated key carrying nested rules, a second pass differs (`Examples.RepeatedKeysBreakIdempotence`). Idempotence for rule trees that repeat keys but happen to be idempotent is not characterised.
- Multiple-document support, which the code marks as to-do, is not modelled beyond the `MultipleDocuments` error.
