# json-filter core in Dafny

This project models the core of json-filter, a small Java library that filters a Gson
JSON tree with a path expression such as `a,b(c,d)`. There are two filters:

- The **inclusion filter** keeps only the named members. It keeps them recursively, and it applies the same path to every element of an array.
- The **exclusion filter** removes the named members. A member is removed when its path ends at it. When the path continues below it, the filter goes inside the member instead.

Both filters share a parser. The parser splits an expression at its top-level commas and matches each piece against the node pattern. It builds a tree of `Node`s under a synthetic `ROOT` node. Finally it merges siblings that share a key.

Modules, following the Java classes:

| module | models |
|---|---|
| `Nodes` | `Node`: a key plus either no sub-nodes (`Absent`, Java `null`) or a list of children. Also covers its string form. |
| `Text` | The character classes of the node pattern, `String.trim` and `Collectors.joining(",")`. |
| `Splitter` | `NodeParser.splitByTopLevelCommas`, written both as a function and as the source's one-pass loop. |
| `NodeParser` | The node pattern, `createNode`, `parseNode`, `parseNodes` and `parse`. A thrown `IllegalArgumentException` becomes a `Failure`. |
| `NodeMerger` | Both `merge` methods. The insertion-ordered `LinkedHashMap` is modelled as an association list. |
| `Json` | The part of Gson the filters use: a JSON value, `JsonObject.has/get/add/remove` and arrays. |
| `InclusionFilter`, `ExclusionFilter` | The two filters, each with a reference description of what they keep. |
| `RoundTrip` | The renderer and the parser are inverse on the trees the parser produces. |
| `Complement` | For a flat key list, the two filters split an object's members between them. |
| `Examples` | Concrete expressions and documents from the library's documentation and tests. |

The node pattern `^([a-zA-Z0-9_\s]*)(\(([a-zA-Z0-9,()_\s]*)\))?$` is replaced by a deterministic matcher, `MatchNode`. Its contract ties it to the pattern in both directions:

- whatever it returns, the pattern accepts;
- whenever the pattern accepts a token, the matcher returns exactly those captures.

`\s` is Java's six regex white-space characters. `String.trim` strips every character up to U+0020.

## What `key()` means

One might expect `key()` to give a node with an empty list of sub-nodes. The code gives something else. The splitter always returns at least one token, so the empty text between the parentheses becomes one token, `""`. That token is parsed as a child whose key is empty. So `key()` parses to `key` with the single child `Node("", Absent)`, and the empty expression parses to `ROOT` with that same child.

The model follows the code (`Examples.ParseEmpty`, `Examples.ParseEmptyParentheses`). The rendering is still `key()` and `ROOT()`. Inclusion with `""` keeps no member of an object without an empty key, and exclusion with `""` keeps all of them (`Examples.IncludeEmptyExpression`, `Examples.ExcludeEmptyExpression`). The same holds one level down for `prop()`. This matches the library's tests.

## Model

| member | source | states |
|---|---|---|
| Nodes.Render | src/main/java/org/czeal/jsonfilter/Node.java:144-158 | A rendering starts with the node's key. It is exactly the key when there are no sub-nodes. Otherwise the key is followed by a parenthesised part. |
| Nodes.RenderMatchesDocumentedPattern | src/main/java/org/czeal/jsonfilter/Node.java:49-56 | When every key is over `[a-zA-Z0-9_]`, the rendering has the string form documented on `Node`. |
| Nodes.AbsentDiffersFromEmpty | src/main/java/org/czeal/jsonfilter/Node.java:172-190 | A node without sub-nodes and a node with an empty list are unequal, and they render differently (`k` against `k()`). |
| Text.TrimSpec | src/main/java/org/czeal/jsonfilter/NodeParser.java:188 | The result is the input with its leading and trailing characters up to U+0020 removed, and nothing else. |
| Text.TrimIdempotent | src/main/java/org/czeal/jsonfilter/NodeParser.java:188 | Trimming twice is trimming once. |
| Splitter.SplitByTopLevelCommas | src/main/java/org/czeal/jsonfilter/NodeParser.java:87-118 | The one-pass loop with a depth counter returns the reference tokens. There is one token more than there are top-level commas, and every token is already trimmed. |
| Splitter.PiecesSplitAtTopLevelCommas | src/main/java/org/czeal/jsonfilter/NodeParser.java:87-118 | The untrimmed pieces, joined with commas, give back the input. Each cut is a comma at depth zero, and no piece contains one. |
| Splitter.TopLevelSplitUnique | src/main/java/org/czeal/jsonfilter/NodeParser.java:87-118 | Any split at exactly the top-level commas is the splitter's split. |
| Splitter.PiecesWithoutComma | src/main/java/org/czeal/jsonfilter/NodeParser.java:87-118 | A text without commas is a single piece, however unbalanced its parentheses. |
| Splitter.TokenCount | src/main/java/org/czeal/jsonfilter/NodeParser.java:95-115 | Commas inside parentheses never start a token. The token count is one plus the number of commas met at depth zero. |
| NodeParser.MatchNode | src/main/java/org/czeal/jsonfilter/NodeParser.java:81 | The matcher succeeds exactly when the node pattern accepts the token. Its groups 1 and 3 are the only captures the pattern admits. |
| NodeParser.PatternSplitsAtKeyPrefix | src/main/java/org/czeal/jsonfilter/NodeParser.java:81 | Group 1 of any accepted match is the longest prefix of key characters. |
| NodeParser.PatternGroups | src/main/java/org/czeal/jsonfilter/NodeParser.java:81 | The pattern accepts a token with at most one set of captures: group 1 is the longest key prefix, and group 3 is the text between the outer parentheses. |
| NodeParser.TrimmedKeyWellFormed | src/main/java/org/czeal/jsonfilter/NodeParser.java:188 | A trimmed run of key characters is a key of the shape the parser produces. |
| NodeParser.CreateNode | src/main/java/org/czeal/jsonfilter/NodeParser.java:186-189 | The node's key is the trimmed key. It has no sub-nodes exactly when there was no text for them. It fails only on a token the pattern rejects. |
| NodeParser.ParseNode | src/main/java/org/czeal/jsonfilter/NodeParser.java:192-210 | A token the pattern rejects fails with that token. A token of key characters only gives the node of its trimmed text with no sub-nodes. Every result has the parser's shape. |
| NodeParser.ParseNodeKey | src/main/java/org/czeal/jsonfilter/NodeParser.java:186-209 | For every token that parses, the node's key is group 1 of the match, trimmed. |
| NodeParser.PaddedKey | src/main/java/org/czeal/jsonfilter/NodeParser.java:186-209 | A key-only token padded with regex white space on either side parses to the node of the bare key. |
| NodeParser.PaddedKeyBeforeList | src/main/java/org/czeal/jsonfilter/NodeParser.java:186-209 | White space around the key of a token with parentheses changes nothing: the token parses as the one with the bare key, and the node's key is the bare key. |
| Text.TrimPadded | src/main/java/org/czeal/jsonfilter/NodeParser.java:188 | Trimming a trimmed string padded on both sides with characters up to U+0020 gives back the string. |
| NodeParser.ParseTokens | src/main/java/org/czeal/jsonfilter/NodeParser.java:225-227 | The stream succeeds exactly when every token parses. It then yields their nodes in order, one per token. A failure carries the error of some token. |
| NodeParser.ParseNodes | src/main/java/org/czeal/jsonfilter/NodeParser.java:213-228 | No text gives no sub-nodes. Text gives a list with one node per top-level token, one more than the top-level commas. A failure names a rejected token. |
| NodeParser.Parse | src/main/java/org/czeal/jsonfilter/NodeParser.java:172-183 | A missing expression gives a bare `ROOT`. Otherwise the result is a `ROOT` with a list whose siblings have distinct keys at every level. Failures come only from rejected tokens. |
| NodeParser.MergeKeepsWellFormed | src/main/java/org/czeal/jsonfilter/NodeParser.java:179-182 | Merging a parsed tree keeps its shape: trimmed keys, and no empty lists. |
| NodeMerger.Merge | src/main/java/org/czeal/jsonfilter/NodeMerger.java:74-77 | A `null` node stays `null`. Otherwise the key is kept and the result is merged. |
| NodeMerger.MergeNode | src/main/java/org/czeal/jsonfilter/NodeMerger.java:74-77 | The merge keeps the key and keeps whether sub-nodes are present. It keeps the emptiness of the list, and the result has no repeated sibling keys. |
| NodeMerger.MergeSubNodes | src/main/java/org/czeal/jsonfilter/NodeMerger.java:110-115 | A `null` list stays `null`. A list is empty after the merge exactly when it was empty before. |
| NodeMerger.MergeList | src/main/java/org/czeal/jsonfilter/NodeMerger.java:110-142 | There is one output node per map entry, with the entry's key. Sub-nodes are absent exactly when the entry is `null`. Keys are distinct, and the output is empty exactly when the input is. |
| NodeMerger.Emit | src/main/java/org/czeal/jsonfilter/NodeMerger.java:138-141 | There is one node per entry, in entry order, with the entry's key. Sub-nodes are absent exactly when the entry is `null`. |
| NodeMerger.AbsorbTracks | src/main/java/org/czeal/jsonfilter/NodeMerger.java:119-135 | One loop iteration keeps the map in step with the siblings read so far. Each key keeps its first-seen position and holds its reference accumulation. |
| NodeMerger.CollectTracks | src/main/java/org/czeal/jsonfilter/NodeMerger.java:117-136 | After the loop, the map has one entry per distinct key in first-seen order. Each entry holds every child of that key's siblings, in order. It is `null` when no sibling had a list. |
| NodeMerger.MergeListSpec | src/main/java/org/czeal/jsonfilter/NodeMerger.java:110-142 | The merged siblings carry exactly the input's keys, each once, in first-occurrence order. Each is `null` if no occurrence had a list, and otherwise the merge of all its occurrences' children. |
| NodeMerger.CollectDistinct | src/main/java/org/czeal/jsonfilter/NodeMerger.java:117-136 | Siblings with distinct keys each get their own entry, unchanged and in order. |
| NodeMerger.MergeNodeKeepsMerged | src/main/java/org/czeal/jsonfilter/NodeMerger.java:74-77 | A tree without repeated sibling keys is a fixed point of the merge. |
| NodeMerger.MergeListKeepsMerged | src/main/java/org/czeal/jsonfilter/NodeMerger.java:110-142 | Merged siblings with distinct keys come back unchanged. |
| NodeMerger.MergeIdempotent | src/main/java/org/czeal/jsonfilter/NodeMerger.java:74-77 | Merging twice is merging once. |
| Json.Has | src/main/java/org/czeal/jsonfilter/InclusionFilter.java:165 | `has` holds exactly when the key is among the object's member keys. |
| Json.Get | src/main/java/org/czeal/jsonfilter/InclusionFilter.java:170 | `get` returns the value of a member with that key. |
| Json.Put | src/main/java/org/czeal/jsonfilter/ExclusionFilter.java:190 | After `add`, the key reads back the new value. An existing key keeps its place, and a new key is appended. |
| Json.Remove | src/main/java/org/czeal/jsonfilter/ExclusionFilter.java:186 | After `remove`, the key is gone and exactly one member fewer remains. A missing key leaves the object as it was. |
| Json.GetPutOther | src/main/java/org/czeal/jsonfilter/ExclusionFilter.java:190 | `add` under one key changes neither the presence nor the value of any other key. |
| Json.GetRemoveOther | src/main/java/org/czeal/jsonfilter/ExclusionFilter.java:186 | `remove` of one key changes neither the presence nor the value of any other key. |
| Json.PutKeepsDistinct | src/main/java/org/czeal/jsonfilter/InclusionFilter.java:172 | `add` keeps an object's keys distinct. |
| Json.RemoveKeepsDistinct | src/main/java/org/czeal/jsonfilter/ExclusionFilter.java:186 | `remove` keeps the keys distinct and removes exactly the given key from the key list. |
| InclusionFilter.Apply | src/main/java/org/czeal/jsonfilter/InclusionFilter.java:110-114 | It fails exactly when the expression is rejected, with the parser's error. A missing expression keeps the document whole. Objects keep distinct keys. |
| InclusionFilter.Include | src/main/java/org/czeal/jsonfilter/InclusionFilter.java:117-140 | Null stays null and primitives are copied. An object at a terminal node is copied whole. Arrays are filtered element by element with the same node. An object keeps exactly its keys named by a sub-node. |
| InclusionFilter.Pick | src/main/java/org/czeal/jsonfilter/InclusionFilter.java:159-174 | After the first `n` sub-nodes, the target holds exactly the source keys named among them, each once. |
| InclusionFilter.PickIsSelected | src/main/java/org/czeal/jsonfilter/InclusionFilter.java:159-176 | With distinct sub-node keys, the loop builds the reference description: one member per named key the source has, in sub-node order. |
| InclusionFilter.SelectedMembers | src/main/java/org/czeal/jsonfilter/InclusionFilter.java:143-177 | The kept keys are the sub-node keys the source has, in sub-node order. Each value is the source's value filtered by that key's sub-node. |
| InclusionFilter.IncludeObject | src/main/java/org/czeal/jsonfilter/InclusionFilter.java:143-177 | An object filtered by a merged node is the reference description. |
| InclusionFilter.TerminalKeepsEverything | src/main/java/org/czeal/jsonfilter/InclusionFilter.java:148-153 | A node without sub-nodes keeps every value unchanged, inside arrays too. |
| InclusionFilter.IncludeKeepsWellFormed | src/main/java/org/czeal/jsonfilter/InclusionFilter.java:117-195 | Filtering keeps the keys of every object distinct. |
| ExclusionFilter.Apply | src/main/java/org/czeal/jsonfilter/ExclusionFilter.java:115-119 | It fails exactly when the expression is rejected, with the parser's error. A missing expression removes the whole document. Objects keep distinct keys. |
| ExclusionFilter.Filter | src/main/java/org/czeal/jsonfilter/ExclusionFilter.java:122-135 | Null stays null, a `null` node keeps the value whole, and otherwise the node filter applies. |
| ExclusionFilter.Exclude | src/main/java/org/czeal/jsonfilter/ExclusionFilter.java:122-162 | The result is null exactly when the source is null or the node is terminal. Primitives are copied, and arrays are filtered element by element. An object keeps its unnamed members unchanged and never gains a key. |
| ExclusionFilter.Drop | src/main/java/org/czeal/jsonfilter/ExclusionFilter.java:165-196 | After the first `n` sub-nodes, the copy has no key the source lacked. Members not named so far are kept with their values. |
| ExclusionFilter.Step | src/main/java/org/czeal/jsonfilter/ExclusionFilter.java:172-192 | One iteration adds no key and leaves every other key and its value untouched. |
| ExclusionFilter.PrunedKeys | src/main/java/org/czeal/jsonfilter/ExclusionFilter.java:165-196 | The reference description keeps a subset of the source keys, and they stay distinct. |
| ExclusionFilter.DropIsPruned | src/main/java/org/czeal/jsonfilter/ExclusionFilter.java:165-196 | With distinct sub-node keys, the loop on the copy builds the reference description. |
| ExclusionFilter.ExcludeObject | src/main/java/org/czeal/jsonfilter/ExclusionFilter.java:147-151 | An object filtered by a merged node is the reference description. |
| ExclusionFilter.PrunedMembership | src/main/java/org/czeal/jsonfilter/ExclusionFilter.java:170-193 | A source key stays exactly when no sub-node names it, or the named sub-node's filter of its value is not null. A kept value is that filter's result, or the source value when the key is unnamed. |
| ExclusionFilter.NamedNullMemberRemoved | src/main/java/org/czeal/jsonfilter/ExclusionFilter.java:124-128 | A member whose value is JSON null is removed whenever a sub-node names it, whatever the sub-node's own children. |
| ExclusionFilter.ExcludeKeepsWellFormed | src/main/java/org/czeal/jsonfilter/ExclusionFilter.java:122-214 | Filtering keeps the keys of every object distinct. |
| RoundTrip.RenderedTokens | src/main/java/org/czeal/jsonfilter/NodeParser.java:87-118 | The comma-joined renderings of parser-shaped siblings split back into exactly those renderings. |
| RoundTrip.ParseRender | src/main/java/org/czeal/jsonfilter/NodeParser.java:192-210 | A parser-shaped node renders to a token that parses back to the same node. |
| RoundTrip.ParseRenderedList | src/main/java/org/czeal/jsonfilter/NodeParser.java:213-228 | The comma-joined renderings of parser-shaped siblings parse back to those siblings. |
| RoundTrip.ReparseRendering | src/main/java/org/czeal/jsonfilter/NodeParser.java:172-183 | Rendering the children of a parse result and parsing that text again gives the same result. |
| RoundTrip.ParseOfRendering | src/main/java/org/czeal/jsonfilter/NodeParser.java:172-183 | Merged, parser-shaped siblings are exactly what the expression formed by their renderings parses to. |
| Complement.IncludedValues | src/main/java/org/czeal/jsonfilter/InclusionFilter.java:161-174 | For a flat key list, every value the inclusion filter keeps is the source's own. |
| Complement.ExcludedMembership | src/main/java/org/czeal/jsonfilter/ExclusionFilter.java:170-193 | For a flat key list, a key survives exclusion exactly when the source has it and the list does not name it, and its value is unchanged. |
| Complement.FlatListPartitions | src/main/java/org/czeal/jsonfilter/InclusionFilter.java:143-177 | For a flat key list, every source key is kept by exactly one of the two filters. Neither filter introduces a key, and kept values are unchanged. |
| Examples.ParseMissing | src/test/java/org/czeal/jsonfilter/NodeParserTest.java:28-34 | A missing expression parses to `ROOT`, rendered `ROOT`. |
| Examples.ParseEmpty | src/test/java/org/czeal/jsonfilter/NodeParserTest.java:38-44 | The empty expression parses to `ROOT` with one empty-key child, rendered `ROOT()`. |
| Examples.ParseEmptyParentheses | src/main/java/org/czeal/jsonfilter/NodeParser.java:192-210 | `k()` parses to `k` with one empty-key child, not to an empty list. |
| Examples.KeyEmptyParentheses | src/main/java/org/czeal/jsonfilter/NodeParser.java:186-228 | For any parser-shaped key `k`, the token `k()` parses to `k` with one empty-key child. |
| Examples.ParseTwoKeys | src/main/java/org/czeal/jsonfilter/NodeParser.java:172-183 | `a,b` parses to `ROOT(a,b)`. |
| Examples.ParseMergesSiblings | src/test/java/org/czeal/jsonfilter/NodeParserTest.java:58-64 | `a(b(c),b(d))` parses to the tree rendered `ROOT(a(b(c,d)))`. |
| Examples.ParseUnbalanced | src/test/java/org/czeal/jsonfilter/NodeParserTest.java:78-83 | `a(b` is rejected, and the error names the token `a(b`. |
| Examples.IncludeTwoKeys | src/main/java/org/czeal/jsonfilter/InclusionFilter.java:143-177 | Including `a,b` from `{"a":1,"b":2,"c":3}` gives `{"a":1,"b":2}`. |
| Examples.ExcludeTwoKeys | src/main/java/org/czeal/jsonfilter/ExclusionFilter.java:165-196 | Excluding `a,b` from `{"a":1,"b":2,"c":3}` gives `{"c":3}`. |
| Examples.IncludeEmptyKeyOnly | src/main/java/org/czeal/jsonfilter/InclusionFilter.java:143-177 | For any object without an empty key and any key `k`, including by `k` over a single empty-key child gives `{}`. |
| Examples.ExcludeEmptyKeyOnly | src/main/java/org/czeal/jsonfilter/ExclusionFilter.java:165-196 | For any object without an empty key and any key `k`, excluding by `k` over a single empty-key child leaves the object unchanged. |
| Examples.IncludeEmptyExpression | src/test/java/org/czeal/jsonfilter/InclusionFilterTest.java:97-103 | Including with `""` from any object without an empty key gives `{}`. |
| Examples.ExcludeEmptyExpression | src/test/java/org/czeal/jsonfilter/ExclusionFilterTest.java:96-102 | Excluding with `""` leaves any object without an empty key unchanged. |
| Examples.ParsePropParentheses | src/test/java/org/czeal/jsonfilter/InclusionFilterTest.java:248-253 | `prop()` parses to `ROOT` over `prop` with one empty-key child. |
| Examples.IncludePropParentheses | src/test/java/org/czeal/jsonfilter/InclusionFilterTest.java:248-253 | Including with `prop()` from `{"prop": o}` gives `{"prop":{}}` for any object `o` without an empty key. |
| Examples.ExcludePropParentheses | src/test/java/org/czeal/jsonfilter/ExclusionFilterTest.java:246-251 | Excluding with `prop()` from `{"prop": o}` leaves it unchanged for any object `o` without an empty key. |
| Examples.ExcludeMissingExpression | src/main/java/org/czeal/jsonfilter/ExclusionFilter.java:137-145 | Excluding with a missing expression turns any document into JSON null. |

## Left out

- `FilterFactory`, `FilterType` and the `Filter` interface: they only select one of the two filters and are not part of this model.
- Gson itself is not modelled. Parsing and printing JSON text are left out. A `JsonPrimitive` is kept as its text and never interpreted.
- `deepCopy`: values are immutable here, so a copy is the value itself. Aliasing and mutation of the copies are not modelled.
- A Java `null` source and `JsonNull` are both `JNull`. The filters treat them alike, and both return `JsonNull.INSTANCE`.
- `Node.hashCode`, `getKey` and `getSubNodes`: hashing is not modelled, and the accessors are the datatype's fields. `Node.equals` is Dafny's structural equality.
- The regular-expression engine: the node pattern is replaced by `NodeParser.MatchNode`, which is proved to accept exactly what the pattern accepts.
- The `@throws IllegalArgumentException` for an invalid source element: every modelled `Json` value is valid, so only the parser's exception is modelled.
- The whitespace example `"  a (  b ( c ) , b ( d ) )  ,  e  "` from NodeParserTest.java:68-74 is not proved as a concrete instance. White space around a key is covered by `NodeParser.PaddedKey` and `NodeParser.PaddedKeyBeforeList`. White space around a whole token is removed by `Splitter.SplitByTopLevelCommas`, which trims every token. No lemma states the whole example at once.
- NodeParser.ParseTokens takes a length bound on its tokens. The bound exists only so that termination can be proved, and `ParseNodes` passes the input's length.
- InclusionFilter.IncludeObject: the reference description is proved only for sub-node lists with distinct keys, which is every list a parse result has (`NodeParser.Parse` ensures it). A node built by hand with repeated keys is still filtered by `Pick`, where a later sub-node overwrites an earlier one in place. No lemma describes that case.
- ExclusionFilter.ExcludeObject: proved only for distinct sub-node keys and an object with distinct keys, for the same reason. With repeated sub-node keys, `Drop` filters the already-edited value again, as the source does.
- ExclusionFilter.Filter: its `null`-node branch cannot be reached from `apply`, because the parser never returns `null` and no list holds `null`. It is modelled but used only through `Filter`.
