# Dependency-tree preprocessing — a Dafny model

This project models how the classical question parser of PPP (`ppp_nlp_classical`) turns
one parsed sentence into a dependency tree.
The parser (Stanford CoreNLP) delivers three things: edges `[relation, governor key,
dependent key]` over keys of the form `word-index`, per-word annotations (part of speech,
named-entity tag) and the sentence text.
From these, `preprocessing.py` does the following:

- it creates one `DependenciesTree` node per key, with a single-word word list;
- it wires parent, child and dependency links edge by edge (`computeEdges`);
- it back-fills part-of-speech and named-entity tags (`computeTags`);
- it looks up the root `ROOT-0` and gives every node below it the sentence text
  (`initText`);
- it offers the destructive `merge` primitive and the word-order helper `getWords`;
- it normalises words bottom-up (`normalize`, `normalizeWord`, `nounifyExcept`,
  `nounify`).

The model is an arena.
`Tree.Forest` is a class whose field `nodes: seq<Node>` holds every node of one parse.
A node is referred to by its position (`NodeId`).
A merged-away node keeps its slot, with `wordList == None`.
The dictionary `nameToNodes` is a `map<string, NodeId>`.
Every operation the source performs by mutation is a method on the arena.
Each method is proved equal to a specification function of the old arena.
The properties the source relies on are lemmas about those functions.

Modules:

- `Wrappers`: `Option` and `Result`.
- `Words`: the `Word` record, the stable sort by index, and the join.
- `Keys`: parsing and building `word-index` keys.
- `Tree`: the node record, node creation, `initText`, `merge`, the arena class, and ghost
  subtree sets.
- `Build`: `computeEdges`, `computeTags`, and the `computeTree` sequence up to `initText`.
- `Lexicon`: the verb→noun table and the candidate choice of `nounify`.
- `Normalization`: `normalizeWord` and the post-order walk `normalize`.

The source recurses along child links with no depth bound.
On a parse with a cycle reachable from `ROOT-0`, `initText` recurses until Python's
recursion limit raises `RecursionError`.
The model therefore takes a ghost `rank` (one natural number per node, each child ranked
below its parent) wherever it walks the tree.
`ComputeTree` takes a ghost ranking of the keys instead: each edge's dependent key ranks
below its governor key.
`Build.BuiltRanked` proves that this key ranking yields a valid node ranking for the
arena that `computeEdges` builds.

Three behaviours of the code that are easy to miss:

- `computeTags` calls `isalnum()` on the whole surface form (`word[0]` is the surface
  string).
  It does not test only the first character, so `a.m.` or `e-mail` are not tagged.
- `merge` does not clear `other.parent`.
  It removes only the first occurrence of `other` from its parent's child list
  (`list.remove`).
- `merge` with `self` being the parent of `other` therefore leaves `self.child` as the
  old `self.child`, followed by `other.child`, with the first `other` removed.

## Model

| member | source | states |
|---|---|---|
| Keys.LastHyphen | ppp_nlp_classical/preprocessing.py:14 | `rindex('-')`: absent exactly when the key has no `-`; otherwise a position holding `-` with no `-` after it |
| Keys.ParseKey | ppp_nlp_classical/preprocessing.py:14 | a key without `-` fails with `NoHyphen`; a key with `-` that fails does so with `BadIndex`; on success the word is the text before the last `-`, the rest is decimal and the index is its value, with no tag yet |
| Keys.ParseSplitKey | ppp_nlp_classical/preprocessing.py:14 | every `w + "-" + d` with decimal `d` parses to word `w` and index `d`, whatever hyphens `w` holds |
| Keys.NatToStringValue | ppp_nlp_classical/preprocessing.py:14 | `int(str(n)) == n` for every non-negative `n` |
| Keys.KeyRoundTrip | ppp_nlp_classical/preprocessing.py:14 | the key built from `w` and `i` parses back to word `w` at index `i` |
| Keys.KeyOf | ppp_nlp_classical/preprocessing.py:100 | the key `computeTags` rebuilds from a surface form and its 1-based position; `Keys.KeyRoundTrip` and `Keys.KeyOfInjective` state what it is worth |
| Keys.NatToString | ppp_nlp_classical/preprocessing.py:100 | the decimal notation of the position is a non-empty run of digits without a hyphen |
| Keys.NatToStringNoLeadingZero | ppp_nlp_classical/preprocessing.py:100 | the notation begins with `0` only for zero, as `str` writes it, so the rebuilt key is spelled as the parser spells it |
| Keys.KeyOfInjective | ppp_nlp_classical/preprocessing.py:100 | two (surface form, position) pairs give the same key only if they are equal |
| Tree.FreshNodeOfKey | ppp_nlp_classical/preprocessing.py:13-19 | the node made from `w-i` holds the single word `w` at index `i`, tags `undef`, dependency `undef`, no children, no parent, empty text |
| Tree.FreshNode | ppp_nlp_classical/preprocessing.py:13-19 | the node a key gives: the word parsed from the key as its only word, tag and dependency `undef`, no children, no parent, empty text; or the key's parse error (stated for built keys by `Tree.FreshNodeOfKey`) |
| Tree.Forest.NewNode | ppp_nlp_classical/preprocessing.py:13-19 | appends the node made from the key and returns its reference, or leaves the arena unchanged and reports why the key is malformed |
| Words.Insert | ppp_nlp_classical/preprocessing.py:55 | inserting into a list sorted by index keeps it sorted and adds exactly that word |
| Words.SortByIndex | ppp_nlp_classical/preprocessing.py:55 | the result is sorted by index and is a permutation of the input |
| Words.SortSortedIsIdentity | ppp_nlp_classical/preprocessing.py:64 | a list already sorted by index is returned unchanged |
| Words.SortIdempotent | ppp_nlp_classical/preprocessing.py:64 | sorting a second time is a no-op |
| Tree.Forest.GetWords | ppp_nlp_classical/preprocessing.py:60-65 | replaces the node's word list by its sorted version, changes nothing else, and returns the sorted words joined by single spaces |
| Words.JoinWords | ppp_nlp_classical/preprocessing.py:65 | the joined text is as long as the word texts together plus one separator between each two neighbours |
| Words.JoinWordsAppend | ppp_nlp_classical/preprocessing.py:65 | joining two non-empty lists one after the other is joining each and putting a single space between |
| Tree.InitTextAt | ppp_nlp_classical/preprocessing.py:110-116 | every node reachable from `id` gets text `s`; every other node and every link stays as it was |
| Tree.InitTextAll | ppp_nlp_classical/preprocessing.py:115-116 | the same for the subtrees of a list of children |
| Tree.InitText | ppp_nlp_classical/preprocessing.py:110-116 | the recursive method leaves exactly the arena `InitTextAt` describes |
| Tree.InitTextChildren | ppp_nlp_classical/preprocessing.py:115-116 | the loop over the children leaves exactly the arena `InitTextAll` describes |
| Tree.RemoveFirst | ppp_nlp_classical/preprocessing.py:57 | `list.remove`: one element shorter, exactly one occurrence of the value gone (which one, and the order of the rest, is `Tree.RemoveFirstKeepsOrder`) |
| Tree.RemoveFirstKeepsOrder | ppp_nlp_classical/preprocessing.py:57 | the occurrence removed is the first one, and the other elements keep their order |
| Tree.Reparent | ppp_nlp_classical/preprocessing.py:51-52 | the listed nodes get parent `self`; all other nodes are unchanged |
| Tree.AdoptChildren | ppp_nlp_classical/preprocessing.py:50 | only `self` changes, and only its child list |
| Tree.UniteWords | ppp_nlp_classical/preprocessing.py:53-55 | only `self` changes, and only its word list |
| Tree.Detach | ppp_nlp_classical/preprocessing.py:56-57 | only the parent of `other` (if any) changes, and only its child list |
| Tree.Tombstone | ppp_nlp_classical/preprocessing.py:58 | only `other` changes: its word list becomes `None` |
| Tree.MergeNodes | ppp_nlp_classical/preprocessing.py:44-58 | the arena after `merge`: adopt `other.child`, reparent them, unite the words when asked, detach `other` from its parent, drop its words, in that order; the arena keeps its size, and the `Merge…` lemmas below state the effect |
| Tree.MergeParentList | ppp_nlp_classical/preprocessing.py:56-57 | the former parent's child list after `merge` is its list before the detaching step (with `other.child` appended when it is `self`) less the first `other` |
| Tree.MergeMovesChildren | ppp_nlp_classical/preprocessing.py:50-57 | `self.child` becomes the old `self.child` followed by `other.child`, less the first `other` when `self` was its parent; every former child of `other` has parent `self` |
| Tree.MergeDetaches | ppp_nlp_classical/preprocessing.py:56-57 | one occurrence of `other` leaves its former parent's child list, so `other` is gone from it when it occurred once |
| Tree.MergeKeepsSiblingOrder | ppp_nlp_classical/preprocessing.py:56-57 | the `other` that leaves its former parent's child list is its first occurrence, and the siblings that stay keep their order |
| Tree.MergeKeepsOtherLists | ppp_nlp_classical/preprocessing.py:50-57 | no child list changes except those of `self` and of the former parent of `other`; with no parent, only that of `self` |
| Tree.MergeWordLists | ppp_nlp_classical/preprocessing.py:53-58 | with `mergeWords`, `self` holds both word lists: sorted by index, as a multiset union, with the summed length; without it, `self`'s words are unchanged; `other.wordList` is `None`; no one else's words change |
| Tree.MergeKeepsLabels | ppp_nlp_classical/preprocessing.py:44-58 | `merge` changes no tag, dependency or text, and no parent except those of the former children of `other` |
| Tree.Forest.Merge | ppp_nlp_classical/preprocessing.py:44-58 | the method leaves exactly the arena `MergeNodes` describes |
| Tree.Forest.AdoptAll | ppp_nlp_classical/preprocessing.py:51-52 | the reparenting loop leaves exactly the arena `Reparent` describes |
| Build.GetOrCreate | ppp_nlp_classical/preprocessing.py:74-83 | a known key returns its node and changes nothing; an unknown key appends the node made from it, stores it under the key and returns it, or fails with the reason the key is malformed |
| Build.Link | ppp_nlp_classical/preprocessing.py:84-87 | the governor's child list gains the dependent at its end; the dependent gets the governor as parent and the relation as dependency; nothing else changes |
| Build.AddEdge | ppp_nlp_classical/preprocessing.py:74-87 | one pass of the loop: look up or create the governor, then the dependent, then link them; on a malformed key, the state reached when its `ValueError` is raised; stored ids stay in bounds |
| Build.Edges | ppp_nlp_classical/preprocessing.py:73-87 | the passes over the edges in order, stopping at the first malformed key; stored ids stay in bounds |
| Build.ComputeEdges | ppp_nlp_classical/preprocessing.py:67-87 | the loop leaves exactly the arena and dictionary of `Edges`, and reports the first malformed key |
| Build.ConnectEdge | ppp_nlp_classical/preprocessing.py:74-87 | one pass of the loop leaves exactly what `AddEdge` describes |
| Build.AddEdgeGrows | ppp_nlp_classical/preprocessing.py:74-83 | one edge never renames a key, keeps keys on distinct nodes, stores new keys only under new nodes, and on success stores both ends |
| Build.EdgesGrow | ppp_nlp_classical/preprocessing.py:73-83 | over the whole edge list, keys are never renamed, keys stay on distinct nodes, and new keys are stored only under new nodes; that both ends are stored is `Build.EdgesReachEnds` |
| Build.EdgesReachEnds | ppp_nlp_classical/preprocessing.py:73-83 | when no key is refused, both endpoint keys of every edge are in the dictionary |
| Build.EdgesCover | ppp_nlp_classical/preprocessing.py:73-83 | every node of the arena is stored under some key |
| Build.EdgesKeep | ppp_nlp_classical/preprocessing.py:73-83 | the node stored under each key holds exactly the one word parsed from that key |
| Build.AddEdgeLinks | ppp_nlp_classical/preprocessing.py:74-87 | what one edge does to any node: old nodes gain only the link, new nodes start blank |
| Build.EdgesKeepParent | ppp_nlp_classical/preprocessing.py:86-87 | a node that no later edge names as dependent keeps its parent and dependency |
| Build.EdgesFirstWins | ppp_nlp_classical/preprocessing.py:86-87 | the first edge sets its dependent's parent and relation, and these survive when no later edge names that dependent |
| Build.EdgesLastWins | ppp_nlp_classical/preprocessing.py:73-87 | after all edges, the parent and dependency of a node come from the last edge naming its key as dependent |
| Build.AddEdgeChild | ppp_nlp_classical/preprocessing.py:85 | one edge appends its dependent to its governor's child list and to no other list |
| Build.EdgesChildren | ppp_nlp_classical/preprocessing.py:73-87 | after all edges, a node's child list is its earlier list followed by the dependents of the edges it governs, in edge order, duplicates kept |
| Build.BuiltRanked | ppp_nlp_classical/preprocessing.py:73-87 | over an acyclic parse, ranking nodes by their keys ranks every child below its parent, so the recursive walks terminate |
| Build.Tagged | ppp_nlp_classical/preprocessing.py:104-106 | the node's single word gets the part of speech; the node gets the entity tag unless it is `O`; links, text and words stay |
| Build.Qualifies | ppp_nlp_classical/preprocessing.py:99 | a surface form is tagged when it is alphanumeric or is `$` or `%` |
| Build.TagStep | ppp_nlp_classical/preprocessing.py:98-108 | a word that does not qualify, or whose key is not in the dictionary, changes nothing |
| Build.ComputeTags | ppp_nlp_classical/preprocessing.py:89-108 | the loop with its 1-based counter leaves exactly the arena `Tags` describes |
| Build.Tags | ppp_nlp_classical/preprocessing.py:95-108 | the tag passes over the words in order, positions counted from 1; the arena keeps its size and every key keeps a single-word node |
| Build.TagWord | ppp_nlp_classical/preprocessing.py:98-108 | one pass of the loop leaves exactly what `TagStep` describes |
| Build.TagsKeepShape | ppp_nlp_classical/preprocessing.py:95-108 | tagging changes only tags: links, text, words and indices stay |
| Build.TagsUntouched | ppp_nlp_classical/preprocessing.py:95-108 | a node that no qualifying word's key names keeps all its fields |
| Build.TagsAt | ppp_nlp_classical/preprocessing.py:95-108 | word number `k` that qualifies and whose key `surface-k` is present tags that node, and no other word touches it |
| Build.ComputeTree | ppp_nlp_classical/preprocessing.py:180-191 | fails with `BadKey` when `computeEdges` meets a malformed key; otherwise fails with `MissingRoot` exactly when `ROOT-0` is absent; otherwise returns the `ROOT-0` node, with the arena built, tagged and text-initialised below that node |
| Lexicon.MostFrequent | ppp_nlp_classical/preprocessing.py:137-142 | the choice is a candidate whose count is maximal; among candidates of maximal count it is the one listed first |
| Lexicon.Nounify | ppp_nlp_classical/preprocessing.py:118-142 | with no derived noun, the verb is returned unchanged; otherwise a most frequent derived noun is returned |
| Lexicon.NounifyExcept | ppp_nlp_classical/preprocessing.py:144-160 | the six table verbs (`be`, `have`, `do`, `bear`, `live`, `direct`) map to their table nouns (`identity`, `possession`, `process`, `birth`, `residence`, `director`, the constant `Lexicon.Exceptions`); every other verb goes to `nounify` |
| Lexicon.ExceptionsIgnoreLexicon | ppp_nlp_classical/preprocessing.py:157-158 | for a table verb the result does not depend on the lexical resources |
| Normalization.NormalizeWord | ppp_nlp_classical/preprocessing.py:162-171 | an `N…` word becomes its noun lemma; a `V…` word becomes `nounifyExcept` of its verb lemma; any other word, or one without a tag, is unchanged; index and tag are kept |
| Normalization.TagStartsWith | ppp_nlp_classical/preprocessing.py:166-169 | the word has a part-of-speech tag, and its first letter is the given one |
| Normalization.NormalizeWords | ppp_nlp_classical/preprocessing.py:177-178 | each word of the list is normalised on its own |
| Normalization.NormalizeNode | ppp_nlp_classical/preprocessing.py:176-178 | a node tagged other than `undef` is unchanged; an untagged node has each of its words normalised; only word text changes |
| Normalization.NormalizeAt | ppp_nlp_classical/preprocessing.py:173-178 | the post-order walk changes no node outside the subtree, no tagged node and no link; it changes only word text |
| Normalization.NormalizeAll | ppp_nlp_classical/preprocessing.py:174-175 | the same for the subtrees of a list of children |
| Normalization.NormalizeTree | ppp_nlp_classical/preprocessing.py:173-178 | in a tree (no node reachable twice), each node of the subtree is normalised exactly once and every other node is unchanged |
| Normalization.NormalizeTreeAll | ppp_nlp_classical/preprocessing.py:174-175 | the same for sibling subtrees, which are disjoint |
| Normalization.Normalize | ppp_nlp_classical/preprocessing.py:173-178 | the recursive method leaves exactly the arena `NormalizeAt` describes |
| Normalization.NormalizeChildren | ppp_nlp_classical/preprocessing.py:174-175 | the loop over the children leaves exactly the arena `NormalizeAll` describes |
| Normalization.NormalizeOwnWords | ppp_nlp_classical/preprocessing.py:176-178 | the loop over the node's own words normalises each word in place |

## Left out

- The dot-format serialisation `string` / `__str__` (lines 21-42): debugging output only.
- `mergeQuotations` and `mergeNamedEntityTag` (called at lines 192-193): `preprocessingMerge.py` is not part of this model. `Build.ComputeTree` therefore stops after `initText`, and the later `normalize` call is modelled on its own (`Normalization.Normalize`).
- The escaping of `"` in the sentence text before `initText` (line 191): it matters only to the serialiser. `Build.ComputeTree` takes the text as given.
- `WordNetLemmatizer` and the WordNet lookups inside `nounify` (lines 123-136): foreign library calls. They are the parameters `lemmatize` and `derived` of `Lexicon.Lexicon`.
- Lexicon.Nounify: the source returns `[]` when the verb has no verb sense (line 126). When no noun is derived, `set(words)` is empty, so the weight list is empty and `result[0]` raises `IndexError` (lines 137-142). The model returns the verb unchanged in both cases, as the guarded behaviour.
- Lexicon.MostFrequent: the source weighs candidates by `count / len` as floats and sorts the distinct candidates, taken from a `set`, by weight. The model compares counts; this induces the same order. Among equally frequent candidates the source's choice depends on set iteration order. The model picks the one listed first.
- Words.SortByIndex: the contract states sorted and permutation, but not the stability of Python's sort (equal indices keep their order). The definition is stable; that is not proved.
- Keys.ParseKey: Python's `int()` also accepts surrounding whitespace, a sign, `_` separators and non-ASCII digits. The model accepts only a non-empty run of ASCII digits.
- Build.Qualifies: `str.isalnum()` is Unicode-aware. The model accepts ASCII letters and digits only.
- Build.ComputeTags: the `assert len(n.wordList) == 1` of line 103 is a precondition (`SingleWords`). `Build.ComputeTree` proves it holds when the tags are computed. Missing `PartOfSpeech` or `NamedEntityTag` entries in an annotation (a `KeyError` the `except` would also swallow) are not modelled: an annotation always has both.
- Build.ComputeTree: on an error the source raises and returns no tree. The model returns the error and states nothing about the partly built arena. The acyclicity of the parse is a ghost precondition (`Descending`: a key ranking under which each edge's dependent ranks below its governor). It excludes every parse with a cycle. The source fails on such a parse only when the cycle is reachable from `ROOT-0`: `initText` then raises `RecursionError`. `computeEdges` and `computeTags` finish on any parse. So the model does not cover three kinds of cyclic parse the source handles: a parse whose cycle is unreachable from `ROOT-0`, which the source completes; a cyclic parse with a malformed key, which the source rejects with `ValueError`; and a cyclic parse without `ROOT-0`, which it rejects with `KeyError`.
- Tree.Forest.Merge: its precondition `Tree.Mergeable` turns exceptions of the source into requirements. It requires both word lists to exist when `mergeWords` is set (the source raises `TypeError` at line 54 on a `None` list). It also requires `other` to be in its parent's child list when it has a parent (otherwise `list.remove` raises `ValueError` at line 57). It also excludes two cases the source runs through without raising, because `merge` is meant for two different trees (lines 45-49): `self == other`, where `self.child += self.child` doubles the list, and an `other` that is its own child. In that case line 52 sets `other.parent` to `self`, so line 57 removes the first `other` from `self.child`, not from the list of its former parent. That former parent's list and `other.child` both still hold `other`.
- Tree.Forest.GetWords: it requires the node to still have its word list. On a node absorbed by `merge` the source raises `AttributeError` at line 64, since `None` has no `sort`.
- Normalization.Normalize: it requires that every node it reaches either carries a named-entity tag or still has its word list. The source raises `TypeError` when iterating over the `None` word list of an untagged merged-away node.
- Normalization.NormalizeAt: on a graph where a node is reachable along two paths, the source normalises that node twice. `NormalizeAt` models that. The exactly-once statement `NormalizeTree` is proved for trees only.
- Object identity and aliasing: nodes are positions in one arena, and two `DependenciesTree` objects are the same node when they have the same position.
- `run_deep_tests.py`: test-runner plumbing.
