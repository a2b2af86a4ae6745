# A verified model of the generic trie of More Data Structures

This project models the trie of `src/data_structures/trie.py` in Dafny. The trie stores
sequences of hashable elements: strings, or any other iterable of keys. The model has three
modules.

- `TrieNodes` (`trie_nodes.dfy`) covers the nodes.
  - `_KRoot` and `_KNode` are one datatype `Node`. A node holds its data, its terminal flag and
    its dict of children.
  - The dict is an association list kept in insertion order. `IndexOf` stands in for the dict's
    `in` test and lookup.
  - `Valid` is the shape every reachable tree has: distinct keys, and each child holding its
    own key as data.
  - `InLanguage` is the reference meaning of a tree: the set of sequences that lead to a
    terminal node.
- `Tries` (`tries.dfy`) covers the `Trie` class.
  - `Traverse` is the shared walk `_traverse`. It returns the tree after the walk, including
    any nodes it created, and the node it reached.
  - `Insert`, `Delete` and `Find` are the three wrappers. Setting `node.is_terminal` through
    the returned reference is modelled by `Mark`, which writes the flag back along the same
    path.
  - Each operation is proved against `InLanguage`. `insert(s)` adds exactly `s`, `delete(s)`
    removes exactly `s`, and `find(s)` is membership. The proofs also show that the invariant
    is kept, that nodes are only ever appended, and what happens on the error paths: a missing
    path, and deleting something that is not stored.
- `Prettify` (`prettify.dfy`) covers the renderer: `_get_last_child`, `_prettify_node`,
  `_prettify` and `Trie.prettify`.
  - The renderer relies on Python's `str.rjust` and `str.rstrip`, which are modelled exactly.
    `rstrip` uses the full set of code points that `str.isspace` accepts.
  - It is proved that the drawing before `rstrip` has one line per node, provided no option
    and no element's text contains a line break of its own. Stripping can remove a whole
    trailing line that holds only whitespace.
  - It is proved that a trie holding a single non-empty word is drawn as the text the test
    suite's `generate_expected_prettify` builds, with trailing whitespace stripped, for every
    option value. When that text does not end in whitespace, as with the default options, the
    drawing is exactly that text.
  - Some concrete drawings are proved: the empty trie, "Hi", siblings in insertion order, and
    a trailing blank that `rstrip` removes.

Elements are a type parameter `T` with equality. `str()` of an element is a parameter `show`.

`_KRoot()` starts terminal (trie.py:67), but `delete` of the empty sequence walks no step,
gets the root itself back (trie.py:164, 172), finds it truthy and clears its flag
(trie.py:181-182). A later `find` of the empty sequence is therefore false
(`Tries.DeleteEmptyUnmarksRoot`).

## Model

| member | source | states |
|---|---|---|
| TrieNodes.IndexOf | src/data_structures/trie.py:166-171 | the lookup finds the first entry with the key, and finds none exactly when no entry has it |
| TrieNodes.IndexOfAppend | src/data_structures/trie.py:166-168 | storing a child under a missing key makes that key found at the end, and moves no other key |
| TrieNodes.NewNodeStoresNothing | src/data_structures/trie.py:55-60 | a freshly built `_KNode` stores no sequence at all |
| TrieNodes.InLanguageOnPath | src/data_structures/trie.py:164-172 | every stored sequence is a chain of child links |
| TrieNodes.GrowsKeepsPaths | src/data_structures/trie.py:164-172 | once a path exists, a tree that has only had nodes appended still has it |
| Tries.EmptyTrie | src/data_structures/trie.py:63-68 | a new trie satisfies the invariant and stores exactly the empty sequence, because the root starts terminal |
| Tries.Traverse | src/data_structures/trie.py:150-172 | with `add_missing` the walk always returns a node; without it, a walk that succeeds leaves the tree unchanged; either way the root's data and flag are kept |
| Tries.TraverseFindsPaths | src/data_structures/trie.py:150-172 | without `add_missing`, the walk succeeds exactly when the sequence is a path of the tree, and the node it reaches is terminal exactly when the sequence is stored |
| Tries.TraverseExistingPath | src/data_structures/trie.py:164-172 | along an existing path, `add_missing` creates nothing and the walk returns the same node |
| Tries.TraverseAddsGrows | src/data_structures/trie.py:164-172 | with `add_missing`, the walk keeps the invariant and only appends nodes: every existing key keeps its place |
| Tries.TraverseAddsOnlyPath | src/data_structures/trie.py:165-171 | with `add_missing`, the paths of the tree after the walk are exactly the old paths plus the prefixes of `s`: nothing is created beside `s` |
| Tries.TraverseAddsNothingStored | src/data_structures/trie.py:166-168 | the nodes created along the walk are non-terminal, so the set of stored sequences is unchanged |
| Tries.TraverseAddsReaches | src/data_structures/trie.py:164-172 | after a walk with `add_missing`, a plain walk of the same sequence succeeds and reaches the same node |
| Tries.MarkShape | src/data_structures/trie.py:177 | setting a node's flag keeps the invariant and changes no node, key or position |
| Tries.MarkLanguage | src/data_structures/trie.py:177 | setting the flag to `b` at the end of a path stores the path's sequence if `b` is true, drops it if false, and leaves every other sequence as it was |
| Tries.MarkSemantics | src/data_structures/trie.py:182 | the shape part and the language part of setting a flag, combined for all sequences |
| Tries.MarkSameFlag | src/data_structures/trie.py:182 | writing the flag a node already has leaves the tree identical |
| Tries.FindIsMembership | src/data_structures/trie.py:184-186 | `find(s)` is true exactly when `s` is stored; a failed walk gives false |
| Tries.InsertSemantics | src/data_structures/trie.py:174-177 | `insert(s)` keeps the invariant, only grows the tree, never lowers the node count, adds exactly the missing prefixes of `s` as new paths, and the stored set becomes the old set plus `s` |
| Tries.DeleteSemantics | src/data_structures/trie.py:179-182 | `delete(s)` keeps the invariant, adds and removes no node, and the stored set becomes the old set minus `s` |
| Tries.FindAfterInsert | src/data_structures/trie.py:174-186 | after `insert(s)`, `find` is true for `s` and unchanged for every other sequence |
| Tries.FindAfterDelete | src/data_structures/trie.py:179-186 | after `delete(s)`, `find` is false for `s` and unchanged for every other sequence |
| Tries.InsertPresentIsNoOp | src/data_structures/trie.py:174-177 | inserting a stored sequence leaves the trie identical, so `insert` is idempotent |
| Tries.DeleteAbsentIsNoOp | src/data_structures/trie.py:179-182 | deleting a sequence that is not stored leaves the trie identical, whether or not its path exists |
| Tries.DeleteEmptyUnmarksRoot | src/data_structures/trie.py:179-182 | `delete` of the empty sequence clears the root's own flag and nothing else, so a later `find` of the empty sequence is false |
| Tries.FindAfterTwoInserts | src/data_structures/trie.py:174-186 | a trie built by inserting `w` and then `p` answers `find` true for exactly the empty sequence, `w` and `p` |
| Tries.PrefixInsertedAfterWord | tests/test_trie.py:81-85 | after inserting "Hello" and then "Hell", both are found and "Hel" is not |
| Tries.InsertIntoEmpty | src/data_structures/trie.py:164-177 | inserting a word into an empty trie hangs one node per letter, each the only child of the one before, with only the last one terminal |
| Prettify.RStrip | src/data_structures/trie.py:202 | the result is a prefix of the input, does not end in whitespace, and every character removed is whitespace |
| Prettify.RStripDropsLineBreak | src/data_structures/trie.py:202 | stripping a text that ends in one line break after a non-blank character removes exactly that line break |
| Prettify.RightJustify | src/data_structures/trie.py:121-122 | the padded prefix is as wide as the requested alignment, or as the prefix if that is wider; it ends with the prefix and is blank before it |
| Prettify.IndentAgrees | src/data_structures/trie.py:120-122 | right-justifying a prefix by `alignment_width * depth` columns gives `' ' * alignment_width * depth` followed by the prefix, for every width including negative ones |
| Prettify.FinalLine | src/data_structures/trie.py:120-124 | a last child's line is the indentation, the final prefix, the element's text, the suffix exactly when the node is terminal, and a line break |
| Prettify.TopLeaf | src/data_structures/trie.py:120-124 | with the default options and character elements, a childless node at depth 0 is drawn as one line: its glyph, its letter, and the suffix exactly when it is terminal |
| Prettify.OnlyChild | src/data_structures/trie.py:125-136 | the only child of a node is drawn as the final entry, its subtree one level deeper |
| Prettify.TwoChildren | src/data_structures/trie.py:125-136 | of two children, the first is drawn with the entry prefix and the last with the final prefix, in dict order |
| Prettify.PrettifyChain | src/data_structures/trie.py:110-136 | below a chain of single children, the drawing is the test's expected lines with the suffix placed before the very last line break |
| Prettify.PrettifyChainRoot | src/data_structures/trie.py:95-107 | a root over the chain of a word draws the test's expected text followed by one line break |
| Prettify.RenderEmpty | src/data_structures/trie.py:188-202 | an empty trie draws as the single word `Root`, whatever the options |
| Prettify.RStripLineBreak | src/data_structures/trie.py:202 | a final line break is whitespace, so stripping a text with one appended gives the same result as stripping the text |
| Prettify.RenderSingleWordStripped | tests/test_trie.py:55-69 | for every option value, a trie holding one non-empty word draws as the text `generate_expected_prettify` builds, stripped of trailing whitespace |
| Prettify.RenderSingleWord | tests/test_trie.py:55-69 | for any options, a trie holding one non-empty word draws exactly as `generate_expected_prettify` builds it, unless that text ends in whitespace |
| Prettify.RenderSingleWordDefaults | tests/test_trie.py:128-144 | with the default options, every trie holding one non-empty word of characters draws exactly as the test expects |
| Prettify.RenderHi | src/data_structures/trie.py:110-136 | the trie holding "Hi" draws as `Root`, `└── H`, `    └── i**` |
| Prettify.InsertTwoLeaves | src/data_structures/trie.py:166-168 | inserting "b" then "a" appends the two leaves under the root in that order |
| Prettify.SiblingsInInsertionOrder | src/data_structures/trie.py:96-106 | siblings are drawn in insertion order, not sorted, and only the later one gets the final prefix |
| Prettify.RStripEatsBlankData | src/data_structures/trie.py:202 | `rstrip` removes a blank element and the blank that ends the final prefix when they end the drawing |
| Prettify.LineHasOneBreak | src/data_structures/trie.py:120-124 | each node's line holds exactly one line break, provided no option or element text contains one |
| Prettify.NodeLines | src/data_structures/trie.py:110-136 | the drawing of a node holds as many line breaks as its subtree has nodes, provided no option or element text contains a line break |
| Prettify.PrettifyOneLinePerNode | src/data_structures/trie.py:95-107 | the drawing before stripping has one line per node of the trie, the `Root` line included, provided no option or element text contains a line break |

## Left out

- Iterables other than finite sequences are not modelled. A sequence is walked once, element by element.
- `insert(None)` is not modelled: iterating `None` raises `TypeError` before the trie changes, and the model's argument is always a sequence.
- Python's hashing is not modelled. Dict keys are compared with Dafny equality, so Python key merges such as `1 == True` are not represented.
- The hash lookup is modelled as a linear search of an association list. Only its answer matters here, not its cost.
- `str()` of an element is the parameter `show`; the root's data is the string `Root`.
- `child is final_child` is modelled as "is at the last position". Children are distinct objects, so identity holds exactly there.
- `_get_last_child` of an empty dict returns `None`, and the loop then never runs, so that value is never compared.
- `assert node` in `insert` and `if node:` in `delete` and `find` are modelled as "the walk returned a node". Node objects define no truth value of their own, so any node is truthy.
- Aliasing and in-place mutation are replaced by pure functions. The walk returns the updated tree, and `Mark` writes the flag back along the same path.
- Python's recursion limit, which stops `_prettify_node` on very deep tries, is not modelled.
- Options of the wrong type, such as a non-integer `alignment_width`, are not modelled. The model's options are typed.
- Prettify.RenderSingleWord: requires that the expected text does not end in whitespace. Otherwise `rstrip` removes more than the test helper does, as `Prettify.RStripEatsBlankData` shows; `Prettify.RenderSingleWordStripped` states the general case.
- Prettify.RenderSingleWord and Prettify.RenderSingleWordStripped: require a non-empty word. For the empty word the test helper builds `Root` followed by the suffix, while `prettify` draws `Root` alone (`Prettify.RenderEmpty`). The root's line never shows the terminal suffix.
