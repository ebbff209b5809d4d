# Breadcrumbs over a file trie, in Dafny

This project models the path trie of `src/util/fileTrie.ts` and the crumb computation of
`src/components/Breadcrumbs.tsx`, and proves properties about both.

Documents are identified by slash-separated slugs. `FileTrieNode` stores them in a tree keyed by
slug segments. Each node does the following:
- keeps a display-name fallback chain: override, then a non-"index" title, then a file-name hint,
  then the last segment;
- marks nodes on an insertion path as folders;
- resolves paths (`findNode`, `ancestryChain`);
- reshapes itself in place (`filter`, `map`, `sort`).

The breadcrumb component does five things for the current page:
1. It builds the trie from every file.
2. It looks up the page's ancestry chain.
3. It turns each node into a crumb.
4. It relabels the first crumb with the configured root name and drops the link of the last.
5. It optionally drops the current page.

The project has two layers.

**The value model.**
- Module `FileTrie` (file `file_trie.dfy`) describes a node as the datatype `Node`.
- Each operation is a function from the old node to the new one. `Insert` returns the state reached
  together with whether `insert` returned normally. A thrown "path is empty" does not undo what
  `insert` had already done, and the model keeps that partial state.
- `FileTrieLemmas` proves the insertion, lookup, display-name and `trieFromAllFiles` properties.
- `TrieTransformLemmas` proves the `filter`/`map`/`sort` properties.
- `Strings` models `split("/")`, `join`, `Array.at(-k)`, `joinSegments` and
  `replaceAll("-", " ")`.

**The object model.**
- Module `FileTrieNodes` (file `file_trie_node.dfy`) models `FileTrieNode` as the class `TrieNode`.
  It has the source's mutable fields. `children` is a field of type `seq<TrieNode>`, holding the
  child objects, which the methods reassign.
- The ghost field `model` holds the node's value and `Repr` holds its footprint.
- Every state-changing method changes the object tree in place. `filter`, `map`, `sort` and the
  `forEach` of `trieFromAllFiles` do so with loops. `insert` recurses into the child objects.
  `makeChild` and the `displayName` setter are single updates.
- Each method is proved to leave `model` equal to the value-model function applied to the old
  `model`. The value model's lemmas therefore carry over to the objects.

Module `Breadcrumbs` models the options merge, `formatCrumb` and the component body up to the
markup. The component body is a method with the `map` loop, proved against a specification
function `ExpectedCrumbs`. It also includes the three-document example: "index", "guides/index" and
"guides/setup", with its trie and crumbs computed in full.

## Model

| member | source | states |
|---|---|---|
| FileTrieNodes.TrieNode.constructor | src/util/fileTrie.ts:18-24 | a new node has the given segments and data, no children, is not a folder and has no override or hint |
| FileTrieNodes.TrieNode.DisplayName | src/util/fileTrie.ts:26-31 | the getter on the object agrees with the value model's fallback chain |
| FileTrieNodes.TrieNode.SetDisplayName | src/util/fileTrie.ts:33-35 | the setter changes only the override, so the getter then returns the name set |
| FileTrieNodes.TrieNode.Slug | src/util/fileTrie.ts:37-44 | the getter on the object agrees with the value model's slug |
| FileTrieNodes.TrieNode.SlugSegment | src/util/fileTrie.ts:46-48 | the getter on the object agrees with the value model's last segment |
| FileTrieNodes.TrieNode.PushChild | src/util/fileTrie.ts:57 | pushing a valid, disjoint node appends exactly it to the children and its footprint to the tree's |
| FileTrieNodes.TrieNode.MakeChild | src/util/fileTrie.ts:50-59 | succeeds exactly when the first segment is present and non-empty; then the returned child is a fresh object, now the last child, and the model gains exactly that child; on the error nothing changes |
| FileTrieNodes.TrieNode.Insert | src/util/fileTrie.ts:61-88 | in-place insertion leaves the tree valid and equal to the value model's `Insert`, state after a throw and the throw itself included |
| FileTrieNodes.TrieNode.InsertDeep | src/util/fileTrie.ts:77-86 | the descent branch: find-or-create the child, set its hint, insert below it, and no other child changes |
| FileTrieNodes.TrieNode.Add | src/util/fileTrie.ts:90-92 | `add` is `insert` at the slug split on "/" |
| FileTrieNodes.TrieNode.Filter | src/util/fileTrie.ts:120-123 | in-place filtering leaves the tree equal to the value model's `Filter` and its footprint unchanged, and every remaining child object was a child before |
| FileTrieNodes.TrieNode.KeepChildren | src/util/fileTrie.ts:121 | the children become exactly those the callback accepts, in their order, and every kept object was a child before |
| FileTrieNodes.TrieNode.Map | src/util/fileTrie.ts:125-128 | in-place mapping leaves the tree equal to the value model's `MapTree` |
| FileTrieNodes.TrieNode.Sort | src/util/fileTrie.ts:130-133 | in-place sorting leaves the tree equal to the value model's `Sort`, with the same child objects, each as often as before |
| FileTrieNodes.TrieNode.SortChildren | src/util/fileTrie.ts:131 | the children are the same objects, each as often as before, in the order of the value model's sort of their values |
| FileTrieNodes.SortedChildren | src/util/fileTrie.ts:131 | sorting child objects by their values picks each child exactly once and yields the children whose values are the sorted values |
| FileTrieNodes.SortedSameObjects | src/util/fileTrie.ts:131 | sorting child objects by their values returns exactly the objects given, each as often as given |
| FileTrieNodes.AddFile | src/util/fileTrie.ts:144-152 | a file without frontmatter changes nothing; one with frontmatter is added with title defaulting to "" |
| FileTrieNodes.AddFiles | src/util/fileTrie.ts:144-152 | the `forEach` loop succeeds exactly when the value model's `AddAll` does, and then leaves its result |
| FileTrieNodes.TrieFromAllFiles | src/util/fileTrie.ts:136-155 | the object trie built from the files is the value model's `TrieFromAllFiles`, or its error |
| FileTrieLemmas.SlugSegmentIsLast | src/util/fileTrie.ts:46-48 | a node's segments are the segments before the last one followed by its slug segment; the root's slug segment is "" |
| FileTrie.NewNode | src/util/fileTrie.ts:18-24 | the node the constructor builds; `FileTrieNodes.TrieNode.constructor` ties every new object to it, and `FileTrie.MakeChild` states its fields for a new child |
| FileTrie.DisplayName | src/util/fileTrie.ts:26-31 | the getter; `FileTrieLemmas.DisplayNameFallback` states each layer of its fallback chain |
| FileTrie.Slug | src/util/fileTrie.ts:37-44 | the getter; `FileTrieLemmas.SlugJoinsSegments` states that it is the segments joined by "/", with "index" joined on exactly for a folder |
| FileTrie.Add | src/util/fileTrie.ts:90-92 | `insert` at the slug split on "/"; `FileTrieNodes.TrieNode.Add` is proved equal to it, and `FileTrieLemmas.AddAllOutcome` states when it throws |
| FileTrie.FindNode | src/util/fileTrie.ts:94-100 | the lookup; `FileTrieLemmas.FindNodeSegments`, `InsertThenFind` and `ChainMatchesFind` state where it lands, that an inserted path is found, and that it succeeds exactly when the chain exists |
| FileTrie.AncestryChain | src/util/fileTrie.ts:102-118 | a chain, when there is one, is non-empty and starts at the receiver; `FileTrieLemmas.ChainMatchesFind` states the rest |
| FileTrie.Filter | src/util/fileTrie.ts:120-123 | only the children change; `TrieTransformLemmas.FilterLeavesOnlyAccepted`, `FilterAcceptAll` and `KeptAppend` state which children remain |
| FileTrie.MapTree | src/util/fileTrie.ts:125-128 | the number of children is kept; `TrieTransformLemmas.MapRelabels` and `MapLeavesUntouched` state what the callback changes |
| FileTrie.SortSeq | src/util/fileTrie.ts:131 | the sorted children are a permutation of the children (same multiset); `TrieTransformLemmas.SortSeqSorted` states their order |
| FileTrie.Sort | src/util/fileTrie.ts:130-133 | only the children change, and their number is kept; `TrieTransformLemmas.SortPermutesChildren` and `SortOrdersEverywhere` state the rest |
| FileTrie.AddAll | src/util/fileTrie.ts:144-152 | the `forEach`; `FileTrieLemmas.AddAllInOrder`, `AddAllSkipsNonDocuments` and `AddAllOutcome` state its order, its skipped entries and its outcome |
| FileTrie.TrieFromAllFiles | src/util/fileTrie.ts:136-155 | `FileTrieLemmas.TrieFromAllFilesOutcome` states its root, its well-formedness and when it throws |
| FileTrie.SetDisplayName | src/util/fileTrie.ts:33-35 | after setting, the display name is the name set, and only the override changed |
| FileTrie.FindChild | src/util/fileTrie.ts:79 | `find` returns the first child whose last segment matches: no earlier child matches |
| FileTrie.MakeChild | src/util/fileTrie.ts:50-59 | errors exactly on a missing or empty first segment; otherwise the parent keeps every other field and every old child in place, and gains exactly one last child: the parent's segments plus the first segment, the given data, no children, not a folder, no hint or override |
| FileTrie.HintFor | src/util/fileTrie.ts:81-85 | the hint is the part of the file path `remaining` places from the end, when it exists and is non-empty |
| FileTrie.ChildrenFor | src/util/fileTrie.ts:78-79 | find-or-make: when some child matches, the children are unchanged; otherwise exactly one data-less child, one segment below the parent, is appended; either way the descended child sits at the index `find` gives, before and after |
| FileTrie.Insert | src/util/fileTrie.ts:61-70 | an empty path throws and changes nothing; otherwise the receiver is a folder; an empty first segment throws after that; segments, hint and override of the receiver never change |
| FileTrie.Kept | src/util/fileTrie.ts:121 | the kept children are exactly the accepted ones |
| FileTrie.ToFileData | src/util/fileTrie.ts:146-150 | the added record takes slug and file path from the entry, and the title or "" |
| FileTrieLemmas.InsertSteps | src/util/fileTrie.ts:71-86 | "index" fills missing data only; another last segment appends one leaf; a longer path descends into the first matching child or a new one, updates only its hint when a non-empty hint exists, and leaves every other child alone; the descended child becomes exactly the recursive insertion into it, whose outcome is the whole call's |
| FileTrieLemmas.InsertOkIff | src/util/fileTrie.ts:61-88 | `insert` returns normally if and only if the path is non-empty and no segment is "" |
| FileTrieLemmas.InsertMarksFolders | src/util/fileTrie.ts:66 | after a successful insertion, following the path through the first matching child at each step reaches a node at every position from the receiver to the parent of the final one, and each is a folder, a middle "index" segment included |
| FileTrieLemmas.IndexSegmentIsAFolder | src/util/fileTrie.ts:66-86 | after inserting "a/index/b" the node at "a/index" exists and is a folder, while `findNode(["a", "index"])` resolves to "a" |
| FileTrieLemmas.InsertThenFind | src/util/fileTrie.ts:61-100 | after a successful insertion `findNode(path)` finds a node, whose data is the file when nothing was there before, and otherwise the existing data (first insertion wins, "index" fills missing data) |
| FileTrieLemmas.InsertWellFormed | src/util/fileTrie.ts:55-56 | insertion keeps every child's segments equal to its parent's plus one non-empty segment |
| FileTrieLemmas.FindNodeSegments | src/util/fileTrie.ts:94-100 | in a well-formed trie the node found for a path has the root's segments plus the path without a final "index" |
| FileTrieLemmas.ChainMatchesFind | src/util/fileTrie.ts:102-118 | the chain exists exactly when `findNode` succeeds, is never partial, starts at the receiver, ends at the found node, links parent to child, and has one node per resolved segment plus one |
| FileTrieLemmas.SlugJoinsSegments | src/util/fileTrie.ts:37-44 | the slug is the segments joined by "/", with "index" joined on exactly for a folder |
| FileTrieLemmas.DisplayNameFallback | src/util/fileTrie.ts:26-31 | each layer of the fallback: override, else a title other than "index", else the hint, else the last segment or "" |
| FileTrieLemmas.DuplicateLeafIsShadowed | src/util/fileTrie.ts:71-76 | inserting the same non-"index" leaf twice appends a second child that `findNode` never reaches |
| FileTrieLemmas.AddAllInOrder | src/util/fileTrie.ts:144-152 | files are added in list order, and an error ends the loop |
| FileTrieLemmas.AddAllSkipsNonDocuments | src/util/fileTrie.ts:145 | entries without frontmatter have no effect |
| FileTrieLemmas.AddAllOutcome | src/util/fileTrie.ts:144-152 | building fails exactly when some document's slug has an empty segment; otherwise the result is well formed, keeps the root's segments, and is a folder exactly when the root was or some document was added |
| FileTrieLemmas.TrieFromAllFilesOutcome | src/util/fileTrie.ts:136-155 | the built root has no segments, no override and no hint, and is well formed; it fails exactly on a slug with an empty segment |
| FileTrieLemmas.RootKeepsFields | src/util/fileTrie.ts:81-85 | adding files never sets the root's own override or hint |
| TrieTransformLemmas.FilterLeavesOnlyAccepted | src/util/fileTrie.ts:120-123 | after `filter(f)` every node below the receiver satisfies `f` |
| TrieTransformLemmas.FilterAcceptAll | src/util/fileTrie.ts:120-123 | a filter that accepts everything changes nothing |
| TrieTransformLemmas.KeptAppend | src/util/fileTrie.ts:121 | filtering keeps the survivors' relative order |
| TrieTransformLemmas.SortSeqSorted | src/util/fileTrie.ts:131 | sorting with a total comparator leaves the children in comparator order |
| TrieTransformLemmas.InsertSortedKeepsOrder | src/util/fileTrie.ts:131 | placing one node into a sorted sequence keeps it sorted |
| TrieTransformLemmas.SortOrdersEverywhere | src/util/fileTrie.ts:130-133 | after `sort(cmp)` the children are in order at every depth |
| TrieTransformLemmas.SortPermutesChildren | src/util/fileTrie.ts:130-133 | the sorted children are a permutation of the former children, each sorted below |
| TrieTransformLemmas.MapLeavesUntouched | src/util/fileTrie.ts:125-128 | a callback that changes no node's own fields leaves the tree unchanged |
| TrieTransformLemmas.MapRelabels | src/util/fileTrie.ts:125-128 | the receiver takes the callback's fields and each child is that child mapped, in position |
| Strings.Split | src/components/Breadcrumbs.tsx:59 | splitting on "/" gives at least one part, none holding a slash, and one part exactly when there is no slash |
| Strings.JoinSplit | src/components/Breadcrumbs.tsx:59 | joining the split parts with "/" gives back the string |
| Strings.SplitJoin | src/components/Breadcrumbs.tsx:59 | splitting the join of slash-free parts gives back the parts |
| Strings.AtFromEnd | src/util/fileTrie.ts:82 | `at(-k)` is present exactly when there are k parts, and then the parts are the ones before it, it, and the k - 1 after it |
| Strings.JoinSegments | src/util/fileTrie.ts:38-40 | on parts that are all non-empty, `joinSegments` is their join with "/" |
| Strings.HyphensToSpaces | src/components/Breadcrumbs.tsx:36 | every "-" becomes " " and every other character stays, at the same length |
| Breadcrumbs.MergeOptions | src/components/Breadcrumbs.tsx:27-42 | each given option wins over its default: "❯", "Home", true, true |
| Breadcrumbs.FormatCrumb | src/components/Breadcrumbs.tsx:34-39 | the label has no hyphen and is otherwise the display name; the path is the relative link |
| Breadcrumbs.Pop | src/components/Breadcrumbs.tsx:79-81 | the popped list with the last crumb appended again is the original list; an empty list stays empty |
| Breadcrumbs.ExpectedCrumbs | src/components/Breadcrumbs.tsx:58-81 | the crumbs of a page; `Breadcrumbs.BuildCrumbs` is proved equal to it, and `CrumbsFollowLookup`, `CrumbsByPosition` and `HidingCurrentPageDropsLast` state its properties |
| Breadcrumbs.MapCrumb | src/components/Breadcrumbs.tsx:66-77 | the callback's crumb for position `idx`: the root's name at 0, no link at the last position |
| Breadcrumbs.MapCrumbs | src/components/Breadcrumbs.tsx:66-77 | the `map` loop builds one crumb per chain node, in order |
| Breadcrumbs.BuildCrumbs | src/components/Breadcrumbs.tsx:58-81 | the crumb computation for a page equals `ExpectedCrumbs`: none when the chain is missing, else the trail, less its last crumb when the current page is hidden |
| Breadcrumbs.RenderCrumbs | src/components/Breadcrumbs.tsx:42-81 | builds the object trie from all files and computes the crumbs from it with the merged options; fails exactly when building the trie throws |
| Breadcrumbs.CrumbsFollowLookup | src/components/Breadcrumbs.tsx:58-64 | a page `findNode` cannot resolve gets no crumbs at all; one it resolves gets one per chain node, less one when hidden |
| Breadcrumbs.CrumbsByPosition | src/components/Breadcrumbs.tsx:66-77 | the first crumb is labelled exactly with the root name, later ones with hyphen-free display names, the last is unlinked, the rest link to their node's simplified slug |
| Breadcrumbs.HidingCurrentPageDropsLast | src/components/Breadcrumbs.tsx:79-81 | hiding the current page gives the shown crumbs minus the last one |
| Breadcrumbs.GuidesTrie | src/util/fileTrie.ts:136-155 | the three documents "index", "guides/index" and "guides/setup" build the expected three-level trie |
| Breadcrumbs.GuidesScenario | src/components/Breadcrumbs.tsx:58-81 | the page "guides/setup" gets exactly three crumbs: "Home", the folder's title with spaces, and the unlinked page |

## Left out

- The markup (`<nav>`, the spacer paragraphs, `classNames`, the stylesheet) is not modelled. The options' `spacerSymbol` is only merged and carried along, and `resolveFrontmatterTitle` is unused by the code.
- The per-render cache `ctx.trie ??= ...` is not modelled: `RenderCrumbs` always builds the trie, which is what happens on a cache miss.
- `resolveRelative` and `simplifySlug` come from another module and are parameters. `joinSegments` is modelled as joining the non-empty parts with "/", for parts without slashes. The library's slash trimming is not part of this model.
- `file.slug!` and `file.filePath!` become the precondition `HasPaths`: every entry with frontmatter has both. This demands more than the source needs. A missing `slug` makes `add` fail at `split` (src/util/fileTrie.ts:91). A missing `filePath` is read only in the descent branch (src/util/fileTrie.ts:81), so it fails only for a slug of two or more segments whose first is non-empty. Otherwise the source stores the record with `filePath` undefined, which the model does not represent.
- An empty path passed to `insert` or `makeChild` throws "path is empty". This is modelled as `ok == false` / `Err(PathIsEmpty)`, not as an exception.
- Callbacks of `filter`, `map` and `sort` are pure functions on node values. A `map` callback that mutates the node's children, or other nodes, is not modelled; only changes to the node's own fields are kept.
- `Array.prototype.sort` is modelled as a stable insertion sort driven by the comparator's sign. A comparator that is not consistent gives some order in the source; the model fixes one.
- `findNode` and `ancestryChain` are modelled on node values, applied to `TrieNode.Snapshot()` of the object tree. They compare by value, not by object identity, and the nodes they return are values.
- Fields left `undefined` inside a partial options object (`{ rootName: undefined }`) are modelled as absent. A spread would copy the `undefined` instead.
- FileTrie.Insert: its contract states only the outer cases. The per-case behaviour is stated by `FileTrieLemmas.InsertSteps` and the other insertion lemmas.
- TrieTransformLemmas.FilterLeavesOnlyAccepted: proved only for predicates that look at a node's own fields, not its children. For other predicates the children seen at test time differ from those left afterwards.
- TrieTransformLemmas.SortOrdersEverywhere: proved only for total comparators that look at the nodes' own fields. Sorting below a node changes its children, which such a comparator cannot see.
- A non-"index" document whose slug ends at a position where a child already exists gets a second child with the same segment, because the last-segment branch always appends (src/util/fileTrie.ts:75). The model follows the code. `findNode` always returns the first matching child, so the later document is never found:
  - a second document at an existing leaf: `FileTrieLemmas.DuplicateLeafIsShadowed` proves that `findNode` still returns the first child;
  - a document at an existing folder, such as "a" added after "a/b": `findNode(["a"])` returns the folder, whose data stays empty. The `data` clause of `FileTrieLemmas.InsertThenFind` covers this case: the data found is what was there before.
