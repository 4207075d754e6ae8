# Kraken 2 report trees and taxonomy strings

This project models the core of `q2_moshpit/kraken2/select.py`, the part of the
QIIME 2 moshpit plugin that turns Kraken 2 classification reports into a tree of
NCBI taxa and lineage strings:

- `_get_indentation` and `_kraken_to_ncbi_tree` read one report. Each kept row
  becomes a rank node named `rank__name` with an identifier node named by its
  NCBI taxonomy id as its first child. A row hangs below the nearest earlier kept
  row of smaller indentation. An identifier node is flagged `is_actual_tip` when
  its row is a leaf of the classification.
- `_combine_ncbi_trees` merges the per-sample trees into the first one in place,
  keyed by node name. The walk only ever appends ancestors, so a tip whose own name
  is missing while every ancestor's name is found stays out of the combined tree.
- `_ncbi_tree_to_tips` lists the names of the flagged tips.
- `_pad_ranks` renders a lineage of `rank__label` entries over the eight ranks
  d, k, p, c, o, f, g, s. It pads a gap with a `containing` placeholder once a more
  specific rank is known, lets the kingdom repeat the domain for Bacteria and
  Archaea, and keeps strain entries at the end.

The scikit-bio `TreeNode` objects live in one arena, the class
`TreeNodes.Forest`. It holds a sequence of nodes addressed by index and a ghost
depth labelling that witnesses that parent links have no cycle. `append`, which
detaches a node from its old parent first, is `Forest.Append`. The builder and
the merge are methods that update the forest in place, as the Python does.
`_pad_ranks` is a method with the source's two loops, proved equal to a
function `Padding.PadSpec`. The facts about rendered strings are proved about
that function.

Errors the Python raises are results:

- `BuildError`: IndexError in the builder.
- `MergeError`: an empty list of trees.
- `PadError`: ValueError for an entry without `__`, and UnboundLocalError for a
  placeholder needed before any rank was seen.

Files:

- `wrappers.dfy`: Option and Result.
- `text.dfy`: the string operations used.
- `report.dfy`: report rows, indentation, row filtering, node names.
- `treenodes.dfy`: the TreeNode arena, `find`, `tips`, `ancestors`, `append`.
- `builder.dfy`: `_kraken_to_ncbi_tree`.
- `tips.dfy`: `_ncbi_tree_to_tips`.
- `merge.dfy`: `_combine_ncbi_trees`.
- `padding.dfy`: `_pad_ranks`.
- `padding_facts.dfy`: whole-lineage properties of `_pad_ranks`.

## Model

| member | source | states |
|---|---|---|
| Text.LeadingSpaces | q2_moshpit/kraken2/select.py:50 | the count is the length of the run of `' '` at the start of the string: all counted characters are spaces and the next one is not |
| Report.GetIndentationBounds | q2_moshpit/kraken2/select.py:49-50 | the level times `indent` is at most the number of leading spaces, which is less than the next multiple (floor division) |
| Report.IndentOfPadded | q2_moshpit/kraken2/select.py:49-50 | a name printed with two spaces per level is read back at that level |
| Report.KeptMembers | q2_moshpit/kraken2/select.py:61-62 | the kept rows are exactly the rows whose rank is not `U`, not `R`, and not longer than one letter unless it starts with `S` |
| Report.KeptAdvance | q2_moshpit/kraken2/select.py:56-62 | reading one more row extends the kept rows by that row exactly when its rank is kept |
| Text.Strip | q2_moshpit/kraken2/select.py:65 | `strip()` yields an infix with only whitespace cut from both ends and no whitespace at either end |
| Report.RankNodeNameSplits | q2_moshpit/kraken2/select.py:65 | a rank node's name splits at its first `__` into the lower-cased rank and the stripped name |
| Text.DecimalRoundTrip | q2_moshpit/kraken2/select.py:59 | `str(n)` of a taxonomy id parses back to the id |
| Report.IdNodeNameParses | q2_moshpit/kraken2/select.py:59 | an identifier node's name reads back as the row's taxonomy id |
| Report.IdNodeNamesDistinct | q2_moshpit/kraken2/select.py:59 | two rows' identifier nodes get the same name exactly when their taxonomy ids are equal |
| Report.NamesNeverClash | q2_moshpit/kraken2/select.py:65-67 | no rank node name equals an identifier node name |
| TreeNodes.Forest.NewNode | q2_moshpit/kraken2/select.py:66-67 | `TreeNode(name, length)` appends one parentless, childless, unflagged node and changes nothing else |
| TreeNodes.Forest.Append | q2_moshpit/kraken2/select.py:79 | `p.append(c)` gives the arena in which `c` has left its old parent's children and is `p`'s last child; the forest stays acyclic |
| TreeNodes.Forest.SetActualTip | q2_moshpit/kraken2/select.py:73 | setting `is_actual_tip` changes that one flag and nothing else |
| TreeNodes.Ancestors | q2_moshpit/kraken2/select.py:99 | `ancestors()`: the parent first, one level higher at each step, ending at a parentless root; empty exactly for a root |
| TreeNodes.AncestorsOrdered | q2_moshpit/kraken2/select.py:99 | each ancestor is the parent of the one before it and lies below every later one |
| TreeNodes.AncestorsSuffix | q2_moshpit/kraken2/select.py:99 | the ancestors of the `k`-th ancestor are exactly the ancestors after it |
| TreeNodes.DescendsInAncestors | q2_moshpit/kraken2/select.py:99 | a node strictly below another has it among its `ancestors()` |
| TreeNodes.Find | q2_moshpit/kraken2/select.py:96 | `find(name)` returns a node of the tree carrying that name, and fails (MissingNodeError) exactly when no node of the tree carries it |
| TreeNodes.Tips | q2_moshpit/kraken2/select.py:93 | `tips()` lists exactly the childless nodes strictly below the node |
| TreeNodes.AdoptWellFormed | q2_moshpit/kraken2/select.py:106 | appending a node that is not above the new parent keeps the forest acyclic with consistent parent and child links |
| TreeNodes.AdoptMovesSubtree | q2_moshpit/kraken2/select.py:106 | after the append, the whole subtree of the moved node lies below everything the new parent lies below |
| TreeNodes.AdoptKeepsOthers | q2_moshpit/kraken2/select.py:106 | nodes outside the moved subtree keep their ancestors and what they lie below |
| Builder.ParentRowUnique | q2_moshpit/kraken2/select.py:71-80 | a row's parent is the nearest earlier row with smaller indentation, or the root; these properties determine it uniquely |
| Builder.ChainIncreasing | q2_moshpit/kraken2/select.py:55-80 | the stack of open rows has strictly increasing indentation from the root sentinel up |
| Builder.ChildNodesMembers | q2_moshpit/kraken2/select.py:79 | a rank node's children after its identifier node are exactly the later rows whose parent row it is, in report order |
| Builder.NewRankNode | q2_moshpit/kraken2/select.py:64-69 | the rank node (length 1) and its identifier node (length 0, unflagged, only child) are added and nothing else changes |
| Builder.FlagFirstChild | q2_moshpit/kraken2/select.py:72-73 | the first child of the stack top is flagged; that child is missing (IndexError) exactly when the top has no children |
| Builder.PopOpen | q2_moshpit/kraken2/select.py:75-77 | the stack is popped to the open rows of the new row's parent row; popping the root sentinel (IndexError) happens exactly at indentation 0 |
| Builder.OpenRow | q2_moshpit/kraken2/select.py:64-74 | the new row's nodes are added and the previous row's identifier node is flagged when the new row is no deeper; fails exactly for a first row at indentation 0 |
| Builder.Attach | q2_moshpit/kraken2/select.py:79 | appending the new rank node to its parent row's node closes no cycle and keeps every node named below a root |
| Builder.AddRow | q2_moshpit/kraken2/select.py:64-80 | one kept row takes the builder state of `m` rows to that of `m + 1` rows, or fails exactly at indentation 0 |
| Builder.FeedRow | q2_moshpit/kraken2/select.py:56-80 | a skipped row changes nothing; a kept row is added as the next kept row |
| Builder.FeedRows | q2_moshpit/kraken2/select.py:55-80 | after all rows the arena holds the partial tree of every kept row and the stack holds the open rows; on failure some kept row has indentation 0 |
| Builder.CloseLast | q2_moshpit/kraken2/select.py:82-85 | the last row's identifier node is flagged, which finishes the tree; with no kept rows the root stays childless and nothing is flagged |
| Builder.KrakenToNcbiTree | q2_moshpit/kraken2/select.py:53-87 | it fails exactly when some kept row has indentation 0; otherwise the new root is the next free index, the nodes after it are the finished tree of the kept rows (`Built`), and earlier nodes are untouched |
| TipList.ActualTips | q2_moshpit/kraken2/select.py:111 | the filter keeps exactly the listed tips that carry the `is_actual_tip` flag |
| TipList.NcbiTreeToTipsMembers | q2_moshpit/kraken2/select.py:110-111 | in both directions, the list holds the names of the flagged childless nodes below the tree's root and nothing else |
| TipList.LeafRowChildless | q2_moshpit/kraken2/select.py:72-85 | a row gets no child row exactly when it is the last kept row or the next kept row is no deeper, which is when its identifier node is flagged |
| TipList.BuiltTips | q2_moshpit/kraken2/select.py:53-87 | the tips of a built tree are exactly the identifier nodes |
| TipList.BuiltTipNames | q2_moshpit/kraken2/select.py:110-111 | for a built tree, in both directions, the result holds exactly the taxonomy ids of the leaf rows of the report |
| TipList.ReportTipNames | q2_moshpit/kraken2/select.py:30-31 | `_ncbi_tree_to_tips(_kraken_to_ncbi_tree(df))`: for a report's tree built after an untouched earlier forest, in both directions, the list holds exactly the taxonomy ids of the leaf rows |
| TipList.NoRowsNoTips | q2_moshpit/kraken2/select.py:82-85 | a report with no kept rows leaves the root childless, so the tip list is empty |
| Merge.Lineage | q2_moshpit/kraken2/select.py:99 | `list(tip.ancestors())[:-1]`: the ancestors are exactly the lineage followed by the tip's root; the first entry is the tip's parent, every entry has a parent, and the last entry's parent is the root; a root's lineage is empty |
| Merge.LineageSuffix | q2_moshpit/kraken2/select.py:99 | the lineage of the `k`-th lineage entry is the part of the tip's lineage after it |
| Merge.LineageChain | q2_moshpit/kraken2/select.py:99-102 | every lineage entry has a parent, has the tip below it, and lies below every later entry |
| Merge.TopMissing | q2_moshpit/kraken2/select.py:101-106 | the least specific lineage entry from index `p` up whose name the combined tree lacks: its name is missing, every later entry's name is present, and there is none exactly when every name from `p` up is present |
| Merge.GraftPlacement | q2_moshpit/kraken2/select.py:99-106 | the walk's append: none exactly when every ancestor's name is present; otherwise the moved node is an ancestor whose name is missing while every ancestor of it below the root is found, and it goes below the node `find` returns for its parent's name, or below the combined root when its parent is the tip's root |
| Merge.GraftKeepsTree | q2_moshpit/kraken2/select.py:105-106 | appending a node whose name the combined tree lacks below a combined-tree node closes no cycle, removes nothing from the combined tree, and brings the node's whole subtree into it |
| Merge.Descend | q2_moshpit/kraken2/select.py:103-106 | a found name moves `matching` to the found node and changes nothing; a missing name appends the node below `matching`, which stays the same |
| Merge.WalkStep | q2_moshpit/kraken2/select.py:101-106 | one turn of the `while parents` loop keeps the walk's state: either every entry seen so far was found, nothing changed and `matching` is the node found for the last one, or the arena is the old one with the `Graft` append and the tip and the remaining entries are in the combined tree |
| Merge.GraftStep | q2_moshpit/kraken2/select.py:101-106 | pops the least specific remaining ancestor and keeps the walk's state: with nothing appended yet, the arena is unchanged and `matching` is the node found for the last visited name; once appended, the arena is the original one with the least specific missing ancestor moved below the insertion point reached just before it (`Graft`) |
| Merge.GraftLineage | q2_moshpit/kraken2/select.py:99-106 | the walk appends exactly when some ancestor's name is missing from the combined tree, and then the new arena is the old one with exactly the append `GraftPlacement` describes, with the tip now in the combined tree; otherwise nothing changes. Either way every ancestor's name is in the combined tree afterwards, and every node either joined the combined tree or kept its ancestors and its childlessness |
| Merge.MergeTip | q2_moshpit/kraken2/select.py:93-106 | a tip whose name is found is skipped with nothing changed; otherwise a node is moved exactly when some ancestor's name is missing, and the new arena is the old one with exactly the append `GraftPlacement` describes. Afterwards the combined tree has the tip's name or every ancestor's name (`Merged`); names never change, roots stay roots, the combined tree loses no node, and every other node joined it or stayed where it was |
| Merge.GraftBringsLineage | q2_moshpit/kraken2/select.py:99-106 | after the graft, every ancestor of the tip below its root has its name in the combined tree: those above the moved node were found, the others came along with its subtree |
| Merge.AdoptStaysOrJoins | q2_moshpit/kraken2/select.py:106 | appending a node whose name the combined tree lacks below a combined-tree node: every node either ends up in the combined tree or keeps its ancestors, and a childless node stays childless |
| Merge.TipStep | q2_moshpit/kraken2/select.py:93-106 | a tip merged after earlier merges: either an earlier merge already brought it into the combined tree, or its lineage is unchanged, so it is merged as of the state before all merges |
| Merge.TreeStep | q2_moshpit/kraken2/select.py:92-106 | a later tree merged after earlier ones: every tip it had before all merges is merged, since a tip not yet in the combined tree is still a tip of that tree with the same lineage |
| Merge.KnownSelf | q2_moshpit/kraken2/select.py:93-97 | every tip of a tree has its name in that tree, so merging a tree into itself finds every tip |
| Merge.MergeTree | q2_moshpit/kraken2/select.py:93-106 | merging the tips listed up front merges each of them (`Merged`: its name, or every name of the lineage it had, is in the combined tree), keeps names, removes nothing from the combined tree, moves no node except into it, and changes nothing when every tip's name is already there |
| Merge.CombineNcbiTrees | q2_moshpit/kraken2/select.py:90-107 | fails exactly on an empty list and otherwise returns the first tree; every tip that each later tree had at the start is merged into it (`Merged`); nothing is removed from it; one tree, or later trees whose tip names it already has, leave everything unchanged |
| Padding.AvailableKeys | q2_moshpit/kraken2/select.py:119-121 | the keys of `available` are exactly the rank codes of the entries |
| Padding.AvailableFirst | q2_moshpit/kraken2/select.py:119-121 | for a repeated rank code, the entry nearest the start of the lineage wins, because the scan runs in reverse |
| Padding.StrainsMembers | q2_moshpit/kraken2/select.py:122-123 | the strain entries are exactly the entries whose code has more than one character and starts with `s` |
| Padding.Nearest | q2_moshpit/kraken2/select.py:128-130 | `last_good_label` at a rank is the rendered nearest present rank at or below it, and exists exactly when such a rank exists |
| Padding.EmittedNonEmpty | q2_moshpit/kraken2/select.py:131 | after the species check, something has been emitted from a rank on exactly when some rank from there on is present |
| Padding.Omitted | q2_moshpit/kraken2/select.py:125-137 | a rank is left out exactly when neither it nor any more specific rank is present |
| Padding.Padded | q2_moshpit/kraken2/select.py:131-137 | a missing rank with something more specific present becomes `k__<domain>` for a Bacteria or Archaea kingdom, or `<rank>__containing <nearest more specific entry>` otherwise |
| Padding.ScanEntries | q2_moshpit/kraken2/select.py:116-123 | the reverse scan succeeds exactly when every entry has `__`, and then yields `available` and the reversed strain entries |
| Padding.FillRanks | q2_moshpit/kraken2/select.py:125-139 | the order loop and the final join produce `PadSpec` of the lineage |
| Padding.PadRanks | q2_moshpit/kraken2/select.py:114-139 | `_pad_ranks` equals `PadSpec`; it fails with ValueError exactly when some entry has no `__` |
| PaddingFacts.UnboundLabelIff | q2_moshpit/kraken2/select.py:122-137 | UnboundLocalError happens exactly when every entry is separated, some entry is a strain and no entry is a species |
| PaddingFacts.LineageAvailable | q2_moshpit/kraken2/select.py:119-121 | for a gap-free lineage followed by strains, `available` holds exactly the lineage's rank codes, each with its own label |
| PaddingFacts.EmittedPrefix | q2_moshpit/kraken2/select.py:125-131 | with the first `n` ranks present and none after, the slots are those ranks' entries, and trailing absent ranks add nothing |
| PaddingFacts.GapFreeVerbatim | q2_moshpit/kraken2/select.py:114-139 | a lineage from the domain down to some rank without a gap, with strains only when it reaches the species, comes back unchanged joined by `;` |
| PaddingFacts.KingdomMirrorsDomain | q2_moshpit/kraken2/select.py:132-134 | `d__Bacteria;p__x` (or Archaea) renders as `d__Bacteria;k__Bacteria;p__x` |
| PaddingFacts.SpeciesOnlyPadded | q2_moshpit/kraken2/select.py:135-137 | a lone species `s__x` renders as `<rank>__containing s__x` for each of d through g, then `s__x`; with no domain the kingdom is padded too |
| PaddingFacts.ContainingSlot | q2_moshpit/kraken2/select.py:135-137 | a missing rank, other than a kingdom that mirrors a Bacteria or Archaea domain, emits `<rank>__containing <nearest more specific entry>` ahead of the later slots |

## Left out

- `select_kraken_features` is not part of this model: the per-sample loop, the coverage filter at line 29, the pandas feature table and the Newick output. It is orchestration over pandas and file I/O.
- `_to_taxonomy` is not part of this model. It walks skbio's `to_taxonomy` and builds a DataFrame. The model covers `_pad_ranks`, which it applies to each lineage.
- Report rows arrive as a sequence of `Row` values rather than a pandas DataFrame. `ncbi_tax_id` is a non-negative integer.
- scikit-bio's tip and non-tip caches, DuplicateNodeError and the Newick writer are not modelled. `Find` asks for a childless match first, then an internal one, each the first in postorder. Which of several same-named nodes skbio would return is not promised by any contract.
- Text.Lower: only ASCII case folding is modelled. Rank codes in reports are ASCII.
- Report.GetIndentation: requires `indent > 0`. Python raises ZeroDivisionError for 0, and the code only calls it with 2.
- `is_actual_tip` is false on nodes where Python never sets the attribute. The code reads it only on identifier nodes, where it is always set.
- TipList.NcbiTreeToTips: the contracts state which names the list holds, not their order or repeats.
- Merge.CombineNcbiTrees: requires that the first tree's root has no parent and that every node below a root has a name. Both hold for trees built by `_kraken_to_ncbi_tree`.
- Merge.CombineNcbiTrees: "trees that add nothing" is stated as every tip name of a later tree already being present. That covers identical copies but not every tree whose merge happens to change nothing.
- Padding.SlotAt: the UnboundLocalError case gives None there, because `PadSpec` rules that case out before it renders.
