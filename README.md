# High-utility sequential rule mining: a Dafny model of the utility tree

This project models the core of `paper/code_test.cpp`:

- how one dataset line is read into a sequence (`parseSequence`);
- how the sequences are inserted into a shared prefix tree (`addTransaction` and `calculateUtilities`), with each node carrying its label, the SID of the sequence that created it, UT, PUT and RUT;
- how rules are grown from that tree (`treeGrowth`);
- the loop in `main` that builds the tree with SIDs 1, 2, … and grows rules from the root.

Every node but the root is labelled with the decimal text of an item id (`std::to_string`). Labels are read back with `std::stoi`.

The model has two layers:

- **Pure specifications.** Datatypes and functions: `ParseLine`, `Descend`, `Insert`, `Built`, `GrowthAt`/`ChildRules`, `Chain`.
- **Imperative mirror of the source.** A `UtilityTree` class whose `nodes` field the methods update in place, plus loops over tokens, over nodeLink and down the single path. Each method is proved equal to its specification function.

The tree is an arena: `nodes[0]` is the root, a node's `children` list is its nodeLink of indices in attachment order, and a child always has a larger index than its parent. A ghost parent table records that every node hangs under exactly one parent.

Modules, one per file:

- `Wrappers`: `Option`, `Result`.
- `Transactions`: `Item`, `Sequence`.
- `Decimal`: `std::to_string` and `std::stoi`.
- `LineParser`: `parseSequence`.
- `PrefixTree`: the arena, `calculateUtilities`, `addTransaction`, the build loop, the `UtilityTree` class.
- `InsertionPath`: the path one insertion takes and what it changes.
- `RuleGeneration`: `treeGrowth`.
- `Mining`: the run as `main` performs it.

## Where the code does something other than what it suggests

The model follows the code as written:

- **PUT is always 0.** `addTransaction` passes `calculateUtilities` the remaining suffix of the transaction (`paper/code_test.cpp:103`, `:111-112`). That suffix starts with the node's own item, so the loop stops at once: PUT is 0 and RUT equals the sequence utility at every node it touches. PUT is in general not the sum of the utilities of the items before the node's item in the whole sequence; the two agree only when those utilities sum to 0, as for the first item (`OwnItemStats`, `InsertKeepsZeroPut`, `BuiltZeroPut`, `SuffixLeavesPutZero`). The model still proves that `calculateUtilities` on a whole item list computes that prefix sum (`PrefixUtilityIsSum`, `WithStatsSplit`).
- **A pruned child stays attached.** The child is pushed onto nodeLink (`:96-100`) before its UT is compared with `minUtility` (`:106`). A node whose UT is below the threshold therefore stays in the tree; only the rest of the transaction is not inserted below it (`PrunedTouchesOneChild`, `PrunedNodeAttached`).
- **The single-path rule has no threshold test.** Because of the previous point, `treeGrowth`'s test `UT >= minUtility` (`:139`) can fail. The single-path rule (`:119-136`) is emitted without any threshold test, so a run can write a rule over nodes that are all below the threshold (`PrunedNodeStillMined`).
- **A shared node keeps its creator's SID.** SID is set only when the node is created (`:98`). A later sequence that passes through the node overwrites UT, PUT and RUT but not SID (`InsertExtends`).

## Model

| member | source | states |
|---|---|---|
| Decimal.DecimalStringShape | paper/code_test.cpp:85 | `std::to_string` writes a leading minus exactly for negative ids and digits everywhere else |
| Decimal.StoIUnsigned | paper/code_test.cpp:55 | `std::stoi` reads a non-empty run of digits as the number it denotes |
| Decimal.StoINegative | paper/code_test.cpp:60-61 | `std::stoi` reads a minus sign followed by digits as the negated value |
| Decimal.DecimalString | paper/code_test.cpp:85 | definition: `std::to_string` of an int, a minus sign for negative values followed by the decimal digits without leading zeros (shape in `DecimalStringShape`, read back by `StoIDecimal`) |
| Decimal.StoI | paper/code_test.cpp:55-61 | definition: `std::stoi` in base 10, skipping leading white space, reading an optional sign and the longest run of digits and ignoring the rest, as for the tokens here and for the label read at `:76`; `None` where no digit is found and `std::stoi` throws (proved facts in `StoIUnsigned`, `StoINegative`, `StoIDecimal`) |
| Decimal.StoIDecimal | paper/code_test.cpp:76 | `std::stoi` of a label written by `std::to_string` gives back the item id |
| Decimal.DecimalStringInjective | paper/code_test.cpp:85-94 | two items get the same label exactly when their ids are equal, in both directions |
| LineParser.Tokens | paper/code_test.cpp:51 | every token `stream >> token` extracts is non-empty and free of white space |
| LineParser.TokensJoin | paper/code_test.cpp:51 | splitting words joined by single spaces gives back exactly those words, in order |
| LineParser.Occurs | paper/code_test.cpp:54 | whether `SUtility:` occurs in the token (`find != npos`); an occurrence implies the token is at least as long as the pattern, so `substr(9)` is in range |
| LineParser.OccursAt | paper/code_test.cpp:54 | `Occurs` holds exactly when some window of the token spells the pattern, in both directions, so it agrees with `std::string::find` returning a position other than npos |
| LineParser.Find | paper/code_test.cpp:57-58 | `std::string::find` gives the first position of the character, or npos (the length) when it does not occur |
| LineParser.UtilityText | paper/code_test.cpp:61 | definition: the substring `substr(openBracket + 1, closeBracket - openBracket - 1)` with the length computed in `size_t`: no `[` wraps it to the text before `]`, and no `]` or a `]` at or before the `[` makes it run to the end |
| LineParser.ReadToken | paper/code_test.cpp:52-62 | definition: what one token contributes, branch by branch: a separator, a sequence utility from position 9 on, or an item, or `None` where `std::stoi` throws (proved facts in `ReadTotalToken`, `ReadItemToken`) |
| LineParser.Run | paper/code_test.cpp:51-64 | definition: the loop over the tokens as a fold from the empty state, stopping with `None` at the first token that throws (proved facts in `RunConcat`, `SeparatorIgnored`, `LastTotalWins`, `RunEntries`) |
| LineParser.ParseLine | paper/code_test.cpp:47-66 | definition: the sequence read from one line, `InvalidNumber` where `std::stoi` throws and `MissingSequenceUtility` when no `SUtility:` token occurs (round trip in `ParseFormat`) |
| LineParser.SeparatorAt | paper/code_test.cpp:52 | a loop round on `-1` or `-2` leaves the items and the sequence utility as they were |
| LineParser.TotalAt | paper/code_test.cpp:54-55 | a loop round on a `SUtility:` token replaces the sequence utility with the number after the first 9 characters, or fails where `std::stoi` throws |
| LineParser.EntryAt | paper/code_test.cpp:56-62 | a loop round on any other token appends the item read from the text before `[` and the unsigned-length substring after it, or fails where `std::stoi` throws |
| LineParser.ParseSequence | paper/code_test.cpp:47-66 | the loop over the tokens gives exactly `ParseLine`: the items in token order and the last sequence utility, or an error |
| LineParser.RunConcat | paper/code_test.cpp:51-64 | reading tokens a ++ b is reading a, then reading b from the state a left |
| LineParser.SeparatorIgnored | paper/code_test.cpp:52 | inserting a `-1` or `-2` anywhere in a line does not change what is read |
| LineParser.ReadTotalToken | paper/code_test.cpp:54-55 | the token `SUtility:<v>` is read as the sequence utility v |
| LineParser.LastTotalWins | paper/code_test.cpp:54-55 | a later `SUtility:` token replaces the value read so far: the last one wins |
| LineParser.ItemTokenChars | paper/code_test.cpp:57-61 | in `<id>[<u>]`, `[` is right after the id's text and `]` is the last character, with only digits and minus signs elsewhere |
| LineParser.ReadItemToken | paper/code_test.cpp:56-62 | the token `<id>[<u>]` is read as the item (id, u) |
| LineParser.RunEntries | paper/code_test.cpp:62 | item tokens are appended to the items in the order they appear |
| LineParser.ItemTokensReadAsEntries | paper/code_test.cpp:56-62 | the k-th item token of a line is read as the k-th item |
| LineParser.ParseFormat | paper/code_test.cpp:47-66 | reading the line written for a sequence gives back that sequence, with its items in order and its sequence utility |
| PrefixTree.PrefixUtility | paper/code_test.cpp:75-79 | definition: the PUT the loop accumulates, adding each item's utility until an item with the label's id (proved equal to a prefix sum in `PrefixUtilityIsSum`) |
| PrefixTree.PrefixUtilityIsSum | paper/code_test.cpp:75-79 | the PUT the loop accumulates is the sum of the utilities of the items before the first item whose id matches the label |
| PrefixTree.PrefixUtilityAt | paper/code_test.cpp:75-79 | one round of that loop stops on a matching id and otherwise adds the item's utility |
| PrefixTree.WithStats | paper/code_test.cpp:69-80 | `calculateUtilities` sets UT to the sequence utility with PUT + RUT equal to it, and keeps the label, SID and nodeLink |
| PrefixTree.WithStatsSplit | paper/code_test.cpp:69-80 | PUT is the prefix sum up to the first matching id and RUT is the sequence utility minus that sum |
| PrefixTree.OwnItemStats | paper/code_test.cpp:103 | on an item list that starts with the node's own item, `calculateUtilities` gives PUT 0 and RUT equal to the sequence utility |
| PrefixTree.FindLabel | paper/code_test.cpp:89-94 | the lookup returns a child in nodeLink with the label, and finds none exactly when no child has it |
| PrefixTree.UpdateKeepsValid | paper/code_test.cpp:103 | rewriting a node's statistics keeps every child after its parent and sibling labels distinct |
| PrefixTree.Attach | paper/code_test.cpp:98-99 | definition: the new node appended after every existing node and its index pushed at the end of the parent's nodeLink (validity kept by `AttachKeepsValid`, `AttachKeepsLinked`) |
| PrefixTree.AttachKeepsValid | paper/code_test.cpp:96-100 | attaching a child whose label no sibling has keeps sibling labels distinct |
| PrefixTree.UpdateKeepsLinked | paper/code_test.cpp:103 | rewriting a node's statistics keeps every node under exactly one parent |
| PrefixTree.AttachKeepsLinked | paper/code_test.cpp:96-100 | attaching a new leaf under a node makes that node its only parent |
| PrefixTree.Descend | paper/code_test.cpp:85-103 | one level of insertion reaches a child of `at` labelled with the first item's id, with UT = sequence utility, PUT 0 and RUT = sequence utility, and the tree stays well formed |
| PrefixTree.DescendFrame | paper/code_test.cpp:89-103 | a reused child keeps its SID and nodeLink; a created child carries the new SID, has a label no earlier sibling has and is appended at the end of nodeLink; no other node changes |
| PrefixTree.Insert | paper/code_test.cpp:83-113 | an insertion keeps the tree well formed and adds at most one node per item |
| PrefixTree.InsertKeepsEarlier | paper/code_test.cpp:83-113 | an insertion below `at` leaves the nodes created before `at` alone and changes only the nodeLink of `at` |
| PrefixTree.DescendExtends | paper/code_test.cpp:89-100 | one level never relabels a node or changes its SID, only appends to nodeLinks, and stamps a node it creates with the sequence's SID |
| PrefixTree.InsertExtendsAt | paper/code_test.cpp:83-113 | after a whole insertion, each old node has the same label and SID and its old nodeLink as a prefix; each new node carries the sequence's SID |
| PrefixTree.InsertExtends | paper/code_test.cpp:83-113 | the same for every node: SID is fixed at creation and children are appended in order |
| PrefixTree.Built | paper/code_test.cpp:178-181 | the tree after the build loop is well formed, its root record is untouched, and every other node's SID is between 1 and the number of sequences |
| PrefixTree.UtilityTree.constructor | paper/code_test.cpp:178 | a new tree is the bare root `"root"` with SID, UT, PUT and RUT all 0 |
| PrefixTree.UtilityTree.FindChild | paper/code_test.cpp:89-94 | the loop over nodeLink returns the first child with the label, or none when no child has it |
| PrefixTree.UtilityTree.CalculateUtilities | paper/code_test.cpp:69-80 | the loop leaves exactly the node `WithStats` describes and changes no other node |
| PrefixTree.UtilityTree.NewChild | paper/code_test.cpp:96-100 | the new node goes at the end of the arena with the SID and zero statistics, and at the end of nodeLink |
| PrefixTree.UtilityTree.AddTransaction | paper/code_test.cpp:83-113 | the recursive insertion leaves exactly the tree `Insert` describes and keeps it well formed |
| InsertionPath.Path | paper/code_test.cpp:83-113 | an insertion touches one node per item when the sequence utility reaches the threshold, exactly one below it, and none for an empty transaction |
| InsertionPath.PathStartsUnderAt | paper/code_test.cpp:89-100 | the first touched node is a child of the node inserted under |
| InsertionPath.PathLinkAt | paper/code_test.cpp:111-112 | each touched node is a child of the one touched before it |
| InsertionPath.PathLabelAt | paper/code_test.cpp:85 | the k-th touched node is labelled with the k-th item's id |
| InsertionPath.PathStatsAt | paper/code_test.cpp:103 | every touched node ends with UT = sequence utility, PUT 0 and RUT = sequence utility |
| InsertionPath.PathFacts | paper/code_test.cpp:83-113 | the touched nodes form a labelled chain of children from the node inserted under |
| InsertionPath.OffPathAt | paper/code_test.cpp:83-113 | a node that is neither touched nor the starting node is unchanged, and every new node is a touched one |
| InsertionPath.OffPathUnchanged | paper/code_test.cpp:83-113 | an empty transaction leaves the tree unchanged; every node off the path keeps its value; the starting node keeps its name, SID, UT, PUT and RUT, and its nodeLink only grows; every new node lies on the path |
| InsertionPath.PrunedTouchesOneChild | paper/code_test.cpp:105-108 | below the threshold, exactly one child is touched: it is attached, labelled and given UT; at most one node is added; every other node except the starting one is unchanged, and the starting node keeps its record while its nodeLink only grows |
| InsertionPath.FullPathLabelled | paper/code_test.cpp:111-112 | at or above the threshold, there is a chain of children labelled with every item of the transaction, in order |
| InsertionPath.InsertKeepsZeroPut | paper/code_test.cpp:83-113 | if every node has PUT 0 and RUT = UT, an insertion keeps it so |
| InsertionPath.BuiltZeroPut | paper/code_test.cpp:178-181 | every node of the built tree has PUT 0 and RUT = UT |
| RuleGeneration.Chain | paper/code_test.cpp:121-132 | the single-path loop follows first children from a node down to a leaf |
| RuleGeneration.WalkIsChain | paper/code_test.cpp:121-132 | that walk is unique: any first-child walk to a leaf is `Chain` |
| RuleGeneration.LabelsStep | paper/code_test.cpp:125 | one more node of the walk appends its label to the path |
| RuleGeneration.SumStep | paper/code_test.cpp:126 | one more node of the walk adds its UT to the cumulative utility |
| RuleGeneration.SinglePath | paper/code_test.cpp:119-136 | definition: the single-path rule from the only child, with the labels and UT sum of its first-child walk (proved facts in `SinglePathRule`, computed by `WalkSinglePath`) |
| RuleGeneration.BranchOf | paper/code_test.cpp:141-143 | definition: the branch rule written for a child: the antecedent, the child's label, SID, UT, PUT and RUT |
| RuleGeneration.GrowthAt | paper/code_test.cpp:119-151 | definition: `treeGrowth` on a node: one path rule when it has one child, otherwise the rules of its nodeLink loop (computed by `TreeGrowth`, soundness in `GrowthAtSound`) |
| RuleGeneration.ChildRules | paper/code_test.cpp:137-151 | definition: the nodeLink loop from a position on: for each child at or above the threshold, its branch rule followed by the rules grown below it with its label appended to the antecedent (facts in `ChildRulesSound`, `EveryPassingChildEmitted`, `FailingChildSkipped`) |
| RuleGeneration.Growth | paper/code_test.cpp:116-117 | definition: `treeGrowth` on a possibly null node, a null node emitting nothing (`LeafEmitsNothing`) |
| RuleGeneration.SinglePathRule | paper/code_test.cpp:119-136 | a node with one child emits exactly one path rule with the given antecedent, over the unique first-child walk, with its UT sum, and no threshold test |
| RuleGeneration.GrowthAtSound | paper/code_test.cpp:116-152 | every emitted rule comes from the subtree of the start node, reached through nodeLinks: a branch rule copies the label, SID, UT, PUT and RUT of a node in that subtree and passed the threshold; a path rule is the first-child walk from the only child of the start node or of a node in its subtree; every antecedent extends the given one |
| RuleGeneration.ChildRulesSound | paper/code_test.cpp:137-151 | the same for the rules the nodeLink loop emits: each comes from the subtree of the node whose children it loops over |
| RuleGeneration.FaithfulWiden | paper/code_test.cpp:148 | a rule grown below a child, under the antecedent extended by its label, is a rule from the subtree of the parent under the shorter antecedent |
| RuleGeneration.EveryPassingChildEmitted | paper/code_test.cpp:138-149 | every child at or above the threshold gets its branch rule with the current antecedent (the order of the rules is stated by `TreeGrowth`) |
| RuleGeneration.FailingChildSkipped | paper/code_test.cpp:139 | a child below the threshold emits nothing and is not grown |
| RuleGeneration.LeafEmitsNothing | paper/code_test.cpp:117-138 | a null node and a leaf emit no rules |
| RuleGeneration.WalkSinglePath | paper/code_test.cpp:121-132 | the single-path loop collects exactly the labels and UT sum of the first-child walk |
| RuleGeneration.TreeGrowth | paper/code_test.cpp:116-152 | the rules written, in order: one path rule for one child; otherwise, for each child in nodeLink order at or above the threshold, its rule followed by the rules grown below it with its label appended to the antecedent |
| Mining.Mined | paper/code_test.cpp:178-184 | definition: the rules a run writes: growth from the root of the built tree with an empty antecedent (facts in `MinedRulesSound` and the scenario lemmas, computed by `Mine`) |
| Mining.BuildTree | paper/code_test.cpp:178-181 | the build loop leaves a valid tree equal to `Built`, with sequence i inserted at the root with SID i + 1 |
| Mining.Mine | paper/code_test.cpp:178-184 | building, then growing from the root with an empty antecedent, writes exactly `Mined` |
| Mining.MinedRulesSound | paper/code_test.cpp:178-184 | every branch rule of a run passed the threshold, has PUT 0 and RUT = UT, and names a SID between 1 and the number of sequences; every path rule has a label |
| Mining.NothingMinedFromNothing | paper/code_test.cpp:178-184 | no sequences leave the bare root and yield no rules |
| Mining.ScenarioFirstLevel | paper/code_test.cpp:96-103 | inserting `1[5] 2[3]` with sequence utility 20 creates child "1" of the root with SID 1, UT 20, PUT 0, RUT 20 |
| Mining.ScenarioSecondLevel | paper/code_test.cpp:96-103 | the next level creates child "2" of that node, also with PUT 0 |
| Mining.PrunedNodeAttached | paper/code_test.cpp:96-108 | with any threshold above 20, the node for item 1 (UT 20) stays attached and nothing is inserted below it |
| Mining.PrunedNodeStillMined | paper/code_test.cpp:119-136 | with any threshold above 20, the run still writes the path rule over "1" with cumulative utility 20 |
| Mining.SuffixLeavesPutZero | paper/code_test.cpp:103-112 | with threshold 10, both items are inserted and the node for item 2 has PUT 0, not 5 |
| Mining.DefaultThresholdMined | paper/code_test.cpp:20 | with the compiled-in threshold 65 (`DefaultMinUtility`), the one-sequence input builds a root with the single child "1" and yields only the path rule over "1" with cumulative utility 20 |
| Mining.SuffixScenarioMined | paper/code_test.cpp:119-136 | with threshold 10, the run writes one path rule over "1", "2" with cumulative utility 40 |

## Left out

- Reading the input file line by line, opening the output file, and the open-failure exits (`paper/code_test.cpp:155-172`): these are I/O. `Mine` takes the parsed sequences.
- Writing rules to the output file and to the console (`:133-136`, `:141-146`): rules are modelled once, as `Rule` records. A branch rule keeps the antecedent, label, SID, UT, PUT and RUT. A path rule keeps its antecedent and its list of labels instead of the text `Y -> a -> b`, plus the cumulative utility.
- Timing with `std::chrono`, the execution log, `printMemoryUsage` and `getrusage`, and the closing message (`:10-17`, `:175`, `:186-201`): clock, file and OS calls. `paper/plot.py` is not part of this model.
- Decimal.StoI: does not model the `std::out_of_range` that `std::stoi` throws for values outside `int`. Only the `std::invalid_argument` case, where no digit is found, is modelled, as `None`.
- LineParser.ParseSequence: a `std::stoi` that throws is `Err(InvalidNumber)`. A line with no `SUtility:` token, where the source returns an indeterminate `sUtility`, is `Err(MissingSequenceUtility)`.
- UT, PUT, RUT, sequence utilities and `cumulativeUtility` are unbounded integers: C++ `int` overflow is not modelled.
- `minUtility` is a `double` in the source (`:20`, default 65, kept as `DefaultMinUtility`), and the model uses an integer threshold. Every UT compared with it is an integer, so a threshold m decides every comparison as the integer ⌈m⌉ does.
- The unused `left` and `right` fields and the `isLeft` parameter (`:41-42`, `:116`), and the nodes that are never freed.
- Pointers are arena indices. A null child pointer of `treeGrowth` is `None`. The parent table is ghost state that the source does not keep.
- PrefixTree.UtilityTree.CalculateUtilities: requires a non-root node. `addTransaction` only calls it on a child, and on the root `std::stoi("root")` would throw.
- LineParser.ReadToken: positions are character positions, not byte positions. A line is a sequence of characters, while `std::string` indexes bytes. The fixed offset 9 of `substr(9)` (`:55`) and the bracket positions therefore agree with the source only on ASCII text; a multi-byte character in front of `SUtility:` shifts the source's offset, and the model does not follow it.
- LineParser.Tokens: white space is the six characters `std::isspace` accepts in the "C" locale. Other locales are not modelled.
