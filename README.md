# ARCitect change tracking and ARC synchronisation, in Dafny

This project models two parts of ARCitect's renderer.

The first is the Git view's change tree (`GitService.ts`):
- the NUL-separated output of `git status -z -u` becomes status entries (code, path, size);
- the entries are folded into a prefix tree whose node ids are `/`-joined path prefixes and whose node sizes add up the entries below them;
- a node's checkbox handler selects or unselects the node's leaves;
- `select_lfs_nodes` picks the files that go to Git LFS by default;
- `expand_children` chooses which nodes are opened at first;
- small parsers read `git lfs ls-files`, `git branch` and `git remote -v`.

The second is the ARC control service (`ArcControlService.ts`):
- `handleARCContracts` applies a batch of DELETE / CREATE / UPDATE / RENAME contracts to the files under the ARC's root;
- `saveARC` chooses which contracts to apply;
- `updateGitIgnore` toggles a path in the ARC's `.gitignore` and issues the matching Git commands;
- `updateARCfromFS` decides which file-watcher events ask for a reload.

The files are a map from absolute path to content. Git is a log of the commands issued. The output Git would print, the file sizes and the contracts the ARC domain model would produce are all parameters.

Modules:
- `Strings` (`strings.dfy`): the JavaScript string operations used (`indexOf`, `includes`, `split`, `join`, `slice`, `toLowerCase`, `replace`), with split/join round trips.
- `ChangeTree` (`change_tree.dfy`): the tree, kept arena-style. Nodes live in a map keyed by their segment list. A parent is the key without its last segment. The builder is a method with the two nested loops of `GitService.ts`.
- `TreeWalks` (`walks.dfy`): the three pre-order walks (leaves, LFS candidates, opened nodes) as functions, with what each one lists.
- `Selection` (`selection.dfy`): the selected-id list and what `select`/`unselect` do to it.
- `GitOutput` (`git_output.dfy`): the parsers, each with a lemma that it reads back what Git prints. The porcelain parser is given twice: as written, and reading a rename or copy record together with its original-path field (see "## Findings").
- `GitService` (`git_service.dfy`): the `GitState` class holding the reactive state as plain fields, with methods for each operation.
- `Contracts` (`contracts.dfy`): one contract and a batch of contracts applied to the file map.
- `ArcControl` (`arc_control.dfy`): the `ArcControlService` class holding `props`, the files, the diagnostics, the Git command log and `force_commit_update`, plus the `.gitignore` line logic.

Behaviour of the code that the model keeps, and that a reader might not expect:
- The icon tests look for `" D"` and `" M"` with a leading space. Only worktree-side deletions and modifications get their own icon; every other code, `"D "` and `"M "` included, shows as added (`ChangeTree.IconOfCode`).
- A node's children are listed in the order in which the status entries first reach them; the leaf walk, the LFS selection and the opened nodes follow that order.
- The dataset test needs `"/dataset/"` with slashes on both sides. A top-level `dataset/...` id does not match.
- The root node has no size, so the total-size property is stated about the root's children (`ChangeTree.TopLevelSizes`).
- A node's size is the total of the entries passing through it. It is not the sum of its children's sizes when an entry also ends at that node.
- A CREATE/UPDATE whose DTO type is neither ISA nor plain text ends the whole batch (`return`), rather than being skipped.
- The default-`.gitignore` push in `saveARC` pushes no contract. `ArcControl.IgnoreStaysMissing` states the consequence.
- `updateGitIgnore` removes only the first line equal to the entry.

## Model

| member | source | states |
|---|---|---|
| `ChangeTree.BuildTree` | packages/renderer/src/GitService.ts:29-86 | the built tree is well formed and summarises the entries: its nodes are exactly the path prefixes of the entries, each node's children are listed in the order the entries first reach them, each node's size is the total size of the entries through it, and each node's code is that of the last entry ending there |
| `ChangeTree.AddEntry` | packages/renderer/src/GitService.ts:62-86 | walking one more entry into the tree, segment by segment, gives the tree summarising the entries so far plus that one, a new child going last among its siblings |
| `ChangeTree.AddSegment` | packages/renderer/src/GitService.ts:65-85 | one pass of the segment loop takes the tree from summarising the first s segments of the entry to the first s+1: the node is found or pushed last among the current children, its size grows by the entry's size, and the last segment's node takes the entry's code |
| `ChangeTree.ChildOrderMembers` | packages/renderer/src/GitService.ts:68-78 | the children a node gets are exactly the keys one segment below it that some entry passes through |
| `ChangeTree.ChildOrderStable` | packages/renderer/src/GitService.ts:77 | a later entry never reorders existing children: the children the first i entries create are a prefix of the final list |
| `ChangeTree.ChildOrderUnreached` | packages/renderer/src/GitService.ts:69-79 | a key no entry passes through gets no children |
| `ChangeTree.ChildrenByFirstReach` | packages/renderer/src/GitService.ts:62-86 | in the built tree, the children reached by the first i entries come first among a node's children, in the order they were first reached |
| `ChangeTree.FindChildByKey` | packages/renderer/src/GitService.ts:67-69 | the lookup by id among the parent's children finds a node exactly when the segment's node exists, and then finds that node |
| `ChangeTree.FindChild` | packages/renderer/src/GitService.ts:68 | the child found has the id asked for and is among the children looked at; when none is found, no child has that id |
| `ChangeTree.Segments` | packages/renderer/src/GitService.ts:63 | `path.split('/')` gives at least one segment, and no segment holds a slash |
| `ChangeTree.PathNodes` | packages/renderer/src/GitService.ts:63-79 | for segment s of an entry's path, the node exists, its id is the first s+1 segments joined by '/' (no "./" in front) and its name is that segment |
| `ChangeTree.IdsDistinct` | packages/renderer/src/GitService.ts:67 | two nodes with the same id are the same node |
| `ChangeTree.SiblingIdsUnique` | packages/renderer/src/GitService.ts:68-78 | a node's children, the root's included, have pairwise different ids |
| `ChangeTree.SiblingIds` | packages/renderer/src/GitService.ts:67 | two children of one parent whose ids coincide have the same segment |
| `ChangeTree.TopLevelSizes` | packages/renderer/src/GitService.ts:62-80 | the sizes of the root's children add up to the total size of all entries |
| `ChangeTree.LastCodeEnds` | packages/renderer/src/GitService.ts:81-82 | a key has a code exactly when some entry's path ends there, and the code is that of the last such entry |
| `ChangeTree.TypeOnlyAtEnds` | packages/renderer/src/GitService.ts:81-84 | only nodes where an entry ends get a type; they then get the icon for that type, and a node only passed through has neither |
| `ChangeTree.IconOf` | packages/renderer/src/GitService.ts:83 | `indeterminate_check_box` iff the code contains " D"; otherwise `edit_square` iff it contains " M"; otherwise `add_box` |
| `ChangeTree.IconOfCode` | packages/renderer/src/GitService.ts:83 | on a two-character code the icon is `indeterminate_check_box` iff the code is " D", `edit_square` iff it is " M", and `add_box` otherwise |
| `GitService.GitState.BuildChangeTree` | packages/renderer/src/GitService.ts:29-95 | the new tree becomes the state's change tree and summarises the entries, children in first-reached order |
| `GitService.GetLeafNodes` | packages/renderer/src/GitService.ts:22-27 | the accumulator gets the leaf walk of the given node appended, the root's when no node is given |
| `GitService.LeafNodesFrom` | packages/renderer/src/GitService.ts:24-26 | a childless node is pushed; otherwise each child's leaves are appended from left to right, giving exactly the leaf walk |
| `TreeWalks.LeavesExactly` | packages/renderer/src/GitService.ts:22-27 | the leaf walk lists exactly the childless nodes at or below the node |
| `TreeWalks.LeavesNonEmpty` | packages/renderer/src/GitService.ts:24-25 | the leaf walk is never empty (a childless node yields itself) |
| `TreeWalks.CollectNoDup` | packages/renderer/src/GitService.ts:26 | a walk lists no node twice |
| `TreeWalks.CollectSound` | packages/renderer/src/GitService.ts:22-27 | a walk lists only nodes of the subtree that pass its test |
| `Selection.Toggled` | packages/renderer/src/GitService.ts:51-60 | on a duplicate-free, ".xlsx"-free selection: the result is again duplicate-free and ".xlsx"-free; when every leaf was selected it holds exactly the old ids that are not leaves, otherwise exactly the old ids and the leaves, minus ".xlsx" ids |
| `GitService.GitState.Toggle` | packages/renderer/src/GitService.ts:51-60 | the selection becomes the toggle of the node's leaf ids: cleared when all are selected, added otherwise; no duplicates and no ".xlsx" id remain |
| `GitService.GitState.Unselect` | packages/renderer/src/GitService.ts:37-42 | after splicing out each id that is found, the selection is the old one without the given ids, in order and duplicate-free |
| `GitService.GitState.Select` | packages/renderer/src/GitService.ts:43-49 | each absent id is pushed and then every ".xlsx" id is filtered out |
| `Selection.SpliceIsWithout` | packages/renderer/src/GitService.ts:39-40 | on a duplicate-free list, `indexOf` plus `splice(idx,1)` removes the id entirely |
| `Selection.CountAll` | packages/renderer/src/GitService.ts:55-56 | the count of selected leaves equals the number of leaves exactly when every leaf is selected |
| `Selection.ClearLeaves` | packages/renderer/src/GitService.ts:37-41 | after clearing, no leaf is selected and every other selected id stays |
| `Selection.AddLeaves` | packages/renderer/src/GitService.ts:43-49 | after adding, the selection is exactly the old ids and the leaves minus ".xlsx" ids, without duplicates |
| `Selection.XlsxNeverFull` | packages/renderer/src/GitService.ts:48-56 | a subtree with an ".xlsx" leaf never counts as fully selected |
| `Selection.ToggleTwiceFromFull` | packages/renderer/src/GitService.ts:51-60 | from a fully selected subtree, two toggles give back the same set of selected ids |
| `Selection.ToggleTwiceFromNone` | packages/renderer/src/GitService.ts:51-60 | from a subtree with nothing selected and no ".xlsx" leaf, two toggles give back the same set of selected ids |
| `Selection.ToggleTwiceFromPartial` | packages/renderer/src/GitService.ts:51-60 | from a partly selected subtree without ".xlsx" leaves, two toggles leave exactly the old ids that are not leaves: a leaf selected before ends up unselected |
| `Selection.ToggleTwiceWithXlsx` | packages/renderer/src/GitService.ts:48-60 | a subtree with an ".xlsx" leaf is never full, so every toggle selects: a second toggle keeps the ids the first one selected |
| `Selection.WithoutMembers` | packages/renderer/src/GitService.ts:37-41 | an id stays after `unselect` iff it was selected and is not one of the leaves |
| `Selection.AddedMembers` | packages/renderer/src/GitService.ts:44-47 | after the pushes, exactly the old ids and the new ones are present |
| `Selection.AddedNoDup` | packages/renderer/src/GitService.ts:45-46 | pushing only absent ids adds no duplicate |
| `Selection.NoXlsxMembers` | packages/renderer/src/GitService.ts:48 | the filter keeps exactly the ids not ending in ".xlsx" |
| `GitService.IsLfsCandidate` | packages/renderer/src/GitService.ts:102 | the test is true iff the node is childless, its id does not end in ".xlsx", and its lower-cased id contains "/dataset/", or its size reaches the limit, or its id is a key of the LFS map |
| `GitService.GitState.SelectLfsNodes` | packages/renderer/src/GitService.ts:97-107 | the LFS map is re-read (kept when the listing fails) and the selection is replaced by the pre-order list of LFS candidate ids |
| `GitService.GitState.SelectCandidates` | packages/renderer/src/GitService.ts:100-106 | the selection is reset and then holds the candidate walks from each of the root's children, in order, keeping the selection invariant |
| `GitService.GitState.InitSelectNodes` | packages/renderer/src/GitService.ts:101-105 | the node's id is pushed when it is a candidate, followed by its children's candidates in pre-order |
| `TreeWalks.LfsExactly` | packages/renderer/src/GitService.ts:100-106 | the default LFS walk, root excluded, lists exactly the childless non-".xlsx" nodes that are in a dataset, big enough or already tracked |
| `GitService.LfsSelectionClean` | packages/renderer/src/GitService.ts:100-106 | the default LFS selection holds no duplicate and no ".xlsx" id |
| `TreeWalks.ExpandExactly` | packages/renderer/src/GitService.ts:127-137 | `expand_children` from the root's children opens exactly the nodes that, like all their ancestors below the root, have at most five children |
| `GitService.GitState.ExpandChildren` | packages/renderer/src/GitService.ts:127-137 | the opened ids are "." followed by the ids the expand walk reaches from each of the root's children |
| `GitService.GitState.ExpandFrom` | packages/renderer/src/GitService.ts:129-134 | a node with more than five children adds nothing; otherwise its id and then its children's walks are appended |
| `GitService.PushSizes` | packages/renderer/src/GitService.ts:121-123 | each status record gets the size at its own index |
| `GitService.GitState.ParseStatus` | packages/renderer/src/GitService.ts:109-138 | the rebase flag follows the status banner, the tree summarises the entries read pairwise (`ParsePorcelainPairs`) with their sizes, children in first-reached order, the LFS selection is made and the first nodes are opened |
| `GitOutput.ParsePorcelain` | packages/renderer/src/GitService.ts:120 | every record's code has at most two characters, and output without a NUL gives no record (the unterminated tail is dropped) |
| `GitOutput.PorcelainRoundTrip` | packages/renderer/src/GitService.ts:120 | splitting on NUL, dropping the last field and taking code = first two characters, path = from index 3 reads back every NUL-terminated record of the form "XY path" |
| `GitOutput.PorcelainSplitsRename` | packages/renderer/src/GitService.ts:120 | as written, a rename or copy record followed by its original-path field reads as two records, the second with the old path's first two characters as code |
| `GitOutput.ReadFields` | packages/renderer/src/GitService.ts:120 | reading fields pairwise gives at most one record per field, and at least one when there is a field |
| `GitOutput.ParsePorcelainPairs` | packages/renderer/src/GitService.ts:120 | the pairwise reading never gives more records than the reading as written, and none for output without a NUL |
| `GitOutput.PorcelainPairsRoundTrip` | packages/renderer/src/GitService.ts:120 | the pairwise reading gives back exactly the records Git prints, renames and copies included, one record each |
| `GitService.GitState.UpdateLfsFiles` | packages/renderer/src/GitService.ts:140-156 | on success the LFS map is rebuilt from scratch, one `set` per line; on failure it is unchanged |
| `GitOutput.LfsLine` | packages/renderer/src/GitService.ts:152-153 | a line without a space (such as the empty piece after the final newline) gives the empty key with the value false |
| `GitOutput.LfsLineFields` | packages/renderer/src/GitService.ts:152-153 | a listing line "oid mark path" gives the key path (spaces included, fields 3 on joined with spaces) and the value mark == "*" |
| `GitOutput.LfsMap` | packages/renderer/src/GitService.ts:148-155 | the key of every line is in the map |
| `GitOutput.LfsMapKeys` | packages/renderer/src/GitService.ts:148-155 | the map's keys are exactly the keys of the lines |
| `GitOutput.LfsMapLastWins` | packages/renderer/src/GitService.ts:150-155 | a key maps to the value of the last line that has it |
| `GitService.GitState.GetBranches` | packages/renderer/src/GitService.ts:187-206 | the branch list is every line but the last with its first two characters cut, and the current branch is the last starred one |
| `GitOutput.Rows` | packages/renderer/src/GitService.ts:192 | no row holds a newline, and output without a newline gives no row |
| `GitOutput.CurrentOf` | packages/renderer/src/GitService.ts:197-201 | there is a current branch iff some row is starred, and it is a starred row with its first two characters cut |
| `GitOutput.BranchesOf` | packages/renderer/src/GitService.ts:192-202 | one branch per row; the current branch, if any, is one of the listed branches, and there is none iff no row is starred |
| `GitOutput.BranchesRoundTrip` | packages/renderer/src/GitService.ts:192-202 | the branch output `git branch` prints is read back to the same names and checked-out branch |
| `GitService.GitState.GetRemotes` | packages/renderer/src/GitService.ts:229-248 | the remotes are rebuilt from the rows, none dirty, stopping with failure at the first row without a tab |
| `GitOutput.RemoteRow` | packages/renderer/src/GitService.ts:237-239 | a row is read iff it has a tab; the name then has no tab and the url no tab or space |
| `GitOutput.RemoteRowFields` | packages/renderer/src/GitService.ts:236-239 | a row "name\turl (fetch)" gives back its name and url |
| `GitOutput.RemotesOf` | packages/renderer/src/GitService.ts:234-245 | no remote read is dirty, and there are no more remotes than rows |
| `GitOutput.RemotesOk` | packages/renderer/src/GitService.ts:236-245 | all rows are read iff every row has a tab |
| `GitOutput.RemotesNames` | packages/renderer/src/GitService.ts:234-245 | when all rows are read, the remotes are exactly the names of the rows, none dirty |
| `GitOutput.RemotesStop` | packages/renderer/src/GitService.ts:236-239 | once a row fails, no later row is read |
| `GitService.GitState.constructor` | packages/renderer/src/GitService.ts:7-20 | the initial state: empty tree, selection, maps and lists, LFS limit 1 |
| `ArcControl.PickRoot` | packages/renderer/src/ArcControlService.ts:90-92 | the root used is the given one when non-empty, else the stored one when non-empty, else none |
| `ArcControl.PickArc` | packages/renderer/src/ArcControlService.ts:89 | an ARC is used iff one is given or stored, the given one first |
| `ArcControl.ArcControlService.HandleArcContracts` | packages/renderer/src/ArcControlService.ts:88-141 | without an ARC or a root nothing changes; otherwise the service is busy, `UpdateFileSystem` is called once, and files and diagnostics are those of applying the contracts in list order under the root |
| `ArcControl.ArcControlService.ApplyContract` | packages/renderer/src/ArcControlService.ts:97-139 | one round of the switch changes files and diagnostics as `Contracts.Apply` says and reports whether the batch ends |
| `ArcControl.ArcControlService.WriteContract` | packages/renderer/src/ArcControlService.ts:104-126 | the CREATE/UPDATE branch changes files and diagnostics as `Contracts.Write` says |
| `Contracts.Run` | packages/renderer/src/ArcControlService.ts:95-140 | the batch ends iff one of its contracts is an unresolvable write, and it logs at most one diagnostic per contract |
| `Contracts.Write` | packages/renderer/src/ArcControlService.ts:104-126 | a write logs at most one diagnostic, ends the batch iff its kind is neither ISA nor plain text, changes no path but its own, and leaves an existing file unchanged unless the kind is ISA |
| `Contracts.PlainTextOf` | packages/renderer/src/ArcControlService.ts:120 | the DTO, or '' in its place, is a text unless the payload is a workbook, and the empty text when there is no payload |
| `Contracts.RenameTarget` | packages/renderer/src/ArcControlService.ts:132 | `'/' + DTO` always names a destination: the same text a plain-text write would store when the payload is a text, "undefined" (not '') when there is none, and "[object Object]" for a workbook |
| `Contracts.Apply` | packages/renderer/src/ArcControlService.ts:97-139 | one contract logs at most one diagnostic, ends the batch iff it is an unresolvable write (then changing nothing), and changes no path but the ones it names |
| `Contracts.DeleteRemoves` | packages/renderer/src/ArcControlService.ts:98-103 | DELETE removes exactly root/Path, with no diagnostic, whether or not it existed |
| `Contracts.IsaOverwrites` | packages/renderer/src/ArcControlService.ts:104-116 | an ISA-kind write puts the serialised workbook at root/Path whatever was there, and nothing else changes |
| `Contracts.ExclusiveWrite` | packages/renderer/src/ArcControlService.ts:117-122 | a plain-text write creates a missing file with the DTO text ('' when absent) and never changes an existing file |
| `Contracts.ExclusiveTwice` | packages/renderer/src/ArcControlService.ts:117-122 | applying the same plain-text contract twice leaves the files as after once and adds one diagnostic |
| `Contracts.RenameMoves` | packages/renderer/src/ArcControlService.ts:127-135 | RENAME of an existing file, whatever its payload, moves the content of root/Path to root/DTO, the old path is gone, nothing else changes |
| `Contracts.RenameMissing` | packages/renderer/src/ArcControlService.ts:127-135 | renaming a missing file changes nothing and logs a diagnostic |
| `Contracts.UnknownLogged` | packages/renderer/src/ArcControlService.ts:136-138 | an unrecognised operation only logs, and the batch goes on |
| `Contracts.UnresolvedEndsBatch` | packages/renderer/src/ArcControlService.ts:123-124 | an unresolvable write ends the batch: earlier contracts are applied, it changes nothing, no later one is applied |
| `Contracts.RunConcat` | packages/renderer/src/ArcControlService.ts:95-140 | applying a + b is applying a and then, unless a ended the batch, b on the files a left |
| `Contracts.RunHalted` | packages/renderer/src/ArcControlService.ts:124 | once the batch has ended, further contracts change nothing |
| `Contracts.RunFrame` | packages/renderer/src/ArcControlService.ts:95-140 | a batch changes no file outside the paths its contracts name |
| `ArcControl.ArcControlService.SaveArc` | packages/renderer/src/ArcControlService.ts:143-173 | without an ARC or root nothing happens; otherwise the write (force) or update contracts are applied, `UpdateFileSystem` is called twice, and busy ends false |
| `ArcControl.IgnoreStaysMissing` | packages/renderer/src/ArcControlService.ts:161-170 | since the default-`.gitignore` push adds nothing, a missing `.gitignore` that no contract names stays missing, so the toggle then changes nothing and issues no command |
| `ArcControl.LineDelimiter` | packages/renderer/src/ArcControlService.ts:237 | the delimiter is "\r\n" iff the text contains it, else "\n" |
| `ArcControl.ToggledLines` | packages/renderer/src/ArcControlService.ts:240-252 | an absent entry adds one occurrence of it, a present one removes one, and no other line's count changes |
| `ArcControl.ToggledText` | packages/renderer/src/ArcControlService.ts:237-258 | an absent entry makes the new text the old text + delimiter + entry |
| `ArcControl.IgnoreCommands` | packages/renderer/src/ArcControlService.ts:240-257 | every command runs in the ARC root and ends with "." + entry; the single `add` is issued iff the entry is listed |
| `ArcControl.CrlfKept` | packages/renderer/src/ArcControlService.ts:237-258 | a CRLF file gets the new entry on a CRLF line, never LF |
| `ArcControl.ToggleRemovesFirst` | packages/renderer/src/ArcControlService.ts:240-252 | a present entry loses only its first occurrence: that line is spliced out and the lines before and after it stay, in order |
| `ArcControl.ToggleTwice` | packages/renderer/src/ArcControlService.ts:240-252 | appending an absent entry and toggling it again gives back the lines |
| `ArcControl.WrittenParsesBack` | packages/renderer/src/ArcControlService.ts:237-258 | the rewritten file splits back, with the same delimiter, into the toggled lines |
| `ArcControl.ArcControlService.ToggleIgnoreFile` | packages/renderer/src/ArcControlService.ts:236-259 | an absent entry is appended and `git reset .entry`, `git rm --cached .entry` are issued; a present one is removed and `git add .entry` is issued; the file is rejoined with its own delimiter and `force_commit_update` rises by exactly 1 |
| `ArcControl.ArcControlService.UpdateGitIgnore` | packages/renderer/src/ArcControlService.ts:230-260 | the entry is the path with the root cut out; a missing `.gitignore` triggers a save with the update contracts first; then the file is toggled as above |
| `ArcControl.WorkbookEventsReload` | packages/renderer/src/ArcControlService.ts:225 | every path containing `isa.assay.xlsx` or `isa.study.xlsx` asks for a reload |
| `ArcControl.ArcControlService.UpdateArcFromFs` | packages/renderer/src/ArcControlService.ts:222-228 | one reload is scheduled iff updates are not skipped and the path names an assay or study workbook; otherwise nothing happens |
| `ArcControl.ArcControlService.constructor` | packages/renderer/src/ArcControlService.ts:22-34 | the initial `props`: no root, not busy, no ARC, Git not initialised, updates not skipped |

## Left out

- `packages/main/src/InternetService.ts` is not part of this model. It is network plumbing whose single-slot request teardown exists for in-flight concurrency.
- Spreadsheet serialisation (`Xlsx.toBytes`/`fromBytes`) is not modelled. A written workbook is stored as the opaque payload it serialises.
- The ARC domain model is opaque: `ARC.fromFilePaths` and the contract generators (`GetReadContracts`, `GetUpdateContracts`, `GetWriteContracts`, `UpdateFileSystem`, the delete/rename generators). Its contracts are parameters. `UpdateFileSystem` calls are recorded in a log.
- `ArcControlService.delete`/`rename` (ArcControlService.ts:175-188) only pass the ARC's contracts to `handleARCContracts`, which is modelled with the contracts as a parameter.
- The file service and the Git runner are not modelled in detail. Files are a map from path to content, and Git commands go to a log. A path is a file only; recursive removal and renaming of directories are not modelled.
- A create-exclusive (`'wx'`) write onto an existing file is refused by the file service. Nothing in these files says whether the refusal ends the loop, so the model logs a `Rejected` diagnostic, leaves the files unchanged and goes on. Renaming a missing file, and a plain-text write whose payload is a workbook, are handled the same way. A RENAME whose payload is a workbook is not refused: it moves the file to root/"[object Object]", as JavaScript's string conversion gives.
- Renaming onto an existing destination overwrites it, as a POSIX rename does.
- `console.log` of each contract is not modelled.
- `pDebounce(readARC, 300)` and the watcher subscription are not modelled (timers and a library). A relevant event adds one to a `reloads` counter.
- Vue's `reactive` and `watch` are not modelled. The state bag is plain class fields. The `watch` on `lfs_size_limit` that re-runs `select_lfs_nodes` is left to the caller, who calls `SelectLfsNodes` again.
- Parent back-pointers (GitService.ts:88-91) are not stored. A node's parent is its key without the last segment.
- `readARC`, `newARC`, `closeARC`, `openArcInExplorer`, `set_git_user` and `check_remotes` are I/O orchestration and not modelled.
- `get_url_credentials` and `patch_remote` depend on JavaScript regular expressions and the user's token, and are not modelled.
- GitService.GitState.ParseStatus: the LFS size limit is a whole number of MiB. `parseFloat` of a fractional limit is not modelled.
- GitService.GitState.ParseStatus: reads rename/copy records pairwise (`ParsePorcelainPairs`), the corrected reading of the finding below; as written, GitService.ts:120 takes the origin field for a record of its own (`GitOutput.PorcelainSplitsRename`), which puts a spurious entry into the change tree: its code is the field's first two characters and its path the field from index 3 on.
- GitService.GitState.ParseStatus: requires one file size per status record, which is what the file service's `getFileSizes` returns. Other lengths are not modelled (`GitService.ts` would throw, or add `undefined` to the sizes).
- `parse_status` calls `select_lfs_nodes` without awaiting it. The model completes the selection before opening nodes; the two touch different fields.
- Strings.Lower: lowers only ASCII letters; `toLowerCase`'s other Unicode mappings are not modelled.
- The advisory `busy` flag is set as `ArcControlService.ts` sets it (`handleARCContracts` never clears it) and is never checked. Overlapping calls are not modelled.
- GitService.GitState.constructor: `GitService.ts` starts with `change_tree: []` and `branches: []` (GitService.ts:9, :16), so `get_leaf_nodes` or `select_lfs_nodes` before the first `parse_status` throws there. The model starts with an empty tree, on which those walks give empty results.
- Two toggles of a node restore the selected ids only from a fully selected subtree or from one with nothing selected and no ".xlsx" leaf (`Selection.ToggleTwiceFromFull`, `Selection.ToggleTwiceFromNone`). `Selection.ToggleTwiceFromPartial` and `Selection.ToggleTwiceWithXlsx` state what happens otherwise.
- `ArcControl.RootText` (an unset root prints as "undefined") and `ArcControl.RequiresReload` carry no contract of their own. `ArcControl.ArcControlService.UpdateGitIgnore` and `ArcControl.WorkbookEventsReload` state what they do.
- `updateGitIgnore` when the `.gitignore` is still missing, or not text, after the save: the `readFile` call of `ArcControlService.ts` would fail. The model ends the call there with no further change.

## Findings

| source | as written | input that shows it | evidently intended | confidence | as-written member | corrected member |
|---|---|---|---|---|---|---|
| packages/renderer/src/GitService.ts:120 | `split('\u0000')` reads every NUL-separated field as an "XY path" record | a staged rename prints "R  new\0old\0"; "old" becomes a second record with code "ol" and path from index 3 | one record per change; the original-path field after a rename or copy is consumed with it | medium, not executed | `GitOutput.PorcelainSplitsRename` | `GitOutput.PorcelainPairsRoundTrip` |
