# Tree-merge diff engine (git's tree-diff.c), modelled in Dafny

This project models the core of git's `tree-diff.c`. The engine walks two name-sorted
tree objects in lockstep with a cursor on each. It reports removals (`-`), additions
(`+`) and changes through two callbacks, `change` and `add_remove`.

- It descends into a changed directory when the recursion policy allows it: the
  recursive flag, `--max-depth` and the pathspec.
- When a directory exists on one side only, it reports the whole subtree (`show_entry`
  and `show_tree`).
- It prunes uninteresting entries early (`skip_uninteresting`).
- After a top-level diff that looks like the creation of one file, the rename-follow
  post-pass (`try_to_follow_renames`) reruns the diff more broadly. It then cuts the
  result queue down to the one pair it keeps.

Layout, one module per component:

- `types.dfy` (`TreeTypes`): tree entries, with each directory's subtree inline; events;
  the interest outcomes; the options; queued file pairs; and a size measure used for
  termination.
- `policy.dfy` (`RecursionPolicy`): `is_dir_prefix`, `within_depth`,
  `check_recursion_depth` and `should_recurse`.
- `order.dfy` (`EntryOrder`): `base_name_compare`, the order of entries in a tree object.
- `walk.dfy` (`DiffSpec`): the events of `show_entry`, `show_tree`,
  `skip_uninteresting`, `compare_tree_entry` and the `diff_tree` loop, written as
  functions. They take the events reported so far as an input, because the early-quit
  test depends on them.
- `walk_props.dfy` (`DiffProps`): lemmas about those functions.
- `follow.dfy` (`RenameFollow`): when the post-pass triggers, which pair it adopts, and
  the options of the rerun.
- `engine.dfy` (`TreeDiff`): class `Differ`. It is the imperative engine, with the path
  buffer `base`, the callback record `events`, the result `queue` and `found_follow`.
  Each method is proved to report exactly the events of its `DiffSpec` function. Each
  method also hands `base` back at the length it found it.
- `examples.dfy` (`DiffExamples`): small diffs worked out end to end.

## Model

| member | source | states |
|---|---|---|
| `RecursionPolicy.IsDirPrefix` | tree-diff.c:13-18 | true iff the first `dirlen` bytes of `path` equal those of `dir` and `path` ends or has `'/'` right after them |
| `RecursionPolicy.DirPrefixExamples` | tree-diff.c:14-18 | `"ab"` is not a leading directory of `"abc"`, but it is one of `"ab/c"` and of `"ab"` |
| `RecursionPolicy.WithinDepth` | tree-diff.c:26-27 | the depth test `within_depth` accepts every name without `'/'`, and rejects a name with one once `depth` has reached `max_depth` |
| `RecursionPolicy.WithinDepthSlashes` | tree-diff.c:45-47 | the early-exit walk of `within_depth` is true iff the name has no `'/'` or `depth + #'/' <= max_depth` |
| `RecursionPolicy.ScanNoDecider` | tree-diff.c:34-60 | the reverse scan over the pathspec items is false when no item is a leading directory of the name, or has the name as one |
| `RecursionPolicy.ScanLastDecider` | tree-diff.c:34-59 | the scan gives the verdict of the highest-indexed deciding item: a depth check of the rest of the name, or true |
| `RecursionPolicy.ScanItems` | tree-diff.c:34-60 | the reverse scan over no items is false; when the highest-indexed item scanned decides the name, the scan gives that item's verdict |
| `RecursionPolicy.CheckRecursionDepth` | tree-diff.c:20-27 | with an empty pathspec, the name passes iff it has no `'/'` or `1 + #'/' <= max_depth` |
| `RecursionPolicy.NoDecidingItemMeansNoRecursion` | tree-diff.c:26-60 | with pathspec items of which none decides, `check_recursion_depth` is false |
| `RecursionPolicy.ShorterPrefixAlwaysRecurses` | tree-diff.c:50-58 | a name shorter than the last deciding item, and a leading directory of it, is always expanded, whatever the depth |
| `RecursionPolicy.LongerMatchChecksDepth` | tree-diff.c:37-47 | when the last deciding item is a leading directory of the name, the answer is true iff the rest of the name has no `'/'` or at most `max_depth − 1` of them |
| `RecursionPolicy.ShouldRecurse` | tree-diff.c:63-78 | not recursive gives false; recursive with no depth limit gives true; with a limit and no pathspec, true iff the path has no `'/'` or `1 + #'/' <= max_depth` |
| `RecursionPolicy.MaxDepthOneExample` | tree-diff.c:63-78 | with max depth 1 and no pathspec, `x` is expanded and `x/y` is not |
| `EntryOrder.BaseNameCompare` | tree-diff.c:94 | the comparison is -1, 0 or 1; names whose first characters differ are ordered by those characters |
| `EntryOrder.CompareSelf` | tree-diff.c:94 | every entry ties with itself |
| `EntryOrder.CompareAntisymmetric` | tree-diff.c:94 | swapping the entries negates the comparison |
| `EntryOrder.CompareTransitive` | tree-diff.c:94 | "sorts before" is transitive |
| `EntryOrder.CompareZeroIffSame` | tree-diff.c:94-104 | for names without `'/'` or NUL, a tie happens iff the names are equal and the directory bits agree |
| `EntryOrder.SlashNameTiesWithDirectory` | tree-diff.c:94 | directory `a` ties with a name `a/b` |
| `EntryOrder.OrderExamples` | tree-diff.c:94 | file `a.txt` < directory `a`; file `a` < directory `a`; directory `a` < `a0` |
| `DiffSpec.EntryEvents` | tree-diff.c:150-182 | `show_entry` is silent only for a directory that is expanded while TREE_IN_RECURSIVE is off; a file or a directory that is not expanded always reports |
| `DiffSpec.Skip` | tree-diff.c:184-197 | the pruned cursor never moves backwards and never passes the end of the tree |
| `DiffSpec.SkipStops` | tree-diff.c:184-197 | the pruned cursor stops at the first entry that is not `entry_not_interesting`. Every entry skipped before it was `entry_not_interesting`. At `all_entries_not_interesting` the cursor is emptied |
| `DiffSpec.Compare` | tree-diff.c:80-129 | only appends events; the result is -1 exactly when the first entry sorts before the second, 0 exactly when they tie, and 1 exactly when it sorts after |
| `DiffSpec.Walk` | tree-diff.c:214-245 | the `diff_tree` loop from any cursor positions (quit poll, pruning, then a pass) only appends events to those reported before |
| `DiffSpec.Step` | tree-diff.c:221-244 | the pass after pruning only appends events to those reported before |
| `DiffProps.EntryEventsSigned` | tree-diff.c:150-182 | `show_entry` reports only add/remove events with its own sign, at the entry's path or below; a file or a directory that is not expanded is exactly one event |
| `DiffProps.TreeEventsSigned` | tree-diff.c:132-147 | `show_tree` reports only add/remove events with its own sign, below its base |
| `DiffProps.CompareSelfSilent` | tree-diff.c:103-104 | identical entries report nothing and return 0 when FIND_COPIES_HARDER is off |
| `DiffProps.WalkSelfSilent` | tree-diff.c:214-245 | when FIND_COPIES_HARDER is off, diffing a tree against itself reports nothing |
| `DiffProps.CompareUnequalShowsFirst` | tree-diff.c:95-102 | when the old entry sorts first, the result is -1 and the events are its `show_entry` as a removal; when the new one sorts first, 1 and its `show_entry` as an addition |
| `DiffProps.TypeChangeIsRemoveThenAdd` | tree-diff.c:106-114 | a tie whose directory bits differ returns 0 and reports exactly the removal events of the old entry and then the addition events of the new one, with no change event; each side is signed and lies below its path, and a file side is one event |
| `DiffProps.TiedDirectoriesRecurse` | tree-diff.c:116-128 | two tied directories not skipped as identical return 0; when `should_recurse` accepts the path they give the optional TREE_IN_RECURSIVE change event followed by the nested diff of their subtrees below `path/`, and otherwise exactly one change event |
| `DiffProps.TypeChangeNeedsSlashName` | tree-diff.c:94-114 | with names free of `'/'`, that branch is never reached |
| `DiffProps.MatchedFilesChange` | tree-diff.c:116-125 | two tied files that differ, or any two under FIND_COPIES_HARDER, give exactly one change event carrying both modes and both ids |
| `DiffProps.WalkEmptyOldAllAdded` | tree-diff.c:221-227 | against an exhausted old cursor, every event is an addition below the base |
| `DiffProps.WalkEmptyNewAllRemoved` | tree-diff.c:228-232 | against an exhausted new cursor, every event is a removal below the base |
| `DiffProps.WalkEmptyOldShowsAll` | tree-diff.c:364-380 | without pathspec or early quit, the root diff is the whole-subtree emission of every new entry, in order |
| `DiffProps.WalkEmptyNewShowsAll` | tree-diff.c:228-232 | without pathspec or early quit, a diff against an empty new tree is the whole-subtree emission of every old entry, in order |
| `DiffProps.AllInterestingShowsRest` | tree-diff.c:136-146 | once `all_entries_interesting` is seen, `show_tree` reports every remaining entry |
| `DiffProps.AllNotInterestingStopsTree` | tree-diff.c:137-141 | an entry that is `all_entries_not_interesting` ends `show_tree` |
| `DiffProps.TreeEventsSilentWhenSkipEmpties` | tree-diff.c:132-147 | from a position where `skip_uninteresting` would empty the cursor, `show_tree` (still asking the interest predicate) reports nothing |
| `DiffExamples.MergeWalkExample` | tree-diff.c:214-245 | `{a: f1, b: f2}` against `{a: f1, c: f3}` yields exactly `-b` then `+c` |
| `DiffExamples.WholeSubtreeExample` | tree-diff.c:150-182 | the empty tree against `{dir: {a, b}}` yields `+dir/a`, `+dir/b` with recursion, and `+dir` without |
| `RenameFollow.FirstFollowSource` | tree-diff.c:290-299 | finds the first `R`/`C` pair whose new path is the followed path, or reports that none exists |
| `RenameFollow.MightBeRename` | tree-diff.c:256-260 | true iff the queue is exactly one pair whose old side is not a valid file |
| `RenameFollow.FollowChoice` | tree-diff.c:288-335 | a source is found iff the re-scored queue holds an `R`/`C` pair whose new path is the followed path; the kept pair is then the first such pair, and otherwise the original creation pair |
| `RenameFollow.FollowRecursesEverywhere` | tree-diff.c:274-284 | the rerun (recursive, no depth limit) expands every directory it meets |
| `RenameFollow.FollowNeverPrunes` | tree-diff.c:274-284 | with no pathspec and no early quit, every `diff_tree` loop pass of the rerun starts where the previous one ended: nothing is pruned |
| `RenameFollow.FollowShowsWholeTree` | tree-diff.c:274-284 | in the rerun a wholly added or removed tree is reported entry by entry, every entry below it included |
| `RenameFollow.FollowReportsUnchangedFiles` | tree-diff.c:276 | under FIND_COPIES_HARDER every pair of tied files, unchanged ones included, gives exactly one change event |
| `TreeDiff.Differ.ShowEntry` | tree-diff.c:150-182 | reports exactly `EntryEvents`; `base` is restored |
| `TreeDiff.Differ.ShowTree` | tree-diff.c:132-147 | reports exactly `TreeEvents`; `base` is restored |
| `TreeDiff.Differ.SkipUninteresting` | tree-diff.c:184-197 | the cursor ends where `Skip` says |
| `TreeDiff.Differ.CompareTreeEntry` | tree-diff.c:80-129 | reports the events and returns the result of `Compare`; `base` is restored |
| `TreeDiff.Differ.AdvanceCursors` | tree-diff.c:221-244 | stops iff both cursors are empty, reporting nothing. An exhausted old cursor reports the new entry as added and advances only the new cursor; an exhausted new cursor reports the old entry as removed and advances only the old one. Otherwise it reports `Compare`'s events and advances the old cursor on -1, both on 0 and the new one on 1. The rest of the walk from the new positions is the rest of `Step` |
| `TreeDiff.Differ.DiffTree` | tree-diff.c:199-249 | reports exactly `Walk` from the two starts; `base` is restored |
| `TreeDiff.Differ.TryToFollowRenames` | tree-diff.c:262-336 | for a pathspec of one path: leaves exactly one pair queued, the `FollowChoice` over the rerun's re-scored pairs; sets `found_follow`; rebinds the followed path to the source's old path when one is found, and otherwise leaves the options alone |
| `TreeDiff.Differ.DiffTreeSha1` | tree-diff.c:338-362 | fails (the `die`) iff a root tree is missing, and then changes nothing. Otherwise it reports `Walk` on the two roots. It runs the post-pass exactly when the base is empty, FOLLOW_RENAMES is set and the queue is one pair with an invalid old side; otherwise the queue gains the run's pairs and the options are unchanged. When FIND_COPIES_HARDER is off, identical roots report nothing |
| `TreeDiff.Differ.DiffRootTreeSha1` | tree-diff.c:364-380 | fails iff the root is missing; otherwise it diffs the empty tree against it, and every event is an addition |

## Left out

- Object-store reads and tree decoding (`read_sha1_file`, `read_object_with_reference`, `init_tree_desc`, `tree_entry_extract`, `update_tree_entry`) are left out. A directory entry carries its decoded subtree, and the two roots come from a map from ids to trees. The "corrupt tree" `die` in `show_entry` (tree-diff.c:166-168) therefore cannot occur. The same holds for the reads of the nested `diff_tree_sha1` in `compare_tree_entry` (tree-diff.c:123). That nested call is modelled as `DiffTree` on the two subtrees: its base is never empty, so it never runs the post-pass.
- Peeling a commit to its tree in `read_object_with_reference` is not modelled; the store maps ids straight to trees.
- `tree_entry_interesting` is an oracle `interest(entry, base, pathspec)`, so wildcard and pathspec matching are not modelled. The fields `pathspec.recursive` and `pathspec.max_depth` that `diff_tree` sets (tree-diff.c:208-209) are read only by that matcher, so they are left out too.
- The oracle is not constrained when the pathspec is empty, where `tree_entry_interesting` answers `all_entries_interesting`. The rename-follow rerun's options fix it to answer `all_entries_interesting`; in the main run it stays free.
- `TryToFollowRenames` and `DiffTreeSha1` require a pathspec of exactly one path when FOLLOW_RENAMES is set. The code reads `pathspec.raw[0]` without a check, so FOLLOW_RENAMES with no path is excluded by that precondition, and so are further paths, which the code ignores.
- `diff_can_quit_early` is an oracle on the events reported so far.
- The callbacks' queueing and `diffcore_std` are oracles (`enqueue`, `diffcore`). `diff_setup` and `diff_setup_done` are not modelled as calls: `FollowOptions` is the record they leave for the rerun. `single_follow`, `break_opt` and `rename_score` feed only diffcore and are not part of that record. The drivers add the queued pairs of a run's events after the walk, in event order.
- `init_pathspec`, `free_pathspec`, `diff_tree_setup_paths` and `diff_tree_release_paths` are not modelled. The pathspec is its list of paths, and rebinding replaces its first path. `diff_tree_setup_paths` re-initialises the whole pathspec, `has_wildcard` included; the model keeps `hasWildcard` as it was, so that `DepthConfigOk` still holds after the rebind is a choice of the model, not something the code guarantees.
- Memory management (`strbuf_init`, `strbuf_release`, `free`, `xstrdup`, `diff_free_filepair`) and `output_format` are left out. The swap `queue[i] = choice` only hands the creation pair to the pairs about to be freed, so only its effect on the kept pair is modelled; the frees are not.
- The `die("BUG: ...")` on wildcard with max-depth (tree-diff.c:74-75) becomes the precondition `DepthConfigOk`. The `die` on a comparison result outside -1, 0, 1 (tree-diff.c:244) is proved unreachable by `Compare`'s contract.
- The body of the `diff_tree` loop after pruning is a method of its own, `AdvanceCursors`, which the loop calls once per pass.
- `SkipUninteresting` does not return the `match` out-parameter. `diff_tree` writes `t1_match` and `t2_match` but never reads them.
- Names are `seq<char>` compared by code point, standing for byte strings without NUL. `BaseNameCompare` keeps only the sign of `memcmp`, because the engine uses only the sign.
- `DiffTreeSha1` returns whether it completed, in place of the constant 0 it returns in C.
- The claim that events appear in global path order is not proved. Only the comparator's order properties, and the order within the examples, are.

Behaviour of the code that the model keeps as written:

- With `max_depth = 1` and no pathspec, the top-level directory `x` is expanded and the entry `x/y` below it is reported as one opaque change, not expanded.
- Under `base_name_compare`, directory `a` ties with the name `a/b`; it does not sort before it. With names free of `'/'`, the type-change branch of `compare_tree_entry` is never reached: a file and a directory of the same name compare unequal. They are then reported as a removal and an addition through the ordinary unequal branches.
- The early quit is polled once per loop pass of every `diff_tree`, the nested ones included, not only at the top level. A single pass can still report a whole subtree.
