# gitflow-rs: branch relationships and cascading merges, in Dafny

This project models the core of gitflow-rs, a command-line helper for stacked
branches in git. gitflow-rs works out how the local branches relate to each
other, prints that hierarchy, and "cascades" changes by merging every parent
branch into its children. The model covers:

- **Relationship detection** (`Branch`, `History`, `CreationTime`,
  `DefaultRoot`, `Commits`, `Repo`, `TimeSort`, `BranchTree`). The repository
  is a value: the local branches in enumeration order, the tip of each branch,
  HEAD, and a commit graph with timestamps and merge bases. The class
  `Repo.Repository` holds that state, and `create_new_branch` and
  `checkout_branch` update it in place.
  - There are four strategies for building the parent-to-children tree:
    commit history, creation time, default root and manual. Commit history
    and creation time are loops that fill the tree in place, as in the source.
  - Also modelled: the ancestry tests `is_descendant_of` (a worklist walk),
    `is_direct_parent_child` and `are_branches_related`, root finding, parent
    lookup, and branch creation and checkout.
- **The `cascade` command** (`Cascade`):
  - choosing the strategy, and the interactive fallback to other strategies
    when the tree comes out empty;
  - the confirmation prompt;
  - the depth-first `merge_recursive` with its `processed` set. `merge_branch`
    is an oracle: its answer only decides whether a warning is logged.
- **The configuration** (`Settings.Config`): a class whose setters update
  the fields and then save. The manual-relationship edits are the map
  operations of `BranchTree`.
- **The `config` command** (`ConfigCommand`): the `parent:child` argument
  parser, and the order in which the requested updates reach the
  configuration.
- **Smaller pieces:**
  - `parse_github_url` (`Remote`);
  - the three-character status code and the status-list predicates (`Status`);
  - the yes/no decision and the hierarchy printout as a list of lines
    (`Display`);
  - the command-line strategy enum (`Cli`).

The string operations these pieces rely on are in `Text`: Rust's `trim`,
`split`, `trim_start_matches`, `trim_end_matches` and `to_lowercase`. Errors
use the `Result` and `Option` types of `Errors`.

The documentation comment of `is_direct_parent_child`
(src/git/branch.rs:287-296) says it returns true for a direct relationship;
the history builder records an edge when it returns false, and the model
follows the code (see Findings). The builder examines every ordered pair of
branches (src/git/branch.rs:176-192).

## Model

| member | source | states |
|---|---|---|
| Cli.ConversionIsBijection | src/cli.rs:108-117 | the command-line to internal strategy conversion has a two-sided inverse, so each internal strategy comes from exactly one command-line value |
| Text.Trim | src/commands/config.rs:61-62 | `str::trim`: the result has no white space at either end and is no longer than the input |
| Text.TrimPadded | src/commands/config.rs:61-62 | trimming a name padded with white space on both sides gives back the name |
| Text.TrimIsInfix | src/commands/config.rs:61-62 | the trimmed text is a contiguous part of the input |
| Text.Split | src/commands/config.rs:54 | `str::split` on a character: at least one part, none holding the separator |
| Text.SplitJoin | src/commands/config.rs:54 | joining the parts with the separator gives back the input |
| Text.SplitCount | src/commands/config.rs:54 | there is one part more than there are separators |
| Text.TrimStartMatches | src/git/remote.rs:26 | `str::trim_start_matches`: a suffix of the input that no longer starts with the pattern |
| Text.TrimStartMatchesStep | src/git/remote.rs:26 | removing one leading copy of the pattern does not change the result |
| Text.TrimStartMatchesRepeat | src/git/remote.rs:26 | any number of leading copies of the pattern are all removed, and nothing after them |
| Text.TrimEndMatches | src/git/remote.rs:30 | `str::trim_end_matches`: a prefix of the input that no longer ends with the pattern |
| Text.ToLower | src/utils/display.rs:33 | `str::to_lowercase` on the characters modelled: same length, each character lowered |
| BranchTree.AddChild | src/configuration/settings.rs:197-204 | the child goes at the end of the parent's list, which is created if absent; duplicates are kept; every other key is unchanged |
| BranchTree.Without | src/configuration/settings.rs:223 | the removed name no longer occurs; every other name keeps its count; the rest keep their order |
| BranchTree.RemoveChild | src/configuration/settings.rs:221-227 | an absent parent leaves the map unchanged; otherwise the child is gone from the list and an emptied list loses its key; other keys are unchanged |
| BranchTree.AddThenRemove | src/configuration/settings.rs:197-230 | removing a relationship just added restores the map, when the child was not already listed and no list was empty |
| BranchTree.EditsKeepListsNonEmpty | src/configuration/settings.rs:222-226 | adding and removing keep the invariant that no key maps to an empty list |
| BranchTree.EdgesToTreeGroups | src/git/branch.rs:187-189 | pushing edges one by one with `entry().or_insert_with().push` groups them by parent: the keys are the parents with an edge, and each list holds the children in edge order |
| BranchTree.EdgesToTreeMembership | src/git/branch.rs:187-189 | a child is listed under a parent exactly when that edge was pushed |
| BranchTree.KeysNotIn | src/git/branch.rs:462-469 | the keys kept are exactly those outside the excluded set, in their original order and without repeats when the keys had none |
| BranchTree.FindRootBranches | src/git/branch.rs:462-469 | the roots are exactly the keys that occur in no child list; none is repeated, and they come in key enumeration order |
| BranchTree.KeyOrder | src/git/branch.rs:464-465 | the keys of a map, each exactly once, in an order left open |
| Settings.Config.Default | src/configuration/settings.rs:58-67 | the configuration created when no file exists: no pull requests, base "main", no relationships, strategy CommitHistory, and saved |
| Settings.Config.Loaded | src/configuration/settings.rs:70-73 | a configuration read back from the file holds the file's content |
| Settings.Config.Save | src/configuration/settings.rs:86-98 | after saving, the file holds the in-memory configuration, which is unchanged |
| Settings.Config.AddPr | src/configuration/settings.rs:115-119 | inserts or overwrites the pull request of the branch; `get_pr` then returns it; other branches and fields are unchanged; saved |
| Settings.Config.GetPr | src/configuration/settings.rs:135-137 | returns the stored entry exactly when the branch has one |
| Settings.Config.SetDefaultBaseBranch | src/configuration/settings.rs:153-157 | replaces the default base branch and nothing else, then saves |
| Settings.Config.SetBranchDetectionStrategy | src/configuration/settings.rs:173-180 | replaces the strategy and nothing else, then saves |
| Settings.Config.AddBranchRelationship | src/configuration/settings.rs:197-204 | the relationships become `AddChild` of the old ones; nothing else changes; saved |
| Settings.Config.RemoveBranchRelationship | src/configuration/settings.rs:221-230 | the relationships become `RemoveChild` of the old ones; nothing else changes; saved |
| Commits.ClosedExcludes | src/git/branch.rs:342-348 | a commit outside a parent-closed set that holds the start is never reached; this is why the walk may answer false once it is exhausted |
| Commits.PushParents | src/git/branch.rs:338-347 | one step of the revision walk: every parent of the visited commit is seen, the unseen ones are queued, and each newly seen commit is reachable from the start |
| Commits.Visit | src/git/branch.rs:342-347 | visiting a queued commit keeps the walk's invariant (everything queued or done is reachable; everything done has its parents seen) and shrinks the unseen set |
| Commits.IsDescendantOf | src/git/branch.rs:329-349 | true exactly when the commits differ and the ancestor is reachable from the commit along parent links |
| TimeSort.SortByTime | src/git/branch.rs:221 | the sort is a permutation of its input |
| TimeSort.SortByTimeSorted | src/git/branch.rs:220-221 | the result is ascending by time |
| TimeSort.SortByTimeStable | src/git/branch.rs:221 | the sort is stable: entries with equal times keep their order |
| Repo.Utf8Names | src/git/branch.rs:164-173 | when every name is valid UTF-8, the names in enumeration order, one per branch |
| Repo.Utf8NamesOfValid | src/git/branch.rs:160-173 | in a well-formed repository those names are distinct and are exactly the branches with a tip |
| Repo.IsDirectParentChild | src/git/branch.rs:297-318 | true exactly when no other listed branch descends from the parent while the child descends from it |
| Repo.AreBranchesRelated | src/git/branch.rs:360-374 | true exactly when one tip descends from the other or the two tips have a merge base |
| History.CollectNames | src/git/branch.rs:160-173 | the first pass yields every branch name, or fails with "Invalid UTF-8 in branch name" if any name is not valid UTF-8 |
| History.RecordedChildren | src/git/branch.rs:178-191 | the children recorded under a parent are exactly the names, among those examined, that pass the edge test |
| History.PushStep | src/git/branch.rs:184-190 | examining one more candidate pushes it exactly when it passes the edge test |
| History.PushChildren | src/git/branch.rs:176-191 | one round of the outer loop appends, in enumeration order, the edges from that parent to every recorded child |
| History.PushAllChildren | src/git/branch.rs:176-192 | the second pass builds the tree of all recorded edges, parents in enumeration order |
| History.GetBranchTreeByHistory | src/git/branch.rs:158-196 | the method returns the commit-history tree of the repository |
| History.TreeShape | src/git/branch.rs:176-192 | a branch is a key exactly when some child is recorded under it, and its list is its recorded children in enumeration order |
| History.BuildTreeEdge | src/git/branch.rs:176-192 | read back from the tree, a child is listed under a parent exactly when the edge test passes |
| History.HistoryTreeEdges | src/git/branch.rs:176-192 | as written, c is listed under p exactly when p ≠ c, c's tip strictly descends from p's tip, and some third branch lies between them; no branch is its own child |
| History.IntendedHistoryTreeEdges | src/git/branch.rs:287-296 | with the documented test, c is listed under p exactly when c's tip strictly descends from p's tip and no third branch lies between them |
| HistoryExamples.ChainBuildTree | src/git/branch.rs:176-192 | for the chain main <- a <- b, the builder gives {main: [b]} as written and {main: [a], a: [b]} with the documented test |
| HistoryExamples.ChainAsWritten | src/git/branch.rs:184-185 | the chain main <- a <- b yields {main: [b]} |
| HistoryExamples.ChainIntended | src/git/branch.rs:287-296 | with the documented test, the same chain yields {main: [a], a: [b]} |
| HistoryExamples.SiblingsBuildTree | src/git/branch.rs:176-192 | for two branches each started from main, the builder gives {} as written and {main: [a, b]} with the documented test |
| HistoryExamples.SiblingsAsWritten | src/git/branch.rs:184-185 | two branches each started from main give an empty tree |
| HistoryExamples.SiblingsIntended | src/git/branch.rs:287-296 | with the documented test, both branches are children of main, in enumeration order |
| CreationTime.TimesOfEntries | src/git/branch.rs:211-218 | each dated entry carries its branch's tip time; branches that do not resolve are skipped; every branch that resolves is dated |
| CreationTime.CollectTimes | src/git/branch.rs:207-218 | the first pass yields the dated branches in enumeration order; a name that is not valid UTF-8 becomes "" and is skipped |
| CreationTime.ParentIndexNearest | src/git/branch.rs:229-239 | the backward scan stops at the nearest older entry that is related and less than 30 days older, and finds none only when no older entry qualifies |
| CreationTime.Qualifies | src/git/branch.rs:232-233 | the inner test is the 30-day window followed by the relatedness test |
| CreationTime.AttachStep | src/git/branch.rs:229-240 | handling one more child adds at most its one edge, at the end |
| CreationTime.AttachToParent | src/git/branch.rs:229-240 | the inner loop for a child adds exactly the edge its scan finds, if any |
| CreationTime.GetBranchTreeByCreationTime | src/git/branch.rs:205-246 | the method returns the creation-time tree and never fails |
| CreationTime.BranchTimesDistinct | src/git/branch.rs:210-221 | in a well-formed repository each branch is dated once, also after sorting |
| CreationTime.CreationTimeTreeEdge | src/git/branch.rs:224-242 | read back from the tree, c is listed under p exactly when the scan for c stops at p |
| CreationTime.CreationTimeParent | src/git/branch.rs:226-239 | a recorded parent is a branch related to its child, no newer, and less than 2,592,000 seconds older |
| CreationTime.CreationTimeUniqueParent | src/git/branch.rs:226-241 | every branch has at most one parent, and never itself |
| CreationTime.CreationTimeOldestIsRoot | src/git/branch.rs:225-226 | the oldest dated branch is nobody's child |
| DefaultRoot.AllNames | src/git/branch.rs:270-275 | the names in enumeration order; a name that is not valid UTF-8 becomes "" |
| DefaultRoot.GetBranchTreeWithDefaultRoot | src/git/branch.rs:256-285 | the method returns the default-root tree and never fails |
| DefaultRoot.DefaultRootKeys | src/git/branch.rs:263-281 | the default branch is the only possible key; it is a key exactly when it exists and some other name is listed |
| DefaultRoot.DefaultRootChildren | src/git/branch.rs:268-281 | its list holds every other listed name, as often as it is listed and in enumeration order, and never the default branch itself |
| DefaultRoot.DefaultRootCoversBranches | src/git/branch.rs:256-285 | in a well-formed repository every other branch is a child of the default branch, which is nobody's child |
| Branch.CurrentBranch | src/git/branch.rs:53-65 | the short name HEAD points at, which is then an existing branch; an unborn HEAD (its branch has no commit yet) fails the HEAD lookup, and a detached HEAD and a name that is not valid UTF-8 give their two Git errors |
| Branch.BranchCommit | src/git/branch.rs:487-493 | the tip commit of an existing branch, else a Git error |
| Branch.CreateNewBranch | src/git/branch.rs:84-117 | the outcome and the repository afterwards are those of `CreateBranch`: an existing name, a failing current-branch lookup, a missing parent (`BranchNotFound`) and an invalid name are checked in that order; the reference is created before the checkout, which may still refuse |
| Branch.CreateBranchEffect | src/git/branch.rs:84-117 | a creation refused by one of the checks changes nothing; once they pass, the new branch exists at the parent's tip and the other branches keep their tips, even when the checkout is refused, in which case the outcome is that error and HEAD stays; the outcome is Ok exactly when the checks pass and the checkout goes ahead, and then the new branch is current |
| Branch.UnbornHeadRefused | src/git/branch.rs:84-100 | in a repository without commits whose HEAD names "main", the current-branch lookup fails, and so does a creation based on it, with nothing changed |
| Branch.CreateBranchKeepsValid | src/git/branch.rs:84-117 | creating a branch keeps the repository well-formed, whether or not the checkout is refused |
| Branch.CheckoutBranch | src/git/branch.rs:445-451 | the outcome and the repository afterwards are those of `Checkout`: a missing branch, then a refused working-tree checkout, are errors |
| Branch.CheckoutEffect | src/git/branch.rs:445-451 | checkout succeeds exactly when the branch exists and the working-tree checkout is not refused, after which the branch is current; a failed checkout changes nothing, and only HEAD ever changes |
| Branch.GetBranchTree | src/git/branch.rs:136-149 | the tree of the chosen strategy; Manual returns the configured relationships as they are |
| Branch.FindParent | src/git/branch.rs:415-419 | returns some key whose list holds the branch, or none exactly when no list holds it |
| Branch.GetParentBranch | src/git/branch.rs:409-427 | a parent from the history tree if it has one, else one from the creation-time tree, else the default base |
| Branch.ParentFromCreationTimeUnique | src/git/branch.rs:420-425 | when the history tree gives no parent, the answer is the same for every map order |
| Display.ConfirmedExactly | src/utils/display.rs:33 | a line confirms exactly when, once trimmed, it is "y" or "Y" |
| Display.ConfirmedPaddedCapital | src/utils/display.rs:33 | " Y\n" confirms |
| Display.NotConfirmedYes | src/utils/display.rs:33 | "yes" does not confirm |
| Display.NotConfirmedAtEnd | src/utils/display.rs:30-33 | the empty line left at end of input does not confirm |
| Display.FormatBranchName | src/utils/display.rs:61-67 | the name behind a two-character marker, "* " for the current branch and two spaces otherwise |
| Display.PrLinkReadsBack | src/utils/display.rs:83-85 | " [PR #" is followed by the decimal number, then "](", the url and a closing ")" |
| Display.CommitSuffix | src/utils/display.rs:131-135 | the suffix is empty exactly when no message is known for the branch |
| Display.PrSuffix | src/utils/display.rs:124-128 | the link is empty exactly when no pull request is known for the branch |
| Display.RenderTree | src/utils/display.rs:112-166 | a subtree starts with its node's line, in pre-order, while levels remain |
| Display.TreeLinesStartWithPrefix | src/utils/display.rs:137-151 | every line of a subtree starts with the prefix it was given; children extend it |
| Display.ListLinesStartWithPrefix | src/utils/display.rs:153-164 | every line of a list of sibling subtrees starts with their shared prefix |
| Display.SelfLoopNeverEnds | src/utils/display.rs:145-165 | a branch listed as its own child prints one more line for every level allowed: the source prints forever |
| Display.SharedChildPrintedTwice | src/utils/display.rs:104-181 | with "c" under both "a" and "b", "c" is printed under each, with the connectors and indentation of its position |
| Cascade.Walk | src/commands/cascade.rs:140-168 | the walk from a branch only ever adds to the processed set, and the branch it starts from ends up processed |
| Cascade.WalkChildren | src/commands/cascade.rs:154-165 | the walk of the remaining children only adds to the processed set |
| Cascade.WalkAll | src/commands/cascade.rs:109-115 | the walk of the roots only adds to the processed set |
| Cascade.FailedExactly | src/commands/cascade.rs:157-162 | the warnings are exactly the attempted merges the oracle refused |
| Cascade.WalkExpandsOnce | src/commands/cascade.rs:146-164 | a walk merges from exactly the branches it newly marks, each once, into every child in list order |
| Cascade.WalkAllExpandsOnce | src/commands/cascade.rs:109-115 | across all roots, each branch is merged from at most once, into its whole child list |
| Cascade.MergesFollowEdges | src/commands/cascade.rs:154-157 | every attempted merge follows an edge of the tree |
| Cascade.WalkReaches | src/commands/cascade.rs:146-165 | every branch a walk marks is reachable from where the walk began |
| Cascade.WalkAllReaches | src/commands/cascade.rs:109-115 | only branches reachable from a root are expanded |
| Cascade.WalkCloses | src/commands/cascade.rs:146-165 | every branch a walk newly marks has all its children marked too |
| Cascade.WalkAllCloses | src/commands/cascade.rs:109-115 | after the walk of the roots, every root is processed and every child of a processed branch is processed |
| Cascade.WalkAllCovers | src/commands/cascade.rs:109-165 | every branch at the end of a path of edges from a root is processed |
| Cascade.ProcessedIffReachable | src/commands/cascade.rs:109-165 | a branch is processed by the walk of the roots exactly when it is reachable from a root |
| Cascade.ReachableMergedOnce | src/commands/cascade.rs:109-165 | every branch reachable from a root is merged from exactly once, into its whole child list in order; an unreachable branch is never merged from |
| Cascade.NoRootNoMerges | src/commands/cascade.rs:109-115 | when every key is also someone's child there are no roots and no merges |
| Cascade.MergeRecursive | src/commands/cascade.rs:140-168 | always Ok, whatever the merges answer; its processed set and merges are those of `Walk`, and the warnings those of the refused merges; it terminates on cyclic trees |
| Cascade.MergeChildren | src/commands/cascade.rs:154-165 | the loop over the children performs the walk of each child in list order, merging into it first |
| Cascade.MergeRoots | src/commands/cascade.rs:109-115 | the roots are walked one after the other, sharing the processed set |
| Cascade.Ask | src/utils/display.rs:26-34 | one prompt takes the next decision; at end of input the answer is no |
| Cascade.AlternativeTrees | src/commands/cascade.rs:60-64 | the trees of CreationTime, DefaultRoot and Manual, in that order |
| Cascade.FallbackStopsAtFirstFound | src/commands/cascade.rs:66-88 | with every answer yes, the loop stops at the first alternative not equal to the strategy last used whose tree is non-empty, and that strategy is saved; the later alternatives are not tried |
| Cascade.AllDeclinedTriesNothing | src/commands/cascade.rs:66-88 | when every answer declines, no alternative is tried and nothing is saved |
| Cascade.FoundTreeOfItsStrategy | src/commands/cascade.rs:75-87 | a non-empty tree out of the loop is the tree of the alternative reported as the strategy |
| Cascade.ConfiguredStrategyOfferedAgain | src/commands/cascade.rs:67 | the skip compares with the strategy last tried: with DefaultRoot configured and every tree empty, DefaultRoot is offered again once CreationTime was accepted |
| Cascade.TryAlternatives | src/commands/cascade.rs:56-88 | the fallback loop gives the outcome of `Fallback`; the configuration changes only by saving the found strategy when asked |
| Cascade.TryAlternative | src/commands/cascade.rs:66-88 | one round of the loop: skipped, declined, failed, found, or an empty tree that moves the loop on |
| Cascade.HandleCascade | src/commands/cascade.rs:37-119 | strategy from the command line, else the configuration, with the fallback only when the tree is empty and no strategy was given; an empty tree ends Ok with no merge; declining the final prompt without `--yes` gives `Aborted` with no merge; otherwise Ok, with the merges of the walk from the roots and a warning per refused merge |
| ConfigCommand.ParseAcceptsOneColon | src/commands/config.rs:54-62 | an argument is accepted exactly when it holds one ':'; otherwise the format error; both halves come back trimmed and free of ':' |
| ConfigCommand.ParsePadded | src/commands/config.rs:54-62 | "p:c" with white space around either name parses back to (p, c) |
| ConfigCommand.ParseRejectsExamples | src/commands/config.rs:54-59 | "a:b:c" and "ab" are refused with the format error |
| ConfigCommand.HandleConfig | src/commands/config.rs:33-124 | the outcome and the configuration are those of `ApplyConfig`: base, then strategy, then add, then remove, stopping at the first error with the earlier updates saved; with no option the configuration is untouched |
| ConfigCommand.NoOptionsNoChange | src/commands/config.rs:96-121 | with no option the configuration is left as it was |
| ConfigCommand.AddErrorKeepsEarlierUpdates | src/commands/config.rs:42-59 | a malformed add fails after the base and the strategy were stored, with the relationships unchanged |
| ConfigCommand.EmptyNamesOnlyRefusedByAdd | src/commands/config.rs:64-89 | any relationship that parses with an empty parent or an empty child is refused by add with the emptiness error and the configuration unchanged, but accepted by remove, which does not test for emptiness and removes the pair |
| ConfigCommand.EmptyParentExample | src/commands/config.rs:64-89 | ":b" is refused by add and accepted by remove |
| ConfigCommand.AddThenRemoveSameRestores | src/commands/config.rs:52-94 | adding and removing the same new relationship in one command leaves the relationships as they were |
| Remote.HttpsOwnerRepo | src/git/remote.rs:36-48 | success exactly when there are at least two path segments; then the owner is the first segment and the repository a prefix of the second that no longer ends in ".git"; a parse error is passed on as a URL error, a URL that cannot be a base gives "Invalid GitHub URL", fewer than two segments gives "Could not parse GitHub URL: " and the URL |
| Remote.ParseGithubUrl | src/git/remote.rs:21-54 | a success implies the URL mentions "github.com" and the repository name does not end in ".git" |
| Remote.SshParts | src/git/remote.rs:25-32 | `git@github.com:<owner>/<repo>` gives the owner and `repo` with every trailing ".git" stripped |
| Remote.SshExtraSegmentsIgnored | src/git/remote.rs:25-32 | `git@github.com:<owner>/<repo>/<extra>` gives the owner and `repo` with every trailing ".git" stripped; the segments after the second are ignored |
| Remote.SshRoundTrip | src/git/remote.rs:25-32 | `git@github.com:<owner>/<repo>.git` gives back the owner and the repository name |
| Remote.RepeatedSuffixStripped | src/git/remote.rs:30 | "<repo>.git.git" gives "<repo>" |
| Remote.ForeignHostRefused | src/git/remote.rs:50-53 | a URL without "github.com" is refused with "Could not parse GitHub URL: " and the URL |
| Remote.ShortSshFallsThrough | src/git/remote.rs:25-36 | an SSH URL without a '/' falls through to the URL parser |
| Remote.HttpsForm | src/git/remote.rs:36-53 | a URL outside the SSH form that mentions the host is read through the parser: with two or more segments the result is the first segment and the second with every trailing ".git" stripped, segments past the second ignored; otherwise the parse error, "Invalid GitHub URL", or "Could not parse GitHub URL: " and the URL |
| Status.BuildStatusCode | src/git/status.rs:57-92 | the three pushes build the code of `StatusCode` |
| Status.StatusCodeByTable | src/git/status.rs:58-92 | the code has three characters: the letter of the first index flag set (A, M, D, R, T), that of the first worktree flag set (?, M, D, R, T), and 'C' exactly when conflicted |
| Status.BlankColumns | src/git/status.rs:70-86 | a column is blank exactly when none of its flags is set |
| Status.ShownAsBuilt | src/git/status.rs:94-101 | the text shown is always the code built: the trimmed code never selects the "??" arm |
| Status.NoQuestionPair | src/git/status.rs:94-98 | a code with no '?' in its first or third column never trims to a key of the "??" arm |
| Status.UntrackedShownPlain | src/git/status.rs:94-101 | a file that is only untracked is shown as " ? " without colour |
| Status.IntendedStatusEntry | src/git/status.rs:98 | the corrected display: a code that trims to "?" is shown as "??" in blue; every other code as before |
| Status.UntrackedShownAsQuestionMarks | src/git/status.rs:98 | with the correction, an untracked-only file is shown as "??" in blue |
| Status.HasConflicts | src/git/status.rs:110-120 | true exactly when some entry is conflicted |
| Status.HasUncommittedChanges | src/git/status.rs:105-107 | true exactly when the list has an entry, untracked files included |
| Status.ConflictsAreChanges | src/git/status.rs:104-120 | a conflicted entry is an uncommitted change |

## Left out

- libgit2 itself is not modelled: the repository is a value, and errors from corrupt repositories or failed reference enumeration are not. Well-formedness (closed commit graph, distinct names, "" not a branch) is a precondition of the builders.
- Branch.BranchCommit: `revparse_single` also resolves tags, abbreviated ids and other revision syntax; the model resolves a name only as a local branch.
- History.GetBranchTreeByHistory, CreationTime.GetBranchTreeByCreationTime, Repo.IsDirectParentChild, Repo.AreBranchesRelated: these resolve branch names with `revparse_single` too (src/git/branch.rs:177, 182, 303-304, 309, 361-362, 388), so a tag or other revision that shadows a branch name changes their answers; the model resolves every name through the branch tips only.
- Branch.CreateNewBranch: the reference-name rules are a subset of git's; the working tree is not modelled, and whether `checkout_tree` refuses (local changes in the way) is the parameter `refusal`, with the message it gives; the new branch is listed last.
- Branch.CheckoutBranch: only HEAD moves; the working tree and the index are not modelled, and whether `checkout_tree` refuses is the parameter `refusal`.
- Branch.GetParentBranch: when several keys list the branch, `HashMap` order decides which is returned; the model returns any of them.
- BranchTree.KeyOrder: `HashMap` iteration order is left open. Cascade roots come in that order.
- Commits.IsDescendantOf: the walk's TIME sorting is not modelled. It affects only the visiting order, not the answer.
- CreationTime.Qualifies: the `i64` subtraction of commit times is unbounded here; overflow, possible only for times near the `i64` limits, is not modelled.
- Cascade.MergeRecursive: `merge_branch` (src/git/merge.rs) is an oracle returning success or failure; the repository effects of a merge are not modelled. Warnings are returned as the list of refused edges, not logged.
- Cascade.HandleCascade: the configuration is passed in already loaded. The source reloads it from disk before saving a found strategy; the model saves into the same object, which holds the same content. Each answer is the decision `Display.Confirmed` takes from a typed line. An I/O error while reading a prompt is not modelled.
- Settings.Config.Save: the file is the ghost field `saved`. `get_config_path`, JSON serialisation and file-system errors are not modelled, so the setters always succeed.
- ConfigCommand.HandleConfig: the `info!` output, including the listing printed when no option is given, is not modelled.
- Display.RenderTree: a depth bound stops the recursion, because the source does not terminate on a cyclic tree; colours are not modelled.
- Text.ToLower: only the ASCII letters are lowered; Unicode case mapping is not modelled. No other character lowercases to "y", so the yes/no decision is unaffected.
- Display.Confirmed: printing the question and flushing stdout are not modelled; the decision is taken from the line read.
- Remote.ParseGithubUrl: the `url` crate's parser is a parameter, `ParsedUrl`: an error, a URL that cannot be a base, or its path segments.
- Status: `get_repo_status` (reading statuses from the repository) is not modelled; the entries are given. Colours are tags, not terminal escapes.
- `push_branch`, `setup_push_options` and `get_repo_info` in src/git/remote.rs are git transport and credential plumbing and are not modelled.
- src/git/merge.rs, src/git/commit.rs, src/github/api.rs, src/commands/sync.rs, src/commands/show.rs, src/commands/create.rs, src/main.rs and src/utils/logger.rs are not part of this model: they are git, network and console glue around the core.
- Logging (`info!`, `debug!`, `warn!`) is not modelled.
- Repo.AreBranchesRelated: merge bases are a given relation (`Commits.CommitGraph.mergeBases`), not derived from the graph; git's `merge_base` succeeds exactly when the two commits share an ancestor, always for a commit and itself, which the model does not impose. The descent test is strict, so two branches on one commit are related only when the relation lists the pair.

## Findings

| source | as written | input that shows it | evidently intended | confidence | as-written member | corrected member |
|---|---|---|---|---|---|---|
| src/git/branch.rs:184-185 | an edge parent→child is recorded when `is_direct_parent_child` answers false, that is only when a third branch lies between them | chain main <- a <- b gives {main: [b]}; two branches each started from main give {} | record the edge when no branch lies between, as the documentation of `is_direct_parent_child` (src/git/branch.rs:287-296) says: {main: [a], a: [b]} and {main: [a, b]} | not executed | HistoryExamples.ChainAsWritten | History.IntendedHistoryTreeEdges |
| src/git/status.rs:94-101 | the arm that shows "??" in blue matches the trimmed code against "??", "? " and " ?", but the code never has '?' outside its middle column and trimming removes the padding | a file that is only untracked: code " ? " trims to "?" and is shown as " ? " without colour | show untracked files as "??" in blue | not executed | Status.UntrackedShownPlain | Status.UntrackedShownAsQuestionMarks |

The model keeps both behaviours as written in the operations built on them: `Branch.GetBranchTree`, `Cascade.HandleCascade` and `Branch.GetParentBranch` use the history tree as the code computes it, and `Status.FormatStatusEntry` is the display as the code computes it. The corrected definitions, `History.IntendedHistoryTree` and `Status.IntendedStatusEntry`, sit beside them with their properties proved.
