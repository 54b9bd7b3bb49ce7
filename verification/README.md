# Verified models of the OVC version control system

Dafny models of the parts of OVC whose correctness takes more than one function to see, with proofs of what they promise. Every model takes the branches, constants and error cases of the Rust code it stands for. Loops over mutable state are methods with loops, objects that update their fields are classes, concurrent protocols are state machines over their atomic steps; each is tied to specification functions and predicates about which the main results are proved.

| files | part of the system |
|---|---|
| `Lines`, `EditScript`, `EditDistance`, `Myers`, `Diff`, `Hunks` | the line diff and the hunks made from it |
| `Glob` | ignore patterns |
| `Arithmetic`, `Chunker` | content-defined chunking |
| `Backend` | the store with generations |
| `Sync`, `SyncInvariant`, `SyncRuns`, `SyncVisibility`, `SyncStatus` | push, pull and status over the store: steps, what they keep, undisturbed runs, what others see, what status says |
| `Levels`, `Matrix`, `Trigger` | action scheduling |
| `Blame` | line attribution, on top of the diff |
| `RateLimit`, `RepoLocks` | server state with eviction |
| `Reachability`, `Gc`, `Bisect` | object graph: garbage collection and bisect |
| `Bytes`, `Wrappers`, `Slices` | shared vocabulary and facts about sequences |

`dafny verify dfyconfig.toml` checks everything.

## Main results

- **Diff.** For all texts the result is a script. Within 50,000 lines it is shortest among all scripts, so it costs old + new minus twice a longest common subsequence. The proof follows Myers: each round leaves the furthest point of every diagonal in the frontier array, points beyond the grid included; the search can only stop at the end of both sequences; and the backward walk repeats the forward choices from the saved frontiers.
- **Hunks.** Applied by a strict patch program, which checks starts, counts, context and deleted lines, they give the new text. With context this holds always, without it exactly when every hunk is anchored. Each hunk shows its group of changes with its full context.
- **Glob.** The two-pointer loop decides the recursive meaning of `*` and `?`, although it only ever returns to the last star. Patterns without stars match byte by byte, rules without wildcards name a path and everything below it or a component.
- **Chunks.** A chunk ends at the first byte whose weighted window sum is divisible by a power of two that the average size prescribes. So cuts depend on a bounded window, boundaries forget the past, edits are local, and a file that pull accepts by size it accepts by number of chunks.
- **Sync.** In every interleaving of any number of sessions on any number of files and repositories, with failures, lost requests, lost replies and edits in between, the remote is complete, pulls deliver exactly what they fetched the manifest of, and only an accepted swap is visible. When a failed push has published its file, and which answer `status` gives, is characterised exactly; after an undisturbed push it is `InSync`.
- **Actions.** Sorting succeeds if and only if there is no cycle; levels are longest chains; each action is dealt with once and given, key by key, the final outputs of its dependencies; and the order inside a level makes no difference to what any action is given or reports.
- **Blame.** Each line carries a trail of pairings by the successive diffs back to the commit it is attributed to, and a reason why the trail ends there.
- **Server state.** A limiter that evicts answers like one that does not; the lock table cannot be told from one lock per repository name.
- **Garbage collection and bisect.** The sweep keeps exactly the least set that holds what the references name and is closed under trees, parents, entries and tag targets; the candidates of a session are the commits of the least such set under parents; a session finds the first bad commit or its predecessor in at most the floor of log2 many tests, and two numbers decide beforehand which of the two.

## Where the code differs from its documentation or a natural reading

- Zero-context hunks can carry wrong starts (`Hunks.ZeroContextMisplaces`, and on bytes `Hunks.MisplacedHunks`); `Hunks.IsPatch` says exactly when.
- Beyond 50,000 lines the diff is shortest only if the texts share no line.
- A slash at the end of a pattern is described as restricting it to directories; it changes nothing, for every pattern and path (`Glob.DirectoryRuleMatchesFiles`).
- The middle form `/**/` stands for exactly one slash, or for nothing at the end of the text; it does not span directories, so it differs from the usual reading on exactly the deeper texts (`Glob.MiddleAgreesExactly`).
- The limiter is described as a sliding window of 10 requests; it is a fixed window per address and lets up to 19 through within one window length, never more (`RateLimit.AtMostNineteen`, `RateLimit.NineteenIsReached`).
- `status` calls `Diverged` something that should not normally happen. The sidecar does not say which repository it was written for, and the command line lets one file be pushed to several remotes, so `Diverged` is reached by calls one after the other (`SyncStatus.TwoRepositoriesDiverge`), and `LocalAhead` can be reported for a file that is the one last synced (`SyncStatus.TwoRepositoriesMislead`). Calls at one path that do not overlap are safe from it exactly if they use one repository (`SyncStatus.SafeExactly`); with one repository it takes another session that writes the sidecar during the call (`SyncStatus.DivergedInOneRepository`, `SyncStatus.OverlapDiverges`).
- A push that returns an error may have published its file: when the answer to its accepted swap is lost, or when only the sidecar could not be written (`SyncVisibility.FailedPushIsVisible`, `SyncRuns.LostReplyPublishes`).
- Deleting a key resets its generation, which lets a stale compare-and-swap succeed, namely when as many writes follow the delete as the stale generation says (`Backend.StaleSwapAfterRemoval`). The sync engine never deletes.
- A push of more than 10 GiB succeeds, but no pull accepts it (`SyncInvariant.PullAcceptsBySize`).
- Bisect reports the last remaining candidate without a test; it can be the good commit just before the first bad one. With more than one candidate there is always a position of the regression for which it is (`Bisect.ExactOnlyForOne`, `Bisect.BisectIsExact`).
- A matrix beyond 256 combinations loses not only combinations but all variables after the one that exceeded the limit (`Matrix.ExpandMatrix`).

## Model

| member | source | states |
|---|---|---|
| `Lines.LineEnd` | crates/ovc-core/src/diff.rs:75-91 | the first line ends just after the first newline, or at the end of the text |
| `Lines.LinesOfSplits` | crates/ovc-core/src/diff.rs:75-91 | the lines concatenate to the text; each has a newline at its end only, and all but the last have one |
| `Lines.SplitIsUnique` | crates/ovc-core/src/diff.rs:75-91 | there is only one such splitting: joining lines and splitting again gives them back |
| `Lines.SplitLines` | crates/ovc-core/src/diff.rs:75-91 | the loop returns exactly that splitting |
| `EditDistance.ScriptCostsDistance` | crates/ovc-core/src/diff.rs:1-6 | no script that turns one sequence into the other inserts and deletes fewer lines than the edit distance |
| `EditDistance.DistanceIsAttained` | crates/ovc-core/src/diff.rs:1-6 | for every pair of prefixes some script of single-line operations costs exactly the distance |
| `EditDistance.ShortestIsDistance` | crates/ovc-core/src/diff.rs:98-105 | a script is shortest among all scripts if and only if it costs the distance |
| `EditDistance.DistanceIsLcs` | crates/ovc-core/src/diff.rs:1-6 | the distance is old + new minus twice the length of a longest common subsequence |
| `EditDistance.ReplacingAllIsShortest` | crates/ovc-core/src/diff.rs:110-125 | deleting all and inserting all is shortest if and only if the two sides share no line |
| `EditDistance.TrimKeepsDistance` | crates/ovc-core/src/diff.rs:135-151 | cutting off a common prefix, and everything beyond the point in question, keeps the distance |
| `EditDistance.Parity` | crates/ovc-core/src/diff.rs:250-314 | the distance has the parity of the diagonal, on and beyond the grid |
| `EditDistance.Beyond` | crates/ovc-core/src/diff.rs:211-246 | outside the grid every further column or row costs exactly one |
| `EditScript.ScriptTransforms` | crates/ovc-core/src/diff.rs:8-37 | a script rebuilds the new sequence, read backwards recovers the old one, and names only indices in range |
| `EditScript.OpWalks` | crates/ovc-core/src/diff.rs:8-37 | the lines of one operation tile its range contiguously, equal lines paired with equal lines |
| `EditScript.ExpandOps` | crates/ovc-core/src/diff.rs:401-439 | the nested loops list one action for each line of each operation, with its two positions |
| `EditScript.MergeOps` | crates/ovc-core/src/diff.rs:317-368 | merging expands to the very same lines for every input list, leaves no two neighbours that could be joined, and keeps counts positive |
| `EditScript.MergedAlternate` | crates/ovc-core/src/diff.rs:317-368 | in a script neighbours of the same kind are always contiguous, so after merging no two neighbours are of the same kind |
| `Myers.FollowDiagonal` | crates/ovc-core/src/diff.rs:225-232 | the inner loop stops at the end of the run of equal lines, on the same diagonal |
| `Myers.ExitIsFurthest` | crates/ovc-core/src/diff.rs:215-234 | the greedy choice between the two neighbouring diagonals reaches the furthest point of the diagonal within the budget of the round, although points may leave the grid |
| `Myers.ExitAtTheEnd` | crates/ovc-core/src/diff.rs:236-238 | a point at or beyond both ends is exactly the end, and then the distance equals the round |
| `Myers.RoundMissesEnd` | crates/ovc-core/src/diff.rs:211-240 | a round that meets no such point proves the distance larger than the round |
| `Myers.Round` | crates/ovc-core/src/diff.rs:211-240 | one round over the frontier array: either it stops with distance = round at (old length, new length), or the array holds the frontier of the next round |
| `Myers.PreviousOnTrace` | crates/ovc-core/src/diff.rs:265-280 | the diagonal chosen backwards is the one the search came from, its saved column is the exit of the round before, all indices are in range, and only round 0 reads the initial zero |
| `Myers.UndoDiagonal` | crates/ovc-core/src/diff.rs:282-291 | walking back along a diagonal ends exactly at its entry point and prepends the equal lines passed |
| `Myers.Backtrack` | crates/ovc-core/src/diff.rs:250-314 | replaying the saved frontiers gives a walk from the start to both ends that costs one less than the number of rounds |
| `Myers.MyersCore` | crates/ovc-core/src/diff.rs:197-246 | the search always ends at the end of both sequences, and the operations cost exactly the distance, none is empty and no two neighbours are of the same kind |
| `Diff.CommonPrefix` | crates/ovc-core/src/diff.rs:135-139 | the longest common prefix |
| `Diff.CommonSuffix` | crates/ovc-core/src/diff.rs:141-148 | the longest common suffix that does not overlap the prefix |
| `Diff.TrimmedDistance` | crates/ovc-core/src/diff.rs:135-151 | trimming prefix and suffix keeps the distance |
| `Diff.TrimmedDiff` | crates/ovc-core/src/diff.rs:150-168 | each of the four cases for the middle costs the distance and covers both sides |
| `Diff.NoEqualInside` | crates/ovc-core/src/diff.rs:135-168 | what is left after trimming neither begins nor ends with an equal run, so putting prefix and suffix back leaves no neighbours of the same kind |
| `Diff.MyersDiff` | crates/ovc-core/src/diff.rs:131-190 | the operations are a script for the two sequences and cost the distance |
| `Diff.ReplaceAll` | crates/ovc-core/src/diff.rs:110-125 | the fallback beyond the limit is a script that costs every line |
| `Diff.DiffLines` | crates/ovc-core/src/diff.rs:98-128 | for all texts a script; shortest if both have at most 50,000 lines; otherwise shortest if and only if no line is shared |
| `Diff.ShortestCostsLcs` | crates/ovc-core/src/diff.rs:1-6 | a shortest script costs old + new minus twice a longest common subsequence |
| `Diff.DiffRebuildsText` | crates/ovc-core/src/diff.rs:98-128 | end to end on bytes: the script rebuilds the new text from the old, and the old from the new |
| `Hunks.GroupChanges` | crates/ovc-core/src/diff.rs:452-466 | the loop computes the grouping of the changes |
| `Hunks.GroupsCover` | crates/ovc-core/src/diff.rs:452-466 | groups with their context are in order and disjoint, begin and end with a change, and everything outside is kept |
| `Hunks.GroupsAreWellMade` | crates/ovc-core/src/diff.rs:452-466 | two changes share a group exactly when no stretch of more than two contexts of kept lines lies between them |
| `Hunks.BuildHunk` | crates/ovc-core/src/diff.rs:469-533 | starts, counts and lines of one hunk as the loop over its actions leaves them |
| `Hunks.BuildHunks` | crates/ovc-core/src/diff.rs:469-533 | one hunk for each group: its lines are those of the group with the given number of actions before and after it, or as many as there are |
| `Hunks.HunksShowContext` | crates/ovc-core/src/diff.rs:469-533 | with s and e the first and last change of a group, its hunk begins with exactly min(context, s) context lines and ends with exactly min(context, number of actions - 1 - e), and in between are e - s + 1 lines that begin and end with a change |
| `Hunks.StartIsExact` | crates/ovc-core/src/diff.rs:469-533 | at least one of the two header starts is always right, and both are if and only if the hunk is anchored |
| `Hunks.ScriptAsHunks` | crates/ovc-core/src/diff.rs:375-533 | applying the hunks, with every header, count, context and deleted line checked, yields the new text if all hunks are anchored (always with context) and is refused otherwise |
| `Hunks.HunksCarryCost` | crates/ovc-core/src/diff.rs:469-533 | the hunks change exactly as many lines as the script |
| `Hunks.HunksOfActions` | crates/ovc-core/src/diff.rs:384-398 | grouping and building together give such a patch; there are no hunks if and only if the texts are equal |
| `Hunks.DiffToHunks` | crates/ovc-core/src/diff.rs:375-398 | up to 50,000 lines the hunks are a patch that changes as few lines as possible, and each shows one group of changes with its full context; beyond that there are none |
| `Hunks.ShortestKeepsTheLine` | crates/ovc-core/src/diff.rs:131-190 | old p, q and new r, p, t, all different: every shortest script keeps p and then replaces q by t |
| `Hunks.ZeroContextMisplaces` | crates/ovc-core/src/diff.rs:489-522 | without context every such script gives a second hunk, with both counts 1, whose start is wrong, and a strict patch refuses it |
| `Hunks.MisplacedHunks` | crates/ovc-core/src/diff.rs:375-398 | and so do the hunks computed from the bytes of any four such lines |
| `Glob.ShiftedLiteral` | crates/ovc-core/src/ignore.rs:270-304 | a star-free stretch matched again further right leaves slash-free text between the two ends |
| `Glob.EarlierStarIsCovered` | crates/ovc-core/src/ignore.rs:270-304 | what an earlier star could reach by taking more text, the newest star reaches too, so retrying only the last star loses no match |
| `Glob.SimpleGlobMatch` | crates/ovc-core/src/ignore.rs:270-304 | the loop terminates and returns true if and only if the pattern matches recursively: `*` any slash-free run, `?` one byte other than a slash |
| `Glob.StarFreeMatch` | crates/ovc-core/src/ignore.rs:270-304 | where the pattern has no star it matches byte by byte: a question mark any byte but a slash, every other byte itself |
| `Glob.MatchSplitsAtStar` | crates/ovc-core/src/ignore.rs:270-304 | and at its first star the text splits into a byte-by-byte match, a stretch without a slash, and a match of the rest |
| `Glob.FindDoubleStar` | crates/ovc-core/src/ignore.rs:307-309 | the first place of the middle form, or -1 if there is none |
| `Glob.GlobMatchBytes` | crates/ovc-core/src/ignore.rs:214-267 | true if and only if the four forms of `**` match recursively |
| `Glob.MatchAfterPrefix` | crates/ovc-core/src/ignore.rs:222-236 | a leading form drops any number of whole leading components |
| `Glob.MatchBeforeSuffix` | crates/ovc-core/src/ignore.rs:238-248 | a trailing form drops any number of whole trailing components |
| `Glob.MatchAround` | crates/ovc-core/src/ignore.rs:250-262 | the middle form splits at one slash, or lets the right-hand side match nothing |
| `Glob.RuleMatches` | crates/ovc-core/src/ignore.rs:125-165 | a rule matches by its anchored, directory and component cases |
| `Glob.MatchAnyComponent` | crates/ovc-core/src/ignore.rs:140-160 | some component of the path matches |
| `Glob.CheckIgnored` | crates/ovc-core/src/ignore.rs:125-172 | a path is ignored if and only if the last rule that applies to it is not a negation |
| `Glob.ParseReadsBack` | crates/ovc-core/src/ignore.rs:175-202 | every pattern put between an exclamation mark and a slash, or neither, is parsed back with its flags |
| `Glob.LiteralRule` | crates/ovc-core/src/ignore.rs:125-165 | a rule without wildcards applies to its path and everything below it if it has a slash inside, and otherwise to every path with such a component |
| `Glob.DirectoryRuleMatchesFiles` | crates/ovc-core/src/ignore.rs:125-149 | a slash added to the end of a pattern line that has none there changes nothing: the rule applies to the same paths, and to files exactly where it applies to directories |
| `Glob.MatchedPrunes` | crates/ovc-core/src/ignore.rs:175-202 | whatever a pattern matches, the pattern with a trailing `/**` matches everything below |
| `Glob.RulePrunesSubtree` | crates/ovc-core/src/ignore.rs:118-172 | a parsed rule that applies to a directory applies to every path below it |
| `Glob.MatchKeepsSlashes` | crates/ovc-core/src/ignore.rs:270-304 | without `**` a pattern matches only texts with exactly as many slashes as it has |
| `Glob.MiddleIsOneSlash` | crates/ovc-core/src/ignore.rs:249-263 | the middle form matches a single slash, or nothing if the right-hand side matches nothing |
| `Glob.MiddleAgreesExactly` | crates/ovc-core/src/ignore.rs:249-263 | for all plain sides and all texts, this agrees with the reading in which the form spans directories if and only if the text has no more slashes than the pattern with one for the form, or the spanning reading does not match either |
| `Glob.DeeperPathIsMissed` | crates/ovc-core/src/ignore.rs:249-263 | whatever the sides match, with a directory in between the spanning reading matches and the code does not |
| `Glob.ComponentsAroundMiddle` | crates/ovc-core/src/ignore.rs:249-263 | all sides of one component each, other than `**`, are plain sides |
| `Arithmetic.MaskIsRemainder` | crates/ovc-cloud/src/chunker.rs:91-95 | and-ing with k ones is the remainder modulo 2 to the k |
| `Chunker.BitsFit` | crates/ovc-cloud/src/chunker.rs:91-95 | the mask widths fit in the 64-bit hash |
| `Chunker.LowBitsOfWindow` | crates/ovc-cloud/src/chunker.rs:121-161 | the low k bits of the wrapping gear hash are a function of the last k bytes |
| `Chunker.CutDependsOnWindow` | crates/ovc-cloud/src/chunker.rs:121-161 | once as many bytes as the mask has bits are scanned, no older byte decides whether a position is a cut |
| `Chunker.GearTable` | crates/ovc-cloud/src/chunker.rs:48-67 | the first of the 256 table entries, and each other one from the one before it |
| `Chunker.LowBitsAreWindowSum` | crates/ovc-cloud/src/chunker.rs:121-161 | the low w bits of the hash are those of the sum of the table entries of the last w bytes scanned, each doubled once for every byte after it |
| `Chunker.IsCutMeans` | crates/ovc-cloud/src/chunker.rs:91-161 | with 2^(b-1) < average <= 2^b a byte may end a chunk if and only if that sum is divisible by 2^w, where w is b + 1 below the average size and b - 1 from there on |
| `Chunker.CutIsBoundary` | crates/ovc-cloud/src/chunker.rs:121-161 | a chunk ends after the first such byte from the minimum size on, or at the end of the data or the maximum size |
| `Chunker.DefaultBoundary` | crates/ovc-cloud/src/chunker.rs:21-29 | the instance of the default parameters: 21 bits, and 19 from one mebibyte on |
| `Chunker.FindBoundary` | crates/ovc-cloud/src/chunker.rs:121-161 | both loops, with the hash carried along, return the specified cut for all inputs, and that is the first byte whose weighted window sum is divisible by the power of two that the average size prescribes |
| `Chunker.FirstCutIsFirst` | crates/ovc-cloud/src/chunker.rs:121-161 | the cut is the first position the hash accepts, or the end of the scan |
| `Chunker.ChunkData` | crates/ovc-cloud/src/chunker.rs:82-118 | the loop returns the pieces with digest, offset and length |
| `Chunker.ChunksCarryPieces` | crates/ovc-cloud/src/chunker.rs:164-176 | each chunk carries its piece, the digest of it, its length, and the total length before it as offset |
| `Chunker.PiecesEndAtBoundaries` | crates/ovc-cloud/src/chunker.rs:97-115 | each piece ends where that rule says for the data from its beginning, or is the last and no longer than the minimum |
| `Chunker.PiecesCover` | crates/ovc-cloud/src/chunker.rs:82-118 | the pieces are non-empty and concatenate to the input |
| `Chunker.ReassembleChunks` | crates/ovc-cloud/src/chunker.rs:187-194 | reassembling concatenates the payloads |
| `Chunker.PieceSizes` | crates/ovc-cloud/src/chunker.rs:82-161 | every piece but the last has a length in (min, max], the last at most max |
| `Chunker.PieceCount` | crates/ovc-cloud/src/chunker.rs:82-161 | so the number of pieces is bounded by the length over min + 1 |
| `Chunker.SizeLimitImpliesChunkLimit` | crates/ovc-cloud/src/sync.rs:299-320 | a file within the 10 GiB limit of pull has fewer chunks than its limit of 100,000 |
| `Chunker.CutIgnoresRest` | crates/ovc-cloud/src/chunker.rs:121-161 | a cut before the end stays when more text follows |
| `Chunker.AppendingKeepsPieces` | crates/ovc-cloud/src/chunker.rs:3-6 | all pieces of a text but possibly its last are the first pieces of every longer text |
| `Chunker.BoundaryResets` | crates/ovc-cloud/src/chunker.rs:3-6 | after a boundary the remaining pieces are those of the remaining text alone |
| `Chunker.EditIsLocal` | crates/ovc-cloud/src/chunker.rs:3-6 | two versions of a text that differ in the middle share the pieces before the edit and all pieces from a common boundary after it |
| `Backend.LocalBackend.PutObject` | crates/ovc-cloud/src/local.rs:104-125 | a write with a stale expectation changes nothing; otherwise the value is replaced and the generation is one higher |
| `Backend.LocalBackend.DeleteObject` | crates/ovc-cloud/src/local.rs:150-165 | value and generation record go, or not found |
| `Backend.StoreIsHistory` | crates/ovc-cloud/src/local.rs:104-165 | over every history of writes and deletes, accepted and refused, the generation of a key is the number of writes accepted since its last delete, and its data is the latest of them |
| `Backend.ReadsSeeHistory` | crates/ovc-cloud/src/local.rs:127-148 | so a read returns that value with that number, finds nothing exactly when there is none, and a key exists exactly when a read finds it |
| `Backend.SwapIsAccepted` | crates/ovc-cloud/src/backend.rs:15-22 | a compare-and-swap is accepted if and only if as many writes as it expects have been accepted since the last delete |
| `Backend.CountGoesOn` | crates/ovc-cloud/src/backend.rs:15-22 | without deletes no generation falls |
| `Backend.OneWriterPerGeneration` | crates/ovc-cloud/src/backend.rs:15-22 | without deletes at most one of all writes that expect one generation is accepted, whatever is written in between |
| `Backend.RemovalForgets` | crates/ovc-cloud/src/local.rs:150-165 | a delete forgets everything before it |
| `Backend.StaleSwapAfterRemoval` | crates/ovc-cloud/src/local.rs:150-165 | a generation read before a delete is accepted after it if and only if exactly as many writes have been accepted since |
| `Sync.OthersLeaveSession` | crates/ovc-cloud/src/sync.rs:157-527 | what a session has read and where it stands is its own: no step of another touches it |
| `Sync.SidecarsStay` | crates/ovc-cloud/src/sync.rs:49-62 | a sidecar changes only at the end of a push or a pull at its path |
| `SyncInvariant.StepKeepsInv` | crates/ovc-cloud/src/sync.rs:157-527 | every step of every session, every edit and every failure keeps the invariant of store, sidecars and sessions; files and repositories are chosen separately |
| `SyncInvariant.RunKeepsInv` | crates/ovc-cloud/src/sync.rs:157-527 | so does every interleaving of any number of sessions |
| `SyncInvariant.RemoteIsComplete` | crates/ovc-cloud/src/sync.rs:196-252 | in every reachable state each chunk of the current manifest is stored with the content its hash names, and they concatenate to the file |
| `SyncInvariant.CacheHoldsContent` | crates/ovc-cloud/src/sync.rs:326-340 | the chunks a pull need not fetch are exactly those of the local file, each under its hash |
| `SyncInvariant.PullAcceptsBySize` | crates/ovc-cloud/src/sync.rs:304-320 | a pull accepts a published file exactly when its size is within the limit; the limit on chunks never refuses it |
| `SyncInvariant.PullDelivers` | crates/ovc-cloud/src/sync.rs:322-439 | a running pull never meets a missing or damaged chunk and ends with exactly the file whose manifest it fetched, whatever is pushed meanwhile |
| `SyncInvariant.SidecarIsHistory` | crates/ovc-cloud/src/sync.rs:253-263 | if all sessions at a path use one repository, the sidecar is never ahead of it and names what was published there at its generation |
| `SyncVisibility.OnlyPublishingIsVisible` | crates/ovc-cloud/src/sync.rs:240-290 | a step changes what some repository offers if and only if it is an accepted swap; that repository then offers the pushed file under its next generation, and no other offer changes |
| `SyncVisibility.FailedPushIsVisible` | crates/ovc-cloud/src/sync.rs:157-290 | a whole push that ends in an error, whatever others do meanwhile, changes an offer if and only if the answer to one of its accepted swaps was lost or it failed between its accepted swap and the sidecar |
| `SyncRuns.LostReplyPublishes` | crates/ovc-cloud/src/sync.rs:240-290 | from every state at rest there is a push that ends in an error, records nothing, and has published the file |
| `SyncRuns.UndisturbedPush` | crates/ovc-cloud/src/sync.rs:157-290 | a push nobody disturbs publishes the file under the next generation, records it, and changes no other manifest, file or session; it uploads no chunk if the manifest names all of them and they are stored |
| `SyncRuns.UndisturbedPull` | crates/ovc-cloud/src/sync.rs:298-457 | a pull nobody disturbs puts the offered file in place, records it, and changes nothing else |
| `SyncRuns.PushThenPull` | crates/ovc-cloud/src/sync.rs:157-457 | push here and pull there: the same bytes and the same sidecar |
| `SyncRuns.RefusedAttempt` | crates/ovc-cloud/src/sync.rs:240-289 | an attempt refused because the generation has moved on is followed by another on the same file after the first and second time, and the third ends the push |
| `SyncRuns.AttemptCanSucceed` | crates/ovc-cloud/src/sync.rs:170-263 | from the fetch of whatever attempt, a push nobody disturbs any more completes |
| `SyncRuns.OfferedIsKnown` | crates/ovc-cloud/src/sync.rs:187-217 | a file that is offered already has all its chunks named and stored, so pushing it again uploads none |
| `SyncStatus.StatusDecides` | crates/ovc-cloud/src/sync.rs:467-527 | a whole status call with any steps of others in between decides by the newest sidecar if the file it reads differs from the fetched one, and otherwise does not get that far |
| `SyncStatus.StatusAnswers` | crates/ovc-cloud/src/sync.rs:467-527 | every answer of a whole call: no manifest gives `NoRemote`, no file `RemoteAhead`; `InSync` with the fetched generation if and only if the file read is the one published at it; otherwise `LocalAhead` without a sidecar or with one of the same generation, `RemoteAhead` if it is lower, `Diverged` if it is higher |
| `SyncStatus.PushThenStatus` | crates/ovc-cloud/src/sync.rs:240-263 | a push and then a status with nobody in between: `InSync` at the generation just published |
| `SyncStatus.DivergedExactly` | crates/ovc-cloud/src/sync.rs:492-523 | `Diverged` is reported if and only if the file differs and the newest sidecar carries a generation above the fetched one |
| `SyncStatus.DivergedInOneRepository` | crates/ovc-cloud/src/sync.rs:492-523 | with one repository at the path, if and only if moreover that sidecar was written during the call |
| `SyncStatus.WriterIsAnother` | crates/ovc-cloud/src/sync.rs:441-449 | and then another session at the same path wrote it |
| `SyncStatus.LocalAheadIsSound` | crates/ovc-cloud/src/sync.rs:492-523 | with one repository, `LocalAhead` with a sidecar means that the file differs from the content last synced |
| `SyncStatus.SafeExactly` | crates/ovc-cloud/src/sync.rs:504-523 | sessions at a path that work one at a time never see `Diverged`, in any run, if and only if they all use one repository |
| `SyncStatus.TwoRepositoriesDiverge` | crates/ovc-cli/src/commands/sync_status.rs:20-30 | from every start, two sessions that use one file with two repositories reach `Diverged` one call at a time |
| `SyncStatus.TwoRepositoriesMislead` | crates/ovc-cli/src/commands/sync_status.rs:20-30 | and `LocalAhead` although the file is the one last synced |
| `SyncStatus.OverlapDiverges` | crates/ovc-cloud/src/sync.rs:467-527 | with one repository, two sessions whose calls overlap can reach `Diverged` |
| `Levels.GraphMeans` | crates/ovc-actions/src/runner.rs:1034-1052 | the graph holds each action with its dependencies inside the group |
| `Levels.InsideMeans` | crates/ovc-actions/src/runner.rs:1041-1052 | with their multiplicities |
| `Levels.CountDependencies` | crates/ovc-actions/src/runner.rs:1041-1052 | the counters are the numbers of listed dependencies and the lists of dependents repeat them |
| `Levels.ReleaseDependents` | crates/ovc-actions/src/runner.rs:1068-1079 | each listing lowers the counter once, and an action is queued exactly when its last one is gone |
| `Levels.RunLevels` | crates/ovc-actions/src/runner.rs:1063-1082 | the outer loop turns queues into levels until none is left |
| `Levels.TopologicalLevels` | crates/ovc-actions/src/runner.rs:1030-1091 | succeeds if and only if the dependency graph inside the group has no cycle, and then returns its levels |
| `Levels.EachActionOnce` | crates/ovc-actions/src/runner.rs:1025-1029 | each action stands in exactly one place of one level |
| `Levels.DependencyIsEarlier` | crates/ovc-actions/src/runner.rs:1025-1029 | every dependency inside the group is in a strictly earlier level |
| `Levels.LevelIsLongestChain` | crates/ovc-actions/src/runner.rs:1063-1082 | the number of the level is the length of the longest dependency chain |
| `Levels.StuckHasCycle` | crates/ovc-actions/src/runner.rs:1084-1090 | actions that are never released contain a cycle |
| `Levels.LevelsMeanAcyclic` | crates/ovc-actions/src/runner.rs:1084-1090 | if all are released there is none |
| `Trigger.RunLevel` | crates/ovc-actions/src/runner.rs:283-370 | one level: executions are set up from what earlier levels put out, run, and their outputs stored under the name of the action |
| `Trigger.LevelSettles` | crates/ovc-actions/src/runner.rs:283-370 | no action of a level or of an earlier one takes input from that level, so what it was given is final |
| `Trigger.CollectedMeans` | crates/ovc-actions/src/runner.rs:340-370 | outputs are kept for exactly the actions with a report that has some, and each key has the value of the last report that carries it |
| `Trigger.EnvIsSupplied` | crates/ovc-actions/src/runner.rs:314-325 | so an execution is handed, in the order of its dependency list and with repetitions, exactly those outputs of the dependencies that have any |
| `Trigger.RunsMean` | crates/ovc-actions/src/runner.rs:327-337 | one report for each matrix combination, in order, with what the execution of it gave |
| `Trigger.SingleKeepsOrder` | crates/ovc-actions/src/runner.rs:248-282 | if a cycle forces configuration order, each action reports after the earlier ones and is handed what these have put out |
| `Trigger.RunTrigger` | crates/ovc-actions/src/runner.rs:248-370 | each action of the group is reported once, skipped or with one report for each combination, and no other action is; without a cycle every execution was handed, for each dependency with outputs, every key with the value of the last report that carries it, the reports of the whole run considered; with a cycle actions report in configuration order and are handed what earlier ones have put out |
| `Trigger.OrderDoesNotMatter` | crates/ovc-actions/src/runner.rs:267-370 | what each action was given and reported is the same for every order inside the levels |
| `Matrix.ProductMeans` | crates/ovc-actions/src/runner.rs:1107-1139 | the product holds exactly the assignments of a listed value to every variable |
| `Matrix.ExtendSize` | crates/ovc-actions/src/runner.rs:1107-1139 | its size is the product of the numbers of values |
| `Matrix.ProductAt` | crates/ovc-actions/src/runner.rs:1107-1139 | in which order: combination i is the number i with one digit for each variable, the last variable lowest |
| `Matrix.ExtendCapped` | crates/ovc-actions/src/runner.rs:1119-1136 | one variable: the whole extension, or its first 256 combinations |
| `Matrix.ExpandMatrix` | crates/ovc-actions/src/runner.rs:1107-1139 | at most 256 combinations: the whole product in order if no prefix exceeds the limit, otherwise the first 256 over the variables up to the one that does |
| `Blame.LineMap` | crates/ovc-core/src/blame.rs:118-144 | the map from new to old line numbers is that of the equal runs |
| `Blame.EqualRunsMatch` | crates/ovc-core/src/diff.rs:8-37 | every equal run of a script pairs equal lines |
| `Blame.MappedLineIsSame` | crates/ovc-core/src/blame.rs:118-152 | a line that maps to the parent is that very line there |
| `Blame.PickBestParent` | crates/ovc-core/src/blame.rs:218-251 | the first parent whose diff has the fewest changing operations |
| `Blame.DistanceCounts` | crates/ovc-core/src/blame.rs:231-240 | which is the number of operations other than equal runs |
| `Blame.LenientMeans` | crates/ovc-core/src/blame.rs:225-230 | a parent whose version cannot be had counts as empty |
| `Blame.Divide` | crates/ovc-core/src/blame.rs:146-173 | one step back: each pending line is either followed to the line the diff pairs it with, or attributed to the current commit, whose diff to the followed parent does not match it |
| `Blame.AttributeRest` | crates/ovc-core/src/blame.rs:74-84 | at a root, or at the depth limit, all pending lines are attributed to the current commit |
| `Blame.WalkHistory` | crates/ovc-core/src/blame.rs:60-188 | every line gets an attribution, along a chain in which each commit is the followed parent of the one before, with one diff for each step |
| `Blame.BlameFile` | crates/ovc-core/src/blame.rs:34-209 | one entry per line, in order; there is one chain with one diff per step for all lines, along which each line keeps its content down to its commit, and that is a root, the depth limit, or where the diff to the followed parent does not match the line; a history without missing or damaged objects always succeeds |
| `Blame.PairedOnce` | crates/ovc-core/src/blame.rs:118-144 | a diff pairs no old line with two new ones |
| `Blame.OriginsAreDistinct` | crates/ovc-core/src/blame.rs:34-209 | no two lines of the file are attributed to the same line of the same visited version |
| `RateLimit.Limiter.CheckAuthRateLimit` | crates/ovc-api/src/state.rs:290-321 | a request passes unless its address has a window that began less than 60 seconds ago with 10 requests in it; it opens a window or is counted in it; other addresses are left alone, except that beyond 10,000 entries the expired ones go |
| `RateLimit.EvictionIsInvisible` | crates/ovc-api/src/state.rs:295-305 | over every run with a clock that never goes back, the evicting limiter gives exactly the answers of one that never evicts |
| `RateLimit.RunIsAccounted` | crates/ovc-api/src/state.rs:290-321 | what each bucket says about all requests let through so far |
| `RateLimit.AtMostNineteen` | crates/ovc-api/src/state.rs:11-17 | in every half-open interval of 60 seconds at most 19 requests of an address are let through |
| `RateLimit.NineteenIsReached` | crates/ovc-api/src/state.rs:11-17 | and 19 are, in a concrete run, so the bound is exact |
| `RepoLocks.StepKeepsInv` | crates/ovc-api/src/state.rs:192-218 | every step of a call, with copies, drops, locks and panics in between, keeps the invariant of table and handles |
| `RepoLocks.OneMutexPerRepo` | crates/ovc-api/src/state.rs:189-218 | in every reachable state two live handles are the same mutex if and only if they are for the same repository, and the table still has it |
| `RepoLocks.MutualExclusion` | crates/ovc-api/src/state.rs:189-218 | at most one handle of a repository holds its lock |
| `RepoLocks.GrantedIffPermitted` | crates/ovc-api/src/state.rs:192-218 | a lock, unlock, copy or drop is possible exactly when one lock per repository name would allow it |
| `RepoLocks.StepServes` | crates/ovc-api/src/state.rs:192-218 | each step acts on handles and holders as that plain service does |
| `RepoLocks.RunServes` | crates/ovc-api/src/state.rs:192-218 | so every run, with its evictions and panics, is a run of the plain service: the table cannot be observed |
| `RepoLocks.SweepInAnyOrder` | crates/ovc-api/src/state.rs:208-211 | the sweep leaves the same table in whatever order it looks at the entries |
| `RepoLocks.UninterruptedCall` | crates/ovc-api/src/state.rs:203-217 | the steps of a call that nobody interrupts compute what the method below returns |
| `RepoLocks.LockTable.RepoLock` | crates/ovc-api/src/state.rs:192-218 | the existing mutex and an unchanged table, or a new mutex in a table that has been swept if it held 1024 or more |
| `Reachability.Enqueue` | crates/ovc-core/src/gc.rs:100-104 | remembers and queues, in order, exactly the ids that are new and not to be skipped |
| `Reachability.ReachableIsLeast` | crates/ovc-core/src/gc.rs:94-95 | reachable ids lie in every set that holds the roots and is closed under links |
| `Reachability.VisitLeavesLess` | crates/ovc-core/src/gc.rs:106-140 | each visit lowers the number of ids not yet seen plus those waiting, so the search ends |
| `Gc.CollectRoots` | crates/ovc-core/src/gc.rs:41-75 | the roots are exactly the ids that HEAD, a branch, a tag, a stash entry or a reflog entry names |
| `Gc.MarkReachable` | crates/ovc-core/src/gc.rs:96-143 | exactly the ids that some chain of links reaches from a non-zero root, or an error that names a reachable object that cannot be read |
| `Gc.LiveKeepsLinked` | crates/ovc-core/src/gc.rs:106-140 | with a live commit its tree and all its parents are live if they are stored, with a tree its entries, with a tag its target |
| `Gc.LiveIsLeast` | crates/ovc-core/src/gc.rs:94-143 | and nothing else: what is live lies in every set that holds the non-zero named ids and is closed under these rules |
| `Gc.GarbageCollect` | crates/ovc-core/src/gc.rs:33-92 | succeeds if and only if no reachable object is damaged; then every stored object that a reference names is still stored, with a kept commit its tree and all parents, with a kept tree its entries, with a kept tag its target, and what is kept is the least such set, unchanged; on an error the store is untouched |
| `Gc.SweepKeepsLive` | crates/ovc-core/src/gc.rs:80-81 | sweeping changes neither what is live nor what it reads as |
| `Gc.SecondRunRemovesNothing` | crates/ovc-core/src/gc.rs:27-33 | a second run with the same references removes nothing |
| `Gc.FewerRootsKeepLess` | crates/ovc-core/src/gc.rs:41-75 | dropping references never keeps more |
| `Bisect.CollectCommitsBetween` | crates/ovc-core/src/bisect.rs:129-167 | the candidates, each once: the commits other than the two ends in the least set that holds bad and with every commit but good its parents except good; on a linear history exactly the commits in between in their order |
| `Bisect.FoundIsWay` | crates/ovc-core/src/bisect.rs:129-167 | the ids the walk comes to are that least set |
| `Bisect.StartBisect` | crates/ovc-core/src/bisect.rs:42-53 | the session begins at the midpoint of exactly those candidates, each once, whatever the history; an error names an unreadable commit on the way |
| `Bisect.BisectState.MarkGood` | crates/ovc-core/src/bisect.rs:62-71 | drops everything up to the marked commit |
| `Bisect.BisectState.MarkBad` | crates/ovc-core/src/bisect.rs:74-83 | drops everything from the marked commit on |
| `Bisect.BisectState.PickNext` | crates/ovc-core/src/bisect.rs:103-118 | reports or picks the midpoint |
| `Bisect.MarkKeepsSound` | crates/ovc-core/src/bisect.rs:62-83 | marking any candidate truthfully keeps the candidates between a good commit and the bad one marked last |
| `Bisect.FirstBadInPlay` | crates/ovc-core/src/bisect.rs:62-83 | the first bad commit is always among the candidates or the bad one marked last |
| `Bisect.FoundMeaning` | crates/ovc-core/src/bisect.rs:103-114 | the reported commit is the first bad one or its direct predecessor, and its own verdict tells which |
| `Bisect.TestsAreLogarithmic` | crates/ovc-core/src/bisect.rs:85-118 | from two candidates on a session takes at most the floor of log2 of their number in tests |
| `Bisect.LogarithmIsReached` | crates/ovc-core/src/bisect.rs:85-118 | and exactly that many if every answer is bad |
| `Bisect.RemainingStepsIsLog2` | crates/ovc-core/src/bisect.rs:87-100 | the estimate is log2 rounded up for every number of candidates from 2 on, with the number capped below 2^32, and 0 for one or none |
| `Bisect.RemainingStepsSuffice` | crates/ovc-core/src/bisect.rs:87-100 | the estimate covers the tests of every session if and only if there are fewer than 2^33 candidates |
| `Bisect.BisectFinds` | crates/ovc-core/src/bisect.rs:37-118 | the whole session on a linear history in which a regression stays: what is reported, and after how many tests |
| `Bisect.BisectIsExact` | crates/ovc-core/src/bisect.rs:37-118 | the first bad commit is reported if and only if a recursion on the number of candidates and the position of the regression says so |
| `Bisect.ExactByNumbers` | crates/ovc-core/src/bisect.rs:62-118 | the same for every session between its marks |
| `Bisect.ExactOnlyForOne` | crates/ovc-core/src/bisect.rs:112-114 | it says so for every position of the regression if and only if there is a single candidate |

## Left out

- File and network access, temporary files, renames, retry delays and the async runtime: every backend call and every rename is one step.
- Digests: SHA-256 is an injective function of the bytes. The JSON form of manifests and sidecars is the value itself, and a sidecar that cannot be read counts as absent.
- `LocalBackend`: two processes that interleave inside one `put`; the write is one step, as the trait promises. A generation file that cannot be parsed, and listing of keys, are not modelled.
- A repository number stands for a remote, that is a backend and an id in it. Chunks of all of them are kept in one place; no step can tell, because a push looks only for chunks that its own remote's manifest names.
- The counters in `PushResult` and `PullResult`, and deletes in sync runs (the engine makes none).
- Pull writes the file and the sidecar in two steps, and the model keeps them apart; the temporary file is not visible in it.
- Overflow of `2 * context_lines` for contexts near the largest machine word; lengths of sequences stay below it.
- Text output of hunks (`format_unified_diff`), binary detection, and merging.
- Loading and trimming of ignore files; a pattern line reaches the model trimmed. Paths are bytes.
- Blame: line contents keep their terminators here, while the code strips them and replaces invalid UTF-8 for display; the numbers of lines agree. Tree lookup is a function from commit to file.
- Actions: commands, retries, conditions and environment variable names; an execution is a function of the action, its matrix combination and what its dependencies hand over, and actions for failures are not modelled.
- Matrix variables come in the order of the configuration map.
- The order in which hash maps yield entries is arbitrary in the models.
- Rate limiting: time is in milliseconds and does not go back; poisoned locks are recovered as in the code, which needs no step of its own.
- Repository locks: fairness and waiting of the mutexes; a lock is granted when free.
- Garbage collection: compressed byte totals, and how references and stashes are stored.
- `remaining_steps` uses the integer ceiling of log2 where the code uses floating point.
- Bisect sessions: `Bisect.BisectFinds` covers marking the current candidate on a linear history; `Bisect.MarkKeepsSound` covers marking any other candidate; marking commits that are no candidates is modelled by the methods only.
- Chunk parameters: the models ask for an average of at least 2 and a positive maximum, without which the code shifts by a negative width or makes no progress.
- Cherry-pick, revert, rebase, merge, access control, key storage, encryption, the command line, the web interface and the HTTP routes.
