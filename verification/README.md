# Verified models of the memory and context core

This project models the algorithms at the heart of the repository, an assistant
memory server with its hooks, and proves what they promise. Each file holds one
module; `dafny verify dfyconfig.toml` checks all of them.

| module | what it models |
|---|---|
| Clusters | the union-find that turns near-duplicate pairs into clusters |
| DreamDedup | exact deduplication of memories and the consolidator that applies its proposals |
| DreamRestore | the selection of memories that deduplication lost, and their restoration |
| Cosine | cosine similarity on a hand-written Newton root |
| ContextGate | the context gate as a transition system over any number of hook processes |
| ContextGateWorst | runs of the gate that are denied as often as possible |
| ContextGateHooks | the gate's functions as methods on a session's marker files, tied to the transition system |
| Budget | the two-pass tiered context allocator |
| Chunker, RawContent | the two text splitters |
| Proximity, Snippets | search ranking: term positions, minimum span, densest cluster, excerpt |
| ChunkTables, ChunkStore | the chunk and artifact tables, their triggers, the store's operations and the evictor |
| EvictedContent | what becomes of content whose chunks were evicted when it is added again |
| Routing | globs, their escaping and the choice of a remote |
| Overreach | when a glob written for a resolved directory outdoes a remote that lists the directory by name |
| FlagArgs | the argument reorderer against the parser of Go's flag package |
| RetryCommand | the printed retry commands, through shell and flag parser |
| ShellQuoting | shell quoting against the POSIX.1-2017 Shell Command Language, sections 2.2.1, 2.2.2 and 2.3 |
| Rerank | the local re-ranking of recall hits with its insertion sort |
| StringOrder, Text, Collections | Go's string order, sorting, the parts of package strings that are used, optional values and counting facts |

## How the code is represented

- Strings are sequences of bytes, ASCII where white space, case or globs matter. Lower-casing is
  a parameter that keeps lengths.
- Floating point is exact: cosines are over the reals, re-ranking scores are scaled by ten.
- Walking a Go map is walking its keys in an arbitrary order; sorting with
  `sort.Slice` returns an arbitrary order of equal keys. Every result holds for all of them.
- Times are whole seconds, given as parameters. A stored time is a moment and the zone in which
  its text is written; the text orders by the wall clock, and rows of one wall clock second come
  in any order. Pruning compares the text of an artifact's time, which carries an offset, with a
  text that does not, so an artifact is expired from the second after its time on.
- Generated ids, hashes and the search tokenizer are parameters; an id may collide, a tokenizer
  may be anything.
- SQL tables are sequences of rows or maps by primary key, and a statement takes effect at once.
- The context gate's file operations are atomic steps; the counter's read and its write
  are two. Directory creation and file writes may fail at any step.
- Loops that do much in one body are split into a method for the body and one for the loop.

## Where the code and its documentation part

- `computeMinSpan` compares a byte span with the number of entries
  (pkg/context/searcher.go:129, 152), so it answers 0 for spans longer than that:
  `Proximity.ComputeMinSpan` states when, `Proximity.BoostLostExactlyWhen` what it costs.
- `splitRawContent` keeps parts within the limit only when every line is
  (pkg/context/indexer.go:172-173): `RawContent.LimitHoldsExactlyWhen`.
- `Assemble` says that a higher tier never loses an item to a lower one
  (pkg/contextbudget/budget.go:47). It can, because lower tiers' reservations come before
  higher tiers' extras: `Budget.HigherTierCanLose`, and exactly when it cannot:
  `Budget.HigherTiersKeepExactlyWhen`. Likewise the guarantee of MinItems:
  `Budget.GuaranteeExactlyWhen`.
- A failed counter write "at worst costs one extra (bounded) deny"
  (cmd/anchored/context_gate.go:297-298). Each failing write costs one, without bound:
  `ContextGateWorst.FailedWritesDenyForever`; the bound with that term: `ContextGate.DenialsBounded`.
- Union-find takes the empty string for "no parent" (pkg/dream/analyzer.go:373), so
  pairs with an empty id can be lost: `Clusters.EmptyIdOrderMatters`, and exactly when it shows:
  `Clusters.PartitionExactWhen`, `Clusters.ResultExactWhen`.
- Over exact reals ten Newton steps are exact for unit vectors only
  (pkg/dream/analyzer.go:321-330): `Cosine.ExactOnlyForUnitVectors`. Far from length one,
  long or short, a vector misses the threshold against itself: `Cosine.SelfScoreExactlyWhen`,
  `Cosine.SelfScoreFalls`, and at two vectors `Cosine.IdenticalVectorsCanMiss`.
- The reorderer lets "flags appear anywhere" (cmd/anchored/helpers.go:132-136) unless a
  bare dash stands before them: `FlagArgs.BareDashEndsTheFlags`. It takes a value that begins with
  a dash for a flag, which Go's parser does not: `FlagArgs.KeepsSettingsExactlyWhen`,
  `FlagArgs.NegativeValueIsLost`.
- `snapToWords` extends the end to the next space but not to the end of the content
  (pkg/context/searcher.go:248-255): `Snippets.SnapToWords` states exactly when a word is cut.
- An artifact can outlive its chunks and still answers for its hash
  (pkg/context/artifact.go:46-56), so adding the content again does not make it searchable
  (pkg/context/artifact.go:39-42): `EvictedContent.EvictedContentIsNotIndexedAgain`, and exactly
  when it does, `EvictedContent.StoredExactlyWhen`. Content added without a time to live gets
  there by itself: `EvictedContent.CycleOrphansExactlyWhen`, `EvictedContent.LostForGood`. In the
  second in which a time to live ends, an artifact is not yet expired and its chunks are
  (pkg/context/artifact.go:246, pkg/context/store.go:57).
- `RunEviction` "returns the total number of chunks deleted" (pkg/context/eviction.go:52) but
  counts pruned artifacts for their chunks: `ChunkStore.CountExactlyWhen`,
  `ChunkStore.CountMissesChunks`.
- "Total bytes" of the LRU cap (pkg/context/eviction.go:17) are what SQLite's LENGTH counts
  (pkg/context/store.go:62, pkg/context/eviction.go:97), the characters before the first NUL:
  `ChunkStore.SizeInBytesExactlyWhen`, `ChunkStore.BytesWithinCap`, `ChunkStore.NulHidesAll`.
- The "oldest" chunks (pkg/context/eviction.go:94) are those whose stored text of the time comes
  first. Artifacts are stored in UTC and raw chunks in local time (pkg/context/artifact.go:59,
  pkg/context/indexer.go:135): `ChunkStore.AgeOrderExactlyWhen`, `ChunkStore.YoungerEvictedFirst`.
- "The most specific wins" (pkg/config/config.go:491-496) goes by the pattern as written, while
  it may match under a resolved directory that is shorter. So a directory listed by its own name
  can be outdone by a wildcard through a link, `Overreach.ListedDirectoryOutdone`, and without any
  link by another spelling of itself, `Overreach.DottedNameOutdoes`. Which configured globs can do
  that, whatever the path: `Overreach.NeverOutdoneExactlyWhen`; those whose directories resolve to
  paths no shorter cannot: `Overreach.LongerTargetIsSafe`.
- `satisfyGateFromPostToolUse` "returns true when it wrote the satisfied marker"
  (cmd/anchored/context_gate.go:172) and also when the write failed:
  `ContextGateHooks.Markers.SatisfyGateFromPostToolUse`.

## Model

| member | source | states |
|---|---|---|
| Clusters.ClustersFromPairs | pkg/dream/analyzer.go:369-400 | Returns exactly the connected components with at least minSize ids, each strictly sorted, ordered by first id, for every list of pairs and every map order; with empty ids, the components of the pairs that took effect |
| Clusters.MergeAll | pkg/dream/analyzer.go:383-385 | After the loop the forest represents the given pairs and its ids are exactly those of the pairs |
| Clusters.Forest.Find | pkg/dream/analyzer.go:371-380 | Terminates (ranks rise along parents), returns the root that the pairs define for x, and path compression keeps the forest acyclic and every id's root |
| Clusters.Forest.Union | pkg/dream/analyzer.go:381 | The forest now represents one pair more, whatever the two roots are (equal or empty included) |
| Clusters.Forest.Hang | pkg/dream/analyzer.go:381 | The single assignment of union keeps the forest acyclic and redirects exactly the ids under the first root |
| Clusters.GatherGroups | pkg/dream/analyzer.go:386-390 | Every id is listed once, under its root, while find goes on compressing paths |
| Clusters.SelectClusters | pkg/dream/analyzer.go:391-399 | Keeps exactly the groups of at least minSize, sorts each and orders them by first id |
| Clusters.CompressKeepsSound | pkg/dream/analyzer.go:378 | Pointing an id straight at its root keeps ranks rising and all roots |
| Clusters.HangKeepsSound | pkg/dream/analyzer.go:381 | Hanging one root under another keeps ranks rising and merges exactly the two classes |
| Clusters.RootsAreComponents | pkg/dream/analyzer.go:366-368 | Two ids have one root exactly when a walk along effective pairs connects them |
| Clusters.ClustersPartition | pkg/dream/analyzer.go:366-368 | Clusters are pairwise disjoint and cover every id of a large enough component |
| Clusters.ClustersUnique | pkg/dream/analyzer.go:366-368 | The specification has one solution: two lists that satisfy it are equal |
| Clusters.PairOrderIrrelevant | pkg/dream/analyzer.go:366-368 | Lists of pairs that link the same ids give the same clusters, so pair order and direction do not matter |
| Clusters.NonEmptyIdsAllEffective | pkg/dream/analyzer.go:373 | Without an empty id every pair takes effect |
| Clusters.PartitionExactWhen | pkg/dream/analyzer.go:373 | The partition of all ids is that of the pairs as given if and only if every pair that was lost is bridged by other pairs |
| Clusters.ResultExactWhen | pkg/dream/analyzer.go:369-400 | The returned list is that of the pairs as given if and only if every lost pair is bridged by other pairs, or the whole component of the empty id is smaller than minSize |
| Clusters.EmptyIdOrderMatters | pkg/dream/analyzer.go:373 | Concrete pairs with an empty id whose order changes who is grouped with whom |
| DreamDedup.KeyTellsProjectAndHash | pkg/dream/analyzer.go:297-303 | The dedup key separates project and hash for every NUL-free hash; no project and the empty project are one scope |
| DreamDedup.NulInHashCollides | pkg/dream/analyzer.go:297-303 | Two different scopes that share a key once the hash contains a NUL |
| DreamDedup.GroupByHash | pkg/dream/analyzer.go:59-79 | Each group lists exactly the hashed rows of its key, in reading order |
| DreamDedup.ProposeGroup | pkg/dream/analyzer.go:94-111 | Every newer member of a group is proposed for removal in favour of its first-read member |
| DreamDedup.ProposeExactDedup | pkg/dream/analyzer.go:87-111 | One proposal for each row that is not first of its group and no other, whatever order the map is walked in; the count of duplicates is the number of proposals |
| DreamDedup.AnySubsetKeepsFirstRead | pkg/dream/analyzer.go:82-86 | Applying any of the proposals leaves unhashed rows untouched and the first-read copy of every (project, hash) live |
| DreamDedup.ApplyingAllLeavesOne | pkg/dream/analyzer.go:82-86 | Applying all leaves exactly one live copy of each (project, non-empty hash), and it is the oldest |
| DreamDedup.DedupKeepsCopies | pkg/dream/consolidator.go:51-91 | One checked deletion, of any proposal at all, keeps a live copy of every text in its project |
| DreamDedup.RunKeepsCopies | pkg/dream/consolidator.go:45-50 | Over every sequence of stored dedup proposals, stale, repeated or wrong ones included, no project loses its last live copy of a text |
| DreamDedup.RunKeepsProjects | pkg/dream/consolidator.go:255-296 | Over every sequence of dedup and merge actions no project loses its last live memory |
| DreamDedup.MergeKeepsCopyExactlyWhen | pkg/dream/consolidator.go:255-296 | A merge leaves a text a live copy if and only if it is refused or a row other than the absorbed one carries the text |
| DreamDedup.MergeRemovesText | pkg/dream/consolidator.go:255-296 | In a table of two live rows of one project with different texts, merging them leaves the absorbed text no live copy |
| DreamDedup.FreshProposalsAllApply | pkg/dream/consolidator.go:104-147 | Fresh proposals pass the check one after the other in any order: the checked run deletes exactly what they name |
| DreamDedup.Ledger.SoftDeleteIfActive | pkg/dream/consolidator.go:28-30 | Tombstones a live memory and reports it; anything else is left alone |
| DreamDedup.Ledger.TryDedup | pkg/dream/consolidator.go:106-147 | Applies one proposal exactly when cap, confidence and safety check allow it, and then deletes only its target |
| DreamDedup.Ledger.Consolidate | pkg/dream/consolidator.go:100-159 | Only live rows become tombstones, as many as reported and at most the cap; every action is counted once as deleted, flagged or skipped; every text keeps a live copy; every memory deleted is named by a dedup action of enough confidence, whose keeper has its hash and project; and the exact table that results |
| DreamDedup.RoomyPassIsTheRun | pkg/dream/consolidator.go:106-118 | With room under the limits a pass does what applying the actions one by one does |
| DreamDedup.FreshPassAppliesAll | pkg/dream/consolidator.go:100-159 | A pass with room over fresh proposals deletes exactly what they name, for every threshold up to one |
| DreamRestore.FindDreamLost | cmd/anchored/restore.go:91-110 | The loop picks the wanted rows, the oldest of each (project, hash) key only |
| DreamRestore.PicksInOrder | cmd/anchored/restore.go:91-110 | The picks are rows of the query in its order, each once |
| DreamRestore.PickedExactlyWhen | cmd/anchored/restore.go:99-107 | A lost row is picked if and only if it is no transcript import or imports are included, and no such row before it has its hash, not an empty one, and project |
| DreamRestore.RemovedStaysRemoved | cmd/anchored/restore.go:74-84 | A text with a row that the user removed, by a tombstone or outside every run and its half hour, is not live after the restore unless it was before |
| DreamRestore.OnlyDreamtComesBack | cmd/anchored/restore.go:62-73 | A row that comes back was proposed, held its content, was deleted during a run or in the half hour after it, and is of a wanted source |
| DreamRestore.PickedForEach | cmd/anchored/restore.go:41-42 | Every wanted row with a hash has a picked row of the same key, no younger |
| DreamRestore.RestoreGivesEachGroupOne | cmd/anchored/restore.go:41-42 | After restoring all picks each picked memory is live, and exactly one memory of its (project, non-empty hash) |
| DreamRestore.BroughtBack | cmd/anchored/restore.go:30-42 | Every wanted lost memory has a live copy after the restore, no younger than itself |
| DreamRestore.StillLost | cmd/anchored/restore.go:62-84 | Restoring makes no memory lost that was not lost before |
| DreamRestore.NothingLeftToRestore | cmd/anchored/restore.go:30-42 | Run a second time, the command finds nothing |
| DreamRestore.RestoreUndoesDream | cmd/anchored/restore.go:18-21 | Whatever proposed memories a run deleted raw, even every copy of a text at once: each text live before, never removed on purpose and of a wanted source is live in its project after one restore, with imported memories included or not |
| DreamRestore.LiveAfterExactlyWhen | cmd/anchored/restore.go:91-110 | A text is live after the restore if and only if it was live before or some lost row that carries it is wanted, so leaving imports out loses exactly the texts that only imported rows carry |
| DreamRestore.DedupedIsNotLost | cmd/anchored/restore.go:70-73 | No copy removed by applying any of today's exact-dedup proposals counts as lost, even when it is deleted raw inside a run: its keeper is live |
| Cosine.Sqrt | pkg/dream/analyzer.go:321-330 | Ten Newton steps from x, zero for x at or below zero |
| Cosine.NewtonIs | pkg/dream/analyzer.go:325-328 | After n steps the square of the iterate is exactly x (1 + e_n), where e_0 is x - 1 and each step takes the relative excess e to e^2 / (4 (1 + e)) |
| Cosine.RelShrinks | pkg/dream/analyzer.go:325-328 | From the first step on the relative excess is not negative and each step divides it by four at least |
| Cosine.RelFollowsSpread | pkg/dream/analyzer.go:325-328 | After any number of steps the excess at y is at least that at x whenever y is as far from one as x or further, upwards or downwards |
| Cosine.NewtonExactOnlyAtOne | pkg/dream/analyzer.go:325-328 | Over exact reals the iterate squares to x if and only if x is one |
| Cosine.CauchySchwarz | pkg/dream/analyzer.go:310-314 | The square of the accumulated dot product is at most the product of the accumulated squared norms, at every iteration |
| Cosine.DotAndNorms | pkg/dream/analyzer.go:309-314 | The loop computes the dot product and both squared norms |
| Cosine.CosineSimilarity | pkg/dream/analyzer.go:305-319 | Computes the score, zero for vectors of different or zero length or of zero norm |
| Cosine.ScoreSymmetric | pkg/dream/analyzer.go:305-319 | The score is symmetric |
| Cosine.ScoreWithinOne | pkg/dream/analyzer.go:305-319 | The score lies in [-1, 1] |
| Cosine.ThresholdSound | pkg/dream/analyzer.go:171-172 | A score of at least t > 0 implies dot > 0 and dot squared at least t squared times both squared norms: the approximate root lets no pair pass that the exact cosine would fail |
| Cosine.ThresholdExactlyWhen | pkg/dream/analyzer.go:171-172 | For t > 0 two vectors score at least t if and only if dot > 0 and dot squared is at least t squared times both squared norms, each enlarged by its excess after ten steps |
| Cosine.SelfScoreExactlyWhen | pkg/dream/analyzer.go:171-172 | A vector reaches t against itself if and only if t times one plus the excess of its squared length is at most one |
| Cosine.SelfScoreFalls | pkg/dream/analyzer.go:171-172 | The further a squared length is from one, upwards or downwards, the lower the vector scores against itself |
| Cosine.IdenticalVectorsCanMiss | pkg/config/config.go:369 | A concrete long and a concrete short vector that miss the default threshold 0.75 against themselves |
| Cosine.ExactOnlyForUnitVectors | pkg/dream/analyzer.go:318 | The score is the exact cosine if and only if the vectors are orthogonal or both have length one |
| ContextGate.NextKeepsBounded | cmd/anchored/context_gate.go:101-162 | Every step of every process keeps denials so far plus the denials still possible, a function of the counter and of what the pending writers hold, within the bound |
| ContextGate.DenialsBounded | cmd/anchored/context_gate.go:278-304 | In every interleaving with at most k invocations between counter read and counter write, at most (k + 1)(k + 2)(k + 3)/6 - 1 are denied, plus one for each failed counter write, although stale writers move the counter back |
| ContextGateWorst.BoundAttained | cmd/anchored/context_gate.go:278-304 | For every k and every number f of failed counter writes some interleaving with at most k between read and write is denied (k + 1)(k + 2)(k + 3)/6 - 1 + f times |
| ContextGate.SequentialDenials | cmd/anchored/context_gate.go:38 | One invocation at a time is denied at most ctxGateMaxDenies times, plus failed writes |
| ContextGateWorst.FailedWritesDenyForever | cmd/anchored/context_gate.go:297-298 | Without the last term the bound is false: when counter writes fail, any number of invocations is denied one after the other |
| ContextGate.NextKeepsLate | cmd/anchored/context_gate.go:112-134 | A process that started after the sentinel existed never gets past the first check, and no step removes the sentinel |
| ContextGate.SentinelPermanent | cmd/anchored/context_gate.go:268-270 | Once the sentinel exists it stays, and no invocation started afterwards is denied, in every run |
| ContextGate.NextKeepsAccounted | cmd/anchored/context_gate.go:127-143 | Every step keeps the account of why counter values, pending credits and the sentinel exist |
| ContextGate.SentinelHasCause | cmd/anchored/context_gate.go:112-134 | The sentinel exists only after a credit, and each credit comes from a satisfying tool call, from a relent after counter writes 1, 2 and 3, or from a recall after the rich marker |
| ContextGateHooks.Markers.ContextGateDecision | cmd/anchored/context_gate.go:101-162 | By session and tool alone: without a session nothing happens; each of the four consulting tools credits the session; any other anchored_ tool is let through with no file changed; every other tool is let through, relented, or denied with the counter raised as the files decide; which of the seven stages is returned in each case; and each does what the protocol's process does when alone |
| ContextGateHooks.ConsultingIsExempt | cmd/anchored/context_gate.go:59-64 | Every tool that satisfies the gate is one of the server's own, so the gate can never bar the way out of itself |
| ContextGateHooks.Markers.MarkSessionStartRichBlock | cmd/anchored/context_gate.go:218-230 | Leaves the rich marker exactly for a known session when directory and write succeed, as the protocol's process does |
| ContextGateHooks.SessionStartAlone | cmd/anchored/context_gate.go:218-230 | A SessionStart process running alone has the stated effect on the files |
| ContextGateHooks.Markers.SatisfyGateFromRecall | cmd/anchored/context_gate.go:240-254 | Credits exactly an uncredited session with the rich marker, as the protocol's recall process does |
| ContextGateHooks.Markers.SatisfyGateFromPostToolUse | cmd/anchored/context_gate.go:173-180 | Credits exactly a satisfying tool of a known session, as the protocol's tool-call process does; it reports true even when the marker could not be written, and changes nothing otherwise |
| ContextGateHooks.WorkAlone | cmd/anchored/context_gate.go:122-142 | A gated tool's process running alone has the stated effect on the files |
| ContextGateHooks.RecallAlone | cmd/anchored/context_gate.go:246-253 | A recall process running alone has the stated effect on the files |
| ContextGateHooks.ToolCallAlone | cmd/anchored/context_gate.go:173-180 | A satisfying call's process running alone has the stated effect on the files |
| Budget.Assemble | pkg/contextbudget/budget.go:53-153 | The output is the selected items' texts joined by newlines and costs at most a positive budget in approximate tokens; the items selected from are the given ones with a text, tier by tier, by priority and then by place, with the given guarantees; texts in the output plus dropped ones is the number of given items with a text; a budget of zero or less gives nothing |
| Budget.ApproxTokens | pkg/contextbudget/budget.go:14-19 | The count is the number of characters divided by four, rounded up, as bounds from both sides |
| Budget.PrepareTiers | pkg/contextbudget/budget.go:55-74 | Keeps the tiers' order and guarantees, arranges each tier's items, and counts those with a text |
| Budget.PreparedIsArranged | pkg/contextbudget/budget.go:61-72 | The prepared items stand at distinct places of the given list, every item with a text and no other, by priority and within a priority by place |
| Budget.FitsExactlyWhen | pkg/contextbudget/budget.go:90-95 | A selection fits if and only if its texts' tokens and one token for each separator between them are within the budget |
| Budget.ChosenAre | pkg/contextbudget/budget.go:138-150 | The texts written are those of the included items, each once, in their order |
| Budget.StableSortLaws | pkg/contextbudget/budget.go:69-72 | The priorities never fall, every item is kept, and the given order stands within a priority |
| Budget.Charge | pkg/contextbudget/budget.go:90-95 | An item is taken exactly when its cost with separator fits, and the ledger of remaining budget stays exact |
| Budget.ReserveTier | pkg/contextbudget/budget.go:98-116 | Pass 1 on one tier takes the fitting items in order until MinItems are reserved |
| Budget.ReserveTiers | pkg/contextbudget/budget.go:97-116 | Pass 1 over all tiers, with the ledger exact at its end |
| Budget.FillTier | pkg/contextbudget/budget.go:119-133 | Pass 2 on one tier takes every further item that fits |
| Budget.FillTiers | pkg/contextbudget/budget.go:118-133 | Pass 2 over all tiers |
| Budget.RenderTier | pkg/contextbudget/budget.go:138-150 | Writes one tier's included texts behind what is there and counts the rest as dropped |
| Budget.Render | pkg/contextbudget/budget.go:135-152 | Joins all included texts with newlines and counts the others as dropped |
| Budget.ReserveGreatest | pkg/contextbudget/budget.go:98-116 | Pass 1 makes the lexicographically greatest of all fitting selections that take at most MinItems from each tier, whether or not the guaranteed items fit together |
| Budget.SelectionGreatest | pkg/contextbudget/budget.go:41-46 | Among all fitting selections that keep the reservation, pass 2 makes the lexicographically greatest in tier-then-priority order; no dropped item would still fit |
| Budget.GuaranteeExactlyWhen | pkg/contextbudget/budget.go:32 | All guaranteed items are included if and only if they fit together |
| Budget.ReservePrefix | pkg/contextbudget/budget.go:98-116 | Pass 1 on the first tiers does not depend on the tiers behind them |
| Budget.ChosenTokens | pkg/contextbudget/budget.go:14-19 | Tokens of the joined output are at most the sum of what its items and separators were charged |
| Budget.HigherTiersKeepExactlyWhen | pkg/contextbudget/budget.go:47 | Higher tiers lose nothing to lower ones if and only if what they would take alone fits beside the lower tiers' reservation |
| Budget.HigherTierCanLose | pkg/contextbudget/budget.go:47 | Concrete tiers in which a lower tier's guaranteed item pushes out a higher tier's item, against the documented rule |
| Chunker.SplitOversized | pkg/context/chunker.go:225-262 | Terminates on every input; every chunk is within maxBytes; the non-space bytes of the chunks are those of the content in order |
| Chunker.AddParagraph | pkg/context/chunker.go:237-254 | The loop body: flushes, hard-splits or glues one paragraph |
| Chunker.HardSplit | pkg/context/chunker.go:264-284 | A paragraph that is not overlong stays whole; another is cut, from its beginning to its end, each time behind the last newline of the next maxBytes bytes but the first, else so behind the last space, else after maxBytes bytes, and the pieces are trimmed |
| Chunker.HardPartsAreCut | pkg/context/chunker.go:264-284 | The same from any place on, with the cuts named |
| Chunker.WordCutOnlyWhen | pkg/context/chunker.go:271-276 | A word is cut only after maxBytes bytes among which there is, behind the first, neither a newline nor a space |
| Chunker.CutIsRight | pkg/context/chunker.go:271-276 | The computed cut is where those rules put it |
| Chunker.HardSplitLaws | pkg/context/chunker.go:264-284 | Pieces are within maxBytes and keep every non-space byte in order |
| Chunker.PackWithin | pkg/context/chunker.go:231-259 | Every chunk the packing emits is within maxBytes |
| Chunker.PackKeeps | pkg/context/chunker.go:231-259 | The packing keeps the non-space bytes of its paragraphs in order |
| Chunker.PackAround | pkg/context/chunker.go:237-244 | An overlong paragraph is split by itself: what stands before it is packed as if nothing followed, and what stands behind it as if nothing had gone before |
| Chunker.CleanIs | pkg/context/chunker.go:231-235 | The paragraphs packed are those that are not blank, trimmed, each once and in order |
| Text.SplitHasNone | pkg/context/chunker.go:226 | No paragraph contains the blank line that separates them |
| Text.TrimSpaceIs | pkg/context/chunker.go:232 | Trimming takes away the white space at both ends and nothing else |
| Chunker.PackMinimal | pkg/context/chunker.go:246-254 | No in-order grouping of the same paragraphs into blocks within maxBytes has fewer blocks |
| Chunker.SplitIsOptimal | pkg/context/chunker.go:225-262 | When no paragraph is overlong the chunks are such a grouping themselves, and none is smaller |
| Chunker.PiecesMakeUp | pkg/context/chunker.go:264-284 | Before trimming, the pieces of a paragraph joined together are the paragraph |
| Chunker.EmptyChunkExactlyWhen | pkg/context/chunker.go:264-284 | A chunk is empty if and only if some overlong paragraph is cut into a piece of white space only |
| Chunker.SingleSpacesMakeNone | pkg/context/chunker.go:264-284 | From two bytes on, a trimmed paragraph without adjacent white space is cut into no such piece |
| Chunker.BlankChunk | pkg/context/chunker.go:264-284 | A concrete paragraph whose splitting yields an empty chunk |
| RawContent.SplitRawContent | pkg/context/indexer.go:174-213 | The parts hold the non-empty lines of the input in order, none lost or repeated; every part is within the limit or is one whole line; and for longer input they are the parts of an in-order grouping of the lines into blocks that, behind leading blank lines, fit the limit or are one line, and no such grouping has fewer |
| RawContent.FillMinimal | pkg/context/indexer.go:186-206 | No such grouping has fewer parts that are not blank |
| RawContent.FillGroups | pkg/context/indexer.go:186-210 | The parts are those of such a grouping, trimmed of newlines at the end |
| RawContent.StripIs | pkg/context/indexer.go:202-206 | What an empty buffer swallows is leading blank lines alone |
| RawContent.AddLine | pkg/context/indexer.go:186-206 | The loop body: flushes before an overflow, emits an overlong line whole, else glues the line |
| RawContent.FillKeepsLines | pkg/context/indexer.go:186-210 | The loop keeps every non-empty line in order |
| RawContent.LimitHoldsExactlyWhen | pkg/context/indexer.go:172-173 | The documented limit holds for every part if and only if no line exceeds it |
| RawContent.PartsNotEmpty | pkg/context/indexer.go:107-110 | No part is empty, so nothing the loop emits is skipped on insertion |
| Proximity.FindAll | pkg/context/searcher.go:279-288 | Lists every offset of a term, overlapping ones included, in increasing order |
| Proximity.FindTermPositions | pkg/context/searcher.go:277-291 | The map holds exactly the terms that occur, each with all its offsets |
| Proximity.GatherEntries | pkg/context/searcher.go:116-121 | One entry per position of a term, whatever order the map is walked in |
| Proximity.Sweep | pkg/context/searcher.go:127-150 | The sweep finds the shortest window of entries with all terms, or more than the number of entries |
| Proximity.Shrink | pkg/context/searcher.go:139-149 | The inner loop leaves a window that misses a term and has recorded the best span on the way |
| Proximity.ComputeMinSpan | pkg/context/searcher.go:107-156 | A non-zero answer is the true minimum window and at most the number of entries; zero means that no window that short exists |
| Proximity.MinSpanUnique | pkg/context/searcher.go:104-106 | The true minimum is unique, so neither map order nor the order of equal positions shows |
| Proximity.SpanInText | pkg/context/searcher.go:67-69 | Both functions together: the span is the shortest window of the text in which every term starts, or zero when that is longer than the number of occurrences |
| Proximity.WindowOverText | pkg/context/searcher.go:277-291 | Counting terms in a window of positions is the same as every term starting in that window of the text |
| Proximity.BoostFalls | pkg/context/searcher.go:90-103 | The boost is 1.5 at span one only, falls by 0.02 a character, never rises with the span and is 1 from 26 on |
| Proximity.BoostLostExactlyWhen | pkg/context/searcher.go:91-102 | A text loses the boost its shortest window earns if and only if that window is longer than the number of occurrences and shorter than 26 |
| Proximity.DistantTermsScoreNothing | pkg/context/searcher.go:129 | Two terms ten apart: the true minimum is 11 with two positions, so the sweep answers 0 |
| Snippets.FindAllTermPositions | pkg/context/searcher.go:293-308 | Lists exactly the offsets at which some term occurs |
| Snippets.DensestClusterCenter | pkg/context/searcher.go:202-226 | Returns the smallest position among those with the most positions within the window size |
| Snippets.NearIs | pkg/context/searcher.go:213-220 | The count is the number of positions at most the window away from the center |
| Snippets.NearPermuted | pkg/context/searcher.go:206 | The count around a center does not depend on the order of the positions, so sorting them first changes nothing |
| Snippets.WordStart | pkg/context/searcher.go:236-246 | Moves back over the word only, to a word boundary |
| Snippets.WordEnd | pkg/context/searcher.go:248-255 | Moves on over the word only, and stays when no space follows |
| Snippets.SnapToWords | pkg/context/searcher.go:228-262 | The excerpt contains the window, cuts no word at its beginning, and cuts one at its end if and only if the window does and no space follows |
| Snippets.LastWordCanBeCut | pkg/context/searcher.go:248-255 | A concrete content whose last word is cut |
| Snippets.Excerpt | pkg/context/searcher.go:174-199 | The window is maxLen long, inside the content and around the center; ellipses stand where it does not reach the ends |
| Snippets.GenerateSnippet | pkg/context/searcher.go:158-200 | Short contents are returned whole; otherwise the excerpt is around the densest cluster of all term positions, or from the start when no term occurs |
| ChunkTables.InsertConsistent | pkg/context/migration.go:107-109 | An insert keeps references, keys and index consistent if and only if its artifact is stored |
| ChunkTables.DeleteConsistent | pkg/context/migration.go:111-113 | Deleting any rows keeps them consistent: the trigger takes out exactly the removed rows' postings |
| ChunkTables.UpdateConsistent | pkg/context/migration.go:115-118 | Updating a row's content keeps them consistent: the trigger exchanges exactly that row's postings |
| ChunkTables.NewArtifactConsistent | pkg/context/migration.go:21 | A new artifact with a new hash keeps one artifact per non-empty hash |
| ChunkTables.PruneArtifactConsistent | pkg/context/artifact.go:274-281 | Deleting an artifact after its chunks leaves no dangling reference |
| ChunkTables.RunConsistent | pkg/context/migration.go:98-118 | Over every sequence of artifact additions, chunk inserts, updates, deletions and prunes: at most one artifact per hash, every chunk's artifact is stored, and the trigger-kept postings equal the index rebuilt from the rows, with reused rowids and for every tokenizer |
| EvictedContent.EvictedContentIsNotIndexedAgain | pkg/context/artifact.go:46-56 | From the empty store, for every content: added, all its parts are stored; evicted, the artifact is left without a row; added again, nothing is stored |
| EvictedContent.StoredExactlyWhen | pkg/context/artifact.go:43-151 | Adding content makes every part of it a row of the artifact that has its hash if and only if no artifact had the hash before or the parts were rows of that one already |
| EvictedContent.OrphanEndsExactlyWhen | pkg/context/artifact.go:242-287 | An operation leaves an artifact without rows as it is if and only if it is not a prune at or after its time |
| EvictedContent.OrphanedUntilPruned | pkg/context/artifact.go:46-56 | Over every sequence of operations up to such a prune the artifact stays without rows and adding its content does nothing |
| EvictedContent.CycleOrphansExactlyWhen | pkg/context/eviction.go:51-75 | An eviction cycle leaves an artifact without its rows by their age if and only if the content was added without a time to live and the default one has passed, or it runs in the one second in which the time to live ends |
| EvictedContent.LostForGood | pkg/context/artifact.go:60-92 | Content added without a time to live is lost for good once the default one has passed: over every later sequence of operations, adding it again stores nothing |
| ChunkStore.Store.InsertChunk | pkg/context/store.go:106-119 | Inserts the row with its postings; a used id changes nothing; the store stays valid if and only if the artifact is stored |
| ChunkStore.Store.DeleteWhere | pkg/context/migration.go:111-113 | A DELETE with the row trigger keeps exactly the other rows and their postings |
| ChunkStore.Store.DeleteChunks | pkg/context/store.go:140-162 | Removes exactly the rows with the given ids |
| ChunkStore.Store.GetExpiredChunkIDs | pkg/context/store.go:165-181 | The ids of the chunks whose time to live has passed, in row order |
| ChunkStore.Store.GetTotalSize | pkg/context/store.go:184-191 | The sum of what SQLite's LENGTH counts of the contents, each up to its first NUL |
| ChunkStore.Store.FindByHash | pkg/context/artifact.go:46-56 | Finds an artifact with the hash if there is one |
| ChunkStore.Store.AddArtifact | pkg/context/artifact.go:43-151 | Existing content changes nothing and returns its artifact; otherwise the artifact is stored and its non-empty parts, or the raw content, are indexed under it; a failed insert leaves what came before. It succeeds if and only if hash and id are new and so are the ids of the non-empty parts; then each part is a row under its own id, stamped with the time in UTC, for the given hours, else the default ones, else two weeks. When it does not fail, all parts are rows of the returned artifact if and only if no artifact had the hash or they were before |
| ChunkStore.Store.InsertAll | pkg/context/artifact.go:105-129 | Inserts the non-empty parts in turn up to the first that fails; none fails if and only if their ids are new and distinct |
| ChunkStore.Store.ExpiredArtifactIDs | pkg/context/artifact.go:245-262 | The ids of the artifacts whose time has come |
| ChunkStore.Store.PruneExpired | pkg/context/artifact.go:244-287 | Deletes exactly the expired artifacts, each after its chunks, and counts them |
| ChunkStore.PruneLeaves | pkg/context/artifact.go:242-244 | Pruning keeps the unexpired artifacts and exactly the chunks whose artifact is still stored |
| ChunkStore.DeleteExpired | pkg/context/eviction.go:65-73 | Deleting the expired ids removes just the expired rows, as many as there are ids |
| ChunkStore.Evictor.PickOldest | pkg/context/eviction.go:96-118 | Picks a shortest prefix of the rows by stored time that frees enough |
| ChunkStore.Evictor.EvictLRU | pkg/context/eviction.go:95-131 | The total ends at or below the cap, the evicted rows are those of the earliest stored times, and keeping the last one evicted would have left the store above the cap |
| ChunkStore.AgeOrderExactlyWhen | pkg/context/eviction.go:94-97 | Every order by the stored times is one by age if and only if no row is older than one whose stored time is not later, so within one time zone it always is |
| ChunkStore.YoungerEvictedFirst | pkg/context/eviction.go:97 | A concrete pair of rows from two time zones of which the younger is evicted |
| ChunkStore.EvictionResult | pkg/context/eviction.go:94-131 | Deleting the picked ids has these three effects |
| ChunkStore.Evictor.ExpireChunks | pkg/context/eviction.go:65-75 | No expired chunk remains, every other stays, and the count is right |
| ChunkStore.Evictor.EnforceCap | pkg/context/eviction.go:77-89 | With a positive cap the store ends within it by evicting in the order of stored times; without one nothing changes |
| ChunkStore.Evictor.RunEviction | pkg/context/eviction.go:53-92 | One cycle's whole effect on artifacts and chunks, and its count |
| ChunkStore.CycleLeaves | pkg/context/eviction.go:51-53 | After a cycle the total is within the cap, nothing expired is left, and each row that went was expired, belonged to an expired artifact, or was evicted and has a stored time no later than any that stayed |
| ChunkStore.CountExactlyWhen | pkg/context/eviction.go:51-92 | The number a cycle reports is that of the chunks it deleted if and only if as many artifacts were pruned as chunks went with them |
| ChunkStore.CountMissesChunks | pkg/context/eviction.go:55-63 | An expired artifact with two chunks counts as one |
| ChunkStore.SizeInBytesExactlyWhen | pkg/context/store.go:62 | The size held against the cap is at most the number of bytes, and is that number if and only if no content holds a NUL or a character of more than one byte |
| ChunkStore.BytesWithinCap | pkg/context/eviction.go:17 | With characters of at most four bytes, the bytes before the first NULs are at most four times the cap; without NULs all bytes are |
| ChunkStore.NulHidesAll | pkg/context/eviction.go:97 | A content of any size that begins with a NUL counts nothing and stays under every cap |
| ChunkStore.CapExceededInBytes | pkg/context/eviction.go:97 | A concrete content of two bytes that a cap of one byte does not evict |
| Routing.GlobLiteralLen | pkg/config/config.go:563-580 | The loop counts the literal characters of the pattern |
| Routing.GlobEscape | pkg/config/config.go:637-646 | The loop quotes every metacharacter |
| Routing.EscapedPrefix | pkg/config/config.go:636-646 | A pattern that begins with an escaped string matches exactly the paths that begin with the string and whose rest the rest matches |
| Routing.EscapedMatchesOnlyItself | pkg/config/config.go:636 | An escaped string matches itself and nothing else |
| Routing.LiteralsAtMostMatched | pkg/config/config.go:561-562 | A class-free pattern has at most as many literals as what it matches has characters |
| Routing.EscapedIsAllLiteral | pkg/config/config.go:561-562 | An escaped string is class-free and attains that bound |
| Routing.VariantFollowsLink | pkg/config/config.go:608-631 | The variant under the resolved directory matches a path behind the link if and only if the pattern matches the same path before it, whatever characters the resolved directory contains |
| StringOrder.BelowExactlyWhen | pkg/config/config.go:552-559 | The order of the names is decided at the first byte where they differ, and a proper prefix comes first |
| Routing.RemoteNames | pkg/config/config.go:552-559 | All configured names, strictly sorted, whatever the map order |
| Routing.DefaultRemoteNames | pkg/config/config.go:541-549 | Exactly the names marked default, strictly sorted |
| Routing.DefaultRemote | pkg/config/config.go:529-537 | The first default by name, or none when there is no default |
| Routing.GlobMatchAny | pkg/config/config.go:594-606 | Some variant of the pattern matches some directory |
| Routing.ResolveRemoteWithPattern | pkg/config/config.go:508-525 | If some pattern routes the path, by itself or under its resolved directory, returns the one that beats all others by literal length, then name, then place in the list, with its remote; else the default remote and no pattern |
| Routing.RouteIsUnique | pkg/config/config.go:491-496 | There is at most one such pattern, so map order cannot show |
| Routing.RouteExists | pkg/config/config.go:508-525 | When any pattern routes the path there is such a winning pattern |
| Overreach.OverreachesExactlyWhen | pkg/config/config.go:563-631 | A class-free glob matches some clean path that has fewer characters than the glob has literals if and only if the directory it names is resolved and its literals outnumber the characters of the shortest clean path that it matches under the resolved directory |
| Overreach.LongerTargetIsSafe | pkg/config/config.go:608-631 | A glob whose directory resolves to a path no shorter than it is written has no such match |
| Overreach.ListedIsNotOutdone | pkg/config/config.go:491-496 | When no configured class-free glob overreaches so, and no directory of the path is longer than the one that a remote lists, escaped, the route has as many literals as that directory has characters |
| Overreach.NeverOutdoneExactlyWhen | pkg/config/config.go:491-496 | For every configuration of class-free globs: a further remote that lists a path's longest directory, escaped, is never outdone, whatever the path and its directories, if and only if no configured glob overreaches |
| Overreach.ListedDirectoryOutdone | pkg/config/config.go:608-631 | A concrete link and two concrete remotes where a wildcard through the link routes the path away from the remote that lists its directory by name |
| Overreach.DottedNameOutdoes | pkg/config/config.go:620-631 | Without any link: every directory listed by its name is outdone by the same name with a dot component in front |
| Overreach.DottedDirectory | pkg/config/config.go:620-631 | The same at a concrete directory |
| FlagArgs.ReorderArgsForFlag | cmd/anchored/helpers.go:137-170 | The loop returns the flag arguments, with their values, before all positionals |
| FlagArgs.ReorderedParsesAnywhere | cmd/anchored/helpers.go:132-136 | For every list without a bare dash or double dash, Go's parser on the reordered list makes the settings, or reports the first error, of reading flags wherever they stand, and leaves all positionals in order |
| FlagArgs.BareDashEndsTheFlags | cmd/anchored/helpers.go:132-136 | With a bare dash or double dash exactly the flags before it are read and the later ones stay among the remaining arguments |
| FlagArgs.FlagBehindBareDashIsLost | cmd/anchored/helpers.go:141-148 | A concrete list in which a flag after a bare dash is not read |
| FlagArgs.KeepsSettingsExactlyWhen | cmd/anchored/helpers.go:132-136 | Reordering a list that Go's parser reads to its end keeps its settings if and only if the parser takes no dashed argument as a flag's value, and then leaves the list as it is |
| FlagArgs.NegativeValueIsLost | cmd/anchored/helpers.go:161-167 | A concrete list in which a negative number given to a flag becomes a flag of its own |
| FlagArgs.ReorderIsIdempotent | cmd/anchored/helpers.go:137-170 | Reordering a reordered list changes nothing, for every list |
| FlagArgs.SameName | cmd/anchored/helpers.go:149-150 | The name looked up is the name Go's parser reads, for every argument with one or two dashes |
| ShellQuoting.QuoteIsOneWord | pkg/context/sandbox.go:372-374 | A shell reads the quoted string as one word, the string itself, if and only if it holds no NUL |
| ShellQuoting.QuoteReads | cmd/anchored/self_update.go:474-479 | A quoted string adds exactly itself to the word being read, wherever it stands |
| ShellQuoting.BareIsOneWord | cmd/anchored/self_update.go:497-500 | An unquoted text without characters whose meaning depends on their place is read as itself if and only if it is not empty, nothing in it is special and it holds no NUL |
| ShellQuoting.SelfUpdateFlags | cmd/anchored/self_update.go:483-502 | Writes exactly the intended flags, quoting the config path and leaving the version bare and last |
| ShellQuoting.HintIsTheCommand | cmd/anchored/self_update.go:469-472 | For a version without such characters a shell reads the sudo hint as exactly the intended command if and only if nothing in the version is special and no argument holds a NUL |
| ShellQuoting.OverrideIsTheCommand | cmd/anchored/self_update.go:517-519 | The same for the override command |
| ShellQuoting.CheckedTagIsPlain | pkg/updater/check.go:141-149 | A tag that passes the shape check holds no special and no place-dependent character and is read as itself |
| RetryCommand.FlagsKeepOptions | cmd/anchored/self_update.go:481-502 | The flags rebuilt from a run's options are parsed by self-update's flag set to exactly these options, whatever the config path and the version are |
| RetryCommand.OverrideKeepsOptions | cmd/anchored/self_update.go:512-520 | The override command, read by a shell and then by the flag parser, forces the pinned version and keeps the config path and the choice about the plugin |
| Rerank.StableSort | cmd/anchored/hook_userpromptsubmit.go:667-678 | The array ends as the insertion sort of its old contents |
| Rerank.InsertRound | cmd/anchored/hook_userpromptsubmit.go:669-677 | One round places its element behind the last that it does not go ahead of, and moves nothing else |
| Rerank.SortedPermutes | cmd/anchored/hook_userpromptsubmit.go:665-666 | The sort returns its input rearranged, higher score first and the earlier of equals first |
| Rerank.ScoreAll | cmd/anchored/hook_userpromptsubmit.go:626-645 | Each hit scores n - i, times 1.3 when its text contains a token |
| Rerank.ReRankHits | cmd/anchored/hook_userpromptsubmit.go:602-655 | The result is the hits rearranged by the ranking; without tokens they are returned unchanged |
| Rerank.OvertakesExactlyWhen | cmd/anchored/hook_userpromptsubmit.go:599-601 | A later hit j comes before an earlier one i if and only if only j is boosted and 1.3 (n-j) > n-i; so boosted hits keep their order, and so do the others |
| Rerank.BoostedExactlyWhen | cmd/anchored/hook_userpromptsubmit.go:626-634 | A hit is boosted if and only if one of the tokens occurs in its lower-cased text |
| Rerank.TokensOvertakeExactlyWhen | cmd/anchored/hook_userpromptsubmit.go:599-601 | The overtaking told of the hits' texts |
| Rerank.RankingUnique | cmd/anchored/hook_userpromptsubmit.go:665-666 | There is only one ranking, so the order is determined by boosts and search order |

## Left out

- Budget.Assemble: the optional Signals of an item are not carried along; text is counted in characters.
- ContextGate.DenialsBounded: a counter file that holds a negative number, which only an edit of it can leave, is excluded; the seven-day marker sweep is not modelled; runs are shorter than the marker lifetime, and one session has one marker name (sanitizeSessionID is not modelled).
- DreamDedup.Ledger.Consolidate: database errors, the marking of applied actions and the synthesize and supersede actions are not modelled; a merge only deletes its absorbed memory.
- DreamDedup.AnySubsetKeepsFirstRead: assumes hashes without a NUL, as hexadecimal digests are; `DreamDedup.NulInHashCollides` shows why.
- DreamDedup.FreshProposalsAllApply: assumes that no memory has the empty id, which the check would refuse as a keeper.
- DreamRestore.FindDreamLost: the query is a predicate over the tables; julianday arithmetic is integer seconds, and rows of one creation time come in any order.
- Cosine.CosineSimilarity: float32 inputs and float64 rounding are not modelled.
- ChunkStore.Evictor.RunEviction: no database errors and no writers beside the cycle.
- ChunkTables.RunConsistent: the session, project, label and metadata columns are not carried along; the update operation is there for its trigger, since only a test of the repository updates a chunk.
- Chunker.SplitOversized: a byte that is not ASCII white space counts as non-space.
- Proximity.SpanInText: terms are distinct and not empty, as extractTerms makes them.
- Snippets.GenerateSnippet: a maximal length of zero or less is not modelled; the only caller passes 300.
- Routing.ResolveRemoteWithPattern: the path's candidate directories and the resolution of symlinks are parameters; the walk to the repository root is not modelled.
- Routing.LiteralsAtMostMatched: patterns with a [...] class are not covered, here and in Overreach; the other glob results hold whatever a class means.
- FlagArgs.ReorderedParsesAnywhere: the texts of error messages, and what a flag does with its value beyond accepting or refusing it.
- ShellQuoting.HintIsTheCommand: expansions, operators and comments are not interpreted; a text that contains any is read as no command. Characters that are special only in some places (* ? [ # ~) are excluded by hypothesis, and what shells add to the standard, as brace and history expansion, is not covered.
- Rerank.ReRankHits: the file_anchor and working_set labels put on hits are not modelled.
- The sampled near-duplicate and contradiction tiers of Analyze: random shuffles around the cosine that is modelled.
- proximityRerank: a stable sort by a product; only its boost is modelled.
- SearchChunks, SearchArtifacts, ListArtifacts and the other queries of the store: reads without a state of their own.
- The Markdown walk of the chunker, full-text ranking, embeddings, git, HTTP and the codecs: foreign code.
- Dashboard, registration, synchronisation, self-update, migration and the server loop: input and output around the cores above.
