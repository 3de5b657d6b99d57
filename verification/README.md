# Memory graph: verified models of its merge, index, audit and import cores

The repository keeps engineering memory as a graph of content-addressed nodes and typed edges.
Agents and people sign what they assert, gateways relay it, replicas exchange it, an index finds it
again, and every access is checked against a signed grant and written to a hash-chained audit log.
This project models the parts where a mistake would be silent and proves what they are for.

| area | modules | what is established |
|---|---|---|
| Node join | `Sorting`, `Core`, `Join`, `JoinFields` | merging is a join up to the order of anchors: order and repetition of copies do not matter, corrections and contradictions survive; which copy decides each field |
| Author-gated merge | `Store`, `Diff`, `DiffEffects`, `DiffRuns`, `DiffReplay`, `FrontRun`, `Signed`, `Verdicts` | over every run of merges: only an item's author changes it, nothing unsigned gets in, supersessions stay acyclic, replays change nothing but the order of anchors; exactly when relays that go first alter an author's node, and exactly when they can have a diff refused |
| Vector index | `HnswGraph`, `HnswSearch`, `HnswSelect`, `HnswLink`, `HnswIndex`, `BruteForce` | what beam search returns, what an insertion links, the graph invariant, and when the answer is exact |
| Audit log | `Audit`, `Framing` | against a head only the committed chain opens, or an empty one if the log file is gone; crashes at any point lose nothing acknowledged |
| Grants | `Framing`, `Identity`, `Layout`, `Text`, `Grant`, `Attenuation` | preimages are uniquely decodable and read back field by field; exactly when attenuation is intersection |
| Chunker | `Text`, `Tiling`, `Headings`, `Chunker` | chunks tile the text, are cut only where allowed and are never cut short; exactly which lines are fences and headings |
| Corpus import | `EdgeMerge`, `Import`, `ImportOrder`, `Resume`, `Corpus`, `CorpusClash` | exactly when interrupted imports converge; what a verified corpus can touch, and exactly when it contradicts or re-labels a stored node or edge |
| Gateway limits, dates | `Limits`, `Civil` | exactly which calls are granted, in-flight count; the Gregorian calendar |

Code that changes things in place is modelled in place: the DAG store, the HNSW index, the audit
chain and its files, the gateway limits and the import target are classes, and their loops are
loops. Each such method is proved to compute a specification function or predicate, and the
theorems are about that specification.

## How the model is set up

* Hashes are ideal. A node id *is* the tuple of its identity fields, an audit hash *is* the record it
  was taken of. The byte-level half of that assumption is proved: `Identity.PreimageDeterminesIdentity`,
  `Framing.RecordPreimageInjective`, `Identity.KeyDeterminesEdge`.
* Signatures are a parameter. The merge takes an arbitrary verdict function, so its theorems hold for
  any scheme; grants use a scheme whose own signatures verify.
* Clocks are parameters. Strings and byte strings are sequences of numbers (their UTF-8 bytes), except
  in the chunker, where text is a sequence of Unicode scalar values with their UTF-8 widths.
* Embeddings are compared by bit pattern and similarities are integers, because `total_cmp` orders f32
  values as integers; NaN and -0.0 do not occur. Token amounts are exact reals.

## What the proofs found

* **A relayed supersession gets in.** The merge documents that a new load-bearing edge relayed by
  someone other than its asserter is refused (crates/mem-assert/src/lib.rs:420-422). A load-bearing
  `Supersedes` edge leaves the loop before that check, so it is accepted when the caller wrote the
  superseded node (or when the target is unknown, and then it fails as a missing node).
  `DiffEffects.RelayedEdgeIsRefused` gives the exact condition, `RelayedSupersessionIsStored` the case,
  `LoadBearingArrivals` what does hold.
* **A corpus can contradict.** The import documents that a corpus can never contradict anything stored
  (crates/mem-corpus/src/import.rs:11-13). Its shape rules do not look at confidence, of nodes or of
  edges, so a verified corpus turns a stored True into Both (`CorpusClash.CorpusCanContradict`,
  `CorpusClash.CorpusCanRelabelLink`). `CorpusClash.ContradictsExactly` gives the condition: some
  dimension of a stored node or edge where stored and brought evidence together are for and against.
  With every id brought once that is one brought copy opposing the stored one
  (`CorpusClash.OneCopyClashes`).
* **A corpus can re-label.** Nor do the rules look at an edge's tier, or at a node's anchors and times. A
  stored link the corpus brings again loses its quarantine and can have its tier and provenance
  replaced (`CorpusClash.LinksExactly`); a stored node it brings again can gain anchors and move back
  in time (`CorpusClash.NodesExactly`).
* **A relay can contradict an author.** A relay that goes first leaves an author's node as a direct insert
  would, up to signature choice and times, if and only if the author's copy asserts the claim and has
  its anchors in order (`FrontRun.JoinOverRelay`). An author who stores the claim as false finds it
  contradictory once someone has relayed it as asserted (`FrontRun.RelayContradictsAuthor`).
* **An author's diff can be blocked.** The author's own nodes are never refused. But a diff also carries
  edges and relayed nodes, and is refused whole: a stored proposal under the key of the author's edge
  is enough (`FrontRun.ProposalBlocksEdge`). `FrontRun.RefusedAfterRun` gives the exact condition.
* **A proposal on an unknown node is unchecked.** The rule that a proposal contesting someone else's
  node must be signed by the caller, be current and leave its inserter on record
  (crates/mem-assert/src/lib.rs:410-412, 518-539) is applied only if the target is already known.
  Stored before its target, a proposal of anyone's signature and any time stays
  (`DiffEffects.UnknownTargetIsUnchecked`, `DiffRuns.LateTargetIsContested`); over any run the facts hold
  if and only if the target was stored when the proposal was last written (`DiffRuns.ContestedRows`).
* **A replay can still sort anchors.** A first insert stores anchors as they come; the next merge sorts
  them. Replay and self-merge are identities exactly when the inserted anchors were canonical
  (`DiffReplay.Replay`, `DiffReplay.RejectedReplay`, `Join.SelfMerge`). An interrupted import leaves no
  trace exactly when no pending node that is new and written once has unordered anchors
  (`Resume.ResumesExactly`).
* **A log can be stranded.** A crash between creating the log and writing its first head leaves an
  empty log that never opens again (`Audit.StrandedStaysStranded`); it is the only such state
  (`Audit.CrashThenReopen`).
* **A deleted log is not noticed.** With the log file gone, opening starts an empty chain and writes its
  head over the one that committed to records (`Audit.DeletedLogOpensEmpty`). Every other disk with
  that head is refused unless it holds the committed chain and at most one linked record more
  (`Audit.OnlyTheCommittedChainOpens`).
* **The replica edge merge is not quite commutative.** Two edges that tie in everything the merge
  compares, one with an absent evidence or signature and one with an empty one, each keep their own
  side (`EdgeMerge.EdgeMergeCommutes`, `EdgeMerge.EdgeMergeKeepsSides`). Sequences of merges over the same copies
  agree in every order exactly when no two least copies differ so (`EdgeMerge.EveryOrderConverges`).
* **Attenuation re-signs.** With no tenants named, attenuating a grant that does not verify, and is neither
  revoked nor expired, yields one that works (`Attenuation.AttenuationResigns`); in every other case
  attenuation is intersection (`Attenuation.IntersectionExactly`). Every minted grant verifies.

## Model

| member | source | states |
|---|---|---|
| `Join.UnionSpec` | crates/mem-assert/src/join.rs:93-104 | the anchor union is sorted, duplicate-free and holds exactly the anchors of both sides |
| `Join.UnionIsJoin` | crates/mem-assert/src/join.rs:93-104 | the anchor union commutes and associates, and is idempotent exactly on canonical lists |
| `Join.ConfidenceIsJoin` | crates/mem-core/src/belnap.rs:28-75 | the dimension-wise confidence join is idempotent, commutative and associative for vectors of any lengths |
| `Join.MergeCommutes` | crates/mem-assert/src/join.rs:108-143 | merging two copies of one id gives the same node in both orders, tie-breaks included |
| `Join.MergeAssociates` | crates/mem-assert/src/join.rs:108-143 | merging associates, for any three nodes |
| `Join.SelfMerge` | crates/mem-assert/src/join.rs:108-143 | merging a node with itself is the identity if and only if its anchors are canonical |
| `Join.Convergence` | crates/mem-assert/src/join.rs:108-143 | two merge sequences over the same set of copies, in any order and with any repetition, agree up to anchor order, and are equal if and only if both or neither left the anchors canonical |
| `Join.MergeIsMonotone` | crates/mem-assert/src/join.rs:14-143 | status rank never falls, a contradiction never disappears, trust only falls, anchors are exactly the union, and the reported count is the number of newly contradictory dimensions |
| `JoinFields.MergedStanding` | crates/mem-assert/src/join.rs:119-129 | the higher of Superseded over Active and Archived over both decides status and end of validity; at equal status the end is the least one stated, none only if neither states one |
| `JoinFields.FoldedStanding` | crates/mem-assert/src/join.rs:119-129 | after any sequence of merges the status is the highest any copy had and the end the least one stated by a copy of that status |
| `JoinFields.MergedTrust` | crates/mem-assert/src/join.rs:33-52 | the tier kept is inferred if either is, else agent-asserted, else human-confirmed, else derived |
| `JoinFields.MergedSignature` | crates/mem-assert/src/join.rs:75-89 | whichever side has a signature; of two the one whose bytes come first |
| `JoinFields.MergedEmbedding` | crates/mem-assert/src/join.rs:54-73 | whichever side has an embedding; of two the one first by model name and then by bits |
| `JoinFields.MergedTimes` | crates/mem-assert/src/join.rs:138-139 | each time is the earlier of the two, and the identity fields are as they were |
| `JoinFields.MergedConfidence` | crates/mem-assert/src/join.rs:111-117 | in each dimension the evidence of both sides, a missing one holding none, and opposite evidence being contradictory |
| `JoinFields.MergedAnchors` | crates/mem-assert/src/join.rs:91-101 | the anchors of both sides, each once, by repository, path, symbol and lines, an absent symbol first |
| `Sorting.SortIsStable` | crates/mem-assert/src/join.rs:97-98 | the sort behind it is a rearrangement that keeps the order of ties |
| `Store.MemoryDagStore.ReachableVia` | crates/mem-store/src/lib.rs:680-698 | the breadth-first search returns exactly the nodes reachable by one or more edges of the kind, without the start |
| `Store.MemoryDagStore.WouldCycleSupersedes` | crates/mem-store/src/lib.rs:700-703 | true exactly when a path of supersessions leads back from target to source |
| `Store.MemoryDagStore.Supersede` | crates/mem-store/src/lib.rs:772-818 | every rejection in order and without a write; otherwise the edge is stored and an Active target is retired with a validity that does not end before it began |
| `Verdicts.SupersessionVerdict` | crates/mem-store/src/lib.rs:772-818 | each rejection with its exact condition in order; else the edge is stored and an Active target is Superseded as of the edge's time, or of the start of its validity if that is later |
| `Store.MemoryDagStore.Commit` | crates/mem-store/src/lib.rs:629-650 | the batch is written in order, a quarantined write over an edge that was load-bearing before the batch being dropped |
| `Verdicts.DemotionMeans` | crates/mem-store/src/lib.rs:604-609 | a written edge is kept out exactly when it is a proposal over a stored load-bearing edge |
| `Store.MemoryDagStore.Confirm` | crates/mem-store/src/lib.rs:732-757 | confirmation promotes a stored proposal, a supersession through the guarded path at the current time; unknown and already confirmed edges are left alone |
| `Verdicts.ConfirmationVerdict` | crates/mem-store/src/lib.rs:732-757 | unknown and already confirmed edges change nothing; a supersession is applied with the current time; any other proposal loses its quarantine and nothing else |
| `Diff.PlanNodes` | crates/mem-assert/src/lib.rs:444-487 | the node loop refuses exactly when some copy must be refused, else yields the planned writes and the count of dropped embeddings |
| `Diff.PlanEdges` | crates/mem-assert/src/lib.rs:489-557 | the edge loop yields the first refusal, or the plain edges and the supersessions in order |
| `Diff.PutInserters` | crates/mem-assert/src/lib.rs:560-572 | the caller is recorded for every contesting proposal whose target is known, and nothing else changes |
| `Diff.SupersedeAll` | crates/mem-assert/src/lib.rs:573-578 | supersessions run in order, counting retirements, and stop at the first rejected one |
| `Diff.MergeDiff` | crates/mem-assert/src/lib.rs:435-585 | the whole merge as it runs leaves exactly the store and result of the specification `ApplyDiff`, about which the theorems below are |
| `Signed.ErrorsMean` | crates/mem-assert/src/lib.rs:226-267 | the error of a node or an edge: the wrong plane or tier first, then a missing signature, then what its own key says of its signature |
| `Signed.ImproperIsRefused` | crates/mem-assert/src/lib.rs:322-330 | a diff with any item that is not on the Asserted plane, at an agent's tier and signed by its own author or asserter is refused with the error of its first such item, nodes before edges, and the store is unchanged |
| `Signed.StoredEdgesAreProper` | crates/mem-assert/src/lib.rs:435-585 | every edge row a merge stores or changes is Asserted, at an agent's tier and carries a signature that its asserter's key verifies over its key |
| `Signed.StoredNodesAreProper` | crates/mem-assert/src/lib.rs:435-585 | so does every node row a merge stores or changes, over its id, given that the rows it was joined to do |
| `Signed.RunsStayProper` | crates/mem-assert/src/lib.rs:435-585 | in every run of merges and confirmations all Asserted rows stay so |
| `Verdicts.NewNode` | crates/mem-assert/src/lib.rs:444-487 | an unknown node: its author's is stored as it is, anyone else's only as an asserter mints it, without its embedding, no time earlier than five minutes ago, and the dropped embedding counted |
| `Verdicts.StoredNode` | crates/mem-assert/src/lib.rs:444-487 | a known node: nothing if the join changes nothing, else its author writes the join and anyone else is refused |
| `Verdicts.ReportCountsDropped` | crates/mem-assert/src/lib.rs:469-487 | the reported count of dropped embeddings is the number of relayed new nodes that came with one |
| `Verdicts.EdgeVerdict` | crates/mem-assert/src/lib.rs:489-557 | every verdict on an edge with its exact condition: skipped, refused as a promotion or as not the author's, superseding or plain |
| `Verdicts.TargetIs` | crates/mem-assert/src/lib.rs:510-517 | whose node an edge points at: the diff's own copy says, or else the stored one |
| `Verdicts.RefusalOrder` | crates/mem-assert/src/lib.rs:435-557 | nodes are judged before edges, the first refused edge decides the error, and a refusal leaves the store unchanged |
| `Verdicts.RetiredAt` | crates/mem-assert/src/lib.rs:573-578 | whatever a diff retires was Active, and ends at the time of one of its supersessions of it or where it began if that is later |
| `DiffEffects.NodesAfter` | crates/mem-assert/src/lib.rs:444-487 | after the batch a row holds the planned write of some copy of the diff, or what it held before |
| `DiffEffects.EdgesAfter` | crates/mem-store/src/lib.rs:604-650 | after the batch an edge row holds one of the written edges that does not demote, or what it held before |
| `DiffEffects.SupersessionsOnly` | crates/mem-assert/src/lib.rs:573-578 | applying supersessions only retires Active targets and only stores their own edges; if none is rejected all are stored |
| `DiffEffects.OnlyAuthorsChange` | crates/mem-assert/src/lib.rs:435-585 | after any merge, accepted or not, every stored node and edge is still there and differs only if the caller is its author or stored asserter; a diff refused by a check leaves the store unchanged |
| `DiffEffects.ReportCountsRetired` | crates/mem-assert/src/lib.rs:573-584 | the reported count of supersessions is the number of nodes retired |
| `DiffEffects.EdgeRowAfter` | crates/mem-assert/src/lib.rs:489-578 | a merge changes an edge row only to a planned edge, and leaves it only if no plain edge was planned for its key |
| `DiffEffects.InserterAfter` | crates/mem-assert/src/lib.rs:560-572 | a merge records the caller for a key exactly when it planned a proposal with a stored target for it, and otherwise leaves the record |
| `DiffEffects.ContestingProposals` | crates/mem-assert/src/lib.rs:507-572 | a proposal contesting another's node, once written, is signed by the caller, current if it supersedes and has the caller on record, if and only if its target is stored after that merge |
| `DiffEffects.UnknownTargetIsUnchecked` | crates/mem-assert/src/lib.rs:507-539 | a proposal on an id nobody has stored is accepted whoever signed it and whatever its time, with no inserter on record |
| `DiffEffects.LoadBearingArrivals` | crates/mem-assert/src/lib.rs:540-557 | a new edge is load-bearing on arrival only if the caller is its asserter or, for a supersession, wrote the superseded node |
| `DiffEffects.RelayedEdgeIsRefused` | crates/mem-assert/src/lib.rs:540-556 | a new load-bearing edge relayed by a non-asserter is refused if and only if it is not a supersession of an unknown or own node |
| `DiffEffects.RelayedSupersessionIsStored` | crates/mem-assert/src/lib.rs:540-549 | the exception is real: such a supersession, signed by someone else, is stored |
| `DiffRuns.OthersNeverChangeNode` | crates/mem-assert/src/lib.rs:435-585 | in every run of merges by callers other than its author a stored node stays exactly as it is |
| `DiffRuns.OthersNeverChangeEdge` | crates/mem-assert/src/lib.rs:489-557 | in every run of merges by callers other than its stored asserter a stored edge stays exactly as it is |
| `DiffRuns.GuardKeepsAcyclic` | crates/mem-store/src/lib.rs:772-818 | adding a supersession that passes the cycle check keeps the load-bearing supersessions acyclic |
| `DiffRuns.CommitKeepsLoadBearing` | crates/mem-assert/src/lib.rs:540-559 | the plain commit neither adds, changes nor drops a load-bearing supersession |
| `DiffRuns.RunsKeepSound` | specs/SupersededDag.tla:59-72 | in every run of merges and confirmations the load-bearing supersessions stay acyclic, their ends are stored and their targets are not Active |
| `DiffRuns.ConfirmationKeepsSound` | crates/mem-store/src/lib.rs:732-757 | a confirmation keeps that invariant |
| `DiffRuns.EmptyStoreIsSound` | specs/SupersededDag.tla:59-72 | the empty store satisfies it |
| `DiffRuns.ContestedRows` | crates/mem-assert/src/lib.rs:507-572 | over any run of merges and confirmations, a stored proposal last written by someone other than the target's author carries signer, time and inserter if and only if its target was stored when that merge was done |
| `DiffRuns.LateTargetIsContested` | crates/mem-assert/src/lib.rs:507-539 | in two merges, a proposal on an unknown id and then its author's insert, the store comes to hold a contesting proposal nobody is on record for |
| `DiffReplay.NodeReplay` | crates/mem-assert/src/lib.rs:444-487 | at any later clock a merged copy is a no-op, relay floors included, unless it was a first insert with unordered anchors |
| `DiffReplay.EdgeReplay` | crates/mem-assert/src/lib.rs:489-557 | at any later clock a merged edge is a no-op, outdated proposals included, unless it is a supersession the merge did not get to |
| `DiffReplay.Replay` | crates/mem-assert/src/lib.rs:435-585 | an accepted diff replayed later by the same caller is accepted with nothing superseded or dropped, and changes nothing if and only if every node it inserted had canonical anchors |
| `DiffReplay.RejectedReplay` | crates/mem-assert/src/lib.rs:426-431 | a diff whose supersession was rejected, merged again, is rejected for the same reason with edges and records unchanged, and changes nothing at all if and only if every node it inserted had canonical anchors |
| `FrontRun.RelaysInsert` | crates/mem-assert/src/lib.rs:375-383 | a node that others brought in, over any run, is in the as-asserted state with no embedding, validly signed, and no earlier than the skew before its first insert |
| `FrontRun.JoinOverRelay` | crates/mem-assert/src/lib.rs:447-480 | the author's copy merged over a relayed insert keeps all its fields but signature choice and times, if and only if it asserts the claim and its anchors are canonical |
| `FrontRun.RelayContradictsAuthor` | crates/mem-assert/src/lib.rs:447-487 | the other case in two merges: a claim relayed as asserted, then stored as false by its author, is contradictory, where the author's merge alone would have stored it as given |
| `FrontRun.AuthorsMergeLands` | crates/mem-assert/src/lib.rs:375-487 | after any run by others an author's merge that passes the checks leaves what a direct insert would, up to signature choice and times bounded by the relay floor, retired only by the author's own diff |
| `FrontRun.RelayedCopyAbsorbed` | crates/mem-assert/src/lib.rs:447-484 | a relayed copy leaves a stored node alone if and only if that holds the claim, at no higher tier, no later times, with the first signature and ordered anchors |
| `FrontRun.RunKeeps` | crates/mem-assert/src/lib.rs:435-585 | a run by others keeps every row, the caller's own edges exactly, and whatever a stored node absorbs |
| `FrontRun.OwnNodeIsNeverRefused` | crates/mem-assert/src/lib.rs:447-487 | an author's own node is never a reason for refusal, whatever is stored |
| `FrontRun.OwnNodesAlwaysPass` | crates/mem-assert/src/lib.rs:444-487 | a diff of one's own verified nodes without edges is never refused |
| `FrontRun.RefusedAfterRun` | crates/mem-assert/src/lib.rs:444-557 | a diff that passes is refused after a run by others if and only if the run brought in a relayed node of it that does not already say all the copy does, wrote another asserter's edge under one of its keys, or made the target of a contesting edge known as someone else's |
| `FrontRun.ProposalBlocksEdge` | crates/mem-assert/src/lib.rs:493-506 | that happens: a proposal stored under the key of an author's load-bearing edge has the author's whole diff refused, node included |
| `FrontRun.FrontRunIsHarmless` | crates/mem-assert/src/lib.rs:375-557 | an author's diff that passes, merged after any run by others, is refused without a change if and only if it was overtaken so; otherwise its own new nodes end as a direct insert would leave them |
| `HnswGraph.GreedyClosest` | crates/mem-index/src/hnsw.rs:147-163 | greedy descent terminates at a node reachable from the start, no worse than it, that none of its links beats |
| `HnswSearch.Offer` | crates/mem-index/src/hnsw.rs:187-196 | offering a node keeps the best `ef`: what is left out is no better than anything kept, and only a full set drops one |
| `HnswSearch.SearchLayer` | crates/mem-index/src/hnsw.rs:168-203 | the result is sorted, duplicate-free, at most `ef` long, reachable and truly scored; every returned node was expanded and every visited node left out scores no higher than the worst returned |
| `HnswSearch.NoLinkBeatsResult` | crates/mem-index/src/hnsw.rs:168-203 | every out-link of a returned node is in the result or scores no higher than its worst |
| `HnswSearch.WideBeamIsExhaustive` | crates/mem-index/src/hnsw.rs:168-203 | a beam at least as wide as the reachable part of the layer returns all of it |
| `HnswSelect.SelectDiverse` | crates/mem-index/src/hnsw.rs:205-238 | candidates are taken in their order: each is kept, or passed over for one kept before it that it is at least as similar to as to the base, or comes after the last kept with no room left; the capacity left is filled with those passed over from the first on; as many as fit, no node twice |
| `HnswSelect.SelectionMeans` | crates/mem-index/src/hnsw.rs:205-238 | every kept node is more similar to the base than to any kept before it, and a candidate left out while there was room is at least as similar to some kept node as to the base |
| `HnswIndex.HnswIndex.Prune` | crates/mem-index/src/hnsw.rs:240-253 | an over-full list becomes the diverse selection of its own members as seen from the node, and nothing else changes |
| `HnswIndex.HnswIndex.Connect` | crates/mem-index/src/hnsw.rs:294-298 | both links are added, the neighbour alone is pruned, and the graph invariant holds again |
| `HnswIndex.HnswIndex.AddOnLayer` | crates/mem-index/src/hnsw.rs:288-299 | the new node links exactly to the diverse selection of the beam search, each neighbour gains a link back and is pruned, all other lists stay |
| `HnswIndex.HnswIndex.AddOnLayers` | crates/mem-index/src/hnsw.rs:288-299 | every shared layer is linked so, each search starting at the best node of the layer above; other layers stay |
| `HnswIndex.HnswIndex.Add` | crates/mem-index/src/hnsw.rs:266-305 | every insertion keeps links in range, distinct, never to self, only to nodes of the layer, within 2m or m, and the entry at the top level; the new node has its id, its normalised vector and its level, no stored node is moved, and the graph is exactly the pushed one linked layer by layer from the descent point |
| `HnswLink.ReciprocalOrFull` | crates/mem-index/src/hnsw.rs:288-299 | a neighbour of the new node links back to it or its list is full: 2m links on the bottom layer, m above |
| `HnswGraph.DegreesBounded` | crates/mem-index/src/hnsw.rs:132-138 | the graph invariant bounds a list by 2m links on the bottom layer and by m above |
| `HnswLink.LinksToTheBestFound` | crates/mem-index/src/hnsw.rs:288-299 | on every shared layer the new node has a link, the first to the best of all nodes visited |
| `HnswLink.LayerLinkedTransfers` | crates/mem-index/src/hnsw.rs:288-299 | how a layer is linked depends on that layer's lists alone |
| `HnswIndex.Descend` | crates/mem-index/src/hnsw.rs:282-286 | the descent ends on the bottom layer at a local maximum, or stays at the entry when there is nothing to descend |
| `HnswIndex.HnswIndex.Search` | crates/mem-index/src/hnsw.rs:307-328 | hit i is the i-th node found with its own id and similarity, the hits are the first k of the beam search from the descent point; if the beam covers what is reachable there, they are the k best of it and nothing left out scores higher; a query of another model, then of another dimension, is refused |
| `HnswIndex.ReportIsNearest` | crates/mem-index/src/hnsw.rs:320-327 | the best of a pool, reported in order: each id beside its own similarity, no node twice, as many as asked for or as there are, and none left out that scores higher than the last |
| `BruteForce.BruteForceIndex.Add` | crates/mem-index/src/index.rs:119-125 | a vector of another model or dimension is refused without a change, any other is appended |
| `BruteForce.BruteForceIndex.Search` | crates/mem-index/src/index.rs:127-141 | the k items of highest score, each id beside its own score, best first and ties in the order added; none left out scores higher than the last |
| `BruteForce.AddKeepsMirrors` | crates/mem-index/src/hnsw.rs:266-305 | an insertion into the graph and an append to the list keep ids and normalised vectors aligned |
| `BruteForce.AddBoth` | crates/mem-index/src/hnsw.rs:370-381 | the same vector offered to both indexes is refused or taken by both, which stay aligned |
| `BruteForce.BuildPair` | crates/mem-index/src/hnsw.rs:370-381 | two fresh indexes given any sequence of vectors hold the same items, namely those of the first one's model and dimension in order |
| `BruteForce.SearchBoth` | crates/mem-index/src/hnsw.rs:383-405 | queried side by side they report the same errors, and, whenever every node is reachable on the bottom layer and the beam is wide enough, the same scores and the same nodes but for those that tie with the last |
| `BruteForce.ExactWhenPoolIsAll` | crates/mem-index/src/hnsw.rs:307-328 | when everything is reachable and the beam is wide enough, the score sequence equals the brute-force index's for every k |
| `Audit.HashPinsChain` | crates/mem-authz/src/audit.rs:183-216 | two linked logs with the same running hash after n records have the same first n records |
| `Audit.LinkedMeans` | crates/mem-authz/src/audit.rs:188-209 | a log is linked exactly when every record carries its position and the hash of the one before it, the first the zero hash |
| `Audit.OnlyTheCommittedChainOpens` | crates/mem-authz/src/audit.rs:160-239 | of all disks with the head of a chain exactly these open: the chain as log, the chain with one properly linked record more, and no log at all |
| `Audit.TruncatedExactly` | crates/mem-authz/src/audit.rs:183-239 | a log is refused as truncated exactly when it is linked and shorter than its head says; so is a committed chain without its last records |
| `Audit.DeletedLogOpensEmpty` | crates/mem-authz/src/audit.rs:164-181 | with the log gone, an empty chain is served and its head replaces the one that committed to records |
| `Audit.OpenedMeetsItsHead` | crates/mem-authz/src/audit.rs:217-257 | an opened log is the chain its head commits to plus at most one record, and the head is repaired to it |
| `Audit.ReWalk` | crates/mem-authz/src/audit.rs:183-213 | the walk succeeds exactly on linked logs, with the running hash after each record, and else names the first break |
| `Audit.AuditChain.OpenFiles` | crates/mem-authz/src/audit.rs:160-257 | opening refuses or accepts as specified, writes nothing on refusal, serves a chain that memory and both files agree on, and is exactly the crash machine's reopening, or its two steps of creating a log |
| `Audit.AuditChain.Append` | crates/mem-authz/src/audit.rs:267-299 | an append extends log, head and memory by one record with the given time, event, actor, resource and detail, its position and the hash of the record before it, and is exactly the crash machine's three steps in order |
| `Audit.AuditChain.VerifyIntegrity` | crates/mem-authz/src/audit.rs:314-326 | succeeds with the count exactly on linked chains, else reports the sequence found at the first break |
| `Audit.RunsAreConsistent` | crates/mem-authz/src/audit.rs:241-299 | after any steps, crashes and restarts the log is linked and the head commits to it or to all but its last record |
| `Audit.CrashThenReopen` | crates/mem-authz/src/audit.rs:156-257 | a crash at any point of any run is followed by a reopen with the chain, or the chain and the record in flight, head repaired; the one exception is a log without its first head |
| `Audit.NothingIsLost` | crates/mem-authz/src/audit.rs:264-299 | a chain once served stays a prefix of the log and of every chain served later |
| `Audit.StrandedStaysStranded` | crates/mem-authz/src/audit.rs:164-181 | cut off before its first head, a new log never opens again |
| `Framing.EncodeInjective` | crates/mem-core/src/identity.rs:45-90 | tag, length and bytes framing is injective on field lists |
| `Framing.RecordPreimageInjective` | crates/mem-authz/src/audit.rs:73-95 | the bytes hashed for a record determine the record |
| `Layout.FramesReadBack` | crates/mem-core/src/identity.rs:64-68 | a reader of tag byte, eight little-endian bytes of length and that many bytes recovers every framed list of fields |
| `Layout.NumberReadsBack` | crates/mem-authz/src/audit.rs:73-77 | eight little-endian bytes of a 64-bit number read back as that number |
| `Layout.RecordReadsBack` | crates/mem-authz/src/audit.rs:81-95 | the bytes hashed for a record read back as its fields, each under its own tag |
| `Identity.EscIsEscEach` | crates/mem-core/src/node.rs:182-184 | the two chained replacements are one escape per character |
| `Identity.JoinedInjective` | crates/mem-core/src/node.rs:182-207 | escaped fields joined by bars determine the fields, their number included |
| `Identity.CanonicalBytesInjective` | crates/mem-core/src/node.rs:187-207 | distinct source references have distinct bytes, across all three kinds |
| `Layout.RefReadsBack` | crates/mem-core/src/node.rs:187-207 | splitting a reference's bytes at unescaped bars gives its kind and its parts in order |
| `Layout.DecimalReadsBack` | crates/mem-core/src/node.rs:195-201 | an offset is written in decimal digits without leading zeros that read back as it |
| `Identity.DiscriminantInjective` | crates/mem-core/src/node.rs:123-153 | distinct node kinds have distinct discriminants |
| `Layout.KindNames` | crates/mem-core/src/node.rs:123-153 | the name each node kind goes by, with its sub-kind after a colon |
| `Identity.PreimageDeterminesIdentity` | crates/mem-core/src/node.rs:266-277 | two nodes have equal id preimages if and only if they agree on all identity fields |
| `Layout.IdentityReadsBack` | crates/mem-core/src/node.rs:266-277 | the bytes hashed for a node id read back as its identity fields, each under its own tag |
| `Identity.KeyDeterminesEdge` | crates/mem-core/src/edge.rs:111-117 | the 65-byte edge key determines both ends and the kind |
| `Layout.KeyReadsBack` | crates/mem-core/src/edge.rs:47-117 | an edge key is 32 bytes of source, 32 of target and the place of its kind among the seventeen |
| `Grant.SigningPreimage` | crates/mem-authz/src/grant.rs:94-115 | the buffer filled loop by loop is the framed preimage |
| `Grant.PreimageDecodes` | crates/mem-authz/src/grant.rs:94-115 | two grants have the same preimage if and only if they agree on everything but the signature |
| `Layout.GrantReadsBack` | crates/mem-authz/src/grant.rs:73-115 | the signed bytes read back as every field of the grant in its place: scopes and delegation steps in pairs, the policy by name, and the revoked mark only if revoked |
| `Grant.SignedVerifies` | crates/mem-authz/src/grant.rs:118-136 | a grant signed with a key verifies under the key it carries |
| `Grant.CheckSays` | crates/mem-authz/src/grant.rs:79-161 | each verdict with its exact condition: revoked, expired, unsigned, badly signed, a resource no scope names, an operation the first scope naming it withholds, or none of these |
| `Attenuation.MintedAuthority` | crates/mem-gateway/src/auth.rs:29-110 | a minted grant verifies, and until expiry allows exactly: everything for owners and admins, what the first matching scope says for members, reading alone for readers |
| `Attenuation.MintedFields` | crates/mem-gateway/src/auth.rs:29-110 | every other field of a minted grant: recipient, policy by role, saturating expiry, key and signature |
| `Attenuation.AttenuatedAllows` | crates/mem-gateway/src/http.rs:528-572 | what an attenuated grant allows, whether or not the original verifies |
| `Attenuation.WritesIfListed` | crates/mem-gateway/src/http.rs:533-540 | a token writes exactly when one of its comma-separated parts is "write" or "propose" with nothing but whitespace around it |
| `Attenuation.AttenuatedFields` | crates/mem-gateway/src/http.rs:528-572 | narrowing keeps every field but scopes, key and signature, and leaves a read-only policy unless the token writes |
| `Attenuation.IntersectionExactly` | crates/mem-gateway/src/http.rs:528-572 | attenuation is intersection for a resource and operation, except if and only if no tenants are named and an unverified, unrevoked, unexpired grant's scopes and the token allow them |
| `Attenuation.AttenuationIntersects` | crates/mem-gateway/src/http.rs:528-572 | a verifying grant narrowed to a token allows an operation at any later time if and only if the grant does, the token permits writing if it is a write, and the resource is a named tenant's if any are named |
| `Attenuation.AttenuationNarrows` | crates/mem-gateway/src/http.rs:528-572 | narrowed to any number of tokens in any order, it allows exactly what it allowed and all of them allow |
| `Attenuation.AttenuationComposes` | crates/mem-gateway/src/http.rs:528-572 | two tokens give the same authority in either order, within that of the first alone |
| `Attenuation.AttenuationResigns` | crates/mem-gateway/src/http.rs:558-571 | the exception is real for every such grant: nothing was readable, now all its scopes name is |
| `Headings.FenceExactly` | crates/mem-corpus/src/chunk.rs:53-55 | a line is a fence exactly if blanks are followed by three backticks or three tildes |
| `Headings.HeadingMeans` | crates/mem-corpus/src/chunk.rs:25-41 | a line read as a heading is one to six equal markers, a space, and a title between blanks and closing markers; seven markers make none |
| `Headings.HeadingReads` | crates/mem-corpus/src/chunk.rs:25-41 | and every such line is read as a heading with that title |
| `Text.WhitespaceIs` | crates/mem-corpus/src/chunk.rs:26-54 | what counts as blank when trimming: the twenty-five code points of the Unicode White_Space property |
| `Chunker.SplitSections` | crates/mem-corpus/src/chunk.rs:46-65 | the sections hold every line of the text once, whole and in order with its byte offset, and start exactly at the headings outside fences, a fence being blanks and three backticks or tildes |
| `Tiling.Flush` | crates/mem-corpus/src/chunk.rs:76-91 | a buffer that is not blank becomes one chunk with its trimmed text and byte span; a blank one is dropped |
| `Tiling.SplitLong` | crates/mem-corpus/src/chunk.rs:95-111 | an over-long line is cut into pieces of exactly the limit, the rest staying in the buffer |
| `Tiling.AddLine` | crates/mem-corpus/src/chunk.rs:92-121 | one more line keeps everything before the buffer tiled, and flushes only what the line would not fit behind |
| `Tiling.WidthIsUtf8` | crates/mem-corpus/src/chunk.rs:76-91 | the byte width of a character is the length of its UTF-8 encoding |
| `Chunker.ChunkText` | crates/mem-corpus/src/chunk.rs:45-125 | chunks tile the text: ordered disjoint spans with exact byte offsets, only whitespace outside, text is the span without outer newlines and within the limit past its leading whitespace; cuts fall between lines or inside over-long ones; each chunk lies in one section under the title, or the title and the heading if they differ, starts where the section does or the chunk before it ended unless an over-long line gives up blank space before it, ends only at the section's end or where the next line does not fit, and not later than that; no section starts inside a fence |
| `EdgeMerge.EdgeMergeCommutes` | crates/mem-sync/src/lib.rs:149-345 | the replica edge merge commutes if and only if the edges do not tie with an absent against an empty text |
| `EdgeMerge.AdvisoryMeans` | crates/mem-sync/src/lib.rs:149-174 | which edge comes first: the less trusted tier, then the derived plane, then the method in order of declaration, then asserter, time, evidence and signature by their bytes, an absent text counting as empty |
| `EdgeMerge.MergedEdge` | crates/mem-sync/src/lib.rs:307-345 | a merged edge is quarantined only if both are, holds the evidence of both, and takes its advisory fields from one side, the remote only if it comes first |
| `EdgeMerge.EdgeMergeAssociates` | crates/mem-sync/src/lib.rs:307-345 | it associates, for any three edges |
| `EdgeMerge.FoldKeepsFirstLeast` | crates/mem-sync/src/lib.rs:149-345 | a sequence of merges keeps the advisory fields of its first least copy, and the quarantine only if every copy has it |
| `EdgeMerge.EdgesConverge` | crates/mem-sync/src/lib.rs:149-345 | two sequences over the same copies, in any order and with any repetition, agree on quarantine and confidence, tie in the rest, and are equal if and only if their first least copies carry the same evidence and signature |
| `EdgeMerge.EveryOrderConverges` | crates/mem-sync/src/lib.rs:149-345 | all orders end in the same edge if and only if no two least copies differ in a text one leaves out and the other has empty |
| `EdgeMerge.EdgeMergeKeepsSides` | crates/mem-sync/src/lib.rs:153-174 | the failing case exists for every edge without evidence |
| `Import.DoneIsSettled` | crates/mem-corpus/src/import.rs:340-400 | repeating a write changes nothing, if and only if it was not the first insert of a node with unordered anchors |
| `Import.WritesSpec` | crates/mem-corpus/src/import.rs:340-400 | a tenant's writes, batch by batch in id order and edges in key order, are exactly its nodes with vector i for node i, its edges, and the record last |
| `ImportOrder.VectorsMatch` | crates/mem-corpus/src/import.rs:340-372 | the node writes of a tenant are exactly its nodes, each with the vector of its own index, whichever batch it falls into |
| `ImportOrder.NodesInOrder` | crates/mem-corpus/src/import.rs:344-387 | nodes are written in batches of 128 as listed, inside a batch by the bytes of their ids |
| `ImportOrder.EdgesInOrder` | crates/mem-corpus/src/import.rs:388-400 | then the edges by the bytes of source, target and kind, and the record last |
| `ImportOrder.VectorsLand` | crates/mem-corpus/src/import.rs:308-407 | after a complete import every new node the corpus brings once is stored with the vector of its own index |
| `Import.RestartIsHarmless` | crates/mem-corpus/src/import.rs:322-400 | writes started over after any first part of them, in the order they happen, end where doing them once does |
| `Import.ImportIsItsWrites` | crates/mem-corpus/src/import.rs:308-407 | an import does the writes of the tenants not yet recorded, an interrupted one a first part of them |
| `Import.InterruptedOnce` | crates/mem-corpus/src/import.rs:308-407 | an import cut off anywhere and then completed leaves the store of one uninterrupted import |
| `Import.ImportResumes` | crates/mem-corpus/src/import.rs:308-407 | so does one cut off any number of times |
| `Resume.SameUpToOrder` | crates/mem-corpus/src/import.rs:308-407 | whatever the corpus, an interruption changes at most the order of anchors |
| `Resume.ResumesExactly` | crates/mem-corpus/src/import.rs:308-407 | for any store and any list of distinct tenants, every way of interrupting an import leaves the uninterrupted result if and only if no pending node that is new and written once has unordered anchors |
| `Import.LaterRunsSkip` | crates/mem-corpus/src/import.rs:322-332 | after a complete import every tenant is recorded, and later runs write nothing |
| `Import.ImportKeepsStanding` | crates/mem-corpus/src/import.rs:189-239 | however far an import gets, no stored node has its status or end of validity changed |
| `Import.UnorderedAnchorsShow` | crates/mem-corpus/src/import.rs:308-407 | with unordered anchors an interrupted import does differ |
| `Import.ImportStore.MergeBatch` | crates/mem-sync/src/lib.rs:284-304 | a batch inserts unknown nodes and joins known ones, in the order of their ids |
| `Import.ImportStore.MergeEdges` | crates/mem-sync/src/lib.rs:307-345 | edges are inserted or joined in the order of their keys |
| `Import.ImportStore.ImportTenant` | crates/mem-corpus/src/import.rs:340-400 | node i gets vector i across batches; the tenant is written to the end if and only if every vector can be had, else up to the batch with the first that cannot |
| `Import.ImportStore.ImportCorpus` | crates/mem-corpus/src/import.rs:308-407 | a run that ends well is a complete import, one that fails is an import cut off after some number of writes |
| `Corpus.CheckBundle` | crates/mem-corpus/src/import.rs:189-239 | a bundle passes exactly when it names its tenant, matches the manifest's counts, and holds only plain corpus nodes and corpus links between them |
| `Corpus.BundleMeans` | crates/mem-corpus/src/import.rs:189-239 | the shape rules in the fields of nodes and edges: tenant, plane, author prefix, tier, no signature, Active without end; two kinds of link, Derived, not quarantined, unsigned, between nodes of the bundle |
| `Corpus.VerifyTenants` | crates/mem-corpus/src/import.rs:101-134 | a corpus passes exactly when its tenants are knowledge tenants, each listed once, with bundles in shape |
| `Corpus.CorpusOnlyAdds` | crates/mem-corpus/src/import.rs:1-15 | however far the import of a verified corpus gets, nothing stored is retired, and nothing but Derived corpus nodes of its own tenants and corpus links between them is touched |
| `CorpusClash.ContradictsExactly` | crates/mem-corpus/src/import.rs:189-239 | it makes no dimension of a stored node or edge newly contradictory if and only if in none stored and brought evidence together are for and against; an interrupted import does no more |
| `CorpusClash.OneCopyClashes` | crates/mem-corpus/src/import.rs:201-220 | with every id brought once, that is a brought copy opposing the stored one: the other side, or Both against anything but Both |
| `CorpusClash.CorpusCanContradict` | crates/mem-corpus/src/import.rs:201-220 | the case exists: a corpus that passes every check makes a stored True contradictory |
| `CorpusClash.LinksExactly` | crates/mem-corpus/src/import.rs:221-238 | a stored edge loses its quarantine if and only if the corpus brings it too, has its tier, plane, provenance and signature replaced if and only if a brought copy precedes it in the merge's order, and gains exactly the brought evidence |
| `CorpusClash.CorpusCanRelabelLink` | crates/mem-corpus/src/import.rs:221-238 | all of it happens: a corpus that passes every check lifts a stored link's quarantine, lowers its tier and contradicts it |
| `CorpusClash.NodesExactly` | crates/mem-corpus/src/import.rs:201-220 | of a stored node it brings again a corpus leaves status, end of validity, tier and signature; anchors become the union and times the earliest of stored and brought |
| `Corpus.VerifiedCorpusResumes` | crates/mem-corpus/src/import.rs:189-239 | a verified corpus meets what resuming needs if and only if its anchors are canonical |
| `Limits.WindowBound` | crates/mem-gateway/src/http.rs:160-174 | in any window of any run under a clock that does not go back, a principal is granted at most 128 calls plus 2 per second of the window |
| `Limits.GrantedExactly` | crates/mem-gateway/src/http.rs:160-174 | a call is granted if and only if it is no more than 128 and keeps every window from an earlier call of the principal within 128 calls plus 2 per second: nothing is refused without need |
| `Limits.SpendExactly` | crates/mem-gateway/src/http.rs:160-174 | one call in numbers: 128 tokens at first, two more a second up to 128, none for a clock that went back; granted exactly if the tokens are there, and then deducted |
| `Limits.Potential` | crates/mem-gateway/src/http.rs:160-174 | what was granted plus what is left never exceeds that allowance |
| `Limits.RunsStayBounded` | crates/mem-gateway/src/http.rs:160-174 | a bucket is never negative and never above the burst |
| `Limits.GuardsAreCounted` | crates/mem-gateway/src/http.rs:135-158 | in every run the counter equals the live guards, at most two, and lets one more in exactly when fewer are live |
| `Limits.ByomLimits.TrySpend` | crates/mem-gateway/src/http.rs:160-174 | a call is granted exactly if the refilled bucket covers it; a refused one deducts nothing, and other principals are untouched |
| `Limits.ByomLimits.TryEnter` | crates/mem-gateway/src/http.rs:148-158 | a guard is handed out exactly while the principal holds fewer than two |
| `Limits.ByomLimits.DropGuard` | crates/mem-gateway/src/http.rs:135-145 | dropping a guard releases exactly one |
| `Civil.CivilIsGregorian` | crates/mem-ingest/examples/ingest_repo.rs:88-101 | day 0 is 1970-01-01, every day number gives a valid date, and the next number gives the calendar's next day |
| `Civil.Ranges` | crates/mem-ingest/examples/ingest_repo.rs:88-101 | the intermediate quantities stay in the ranges their comments state |

## Left out

- Cryptography (ed25519, blake3, HMAC, JWT and OIDC): ideal hashes and an abstract sign/verify pair.
- Encryption at rest, key rotation and storage errors: every read and write of a store succeeds.
- DiffReplay.Replay: assumes distinct node ids and edge keys inside one diff, because each copy is judged against the stored state and not against earlier copies of the same diff. RejectedReplay, NodeReplay, EdgeReplay, AuthorsMergeLands and FrontRunIsHarmless assume the same.
- FrontRun.RefusedAfterRun: compares the same diff at the same clock with and without the run; the waiting time itself is not part of it.
- DiffRuns.OthersNeverChangeNode: covers runs of merges; a confirmation under a write grant may retire another's node, as intended.
- The second-party rule at confirmation time and the query and tool layers in front of it.
- Replica sync between peers (`merge_bundle`) beyond what an import uses: authorization, rejected signatures and supersessions.
- Import.ImportStore.ImportCorpus: the source reads the manifest and vector files first; here a bundle comes with a function giving vector i or failing. Progress events and report counters are not modelled.
- Floating point: rounding of similarities, normalisation and bucket refills; NaN and -0.0.
- HnswIndex.HnswIndex.Add: indices are unbounded where the source uses u32, the level drawn from an id's hash is a parameter, and the brute-force index's rejection of non-finite vectors has no counterpart because such vectors do not occur.
- Recall of the index when the beam is narrower than the reachable part of the layer: no bound holds in general.
- Audit failures other than crashes: torn lines, unreadable files, the file lock, and an append that errors after its line landed while the process goes on.
- Audit.AuditChain.VerifyIntegrity: an edit of the last in-memory record is not noticed, as in the source; only the head check at opening notices it.
- Chunker.ChunkText: for a limit of 0 there is no length bound, and leading blank space can exceed any limit, as in the source. Finding a file's title and frontmatter is not modelled.
- Limits.WindowBound: a clock that goes back refills nothing at once but moves the mark back, so the bound is stated for clocks that do not. The global pool of four slots is a library semaphore and not modelled.
- Date formatting, HTTP routing, git mirrors, file walking, TOML and JSON, the web application, connectors and scripts.
