# Proof of idle space: a verified model

A storage miner proves that it keeps disk space occupied. It fills the space with idle files, each
the labels of a stacked expander graph whose nodes depend on each other through hashes; it commits to
a file by Merkle roots over the layers of labels; it answers challenges about single nodes; and the
files a verifier has accepted are collected in a multi-level RSA accumulator, of which the verifier
keeps one value. This project models the four parts in Dafny and proves what they promise each other.

| files | what they model |
|---|---|
| Bytes, Buffers, Hashing, Division, ModExp, Wrappers | byte strings, byte buffers, hash functions, quotients and remainders, modular powers, optional values |
| FlatAcc, WitnessChain, AccProofs, Forest | the accumulator as values: exponent algebra, witness chains and their three checkers, the proofs an honest prover gives, and the groups of chunks a tree stands for |
| AccNodes, AccTree, AccLinks, AccCopy, MultiLevelAcc, AccService | the accumulator on the heap: a mutable three-level tree with fan-out 1024, its cursor, its files, its snapshot, and the operations that give proofs |
| SnapshotProtocol, UpdateRaces | readers and updaters of one accumulator, interleaved, and the proofs of additions that race |
| ExpanderNode, CalcParents, RelationalMap | parent lists, hash sampling with probing, and the producer goroutine with its two reused buffers |
| Encodings, Varints, Preimages, ParentChoices | what the bytes stand for: integers and elements as bytes, zig-zag varints, what stands where in every hashed string, and the parents told number by number without the loops |
| LightMerkle, MerklePath | the Merkle tree built in place over its own leaves, its paths and their check |
| IdleFile | the layer loop with swapped label buffers |
| CommitProving, CommitChecking, CommitSoundness | commit proofs, their check, and what an accepted proof means whoever made it |
| FileLabels, FileSoundness, Verifying, Proving, Session | file labels and what accepted proofs about them mean, the verifier and the prover as objects, and whole sessions between them |

## Reading the model

- The source's objects are classes with the same fields (`MutiLevelAcc`, `AccNode`, `Node`,
  `ProverNode`, `Verifier`, `Prover`), its buffers arrays, its loops loops. Each method is proved
  against a function or predicate over values, and the theorems are about those. Ghost fields
  (`Contents`, `Spec`, `Nodes`, `owner`, `pos`, `level`) say what a heap structure stands for.
- Hash functions are arbitrary functions with digests of a fixed size. `NewHash` picks SHA-256 or
  SHA-512 by size; the model takes the function picked as a parameter. `Hprime` is an arbitrary function with
  positive values: nothing depends on its results being prime. Big integers are naturals, and the
  accumulator base is below the modulus.
- A nil byte slice and an empty one are the same value. `bytes.Equal` does not tell them apart, and
  no byte string of a nonzero number is empty.
- One cell of a label buffer or Merkle array stands for the 64 bytes the program addresses by
  multiples of the hash size. Buffers of single bytes (the label preimage) are byte arrays.
- Element files, label files and commit files are maps; a missing file is an error the methods
  return. Element files belong to one directory shared by an accumulator and its snapshots.
- Random draws (challenges, picked nodes) are parameters, so every theorem holds for all of them.
- Tasks that run in parallel and write a slot each (the parents of a proof, the proofs of a batch)
  are loops. The two places where interleaving matters are state machines: the update flag with its
  snapshot, and the producer with its consumer.
- The checks of the verifier take challenges and proofs of any shape. `Panicked` stands for the places where
  the program runs out of a slice or into a nil chain; accepted means that it did not.
- `e.Ok()` collects what the code assumes of its graph: a degree that is a positive multiple of 16,
  D + 1 <= N, and node numbers that fit in an int32. Files add that N is a power of two, as the
  Merkle tree needs.

## Where code and intention part

- The comment at acc/muti_level_acc.go:171 promises batches of at most 1024, but the guard below it
  bounds nothing while the last leaf is full: `Forest.AppendCanonical` gives the exact condition and
  `Forest.OversizedBatchPassesTheGuard` an example. The guard is also evaluated before the update flag is taken
  (`SnapshotProtocol.StaleGuard`, `SnapshotProtocol.AppendsCanonical`).
- The deletion checker takes any accumulator value equal to G for an empty accumulator, so an honest
  deletion is accepted if and only if no survivor is mistaken for one (`AccProofs.DeleteAccepted`,
  `AccProofs.DeleteRejectedOnCollision`). The condition is read off values the prover has.
- Deleting from an empty accumulator dereferences a nil cursor unless the number is refused; the
  delete operations require an element or an illegal number.
- The two reused node buffers are safe for every schedule if and only if N is even or K <= 1
  (`RelationalMap.SafeIffAlternates`, `IdleFile.SentIntact`).
- `VerifyAcc` compares as many labels as there are challenges, while the accumulator grows by all labels
  of the proof and the count by the challenges; it takes the last value of the proof's list for the new one,
  and the list may be longer than the chain (`FileLabels.GrowsByCommitted`,
  `FileLabels.StrayLabelAccepted`, `FileLabels.ExtraValueAccepted`).
- `ProveCommit` has a task for sixteen challenges at most, while `CommitChallenges` hands out any number:
  a longer stretch is never accepted (`Session.CommitRound`).
- `UpdateCount` raises the count and only then organizes the files after it, so it strips the next
  files instead of the ones just proved (`Proving.Disk.OthersKept`, `Proving.Disk.NextFileLost`,
  `Proving.Disk.NextRoundStarved`). Honest runs (`Session.Run`) include this step: rounds that lack a
  stripped file end without a proof, and rounds whose files are generated afterwards go through.
- With K = 0 the check of node dependencies draws from an empty range, and no commit is ever accepted
  (`Session.CheckNoLayers`, `Session.CommitRound`).
- `ProveSpace` takes node numbers modulo 64, so space challenges ask for a place below N; and `VerifySpace`
  compares the number only with the one in the proof, so that any place of the file will do
  (`Proving.SpacePartMeans`, `FileSoundness.AnyPlaceAccepted`).
- `VerifyAcc` cuts the slots of the files it counts out of the commit buffer, so that there is room for 64
  files in all and not for 64 at a time (`Session.RoomIff`).
- `AddElementsAndProof` takes its snapshot before it has the update flag and reads the tree after giving it
  back, so another update can come between, and its proof can then be rejected
  (`UpdateRaces.InStepIff`, `UpdateRaces.RacingProofRejected`).
- A failed `ProveDeletion` has already lowered the count (`Proving.Prover.ProveDeletion`).

## Model

| member | source | states |
|---|---|---|
| FlatAcc.GenerateAcc | acc/acc.go:39-50 | exponentiating one prime after another gives G^(product of all primes) mod N |
| FlatAcc.GenerateAccFrom | acc/muti_level_acc.go:341-351 | the same from any start value; a nil start gives nil |
| FlatAcc.ExtendAcc | acc/muti_level_acc.go:341-351 | extending the accumulator of a list by more elements is the accumulator of the longer list |
| FlatAcc.HalvesWitness | acc/muti_level_acc.go:353-382 | the step of the divide and conquer: a witness over the whole list is a witness over its half from the base raised by the other half |
| FlatAcc.GenerateWitness | acc/muti_level_acc.go:353-382 | for every list the recursion returns at position i the base to the product of all primes but the i-th |
| FlatAcc.WitnessOverCompletes | acc/acc.go:52-88 | every such witness raised to its own prime is the accumulator over the same base |
| FlatAcc.WitnessCompletes | acc/muti_level_acc.go:511-518 | the witness of an element is accepted for it by the membership test, and extending it by the element gives the accumulator |
| AccNodes.GenWitsForAccNodes | acc/muti_level_acc.go:384-414 | the in-place version writes the same witnesses into the nodes, and nothing else |
| AccNodes.UpdateAcc | acc/muti_level_acc.go:153-167 | length and value of a node become those of its children, and every child gets the accumulator of its siblings as witness |
| Encodings.PrimeIff | acc/muti_level_acc.go:511-518 | when Hprime tells all numbers apart, two elements have the same prime if and only if they are equal but for zeros in front, which big.Int drops; elements of one length are told apart |
| Forest.AppendElements | acc/muti_level_acc.go:169-260 | an addition appends to the element list, whatever the shape of the tree |
| Forest.AppendCanonical | acc/muti_level_acc.go:169-260 | an addition that passes the guard keeps the tree canonical if and only if it has at most 1024 elements |
| Forest.AppendFits | acc/muti_level_acc.go:169-176 | a batch of 1 to 1024 elements keeps the tree canonical if and only if the last leaf is full or has room for all of it; in particular a batch that fills the leaf exactly does |
| Forest.OversizedBatchPassesTheGuard | acc/muti_level_acc.go:171-176 | on a full leaf the guard lets 1025 elements through, and the tree is not canonical any more |
| Forest.TruncateElements | acc/muti_level_acc.go:262-322 | a deletion drops the last elements of the list |
| Forest.TruncateCanonical | acc/muti_level_acc.go:262-322 | a deletion keeps the tree canonical |
| Forest.TruncateUndoesAppend | acc/muti_level_acc.go:169-322 | deleting as many elements as were just added gives back the very same groups |
| Forest.CanonicalUnique | acc/muti_level_acc.go:169-322 | a canonical tree is determined by its element list |
| Forest.PackedIndex | acc/muti_level_acc.go:472-507 | where an element stands in a packed list: block index / 1024, offset index mod 1024 |
| WitnessChain.MembershipStep | acc/muti_level_acc.go:522-533 | a chain proves membership if and only if its lowest link holds and the rest of it does |
| WitnessChain.OneNodeMember | acc/muti_level_acc.go:522-533 | a chain of one node is accepted under its own value and no other |
| WitnessChain.MemberIff | acc/muti_level_acc.go:511-533 | a chain is accepted if and only if its last value is the accumulator and each value put under its witness gives, as a number, the value above |
| WitnessChain.MemberMeans | acc/muti_level_acc.go:511-533 | so the accumulator of an accepted chain of two nodes or more is what the last witness makes of the value below |
| WitnessChain.MemberOfOne | acc/muti_level_acc.go:522-533 | no chain is accepted under two accumulators |
| WitnessChain.InsertMeans | acc/muti_level_acc.go:574-606 | an insertion is accepted if and only if the chain ends in the verifier's accumulator, from the first node on whose witness is not the value above it every value put under its witness gives the one above, the first new value is the bottom one grown by the elements, and each further one follows under the witness |
| WitnessChain.DeleteMeans | acc/muti_level_acc.go:646-674 | a deletion is accepted if and only if the chain ends in the verifier's accumulator with all its links, the deleted elements give the bottom value back, and each further value follows under the witness, or is the witness above an empty accumulator |
| WitnessChain.UpdateOfOne | acc/muti_level_acc.go:574-674 | an update is accepted under one accumulator only |
| WitnessChain.VerifyMutilevelAcc | acc/muti_level_acc.go:522-533 | accepts exactly the chains all of whose links hold and that end in the given accumulator |
| WitnessChain.VerifyInsertUpdate | acc/muti_level_acc.go:574-606 | accepts exactly when the first existing node is a member, the first value is the bottom one grown by the elements, and every further value is the one below put under its witness |
| WitnessChain.VerifyDeleteUpdate | acc/muti_level_acc.go:646-674 | accepts exactly when the chain is a member, the deleted elements give back its bottom value, and every further value is the one below under its witness, or that witness alone above an empty accumulator |
| AccProofs.ElementMember | acc/muti_level_acc.go:472-533 | the four-node chain of any stored element is accepted against the root value |
| AccProofs.InsertAccepted | acc/muti_level_acc.go:536-606 | with the honest chain three values are accepted against the old root if and only if they are the new leaf, parent and root values: leaf grows, new leaf, new parent, first insertion |
| AccProofs.DeletePathSteps | acc/muti_level_acc.go:609-674 | the values after a deletion follow from each other along the old chain, case by case |
| AccProofs.DeletedLeafGrows | acc/muti_level_acc.go:646-674 | the deleted elements put back under the new leaf value give the old one |
| AccProofs.DeleteAccepted | acc/muti_level_acc.go:609-674 | the honest deletion proof is accepted if and only if no surviving accumulator on the path is mistaken for an empty one |
| AccProofs.DeleteAcceptedWithoutCollision | acc/muti_level_acc.go:609-674 | in particular whenever no accumulator of a nonempty list has the value G |
| AccProofs.DeleteRejectedOnCollision | acc/muti_level_acc.go:646-674 | a key and a tree for which the honest deletion proof is rejected |
| AccTree.SpecCloses | acc/muti_level_acc.go:153-167 | the tree values of any contents are those updateAcc computes bottom up |
| AccTree.UpdateParent | acc/muti_level_acc.go:153-167 | updateAcc on the last parent completes the lowest two levels |
| AccTree.UpdateRoot | acc/muti_level_acc.go:153-167 | updateAcc on the root then completes the tree |
| AccLinks.ReplaceLeaf | acc/muti_level_acc.go:238-241 | replacing the last leaf gives the links of the longer leaf; all other nodes keep theirs |
| AccLinks.AppendLeaf | acc/muti_level_acc.go:242-244 | appending a leaf under the last parent |
| AccLinks.AppendGroup | acc/muti_level_acc.go:245-253 | appending a leaf under a new parent |
| AccLinks.ShrinkLeaf | acc/muti_level_acc.go:285-290 | shrinking the last leaf in place |
| AccLinks.DropLeaf | acc/muti_level_acc.go:297-310 | dropping the last leaf of a parent that has others |
| AccLinks.DropGroup | acc/muti_level_acc.go:297-307 | dropping the last leaf together with its parent |
| AccLinks.FirstTree | acc/muti_level_acc.go:220-237 | the first leaf brings a new root and a new parent with their values and witnesses |
| AccCopy.CopyAccNode | acc/muti_level_acc.go:324-338 | the recursive copy makes nodes of its own with the same values, lengths and witnesses |
| AccCopy.CopyTree | acc/muti_level_acc.go:111-129 | a copied tree is a tree with the same values and shares no node with the original |
| MultiLevelAcc.MutiLevelAcc.constructor | acc/muti_level_acc.go:71-91 | a new accumulator is empty, in order, and has the value G |
| MultiLevelAcc.AddedIffCanonical | acc/muti_level_acc.go:169-188 | with no file missing a batch of at most 1024 elements is added if and only if the tree stays canonical |
| MultiLevelAcc.MutiLevelAcc.Copy | acc/muti_level_acc.go:111-129 | copy sets tree, cursor and counters as in the original |
| MultiLevelAcc.MutiLevelAcc.CreateSnapshot | acc/muti_level_acc.go:131-134 | a new snapshot has the same contents and no node in common with the live tree |
| MultiLevelAcc.MutiLevelAcc.SetUpdate | acc/muti_level_acc.go:136-151 | taking the flag fails exactly when it is taken; taking it and giving it back make a new snapshot |
| MultiLevelAcc.MutiLevelAcc.GetSnapshot | acc/muti_level_acc.go:99-109 | the snapshot there is, or a new one |
| MultiLevelAcc.LastFileIndex | acc/muti_level_acc.go:190-216 | (ElemNums - 1) / 1024 is the number of the file of the last chunk |
| MultiLevelAcc.FilesAfterAppend | acc/muti_level_acc.go:190-216 | the file addElements writes keeps file j equal to chunk j with its witnesses |
| MultiLevelAcc.FilesAfterShrink | acc/muti_level_acc.go:273-284 | so does the file DeleteElements writes for a shorter leaf |
| MultiLevelAcc.FilesAfterDrop | acc/muti_level_acc.go:441-457 | and deleteAccData after a leaf vanished |
| MultiLevelAcc.AppendSpec | acc/muti_level_acc.go:219-260 | an addition changes the tree values in one of the four ways of addSubAcc |
| MultiLevelAcc.TruncateSpec | acc/muti_level_acc.go:262-322 | a deletion changes them in one of three ways |
| MultiLevelAcc.MutiLevelAcc.AddElementsData | acc/muti_level_acc.go:190-216 | the leaf node and file for the last chunk, extended or new; a missing file is an error |
| MultiLevelAcc.MutiLevelAcc.AddSubAcc | acc/muti_level_acc.go:219-260 | the live tree, cursor and counters become those of the new tree values |
| MultiLevelAcc.MutiLevelAcc.AddElements | acc/muti_level_acc.go:169-188 | with complete files a batch of 1 to 1024 elements is added if and only if the tree with it is canonical; refusals and errors exactly, seen from the contents; on success contents, values, witnesses, cursor, counters and files are those of the list with the batch appended |
| MultiLevelAcc.MutiLevelAcc.DeleteLeaf | acc/muti_level_acc.go:273-321 | the three cases of a deletion, on tree, cursor, counters and files |
| MultiLevelAcc.MutiLevelAcc.DeleteElements | acc/muti_level_acc.go:262-322 | refusals and errors exactly; on success everything is as for the list with the last elements removed |
| AccService.BuildInsertChain | acc/muti_level_acc.go:549-562 | walking old and new tree in step gives the chain of the case at hand |
| AccService.AddElementsAndProof | acc/muti_level_acc.go:536-572 | chain and values are the honest ones, so VerifyInsertUpdate accepts them against the old root, in every case; it is done if and only if the longer tree is canonical, for 1 to 1024 elements and complete files; errors leave the contents alone |
| AccService.BuildDeletePath | acc/muti_level_acc.go:629-642 | the new values down the last branch, with G where an accumulator vanished |
| AccService.DeleteElementsAndProof | acc/muti_level_acc.go:609-644 | chain and values are the honest ones, so VerifyDeleteUpdate accepts them exactly when no survivor is mistaken for an empty accumulator; the last value is the new root |
| AccService.WalkDown | acc/muti_level_acc.go:476-495 | the walk reaches the leaf that holds the element; the rounds with too short a child list are exactly that of the leaf |
| AccService.GetWitnessChain | acc/muti_level_acc.go:472-507 | on a tree of at most 1024^4 elements, for every index from 1 to ElemNums the chain names that element and VerifyMutilevelAcc accepts it against the root; bad index and missing file exactly |
| AccService.GetWitnessChains | acc/muti_level_acc.go:459-470 | the same for a list, off the snapshot, against the live root |
| AccService.AddThenDelete | acc/muti_level_acc.go:169-322 | adding a legal batch and deleting as many restores counters, contents, files and all tree values, and the deletion proof ends in the root from before |
| SnapshotProtocol.SnapshotIsolation | acc/muti_level_acc.go:99-151 | in every interleaving at most one updater holds the flag and readers see the last finished update |
| SnapshotProtocol.ReadsAdvance | acc/muti_level_acc.go:99-109 | a later read never shows an older tree |
| SnapshotProtocol.AppendsCanonical | acc/muti_level_acc.go:169-188 | an update keeps the tree canonical if and only if its batch passes the guard when the flag is taken and has at most 1024 elements |
| SnapshotProtocol.StaleGuard | acc/muti_level_acc.go:169-188 | the guard is evaluated before the flag is taken: two adders can overfill a leaf |
| UpdateRaces.UndisturbedInStep | acc/muti_level_acc.go:536-572 | if no update finishes between snapshot and flag and none changes the tree before it is read, snapshot and tree read are those before and after this addition |
| UpdateRaces.InStepIff | acc/muti_level_acc.go:536-572 | in every run of additions: what is read is the batch added to the snapshot if and only if no other addition came between snapshot and flag or between giving back the flag and reading |
| UpdateRaces.InStepAccepted | acc/muti_level_acc.go:536-606 | then chain and values are the honest ones and the proof is accepted against the root in the snapshot |
| UpdateRaces.AcceptedIffValues | acc/muti_level_acc.go:536-606 | for a chain of the right shape the proof is accepted if and only if the values read are those of the batch added to the snapshot |
| UpdateRaces.RacingProofRejected | acc/muti_level_acc.go:536-606 | a run in which another addition comes between snapshot and flag, and the proof is rejected |
| ExpanderNode.InsertSorted | expanders/expander.go:59-80 | inserting a new number keeps a strictly sorted list strictly sorted |
| ExpanderNode.Node.ParentInList | expanders/expander.go:86-108 | the binary search tells membership, and else the position to insert at |
| ExpanderNode.Node.AddParent | expanders/expander.go:59-80 | a bounded sorted insert: refuses the node itself, a full or nil list and what is there, and then changes nothing |
| CalcParents.BytesToNodeValue | expanders/expander.go:116-123 | a value from 0 to max - 1, whatever the bytes |
| CalcParents.Window.PlaceReached | expanders/generate_expanders.go:46-56 | within N steps the probe meets every place of the layer below |
| CalcParents.Window.ProbeEnds | expanders/generate_expanders.go:46-56 | with fewer than N parents the probe ends, at a free place |
| CalcParents.FillGood | expanders/generate_expanders.go:40-67 | a block adds exactly sixteen parents and keeps the list sorted and inside the window |
| CalcParents.ParentsWellPlaced | expanders/generate_expanders.go:19-69 | whatever the hash: D + 1 strictly increasing parents in [Index - N, Index), Index - N among them, pairwise distinct modulo N |
| CalcParents.ParentsInOrder | expanders/generate_expanders.go:19-69 | the list is what AddParent makes of the numbers in the order they are chosen: Index - N first, every later number above it |
| CalcParents.Probe | expanders/generate_expanders.go:46-56 | the inner loop ends at the first free place |
| CalcParents.FillBlock | expanders/generate_expanders.go:40-67 | the sampling loop ends for every hash outcome and computes the block |
| CalcParents.CalcParents | expanders/generate_expanders.go:19-69 | the nested loops end for every hash outcome and compute the parents; nothing happens in the lowest layer or without room for exactly D + 1 |
| Preimages.BlockIff | expanders/generate_expanders.go:26-38 | the bytes hashed for a block are the one string that begins with the ID and then has eighteen big-endian numbers of eight bytes: file number, layer, and i to i + 15 |
| Varints.VarintReads | expanders/expander.go:116-123 | every string of up to nine bytes either has no last group, and is read as 0, or begins with the zig-zag encoding of exactly one number, in some number of bytes, and is read as that number |
| Varints.ReadingMeans | expanders/generate_expanders.go:41-43 | what is sampled for number j at shift sh is the absolute value of what an encoder put into bytes 4j + sh to 4j + sh + 3 of the digest, and 0 when no byte there ends a number |
| ParentChoices.ChoiceUnique | expanders/generate_expanders.go:40-67 | the rule for number j of a block leaves no choice: the first free of four samples, else the first free residue behind the fourth, and for the sixteenth the first free residue behind the number before |
| ParentChoices.ParentsAreChoices | expanders/generate_expanders.go:19-69 | a list is the order in which CalcParents adds the parents if and only if it begins with Index - N and every further number follows that rule from the digest of its own block, whose bytes are told by what they decode to; the parents are that list, sorted |
| Encodings.BigEndianValue | expanders/expander.go:110-114 | the bytes of an integer, read in big-endian order, are its residue modulo 256^width, which for a negative integer is the two's complement |
| Encodings.BigEndianInRange | expanders/expander.go:110-114 | an integer from 0 to 256^width - 1 is read back as itself, a negative one from -256^width on with 256^width added |
| Encodings.IntBytes | expanders/expander.go:110-114 | so an int64 is read back modulo 2^64 and an int32 modulo 2^32 |
| Encodings.SameBytesIff | expanders/expander.go:110-114 | two integers have the same bytes if and only if they are congruent |
| RelationalMap.ConsumerSafe | expanders/generate_expanders.go:71-91 | in every run the consumer gets nodes 0, 1, 2, ... in order, and with N even or K <= 1 the parents it reads are never rewritten under it |
| RelationalMap.PutStep | expanders/expander.go:71-79 | growing the slice, moving what is larger and writing leaves the sorted list with the new number, in the array itself |
| RelationalMap.RunBounded | expanders/generate_expanders.go:71-91 | every step leaves less to do, so no run, under any schedule, has more steps than a bound that the graph fixes |
| RelationalMap.StuckIffDone | expanders/generate_expanders.go:71-91 | neither side can do anything if and only if the consumer is done with the last node |
| RelationalMap.AllReceived | expanders/generate_expanders.go:71-91 | every run that cannot go on has handed over the nodes 0 to (K + 1) * N - 1, in order, and every run comes to that point within the bound |
| RelationalMap.OddUnsafe | expanders/generate_expanders.go:71-91 | with N odd and K >= 2 there is a run of real AddParent steps in which node 2N puts N in front of the parents of node 2N - 1 while the consumer holds it |
| RelationalMap.SafeIffAlternates | expanders/generate_expanders.go:71-91 | every run, of AddParent steps in the order CalcParents makes them, is safe if and only if N is even or K <= 1 |
| LightMerkle.TopLevelIsRoot | tree/light_merkel_tree.go:78-95 | hashing level by level gives the recursive Merkle root |
| LightMerkle.CalcLevel | tree/light_merkel_tree.go:86-90 | writing a level from right to left reads every cell before it is overwritten |
| LightMerkle.CalcInPlace | tree/light_merkel_tree.go:78-95 | after the overwriting loops cells n/2^i to n/2^(i-1) hold level i |
| LightMerkle.CalcLightMhtWithBytes | tree/light_merkel_tree.go:32-53 | the same over the hashed cells of the data |
| LightMerkle.HeapShape | tree/light_merkel_tree.go:78-110 | cell v is the hash of cells 2v and 2v + 1, the upper half are hashes of two leaf hashes, and cell 1 is the recursive Merkle root |
| LightMerkle.GetRoot | tree/light_merkel_tree.go:103-110 | of a tree built over leaves it returns their recursive Merkle root; nil for fewer than two cells |
| MerklePath.AncestorIsQuotient | tree/light_merkel_tree.go:112-149 | the path follows index / 2^i |
| MerklePath.GetPathProof | tree/light_merkel_tree.go:112-149 | the siblings from the leaf hashes up, and Locs the complement of the index bits, low bit first; an error exactly for different lengths |
| MerklePath.VerifyPathProof | tree/light_merkel_tree.go:151-171 | accepts exactly when hashing up along the proof gives the root |
| MerklePath.ClimbReachesRoot | tree/light_merkel_tree.go:112-171 | hashing up from any ancestor along its path gives the root |
| MerklePath.PathAccepted | tree/light_merkel_tree.go:112-171 | for every power-of-two leaf count, data and index the path is accepted for that leaf and the root |
| MerklePath.ExtractCollides | tree/light_merkel_tree.go:151-171 | two values that climb to the same root along the same sides give two hash inputs with equal digest |
| MerklePath.PathBinding | tree/light_merkel_tree.go:151-171 | two different leaves accepted under one root with the same Locs give a hash collision |
| MerklePath.PathSides | tree/light_merkel_tree.go:112-149 | the Locs of a path are the complement of the lowest bits of index / 2^i, low bit first |
| MerklePath.PositionBinding | tree/light_merkel_tree.go:151-171 | a value accepted under the root of a tree with the sides of an index is the datum at that index, or gives a hash collision |
| Buffers.CopyData | util/utils.go:134-144 | pieces one after the other, empty ones and those that do not fit passed over; when all fit, their concatenation and then what stood behind it |
| Buffers.CopiedFits | util/utils.go:134-144 | pieces that fit end up as their concatenation |
| Buffers.CopiedIs | util/utils.go:134-144 | in general the buffer is overwritten with the concatenation of those pieces that still fit when it is their turn; what stood behind stays |
| IdleFile.LabelMeans | expanders/generate_idle_file.go:102-123 | a label is the hash of ID, count and index, followed by zeros in the lowest layer and by the labels of all D + 1 parents, in order, above it |
| Preimages.LabelPreimage | expanders/generate_idle_file.go:102-123 | the string hashed for a label is the only one that has the ID, then the file number in eight and the node number in four big-endian bytes, then D + 1 slots of 64 bytes: zeros in the lowest layer, above it the labels of the parents in order |
| IdleFile.ParentLabelFound | expanders/generate_idle_file.go:108-119 | every parent's label is already there, and not yet overwritten, in the buffer it is read from |
| IdleFile.NodesAsSent | expanders/generate_expanders.go:71-91 | with an even number of nodes per layer every concurrent run hands over the nodes in order, each with its parents as computed |
| IdleFile.SentIntact | expanders/generate_expanders.go:71-91 | for the graph of any file and any hash: the parents read are safe in every run if and only if N is even or K <= 1, and so when N is a power of two |
| IdleFile.NextNode | expanders/generate_expanders.go:80-88 | the producer's loop body, in one of two reused buffers, yields the parents of its node |
| IdleFile.WriteLabel | expanders/generate_idle_file.go:105-119 | whatever the reused label buffer held, it ends up as the bytes of the node, with no stale byte |
| IdleFile.FillLayer | expanders/generate_idle_file.go:103-123 | one round of the layer loop computes the defined labels of a layer from those of the layer below |
| IdleFile.RootOfLayer | expanders/generate_idle_file.go:125-127 | the tree built in place gives the Merkle root of the layer |
| IdleFile.GenerateIdleFile | expanders/generate_idle_file.go:84-150 | with buffers of any earlier contents: the label files of all layers, the root of each, and the hash of all roots |
| CommitProving.WalkStaysHigh | pois/prove.go:275-294 | for every choice sequence node t of the challenge walk exists and lies in layer K - t or above, and at most K |
| CommitProving.ParentLayer | pois/prove.go:357-363 | a parent lies in its node's layer or the one below, and comparing numbers tells which |
| CommitProving.ProveNode | pois/prove.go:309-326 | label and path of a node, from the file and tree of its layer |
| CommitProving.ProveParents | pois/prove.go:343-375 | all parents in order, each with label and path from its own layer |
| CommitProving.GenerateCommitProof | pois/prove.go:296-382 | the honest proof of a node; refuses bad node numbers and reports missing files exactly |
| CommitProving.ProveOne | pois/prove.go:275-294 | the honest proofs of all nodes of the walk |
| CommitProving.ChallengeIsWalkable | pois/verify.go:96-127 | a challenge of the shape CommitChallenges gives never runs out of parents |
| CommitProving.ProveCommit | pois/prove.go:190-222 | honest proofs for the first sixteen challenges, none for further ones; fails exactly when a task fails |
| CommitChecking.CheckParents | pois/verify.go:226-243 | the parents loop accepts exactly when there is a root for every parent and room for its label and every path is accepted, and then it has filled the label buffer; it panics only without a root or room |
| CommitChecking.CheckStep | pois/verify.go:208-247 | a step is accepted exactly when no slice is overrun, the path of the node is accepted, and with parents given, their paths are and the buffer hashes to the label |
| CommitChecking.CheckFile | pois/verify.go:195-248 | the steps of one file, with the label buffer as the steps before left it; total, with a panic only for challenges or proofs that are too short |
| CommitChecking.CheckDependency | pois/verify.go:267-276 | a picked proof is accepted exactly when the parents of its node are a prefix of those it names; a panic only when it names too few |
| CommitChecking.VerifyNodeDependencies | pois/verify.go:254-279 | accepts exactly when every picked node exists and its dependency holds, also for node numbers beyond the graph |
| CommitChecking.FindCommit | pois/verify.go:183-189 | the first buffered commit for the file: it matches and none before it does; 0 when there is none |
| CommitChecking.CheckAll | pois/verify.go:190-251 | the loop over the files, with the label buffer as the files before left it; accepted exactly when all files are, and no slice is overrun |
| CommitChecking.HonestNodeAccepted | pois/prove.go:309-326 | label and path of an honest node are accepted against the root of its layer |
| CommitChecking.WrittenAll | pois/verify.go:226-243 | full-size labels leave exactly their concatenation in the buffer, whatever stood there |
| CommitChecking.OverwriteAt | pois/verify.go:241-242 | of a label of any size at most 64 bytes are copied, and nothing else is touched |
| CommitChecking.HonestStepAccepted | pois/prove.go:296-382 | an honest proof of any node is accepted, whatever the buffer holds |
| CommitChecking.VisitedIsWalk | pois/verify.go:200-206 | the nodes the verifier visits in an honest proof are those of the walk |
| CommitChecking.HonestFileAccepted | pois/prove.go:275-382 | an honestly generated file passes every challenge |
| CommitChecking.HonestDependency | pois/verify.go:254-279 | whichever node is picked, an honest proof names its parents |
| CommitChecking.HonestCommitsAccepted | pois/verify.go:167-279 | for any number of honest files, any challenges and any picks no check fails and no slice is overrun |
| CommitSoundness.AcceptedLabel | pois/verify.go:226-247 | whoever made the proof: an accepted step naming D + 1 parents with labels of 64 bytes has the digest of ID, file number, node number and all their labels, in order, for its label, whatever the buffer held |
| CommitSoundness.NodeBinding | pois/verify.go:208-223 | under roots over any label lists, an accepted node with the sides of its place in Locs carries the label committed there, or gives a hash collision |
| CommitSoundness.ParentBinding | pois/verify.go:226-240 | so does every parent among the N nodes below, against the root of its own layer |
| CommitSoundness.AcceptedNodeIsRight | pois/verify.go:208-247 | an accepted step that names the graph's parents of its node shows that the label committed for the node is the hash of ID, file number, node number and the labels committed for its parents, or gives a hash collision |
| CommitSoundness.StepBinding | pois/verify.go:208-223 | against an honest commit such a node carries the honest label, or gives a hash collision |
| CommitSoundness.AcceptedStep | pois/verify.go:167-252 | every step of every file in an accepted call is an accepted step, about the challenged node or the parent picked by the challenge, against the roots buffered for that file |
| CommitSoundness.AcceptedCallBinds | pois/verify.go:167-252 | for every step of an accepted call of VerifyCommitProofs: the label is the hash of what is named, the node carries the committed label, and the commitment is right at this node when the graph's parents are named, or there is a hash collision |
| CommitSoundness.PickedNamesParents | pois/verify.go:254-279 | the picked proofs of an accepted call name the parents of their nodes in the graph, in order |
| CommitSoundness.PickedNodeIsRight | pois/verify.go:167-279 | so at a picked node above the lowest layer an accepted well-formed proof with its number, of any prover, shows that the committed label is what the graph demands, or gives a hash collision |
| CommitSoundness.ValidIff | pois/verify.go:79-89 | with roots of 64 bytes a commit is valid if and only if its last root is the hash of the string that has all others, in order |
| CommitSoundness.CommitBinding | pois/verify.go:79-89 | two valid commits with the same last root have all roots equal, or give a hash collision |
| CommitSoundness.TakenMeans | pois/verify.go:66-94 | the commits taken are valid ones from the first on, until 64 are buffered, the list ends, or one is not valid |
| FileLabels.LabelBytesFit | pois/prove.go:246-261 | with a root of hash size the reused buffer holds exactly ID, count and root, so prover and verifier hash the same bytes |
| FileSoundness.FileLabelPreimage | pois/prove.go:246-261 | the string hashed for a file label is the only one that has the ID, the file number in eight big-endian bytes, and the root |
| FileSoundness.FileLabelBinding | pois/prove.go:246-261 | two files with one label have the same number modulo 2^64 and the same root, or give a hash collision |
| FileLabels.CheckAcc | pois/verify.go:299-316 | accepts exactly when all challenged indexes and file labels match and the accumulator update is proved; a panic only for missing roots or labels or a list of values shorter than the chain |
| FileLabels.BeginsWithCommitted | pois/verify.go:299-316 | the labels of an accepted proof begin with those of the challenged files |
| FileLabels.GrowsByCommitted | pois/verify.go:299-319 | with the chain of the tree and one value for each of its nodes the new accumulator is the root of the tree with all labels of the proof added; these are the labels of the challenged files alone if and only if there are as many as challenges |
| FileLabels.StrayLabelAccepted | pois/verify.go:299-319 | whatever the tree and the further label, the honest chain and values for the longer list are accepted as well, and the accumulator takes the further label in |
| FileLabels.ExtraValueAccepted | pois/verify.go:312-317 | with one value more than the chain has nodes, of any kind, an accepted proof is accepted again, and this value is the one that becomes the accumulator |
| FileSoundness.AccMeans | pois/verify.go:299-316 | an accepted addition names the challenged files, and their labels are the hashes of ID, number and committed top root |
| FileLabels.ComputeDeletedLabels | pois/verify.go:379-385 | file numbers count up to the verifier's Count, each label from a buffer of its own |
| FileSoundness.DeletedMeans | pois/verify.go:379-385 | the i-th deleted label is the hash of ID, the number Count - roots + 1 + i and the i-th root |
| FileLabels.CheckSpaceProof | pois/verify.go:336-359 | accepts exactly when every challenge has a path under its root and a file label that is a member |
| FileSoundness.SpaceMeans | pois/verify.go:336-359 | an accepted answer names the challenged place, has a path under its root, begins its chain with the hash of ID, challenged file and root, and its chain ends in the accumulator |
| FileSoundness.SpaceBinding | pois/verify.go:336-359 | when the chain begins with the label of a file over these labels, the answer is about that file and holds its label at the place whose sides are in Locs, or gives a hash collision |
| FileSoundness.AnyPlaceAccepted | pois/verify.go:336-349 | the place itself is not compared: whatever number is challenged, label and path of any place of the file are accepted once they carry that number |
| Verifying.CheckCommit | pois/verify.go:79-89 | a commit is taken exactly when it has K + 2 roots and the last is the hash of the others |
| Verifying.Verifier.RegisterProverNode | pois/verify.go:52-64 | a new prover starts with count 0, an empty buffer and the accumulator G; a known one is refused |
| Verifying.Verifier.ReceiveCommits | pois/verify.go:66-94 | takes as many commits as the limit allows up to the first bad one, behind those that wait |
| Verifying.Verifier.CommitChallenges | pois/verify.go:96-127 | for any random draws: challenges for the chosen buffered files, of the shape the walk needs |
| Verifying.Verifier.VerifyCommitProofs | pois/verify.go:167-252 | for challenges and proofs of any shape: accepts exactly when the picked dependencies hold and every step of every file is accepted against the buffered commits found for it |
| Verifying.Verifier.VerifyAcc | pois/verify.go:281-323 | for challenges and proofs of any shape: accepts exactly the proved updates; then accumulator, count and buffer move on, else nothing changes |
| Verifying.Verifier.VerifySpace | pois/verify.go:325-361 | for challenges and proofs of any shape: accepts exactly when every challenge is met |
| Verifying.Verifier.VerifyDeletion | pois/verify.go:363-392 | refuses while commits wait or too many files are named, and else accepts exactly the proved deletions |
| Proving.Prover.MakeIdleFile | expanders/generate_idle_file.go:84-170 | a worker writes the label files and roots of its file; Generated counts it |
| Proving.Prover.GetCommits | pois/prove.go:149-182 | as many commits as are asked for or generated, of the next files in order; fails without a change when there are none or one is missing |
| Proving.Prover.ReadAndCalcFileLabel | pois/prove.go:246-261 | the label of the file from the root of its top layer |
| Proving.Prover.ProveAcc | pois/prove.go:224-244 | labels in order, and a proof VerifyInsertUpdate accepts against the old root; a missing file or refused batch leaves the accumulator alone |
| Proving.Prover.OrganizeFiles | pois/prove.go:503-519 | the layer and commit files of the numbers after the count disappear, up to the first file that is missing |
| Proving.Prover.UpdateCount | pois/prove.go:119-125 | the count goes up first, and then the files after it are organized |
| Proving.Disk.OthersKept | pois/prove.go:119-125 | files up to the new count keep everything |
| Proving.Disk.RangeEmptied | pois/prove.go:503-519 | the num files after the new count lose roots and all layers but the top one, if all were there |
| Proving.Disk.StopsAtMissing | pois/prove.go:503-519 | at the first number of which something is missing only the layers below its first gap go, its commit file stays, and all later numbers keep everything |
| Proving.Disk.TopsStay | pois/prove.go:503-519 | the top layer files stay, whatever is organized |
| Proving.Disk.NextFileLost | pois/prove.go:119-125 | the next file loses its commit file if and only if all its files were there |
| Proving.Disk.NextRoundStarved | pois/prove.go:119-125 | a next file generated before UpdateCount cannot be committed or added after it |
| Proving.Prover.ProveSpace | pois/prove.go:384-431 | for each challenge the top root of the file, label and path at the place picked, and a witness chain |
| Proving.SpacePartMeans | pois/prove.go:398-422 | the label is that of the node of the top layer at the challenged number modulo 64, with the sides of that place in Locs, under the root committed for that layer |
| Proving.Prover.TakeFiles | pois/prove.go:473-487 | the top roots of the last num files, whose directories are removed, up to the first whose top layer is missing; all others stay |
| Proving.Prover.ProveDeletion | pois/prove.go:433-501 | the count goes down and the directories up to the first missing file go, whatever happens next; on success roots, chain and values of the deleted tail, accepted exactly when no survivor is mistaken for an empty accumulator |
| Session.HonestCommitValid | pois/verify.go:79-89 | an honest commit is taken by ReceiveCommits |
| Session.HonestAdditionAccepted | pois/verify.go:281-323 | an honest addition proof passes all of VerifyAcc |
| Session.RoomIff | pois/verify.go:66-94 | in step with the prover the verifier has room for the next commits and takes them all if and only if no more than 64 files are committed in all |
| Session.DeletedLabelsHonest | pois/verify.go:379-385 | what VerifyDeletion computes from the top roots of the last files are their labels |
| Session.DeletionLabels | pois/verify.go:363-392 | those labels are the elements the deletion removed, and the rest are the labels of the files left |
| Session.CommitRoundAccepted | test/pois_test.go:53-83 | honest proofs for files in order pass every check against their honest commits |
| Session.WindowChallenged | pois/verify.go:183-189 | challenges for any stretch of the waiting commits are checked against exactly the commits of that stretch |
| Session.CheckTooMany | pois/prove.go:190-222 | proofs for more than sixteen challenges at once are never accepted |
| Session.CheckNoLayers | pois/verify.go:254-266 | with K = 0 no honest proof is ever accepted, whatever the stretch and the draws |
| Session.ExchangeCommits | pois/prove.go:149-182 | as long as no more than 64 files are committed in all, GetCommits and ReceiveCommits keep both sides in step, in order |
| Session.CommitRound | pois/verify.go:96-252 | for any left and right into the waiting commits and all random draws: no proof exactly when a file is missing, else accepted if and only if at most sixteen files are challenged and K >= 1 |
| Session.SettleFiles | test/pois_test.go:85-109 | ProveAcc, VerifyAcc, UpdateCount: accepted whenever there is a proof, and both sides stay in step |
| Session.Round | test/pois_test.go:59-109 | a whole round is settled, or lacks a file or holds an illegal batch, or K = 0; with files there and a legal batch it is settled if and only if K >= 1 |
| Session.ChallengesAnswerable | pois/prove.go:275-382 | with all files there every challenge in order can be answered |
| Session.FirstRound | test/pois_test.go:33-109 | from the beginning, generating up to sixteen files, committing and settling them goes through for all random draws, and the verifier has counted them, if and only if K >= 1 |
| Session.SpaceRound | test/pois_test.go:110-132 | space challenges about verified files are always answered, and the answers accepted |
| Session.NewProver | pois/prove.go:76-89 | a new prover has count 0, no files and an empty accumulator in order |
| Session.Introduce | pois/verify.go:52-64 | a verifier that registers a new prover starts in step with it |
| Session.Run | test/pois_test.go:40-132 | over every run of feasible steps, with commits checked in any stretches and settled from the front, the accumulator and count of the verifier are those of the prover, element i is the label of file i, waiting commits keep their order, verified files keep their top layer, every counted file has used up one of the 64 slots of the commit buffer, and nothing is refused unless K = 0 |
| Session.Delete | test/pois_test.go:134-153 | with no commits waiting there is a proof exactly for the legal numbers; it is accepted exactly when no survivor is mistaken for an empty accumulator, and the labels of the remaining files are left |
| Session.WholeSession | test/pois_test.go:33-153 | a new prover and verifier, up to sixteen files, any draws, space challenges and a deletion of m of the files: all accepted if and only if K >= 1, the deletion if and only if all files go or the accumulator of those left is not mistaken for an empty one |

## Left out

- File and JSON encoding, paths, directories and partial I/O failures: files are maps that have an entry or not.
- `Hprime` and `Fu`, key generation and every hardness assumption: there are no unforgeability claims.
- Timers, tickers, channels of the services in pois/prove_service.go, the worker pool, buffer pools and the accounting of available space.
- The wait of `ProveDeletion` for pending commits, and `GetCommits` during a deletion: the model starts where the wait ends.
- `CommitRollback`, and commits that do not fit the buffer: `ReceiveCommits` runs out of its slice there, and `Session.RoomIff` says when.
- Runs that go on after a deletion: the verifier's value and count are not updated there, so a session ends with it.
- `SpaceChallenges` and its intended distinctness, since its map is never written; and what `ProveSpace` proves about the node named, since it takes the number modulo the hash size.
- `CalcLightMhtWitElements`, which nothing calls, and the empty tree for data that is not a multiple of the hash size.
- Merkle trees over leaf counts that are no power of two.
- Witness chains taken while an update runs: the tree is snapshotted, the element files are not.
- More than 1024^4 elements: `AccService.GetWitnessChain` bounds the index there, as the walk reduces it modulo the level size.
- Challenges that make the prover run out of a slice (a node number between -N and 0, a space challenge beyond the layer): its methods require what prevents it (`Askable`, `SpaceChallenges`).
- CommitChecking.VerifyNodeDependencies: requires the picked node numbers to be int32 values above -N, because below that `CalcParents` works with a negative layer, which no graph has.
- CommitChecking.CheckDependency: requires such a node number, for the same reason.
- Verifying.Verifier.VerifyCommitProofs: requires such numbers of the picked nodes, for the same reason.
- The conversion of node numbers to int32 in proofs: numbers are integers, and those computed are proved to fit.
- MerklePath.PositionBinding: asks for the Locs of an index, because `VerifyPathProof` takes them from the proof and does not compare them with one.
- CommitSoundness.NodeBinding: asks for them, too, since `VerifyCommitProofs` does not compare them either; so do the other members of CommitSoundness about places.
- CommitSoundness.AcceptedLabel: asks for D + 1 parents with labels of 64 bytes, because of shorter ones the label buffer keeps older bytes.
- CommitSoundness.PickedNodeIsRight: asks that the proof carries the number of the node visited, which the verifier compares for the challenged node only.
- FileSoundness.SpaceMeans: says what the chain begins with for roots of 64 bytes, because of others the label buffer keeps older bytes.
- UpdateRaces.AcceptedIffValues: is about chains of the right shape, because another shape compares values of different levels; races with deletions are left out.
- CalcParents.CalcParents: computes on unbounded integers, with every intermediate node number asserted to be an int32; node numbers of -N or below are left out.
