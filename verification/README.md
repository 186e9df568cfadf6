# Verification of the btide client

btide is a small BitTorrent-like client written in C. A package file (`.bpkg`) describes one data file: an identifier, a
list of inner hashes and a list of chunks, each with its hash, offset and size. Peers ask each other for chunks over TCP
with fixed-size REQ and RES packets. This project models the parts of the client that have to be right for such an
exchange to be right, and proves them right:

* **SHA-256** (`Sha256Spec`, `Primes`, `Sha256Constants`, `Sha256`, `Sha256Theorems`, `HashString`). The incremental
  hasher with its 64-byte carry buffer is a class whose methods are proved against FIPS 180-4. However a message is cut into updates,
  the result is the digest of the whole message, and comparing hash strings is comparing digests. Both constant tables
  are proved to be the root fractions of the first primes, as the standard derives them.
* **The Merkle tree** (`HeapTree`, `MinCover`, `MerkleTree`, `Package`, `Queries`). `insert_node` links heap nodes whose
  keys are computed by index arithmetic. `HeapTree` is that arithmetic, `MinCover` the combinatorics of `min_hash_find`:
  it reports exactly the maximal complete subtrees, no smaller set of nodes describes the same state, and it never
  reports more than half of the chunks, rounded up. `MerkleTree`, `Package` and `Queries` are the code on linked nodes
  and arrays, proved against those functions.
* **The package table** (`PackageTable`). A growable array with holes; its `size` always counts the used slots, which
  the growth path silently relies on, and every run of adds and removes is a run of a bag of packages.
* **The transfer protocol** (`Protocol`, `Fetch`, `Transfer`). `Protocol` holds packets, lookups and effects as
  functions on values, `Fetch` the theorems about them, `Transfer` the routines themselves. They meet in one end-to-end
  result: after REQ, the sender's loop and the delivery of its RES packets, the receiver's file has the sender's bytes of
  that chunk, every other byte is as before, and exactly that chunk has been added to the complete ones.
* **The handler pool** (`HandlerPool`). Slot assignment, the three exit paths of a handler and `peer_disconnect` as a
  step system in which every access to shared data is a step of its own. Slots stay exclusive in every interleaving,
  although one exit path writes the status without the lock and `peer_disconnect` reads its thread id before locking.

`Bytes` has byte strings, C strings and the memory primitives.

Where the code falls short of its comments or of its purpose, the model follows the code, shows an input, and proves
exactly when the code is right:

* The comment on `bpkg_get_all_chunk_hashes_from_hash` (project/src/chk/pkgchk.c:361-366) says that the root's left
  child stands for the first half of the file. It stands for a first part of the file exactly when the number of chunks
  is a power of two (`LeftChildIsFirstPart`); with three chunks it stands for the last two (`LeftChildExample`). For the
  same reason the walks meet the chunks in file order only in that case (`LeafOrderIsFileOrder`).
* `package_status` is meant to tell finished packages from unfinished ones. It does so in every completion state exactly
  for the packages with at least two chunks whose root hash occurs at no other node (`StatusIsExact`). A package of one
  chunk is never reported COMPLETED, and one whose first chunk has the root's hash is reported COMPLETED when only half
  of it is there (`StatusExample`).
* `chunk_in_memory` finds the root by its hash. With distinct chunk hashes it finds exactly the package's chunks if and
  only if the root's hash does not occur in the left subtree, which is searched first (`LookupIsExact`,
  `LookupExample`).
* The range test on project/src/package.c:125 admits the byte after a chunk. Asking for the first byte of a chunk whose
  predecessor has the same hash therefore gives an empty range, and that is the only such case (`DataLenInside`,
  `TwinExample`).
* The length field of a RES packet has 16 bits, its data field 2998 bytes, and project/src/package.c:196 compares the
  length with the rest of the chunk only. The write stays within the received bytes unless the file is there, the range
  lies inside the named chunk and the length exceeds 2998 (`InsideDataExactly`, `LongPacketExample`); for a package it
  always does exactly if the chunks have at most 2998 bytes (`BufferSufficesExactly`).
* The sender compares the requested length with the chunk's rest and ignores the outcome (project/src/package.c:249-255).
  Every served request is also served with a length that leaves the file (`LengthNotChecked`); the send loop meets a
  short read exactly for such a range (`ShortReadExactly`).
* The hash loop does not check its chunk index. It stays inside the array exactly if the file has less than one block
  more than there are chunks (`FitsChunksExact`, `SurplusBlockExample`).
* The carry buffer of `sha256_update` needs `size + chunk_size < 2^32`, which the code does not check; the carry then
  stays below a block, and only then (`CarryStaysBelowBlock`, `CarryOverflowExample`).

## Model

| member | source | states |
|---|---|---|
| Primes.FirstPrimes | project/src/crypt/sha256.c:11-56 | the table from which the constants are derived has all primes up to 311 and nothing else |
| Primes.Increasing | project/src/crypt/sha256.c:11-56 | its entries increase, so they are the first 64 primes in order |
| Sha256Constants.InitialValuesAreSquareRoots | project/src/crypt/sha256.c:49-56 | the eight initial values are the first 32 bits of the fractional parts of the square roots of the first eight primes |
| Sha256Constants.RoundConstantsAreCubeRoots | project/src/crypt/sha256.c:11-44 | the 64 round constants are the first 32 bits of the fractional parts of the cube roots of the first 64 primes |
| Sha256.RotationsAreSigmas | project/src/crypt/sha256.c:83-110 | the shift-and-or rotations of the macro compute the four sigma functions of section 4.1.2 of FIPS 180-4, for every word |
| Sha256.ExpandSchedule | project/src/crypt/sha256.c:71-92 | the two loops leave in w the message schedule of section 6.2.2 of FIPS 180-4 |
| Sha256.RoundInPlace | project/src/crypt/sha256.c:99-125 | the in-place shuffle of the eight words is one functional round of section 6.2.2 |
| Sha256.RunRounds | project/src/crypt/sha256.c:98-126 | the round loop ends with the working variables after 64 rounds |
| Sha256.AddInto | project/src/crypt/sha256.c:128-130 | the final loop adds the working variables to the chaining value modulo 2^32 |
| Sha256.Hasher.Init | project/src/crypt/sha256.c:48-61 | whatever the struct held before, it now stands for the empty message |
| Sha256.Hasher.CalculateChunk | project/src/crypt/sha256.c:65-131 | the chaining value becomes the FIPS 180-4 compression of the old one with the block |
| Sha256.Hasher.FlushCarry | project/src/crypt/sha256.c:142-152 | carry and head of the input are compressed as one block and the carry is empty |
| Sha256.Hasher.AbsorbBlocks | project/src/crypt/sha256.c:155-159 | the bulk loop compresses exactly the whole blocks of the input, in order |
| Sha256.Hasher.MergeCarry | project/src/crypt/sha256.c:141-153 | the first branch keeps the absorbed bytes followed by the rest of the input equal to what they were, and leaves an empty carry or an input that does not fill it |
| Sha256.Hasher.Update | project/src/crypt/sha256.c:135-163 | the absorbed message grows by exactly the given bytes; hcomps is the fold of compression over its full blocks, the carry is its tail, data_size its length modulo 2^64; chunk_size is what the 32-bit arithmetic of these lines gives |
| Sha256.Hasher.StoreLength | project/src/crypt/sha256.c:188-191 | the countdown loop stores the bit count as a big-endian 64-bit number behind the first 56 bytes |
| Sha256.PadSplit | project/src/crypt/sha256.c:172-193 | the padded message ends in one more block if the tail has at most 55 bytes and in two otherwise, with these contents |
| Sha256.Hasher.PadTail | project/src/crypt/sha256.c:172-183 | tail, 0x80 and zeros fill the block up to the length field, or one more block is compressed and zeros do |
| Sha256.Hasher.Finalize | project/src/crypt/sha256.c:167-194 | what has been compressed in the end is exactly the padded message of section 5.1.1, so hcomps is its digest |
| Sha256Theorems.ZeroCountIsLeast | project/src/crypt/sha256.c:172-183 | the number of zero bytes in the padding is the least one that section 5.1.1 allows |
| Sha256Theorems.PadInjective | project/src/crypt/sha256.c:167-194 | two messages with the same padding are equal, also beyond 2^61 bytes |
| Sha256Theorems.CarryStaysBelowBlock | project/src/crypt/sha256.c:141-162 | with 32-bit arithmetic, the carry stays below 64 (and is the right one) if and only if size plus carry does not wrap |
| Sha256Theorems.CarryOverflowExample | project/src/crypt/sha256.c:141-162 | a carry of 1 and an update of 2^32 - 1 bytes leave a carry of 64 |
| Sha256.Hasher.Output | project/src/crypt/sha256.c:197-205 | the 32 bytes of the digest, most significant byte of each word first, nothing else of the buffer written |
| Sha256.BinToHex | project/src/crypt/sha256.c:208-217 | two lowercase hex digits a byte, nothing else of the buffer written |
| Sha256.Hasher.OutputHex | project/src/crypt/sha256.c:220-225 | the first 64 characters are the hash string of the chaining value, the rest is unchanged |
| HashString.UnHexHex | project/src/crypt/sha256.c:208-217 | every character is a lowercase hex digit and decoding gives back the bytes |
| HashString.DigestStringRoundTrip | project/src/crypt/sha256.c:197-225 | decoding the hash string gives back the eight words, for every state |
| HashString.HashStringsCompareDigests | project/src/crypt/sha256.c:220-225 | two messages have equal hash strings if and only if they have equal digests |
| Sha256.HashPieces | project/src/crypt/sha256.c:48-225 | init, one update a piece, finalize, output: the hash string of the concatenation, for every way of cutting in which each piece and the carry it meets fit in 32 bits |
| Sha256.HashFile | project/sha256chk.c:30-40 | reading in 1024-byte buffers with a last short one gives the hash string of the whole file |
| HeapTree.InOrderOnce | project/src/tree/merkletree.c:129-163 | the subtree of key k consists of each of its descendants up to 2n once |
| HeapTree.AllKeysOnce | project/src/tree/merkletree.c:129-163 | the recursion over n hashes makes each key 0..2n exactly once and no other |
| HeapTree.LeafMember | project/src/tree/merkletree.c:129-163 | the leaves below k are exactly the keys n..2n that descend from it |
| HeapTree.LeafOrder | project/src/tree/merkletree.c:13-21 | the walk meets the chunks in file order rotated by r = 2^D - 1 - n, D being the depth of the tree, with 0 <= r <= n |
| HeapTree.LeafOrderIsFileOrder | project/src/tree/merkletree.c:13-21 | that is file order if and only if the number of chunks is 2^D |
| HeapTree.LeafOrderExample | project/src/tree/merkletree.c:13-21 | with three chunks the order is 1, 2, 0 |
| HeapTree.PerfectSubtree | project/src/tree/merkletree.c:129-163 | in a perfect tree the node at position p of level l has the chunks p*2^(D-l) to (p+1)*2^(D-l) below it, in order |
| MerkleTree.InsertNode | project/src/tree/merkletree.c:129-163 | the recursion ends, never indexes the chunks out of range, makes the nodes of exactly the keys of its subtree, links each to children and parent by key, and sets node_ptr of exactly the chunks in it |
| MerkleTree.InsertInner | project/src/tree/merkletree.c:131-145 | the same for an inner key, whose node has the two recursively built subtrees as children |
| MerkleTree.InsertLeaf | project/src/tree/merkletree.c:146-162 | key i gets a leaf with the hash of chunk i - n, and that chunk points to it |
| MerkleTree.CreateTree | project/src/tree/merkletree.c:197-204 | the whole tree: every key 0..2n has its node, only the root has no parent, chunk i points to the leaf of key n + i |
| MerkleTree.WalkUnfold | project/src/tree/merkletree.c:13-21 | visiting the keys in order is walking the left subtree, the node, the right subtree |
| MerkleTree.InorderSearch | project/src/tree/merkletree.c:13-21 | for each of the three visitors: exactly what the visitor selects along the in-order keys is appended from index i on, nothing else of the buffer changes |
| MerkleTree.VisitNode | project/src/chk/pkgchk.c:298-301 | the visitor functions append the node's value or not, as their condition says |
| MerkleTree.FirstBelow | project/src/tree/merkletree.c:23-44 | the first in-order match lies below the node and has the hash; there is none exactly if no descendant has it |
| MerkleTree.InorderFindNode | project/src/tree/merkletree.c:23-44 | the recursive search returns the node of the first in-order match, NULL exactly if there is none |
| MerkleTree.MinHashFind | project/src/tree/merkletree.c:46-77 | returns 1 exactly if all leaves below are complete and appends the hashes of the reported keys, nothing else of the buffer changes |
| MerkleTree.ReportOwn | project/src/tree/merkletree.c:62-76 | the last branch appends the root, the complete child or nothing |
| MinCover.EmitsMaximal | project/src/tree/merkletree.c:46-77 | for n >= 1 the reported keys are exactly the maximal complete subtrees, each reported once |
| MinCover.RootExactlyWhenAllComplete | project/src/tree/merkletree.c:62-68 | the root is reported, and then alone, exactly when every chunk is complete |
| MinCover.NothingForSingleChunk | project/src/tree/merkletree.c:48-55 | a tree of one leaf reports nothing, complete or not |
| MinCover.EmitCovers | project/src/tree/merkletree.c:46-77 | a chunk is complete if and only if it lies below a reported subtree, and it lies below at most one |
| MinCover.EmitIsMinimum | project/src/chk/pkgchk.c:336-344 | the reported set describes the completion state and no set of tree nodes that does is smaller |
| MinCover.EvenChild | project/src/tree/merkletree.c:129-163 | of two inner children one has an even number of chunks, being a perfect subtree |
| MinCover.EmitAtMostHalf | project/src/chk/pkgchk.c:348-352 | in any completion state at most half of the chunks, rounded up, is reported, so the buffer of nchunks entries is never overrun |
| Package.Bpkg.constructor | project/src/chk/pkgchk.c:232 | a loaded package has the finished tree over its hashes and chunks |
| Package.NewFileSize | project/src/chk/pkgchk.c:262 | the created file has the package's size; for size 0 the unsigned difference wraps and it has 2^32 bytes |
| Package.FileCheck | project/src/chk/pkgchk.c:247-274 | says whether the file existed; a missing one is created with zero bytes, no other file is touched |
| Package.HashBuffer | project/src/tree/merkletree.c:112-115 | the four hasher calls give the hash string of the buffer, whatever the struct held before |
| Package.HashBlocks | project/src/tree/merkletree.c:111-122 | the read loop gives every chunk with a full block in the file the hash of its block and changes no other node |
| Package.ComputeHashesForChunks | project/src/tree/merkletree.c:92-125 | the same with the opening of the file: no file, no change |
| Package.FitsChunksExact | project/src/tree/merkletree.c:111-122 | the loop, which does not check the index, reaches only existing chunks if and only if the file has less than one block more than there are chunks |
| Package.SurplusBlockExample | project/src/tree/merkletree.c:111-122 | a file of exactly one block more makes it reach a chunk that does not exist, for every block size |
| Queries.GetAllHashes | project/src/chk/pkgchk.c:285-296 | all nhashes + nchunks values in in-order sequence, and that is how many the walk writes |
| Queries.CompletedWalk | project/src/chk/pkgchk.c:325-332 | the walk collects exactly the hashes of the complete leaves, in leaf order |
| Queries.GetCompletedChunks | project/src/chk/pkgchk.c:310-323 | after the hash loop, the hashes of exactly the complete leaves in leaf order |
| Queries.CompleteExactly | project/src/tree/merkletree.c:92-125 | for a file of full size a chunk counts as complete if and only if its bytes hash to its hash, whatever had been computed before |
| Queries.CompletedQueryExact | project/src/chk/pkgchk.c:304-323 | the completed-chunks query reports exactly the chunks that the file holds |
| Queries.GetMinCompletedHashes | project/src/chk/pkgchk.c:345-357 | after the hash loop, the hashes that min_hash_find reports for the refreshed tree, within a buffer of nchunks entries |
| Queries.ChunksWalk | project/src/chk/pkgchk.c:395-400 | the walk below a node collects the hashes of its leaves in order |
| Queries.GetAllChunkHashesFromHash | project/src/chk/pkgchk.c:371-393 | the chunk hashes below the first in-order match, NULL exactly if there is no match |
| Queries.PerfectQuery | project/src/chk/pkgchk.c:360-393 | in a perfect tree with distinct hashes, asking for the node at position p of level l gives exactly its 2^(D-l) successive chunks in file order |
| Queries.LeftChildIsFirstPart | project/src/chk/pkgchk.c:361-366 | the left child of the root stands for a first part of the file if and only if the tree is perfect |
| Queries.LeftChildExample | project/src/chk/pkgchk.c:361-366 | with three chunks the left child of the root stands for the second and third |
| Queries.ReportsCompleted | project/src/package.c:92-104 | the completion test of package_status compares the first reported hash with the root's |
| Queries.StatusOfGoodTree | project/src/package.c:100-104 | with at least two chunks and a root hash that occurs at no other node, it succeeds if and only if all chunks are complete |
| Queries.StatusIsExact | project/src/package.c:100-104 | these two conditions are exact: over all completion states of a package the test is right if and only if both hold |
| Queries.StatusExample | project/src/package.c:100-104 | two chunks, the first with the root's hash and alone complete: the test succeeds |
| PackageTable.ManagedPackages.constructor | project/src/btide.c:185-195 | the table starts with two empty slots and size 0 |
| PackageTable.ManagedPackages.AddPackage | project/src/package.c:11-54 | the package goes into the first hole or, if there is none, the first slot of the new half; no other slot changes; size still counts the used slots; a failed load changes nothing |
| PackageTable.ManagedPackages.Grow | project/src/package.c:31-43 | the array doubles, all packages keep their slots and the new slots are empty |
| PackageTable.ManagedPackages.UseSlot | project/src/package.c:23-27 | the package goes into that free slot, no other slot changes and size still counts the used slots |
| PackageTable.ManagedPackages.RemovePackage | project/src/package.c:57-77 | exactly the first package with the 20-character prefix leaves its slot; 0 is returned exactly if there is none |
| PackageTable.AddIsBagStep | project/src/package.c:22-49 | on the bag of managed packages, adding adds that one package |
| PackageTable.RemoveIsBagStep | project/src/package.c:60-76 | on the bag, removing takes out one package with a matching identifier, and the scan fails exactly if there is none |
| PackageTable.RunRefinesBag | project/src/package.c:11-77 | along every run of adds and removes from the empty table each step is such a bag step |
| Protocol.ReqRoundTrip | project/src/peer.c:443-447 | reading a REQ payload gives back the offset, length, hash and identifier that were written |
| Protocol.ResRoundTrip | project/src/peer.c:490-509 | reading a RES payload gives back offset, data, length, hash and identifier, for every content of the fields |
| Transfer.SendReq | project/src/peer.c:152-159 | the stores and copies of send_req give the REQ layout with zero fill |
| Transfer.FillRes | project/src/peer.c:184-199 | the running-offset stores give the RES layout and fill it exactly: the 4-byte store into the 2-byte length field is repaired by the copy of the hash |
| Transfer.SendRes | project/src/peer.c:180-205 | the packet sent is the RES layout of the arguments, or the error packet |
| Transfer.ReadReq | project/src/peer.c:443-447 | the REQ branch reads the fields at their fixed offsets |
| Transfer.ReadRes | project/src/peer.c:490-509 | the RES branch reads the fields at the offsets it adds up |
| Protocol.FindPackageIsLowest | project/src/package.c:153-156 | of several packages with that 20-character prefix the one in the lowest slot is taken |
| Protocol.KnownHashesAreChunkHashes | project/src/package.c:158-162 | if the root's hash does not occur in its left subtree, a hash is found if and only if some chunk has it |
| Protocol.LookupIsExact | project/src/package.c:158-162 | with distinct chunk hashes that condition is exact: the lookup finds exactly the chunk hashes if and only if it holds |
| Protocol.LookupExample | project/src/package.c:158-162 | two chunks, the first with the root's hash: the second is not found |
| Transfer.ChunkInMemory | project/src/package.c:148-181 | returns -2 if no package has the prefix, -1 if the first that has it lacks the chunk hash, else 1 and that package |
| Protocol.DataLenFirst | project/src/package.c:119-145 | the first chunk with the hash whose range admits the offset decides; NULL exactly if there is none |
| Protocol.DataLenEndsChunk | project/src/package.c:122-138 | every result starts inside a chunk with that hash and ends where it ends |
| Protocol.DataLenInside | project/src/package.c:123-131 | an offset inside chunk c gives the rest of chunk c if and only if it is not the first byte of c with a predecessor of the same hash, and in that case an empty range |
| Protocol.TwinExample | project/src/package.c:123-131 | two chunks of ten bytes with the same hash: asking for byte 10 gives an empty range |
| Protocol.FoundHasRange | project/src/package.c:132-138 | after a successful lookup, the root being found first, a request without offset always gets the range of the first chunk with the hash |
| Transfer.CalculateDataLen | project/src/package.c:114-146 | the loop computes that range |
| Protocol.AcceptedStaysInChunk | project/src/package.c:183-203 | the range of any accepted packet, whatever its length field, lies inside a chunk with the packet's hash |
| Protocol.WriteStaysInChunk | project/src/package.c:205-219 | a write of received bytes to a file of full size overwrites exactly that range and changes no other file |
| Protocol.BufferSufficesExactly | project/src/package.c:196-210 | for a package that can be looked up, no packet makes the receiver take more bytes than it received if and only if the chunks have at most 2998 bytes |
| Protocol.LongPacketExample | project/src/package.c:196-210 | a packet that claims 4000 bytes is accepted for a chunk of 5000 |
| Fetch.RangeAllowsExactly | project/src/package.c:119-131 | for any well-formed package, repeated chunk hashes included, calculate_data_len allows a packet's range if and only if it lies inside a chunk with its hash and, unless it is empty, does not start where a chunk with the same hash ends |
| Fetch.AcceptedExactly | project/src/package.c:183-203 | a packet for a well-formed package is accepted if and only if its hash can be looked up and its range is allowed; if the root is found first, the second suffices |
| Fetch.InsideDataExactly | project/src/package.c:205-210 | the write takes received bytes only, if and only if not all hold: the file is there, the packet is accepted (told from its fields and the metadata), its length exceeds its data |
| Transfer.AddDataToFile | project/src/package.c:183-220 | the packet's effect on the files is exactly the delivery function: write if accepted and the file is there, nothing otherwise, for any length field that leads to no write |
| Transfer.HandleRes | project/src/peer.c:483-521 | a packet without error is read and delivered, one with error changes nothing |
| Protocol.ShortReadExactly | project/src/peer.c:467-475 | the send loop meets a short read if and only if something is requested and the range leaves the file |
| Protocol.LengthNotChecked | project/src/package.c:248-255 | the requested length decides nothing: every served request is also served with a length that leaves the file |
| Transfer.ReadPiece | project/src/package.c:278-309 | one read that is not short fills the data field with the next piece, zeros behind a short piece, and advances the counters |
| Protocol.CarriedIsRange | project/src/peer.c:467-475 | the ceil(len/2998) packets carry exactly the requested range, the first k exactly its first min(len, 2998k) bytes |
| Transfer.SendPieces | project/src/peer.c:461-477 | the send loop ends after exactly those packets, packet k having offset o + 2998k (modulo 2^32) and length min(2998, len - 2998k) |
| Transfer.OpenChunk | project/src/package.c:235-274 | a handle at the offset exactly if some freshly computed chunk hash equals the request's, the range exists and the file opens |
| Transfer.HeldIsHeldIn | project/src/package.c:236-238 | with a file of full size that depends on the bytes of the file alone, whatever had been computed before |
| Transfer.AnswerFrom | project/src/peer.c:464-481 | once the package has been found: the range's packets if the chunk is held, the range exists and the file opens, else the error packet |
| Transfer.AnswerReq | project/src/peer.c:461-481 | the packets sent are the range's packets if the request can be served and else one error packet; the named package's tree is rehashed if it has the chunk, and all other computed hashes stay |
| Transfer.HandleReq | project/src/peer.c:441-481 | the same from the raw packet on |
| Transfer.RequestChunk | project/src/btide.c:98-143 | the command sends a REQ for the computed range, and nothing if lookup or range fail |
| Transfer.RequestIsRequestFor | project/src/btide.c:126-143 | for a known chunk it requests from the given offset, or the chunk's start, to the chunk's end; an offset outside the chunk is refused |
| Fetch.KnownChunk | project/src/package.c:119-131 | with distinct chunk hashes an offset has a range if and only if it lies in the chunk or at its end, and the range is the rest of the chunk |
| Fetch.DeliverOne | project/src/package.c:183-220 | a packet for a known chunk is accepted and overwrites exactly its own range |
| Fetch.AnyOrder | project/src/package.c:183-220 | packets that agree with one content of the chunk, in any order and with any repetitions: the bytes some packet covers are that content's, all others and all other files as before |
| Fetch.ReplyCovers | project/src/peer.c:467-475 | the packets of one reply all agree with the sender's chunk and cover exactly the requested range |
| Fetch.DeliverRange | project/src/peer.c:441-521 | delivering them writes exactly the sender's bytes of the range |
| Fetch.FetchTransfersRange | project/src/peer.c:441-521 | a fetch from any offset inside a chunk or at its end, between peers with any two file names: the receiver gets the sender's bytes from there to the end of the chunk, nothing else changes |
| Fetch.FetchCompletesChunk | project/src/tree/merkletree.c:92-125 | writing a chunk that hashes correctly makes it held and leaves every other chunk as it was |
| Fetch.FetchChunk | project/src/peer.c:441-521 | the whole fetch: sender's bytes in place, all others unchanged, and a chunk is complete at the receiver's next hash loop if and only if it was before or is the fetched one |
| Fetch.FetchAddsOneChunk | project/src/chk/pkgchk.c:310-323 | the set of complete chunks becomes the old set plus the fetched chunk |
| Fetch.ShareFile | project/src/peer.c:441-521 | the fetch theorems have cases: every file from 1 to 2^31 - 1 bytes can be shared, under any two names, as a package of one chunk with a peer whose file is all zeros |
| Transfer.AnswerRequest | project/src/peer.c:441-477 | a sender whose chunk hashes correctly answers the request for it, from any byte on, with exactly the packets of that range |
| Transfer.RequestRange | project/src/btide.c:98-143 | the receiver's command sends that request, and none if the offset lies outside the chunk |
| Transfer.DeliverPackets | project/src/peer.c:483-521 | handling the packets one after the other is the delivery of those without error, in order |
| Transfer.FetchOverChannel | project/src/peer.c:441-521 | command with or without offset, REQ branch, send loop and RES branch run in sequence leave exactly that state on the receiver's disk; with an offset outside the chunk nothing changes |
| HandlerPool.StepKeepsInv | project/src/chk/helpers.c:140-175 | every step of every thread keeps the invariant on lock, status, thread array and program points, also while a started handler is not yet in the thread array |
| HandlerPool.RunInv | project/src/peer.c:385-427 | the invariant holds in every state of every interleaving |
| HandlerPool.SlotsAreExclusive | project/src/chk/helpers.c:140-175 | a slot with a live handler has status 1, and no slot ever has two live handlers |
| HandlerPool.BusyExactly | project/src/peer.c:391-427 | while no assignment to it is under way, a slot is marked busy if and only if it has a live handler: no slot is lost |
| HandlerPool.LiveAtMostMaxPeers | project/src/chk/helpers.c:142-169 | live handlers never outnumber max_peers |
| HandlerPool.ReleaseHitsNoLiveHandler | project/src/peer.c:327-346 | when a disconnect clears a status, even with a stale thread id, nobody lives in that slot |

## Left out

- Sockets, return codes of `send` and `recv`, partial reads, connecting and accepting, PNG/POG/ACP/ACK packets and all
  printing: the channel carries whole packets, one after the other.
- Failures of `FILE*` operations after a successful `fopen`, and the branch on a short read that closes the file and
  lets the loop go on (project/src/package.c:283-287); `ShortReadExactly` says when it is taken.
- Memory management (`malloc` and `realloc` failures, `destroy_all`, `remove_tree`, `bpkg_obj_destroy`), missing string
  terminators and the 65th byte copied into `computed_hash`; a hash is a string, initially empty.
- `bpkg_load`, `config_load`, `strip_whitespace` and the text parsing in `fetch_parser` and the command loop: metadata
  and arguments are parameters. `bpkg_load` does not check that there is one chunk more than hashes; this is a
  precondition of the tree.
- Files whose last chunk is shorter: the hash loop skips a partial block, so metadata has equal chunk sizes.
- `find_hash` (unused), `compute_hashes_for_tree` (only declared), `show_tree` and `print_current_level`.
- The peer array (`in_array`, `add_to_array`, `remove_from_array`, `get_fd`, `set_thread_id`, `get_thread_id`,
  `get_number_of_connections`): linear scans of one array, each under its lock. What matters of them to the pool, a
  thread id that may be stale, is an arbitrary id in the step `StartDisconnect`.
- The loop and the output of `package_status`; the test it applies to each package is `ReportsCompleted`.
- The packet count computed on project/src/peer.c:455-458 is only printed.
- Deadlock and liveness of a disconnect that waits for a handler while holding the status lock: only safety is claimed.
- The package lock: table and transfer routines are sequential here. `calculate_data_len` reads a package after the lock
  of the lookup has been given up, so a removal in between is not modelled.
- Sha256.Hasher.Update: requires that size plus carry is below 2^32, as the 32-bit test on line 141 needs;
  `CarryStaysBelowBlock` shows that this is the exact condition.
- Package.ComputeHashesForChunks: requires a file with less than one block more than there are chunks;
  `FitsChunksExact` shows that this is the exact condition for the unchecked index.
- Transfer.HandleRes: requires that a packet which leads to a write has a length of at most 2998; what the code takes
  from beyond its buffer otherwise is not modelled. `InsideDataExactly` and `BufferSufficesExactly` give the exact
  conditions. AddDataToFile and DeliverPackets likewise.
- Transfer.HandleReq: requires of a request that gets as far as the hash loop that the loop is safe, and of one that is
  served that its range lies inside the file and its length, which `bytes_read` counts as an int, is below 2^31. The
  hash of the request is read without a terminator in the code, as 64 bytes here.
- Transfer.RequestChunk: hash and identifier are the 64 and 1024 bytes that `send_req` copies; the checks of port, offset
  text and peer list before it are not modelled.
- Transfer.FetchOverChannel: the channel loses nothing and nobody else writes the two files meanwhile; both files have the
  full size. Each peer's metadata has its own file name, which `bpkg_load` begins with that peer's directory.
- Fetch.KnownChunk: assumes distinct chunk hashes and a root hash that does not occur in the left subtree;
  `DataLenInside` and `LookupIsExact` give the exact effect where they fail.
- PackageTable.ManagedPackages.AddPackage: capacity is unbounded, the int overflow of the doubling is not modelled; what
  `bpkg_load` returns is a parameter.
- HandlerPool.SlotsAreExclusive: the id a disconnect reads is any id below max_peers. In the code it can be an
  uninitialised value: between `add_to_array` and `set_thread_id`, and for good if `assign_thread` finds no free slot,
  since its callers (project/src/peer.c:94 and 307) ignore that and leave the peer in the array. `pthread_create`
  succeeds, and joining a slot that never had a thread, or joining a thread twice, returns at once.
