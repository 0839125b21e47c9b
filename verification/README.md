# Verification model of the evidence-reading and carving pipeline

Latent reads a disk image through layers (raw file, window, virtual disk, partition), scans it for
signatures in parallel blocks, and dispatches every hit to an extractor that validates the structure
found there. Each layer claims to agree with something simple, a flat run of bytes or a naive search, and
computes it through tables, loops, blocks or threads. This project states those agreements and proves
them for all inputs.

- **Source stack** (`Bytes`, `Sources`, `Windows`). A stack is one value, and `ByteAt` gives the meaning of
  each of its bytes by one table lookup at a time. The reading methods deliver exactly those bytes through
  short reads, clusters and interleaved tables, on stacks of any depth, and fail exactly when a byte does
  not resolve.
- **Virtual-disk images** (`ImageParts`, `Refusals`, `Qcow2`, `Vmdk`, `Vhdx`, `Headers`, `VhdxHeaders`,
  `Lookups`). `open`, what its headers and tables mean on the container's bytes alone, a writer, and the round
  trip: an image written from a disk opens and reads back as that disk. The writer chooses unit sizes, which
  units it stores and their order; tables come before data. That a container reads as a disk wherever its
  tables point is `ImageParts.MappedDisk`.
- **Block scan** (`Scan`, `ScanPool`). Plan arithmetic, one block, the whole scan against naive search, and
  the worker pool as a step system with its memory bound. The documented overlap bound is shown to be exact.
- **EVTX** (`Crc32`, `Evtx`, `EvtxSound`, `EvtxRecords`, `Extractors`, `Salvage`, `SalvageCarving`). CRC-32 is
  defined bit by bit, identified by its residue and by the table-driven form of section 8 of RFC 1952, and
  shown to catch every change confined to four consecutive bytes, so "a corrupt chunk is rejected" is a
  theorem. `EvtxSound` says from the writer's side which windows are accepted; the builders are the encoder.
- **Registry and carving** (`Registry`, `RegistryRuns`, `Dispatch`, `Carving`). Dispatch, counters under any
  interleaving, and the end-to-end statement: exactly one artefact at every offset whose window validates.
- **Partition tables** (`Partitions`, `MbrRoundTrip`, `GptRoundTrip`, `TableRoundTrip`). Sections 5.2 and 5.3
  of the UEFI Specification as the reader implements them: which table every disk reads as, and writers.
- **Integrity** (`Integrity`). Streaming hash, accepted spellings of an expected hash, open and close checks.

Machine integers are modelled as bounded subset types; saturating and checked operations are written out.
Where the code adds without a check, the bound it relies on is a `requires`: `Scan.Sane` and `Scan.Fits`
for `block_size + overlap` and the block offsets, `VhdxImages.REGION_REACH` for positions in the metadata
region, and the grain bound in `Sources.Layout.Valid` for `host + within`. `usize` is 64 bits.

Two places where code and documentation part, and the model follows the code:

- `latent-scan/src/engine.rs:52-55` asks for an overlap of at least the longest signature minus one, and
  nothing checks it; `Scan.OverlapBoundExact` shows that this bound is exactly what the scan needs.
- `latent-carve/src/registry.rs:153` calls `diagnostics` a consistent snapshot, but it loads the four counters
  one after the other while hits are dispatched. `RegistryRuns.TornSnapshot` is a report that rejects more hits
  than it has seen, with nothing in flight when it starts or ends. `RegistryRuns.SnapshotBalances` gives the
  exact condition: a report is sure to balance if and only if every hit of the extractor already has its
  verdict when the report starts.

## Model

| member | source | states |
|---|---|---|
| Bytes.LittleEndianRoundTrip | latent-carve/src/evtx/format.rs:34-44 | any number that fits a field's width survives being stored and decoded |
| Bytes.BigEndianRoundTrip | latent-source/src/vdisk/mod.rs:19-29 | the same for big-endian fields |
| Bytes.LittleEndianInjective | latent-carve/src/evtx/format.rs:34-44 | different bytes never decode to the same number |
| Bytes.LittleEndianWeights | latent-carve/src/evtx/format.rs:34-44 | a little-endian number is the sum of its bytes, the first weighing least |
| Bytes.BigEndianWeights | latent-source/src/vdisk/mod.rs:19-29 | a big-endian number is the sum of its bytes, the last weighing least |
| Bytes.SameField | latent-carve/src/evtx/format.rs:34-44 | two inputs decode a field equally exactly when they agree on its bytes |
| Sources.ReadAt | latent-source/src/lib.rs:29-34 | the contract every layer keeps when the layer below keeps it: a prefix of the clipped request with the right bytes, empty only at the end; failure only past the end or on an unresolvable byte; the rest of the buffer untouched; virtual disks never read short |
| Sources.ReadRaw | latent-source/src/raw.rs:93-117 | the base source delivers some non-empty prefix of its own bytes |
| Sources.ReadDisk | latent-source/src/vdisk/qcow2.rs:122-143 | the cluster loop delivers all requested guest bytes, each equal to its pointwise table lookup or zero for a hole, and fails only if one does not resolve |
| Sources.ReadUnit | latent-source/src/vdisk/vhdx.rs:118-127 | one turn of the loop delivers the part of a request inside one cluster, grain or block |
| Sources.ReadExactAt | latent-source/src/lib.rs:36-54 | terminates through any short reads; succeeds if and only if every byte of the request resolves, with exactly the flat slice; a non-empty request past the end reports a short read with `got = size - offset` |
| Sources.ReadBytes | latent-source/src/vdisk/vhdx.rs:182-183 | a raw field reads as the flat slice, or fails exactly when it is not readable |
| Sources.ReadBE | latent-source/src/vdisk/mod.rs:19-29 | a big-endian field reads as the number its bytes encode |
| Sources.ReadLE | latent-source/src/vdisk/mod.rs:31-47 | a little-endian field reads as the number its bytes encode |
| Sources.LocateUnit | latent-source/src/vdisk/qcow2.rs:89-110 | each reader's `locate` agrees with the pure table lookup: error, hole or host offset alike |
| Sources.FindCluster | latent-source/src/vdisk/qcow2.rs:89-110 | the L1/L2 walk finds what the two-level lookup names, despite saturating addresses |
| Sources.FindGrain | latent-source/src/vdisk/vmdk.rs:81-98 | the directory/table walk finds what the two-level lookup names |
| Sources.FindBlock | latent-source/src/vdisk/vhdx.rs:89-97 | the interleaved table read finds what slot `block + block / chunk_ratio` names |
| Sources.ReadEntryLE | latent-source/src/vdisk/vmdk.rs:82-87 | a saturated entry address reads exactly what the unbounded address would |
| Sources.UnitBytes | latent-source/src/vdisk/qcow2.rs:130-140 | bytes of one unit are consecutive in the container, all zero, or all unresolvable |
| Sources.SaturatedBytes | latent-source/src/vdisk/vhdx.rs:124 | clamping an address to 2^64 - 1 never turns a failing read into a succeeding one |
| Sources.CannotComplete | latent-source/src/lib.rs:38-46 | a read that makes no progress rules out the whole request |
| Sources.HostBytes | latent-source/src/vdisk/qcow2.rs:136-139 | a stretch of an allocated unit is readable exactly where its host bytes are, and equals them |
| Sources.StoredNumber | latent-source/src/vdisk/mod.rs:19-47 | a field decodes to a number exactly when that number's encoding lies there |
| Lookups.Qcow2Guest | latent-source/src/vdisk/qcow2.rs:89-143 | every guest byte, from the container's bytes alone: which L1 and L2 entry, which bits are the offset and the compressed flag, and the host byte, zero or nothing they lead to |
| Lookups.EntryBits | latent-source/src/vdisk/qcow2.rs:13-14 | the 64-bit masks pick bytes 1 to 6 of an entry without their lowest bit, and bit 62 |
| Lookups.VmdkGuest | latent-source/src/vdisk/vmdk.rs:81-130 | every guest byte from the container's bytes: directory entry, grain table entry, both in sectors, zero meaning a hole |
| Lookups.VhdxGuest | latent-source/src/vdisk/vhdx.rs:89-130 | every guest byte from the container's bytes: the payload slot in its group, state 6 or zero, and the offset from bit 20 up |
| Lookups.BlockBits | latent-source/src/vdisk/vhdx.rs:30-31 | the 64-bit masks pick the low three bits of the first byte as the state, and the MiB offset |
| Windows.Range | latent-source/src/window.rs:21-43 | opens exactly when the offset is within the source, as long as asked or as much as there is, and names offset and size otherwise |
| Windows.RangeBytes | latent-source/src/window.rs:21-66 | a window's bytes are the source's from its offset on, and it has none past its length |
| Windows.WindowOfWindow | latent-source/src/window.rs:21-66 | a window of a window fails exactly past the outer one and otherwise reads as one window with summed offset and clamped length |
| Windows.AdjacentReads | latent-source/src/lib.rs:29-54 | for any stack, adjacent reads concatenate to the joint read, which is possible exactly when both are |
| ImageParts.Assembled | latent-source/src/vdisk/qcow2.rs:122-143 | the writers' case: units stored one after the other in the listed order |
| ImageParts.MappedDisk | latent-source/src/vdisk/qcow2.rs:122-143 | a container laid out in any way reads as the disk if its tables map units to places that store them, anywhere and in any order, and leave holes only where the disk is zero |
| Qcow2Images.Open | latent-source/src/vdisk/qcow2.rs:27-86 | outcome is the one the header calls for, whatever the stack below reads short |
| Headers.Qcow2Accepted | latent-source/src/vdisk/qcow2.rs:27-86 | opens exactly the containers whose bytes spell the magic, version 3, no backing file, encryption or snapshots, and 9 to 21 cluster bits, and then with the geometry they spell |
| Headers.Qcow2Unsupported | latent-source/src/vdisk/qcow2.rs:41-64 | is called unsupported exactly for a backing file, encryption or snapshots |
| Qcow2Images.EntryValid | latent-source/src/vdisk/qcow2.rs:13-14 | a written entry survives the offset mask, is not compressed and is never taken for a hole |
| Qcow2Images.HeaderReads | latent-source/src/vdisk/qcow2.rs:27-86 | a written header opens with the geometry it was written from |
| Qcow2Images.ClusterFound | latent-source/src/vdisk/qcow2.rs:89-110 | the two-level lookup finds each allocated cluster where the writer put it and a hole elsewhere |
| Qcow2Images.RoundTrip | latent-source/src/vdisk/qcow2.rs:122-143 | for any disk, cluster size, order of tables and order of clusters covering its non-zero bytes, the image, wherever it is stored in a stack, opens and reads back as the disk |
| VmdkImages.Open | latent-source/src/vdisk/vmdk.rs:26-79 | outcome is the one the header calls for, and, with a readable descriptor, the one its text calls for |
| Headers.VmdkAccepted | latent-source/src/vdisk/vmdk.rs:26-66 | a header opens exactly when its bytes spell the magic, no compression and a usable geometry, and then with that geometry in bytes |
| Headers.VmdkUnsupported | latent-source/src/vdisk/vmdk.rs:37-43 | a header is called unsupported exactly for flag bit 16 |
| VmdkImages.RejectIfHasParent | latent-source/src/vdisk/vmdk.rs:133-162 | accepts without a descriptor or on a text that names no parent; refuses only on one that does, or unread |
| VmdkImages.EntriesFit | latent-source/src/vdisk/vmdk.rs:81-98 | written sector numbers are positive and fit 32 bits, so none reads as a hole |
| VmdkImages.HeaderReads | latent-source/src/vdisk/vmdk.rs:26-79 | a written header opens with the geometry it was written from |
| VmdkImages.GrainFound | latent-source/src/vdisk/vmdk.rs:81-98 | the directory and table lookup finds each allocated grain where the writer put it and a hole elsewhere |
| VmdkImages.RoundTrip | latent-source/src/vdisk/vmdk.rs:109-130 | for any disk of whole sectors, grain size, table sizes, order of tables and order of grains covering its non-zero bytes, the image opens and reads back as the disk |
| VhdxImages.ReadRegion | latent-source/src/vdisk/vhdx.rs:151-160 | one region entry, noted exactly when it is readable |
| VhdxImages.ReadRegionTable | latent-source/src/vdisk/vhdx.rs:133-166 | yields the last table and metadata regions listed, or the refusal their absence calls for |
| VhdxImages.ReadItem | latent-source/src/vdisk/vhdx.rs:194-208 | one metadata entry, noted exactly when it and the item it names are readable |
| VhdxImages.ReadMetadataRegion | latent-source/src/vdisk/vhdx.rs:176-216 | yields the disk's parameters or the refusal a missing one calls for |
| VhdxImages.Open | latent-source/src/vdisk/vhdx.rs:43-87 | outcome is the one the container calls for, whatever the stack below reads short |
| VhdxHeaders.VhdxAccepted | latent-source/src/vdisk/vhdx.rs:43-87 | opens exactly the containers with the identifier, both regions, all parameters, no parent, blocks of 1 to 256 MiB and a sector size; the ratio is the number of blocks whose sectors 2^23 bitmap bits cover |
| VhdxHeaders.VhdxUnsupported | latent-source/src/vdisk/vhdx.rs:61-67 | is called unsupported exactly when it reads in full and names a parent |
| VhdxHeaders.RegionsExact | latent-source/src/vdisk/vhdx.rs:133-166 | a readable region table yields exactly the offsets of the last entry of each kind |
| VhdxHeaders.MetadataExact | latent-source/src/vdisk/vhdx.rs:176-216 | a readable metadata table yields exactly the parameters of the last item of each kind, parent bit included |
| VhdxHeaders.Published | latent-source/src/vdisk/vhdx.rs:14-28 | the identifiers compared with are the published GUIDs in their mixed byte order |
| VhdxImages.ChunkRatio | latent-source/src/vdisk/vhdx.rs:72-73 | the ratio is the number of payload blocks whose sectors a 1 MiB bitmap block has bits for, or one if a block has more |
| VhdxImages.InterleaveIncreases | latent-source/src/vdisk/vhdx.rs:90 | payload slots follow block order, so no two blocks share one |
| VhdxImages.InterleaveBijection | latent-source/src/vdisk/vhdx.rs:90 | the interleave hits exactly the slots that are not the last of a group of `chunk_ratio + 1` |
| VhdxImages.InterleaveInverse | latent-source/src/vdisk/vhdx.rs:90 | the block of a payload slot is recovered by subtracting its group number |
| VhdxImages.EntryCount | latent-source/src/vdisk/vhdx.rs:72-90 | `n` blocks need exactly `n + floor((n - 1) / chunk_ratio)` entries, section 2.5 of [MS-VHDX] |
| VhdxImages.RegionsRead | latent-source/src/vdisk/vhdx.rs:133-166 | a written region table reads back |
| VhdxImages.MetadataRead | latent-source/src/vdisk/vhdx.rs:176-216 | written metadata items read back |
| VhdxImages.BlockFound | latent-source/src/vdisk/vhdx.rs:89-97 | the interleaved lookup finds each present block where the writer put it and a hole elsewhere |
| VhdxImages.RoundTrip | latent-source/src/vdisk/vhdx.rs:109-130 | for any disk, whole-MiB block size, sector size, bitmap slots after as many blocks as a bitmap block covers, and order of blocks covering its non-zero bytes, the image opens and reads back as the disk |
| Scan.Resolve | latent-scan/src/engine.rs:93-144 | succeeds exactly for non-zero settings whose smallest buffer fits; then the block is in 1..=requested, workers in 1..=requested and as many as the budget allows, and all buffers together fit the budget |
| Scan.FittedLargest | latent-scan/src/engine.rs:110-128 | the block size used is the largest one that fits the budget, at least 4 KiB unless asked smaller; there is none exactly when none fits |
| Scan.NewScanner | latent-scan/src/engine.rs:162-180 | refuses exactly an empty pattern set and the layouts a scan would refuse later |
| Scan.WorkersFit | latent-scan/src/engine.rs:131-133 | the worker count is the largest the budget and the request allow |
| Scan.RegionsTile | latent-scan/src/engine.rs:242-246 | owned regions tile the source with no gap, overlap or empty block |
| Scan.NaiveExact | latent-scan/src/engine.rs:187-193 | the reference search reports exactly the occurrences, each once, in strict (offset, pattern) order |
| Scan.AscendingUnique | latent-scan/src/engine.rs:34-43 | strict order and membership determine the hit list |
| Scan.FindOverlapping | latent-scan/src/engine.rs:252 | what the automaton yields: every match of every pattern, each once, by end position |
| Scan.SortedKeeps | latent-scan/src/engine.rs:264 | sorting leaves the same hits in strictly ascending order |
| Scan.CollectOwned | latent-scan/src/engine.rs:252-261 | keeps exactly the matches that start in the owned region, each once, in source coordinates |
| Scan.ScanBlock | latent-scan/src/engine.rs:236-267 | one block yields naive search of its owned region within what it read, and fails exactly when part of that is unreadable |
| Scan.BlockHits | latent-scan/src/engine.rs:250-266 | filtering and sorting buffer matches gives naive search of the source |
| Scan.Scan | latent-scan/src/engine.rs:194-231 | refuses exactly bad layouts, fails exactly on an unreadable source, and otherwise concatenates the blocks' hits |
| Scan.NaiveJoins | latent-scan/src/engine.rs:227-229 | naive search of adjacent ranges concatenates |
| Scan.OverlapSuffices | latent-scan/src/engine.rs:52-55 | an occurrence owned by a block ends within what the block read |
| Scan.PrefixScan | latent-scan/src/engine.rs:227-229 | after any number of blocks the hits are naive search of the region they own |
| Scan.ScanIsNaive | latent-scan/src/engine.rs:187-193 | for every source, pattern set, block size and sufficient overlap the block scan equals naive search of the whole source |
| Scan.StraddlingMissed | latent-scan/src/engine.rs:52-55 | one pattern longer than the overlap allows is lost on a concrete source |
| Scan.OverlapBoundExact | latent-scan/src/engine.rs:52-55 | the scan agrees with naive search on all sources if and only if the overlap is at least the longest pattern minus one |
| ScanPool.StepKeeps | latent-scan/src/engine.rs:220-225 | every step keeps each block in exactly one place, and a filled slot holds what any schedule would put there |
| ScanPool.StepDecreases | latent-scan/src/engine.rs:220-225 | every step of any worker reduces the remaining work |
| ScanPool.RunKeeps | latent-scan/src/engine.rs:220-225 | the invariant holds after every run, whose length the measure bounds |
| ScanPool.NeverStuck | latent-scan/src/engine.rs:220-225 | a pool that has not finished can always step |
| ScanPool.ScheduleIndependent | latent-scan/src/engine.rs:187-193 | any two finished schedules return the same result, in block order, or fail alike |
| ScanPool.CollectBlocks | latent-scan/src/engine.rs:218-225 | collecting the first blocks' outcomes succeeds exactly when the bytes they cover are readable, and then gives the sequential scan's hits |
| ScanPool.AnySchedule | latent-scan/src/engine.rs:187-231 | every finished run with any worker count returns naive search of the whole source or fails exactly when a byte does not resolve, within five steps a block |
| ScanPool.MemoryBounded | latent-scan/src/engine.rs:81-82 | buffers held never exceed workers times the largest buffer |
| ScanPool.MemorySteps | latent-scan/src/engine.rs:81-82 | the memory counted is every buffer allocated and not yet released, and nothing else changes it |
| ScanPool.BufferIsRead | latent-scan/src/engine.rs:242-249 | a block's buffer holds exactly the block and overlap, cut at the end of the source |
| ScanPool.MemoryWithinBudget | latent-scan/src/engine.rs:59-61 | at every moment of every run the buffers held together fit the memory budget |
| Crc32.UpdateConcat | latent-carve/src/evtx/format.rs:102-112 | hashing in pieces is hashing the concatenation |
| Crc32.UpdateInjective | latent-carve/src/evtx/format.rs:102-112 | the register after an input determines the register before it |
| Crc32.StoredInjective | latent-carve/src/evtx/format.rs:102-112 | different registers store different checksums |
| Crc32.StepBack | latent-carve/src/evtx/format.rs:102-112 | how the difference of two registers moves back over one pair of bytes |
| Crc32.BurstBack | latent-carve/src/evtx/format.rs:102-112 | up to four bytes bringing equal registers to equal registers are equal |
| Crc32.BurstDetected | latent-carve/src/evtx/format.rs:102-112 | every change confined to four consecutive bytes changes the checksum, whatever surrounds it |
| Crc32.BurstChanges | latent-carve/src/evtx/format.rs:102-112 | the same for two inputs that differ only in a four-byte window |
| Crc32.Residue | latent-carve/src/evtx/format.rs:102-121 | any input followed by its own checksum hashes to the published CRC-32 residue, and the empty input to zero |
| Crc32.TableStep | latent-carve/src/evtx/format.rs:102-121 | the bit-by-bit step is the table-driven one of section 8 of RFC 1952, with its published table entries for 1 and 128 |
| Crc32.FeedsWord | latent-carve/src/evtx/format.rs:102-121 | up to four bytes go through the register as the one word they spell |
| Evtx.HeaderCrcCovers | latent-carve/src/evtx/format.rs:102-112 | the two-piece header checksum is the checksum of the two covered stretches joined |
| Evtx.UncheckedIgnored | latent-carve/src/evtx/format.rs:82-140 | validation of a chunk depends on nothing but its checked bytes |
| Evtx.ChunkTampered | latent-carve/src/evtx/format.rs:82-140 | a change of an accepted chunk within four consecutive bytes on one side of offset 128, any single byte included, is accepted if and only if it leaves all checked bytes alone |
| Evtx.FileHeaderTampered | latent-carve/src/evtx/format.rs:230-266 | a change of an accepted file header within four bytes is accepted if and only if the first 120 bytes and the stored checksum are unchanged |
| EvtxSound.ChunkAccepted | latent-carve/src/evtx/format.rs:82-140 | a chunk is accepted exactly when its bytes are those a writer stores: magic, end of records, both checksums, first numbers not past the last |
| EvtxSound.ChunkRefused | latent-carve/src/evtx/format.rs:82-140 | an unsound chunk is refused for the first thing wrong with it, bounds and lengths named |
| EvtxSound.FileHeaderAccepted | latent-carve/src/evtx/format.rs:230-266 | a file header is accepted exactly when it carries its magic, its checksum and chunk numbers in order, and gives its stored fields |
| EvtxSound.FileHeaderRefused | latent-carve/src/evtx/format.rs:230-266 | an unsound file header is refused for the first thing wrong with it |
| EvtxSound.RecordExactly | latent-carve/src/evtx/format.rs:153-225 | a record is accepted exactly when it is framed by one size at head and tail, within the limits, and no framed record with a lower or equal identifier follows; the frame is that size and identifier |
| EvtxSound.RecordRefused | latent-carve/src/evtx/format.rs:153-225 | an unsound record is refused for the first thing wrong with it, bounds and lengths named |
| EvtxRecords.BuildRecord | latent-carve/src/evtx/format.rs:297-308 | the in-place builder lays out the record the encoder function describes |
| EvtxRecords.BuildChunk | latent-carve/src/evtx/format.rs:275-294 | the in-place builder fills header, records and both checksums as the encoder function describes |
| EvtxRecords.BuildFileHeader | latent-carve/src/evtx/format.rs:311-327 | the in-place builder lays out the file header the encoder function describes |
| EvtxRecords.RecordSize | latent-carve/src/evtx/format.rs:297-299 | the smallest multiple of eight with room for header, body and trailer |
| EvtxRecords.ChunkRoundTrip | latent-carve/src/evtx/format.rs:275-294 | any records that fit, built into a chunk, validate in full and are carried unchanged |
| EvtxRecords.RecordAccepted | latent-carve/src/evtx/format.rs:153-225 | a written record followed by anything is accepted, with its own frame, if and only if size and time are in bounds and no complete lower-or-equal-id record follows |
| EvtxRecords.RecordWellFormed | latent-carve/src/evtx/format.rs:202-222 | a written record blocks exactly the identifiers not below its own |
| EvtxRecords.BlockedGrows | latent-carve/src/evtx/format.rs:202-222 | showing more bytes never removes a neighbour's objection |
| EvtxRecords.ShorterWindowKeeps | latent-carve/src/evtx/format.rs:179-224 | a prefix of an accepted window that still holds the record is accepted with the same frame |
| EvtxRecords.LongerWindow | latent-carve/src/evtx/format.rs:179-224 | a longer window loses an accepted record exactly when it shows a complete lower-or-equal-id neighbour |
| Extractors.EvtxExtractExact | latent-carve/src/evtx/mod.rs:66-97 | an accepted candidate yields one artefact, at the candidate offset, made of the window's leading bytes with the length its kind calls for |
| Extractors.ExtractYields | latent-carve/src/evtx/mod.rs:66-97 | extraction accepts exactly the windows a sound structure starts, of all three kinds, and gives that structure whole, as its one artefact |
| Extractors.MagicsDiffer | latent-carve/src/evtx/mod.rs:54-60 | no two EVTX signatures can start at one place |
| Salvage.TailHarmless | latent-carve/src/evtx/format.rs:202-222 | what follows a record of a healthy stream never blocks it |
| Salvage.EveryRecordSalvaged | latent-carve/src/evtx/mod.rs:22-27 | whatever precedes a stream of increasing records, extraction at each boundary returns exactly that record, and the pieces concatenate to the stream |
| SalvageCarving.StreamCarved | latent-carve/src/evtx/mod.rs:22-27 | an exact carving of a source holds, at every boundary of a record stream laid anywhere in it, exactly that record |
| SalvageCarving.ChunkCarved | latent-carve/src/evtx/mod.rs:69-76 | an intact chunk anywhere in a source, or cut by its end past the records, is carved whole |
| SalvageCarving.FileHeaderCarved | latent-carve/src/evtx/mod.rs:77-85 | a written file header with chunk numbers in order is carved from anywhere in a source |
| Registries.Flatten | latent-carve/src/registry.rs:195-213 | pattern ids are the signatures in registration order, each mapped to the extractor whose interval holds it |
| Registries.OwnerUnique | latent-carve/src/registry.rs:195-213 | the owner of a pattern id is the only extractor whose prefix-sum interval contains it |
| Registries.Registry.constructor | latent-carve/src/registry.rs:195-213 | a built registry is consistent and has counted nothing |
| Registries.Registry.ExtractHit | latent-carve/src/registry.rs:116-151 | a hit returns its artefacts or none, never an error; its owner has it counted as seen, and as rejected exactly when its window is unreadable or refused and otherwise accepted with its artefacts; no other counter moves |
| RegistryRuns.StepKeeps | latent-carve/src/registry.rs:122-150 | after any atomic counter update of any thread the counters are the sum of what every hit has added so far |
| RegistryRuns.RunKeeps | latent-carve/src/registry.rs:122-150 | the same over every interleaving |
| RegistryRuns.CountersBalanced | latent-carve/src/registry.rs:122-150 | at any one moment of any interleaving, seen is accepted plus rejected plus in flight |
| RegistryRuns.JudgedSnapshot | latent-carve/src/registry.rs:153-168 | once every hit of an extractor has its verdict, any report equals the counters at its last load, whatever other threads do between the loads, and balances |
| RegistryRuns.SnapshotBalances | latent-carve/src/registry.rs:153-168 | from any state, a report is sure to have seen equal accepted plus rejected, over all steps between its loads, if and only if every hit of the extractor has its verdict when it starts |
| RegistryRuns.UnjudgedTears | latent-carve/src/registry.rs:153-168 | any hit still waiting or in flight gives an interleaving of the loads whose report does not balance |
| RegistryRuns.TornSnapshot | latent-carve/src/registry.rs:153-168 | a report of four separate loads that rejects more hits than it has seen, with nothing in flight when it starts or ends; and one moment at which the counters themselves do not balance |
| RegistryRuns.QuietCounters | latent-carve/src/registry.rs:122-150 | once all hits are done the counters are those of a sequential pass, and seen is accepted plus rejected |
| Dispatch.HitCounted | latent-carve/src/registry.rs:116-151 | one more hit adds its outcome to its owner's totals and nothing to any other's |
| Dispatch.EmittedIsReturned | latent-carve/src/registry.rs:136-143 | the emitted totals of a hit list are the number of artefacts it returns |
| Dispatch.DispatchConserved | latent-carve/src/registry.rs:116-168 | after any interleaving of any hits, each counter equals the sequential total, seen balances, and emitted sums to the artefacts returned |
| Carving.Carve | latent-carve/src/registry.rs:83-151 | scan and dispatch composed return the artefacts of exactly the naive hits in order, with the counters grown by exactly their outcomes; fails exactly on no patterns, a bad layout or an unreadable source |
| Carving.EvtxCovered | latent-carve/src/evtx/mod.rs:54-64 | the scan's overlap precondition holds for EVTX exactly from seven bytes on |
| Carving.OffsetCarved | latent-carve/src/evtx/mod.rs:66-97 | all hits at one offset, dispatched, are that offset tried once |
| Carving.CarvedIsSurveyed | latent-carve/src/evtx/mod.rs:54-97 | carving equals trying the extractor at every offset of the source |
| Carving.SurveyExact | latent-carve/src/evtx/mod.rs:66-97 | trying every offset gives one artefact at each where a sound structure starts, none elsewhere, in offset order, of the source's own bytes |
| Carving.EvtxCarvingExact | latent-carve/src/evtx/mod.rs:54-97 | what scan and dispatch make of a readable source: one artefact at every offset where a sound structure starts within 64 KiB, none elsewhere, in order, byte for byte |
| Carving.CarveEvtx | latent-carve/src/evtx/mod.rs:54-97 | end to end in one call, from building the registry to the artefacts: fails exactly on a bad layout or an unreadable source, and otherwise returns every sound chunk, file header and record, once each, in offset order |
| Carving.ExactAt | latent-carve/src/evtx/mod.rs:66-97 | an exact carving holds, where a sound structure starts, that structure and no other |
| Partitions.ReadGpt | latent-source/src/partition.rs:81-143 | yields the table the disk's flat bytes spell, or none |
| Partitions.ReadEntries | latent-source/src/partition.rs:109-142 | the entry loop yields the used, representable entries in order |
| Partitions.ReadMbr | latent-source/src/partition.rs:145-175 | yields primaries in slot order and then the chain's volumes, or none |
| Partitions.ReadLogical | latent-source/src/partition.rs:177-209 | on any bytes the chain walk terminates within 1024 sectors with the volumes of the bounded walk |
| Partitions.Read | latent-source/src/partition.rs:58-79 | the reads and loops yield the table the disk's flat bytes call for |
| TableRoundTrip.GptTable | latent-source/src/partition.rs:58-64 | a GUID table lying on the disk is read, over any boot sector |
| TableRoundTrip.MbrTable | latent-source/src/partition.rs:65-70 | without GPT, a boot sector with an extended slot and chain gives scheme MBR with ordinary slots and then volumes, or one volume if there are none |
| TableRoundTrip.PrimariesTable | latent-source/src/partition.rs:65-70 | without GPT, a boot sector with no extended slot gives scheme MBR with its ordinary slots |
| TableRoundTrip.AnyTable | latent-source/src/partition.rs:58-79 | every disk without GPT and with an extended slot, whatever else it holds |
| TableRoundTrip.NeitherTable | latent-source/src/partition.rs:71-78 | a disk with no GPT and no usable boot sector is one volume |
| TableRoundTrip.NoSignature | latent-source/src/partition.rs:81-86 | a disk without "EFI PART" at sector 1 has no GPT |
| TableRoundTrip.MbrTableRoundTrips | latent-source/src/partition.rs:58-79 | a written boot sector and chain read back with scheme MBR and all their partitions |
| Partitions.EntriesShaped | latent-source/src/partition.rs:118-142 | indices count up from 0 and lengths are positive whole sectors, whatever the array holds |
| Partitions.WalkShaped | latent-source/src/partition.rs:177-209 | the walk only appends, at most one volume a sector, keeping indices and lengths well shaped |
| Partitions.TableShaped | latent-source/src/partition.rs:58-79 | whatever the disk holds, the table is well shaped, and an MBR lists at most 4 + 1024 partitions |
| Partitions.WindowContained | latent-source/src/partition.rs:32-36 | a partition's window opens exactly when it starts on the disk, lies inside it and reads its bytes |
| MbrRoundTrip.BootSectorReads | latent-source/src/partition.rs:145-166 | a boot sector written with any four slots, whatever their status and CHS bytes, parses to those slots |
| MbrRoundTrip.WalkFollows | latent-source/src/partition.rs:177-209 | over any chain on a disk, however its sectors are filled and even if links form a cycle, the walk collects exactly the volumes of its first 1024 records, in order |
| MbrRoundTrip.VisitedChain | latent-source/src/partition.rs:177-209 | on any disk, what the walk visits is such a chain, of at most 1024 records |
| MbrRoundTrip.PrimariesReadBack | latent-source/src/partition.rs:145-175 | a boot sector without an extended slot reads as its ordinary slots, in slot order |
| MbrRoundTrip.MbrSlots | latent-source/src/partition.rs:151-165 | for any sector: the ordinary slots are listed in slot order, wherever they are, and the last extended slot, if any, starts the chain |
| MbrRoundTrip.MbrReadsBack | latent-source/src/partition.rs:145-175 | any signed boot sector with an extended slot in any place, and a chain from there: ordinary slots in slot order, then the chain's logical volumes at absolute offsets |
| MbrRoundTrip.AnyMbr | latent-source/src/partition.rs:145-209 | every disk with an extended slot, whatever its bytes, reads as its ordinary slots followed by the volumes of a chain that lies on it, or by none if no chain starts there |
| MbrRoundTrip.NotBootable | latent-source/src/partition.rs:145-150 | an unreadable or unsigned boot sector gives no table |
| MbrRoundTrip.ChainKept | latent-source/src/partition.rs:177-209 | writing records at distinct sectors disturbs neither the boot sector nor earlier records |
| MbrRoundTrip.MbrRoundTrips | latent-source/src/partition.rs:145-209 | write any boot sector with an extended slot and any chain at distinct sectors, every ignored byte free, onto any disk with room, and it reads back |
| GptRoundTrip.NameReads | latent-source/src/partition.rs:238-246 | a written name decodes to its 16-bit units, whatever follows its terminator |
| GptRoundTrip.NameKept | latent-source/src/partition.rs:238-246 | a name is missing exactly when its first unit is zero |
| GptRoundTrip.EntryReads | latent-source/src/partition.rs:118-141 | an entry with any name field and vendor bytes parses to its partition, or to none exactly when it is empty or not representable in bytes |
| GptRoundTrip.EntriesRead | latent-source/src/partition.rs:117-142 | a written array of any entry size parses to exactly its used entries, in order |
| GptRoundTrip.HeaderReads | latent-source/src/partition.rs:81-108 | a written header, its checksum over itself with the field zeroed, parses to its fields |
| GptRoundTrip.HeaderAccepted | latent-source/src/partition.rs:81-109 | a sector is accepted as a header if and only if it is, byte for byte, the header written for some layout |
| GptRoundTrip.GptExact | latent-source/src/partition.rs:58-143 | a disk reads as GPT exactly when a table lies on it: a header for some layout and, where it says, entries with its checksum; the used entries are what is read |
| GptRoundTrip.GptReadsBack | latent-source/src/partition.rs:58-143 | a disk holding a header and array with matching checksums reads as scheme GPT with the used entries |
| GptRoundTrip.GptRoundTrips | latent-source/src/partition.rs:58-143 | write any table of 1 to 4096 entries onto any disk with room, and it reads back |
| GptRoundTrip.HeaderTampered | latent-source/src/partition.rs:81-100 | a change of an accepted header within four bytes, clear of its declared size, is accepted if and only if it lies past that size |
| GptRoundTrip.EntriesTampered | latent-source/src/partition.rs:110-115 | a change of an accepted entry array within four bytes is always caught |
| Integrity.WriteHex | latent-core/src/hash.rs:25-32 | two lowercase digits a byte, high digit first: read in base 16 they give the bytes back |
| Integrity.RenderedOnce | latent-core/src/hash.rs:25-32 | bytes have only one such rendering |
| Integrity.HexInjective | latent-core/src/hash.rs:25-32 | equal renderings come from equal digests |
| Integrity.SourceReader.Read | latent-source/src/integrity.rs:128-134 | delivers the bytes after the last ones, none only at the end |
| Integrity.HashSource | latent-source/src/integrity.rs:118-121 | terminates, succeeds exactly on a fully readable source, and renders in base 16 the one-shot hash of its flat contents, whatever the read sizes |
| Integrity.NormalizedSpells | latent-source/src/integrity.rs:79-86 | an expected text is accepted exactly when it is the digits of the hash, letters in either case, with white space around them |
| Integrity.Wrap | latent-source/src/integrity.rs:75-89 | opens exactly a readable source whose hash the expected text spells, and says which check failed |
| Integrity.Finish | latent-source/src/integrity.rs:103-115 | succeeds exactly when what the source now holds is readable and has the digest of what was opened |

## Left out

- Base sources: memory mapping, positioned reads and their I/O errors, and the libewf binding; a raw source is its bytes, read through arbitrary short reads.
- Choosing a reader by file magic, identities, paths, error texts, audit events, collection and the command line.
- Which error an unreadable byte gives inside a table walk: only that the read fails.
- VHDX headers, log, checksums and differencing disks, QCOW2 zero flags, feature bits and extended entries: the readers do not decode them.
- Aho-Corasick internals: `Scan.FindOverlapping` is an exhaustive matcher with the iterator's promise, all overlapping matches by end position; errors building the automaton or the thread pool are not modelled.
- `sort_unstable` is modelled by the order it must produce, computed by insertion.
- The rayon pool is a step system of claim, allocate, search, release and publish; which block a worker takes and when it stops early after a failure are left open, thread creation is not modelled.
- The source of a stack is a recursive datatype rather than a trait, so implementations from outside the crate are not covered.
- SHA-256 internals: the hash is any streaming function that satisfies the update law; `raw_sha256` of an artefact is not modelled.
- Counters wrap at 2^64 in the original; here they do not.
- GUID and type-code rendering, and lossy decoding of UTF-16 names (names are their 16-bit units).
- Sources.ReadRaw: a base source whose positioned read fails with an I/O error is not represented; every byte of it can be read.
- VmdkImages.Open: the line scan of the descriptor for a parent is a parameter, judged on whatever prefix the read shows.
- VmdkImages.RejectIfHasParent: the same parameter.
- Scan.NewScanner: errors from building the automaton are not represented.
- Extractors.EvtxExtractExact: an artefact carries offset, kind and bytes; its method label and its digest are not represented.
- GptRoundTrip.NameReads: a name is its 16-bit units; the lossy decoding to text is not represented.
- Qcow2Images.RoundTrip: the writer packs header, L1 table, L2 tables and data in that sequence; other placements are covered on the reading side by `ImageParts.MappedDisk`.
- VmdkImages.RoundTrip: the writer packs header, directory, tables and data in that sequence, without a descriptor.
- VhdxImages.RoundTrip: the writer puts the metadata region and the table at fixed offsets and uses blocks of whole MiB.
- Evtx.ChunkTampered: a change spanning offset 128, from the stored header checksum into the covered bytes after it, is not covered, because it can alter a checksum and its input together.
- GptRoundTrip.HeaderTampered: changes to the declared header size, which move the end of the hashed bytes, and changes spanning offset 20 are not covered.
- Sources.ReadDisk: a VMDK grain within 2^41 bytes of 2^64 is excluded, because there the original adds host offset and position without a check.
- VhdxImages.Open: requires the container to end about 2^32 below 2^64, because positions in the metadata region are added without a check.
- Scan.Scan: requires source size, block size and overlap to add up below 2^64, because the original adds them without a check.
