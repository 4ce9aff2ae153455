# Janex container and resource stack

Janex packs Java applications into one file: a sequence of sections behind a launcher and in front of an
optional tail, found from a footer. A section of blobs holds compressed files, a pool of shared names, and
resource roots. A root is a stack of layers over directories, merged at launch into one tree with links, and
expanded into an archive when a Java runtime needs one.

This project models that stack in Dafny, link by link, and proves that each link undoes another or agrees
with a simpler meaning. It composes them into two theorems. From the bytes of a finished container, opening it,
resolving a root, decoding it and reading any file gives the bytes that were imported
(`ContainerTheorems.ImportedContainerIsLossless`). And merging that root and expanding it for a Java runtime gives the
archive that the imported layers themselves expand to (`ContainerTheorems.ContainerExpandsAsImported`).

## How it is built

Every operation appears twice. A *specification function* says what it computes on values; a *method* or a
*class method* does it the way the program does, with the same cursor, growing output, map or stack, and is proved
equal to the function. What the program promises is then proved about the functions. Readers are functions
`...At(s, pos, ...)` that return a value and the next position, so that a round trip holds anywhere in any input.

| modules | part |
|---|---|
| Binary, DataPools, Text | variable-length integers, cursors, and the pool of shared entries with rollback |
| ClassFile, ClassFileProofs, ClassFileCode | sharing the constant pool of a class file (JVMS, section 4.4) |
| Floats, Cbor, CborProofs, CborValues | deterministic CBOR (RFC 8949, section 4.2.1) |
| Ranges, Blobs, BlobBuilder, BlobProofs, BlobStores, BlobTheorems | blob pools: overlap map, building, publishing, lazy reading, validation |
| Names, Contents, Paths, Resources, ResourceProofs, ResourceChecks, ResourceCode, ResourceReader | resource roots: names, descriptors, paths, encoding, validation, decoding |
| Pack, PackProofs, PackTheorems, PackCode, PackFitting, PackReading | packing an imported root, and reading it back |
| Trees, TreeProofs, TreeTheorems | merging layers |
| Resolution, ResolutionTheorems | following links |
| Materialization, MaterializationProofs, MaterializationTheorems, MaterializationExactness | expanding a tree into archive entries |
| PackedArchives | merging and expanding a packed root, against the layers it came from |
| Versions, VersionText, Timelines, Conditions, Orders | Java versions, version ranges, conditions |
| Imports, ImportTheorems | splitting a multi-release JAR into layers |
| Containers, ContainerProofs, ContainerTheorems, ContainerCode | the sectioned file |
| Zip64, Launches, Manifests, ManifestProofs, ManifestTheorems | the record scan, the overlay evaluator, the manifest codec |

Conventions:

- Bytes are naturals below 256 and 64-bit integers are naturals below 2^64; every overflow check of the program
  is written out. Limits are explicit parameters, and the writer's need not be the reader's. A round trip says: when the
  writer succeeds and the reader's limits admit the sizes (`Admits...`, `Fits...`), reading gives the value back.
- A reader's limits bound single values and counts, never a whole section. Files are admitted one by one: a reader that
  admits the table, names and root of a packed pool reads exactly the files it admits (`PackTheorems.AdmitsFile`).
- Compression and digests are a `Codec` of arbitrary functions. The only assumption, `Faithful`, is that decompressing
  what was compressed gives it back, for contents within the byte limit and in the window that this limit allows, and that a
  digest has its algorithm's length. Digests may collide.
- A blob store reads a fixed `View` of sections. A table is *valid* when all its pages load together. The store is lazy,
  so on an invalid table it may answer from pages already loaded. Two promises bound it: a result is always the one the
  view defines, and whatever the pools with valid tables define on their own (`BlobStores.Trusted`) is found.
- Merging takes the evaluation of a condition as a function, which may fail; `Conditions` supplies the program's.
- Decoding a root takes the check of a condition as any predicate.

## Findings

- The rule that an upper bound may not follow an equality in a version range is what makes the initial flag of
  `contains` right: `Timelines.EqualityRuleIsNeeded` gives a range without it, `=8` and then `<9`, where the scan and
  the intervals differ at `8-ea`.
- The single merge check of an import covers every runtime of known version. A runtime of unknown version
  fails on every import with a version layer (`ImportTheorems.UnknownVersionFails`).
- A version layer that only adds a file or link to a directory also records that directory, without metadata, and so
  replaces what the base archive recorded for it (`ImportTheorems.UnsuppliedIsDirectory`).
- Length-prefix integers are read leniently: a padded spelling is accepted, and only the writer's is shortest
  (`Binary.VuintShortest`). CBOR heads, in contrast, have one spelling.
- Decoding a pool does not check for duplicate entries; the rebuilt reverse index keeps the last of equal entries and
  stays consistent with the indices in use (`DataPools.ReindexedIsConsistent`).
- Encoding a root can fail after interning names; the pool then keeps them, as its documentation says.

## Model

| member | source | states |
|---|---|---|
| `Binary.VuintRoundTrip` | janex-format/src/binary.rs:123-137 | An encoded 64-bit value reads back as itself, at any position of any input, ending right after its bytes; the ten-byte overflow rule included |
| `Binary.VuintShortest` | janex-format/src/binary.rs:171-180 | No accepted spelling of a value is shorter than the one the writer produces (padded spellings are accepted, never preferred) |
| `Binary.SizedRoundTrip` | janex-format/src/binary.rs:146-150 | A length-prefixed byte string reads back whenever the byte limit admits its length |
| `Binary.WriteVuint` | janex-format/src/binary.rs:171-180 | The seven-bits-per-step loop appends exactly the group encoding of the value |
| `Binary.WriteSized` | janex-format/src/binary.rs:185-189 | Appends the length and then the bytes |
| `Binary.Decoder.Take` | janex-format/src/binary.rs:92-101 | Succeeds if and only if enough bytes remain, and then returns them and moves the cursor past them |
| `Binary.Decoder.U8` | janex-format/src/binary.rs:104-106 | Returns the byte under the cursor, or fails at the end of the input |
| `Binary.Decoder.ReadVuint` | janex-format/src/binary.rs:123-137 | The accumulate-and-shift loop computes the recursive reading: the same value, end position and failures |
| `Binary.Decoder.ReadSized` | janex-format/src/binary.rs:146-150 | Reads a length within the limit and then that many bytes, or fails exactly when one of the two does |
| `DataPools.PoolRoundTrip` | janex-format/src/data_pool.rs:42-79 | Decoding an encoded pool gives back its entries in order whenever the limits admit it |
| `DataPools.InternedGrows` | janex-format/src/data_pool.rs:167-177 | Interning never renumbers: every earlier entry and reverse-index binding stays, the returned index names the value, and the two stay consistent |
| `DataPools.TruncatedUndoesGrowth` | janex-format/src/data_pool.rs:180-189 | Rolling back to the earlier length after any growth restores the earlier pool exactly, entries and reverse index alike |
| `DataPools.ReindexedIsConsistent` | janex-format/src/data_pool.rs:125-138 | Rebuilding the reverse index of a decoded pool, duplicates and all, gives a usable builder |
| `DataPools.Encode` | janex-format/src/data_pool.rs:69-79 | The offsets-and-payload loop writes the count and then each entry with its length |
| `DataPools.Decode` | janex-format/src/data_pool.rs:42-66 | The decoding loop succeeds exactly on well-formed pools (an empty first entry, no trailing bytes, sizes within limits) and yields their entries |
| `DataPools.DataPoolBuilder.constructor` | janex-format/src/data_pool.rs:152-154 | A new builder holds only the empty entry |
| `DataPools.DataPoolBuilder.From` | janex-format/src/data_pool.rs:125-138 | Reopens a decoded pool with its entries unchanged and a rebuilt reverse index |
| `DataPools.DataPoolBuilder.Intern` | janex-format/src/data_pool.rs:162-177 | Changes payload, offsets and index so that the builder stands for the interned state, and returns that state's index |
| `DataPools.DataPoolBuilder.Truncate` | janex-format/src/data_pool.rs:180-189 | Shortens payload, offsets and index to the truncated state; the index loses exactly the dropped values |
| `ClassFileProofs.ScanIsLossless` | janex-format/src/classfile.rs:311-340 | A scanned constant pool, written back with tags and bodies, is exactly the bytes that were scanned, with one empty slot after each long and double |
| `ClassFileProofs.TemplateExpands` | janex-format/src/classfile.rs:221-308 | For text without zero bytes, expanding an encoded template against any pool that has since grown gives back the text; the zero byte marks each shared name unambiguously |
| `ClassFileProofs.CandidateReads` | janex-format/src/classfile.rs:99-212 | Whichever external tag is chosen for a string (class name, template, whole string), reading it gives the string back |
| `ClassFileProofs.WrittenReads` | janex-format/src/classfile.rs:123-212 | A constant as transform writes it, replaced or not, reads back as the original tagged record and takes as many slots |
| `ClassFileProofs.SlotsRestore` | janex-format/src/classfile.rs:145-217 | Restoring the whole rewritten pool, slot by slot with two-slot constants, gives the original constant pool bytes |
| `ClassFileProofs.TransformRoundTrip` | janex-format/src/classfile.rs:74-217 | An output of transform is strictly shorter than its class file and restores to exactly that class file, against the pool it left or any later extension of it |
| `ClassFileProofs.RunRestores` | janex-format/src/classfile.rs:74-217 | Over any run of transform calls on one builder, each output restores against the final pool, whatever the calls around it did |
| `ClassFileProofs.UnproductiveCallsLeaveNoTrace` | janex-format/src/classfile.rs:117-136 | Deleting every call that failed or declined from a run leads to the same final pool: rollback leaves neither entries nor index behind |
| `ClassFileCode.ReadConstant` | janex-format/src/classfile.rs:413-434 | Consumes exactly the body that the tag prescribes, or rejects the tag or a short input |
| `ClassFileCode.Scan` | janex-format/src/classfile.rs:311-340 | The scanning loop fills the slots of the recursive scan and reports the same kind of failure |
| `ClassFileCode.EncodeTemplate` | janex-format/src/classfile.rs:221-271 | The in-place loop over the text returns the template and leaves the pool it needs; with nothing shared it returns none and the pool is unchanged |
| `ClassFileCode.EncodeCandidate` | janex-format/src/classfile.rs:99-116 | Chooses a class name, a template or the whole string as the program does, leaving in the pool what that form refers to |
| `ClassFileCode.EncodeConstant` | janex-format/src/classfile.rs:93-122 | Replaces only eligible strings, only by a form no longer than the body; when nothing is replaced the pool is as before |
| `ClassFileCode.TransformClass` | janex-format/src/classfile.rs:74-138 | The whole rewriting loop against a mutable builder equals the transform on states, including the final rollback when the class does not shrink |
| `ClassFileCode.RestoreTemplate` | janex-format/src/classfile.rs:274-308 | The expansion loop computes the template's meaning under the byte limit and rejects the same malformed templates |
| `ClassFileCode.ReadRecord` | janex-format/src/classfile.rs:160-205 | Reads one ordinary or external record against the pool, with the same failures |
| `ClassFileCode.RestoreSlots` | janex-format/src/classfile.rs:157-216 | The slot loop appends each restored record and then the class body |
| `ClassFileCode.RestoreClass` | janex-format/src/classfile.rs:145-217 | Restores a transformed class file, or fails on a wrong magic, a bad pool or a limit |
| `CborProofs.ItemRoundTrip` | janex-format/src/cbor.rs:353-398 | Every valid value parses back from its encoding, at any position and depth |
| `CborProofs.ItemMeaning` | janex-format/src/cbor.rs:353-398 | Whatever the scanner accepts is the encoding of a valid value, byte for byte: no second spelling of a head, an order, a tag or a float |
| `CborProofs.AcceptsExactlyEncodings` | janex-format/src/cbor.rs:28-36 | An input is accepted as a value if and only if it is that value's encoding and within the limits (RFC 8949, section 4.2.1) |
| `CborProofs.EncodingIsInjective` | janex-format/src/cbor.rs:353-398 | Two valid values with the same encoding are the same value |
| `Floats.NarrowValue` | janex-format/src/cbor.rs:401-423 | A single or double whose dropped bits are zero has a half or single of the same value: sign, magnitude or infinity, subnormals included |
| `Floats.ValueNarrows` | janex-format/src/cbor.rs:401-423 | Conversely, if some narrower float has the same value, the bits that narrowing drops are zero and the exponent is in range |
| `Floats.ShortestMeans` | janex-format/src/cbor.rs:401-423 | A single or double is accepted if and only if it is not a NaN and no narrower float has its value |
| `CborValues.IntegerRoundTrip` | janex-format/src/cbor.rs:53-84 | Every signed 128-bit integer reads back from its item, bignums included |
| `CborValues.IntegerIsCanonical` | janex-format/src/cbor.rs:175-195 | Every item read as an integer is the one item the constructor builds for it, so padded bignums and bignums that fit a head are refused |
| `CborValues.MapOfMeaning` | janex-format/src/cbor.rs:131-147 | A map is built if and only if its keys are distinct; it holds the same entries, in strictly increasing encoded-key order |
| `CborValues.MapOfIsAccepted` | janex-format/src/cbor.rs:131-147 | The map that is built passes the validator at any depth that leaves room for its entries |
| `CborValues.MapOfGet` | janex-format/src/cbor.rs:250-272 | Looking up a key in a built map finds exactly the value that was given for it |
| `CborValues.SizedItemRoundTrip` | janex-format/src/cbor.rs:291-316 | A size-prefixed item reads back, the empty map standing for zero bytes included |
| `CborValues.Argument` | janex-format/src/cbor.rs:329-350 | The byte-folding loop reads the argument and refuses every argument a shorter form could hold |
| `CborValues.Scan` | janex-format/src/cbor.rs:353-398 | The recursive cursor scanner accepts and moves exactly as the grammar of valid items does |
| `CborValues.ScanSimple` | janex-format/src/cbor.rs:401-423 | Accepts simple values in their one spelling and floats in their shortest form, NaN as one quiet half |
| `CborValues.ScanPairs` | janex-format/src/cbor.rs:380-393 | The map loop accepts exactly when every key is strictly greater than the previous one in encoded order |
| `CborValues.Validate` | janex-format/src/cbor.rs:28-36 | Answers true if and only if the input is the encoding of some valid value |
| `Ranges.RegisterRanges` | janex-format/src/blob.rs:541-574 | The sort-and-check loop accepts a batch if and only if all ranges seen so far and the new ones are within bounds and pairwise disjoint, and then the map holds exactly their nonempty ranges |
| `Ranges.NeighboursDecide` | janex-format/src/blob.rs:557-565 | Looking only at the nearest range on each side finds an overlap whenever any range overlaps |
| `Ranges.SoundIsUnordered` | janex-format/src/blob.rs:541-574 | Acceptance does not depend on the order in which ranges arrive |
| `BlobBuilder.PushRepresents` | janex-format/src/blob.rs:678-685 | After pushing bytes, the new index stands for them and every earlier index for what it stood for |
| `BlobBuilder.PushExtentsRepresents` | janex-format/src/blob.rs:688-711 | After pushing accepted extents, the new index stands for the concatenated slices and nothing earlier changes |
| `BlobBuilder.PoolBuilder.constructor` | janex-format/src/blob.rs:663-665 | A new builder represents no contents |
| `BlobBuilder.PoolBuilder.Push` | janex-format/src/blob.rs:678-685 | Appends to data and entries as the state step does, and returns the index of the new content |
| `BlobBuilder.PoolBuilder.PushExtents` | janex-format/src/blob.rs:688-711 | Refuses empty, missing, non-stored or out-of-range extents without a change, else appends one extents entry |
| `BlobBuilder.PoolBuilder.Finish` | janex-format/src/blob.rs:714-741 | Produces the section and its directory, or fails for a page shift outside 8..12 |
| `BlobBuilder.WriteTable` | janex-format/src/blob.rs:718-732 | The paging loop writes the entries in pages of the given size, with the offset, encoding and checksum of each |
| `BlobProofs.EncodingRoundTrip` | janex-format/src/blob.rs:83-123 | A storage encoding with its filters reads back |
| `BlobProofs.EntryRoundTrip` | janex-format/src/blob.rs:395-431 | A stored or extents entry reads back from its length-delimited bytes |
| `BlobProofs.TableRoundTrip` | janex-format/src/blob.rs:392-432 | A page of entries reads back in order |
| `BlobProofs.PublishedDirectory` | janex-format/src/blob.rs:311-375 | The directory of a finished pool is recovered from its section, of whatever length: count, shift, size and pages |
| `BlobProofs.PublishedEntry` | janex-format/src/blob.rs:270-280 | Each index of a finished pool finds the entry that was pushed, through the right page and slot, however many blobs there are |
| `BlobProofs.PublishedResolves` | janex-format/src/blob.rs:460-537 | Each index of a finished pool, at any shift 8..12, resolves to the pushed bytes or to the concatenated slices, if the reader's limits admit that content |
| `BlobProofs.PublishedIsSound` | janex-format/src/blob.rs:714-741 | The stored ranges and the page ranges of a finished pool never overlap and stay in bounds, for any contents and no reader |
| `BlobTheorems.PublishedTableIsValid` | janex-format/src/blob.rs:714-741 | Every page of a finished pool opens and loads, whether or not the contents fit the reader's limits |
| `BlobTheorems.PublishedPoolIsValid` | janex-format/src/blob.rs:294-308 | A finished pool passes the complete pool validation, whether or not the contents fit the reader's limits |
| `BlobStores.LoadOrderIsIrrelevant` | janex-format/src/blob.rs:378-437 | Loading a collection of pages succeeds in one order if and only if it succeeds in every order |
| `BlobStores.ValidTableLoads` | janex-format/src/blob.rs:378-437 | In a table whose pages all load in sequence, any page not yet loaded can be loaded next, whatever was loaded before |
| `BlobStores.AllAreTrusted` | janex-format/src/blob.rs:311-437 | When every pool has a valid table, nothing is set aside, so the store's promises are about the whole view |
| `BlobStores.TrustedEntry` | janex-format/src/blob.rs:270-280 | Setting pools without a valid table aside changes no entry of the others |
| `BlobStores.BlobStore.OpenPool` | janex-format/src/blob.rs:311-375 | Opens if and only if the section is a pool with a valid directory and disjoint pages; other pools are untouched and failure changes nothing |
| `BlobStores.BlobStore.LoadPage` | janex-format/src/blob.rs:378-437 | A loaded page is cached with its ranges registered; a failed load changes nothing and means that these pages cannot be loaded together |
| `BlobStores.BlobStore.GetEntry` | janex-format/src/blob.rs:270-280 | Returns the table's entry if and only if the pool opens and the entry's page is loaded or can still be loaded; over a valid table that is every entry |
| `BlobStores.BlobStore.CheckExtent` | janex-format/src/blob.rs:440-457 | Accepts an extent if and only if it lies inside a stored entry that can be reached; over a valid table that is every fitting extent |
| `BlobStores.BlobStore.LoadAll` | janex-format/src/blob.rs:294-308 | The lazy page-by-page check over a pool, whatever was cached, equals the global check that all ranges are disjoint and in bounds |
| `BlobStores.BlobStore.Validate` | janex-format/src/blob.rs:294-308 | Answers true if and only if every page of the table loads, every index has an entry (of any kind), and every extent fits a stored entry |
| `BlobStores.BlobStore.ResolveBlob` | janex-format/src/blob.rs:460-505 | Terminates on any table; a result is the content the table defines, and whatever the pools with valid tables define on their own is found |
| `BlobStores.BlobStore.DecodeFilters` | janex-format/src/blob.rs:508-537 | Undoes the filters last to first, fetching a dictionary at one level only; finds whatever valid tables define |
| `BlobStores.BlobStore.AssembleExtents` | janex-format/src/blob.rs:486-498 | Concatenates exactly the slices that the extents name, in order; finds whatever valid tables define |
| `BlobStores.RegisterPages` | janex-format/src/blob.rs:338-362 | Pages are registered if and only if they are in bounds and disjoint |
| `Names.NameRoundTrip` | janex-format/src/strings.rs:19-76 | A nonempty name written in whichever of the three representations the writer picks reads back against any later pool; the element limit matters only to the form in parts |
| `Names.WriteName` | janex-format/src/strings.rs:60-76 | Refuses an empty name; otherwise appends an index, base-plus-suffix parts or an inline string as the pool allows, interning nothing but what it uses |
| `Names.ReadName` | janex-format/src/strings.rs:19-54 | Reads an index, an inline string or a concatenation and refuses empty names, zero indices and fewer than two parts |
| `Contents.ContentRoundTrip` | janex-format/src/content.rs:79-122 | A content descriptor reads back with its source and transforms |
| `Contents.WriteContent` | janex-format/src/content.rs:101-122 | Writes the descriptor, or fails exactly when a transform is inadmissible |
| `Contents.ReadContent` | janex-format/src/content.rs:79-98 | The cursor loop reads source and transforms as the recursive reading does |
| `Contents.RestoreFile` | janex-format/src/content.rs:138-162 | Undoes the transforms last to first against the root's pool or an explicit one; a result is the file the descriptor denotes, and whatever valid tables define is found |
| `Paths.JoinSplit` | janex-format/src/resource.rs:637-651 | Splitting at slashes and joining gives the path back |
| `Paths.JoinIsInjective` | janex-format/src/resource.rs:654-660 | Different component lists never join to the same path |
| `Paths.ValidPathParts` | janex-format/src/resource.rs:637-651 | A validated path is a list of nonempty components, without dots unless navigation is allowed, within the element limit |
| `Paths.AncestorsOfJoin` | janex-format/src/resource.rs:582-600 | Climbing from a path by its last slash visits exactly the nonempty prefixes of its components |
| `ResourceProofs.EntryRoundTrip` | janex-format/src/resource.rs:63-107 | A file, link or tombstone entry reads back with name, content, target and metadata, against any later pool |
| `ResourceProofs.DirectoryRoundTrip` | janex-format/src/resource.rs:211-226 | A directory record reads back with its inline list of entries |
| `ResourceProofs.LayerRoundTrip` | janex-format/src/resource.rs:207-232 | A layer reads back with its condition and directories |
| `ResourceProofs.RootRoundTrip` | janex-format/src/resource.rs:200-280 | An encoded root, decoded against any later data pool, gives back the same layers, directories, entries, metadata and pool |
| `ResourceProofs.EncodingKeepsIndices` | janex-format/src/resource.rs:248-280 | Every pool index that existed before a root was encoded names the same bytes afterwards |
| `ResourceChecks.AddParents` | janex-format/src/resource.rs:405-415 | The climbing loop adds exactly the missing ancestors and fails only when their number passes the limit |
| `ResourceChecks.CheckEntries` | janex-format/src/resource.rs:416-446 | Accepts if and only if names are plain and distinct, metadata and targets are valid and the files fit, and then adds exactly the non-tombstone paths |
| `ResourceChecks.ValidateLayer` | janex-format/src/resource.rs:377-455 | The set-growing loop accepts a layer if and only if it is valid as a whole: no path is both a directory and a leaf, and all counts fit |
| `ResourceCode.ValidateRoot` | janex-format/src/resource.rs:377-455 | Accepts exactly the valid roots |
| `ResourceCode.WriteEntry` | janex-format/src/resource.rs:83-107 | Writes an entry with the pool growth that its name and target need |
| `ResourceCode.WriteDirectory` | janex-format/src/resource.rs:266-275 | Writes a directory and its inline entries; it fails if and only if a transform is inadmissible or the entries pass the byte limit, which is then passed by the directory too |
| `ResourceCode.EncodeRoot` | janex-format/src/resource.rs:248-280 | Validates, interns the directory paths, writes the layers and enforces the limit |
| `ResourceReader.ReadEntry` | janex-format/src/resource.rs:63-80 | Reads an entry as the recursive reading does and refuses unknown tags |
| `ResourceReader.ReadEntries` | janex-format/src/resource.rs:216-221 | Reads exactly the stated number of entries and refuses bytes left over |
| `ResourceReader.ReadDirectory` | janex-format/src/resource.rs:211-226 | A directory that is read is the one the bytes denote, and whatever valid tables define is read, to the same position |
| `ResourceReader.DecodeRoot` | janex-format/src/resource.rs:200-242 | A root that is decoded is the one the bytes denote, with its data pool; whatever the pools with valid tables define is decoded, however damaged the others are |
| `ResourceReader.LoadRoot` | janex-host/src/roots.rs:139-142 | Resolves a reference and decodes the root there: sound for any view, and successful whenever valid tables define the root |
| `ResourceReader.LoadFile` | janex-format/src/resource.rs:565-579 | Restores a file and verifies its checksum, if it has one; finds whatever valid tables define |
| `PackProofs.FindSharedMeans` | janex-host/src/pack.rs:491-495 | A file is shared only with one of equal bytes, so digest collisions never merge two files |
| `PackProofs.PackedFileKeeps` | janex-host/src/pack.rs:487-548 | Packing one file keeps what every earlier descriptor denotes, and the new descriptor denotes the file's bytes, transformed or not |
| `PackProofs.PackedLayersKeep` | janex-host/src/pack.rs:476-563 | Over all layers the packed descriptors, made at different pool states, denote the imported bytes in the final pools |
| `PackTheorems.DescriptorReads` | janex-format/src/content.rs:138-162 | A descriptor of the packer resolves through the finished pool and the final names if and only if the reader admits the file's size and, for a transformed file, its slot count; then to the original bytes |
| `PackTheorems.TransformUnderReader` | janex-format/src/classfile.rs:74-138 | A transform made under the writer's limits is the one any admitting reader limits would give |
| `PackTheorems.EncodedIsShorter` | janex-format/src/classfile.rs:124-136 | What the packer stores for a transformed file is shorter than the file, so a reader that admits the file admits what is stored |
| `PackTheorems.ChecksummedMeans` | janex-host/src/pack.rs:541-548 | Written metadata holds the checksum of the original bytes and every other field as imported |
| `PackTheorems.PackingIsLossless` | janex-host/src/pack.rs:465-587 | End to end: the root blob resolves, decodes to the packed root with the final names, and every file of every layer reads back as its imported bytes with a verifying checksum exactly if the reader admits that file, transforms on or off |
| `PackFitting.ChecksummedFits` | janex-host/src/pack.rs:541-548 | Metadata that fits with nineteen bytes to spare still fits, as deterministic CBOR, once the checksum is in it |
| `PackFitting.PackedFits` | janex-host/src/pack.rs:465-587 | From conditions on the imported layers and name alone: the packed root keeps every rule and fits the reader's limits |
| `PackReading.PackedLoads` | janex-host/src/pack.rs:465-587 | The packed root loads and every admitted file reads back through pools with valid tables only, so a lazy store succeeds whatever else the container holds and however long the pool is |
| `PackedArchives.MergedReadAlike` | janex-format/src/resource.rs:322-374 | Packed layers merge if and only if the imported ones do, to the same paths with directories and links unchanged and files that read as the imported ones |
| `PackedArchives.WalksAlike` | janex-format/src/resource.rs:508-562 | Links of the packed tree lead where those of the imported tree lead, under any budget |
| `PackedArchives.BytesAlike` | janex-format/src/resource.rs:565-579 | Reading a path of the packed tree through blobs gives the imported bytes of exactly the files that the reader admits |
| `PackedArchives.MaterializedAlike` | janex-host/src/materialize.rs:56-171 | Expanding the packed tree through blobs gives the same archive, or fails, as expanding the imported tree without them; written files hold imported bytes or their runtime manifest |
| `PackedArchives.PackedArchive` | janex-host/src/materialize.rs:42-171 | From imported layers to an archive: the packed root loads through a lazy store, merges as the imported layers do under any evaluation of the conditions, and materialises if and only if every way down the imported tree is good and the whole fits |
| `PackCode.Packer.Reuse` | janex-host/src/pack.rs:491-495 | Searches the files under one digest for equal bytes, first match first |
| `PackCode.Packer.Encoded` | janex-host/src/pack.rs:497-516 | Transforms class files only, treats invalid and unsupported ones as not transformed, and passes on a limit |
| `PackCode.Packer.PackFile` | janex-host/src/pack.rs:487-539 | Updates pool, names and shared files in place as the state step does |
| `PackCode.Packer.PackEntry` | janex-host/src/pack.rs:480-551 | Packs files and copies links and tombstones |
| `PackCode.Packer.PackLayers` | janex-host/src/pack.rs:476-563 | The nested loops pack all layers in order, keeping conditions, paths and metadata |
| `PackCode.BuildPool` | janex-host/src/pack.rs:465-587 | The whole procedure, up to names pool, root blob and finished section, equals the packing that is proved lossless |
| `TreeProofs.DirectoryMeaning` | janex-format/src/resource.rs:582-600 | Adding a directory succeeds if and only if no ancestor is a leaf and the missing ones fit, and then adds exactly them |
| `TreeProofs.EntriesMeaning` | janex-format/src/resource.rs:352-370 | The entries of one directory are placed if and only if none lands on a directory and they fit |
| `TreeTheorems.RecordsMeaning` | janex-format/src/resource.rs:346-371 | Processing records one by one equals one simultaneous overlay, and fails exactly on a conflict or a full tree |
| `TreeTheorems.LayerMeaning` | janex-format/src/resource.rs:336-371 | One layer changes each path by tombstone, then directory closure, then entry, independently of the others; every tree stays well formed and no directory disappears |
| `TreeTheorems.MergedIsFold` | janex-format/src/resource.rs:326-374 | In a merged tree every path holds the fold of the matching layers at that path, and the root and every parent are directories |
| `TreeTheorems.MergedExactlyWithoutConflict` | janex-format/src/resource.rs:326-374 | Merging succeeds if and only if conditions evaluate, the layers fit, and no path's fold conflicts |
| `TreeTheorems.DirectoriesAreNeverRemoved` | janex-format/src/resource.rs:326-374 | A directory after some layers is a directory after all of them |
| `TreeTheorems.ValidIsCoherent` | janex-format/src/resource.rs:377-455 | Validation gives everything that merging relies on |
| `TreeTheorems.ValidRootMerges` | janex-format/src/resource.rs:326-374 | For every validated root, merging is the per-path fold and fails exactly where the fold does |
| `TreeTheorems.DirectoryOrderIsIrrelevant` | janex-format/src/resource.rs:336-371 | The order of the directories within a layer changes neither the result nor success |
| `Trees.ResourceTree.AddDirectory` | janex-format/src/resource.rs:582-600 | Adds a directory and its missing ancestors to the node map in place, or fails on a leaf or the limit |
| `Trees.ResourceTree.RemoveTombstones` | janex-format/src/resource.rs:336-345 | Removes exactly the tombstoned names that are not directories |
| `Trees.ResourceTree.AddRecord` | janex-format/src/resource.rs:346-371 | Adds one directory record: ancestors, its own metadata, and its entries |
| `Trees.ResourceTree.AddLayer` | janex-format/src/resource.rs:336-371 | Removes all tombstones of the layer before adding any record |
| `Trees.Merge` | janex-format/src/resource.rs:326-374 | The loop over matching layers builds the merged tree or fails with it |
| `Resolution.WalkStands` | janex-format/src/resource.rs:508-562 | A link walk that ends stands on a node that is not a link, below directories only, inside the root, having followed no more links than the budget |
| `Resolution.WalkComposes` | janex-format/src/resource.rs:508-562 | Resolving p/q is resolving q from where p ends, with link counts adding and the budget that is left |
| `Resolution.WalkIsMonotone` | janex-format/src/resource.rs:508-562 | A larger budget never changes a result |
| `Resolution.DenotesIsFunctional` | janex-format/src/resource.rs:508-562 | Without a budget a path denotes at most one node |
| `Resolution.CanonicalWalks` | janex-format/src/resource.rs:508-562 | A canonical position resolves to itself from any of its prefixes and follows no link |
| `ResolutionTheorems.LayerKeepsResolvable` | janex-format/src/resource.rs:326-374 | Merging a valid layer keeps everything that resolution relies on |
| `ResolutionTheorems.MergedIsResolvable` | janex-format/src/resource.rs:326-374 | Every tree merged from a valid root, after any number of layers, can be resolved in |
| `ResolutionTheorems.LastLookupSucceeds` | janex-format/src/resource.rs:556-561 | The final missing-resource branch is unreachable: if the walk ends, the lookup succeeds |
| `ResolutionTheorems.ResolvedIsCanonical` | janex-format/src/resource.rs:508-562 | A resolved path is canonical, names a node that is not a link, and resolves to itself with a link budget of zero |
| `ResolutionTheorems.DotDotIsCanonicalParent` | janex-format/src/resource.rs:518-530 | Dot-dot after any path means the parent of the resolved directory, not of the spelling, and fails at the root or at a file |
| `ResolutionTheorems.Resolve` | janex-format/src/resource.rs:508-562 | The queue-and-stack loop terminates (remaining budget, then pending length) and computes the walk |
| `MaterializationProofs.AllCounted` | janex-host/src/materialize.rs:113-171 | Entry and byte counters equal the number of entries written and their total size, within both limits |
| `MaterializationProofs.AllOrdered` | janex-host/src/materialize.rs:113-171 | Output names below a directory are distinct and each comes after its parent directory |
| `MaterializationProofs.DenotesChild` | janex-host/src/materialize.rs:128-147 | If an output directory denotes its source, then each child's output path denotes what the child resolves to |
| `MaterializationTheorems.AllAreFaithful` | janex-host/src/materialize.rs:113-171 | Every output path, read as a path of the tree with no link budget, denotes the node it was written from, with its rendered bytes |
| `MaterializationTheorems.AllComplete` | janex-host/src/materialize.rs:113-171 | Nothing is missing: every child of every expanded directory is written, except signature files |
| `MaterializationTheorems.AllAvoid` | janex-host/src/materialize.rs:113-171 | No source directory is written inside its own expansion, so links to an ancestor end in an error, not a loop |
| `MaterializationTheorems.MaterializedIsFaithful` | janex-host/src/materialize.rs:56-171 | The whole archive: distinct names, parents first, faithful, complete, acyclic, and within limits |
| `MaterializationExactness.AllCount` | janex-host/src/materialize.rs:140-158 | The running counters stop an expansion if and only if its entries or bytes exceed the limits as a whole |
| `MaterializationExactness.UnfoldedIsGood` | janex-host/src/materialize.rs:113-171 | What unfolds has only good ways down: every path resolves, names fit, files render, and no directory is too deep or repeats on its own way |
| `MaterializationExactness.GoodUnfolds` | janex-host/src/materialize.rs:113-171 | Where every way down is good, the whole unfolds |
| `MaterializationExactness.MaterializedExactly` | janex-host/src/materialize.rs:56-171 | Materialisation succeeds if and only if every way down is good and the entries fit as a whole, and then writes exactly them |
| `MaterializationExactness.CyclesFail` | janex-host/src/materialize.rs:124-126 | A directory that repeats on its own way down makes the whole materialisation fail |
| `MaterializationTheorems.GroupChildren` | janex-host/src/materialize.rs:71-75 | One pass groups every path but the root under its parent, in iteration order |
| `MaterializationTheorems.Materializer.WriteDirectory` | janex-host/src/materialize.rs:113-171 | Terminates; on success appends exactly the expansion, advances the counters and restores the active set; it fails exactly when the expansion does, and then nothing written before is lost |
| `MaterializationTheorems.Materializer.WriteChild` | janex-host/src/materialize.rs:128-167 | Resolves one child and writes its entry and subtree, or skips a signature file; it fails exactly when the expansion does |
| `Versions.Cmp` | janex-format/src/version.rs:39-61 | The comparison loop computes the version order |
| `Versions.CompareReverses` | janex-format/src/version.rs:39-61 | Comparing the other way round negates the result |
| `Versions.CompareIsTransitive` | janex-format/src/version.rs:39-61 | The order is transitive, with missing numbers read as zero and prereleases before releases |
| `Versions.EqualIsIdentical` | janex-format/src/version.rs:39-61 | Normal versions compare equal if and only if they are the same value |
| `Versions.NumericPreIsNumber` | janex-format/src/version.rs:39-61 | Numeric prereleases of any length compare as natural numbers, though the code compares lengths and then bytes |
| `VersionText.AliasExpandsOnce` | janex-format/src/version.rs:232-265 | The expansion of a legacy 1.x version is never itself an alias, so parsing recurses at most once |
| `VersionText.ParsedIsNormal` | janex-format/src/version.rs:228-320 | Every parsed version is normal: no trailing zeroes, and no leading zero in a numeric prerelease |
| `VersionText.DisplayParses` | janex-format/src/version.rs:71-82 | Parsing a displayed normal version gives that version back and reports the text as canonical |
| `Timelines.Parse` | janex-format/src/version.rs:124-187 | The constraint loop accepts exactly the ranges whose constraints are valid one after another |
| `Timelines.ParsedIsValid` | janex-format/src/version.rs:124-187 | An accepted range is a timeline: strictly increasing versions under the ordering rules for bounds and equalities |
| `Timelines.BoundsAlternate` | janex-format/src/version.rs:173-180 | Successive bounds of a valid timeline alternate between opening and closing |
| `Timelines.NoEndAfterEquality` | janex-format/src/version.rs:165-172 | No closing bound follows an equality without an opening bound in between |
| `Timelines.Contains` | janex-format/src/version.rs:195-224 | The single pass with an inclusion flag computes the recursive scan |
| `Timelines.ContainsMeansInTimeline` | janex-format/src/version.rs:195-224 | Membership is exactly the union of the intervals between alternating bounds, plus equality points, minus exclusion points |
| `Timelines.EqualityRuleIsNeeded` | janex-format/src/version.rs:195-224 | A witness: with an upper bound after an equality, which parse refuses, the scan and the intervals would disagree |
| `Conditions.ThresholdRange` | janex-host/src/import.rs:294-306 | The range an import writes for version n parses to the single bound at least n |
| `Conditions.ThresholdMeaning` | janex-format/src/condition.rs:57-144 | The condition an import writes is accepted and matches exactly the runtimes at or above that version; it fails to evaluate exactly when the version is missing |
| `Conditions.ThresholdsNest` | janex-format/src/condition.rs:97-144 | A runtime that reaches a later threshold reaches every earlier one |
| `Imports.BuildLayers` | janex-host/src/import.rs:244-388 | Given the multi-release flag, the grouping and sorting loops with the one merge check at the largest version produce the imported layers or fail |
| `Imports.ImportRoot` | janex-host/src/import.rs:244-388 | Finds and parses the manifest, splits by version only if it is multi-release, and returns it with the layers |
| `ImportTheorems.LayerHolds` | janex-host/src/import.rs:308-361 | A version's layer supplies exactly the files and links given for that version, and no tombstones |
| `ImportTheorems.MatchingIsPrefix` | janex-host/src/import.rs:290-307 | For every runtime the matching layers are a prefix of the imported ones |
| `ImportTheorems.MergingAPrefix` | janex-format/src/resource.rs:326-374 | When the matching layers are a prefix, merging all layers is merging that prefix |
| `ImportTheorems.GroupsAreValid` | janex-host/src/import.rs:257-287 | Items are split into a base and versions from 9 up that fit the version range, none at a path that starts with a slash |
| `ImportTheorems.OneCheckSuffices` | janex-host/src/import.rs:370-382 | After the one merge check, no runtime of known version can fail to merge under the same limits |
| `ImportTheorems.UnknownVersionFails` | janex-host/src/import.rs:290-307 | A runtime of unknown version can merge the import if and only if it has only its base layer |
| `ImportTheorems.HighestWins` | janex-format/src/resource.rs:326-374 | Without tombstones the last layer that supplies a path decides it |
| `ImportTheorems.HighestVersionWins` | janex-host/src/import.rs:244-388 | Each path holds the item of the highest version, at most the runtime's, that supplies it (JAR File Specification, multi-release JAR files) |
| `ImportTheorems.UnsuppliedIsDirectory` | janex-host/src/import.rs:308-388 | The converse: where no reached version supplies a file or link there is a directory if and only if it is the root or a reached version implies it, with the metadata of the last version that records it, and otherwise nothing |
| `ContainerProofs.OpenedTiles` | janex-format/src/container.rs:201-297 | Whatever file opens, its sections have distinct identifiers and tile the region between the magic and the metadata exactly |
| `ContainerProofs.TilesAreApart` | janex-format/src/container.rs:318-325 | Two sections of an opened file never overlap and stay in the data region |
| `ContainerProofs.DescriptorDescribes` | janex-format/src/container.rs:52-74 | The descriptor the writer stores reads back as the section's kind, identifier, length, checksum and type information |
| `ContainerProofs.WrittenMeaning` | janex-format/src/container.rs:456-490 | Over any run of section writes the output is the magic and the sections in order, each described by its table row, identifiers distinct |
| `ContainerProofs.BlockReads` | janex-format/src/container.rs:232-251 | The metadata block reads back, and the signed or digested input is exactly its prefix |
| `ContainerProofs.WrittenOpens` | janex-format/src/container.rs:201-297 | A written container behind any agreeing prefix and before any agreeing tail opens to the same metadata, sections, ranges and verification |
| `ContainerTheorems.FinishedIsWellWritten` | janex-format/src/container.rs:510-550 | Whatever finishes is a well-written container around the given sections, and the payload is the signer's answer to the verification input |
| `ContainerTheorems.SectionReadsBack` | janex-format/src/container.rs:354-367 | Every range of every section reads back as the bytes that were written |
| `ContainerTheorems.WrittenVerifies` | janex-format/src/container.rs:374-412 | All recorded checksums of a written container verify, with the count and the coverage that the report gives |
| `ContainerTheorems.ViewHoldsSections` | janex-format/src/blob.rs:311-375 | A blob store over an opened container sees each section with its own kind, type information and bytes |
| `ContainerTheorems.PackedContainerIsLossless` | janex-host/src/pack.rs:303-587 | From one byte sequence: open the container, resolve the root, decode it, and every admitted imported file reads back |
| `ContainerTheorems.ImportedContainerIsLossless` | janex-host/src/pack.rs:303-587 | The same with conditions on the imported layers instead of the packed ones, trusting no other section |
| `ContainerTheorems.ContainerExpandsAsImported` | janex-host/src/materialize.rs:42-171 | The same through the bytes of a container, between any prefix and tail |
| `ContainerCode.Writer.constructor` | janex-format/src/container.rs:442-450 | Writing starts with the magic and no sections |
| `ContainerCode.Writer.WriteSection` | janex-format/src/container.rs:456-490 | Appends a section with its digest, or refuses a repeated identifier, a wrong magic or an overflow without a change |
| `ContainerCode.Writer.Finish` | janex-format/src/container.rs:510-550 | Adds the table, validates, asks for the payload, checks it and writes block and footer |
| `ContainerCode.WriteInput` | janex-format/src/container.rs:523-527 | Writes exactly the bytes that a checksum or signature covers |
| `ContainerCode.ReadBlock` | janex-format/src/container.rs:232-251 | Reads the metadata block and refuses a wrong magic, version or verification framing and bytes left over |
| `ContainerCode.PlaceSections` | janex-format/src/container.rs:253-278 | The offset loop places the sections and refuses repeated identifiers, overruns, gaps and wrong magics |
| `ContainerCode.OpenContainer` | janex-format/src/container.rs:201-297 | Works back from the footer to the sections, with each length check in the program's order |
| `ContainerCode.VerifyChecksums` | janex-format/src/container.rs:374-412 | The report loop counts what is verified and fails on the first mismatch |
| `Zip64.RecordsMeaning` | janex-format/src/wrapper.rs:124-161 | The whole-region scan lists, in increasing order, exactly the positions whose signature and declared length end at the locator |
| `Zip64.Zip64Records` | janex-format/src/wrapper.rs:124-161 | The chunked scan with its three-byte step-back terminates and finds the same positions, once each, unless there are more than the limit or a chunk exceeds it |
| `Zip64.ScanChunk` | janex-format/src/wrapper.rs:133-154 | One chunk finds exactly the records that start in all but its last three bytes |
| `Launches.Evaluate` | janex-format/src/application.rs:266-301 | The explicit-stack loop equals the recursive pre-order evaluation with pruned subtrees, failures included |
| `Launches.VisitConcat` | janex-format/src/application.rs:266-301 | Evaluating two forests one after the other is evaluating their concatenation |
| `Launches.BuiltIsSinceClear` | janex-format/src/application.rs:181-191 | Each of the five launch lists is what was appended since its last clear |
| `Launches.EvaluatedIsBuilt` | janex-format/src/application.rs:266-301 | A launch is built from exactly the matching nodes, in pre-order |
| `Launches.ResourceReferences` | janex-format/src/application.rs:427-450 | The traversal collects exactly the local references declared anywhere in the configuration |
| `Launches.LaunchIsDeclared` | janex-format/src/application.rs:427-450 | For any context, every local reference in an evaluated launch is among the declared ones |
| `ManifestProofs.LinesReadBack` | janex-java/src/manifest.rs:28-60 | Clean lines ended by carriage return and line feed split back into the same lines |
| `ManifestProofs.FoldedParses` | janex-java/src/manifest.rs:182-196 | A folded header of any length parses back to its name and value |
| `ManifestProofs.LinesFit` | janex-java/src/manifest.rs:182-196 | Every line of a runtime manifest is at most 72 bytes with its line break aside, whatever character a fold splits |
| `ManifestTheorems.ParsedIsWellFormed` | janex-java/src/manifest.rs:28-87 | Every parsed manifest has legal lower-case names and values without line breaks |
| `ManifestTheorems.RuntimeReadsBack` | janex-java/src/manifest.rs:115-142 | Parsing the runtime form gives the manifest with Class-Path and signature headers dropped, the version defaulted, and emptied entries gone |
| `ManifestTheorems.RuntimeIsIdempotent` | janex-java/src/manifest.rs:115-142 | The runtime form of the runtime form is the same, as a manifest and as text |
| `ManifestTheorems.RuntimeManifestIsFaithful` | janex-java/src/manifest.rs:28-142 | For every input that parses: the output parses to the runtime form, prints again to itself, and obeys the line rule |
| `ManifestTheorems.WriteHeader` | janex-java/src/manifest.rs:182-196 | The shrinking-remainder loop writes the folded header |
| `ManifestTheorems.Parse` | janex-java/src/manifest.rs:28-87 | The position loop splits lines, joins continuations and adds sections as the line-list parser does, with the same failures |
| `ManifestTheorems.WriteRuntime` | janex-java/src/manifest.rs:115-142 | Writes the runtime text with attributes and entries in name order |

## Left out

- Zstandard, SHA-2, SM3 and XXH3 internals: foreign libraries, replaced by the abstract codec above.
- UTF-8 beyond validity: the decoder's structure is a validity predicate on bytes; no normalisation or character classes.
- Error messages, byte offsets and error kinds, except Invalid, Unsupported and Limit of the class-file transform, on which packing depends.
- Class-file inspection (`parse`, `attributes`, `read_module`): per-field checks only, not used by the transform.
- Files, streams and temporary files: a container is one byte sequence, and the archive of a materialisation is the list of its entries.
- ZIP metadata and native file-name checks in materialisation.
- Candidate ends, directory validation and ZIP64 field expansion in `wrapper.rs`, and `open_auto`: they select an external tail; opening is modelled for any given tail length.
- The choice of the smaller of two package candidates, the count of transformed files, and the launcher header: each candidate is covered by the packing theorem.
- Reading directories and JARs before import: items are given as a list in name order, with names that have no empty parts.
- Manifest accessors, application presentation, and parsing of launch configurations: schema checks with no state.
- Signatures and trust: a signer is any function from the verification input to a payload; only framing is checked.
- The command line, HTTP, process launching, runtime probing and the registry: outside the format.
- BlobStores.BlobStore.ResolveBlob: for a reference that needs a pool whose table is not valid, whether it succeeds depends on the pages loaded before; only soundness is promised then. BlobStore.DecodeFilters and BlobStore.AssembleExtents promise the same.
- Contents.RestoreFile: the same for descriptors that need a pool whose table is not valid.
- ResourceReader.DecodeRoot: the same for roots that need a pool whose table is not valid; ReadDirectory promises the same.
- Floats.ShortestMeans: the conversions of the `half` crate and of the language are taken to be exact where a value is representable.
- MaterializationTheorems.Materializer.WriteDirectory: of a failed expansion it promises that earlier entries stay, not which further ones were written; the caller discards the archive. WriteChild promises the same.
- Imports.BuildLayers: takes the multi-release flag; ImportRoot derives it from the manifest. The returned root is its layers and manifest.
