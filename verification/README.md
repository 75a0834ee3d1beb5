# Verified model of the pedge configuration path

This project models, in Dafny, the two parts of pedge in which a wrong step would go unnoticed
until a device fails in the field, and proves what each of them promises.

**The NVS partition generator** (`services/esp32-config-builder/nvs_partition_gen.py`) writes the
key-value partition that is flashed to a device. Entries take 32-byte slots of 4096-byte pages, 126
slots to a page; a bitmap of two bits for each slot, page headers with a sequence number, and
checksums over headers and data go with them. Version-2 blobs are split into chunks over several
pages and closed by an index entry. Partitions can be encrypted slot by slot under a tweak derived
from the slot's address, and decrypted again.

**The devices operator** (`devices-operator/internal/controller`) keeps a configuration job for each
device. Three hashes, of the device's secret, its class and its cluster, decide whether the job is
up to date. The operator also fills in credentials and injects them into other secrets.

## How the model is built

- `Bytes`, `Options`: bytes, little-endian integers, bits, Python's slice assignment.
- `NvsFormat`: the format itself: entry headers, slots, bitmap, page header, and `PageBytes`, the
  4096 bytes of a page given its slots.
- `NvsSpec`: what every write does to the contents of pages, as functions: which entries go where,
  when a page is opened, which error ends the run. `Run` is a whole run, `Image` the closed partition.
- `NvsTweak`: the hexadecimal text path from a slot address to a tweak.
- `NvsPageWrite`, `NvsWriter`: the classes `Page` and `NVS` with their buffers, bitmaps and counters
  changed in place. Each method's contract gives the bytes of the page or the new contents as the
  functions of `NvsFormat` and `NvsSpec` define them.
- `NvsReader`: an independent reader, written from the format: it finds entries through the bitmap,
  follows spans, rejects any checksum that does not match, and joins chunks.
- `NvsPageRoundTrip`, `NvsRoundTrip`, `NvsNames`: reading undoes writing.
- `NvsBlob`: the cost of chunked blobs in closed form, and how chunks divide the data.
- `NvsRowCost`: when integers, namespaces, strings and V1 blobs succeed, how they fail and where they land.
- `NvsRuns`: properties of whole runs: flash discipline, size independence, the retry on a new page,
  the shape of a closed partition.
- `NvsDecrypt`: decryption, and exactly when it undoes encryption.
- `HashByteData`, `ClusterHash`: what reaches the hasher and which edits it shows.
- `DeviceJob`: a reconcile of a device as a machine that makes one API call at a time, next to an
  environment of edits, completions, failures and deletions.
- `DeviceReconciler`: the reconciler as a program over the stored objects, proved to make the calls
  of that machine, and the convergence of repeated reconciles, failing ones among them.
- `DevicePassword`: which calls keep a stored password, over all interleavings, and the credentials that
  a reconcile leaves.
- `CreateOrUpdate`: the bounded retry that both reconcilers carry.
- `SecretInjection`: the nested loops over users and injections, proved to do a list of tasks in order.
- `SecretIdempotence`: what a pass achieves, exactly when another pass has nothing left to write, and
  what no pass touches.
- `Credentials`: the keys of the credentials, which both reconcilers use.

CRC-32 and XTS-AES are calls into libraries. They are parameters of the model (`Externals`), total
functions of which nothing is assumed, so that every result about checksums holds for any checksum
function; the start value `0xFFFFFFFF` is the one the generator passes. Where decryption is concerned
the assumption that the cipher inverts under each tweak (XTS-AES, IEEE Std 1619-2007) is written out
as `CipherInverts`. SHA-256 is a parameter in the same way.

The exceptions of the generator are values of `Outcome`: `PageFull`, `InsufficientSize`, `InputError`
and `ValueError`, the last for a number that does not fit the field it is packed into (a namespace or
chunk number above 255, an integer out of range).

## Where the code differs from what is said about it

- The table of limits allows V2 strings of up to 4000 bytes with their terminating zero. The check for
  a full page rejects 3969 to 4000 bytes even on an empty page, and the error then escapes the
  retry (`NvsRuns.RetrySuffices`, `NvsRuns.PageFullEscapes`).
- Decryption tells written slots from erased ones by their bytes. If a ciphertext happens to be all
  `0xFF`, that slot and the tweaks of the slots behind it are lost. The exact condition is
  `NvsDecrypt.DecryptsIffNoBlankCipher`. For every cipher that is a bijection and moves the erased block
  at one address, `NvsDecrypt.DecryptionFails` gives rows that are written and not restored: a blob of
  32 bytes.
- Values written before the first namespace are stored under number 0, where readers look for the
  names of namespaces. Rows read back by name if and only if the first one opens a namespace
  (`NvsNames.NamedIffNamespaceFirst`).
- The operator waits for a completion time, "success or failure" as its comment says. A job that
  failed has none, so it is never replaced: from states without a lost patch, convergence holds if and
  only if the job at the start is not a failed one. From any state, a job whose mismatch is hidden by the
  hashes on the device is the one other exception (`DeviceReconciler.Convergence`).
- A job is reported up to date by comparing hashes stored on the device. If the patch that stores them
  is lost after a job was created, because it fails or the operator restarts before it, a later report
  can be wrong. Over every interleaving a report is wrong if and only if such a patch was lost and the
  job has not been deleted since (`DeviceJob.WrongVerdictIff`), as long as nobody but the operator edits
  these annotations of the device. `DeviceReconciler.StaleAfterFailedPatch` says for which edits an
  uninterrupted reconcile then gives a report that is wrong about the current hashes.
- The hash feeds keys and values to the hasher without separators, so it is not injective
  (`HashByteData.NotInjective`, `HashByteData.NotInjectiveOnKeys`). Changing one value always shows;
  adding or removing one key shows unless key and value are both empty.
- A password that is added to a device's secret between the operator's read and its patch is
  overwritten (`DevicePassword.PasswordRace`). That is the only way a reconcile replaces one
  (`DevicePassword.PasswordKept`); a reconcile that nothing interrupts never does
  (`DevicePassword.ReconcileKeepsPassword`).
- Creating or updating an object reads the version again after a conflict, but writes the same object.
  A success discards what others wrote if and only if somebody wrote in an earlier round of the same
  call (`CreateOrUpdate.DiscardsIffOthersWrote`, `CreateOrUpdate.LostUpdate`).
- Injections that set one key or annotation of a secret to different values never settle: every
  successful pass writes again (`SecretIdempotence.EveryPassWrites`). Two users with different
  passwords injected under one key are such a case (`SecretIdempotence.SharedKeyDisagrees`). Without
  such disagreement, and only then, the second pass has nothing to write
  (`SecretIdempotence.SecondPassIsIdleIff`).

## Model

| member | source | states |
|---|---|---|
| NvsTweak.ReverseHexbytes | services/esp32-config-builder/nvs_partition_gen.py:35-42 | the pairs of digits come out in the opposite order |
| NvsTweak.MakeTweak | services/esp32-config-builder/nvs_partition_gen.py:175-187 | both directions build the same 32 digits of text for an address |
| NvsTweak.TweakIsAddress | services/esp32-config-builder/nvs_partition_gen.py:175-187 | the text decodes to the 16-byte little-endian address if and only if the address is 0 or at least 16, for all addresses below 2^128 |
| NvsTweak.SlotTweak | services/esp32-config-builder/nvs_partition_gen.py:161-187 | every slot's tweak is its byte address in the partition, 4096*page + 64 + 32*slot, as 16 little-endian bytes |
| NvsTweak.TweakInjective | services/esp32-config-builder/nvs_partition_gen.py:161-187 | no two slots of a partition share a tweak |
| NvsTweak.SlotText | services/esp32-config-builder/nvs_partition_gen.py:163-194 | cutting hexlified data into 64 digits and filling up with f encodes the slot padded with erased bytes |
| NvsPageWrite.MarkSlot | services/esp32-config-builder/nvs_partition_gen.py:122-130 | clearing one bit turns the bitmap of n written slots into that of n + 1 |
| NvsPageWrite.BitmapBits | services/esp32-config-builder/nvs_partition_gen.py:115-130 | bit 2i is clear exactly for the written slots, the odd bits stay set |
| NvsPageWrite.PageAfterWrite | services/esp32-config-builder/nvs_partition_gen.py:204-220 | writing data behind the last slot and the bitmap gives the page with the data's slots added, encrypted or not, padding included |
| NvsPageWrite.AddSlotsOnlyClears | services/esp32-config-builder/nvs_partition_gen.py:204-220 | adding slots to a page turns bits only from 1 to 0 |
| NvsPageWrite.SealedPage | services/esp32-config-builder/nvs_partition_gen.py:507-512 | marking a page FULL changes only its state, and only from 1 to 0 bits |
| NvsWriter.Page.constructor | services/esp32-config-builder/nvs_partition_gen.py:88-95 | a new page satisfies the invariant with no slots and is ACTIVE; a reserved page is blank |
| NvsWriter.Page.SetHeader | services/esp32-config-builder/nvs_partition_gen.py:97-113 | the first 32 bytes become the page header with its checksum, the rest stays |
| NvsWriter.Page.SlotInvariant | services/esp32-config-builder/nvs_partition_gen.py:115-130 | in every valid state the bitmap's bits say which slots are below the counter, buffer and bitmap array agree, and all later slots are erased |
| NvsWriter.Page.WriteBitmapArray | services/esp32-config-builder/nvs_partition_gen.py:122-130 | exactly the next slot is marked, in the array and in the buffer |
| NvsWriter.Page.MarkSlots | services/esp32-config-builder/nvs_partition_gen.py:217-220 | the loop marks the slots of the entry and advances the counter |
| NvsWriter.Page.MarkFull | services/esp32-config-builder/nvs_partition_gen.py:510-512 | ACTIVE becomes FULL, no slot changes, bits only clear |
| NvsWriter.Page.EncryptSlot | services/esp32-config-builder/nvs_partition_gen.py:161-194 | one slot of the padded data is enciphered under 4096*page + 64 + 32*slot |
| NvsWriter.Page.EncryptData | services/esp32-config-builder/nvs_partition_gen.py:144-202 | slot by slot the ciphertext of the padded data under the address of the slot it goes to |
| NvsWriter.Page.StoredData | services/esp32-config-builder/nvs_partition_gen.py:205-210 | what is stored is the data, or its ciphertext in an encrypted partition |
| NvsWriter.Page.WriteEntryToBuf | services/esp32-config-builder/nvs_partition_gen.py:204-220 | the page gains exactly the slots of the data, keeps the invariant, and clears bits only |
| NvsWriter.Page.SetCrcHeader | services/esp32-config-builder/nvs_partition_gen.py:222-229 | the checksum over bytes 0-3 and 8-31 is stored at 4-7, nothing else changes |
| NvsWriter.Page.NewEntryStruct | services/esp32-config-builder/nvs_partition_gen.py:380-403 | an erased header slot with namespace, type, span and zero-padded key |
| NvsWriter.Page.SetDataHeader | services/esp32-config-builder/nvs_partition_gen.py:336-345 | the prepared header is completed with the length and checksum of the data, and its own checksum |
| NvsWriter.Page.WriteDataEntry | services/esp32-config-builder/nvs_partition_gen.py:334-350 | header and data of the entry are added to the contents, and the header slot is the entry's header |
| NvsWriter.Page.WritePrimitiveData | services/esp32-config-builder/nvs_partition_gen.py:412-462 | the integer entry is added, or the page is full, or the number does not fit, as the specification says |
| NvsWriter.Page.WriteChunkEntry | services/esp32-config-builder/nvs_partition_gen.py:262-290 | a chunk is written under the shared header slot, which keeps namespace and key for the next one |
| NvsWriter.Page.WriteChunk | services/esp32-config-builder/nvs_partition_gen.py:247-303 | one round of splitting: the chunk the page takes, and the new page when it is used up |
| NvsWriter.Page.SetIndexHeader | services/esp32-config-builder/nvs_partition_gen.py:307-326 | the reused header slot becomes the header of the index entry |
| NvsWriter.Page.WriteIndexEntry | services/esp32-config-builder/nvs_partition_gen.py:305-330 | the index entry is added to the contents |
| NvsWriter.Page.WriteVarlenBinaryData | services/esp32-config-builder/nvs_partition_gen.py:231-332 | the loop over changing pages terminates and adds the chunks and the index of the specification, or ends in its error |
| NvsWriter.Page.WriteVarlenData | services/esp32-config-builder/nvs_partition_gen.py:356-409 | limit, full page and number errors in the order of the code; otherwise one entry or the chunks |
| NvsWriter.NVS.constructor | services/esp32-config-builder/nvs_partition_gen.py:476-487 | a partition opens with one empty page and the rest of the size free |
| NvsWriter.NVS.CreateNewPage | services/esp32-config-builder/nvs_partition_gen.py:506-526 | the previous page becomes FULL, then either the size is used up or an empty numbered page follows; the reserved page leaves all others alone |
| NvsWriter.NVS.MarkPreviousFull | services/esp32-config-builder/nvs_partition_gen.py:507-512 | only the state of the current page changes |
| NvsWriter.NVS.AppendPage | services/esp32-config-builder/nvs_partition_gen.py:519-526 | an empty page is added and all other pages keep their bytes |
| NvsWriter.NVS.AppendReservedPage | services/esp32-config-builder/nvs_partition_gen.py:499-502 | the blank reserved page ends the partition and all other pages keep their bytes |
| NvsWriter.NVS.Accounting | services/esp32-config-builder/nvs_partition_gen.py:506-526 | remaining size and pages add up, page i carries number i, only the last page is ACTIVE |
| NvsWriter.NVS.WriteNamespace | services/esp32-config-builder/nvs_partition_gen.py:532-538 | the counter advances and the name is stored under number 0, on a new page if need be |
| NvsWriter.NVS.WriteEntry | services/esp32-config-builder/nvs_partition_gen.py:546-577 | a value is written as the specification says, with one retry on a new page |
| NvsWriter.NVS.WriteOnCurrentPage | services/esp32-config-builder/nvs_partition_gen.py:564-577 | one attempt, strings with their terminating zero, unknown encodings rejected |
| NvsWriter.NVS.GetBinaryData | services/esp32-config-builder/nvs_partition_gen.py:580-584 | the pages of the closed partition in order |
| NvsWriter.NVS.Exit | services/esp32-config-builder/nvs_partition_gen.py:492-504 | filling the partition terminates and delivers the image of the contents at the time of closing |
| NvsWriter.Generate | services/esp32-config-builder/nvs_partition_gen.py:927-978 | the image has exactly the requested size and is that of the whole run; otherwise there is no image and the error is that of the first row that fails |
| NvsWriter.CheckSize | services/esp32-config-builder/nvs_partition_gen.py:661-680 | a size is accepted exactly if it is a multiple of 4096 and at least 0x3000; one page is set aside |
| NvsSpec.WriteChunksKeeps | services/esp32-config-builder/nvs_partition_gen.py:247-330 | chunking never passes slot 125 and never reports a full page or an input error |
| NvsSpec.WriteRowKeeps | services/esp32-config-builder/nvs_partition_gen.py:532-577 | every row, written or failed, keeps pages within 126 slots and used plus free pages constant |
| NvsSpec.NewPageSameImage | services/esp32-config-builder/nvs_partition_gen.py:492-504 | pages opened only to fill the partition do not show in the image |
| NvsFormat.PackByte | services/esp32-config-builder/nvs_partition_gen.py:428-451 | byte k of a packed integer is its bits 8k to 8k + 7, negative ones in two's complement |
| NvsPageRoundTrip.EntryRoundTrip | services/esp32-config-builder/nvs_partition_gen.py:334-462 | decoding a header and its payload slots gives back the entry, all checks passing and all unused bytes erased |
| NvsPageRoundTrip.PageHeaderOf | services/esp32-config-builder/nvs_partition_gen.py:97-113 | state, number, version and checksum of a page header verify, before and after it becomes FULL |
| NvsPageRoundTrip.PageSlotAt | services/esp32-config-builder/nvs_partition_gen.py:204-220 | slot i is found at its offset, plain or as ciphertext, and the bitmap says it is written exactly below the counter |
| NvsPageRoundTrip.ChecksumsHold | services/esp32-config-builder/nvs_partition_gen.py:222-229 | every header checksum and every data checksum of a page verifies |
| NvsPageRoundTrip.ReadPageRoundTrip | services/esp32-config-builder/nvs_partition_gen.py:204-220 | following bitmap and spans through the bytes of a page gives back its entries in order |
| NvsRoundTrip.ReadImageEntries | services/esp32-config-builder/nvs_partition_gen.py:580-584 | reading a closed image gives the entries of all pages in order |
| NvsRoundTrip.ChunksGather | services/esp32-config-builder/nvs_partition_gen.py:247-330 | the chunks written from any slot, checked against the index entry, join to the blob's data |
| NvsRoundTrip.WriteRowGathers | services/esp32-config-builder/nvs_partition_gen.py:532-577 | a row that succeeds adds exactly its record to what a reader finds |
| NvsRoundTrip.ImageSize | services/esp32-config-builder/nvs_partition_gen.py:492-504 | a closed image has the size given plus the reserved page |
| NvsRoundTrip.WriteReadRoundTrip | services/esp32-config-builder/nvs_partition_gen.py:231-577 | for every list of rows that succeeds, in V1 or V2, reading the image gives back exactly the rows in order |
| NvsNames.NamedRoundTrip | services/esp32-config-builder/nvs_partition_gen.py:528-577 | with namespaces resolved by name, the list of (namespace, key, type, value) comes back |
| NvsNames.RowBeforeNamespace | services/esp32-config-builder/nvs_partition_gen.py:480-483 | with a value row before any namespace, a reader finds something else than the rows mean, whatever namespace was meant |
| NvsNames.NamedIffNamespaceFirst | services/esp32-config-builder/nvs_partition_gen.py:528-577 | the image of a run that succeeds reads back by name as what the rows mean if and only if the first row opens a namespace |
| NvsBlob.BlobCost | services/esp32-config-builder/nvs_partition_gen.py:247-330 | for n bytes from slot e: when exactly a blob fits, how many pages it opens, where its index entry stands and the chunk count it carries, in closed form |
| NvsBlob.BlobRowCost | services/esp32-config-builder/nvs_partition_gen.py:356-409 | the same for a whole row, with the page turned beforehand when the current one is full |
| NvsBlob.BlobOutcome | services/esp32-config-builder/nvs_partition_gen.py:247-330 | which error a blob that is not stored ends with: the partition is used up before its chunks can no longer be counted, or after |
| NvsBlob.BlobRowOutcome | services/esp32-config-builder/nvs_partition_gen.py:356-409 | how a V2 blob row ends, in every case |
| NvsBlob.ChunkSlots | services/esp32-config-builder/nvs_partition_gen.py:250-268 | a chunk never passes the page, fills it when data remains, and less than a slot is left exactly when the page is full |
| NvsRowCost.IntRowOutcome | services/esp32-config-builder/nvs_partition_gen.py:412-462 | integer and namespace rows: success exactly for a value in the range of its type, written out, and a namespace up to 255, when one of the 126 slots or a page is left; the error otherwise; and the page on which the entry lands |
| NvsRowCost.DataRowOutcome | services/esp32-config-builder/nvs_partition_gen.py:356-409 | strings and V1 blobs: success, each error and the page, with the limits of 1984 and 4000 bytes and the last slot left free |
| NvsRowCost.FirstFailure | services/esp32-config-builder/nvs_partition_gen.py:963-978 | a run does its rows in order up to the first that fails, an unsupported encoding or a key of more than 15 bytes among the failures, and ends as that row does |
| NvsBlob.ChunksDivideData | services/esp32-config-builder/nvs_partition_gen.py:247-330 | chunks are numbered consecutively, concatenate to the data, all but the last fill whole slots, and the index carries their number |
| NvsRuns.WriteRowGrows | services/esp32-config-builder/nvs_partition_gen.py:532-577 | every write only extends pages, leaves earlier pages alone and keeps FULL pages FULL |
| NvsRuns.RunOnlyClearsBits | services/esp32-config-builder/nvs_partition_gen.py:204-220 | between two states of a run bits are only cleared and written slots keep their bytes |
| NvsRuns.RunFlashDiscipline | services/esp32-config-builder/nvs_partition_gen.py:204-526 | the same for any run of rows, also one that fails half-way |
| NvsRuns.RunLarger | services/esp32-config-builder/nvs_partition_gen.py:506-577 | rows that fit a partition fit any larger one and fill it in the same way |
| NvsRuns.SizeIndependence | services/esp32-config-builder/nvs_partition_gen.py:492-526 | the larger image has the pages of the smaller one, then empty FULL pages, then the reserved page |
| NvsRuns.SizeIndependentPrefix | services/esp32-config-builder/nvs_partition_gen.py:492-526 | the two images are equal, byte for byte, up to the smaller one's reserved page |
| NvsRuns.RetrySuffices | services/esp32-config-builder/nvs_partition_gen.py:373-378 | on a new page the error of a full page recurs exactly for V2 strings of 3969 to 4000 bytes with the zero |
| NvsRuns.PageFullEscapes | services/esp32-config-builder/nvs_partition_gen.py:540-575 | the caller sees that error exactly for those strings, when a page for the retry is left |
| NvsRuns.ClosedImageShape | services/esp32-config-builder/nvs_partition_gen.py:492-526 | page i of a closed image has number i, a valid header and is FULL; the last page is blank |
| NvsDecrypt.DecryptData | services/esp32-config-builder/nvs_partition_gen.py:750-788 | a block is deciphered under the tweak of 4096*page + 64 + 32*slot |
| NvsDecrypt.Decrypt | services/esp32-config-builder/nvs_partition_gen.py:816-836 | every slice assignment appends, and each output block is the kept or deciphered input block |
| NvsDecrypt.DecryptedUpToEnd | services/esp32-config-builder/nvs_partition_gen.py:816-836 | the whole output is the decrypted image, or one erased byte for an empty file |
| NvsDecrypt.EncryptionLayoutNeutral | services/esp32-config-builder/nvs_partition_gen.py:155-220 | the encrypted and the plain image of the same rows differ only in written slots, and there by the cipher under the slot's own address |
| NvsDecrypt.TweakIsPosition | services/esp32-config-builder/nvs_partition_gen.py:155-220 | every block of the encrypted image that holds a written slot is the ciphertext of the plain one under its own byte position in the image, and every other block is equal |
| NvsDecrypt.RankIsSlot | services/esp32-config-builder/nvs_partition_gen.py:819-834 | the counter of deciphered entries equals the slot number, when no ciphertext looks erased |
| NvsDecrypt.EncryptDecryptRoundTrip | services/esp32-config-builder/nvs_partition_gen.py:144-220 | decryption of the encrypted image is the plain image when no ciphertext looks erased |
| NvsDecrypt.DecryptsIffNoBlankCipher | services/esp32-config-builder/nvs_partition_gen.py:827-829 | and only then, when no written slot that is itself erased is enciphered to an erased block |
| NvsDecrypt.DecryptionFails | services/esp32-config-builder/nvs_partition_gen.py:816-836 | for every cipher that is a bijection and moves the erased block at one address: rows, in either version and followed by any others, whose image decryption does not restore |
| NvsDecrypt.EncryptedReadBack | services/esp32-config-builder/nvs_partition_gen.py:144-220 | rows written to an encrypted partition are read back after decryption |
| HashByteData.Hash | devices-operator/internal/controller/helpers.go:62-77 | whatever the iteration order, the digest is that of the canonical bytes of the map |
| HashByteData.FeedIsCanonical | devices-operator/internal/controller/helpers.go:71-75 | keys in descending order feed the canonical bytes |
| HashByteData.LessIffPart | devices-operator/internal/controller/helpers.go:71 | strings are ordered by the first byte in which they differ, a prefix coming first |
| HashByteData.InjectiveUpToOneLength | devices-operator/internal/controller/helpers.go:72-75 | maps with the same keys whose values differ in length under one key at most feed the same bytes only if they are equal |
| HashByteData.SingleChangeShows | devices-operator/internal/controller/helpers.go:72-75 | changing the value of one key changes the bytes |
| HashByteData.AddedKeyShows | devices-operator/internal/controller/helpers.go:72-75 | adding a key changes the bytes if and only if key and value are not both empty |
| HashByteData.NotInjective | devices-operator/internal/controller/helpers.go:72-75 | different maps with different keys that feed the same bytes |
| HashByteData.NotInjectiveOnKeys | devices-operator/internal/controller/helpers.go:72-75 | different maps with the same keys that feed the same bytes |
| ClusterHash.HashedBytes | devices-operator/internal/controller/devicecluster_controller.go:97-114 | the bytes that are hashed: topic, port, host and the digest of the secret, each behind its own key |
| ClusterHash.UpdateHash | devices-operator/internal/controller/devicecluster_controller.go:97-116 | the annotation becomes the digest of these bytes, an absent text counting as empty; an unreadable secret leaves it, and an absent annotation map is a panic |
| ClusterHash.EditShows | devices-operator/internal/controller/devicecluster_controller.go:97-114 | every single edit of what the cluster contributes (a text, the secret created or deleted, one of its keys set, added or removed) changes the hash, for a digest without collisions, unless it adds or removes an empty key with an empty value |
| DeviceJob.NextMismatch | devices-operator/internal/controller/device_controller.go:72-285 | over every call, edit and restart, a job in the store that was built under other hashes than the device carries or is about to comes about only by losing the patch after its creation, and stays as long as the job |
| DeviceJob.NextKeepsInv | devices-operator/internal/controller/device_controller.go:72-285 | the invariant that there is no such job survives a step exactly when the step loses no patch |
| DeviceJob.WrongVerdictIff | devices-operator/internal/controller/device_controller.go:246-285 | over all interleavings, a job reported up to date was not created under the hashes this reconcile read if and only if a patch was lost and a job has been in the store ever since |
| DeviceJob.NoStaleVerdict | devices-operator/internal/controller/device_controller.go:246-285 | as long as no patch is lost, a job reported up to date is completed and was created under exactly the hashes this reconcile read |
| DeviceJob.VerdictIsCurrent | devices-operator/internal/controller/device_controller.go:100-285 | with no edit of secret, class or cluster since the reconcile began, these hashes are the stored ones, so that the report is right about them if and only if no patch was lost |
| DeviceReconciler.Reconciler.CreateSecret | devices-operator/internal/controller/device_controller.go:130-193 | the secret part of a reconcile makes the calls of the machine, with their failures |
| DeviceReconciler.Reconciler.CreateJob | devices-operator/internal/controller/device_controller.go:219-467 | the job part of a reconcile makes the calls of the machine, with their failures |
| DeviceReconciler.Reconciler.Reconcile | devices-operator/internal/controller/device_controller.go:60-128 | a whole reconcile ends in the state and the report of the machine, the device and its status being patched last whatever happened |
| DeviceReconciler.ReconcileIsRun | devices-operator/internal/controller/device_controller.go:60-128 | an uninterrupted reconcile is a run of the interleaved machine |
| DeviceReconciler.ReconcileEffect | devices-operator/internal/controller/device_controller.go:100-128 | a reconcile without failures completes and hashes the secret and then creates, keeps or deletes the job by the current hashes |
| DeviceReconciler.BeforeJob | devices-operator/internal/controller/device_controller.go:60-193 | whichever calls fail: up to the job a reconcile puts the secret in place, or reports an error and changes nothing |
| DeviceReconciler.JobReport | devices-operator/internal/controller/device_controller.go:219-467 | whichever calls fail: what the rest reports and leaves, for every phase of the job |
| DeviceReconciler.ReportByPhase | devices-operator/internal/controller/device_controller.go:223-285 | the report of a reconcile without failures, for every phase of the job |
| DeviceReconciler.ApprovesIff | devices-operator/internal/controller/device_controller.go:246-285 | from any state, a reconcile without failures reports the job up to date if and only if it is completed and the device carries the current hashes |
| DeviceReconciler.ApprovesIffMatches | devices-operator/internal/controller/device_controller.go:246-285 | that is, when the job carries the hashes of the device, if and only if it is completed and was built under the current hashes |
| DeviceReconciler.FaultyReconcile | devices-operator/internal/controller/device_controller.go:100-285 | whichever calls fail, a reconcile only creates a missing job, stores the hashes that go with it, or deletes a completed job that no longer matches |
| DeviceReconciler.ToleratedNeverFarther | devices-operator/internal/controller/device_controller.go:83-285 | whichever calls fail, but for the patch after a job's creation, no reconcile increases the distance to a matching job |
| DeviceReconciler.EventsApproach | devices-operator/internal/controller/device_controller.go:224-285 | once edits stop and calls stop failing, every event that changes anything strictly decreases the distance to a matching job |
| DeviceReconciler.NotSettledMoves | devices-operator/internal/controller/device_controller.go:224-285 | while that distance is not zero, the event due next does change something |
| DeviceReconciler.Convergence | devices-operator/internal/controller/device_controller.go:100-285 | from any state three rounds lead to a completed job that matches, if and only if the job at the start is neither a failed one nor one whose mismatch the device's hashes hide |
| DeviceReconciler.ConvergesAfterFaults | devices-operator/internal/controller/device_controller.go:83-285 | the same after any number of completions, deletions and reconciles some of whose calls failed |
| DeviceReconciler.ConvergesAfterRun | devices-operator/internal/controller/device_controller.go:60-285 | the same after any interleaved run, edits and restarts included, that leaves no job whose patch was lost |
| DeviceReconciler.SettledIsFixed | devices-operator/internal/controller/device_controller.go:100-285 | from then on no reconcile changes job, annotations or secret, whichever calls fail |
| DeviceReconciler.PasswordEditRebuilds | devices-operator/internal/controller/device_controller.go:163-285 | an edited password has the job replaced, for a digest without collisions |
| DevicePassword.PasswordKept | devices-operator/internal/controller/device_controller.go:136-185 | at every step of every interleaving, a call of a reconcile keeps a stored password unless it is the patch of a secret that was read without one |
| DevicePassword.PasswordRace | devices-operator/internal/controller/device_controller.go:163-185 | a run in which that patch replaces a password added since the read |
| DevicePassword.ReconcileKeepsPassword | devices-operator/internal/controller/device_controller.go:130-193 | a reconcile that nothing interrupts keeps an existing password, whichever of its calls fail |
| DevicePassword.CredentialsAfter | devices-operator/internal/controller/device_controller.go:130-193 | whatever fails after it: a new secret holds exactly the device's name and the generated password; an existing one gets the name, and a password if it had none, and keeps every other key; and the hash is that of the data |
| DevicePassword.OtherKeysKept | devices-operator/internal/controller/device_controller.go:163-185 | over all interleavings, no call touches another key of a stored secret, not even one changed since the read, and the hash is replaced only by one that differs from the one read |
| DeviceReconciler.StaleAfterFailedPatch | devices-operator/internal/controller/device_controller.go:83-85 | after a failed patch and any edits, an uninterrupted reconcile gives a report that is wrong about the current hashes if and only if these went back to the ones the device still carries, and the job was created under others |
| CreateOrUpdate.Store.CreateOrUpdate | devices-operator/internal/controller/device_controller.go:555-582 | create, or at most five updates each on the version last read, with every error exit |
| CreateOrUpdate.WritesOnlyOnLastRead | devices-operator/internal/controller/device_controller.go:565-581 | a success lands on the version read last, each earlier round having met another writer; a failure leaves nothing of its own |
| CreateOrUpdate.DiscardsIffOthersWrote | devices-operator/internal/controller/device_controller.go:565-576 | a success replaces another writer's object, unseen, if and only if somebody wrote in an earlier round of the call |
| CreateOrUpdate.LostUpdate | devices-operator/internal/controller/device_controller.go:565-576 | a schedule in which what another writer stored is lost |
| CreateOrUpdate.SucceedsIffOneFreeRound | devices-operator/internal/controller/devicecluster_controller.go:130-146 | without other failures it succeeds exactly if one of five rounds is free of other writers |
| CreateOrUpdate.RetryOutcome | devices-operator/internal/controller/device_controller.go:565-581 | for every schedule of failures and other writers, whether the rounds succeed, give up or end with a failing call |
| CreateOrUpdate.DoneStoresDesired | devices-operator/internal/controller/device_controller.go:555-582 | a success leaves the object as it was asked for, created or updated |
| CreateOrUpdate.EffectOutcome | devices-operator/internal/controller/device_controller.go:555-582 | the whole call: an absent object is created exactly if Get and Create succeed and nobody created it meanwhile; an existing one is updated exactly if one of five rounds is the first without another writer and no call fails before; otherwise the object is what others left |
| SecretInjection.Injector.SyncCredentials | devices-operator/internal/controller/devicecluster_rabbitmq.go:151-184 | credentials are created after any error of the Get, or what is missing is filled in, with a write only if something was |
| SecretInjection.Injector.SetAnnotations | devices-operator/internal/controller/devicecluster_rabbitmq.go:277-289 | in any iteration order exactly the annotations that read differently are set |
| SecretInjection.Injector.SetData | devices-operator/internal/controller/devicecluster_rabbitmq.go:291-315 | the keys of the mapping that do not hold their value are set, and whether any was |
| SecretInjection.Injector.InjectSecret | devices-operator/internal/controller/devicecluster_rabbitmq.go:267-321 | annotations and keys are set and the secret is written only if something changed; an error of any call ends the pass |
| SecretInjection.Injector.SyncUser | devices-operator/internal/controller/devicecluster_rabbitmq.go:150-323 | the tasks of one user in order, up to the first that fails |
| SecretInjection.Injector.Sync | devices-operator/internal/controller/devicecluster_rabbitmq.go:148-324 | the nested loops do the tasks of all users in order, up to the first that fails |
| SecretIdempotence.TasksCover | devices-operator/internal/controller/devicecluster_rabbitmq.go:148-324 | no user and no injection is left out of a pass |
| SecretIdempotence.CredentialsStored | devices-operator/internal/controller/devicecluster_rabbitmq.go:151-184 | new credentials hold exactly the user's name and the generated password; existing ones keep every key and gain what is missing |
| SecretIdempotence.CredentialsOk | devices-operator/internal/controller/devicecluster_rabbitmq.go:153-183 | exactly when that succeeds |
| SecretIdempotence.InjectedValues | devices-operator/internal/controller/devicecluster_rabbitmq.go:291-315 | after an injection the keys hold the user's name, the stored password, the topic and tcp://<cluster>.<namespace>.svc:1883, byte by byte |
| SecretIdempotence.InjectedAnnots | devices-operator/internal/controller/devicecluster_rabbitmq.go:278-289 | exactly the annotations that differ are set, a missing one counting as empty |
| SecretIdempotence.InjectOkIff | devices-operator/internal/controller/devicecluster_rabbitmq.go:267-320 | exactly when an injection succeeds |
| SecretIdempotence.FailedTaskWritesNothing | devices-operator/internal/controller/devicecluster_rabbitmq.go:150-321 | a task that fails leaves every secret as it was |
| SecretIdempotence.InjectAchieves | devices-operator/internal/controller/devicecluster_rabbitmq.go:277-320 | after an injection that does not contradict itself every declared key and annotation reads as declared |
| SecretIdempotence.TaskIdleIff | devices-operator/internal/controller/devicecluster_rabbitmq.go:150-321 | a task that succeeds writes nothing if and only if it was already achieved |
| SecretIdempotence.TaskPreserves | devices-operator/internal/controller/devicecluster_rabbitmq.go:150-321 | no later task that agrees with an earlier one undoes what that one achieved |
| SecretIdempotence.IdleIffAchieved | devices-operator/internal/controller/devicecluster_rabbitmq.go:148-324 | a successful pass writes nothing if and only if every task was achieved before it |
| SecretIdempotence.SecondPassIsIdleIff | devices-operator/internal/controller/devicecluster_rabbitmq.go:148-324 | after a successful pass, a second one without failing calls succeeds and writes nothing if and only if no two injections, nor one with itself, set a key or annotation to different values |
| SecretIdempotence.SecondPassIsIdle | devices-operator/internal/controller/devicecluster_rabbitmq.go:148-324 | in particular for distinct targets, whatever the second pass would generate and whichever of its calls fail, Gets included |
| SecretIdempotence.EveryPassWrites | devices-operator/internal/controller/devicecluster_rabbitmq.go:148-324 | injections that disagree never settle: after any passes, every successful one writes again |
| SecretIdempotence.SharedKeyDisagrees | devices-operator/internal/controller/devicecluster_rabbitmq.go:296-300 | two users with different passwords injected under one key of one secret disagree |
| SecretIdempotence.RepeatedInjectionIsIdleIff | devices-operator/internal/controller/devicecluster_rabbitmq.go:291-315 | repeating one injection writes nothing if and only if keys that coincide are set to equal values |
| SecretIdempotence.PairSettlesIff | devices-operator/internal/controller/devicecluster_rabbitmq.go:277-320 | after two injections into one secret, repeating the first writes nothing if and only if shared keys and annotations are set to equal values |
| SecretIdempotence.PassFrame | devices-operator/internal/controller/devicecluster_rabbitmq.go:148-324 | no pass, failed or not, touches a key or annotation that is not declared |
| SecretIdempotence.CredentialsKept | devices-operator/internal/controller/devicecluster_rabbitmq.go:169-184 | complete credentials are never changed by a pass that does not inject into them |

## Left out

- NvsDecrypt.Decrypt: takes inputs of whole 32-byte blocks; a shorter last read is an error of the cipher library.
- NvsDecrypt.DecryptsIffNoBlankCipher: the "only if" half is for contents of which no erased slot stays erased; the "if" half, EncryptDecryptRoundTrip, needs no such assumption.
- NvsWriter.NVS.WriteEntry: takes values already decoded, so that the errors of decoding hex and base64 text are not among its outcomes.
- NvsWriter.Generate: takes a size that the size check accepts and that has fewer than 2^32 pages, beyond which page numbers cannot be packed.
- DeviceJob.VerdictIsCurrent: says nothing of a reconcile during which the secret, class or cluster is edited; NoStaleVerdict and WrongVerdictIff then speak of the hashes it read.
- DeviceJob.NextMismatch: a call that fails changes nothing; calls that take effect although they report an error are not among the steps.
- DeviceJob.NextKeepsInv: edits of the device's own hash annotations by anyone but the operator are not among the steps of the environment.
- SecretIdempotence.SecondPassIsIdleIff: injections into the users' own credentials are left out; every other condition is part of the equivalence.
- Key generation, key files, the length of the given key, and AES, HMAC and SHA-256 themselves: library calls without an invariant of this code.
- Decoding of hex and base64 text and the parsing of integers: values enter the model decoded.
- Non-ASCII text, for which the generator counts characters but writes bytes, and keys with a zero byte, which no reader of the format can tell from padding.
- Upper-case encodings, CSV and file handling, the command line.
- The second copy of the generator under `services/esp32-firmware-builder`.
- The manifests built inline: pod templates, volumes, ingress, RabbitMQ resources and permissions, owner references, watches, labels and logging.
- The removal of a device; of the RabbitMQ resources that follow the job in a reconcile, and of the status patch, only the failures are modelled: they touch neither the hashes nor the job.
- Secrets whose data map is absent altogether: the injection loop would panic on them.
- The class reconciler, apart from its effect of refreshing the class hash, which is a step of the environment.
