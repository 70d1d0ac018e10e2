# A Dafny model of SideLink's signer, install pipeline and clocked services

SideLink re-signs iOS apps and installs them. This project models the parts of it in which a mistake is expensive and
hard to see, and proves what they are for.

**Signing.** `Bytes`, `MachO`, `CodeSign`, `SignatureBlob`, `TsSigner`, `Stamping` and `SliceSigning` follow the
byte-level signer: parsing, the code-signing blobs filled in place, the stamping of the future signature's size into
load commands that lie inside the hashed region, the two passes and the splice. `BlobReader` and `Checker` are an
independent reader: they parse a finished file, follow LC_CODE_SIGNATURE, decode the blobs and hash the bytes again.
`SignVerify` proves that the checker accepts what the signer makes, exactly when the signature lengths settle, that one
retry settles them for the one way in which the length of a CMS can change, and that signing again changes nothing.
`Fat` proves the loop over the slices of a fat file, `Resources` and `BundleSigning` the order in which bundles are
sealed, `BundleVerify` that a signed bundle verifies as it lies on disk. `MachOLayout` is an independent writer of
headers, load commands and fat tables that the parser reads back. `SmallestSlice` and `Arm64Slice` are concrete slices
on which all of this can be seen; the CMS of 0, 1 and then 2 bytes in the former is abstract and not one the original
could make.

**Install pipeline.** `DeviceLock`, `JobRows`, `JobRecovery`, `TwoFactor`, `Sessions`, `AccountSession`,
`SessionRefresh`, `SingleFlight` and `Certificates` model the protocol as state machines. Every synchronous stretch
between two awaits is one event, and the theorems hold for every finite sequence of events. The classes hold the module
state of the original; each method is proved to make the step of the state machine.

**Clocked services.** `TokenBucket`, `Scheduler`, `Windows`, `Quotas`, `Lockout` and `Versions`. Times are integer
milliseconds read from a clock that does not go back; where the code reads the clock several times in one call, each read
is a parameter of its own.

How the foreign parts appear: SHA-1 and SHA-256 are arbitrary functions with results of 20 and 32 bytes. The CMS signature
is an arbitrary function of the CodeDirectory and the time, with bounds on its length; theorems that need a constant length
or independence of the clock say so. Strings that go into a file are their UTF-8 bytes. Errors thrown, the code's own and
those of out-of-range buffer accesses alike, are the value `Failure` or a result `false`. Property lists, profiles, Apple's
answers and the outcome of decryption are inputs. Database writes do not throw.

Where code and documentation differ, the code is followed:

- The 64-bit segment fields are read and written at offsets 40, 48 and 56 (`src/server/signing/macho.ts:322-324`), 8 more
  than in `segment_command_64` of `<mach-o/loader.h>`. What is said about __LINKEDIT is said through findLinkeditSegment.
- The comment on refreshAuth speaks of 30 minutes, the constant is 12 hours, and a persisted session is counted from the
  time it is loaded again (`src/server/services/apple-account-service.ts:322-340`, and lines 362 to 369);
  `SessionRefresh.TwelveHoursKeptIff` says when the 12 hours are kept.
- Pending challenges are said to expire after 5 minutes; the constant is 10 (`src/server/services/apple-account-service.ts:17-24`).
- Cancelling is described as stopping a job at the next boundary; it does so only until the flag expires, and not in the
  last step (`src/server/pipeline/pipeline.ts:421-440`). `JobRows.CancelIsLostIff` and `JobRows.CancelIsOutlivedIff` say
  exactly when a cancel is lost.
- ensureCertificate is meant to create a certificate only when there is none to return; because a call reads the clock
  twice, it creates one beside a usable one exactly in the case of `Certificates.NotClearIff`.

`dafny verify dfyconfig.toml` checks the whole project.

## Model

| member | source | states |
|---|---|---|
| `MachOLayout.HeaderRoundTrip` | src/server/signing/macho.ts:111-153 | written as bytes by an independent writer, a header of either width and byte order and with any field values is read back as exactly those fields, the width, the swap flag and the size 28 or 32 |
| `MachOLayout.HeaderIff` | src/server/signing/macho.ts:111-153 | nothing else is read as a header: one of the four magics, byte by byte, and the header there in full |
| `MachOLayout.CommandsRoundTrip` | src/server/signing/macho.ts:158-181 | a written list of load commands is read back with kinds, sizes and offsets |
| `MachOLayout.SignatureFound` | src/server/signing/macho.ts:186-197 | the first LC_CODE_SIGNATURE counts, dataoff at its offset 8, datasize at 12 |
| `MachOLayout.LinkeditFound` | src/server/signing/macho.ts:303-316 | the first segment command whose 16 name bytes spell __LINKEDIT counts, the top bit of each byte ignored |
| `MachOLayout.LinkeditRoundTrip` | src/server/signing/macho.ts:317-334 | vmsize, fileoff and filesize are read at the literal offsets 40, 48, 56 and 28, 32, 36 |
| `MachOLayout.SliceRoundTrip` | src/server/signing/macho.ts:202-226 | a written header and load commands are read back as a slice |
| `MachOLayout.FatRoundTrip` | src/server/signing/macho.ts:231-283 | a written fat table of up to 20 records of either width is read back as its records and the slices they point to |
| `MachOLayout.FatTooMany` | src/server/signing/macho.ts:237-239 | more than 20 records are refused |
| `MachO.ParseHeader` | src/server/signing/macho.ts:111-153 | a header that is read is 28 to 32 bytes long and lies inside the buffer; reading it is total, errors included |
| `MachO.ParseLoadCommands` | src/server/signing/macho.ts:158-181 | the loop over `ncmds` commands returns the recursive reading of them, and fails exactly when a command is cut off, too small or reaches past the buffer |
| `MachO.CommandsInOrder` | src/server/signing/macho.ts:158-181 | parsed commands lie one behind the other, each at least 8 bytes and inside the buffer |
| `MachO.CommandsMove` | src/server/signing/macho.ts:158-181 | the command list depends on the first 8 bytes of each command and nothing else; it moves with them |
| `MachO.ParseFatBinary` | src/server/signing/macho.ts:231-283 | the loop over the architectures equals the reading of table and slices, error cases included (count over 20, record or slice that does not parse) |
| `MachO.FatFails` | src/server/signing/macho.ts:231-283 | one bad record or slice fails the whole file, wherever it stands |
| `MachO.FirstLinkeditMoves` | src/server/signing/macho.ts:303-338 | __LINKEDIT is found by the 16 name bytes of the segment commands alone |
| `Bytes.RoundTrip32` | src/server/signing/codesign-structures.ts:141-160 | 32-bit words written in either byte order read back |
| `Bytes.RoundTrip64` | src/server/signing/ts-signer.ts:391-392 | 64-bit little-endian words read back |
| `Bytes.WriteBytes` | src/server/signing/codesign-structures.ts:171-191 | a copy into a buffer overwrites exactly its range |
| `CodeSign.ComputeCodeHashes` | src/server/signing/codesign-structures.ts:371-382 | the page loop yields one digest per page of 16 KiB, the last page possibly short |
| `CodeSign.PageHashesCount` | src/server/signing/codesign-structures.ts:371-382 | the number of page digests depends on the length of the data alone |
| `CodeSign.BuildCodeDirectory` | src/server/signing/codesign-structures.ts:95-194 | filling the zeroed buffer leaves header words, identifier, special slots n..1, code hashes and team id one behind the other with nothing between or after |
| `CodeSign.WriteSpecialHashes` | src/server/signing/codesign-structures.ts:174-182 | slot k ends up k hashes before hashOffset in whatever order the map is iterated; absent slots stay zero |
| `CodeSign.BuildTaggedBlob` | src/server/signing/codesign-structures.ts:199-250 | magic, own total length, payload |
| `CodeSign.BuildEmptyRequirements` | src/server/signing/codesign-structures.ts:233-239 | the empty requirement set with its own length |
| `CodeSign.BuildSuperBlob` | src/server/signing/codesign-structures.ts:260-298 | the loop that advances index and blob offsets leaves a header, an index in slot order and the blobs behind it |
| `CodeSign.SortSorts` | src/server/signing/codesign-structures.ts:262-263 | sorting the entries gives strictly increasing slots and the same entries |
| `CodeSign.SortKeepsLookup` | src/server/signing/codesign-structures.ts:262-263 | sorting changes no lookup |
| `BlobReader.SuperBlobTiles` | src/server/signing/codesign-structures.ts:260-298 | each index entry points at its blob, the first blob follows the index, each blob follows the previous one, the last ends the buffer |
| `BlobReader.SuperBlobReadsBack` | src/server/signing/codesign-structures.ts:260-298 | a reader that knows only offsets and each blob's own length word gets back exactly the entries, if and only if every blob carries its own length |
| `BlobReader.SuperBlobRoundTrip` | src/server/signing/codesign-structures.ts:260-298 | round trip of the map: same entries, same lookups, slots strictly increasing |
| `BlobReader.TaggedBlobIsSelfSized` | src/server/signing/codesign-structures.ts:199-250 | the small builders write their own length at byte 4 |
| `BlobReader.SpecialRead` | src/server/signing/codesign-structures.ts:174-182 | special slot k is read at hashOffset minus k hashes; an absent slot reads as zeros |
| `BlobReader.CodeRead` | src/server/signing/codesign-structures.ts:184-187 | code hash i is read at hashOffset plus i hashes |
| `BlobReader.StringsRead` | src/server/signing/codesign-structures.ts:170-191 | the identifier and the team id read back as C strings, up to their first NUL |
| `BlobReader.CodeDirectoryRoundTrip` | src/server/signing/codesign-structures.ts:95-194 | decoding a built CodeDirectory returns its parameters |
| `BlobReader.HeaderTailRead` | src/server/signing/codesign-structures.ts:151-168 | the header words that the decoder does not use: zeros, the 64-bit code limit, the executable segment fields |
| `SignatureBlob.SpecialHashesSeal` | src/server/signing/ts-signer.ts:284-293 | the special-slot map has one entry per sealed item (Info.plist, requirements, CodeResources, entitlements), the digest of that item, and no other |
| `SignatureBlob.SignatureBytes` | src/server/signing/ts-signer.ts:296-336 | the length of a signature is a function of code length, strings, entitlements length and CMS length; the hashed bytes do not occur in it |
| `SignatureBlob.BuildSignatureBlob` | src/server/signing/ts-signer.ts:296-336 | building the blobs and the map yields that signature |
| `SignatureBlob.BlobSlotsShape` | src/server/signing/ts-signer.ts:328-335 | the slots are in increasing order and fit the SuperBlob |
| `TsSigner.StampSignatureMetadata` | src/server/signing/ts-signer.ts:373-402 | the writes into dataoff, datasize, vmsize and filesize, the segment being looked up after the first two |
| `TsSigner.CommandHeadUntouched` | src/server/signing/ts-signer.ts:373-402 | stamping meets neither the first 8 bytes of any command nor any segment name |
| `Stamping.StampIs` | src/server/signing/ts-signer.ts:373-402 | looking __LINKEDIT up after the signature fields are written finds what it would have found before |
| `Stamping.StampedParse` | src/server/signing/ts-signer.ts:373-402 | parsing before and after stamping gives the same header and the same list of cmd, cmdsize and offset; only the signature location is new |
| `Stamping.StampedParseLinkedit` | src/server/signing/ts-signer.ts:373-402 | read through findLinkeditSegment, fileoff is kept, fileoff + filesize is the signature end and vmsize the filesize rounded up to whole pages |
| `Stamping.StampedIsWellFormed` | src/server/signing/ts-signer.ts:373-402 | a stamped slice meets the signer's demands again |
| `Stamping.RestampIsStamp` | src/server/signing/ts-signer.ts:349-353 | stamping over a stamped slice gives what stamping the original with the last values gives |
| `SliceSigning.ConstantCmsNeedsNoRetry` | src/server/signing/ts-signer.ts:338-355 | with a CMS of constant length the second pass has the draft's length, the retry never runs and the stamped size is the final length |
| `SliceSigning.SliceLocal` | src/server/signing/macho.ts:158-197 | a slice inside a file parses as it does alone, shifted |
| `SliceSigning.StampLocal` | src/server/signing/ts-signer.ts:373-402 | stamping a slice inside a file stamps that slice and no other byte |
| `SliceSigning.SecondPass` | src/server/signing/ts-signer.ts:346-355 | the second pass and the retry act on the stamped slice |
| `SliceSigning.SignSlice` | src/server/signing/ts-signer.ts:265-364 | all bytes before the slice stay, all bytes after it move by the change in length, and the slice's bytes are signed as if they were the file |
| `SliceSigning.Assembly` | src/server/signing/ts-signer.ts:408-424 | the pieces put together are the stamped code, the padding, the signature and the rest |
| `Checker.PageHashAt` | src/server/signing/codesign-structures.ts:371-382 | page digest i is the digest of the i-th 16 KiB of the code |
| `Checker.SealsAgree` | src/server/signing/ts-signer.ts:284-335 | what each special slot seals is what is embedded beside the CodeDirectory or lies in the bundle; the highest slot is the last that seals anything |
| `Checker.DirectoryIsAccepted` | src/server/signing/ts-signer.ts:296-336 | a built CodeDirectory, decoded again, passes every check against the code it was built over, which reaches up to the padding before the signature |
| `Checker.BuiltEmbeds` | src/server/signing/ts-signer.ts:276-335 | slot 2 holds the twelve bytes of the empty requirement set; slot 5 reads back as magic 0xfade7171, own length and exactly the entitlements of an app, and is absent in nested code, as is the second CodeDirectory; there are no other slots |
| `Checker.BuiltSignatureAccepted` | src/server/signing/ts-signer.ts:296-336 | a signature built over some code is accepted by whoever finds it behind exactly that code and its zero padding and expects those entitlements |
| `Checker.AcceptedCodeIsHashed` | src/server/signing/ts-signer.ts:274-281 | in an accepted file every byte before the signature lies in a page whose digest is listed, or is a zero of the padding, which is shorter than 16 bytes |
| `Checker.AcceptedIsTamperEvident` | src/server/signing/ts-signer.ts:296-336 | two accepted files with the same signature at the same place are the same file, unless two of their pages collide |
| `SignVerify.SignedParse` | src/server/signing/ts-signer.ts:265-364 | re-parsing a signed slice finds the signature at the padded code limit with the size stamped last |
| `SignVerify.SigningKeepsTheCode` | src/server/signing/ts-signer.ts:265-424 | every byte before the old signature is the original one, except dataoff, datasize, vmsize and filesize |
| `SignVerify.SignaturePlaced` | src/server/signing/ts-signer.ts:279-281 | the new signature starts where the old one did, at the next multiple of 16, and ends the file |
| `SignVerify.SignThenVerify` | src/server/signing/ts-signer.ts:265-364 | sign, then verify: the independent checker accepts the signed slice if and only if the last two signature lengths agree |
| `SignVerify.SignThenVerifyConstantCms` | src/server/signing/ts-signer.ts:265-364 | with a CMS of constant length it always accepts |
| `SignVerify.OneRetrySufficesIff` | src/server/signing/ts-signer.ts:349-353 | if the CMS length depends on the signing time alone, the last two lengths agree if and only if the length does not change twice in a row over the three passes |
| `SignVerify.SignThenVerifyReencoded` | src/server/signing/codesign-structures.ts:306-347 | the one change of length that the signing time can cause, another encoding from some moment on, is absorbed by the retry wherever it falls: the checker accepts |
| `SignVerify.GrowingCmsIsRejected` | src/server/signing/ts-signer.ts:349-353 | that condition is sharp: with an abstract CMS whose length changes at each of the three passes, which createCMSSignature does not make, the result is rejected |
| `SmallestSlice.SmallestCanBeSigned` | src/server/signing/ts-signer.ts:265-364 | what the signer demands can be met: a 44-byte slice can be signed with any key |
| `Arm64Slice.Arm64CanBeSigned` | src/server/signing/ts-signer.ts:265-364 | a written 64-bit slice with __LINKEDIT can be signed with any key, and with a CMS of constant length the checker accepts it |
| `SignVerify.StampAgain` | src/server/signing/ts-signer.ts:373-402 | stamping the values that are there already changes no byte |
| `SignVerify.SignedCanBeSigned` | src/server/signing/ts-signer.ts:265-364 | a signed slice can be signed again; its code limit is aligned and its code already stamped |
| `SignVerify.StampOver` | src/server/signing/ts-signer.ts:349-353 | stamping a signed slice with another size stamps its code as stamping the original would |
| `SignVerify.ResignIsIdentityIff` | src/server/signing/ts-signer.ts:265-364 | with an aligned code limit and a CMS that does not depend on the clock, signing the signed slice again returns the same bytes if and only if one more pass, stamped with the length the signature has, has the stamped size |
| `SignVerify.ResignIsIdentity` | src/server/signing/ts-signer.ts:265-364 | with an aligned code limit and a CMS that does not depend on the clock, signing the signed slice again at any time returns the same bytes whenever the last two signature lengths agreed |
| `SignVerify.SecondSigningIsStable` | src/server/signing/ts-signer.ts:279-281 | an unaligned slice is stable from the second signing on |
| `Fat.SignMachOBinary` | src/server/signing/ts-signer.ts:233-253 | the loop that re-parses before each slice: a file that does not parse is an error, otherwise every slice is replaced by its signed self and no other byte changes |
| `Fat.SignedUpToLoops` | src/server/signing/ts-signer.ts:244-250 | signing the slices one after the other, each found by parsing what is there then, makes the same progress |
| `Fat.ProgressStep` | src/server/signing/ts-signer.ts:244-250 | signing slice i is one step: earlier slices stay signed, later ones and everything outside the slices stay as they were |
| `Fat.ProgressParses` | src/server/signing/ts-signer.ts:245-246 | after any number of steps the file still parses and its i-th slice is the i-th slice of the original |
| `Fat.SameTable` | src/server/signing/macho.ts:231-283 | the architecture table depends on its own bytes |
| `Fat.FatIsAccepted` | src/server/signing/ts-signer.ts:239-252 | if every slice of a fat file has exactly the room it needs, the loop ends with every slice passing the checker at the place the untouched table gives |
| `Fat.SlotAcceptedIffExact` | src/server/signing/ts-signer.ts:357-363 | a signed slice read at its place in the table passes the checker if and only if code, padding and signature fill exactly the size the table states |
| `Resources.SealLists` | src/server/signing/ts-signer.ts:455-497 | a seal lists exactly the bundle's files that are not in _CodeSignature, not the root CodeResources and not the executable, each with the digests of its contents, optional exactly below an .lproj directory |
| `Resources.BuildCodeResources` | src/server/signing/ts-signer.ts:434-504 | the loop over the files, in any order, builds that seal |
| `Resources.WriteKeepsSeal` | src/server/signing/ts-signer.ts:434-504 | a write to a file that is not listed leaves the seal true |
| `Resources.WriteBreaksSeal` | src/server/signing/ts-signer.ts:434-504 | a write that changes the digest of a listed file makes it false |
| `BundleSigning.WriteOutside` | src/server/signing/ts-signer.ts:532-567 | a write outside a bundle touches neither its seal nor its signature |
| `BundleSigning.SealWritten` | src/server/signing/ts-signer.ts:183-186 | a seal does not list itself: writing it makes it true |
| `BundleSigning.ExecWritten` | src/server/signing/ts-signer.ts:189-194 | writing the signed executable keeps the seal true and the signature is over the seal and the Info.plist on disk |
| `BundleSigning.AppTree.SealAndSign` | src/server/signing/ts-signer.ts:183-194 | build the seal, write it, sign the executable over it: all earlier seals stay true, the new one is true, nothing else is written; it fails exactly when Info.plist or executable are missing or the signer fails |
| `BundleSigning.AppTree.SignFramework` | src/server/signing/ts-signer.ts:573-661 | a framework whose binary is there and is Mach-O is sealed and signed as that framework, any other is left alone; nothing outside it is written |
| `BundleSigning.AppTree.SignItem` | src/server/signing/ts-signer.ts:541-551 | every framework and dylib there is to sign gets its receipt, or the signer failed on it or its binary is a directory |
| `BundleSigning.AppTree.SignDylib` | src/server/signing/ts-signer.ts:666-730 | only the dylib is written, with its signature, and it is recorded as signed |
| `BundleSigning.AppTree.SignFrameworksIn` | src/server/signing/ts-signer.ts:538-552 | in the order of the listing every item up to the first failing one is signed; all seals written so far stay true, also when an error ends the loop |
| `BundleSigning.CoveredIsAll` | src/server/signing/ts-signer.ts:538-552 | if no item fails, every framework and every dylib of the directory is signed |
| `BundleSigning.AppTree.SignAppExtension` | src/server/signing/ts-signer.ts:735-794 | an extension with an executable gets its profile, its frameworks and its own seal, and is signed with its own bundle id, Info.plist and entitlements; nothing outside it is written |
| `BundleSigning.AppTree.SignPlugIns` | src/server/signing/ts-signer.ts:554-566 | in the order of the listing every extension up to the first failing one is signed; all seals stay true |
| `BundleSigning.PlugInsCoveredIsAll` | src/server/signing/ts-signer.ts:554-566 | if no extension fails, all of them are signed, with their frameworks |
| `BundleSigning.AppTree.SignApp` | src/server/signing/ts-signer.ts:147-194 | when signIpa has written the executable, or failed on the way: every seal it wrote is true of the files on disk and every signed dylib is still the signed one; frameworks, dylibs and included extensions are signed; the profile is embedded; PlugIns is gone exactly when extensions are not included; the executable is signed as the app with its identifier, Info.plist and entitlements |
| `BundleSigning.NextItemApart` | src/server/signing/ts-signer.ts:541-551 | the bundles of different directory entries do not contain each other |
| `BundleVerify.SignedFileAccepted` | src/server/signing/ts-signer.ts:233-253 | what signMachOBinary returns passes the checker, thin or fat |
| `BundleVerify.WithSignerSigns` | src/server/signing/ts-signer.ts:233-253 | the signer that the bundle code calls can be the modelled one: signing a file as Fat does meets what is asked of it |
| `BundleVerify.SignedBundleVerifies` | src/server/signing/ts-signer.ts:183-194 | with that signer in place, the executable of a signed bundle verifies against the Info.plist and the CodeResources on disk at the end |
| `BundleVerify.LibraryVerifies` | src/server/signing/ts-signer.ts:666-730 | a signed dylib verifies as it lies on disk at the end |
| `DeviceLock.DeviceLocks.AcquireDeviceLock` | src/server/pipeline/pipeline.ts:49-57 | a caller chains behind the installed promise and installs its own |
| `DeviceLock.DeviceLocks.ReleaseLock` | src/server/pipeline/pipeline.ts:58-62 | release deletes the entry only if it is still the caller's |
| `DeviceLock.MutualExclusion` | src/server/pipeline/pipeline.ts:49-63 | in every interleaving at most one run per device is between wake-up and release |
| `DeviceLock.ServedInOrder` | src/server/pipeline/pipeline.ts:49-63 | runs of a device are served in the order of their calls |
| `DeviceLock.EntryIffInUse` | src/server/pipeline/pipeline.ts:49-63 | a device has an entry exactly while some run holds its lock or waits for it |
| `DeviceLock.SomeoneCanGoOn` | src/server/pipeline/pipeline.ts:49-63 | while a device is in use, its first unfinished run can proceed |
| `JobRows.RowsAreOk` | src/server/pipeline/pipeline.ts:376-443 | every row ever written, with cancellation, timeouts, crashes and recovery interleaved, is completed*, at most one running or failed, pending*; completed rows have completed all six steps, failed rows have none running |
| `JobRows.RunnerWrites` | src/server/pipeline/pipeline.ts:447-756 | what the row reads after each write of the runner, in any run: which step is running, completed or failed, which status |
| `JobRows.StoppedStepFails` | src/server/pipeline/pipeline.ts:384-435 | a row with a step in progress that is cancelled, or recovered after a crash, ends failed with exactly that step failed |
| `JobRows.ReturnedIsFinal` | src/server/pipeline/pipeline.ts:447-649 | when runPipeline has returned and no step that can pause overran its budget, the row is terminal, a later cancel is refused and nothing changes the row again |
| `JobRows.CancelStopsNewSteps` | src/server/pipeline/pipeline.ts:703-712 | until the flag expires a cancelled job begins no further step, whatever else happens |
| `JobRows.CancelIsLostIff` | src/server/pipeline/pipeline.ts:404-443 | at any time in any run of a job that is not over: while the flag does not expire, the row can become completed after a cancel if and only if the last step is running or done |
| `JobRows.CancelIsOutlivedIff` | src/server/pipeline/pipeline.ts:436-440 | with the flag expiring after its minute, it can if and only if the job is not waiting for a code and not on its way to failing |
| `JobRows.RowStaysIff` | src/server/pipeline/pipeline.ts:447-649 | when runPipeline has returned, the row can never change again if and only if it is terminal and no step function that outlived its timeout waits for a code, has got one or may still ask for one |
| `JobRecovery.RecoverStalledJobs` | src/server/pipeline/pipeline.ts:376-399 | recovery fails exactly the rows the two listings return, their running step included, and counts them |
| `JobRecovery.RecoveryCompleteIff` | src/server/pipeline/pipeline.ts:376-399 | no stalled row is left if and only if at most 50 rows are running and at most 50 waiting |
| `JobRecovery.RecoveryKeepsRows` | src/server/pipeline/pipeline.ts:376-399 | recovered rows keep their shape and rows that are not stalled are not touched |
| `JobRecovery.ListJobs` | src/server/state/database.ts:990-999 | the first 50 rows of a status, newest first |
| `JobRecovery.StopRow` | src/server/pipeline/pipeline.ts:384-391 | the row is failed, every running step is failed, every other step is as it was |
| `JobRecovery.JobRunner.StartRun` | src/server/pipeline/pipeline.ts:455-459 | the job is running and so is its row |
| `JobRecovery.JobRunner.BeginRunStep` | src/server/pipeline/pipeline.ts:703-721 | a set flag is consumed and stops the step; otherwise the step is running in object and row |
| `JobRecovery.JobRunner.FinishRunStep` | src/server/pipeline/pipeline.ts:736-744 | the step is completed in object and row |
| `JobRecovery.JobRunner.FailRunStep` | src/server/pipeline/pipeline.ts:745-756 | the step and the job are failed in object and row; a timed-out function is left running |
| `JobRecovery.JobRunner.CatchPipelineError` | src/server/pipeline/pipeline.ts:626-636 | an error outside a step fails the job unless it has failed |
| `JobRecovery.JobRunner.CompleteJob` | src/server/pipeline/pipeline.ts:615-619 | the job is completed |
| `JobRecovery.JobRunner.PauseForTwoFactor` | src/server/pipeline/pipeline.ts:241-259 | the job waits for a code in object and row |
| `JobRecovery.JobRunner.ResumeAfterTwoFactor` | src/server/pipeline/pipeline.ts:261-271 | the job is running again in object and row |
| `JobRecovery.JobRunner.CancelJob` | src/server/pipeline/pipeline.ts:404-443 | a terminal row is left alone; any other is failed with its running step, a waiter is rejected, the flag and its timer are set, the job object is not touched |
| `TwoFactor.SettledOnce` | src/server/pipeline/pipeline.ts:190-239 | in every interleaving of submissions, timeouts and cancellations a waiter is settled at most once, and pending2FA holds exactly the unsettled ones |
| `TwoFactor.SubmitCascades` | src/server/pipeline/pipeline.ts:190-217 | one submission settles all unsettled waiters of that account with the code and no other waiter |
| `TwoFactor.CancelSettlesOne` | src/server/pipeline/pipeline.ts:412-419 | a cancellation rejects the waiter of that job and no other |
| `TwoFactor.TimeoutSettlesOne` | src/server/pipeline/pipeline.ts:231-234 | a timeout rejects its own waiter and no other, and only one that nobody has settled |
| `TwoFactor.Waiters.SubmitJobTwoFA` | src/server/pipeline/pipeline.ts:190-217 | the loop over the collected siblings does exactly that |
| `TwoFactor.Waiters.WaitFor2FACode` | src/server/pipeline/pipeline.ts:230-239 | a waiter is added for the job |
| `SingleFlight.CallersShareOneTask` | src/server/services/apple-account-service.ts:258-280 | callers for one key await the one task of that key that is not removed |
| `SingleFlight.FlightKeeps` | src/server/apple/certificate-manager.ts:106-122 | deleting by key never removes the entry of another task |
| `AccountSession.AppleAccountService.Complete2FAForAccount` | src/server/services/apple-account-service.ts:258-280 | short-circuit on an active account with a fresh session, join a running task, or start one |
| `AccountSession.OneSubmissionInFlight` | src/server/services/apple-account-service.ts:258-300 | an account never has two submissions in flight |
| `AccountSession.NoSubmissionAfterSuccess` | src/server/services/apple-account-service.ts:258-300 | after Apple accepts a code no call submits for that account until there is a new challenge, whatever happens to the session |
| `AccountSession.JobsShareOneSubmission` | src/server/services/apple-account-service.ts:258-280 | jobs resumed by one code share one submission: while it is not refused, the session not invalidated and 12 hours not over, every call joins it or returns the active account and no other is started |
| `SessionRefresh.SessionCache.RefreshAuth` | src/server/services/apple-account-service.ts:334-372 | cached session, running task, persisted session or a new authentication |
| `SessionRefresh.SessionsAreUnder24Hours` | src/server/services/apple-account-service.ts:334-372 | a session handed out without asking Apple was authenticated less than 24 hours ago |
| `SessionRefresh.TwelveHoursKeptIff` | src/server/services/apple-account-service.ts:334-372 | in any run, a session handed out without asking Apple is under 12 hours old if and only if the stored authentication of the account is, or there is none |
| `SessionRefresh.PersistedSessionLivesTwice` | src/server/services/apple-account-service.ts:356-370 | the 24 hours are sharp: a session persisted and reloaded a millisecond before its 12 hours are over is handed out almost 12 hours later |
| `Certificates.ActiveIs` | src/server/state/database.ts:660-674 | the newest usable certificate that can be decrypted; undecryptable ones before it are quarantined; with no result no usable row is left |
| `Certificates.GetActiveCertificate` | src/server/state/database.ts:660-674 | the loop that quarantines on the way |
| `Certificates.CertificateManager.EnsureCertificate` | src/server/apple/certificate-manager.ts:106-133 | join the request in flight, return a stored certificate, or decide to create one |
| `Certificates.CertificateManager.SaveIssued` | src/server/apple/certificate-manager.ts:312-332 | the new row is saved and is what all callers get |
| `Certificates.CertificateManager.ReclaimRow` | src/server/apple/certificate-manager.ts:213-251 | an undecryptable row is deleted, any other marked revoked; rows with other ids are not touched |
| `Certificates.DeleteSplits` | src/server/state/database.ts:731-734 | deletion goes row by row, so the rows that stay keep their order |
| `Certificates.CreatedIsTheOnlyUsable` | src/server/apple/certificate-manager.ts:106-133 | on any table and in any interleaving, a certificate created after none was found is the only usable one of its account and team, and every caller that joined gets it |
| `Certificates.NothingFoundIsClear` | src/server/apple/certificate-manager.ts:129-133 | when nothing is found, no usable row is left |
| `Certificates.NeverASecondUsable` | src/server/apple/certificate-manager.ts:106-133 | a table with at most one usable certificate per account and team never gets a second |
| `Certificates.NotClearIff` | src/server/apple/certificate-manager.ts:129-133 | a call goes on to create a certificate beside a usable one if and only if the row it finds expires between its two clock reads and an older row outlives it |
| `Certificates.RaceLeavesTwo` | src/server/apple/certificate-manager.ts:106-133 | from every reachable state in which that is so, the call can leave two usable certificates |
| `TokenBucket.RateLimiter.Handle` | src/server/utils/security.ts:46-72 | the bucket is refilled for the time that has passed, a new one is full; a request is admitted exactly when it holds a token, and takes one; other keys are not touched |
| `TokenBucket.BurstIsAdmitted` | src/server/utils/security.ts:46-70 | nobody is refused too early: a key's first requests are all admitted, one for each token of a full bucket |
| `TokenBucket.RateLimiter.Cleanup` | src/server/utils/security.ts:38-43 | exactly the stale buckets are deleted |
| `TokenBucket.RateIsBounded` | src/server/utils/security.ts:29-73 | any stretch of any run admits at most maxTokens plus refillRate times its seconds |
| `TokenBucket.CleanupInvisibleIff` | src/server/utils/security.ts:35-44 | deleting stale buckets never changes the level a request finds if and only if the shortest stale time (300.001 s) refills an empty bucket |
| `TokenBucket.ConfiguredLimitersAreSafe` | src/server/utils/security.ts:79-111 | all five configured limiters satisfy that |
| `TokenBucket.RetryAfterSuffices` | src/server/utils/security.ts:60-64 | waiting the stated seconds admits, no shorter whole number of seconds does, and only if a full bucket holds a token |
| `Scheduler.BackoffHolds` | src/server/services/scheduler-service.ts:182-207 | in a stretch without the device, with restarts at any times, an attempt comes no earlier than the first plus all waits in between, each at least 15 minutes |
| `Scheduler.AttemptsSpaced` | src/server/services/scheduler-service.ts:182-207 | the next attempt comes no earlier than the wait of the last one and has the next number, or the first one again after a restart that found the wait over |
| `Scheduler.Numbered` | src/server/services/scheduler-service.ts:182-207 | without a restart the attempts are numbered one by one |
| `Scheduler.NoAttemptIsLate` | src/server/services/scheduler-service.ts:182-207 | the first tick at the end of a wait makes the attempt, restarts or not |
| `Scheduler.DelayIs` | src/server/services/scheduler-service.ts:199-203 | the waits are 15, 30, 60, 120, 240, 480 and then 720 minutes |
| `Scheduler.RestartLoadsTheFuture` | src/server/services/scheduler-service.ts:375-397 | a restart loads exactly the entries of the memory that are still in the future |
| `Scheduler.RestartKeepsTheWait` | src/server/services/scheduler-service.ts:375-397 | a restart never changes when the next attempt is made |
| `Scheduler.RestartIsPerApp` | src/server/services/scheduler-service.ts:380-397 | what a restart loads for an app is the entry of the memory if its wait is still running |
| `Scheduler.TickIsPerApp` | src/server/services/scheduler-service.ts:182-221 | a tick treats each app on its own |
| `Scheduler.SchedulerService.Tick` | src/server/services/scheduler-service.ts:182-221 | the loop over the due apps, persisting after each change |
| `Scheduler.SchedulerService.constructor` | src/server/services/scheduler-service.ts:380-397 | loading keeps the future entries |
| `Quotas.LimitsHold` | src/server/services/app-id-manager.ts:33-46 | over any sequence of calls and removals no 7-day window has more surviving rows than the weekly limit, and there are never more rows than the active limit |
| `Quotas.AppIdManager.EnsureAppId` | src/server/services/app-id-manager.ts:19-98 | existing row, limit errors in this order, portal error, or a new row |
| `Quotas.AppIdManager.CountAppIdsCreatedSince` | src/server/state/database.ts:831-836 | the rows created at or after a time |
| `Windows.EntryKeepsBound` | src/server/services/app-id-manager.ts:40-46 | a check on the window that ends when it is made bounds every window that holds the later entry |
| `Lockout.AtMostFiveFailures` | src/server/services/auth-service.ts:162-182 | since the last success a user has at most five failures in any window shorter than 15 minutes |
| `Lockout.PruningIsInvisible` | src/server/services/auth-service.ts:303-307 | pruning never changes whether a user is locked out |
| `Lockout.FailureKeepsBound` | src/server/services/auth-service.ts:270-291 | a failure recorded because the lockout had just run out does not break the bound either |
| `Lockout.LockedOutIff` | src/server/services/auth-service.ts:270-291 | in any run a user is locked out exactly with five or more failures in the last 15 minutes, the newest less than 15 minutes old |
| `Lockout.PruneIs` | src/server/services/auth-service.ts:303-307 | pruning keeps the attempts of the last 15 minutes and no other |
| `Lockout.AuthService.Login` | src/server/services/auth-service.ts:162-182 | a locked out user is told so and nothing is recorded; otherwise the right password is welcomed and clears the failures, and a wrong one is refused and recorded once |
| `Versions.SplitFirst` | src/server/services/source-service.ts:227 | a version is cut at each dot, plus and minus, and nowhere else |
| `Versions.NumeralRoundTrip` | src/server/services/source-service.ts:227-230 | a part that starts with a numeral is read as its number, whatever follows |
| `Versions.TextRoundTrip` | src/server/services/source-service.ts:227-230 | a part that starts with neither a digit nor a blank is text |
| `Versions.AppsCompareByVersion` | src/server/services/source-service.ts:205-218 | an app's own version counts, the first listed one only without it |
| `Versions.DottedRoundTrip` | src/server/services/source-service.ts:227-230 | numbers between dots are read back, with or without a v in front |
| `Versions.CompareSemver` | src/server/services/source-service.ts:226-245 | the loop over the parts returns the first difference, missing parts counting as zero |
| `Versions.DottedOrder` | src/server/services/source-service.ts:226-245 | whatever the order of strings, versions of plain numbers compare by the first number that differs |
| `Versions.PartsTransitiveIff` | src/server/services/source-service.ts:237-241 | over an order of strings the comparison is transitive on a set of parts if and only if no text among them lies the wrong way between two numerals |
| `Versions.VersionsTransitiveIff` | src/server/services/source-service.ts:226-245 | the same condition is exact for compareSemver on all versions made of these parts |
| `Versions.CharacterOrderIsSided` | src/server/services/source-service.ts:240 | the condition holds for any parts when strings are ordered by their characters, under which the string 10 comes before the string 9 |
| `Versions.SoftHyphenMakesACycle` | src/server/services/source-service.ts:226-245 | the condition can fail: with soft hyphens ignored, a part that parseInt does not read closes a cycle of three versions |
| `Versions.VersionsAreOrdered` | src/server/services/source-service.ts:226-245 | under that condition the comparison is a total preorder on the versions over these parts, whatever their lengths |
| `Versions.MergedIsBest` | src/server/services/source-service.ts:101-127 | one entry per bundle id: version-maximal over all enabled sources, the earliest among equals, whenever the parts that occur meet the condition |
| `Versions.MergedByCharacters` | src/server/services/source-service.ts:101-127 | so it is for any apps when strings are ordered by their characters |
| `Versions.Combined` | src/server/services/source-service.ts:101-127 | the nested loops build that list: every entry is an app of an enabled source, every bundle id of an enabled source has one, none has two, and an app without a version does not displace one with a version |

## Left out

- Signing of swapped (big-endian) slices, of slices without LC_CODE_SIGNATURE and of load commands too small for the
  fields: the signer does not maintain their offsets; `TsSigner.WellFormed` says what is demanded.
- Fat.FatIsAccepted: is about fat files whose slices keep their sizes; for a slice that changes its size
  `Fat.SlotAcceptedIffExact` shows that it is rejected where the table places it, because the table is never rewritten.
- SliceSigning.SignSlice: takes the parsed slice as given; that it is the parse of the file is a precondition, as at every
  call of the original.
- BundleSigning.AppTree.SignApp: the executable's name is a single path component; a CFBundleExecutable with a slash that
  points into a nested bundle would be written after that bundle is sealed. Symbolic links are not modelled.
- BundleSigning.AppTree.SealAndSign: stands for the same three steps written out in signIpa, signFramework and
  signAppExtension; the rewriting of bundle identifiers and display names before them is not modelled.
- BundleVerify.SignedBundleVerifies: is about files whose slices can be signed and, if fat, have exactly the room they
  need; for the other fat files see `Fat.SlotAcceptedIffExact`.
- Resources.SealLists: paths are taken with `/` between their components. On Windows path.relative gives `\`, so the
  prefix `_CodeSignature/` is not found there and the seal's own directory is not left out.
- Resources.BuildCodeResources: the fixed `rules` and `rules2` tables and the property-list text of a seal are not
  modelled, only which files are listed with which digests and the optional flag.
- DER entitlements, requirements other than the empty set, ad-hoc signatures and the DER encoding of the CMS: built by
  foreign code or not used by the signer.
- `Math.log2` of the page size is modelled as the integer logarithm; the only page size used is 16384.
- JobRows.RowsAreOk: a job's error text, current step and timestamps are not part of the row.
- JobRows.RowStaysIff: device work of a step function that outlived its timeout is not modelled; the lock does not
  exclude it.
- TwoFactor.SettledOnce: a job is taken to wait for one code at a time, as its step function awaits the waiter.
- AccountSession.OneSubmissionInFlight: is about submissions made through complete2FAForAccount; the sign-in form submits
  on its own.
- reauthenticate: appears as its effects on the session cache and as the in-flight pattern of `SingleFlight`.
- Certificates.CreatedIsTheOnlyUsable: the choice of portal certificates to revoke is a free input; only its effect on the
  rows is modelled. The account and team pair is the key, not the string joined from them.
- Certificates.NeverASecondUsable: the stored private key of a row is taken to stay readable or unreadable.
- TokenBucket.RateIsBounded: tokens are reals, so rounding of doubles is not modelled.
- Scheduler.SchedulerService.Tick: which apps are due and which devices are connected is an input; the refresh itself is a
  job of the pipeline.
- Quotas.LimitsHold: is about sequential calls; concurrent ensureAppId calls check before the other has inserted.
- Lockout.AtMostFiveFailures: is about sequential logins, for the same reason.
- Versions.VersionsAreOrdered: localeCompare is any total preorder of strings. Numbers are exact: above 2^53 the original
  rounds them, and a part of more than 308 digits is text. No conformity to Semantic Versioning 2.0.0 (item 11,
  precedence) is claimed.
- The desktop shell, the web client, routes, the Swift helper, the Python helper, SQL text and migrations: input and output
  around the modelled logic.
- src/server/signing/signer.ts: drives external programs.
