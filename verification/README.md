# Verification of kilix-content

A Dafny 4.11 model of the parts of kilix-content that other parts trust: the lock files and the
selection protocol of the installer, the exact resumable download, the Git object chain that pins a
vendored tree, the catalog model, the files a user supplies, line-end rendering, and the generator of
upstream records. `dafny verify dfyconfig.toml` checks all of it.

## What is modelled, and how

- **Locks** (`InstallLock`, `InstallLocker`, `AssetLock`). A kernel of three facts (the inode a path
  names, the holder of each inode's flock, the descriptor of each thread) moves by one system call of one
  thread at a time. Threads may be killed anywhere, unlinks may fail, and an inode is not reused while it
  is open. `InstallLocker` is the same protocol as a class with the loop of `_acquire_install_lock`, other
  threads moving before each call. The asset lock is modelled without an inode comparison, as it is written.
- **`ensure`** (`Ensure`, `EnsureLimits`, `EnsureAdoption`) runs over the install lock, with re-entrant calls
  from a report callback.
- **`_select_asset`** (`SelectAsset`, `SelectReceipts`, `SelectLimits`, `SelectSuccess`) runs over the asset
  lock, while receipts come and go, stages are altered and the destination changes between any two steps.
  `SelectLimits` is about who takes part and what may fail after a publication, `SelectSuccess` about runs in
  which nothing goes wrong.
- **Downloads** (`Fetch`, `FetchHonest`, `FetchRefusals`, `Downloader`, `Progress`). Files are byte strings;
  the server, the polls and the moment of a kill are an oracle. `Downloader` is the imperative form, every
  method of which is proved equal to the functions that the theorems are about.
- **Git objects** (`GitObjects`, `GitChain`, `GitCustody`, `GitWriter`, `LooseRecord`, `ReadableRecord`,
  `ExcludedIds`). Binary trees, framing, the verifying walk and the writing walk, functional and in place. The
  hash is a parameter; theorems assume only that its ids are hexadecimal and that the objects that were hashed
  do not collide. The walk's recursion limit is fuel: a cycle of trees exhausts it and refuses the record.
- **Catalog** (`RelativePath`, `Json`, `AssetSpec`, `AssetRoundTrip`, `RecordValidity`, `RecordReading`,
  `RecordMeaning`, `Digests`, `Catalog`, `CatalogReady`). JSON is a datatype; the URL rules are a parameter.
- **Supplied assets** (`AssetDirectory`, `SuppliedFile`, `SuppliedInstall`). A file system that may differ at
  every system call, a process with a descriptor table, and a private stage.
- **Rendering and generation** (`Utf8`, `Crlf`, `Generator`).

## Where the code and its documentation differ

The model follows the code. The lemmas named here show the difference and the exact condition.

- The asset lock never compares inodes, so two installers can hold it at once (`AssetLock.TwoHolders`). A set of
  installers is excluded by it exactly if there is one of them (`AssetLock.ExcludesExactlyAlone`), and a grant
  excludes the others exactly if the path names the inode that was locked
  (`AssetLock.GrantExcludesExactlyOnThePath`).
- So `_withdraw_selection` removes "nothing of another installer", and the tree at the destination is "nobody
  else's", exactly if there is one installer (`SelectLimits.WithdrawsOwnExactlyAlone`,
  `SelectLimits.VerifiedStaysExactlyAlone`). With two, one can remove the tree that the other has already
  reported as installed (`SelectLimits.AnotherInstallersTreeIsRemoved`). Where nothing goes wrong the lock is
  enough for any number of installers (`SelectSuccess.HonestAttemptsReturn`).
- "A refusal leaves nothing behind" fails after a publication in four ways: the final verification raises an
  `OSError`, which is not followed by a withdrawal; the withdrawal itself fails; the process is killed; or, with
  two installers, the superseded tree of an exchange cannot be removed. Without these it holds, even with any
  number of installers and no exclusion (`SelectLimits.LeavesNothingWrongExactly`).
- A report callback that calls `ensure` again makes the outer call replace the ready tree that the nested
  call returned; without nested calls there is one ready selection
  (`Ensure.OneSelectionExactlyWithoutNesting`).
- `already` is measured once. When a URL is repeated, an uninterrupted download from an honest upstream can
  end in `digest-mismatch`; this happens exactly for repeated URLs
  (`FetchHonest.CompletesExactlyWithoutRepetition`). What is installed is right in any case.
- `chain_blobs` does not look at the ids of excluded entries. A record spelled with an overlong id passes for
  the same pin without one of the vendored files (`LooseRecord.PinDoesNotDetermineLooseRecords`). The pin
  determines every byte of the records in which no name holds a NUL, no mode of an excluded entry a space, and
  the ids of excluded entries and of files denote 20 bytes (`ReadableRecord.PinDeterminesLegibleRecords`); a
  root that varies an honest one in its excluded ids gives the honest files exactly if each of them denotes 20
  bytes (`ExcludedIds.HonestFilesExactlyWithShortIds`).
- The comment after the copy of a supplied file, and the class docstring, say that the second look proves the
  copy. It does so exactly if nobody writes the file that is held, whatever happens to the path, the directories
  and other files (`SuppliedFile.CopiesAreListedExactlyUnwritten`): a file rewritten after the first look and
  restored before the second is copied as it was in between (`SuppliedFile.CopyCanDiffer`). The whole-tree
  verification refuses that copy, so what is selected is exact.
- `_verify_asset_directory` follows symbolic links for type and digest and not for size, so a link whose text is
  as long as its target passes (`AssetDirectory.LinkedLeafIsAccepted`), and its walk does not report a link to a
  directory (`AssetDirectory.LinkedDirectoryIsAccepted`). Where every directory can be listed and searched and
  every file read, the tree is exactly the manifest if and only if it is accepted, no listed path goes through a
  link, and no link of the tree leads to a directory (`AssetDirectory.AcceptedIsExactWithoutLinks`).
- The walk passes over a directory that it cannot list or enter, in silence, so a tree with unlisted files below one
  is accepted (`AssetDirectory.UnlistableDirectoryIsAccepted`, `AssetDirectory.UnsearchableDirectoryIsAccepted`). Over
  trees without links, acceptance means exactness if and only if there are no such directories
  (`AssetDirectory.AcceptanceIsExactExactlyWhereOpen`); `AssetDirectory.AcceptedExactly` gives the condition for every
  single tree. A stage of supplied files has none of either kind; a stage of an extracted archive, and a tree that was
  installed before, may have both.
- An error of the removal of the sidecar, after `os.replace`, raises with the new content in place
  (`Fetch.FetchIsExact` counts it as installed).
- Progress is "emitted at most 4 times per second" for the download phase only, and the throttle forgets a
  report made when the clock reads 0.0 (`Progress.RunIsSpacedExactly`).
- A manifest may list a file below another file; such a record is parsed but can never be staged
  (`SuppliedInstall.NoFileBelowAFile`).

## Model

| member | source | states |
|---|---|---|
| InstallLock.MutualExclusion | src/kilix_content/install.py:236-267 | in every interleaving, with failed and killed threads and orphaned inodes, at most one thread is between its inode comparison and its unlink |
| InstallLock.HolderOwnsThePath | src/kilix_content/install.py:907-919 | while a thread is in the held set, the path names its inode and the flock of that inode is its own |
| InstallLock.ReentryKeepsTheLock | src/kilix_content/install.py:890-906 | nested entries never release early: the depth is the balance of entries and exits until the outermost exit |
| InstallLock.NeverStuck | src/kilix_content/install.py:244-267 | no schedule deadlocks: a busy thread, or the thread whose flock it waits for, can take its next step |
| InstallLock.StepKeepsInvariant | src/kilix_content/install.py:236-267 | every system call keeps flock ownership, the guarded path and the held set in agreement |
| InstallLock.Reachable | src/kilix_content/install.py:890-919 | the invariant holds after every schedule from an idle start, with or without a leftover lock file |
| InstallLocker.Host.Acquire | src/kilix_content/install.py:236-267 | the retry loop does what its turns make of it: it returns exactly if it comes to hold the inode that the path names, whatever the others do between its calls, and otherwise leaves nothing open |
| InstallLocker.GivesUpExactlyOnFailure | src/kilix_content/install.py:244-267 | an acquisition gives up only where one of its own calls fails; an orphaned inode makes it start again |
| InstallLocker.SucceedsOnceQuiet | src/kilix_content/install.py:244-267 | whatever happened before: if no call fails and the others have stopped and hold nothing, five more calls are enough to get the lock |
| InstallLocker.Host.EnterLock | src/kilix_content/install.py:890-908 | after an entry, nested or not, no other thread guards the path; a nested entry only deepens, an outermost one gets in exactly if its acquisition succeeds |
| InstallLocker.Host.LeaveLock | src/kilix_content/install.py:909-919 | the outermost exit unlinks its file if it can, closes, discards the key, and ends with no flock of this thread |
| InstallLocker.Host.RemoveFile | src/kilix_content/install.py:911-918 | the unlink, if it works, removes this holder's own lock file |
| AssetLock.PerInodeExclusion | src/kilix_content/install.py:1524-1581 | what the asset lock does give: at most one thread inside per inode |
| AssetLock.TwoHolders | src/kilix_content/install.py:1524-1581 | what it does not give: for any two threads a run with both inside, each holding its own inode |
| AssetLock.GrantsOnThePathExclude | src/kilix_content/install.py:1529-1570 | runs whose flocks are all granted on the inode that the path names do exclude |
| AssetLock.OrphanHolderIsNotAlone | src/kilix_content/install.py:1529-1570 | beside any holder of an orphaned inode another thread can get inside, while the holder takes no step and flocks are granted on the path only |
| AssetLock.GrantExcludesExactlyOnThePath | src/kilix_content/install.py:1529-1570 | after a grant, preceded by grants on the path only, others can still get inside by the path alone, if and only if the path does not name the inode just locked |
| AssetLock.ExcludesExactlyAlone | src/kilix_content/install.py:1524-1581 | every schedule of a set of installers keeps at most one of them inside, if and only if the set has at most one member |
| Ensure.LockRefines | src/kilix_content/install.py:869-888 | every step of any number of `ensure` calls keeps the invariant of the install lock |
| Ensure.Reachable | src/kilix_content/install.py:869-888 | without nested calls the selection invariant holds in every run |
| Ensure.WaitersAdopt | src/kilix_content/install.py:1018-1126 | every successful caller returns the one ready tree at the destination, and every selection but the last was not ready |
| EnsureAdoption.EntrantAdopts | src/kilix_content/install.py:880-885 | a call that gets the lock while a ready tree is there ends by returning that tree, unless its thread is killed |
| EnsureAdoption.ReadyNeedsNoLock | src/kilix_content/install.py:869-873 | a call that starts while a ready tree is there never goes near the lock |
| EnsureAdoption.EveryCallAdoptsExactly | src/kilix_content/install.py:869-888 | without nested calls, in all runs in which only the given kinds of step may fail (locking, building, publishing), every call that ends has returned the one ready tree, if and only if what was there first is ready, or may be built over by trees that will be ready and the failures cannot do harm |
| EnsureAdoption.KilledAnywhere | src/kilix_content/install.py:244-296 | a thread may be killed anywhere in the lock: its calls end without a result, its flock goes, and the lock file, the destination and all other calls stay |
| EnsureAdoption.LateFailureRaises | src/kilix_content/install.py:969-981 | when the superseded tree cannot be removed the call raises although its own tree has been selected |
| EnsureAdoption.NobodyIsStuck | src/kilix_content/install.py:869-888 | a call that has not ended can go on, or waits for the flock of a thread that can |
| Ensure.ReadyTreeStays | src/kilix_content/install.py:869-888 | once a ready tree is at the destination it is never replaced and nothing more is selected |
| Ensure.NestedCallIsReplaced | src/kilix_content/install.py:893-906 | a run in which the tree a nested call returned is replaced by the outer call |
| Ensure.OneSelectionExactlyWithoutNesting | src/kilix_content/install.py:869-919 | one ready selection in every run, if and only if callbacks do not call `ensure` again |
| EnsureLimits.UnreadyIsBuiltAgain | src/kilix_content/install.py:1018-1126 | for every policy and tree that passes the stage checks, is not ready and may be replaced, a run that selects it twice |
| EnsureLimits.SelectsOnceExactly | src/kilix_content/install.py:1018-1126 | without nested calls every run selects at most one build, if and only if each tree that passes the stage checks is ready or is one that is not replaced |
| SelectAsset.PublishedAfterMatchAndReceipt | src/kilix_content/install.py:1617-1660 | without assuming exclusion: a published tree matched the manifest at an earlier step and a receipt check passed after that match |
| SelectAsset.WhatReplaces | src/kilix_content/install.py:956-981 | only a publication, a withdrawal or somebody else changes the destination: a rename replaces nothing but an empty directory |
| SelectAsset.NonDirectoryIsSpared | src/kilix_content/install.py:967-973 | over every run what is not a directory is replaced only if it took the place of one after the check for that |
| SelectAsset.ReplaceAfterReceipt | src/kilix_content/install.py:1648-1649 | a thread in `_replace_stage` passed the third receipt check and has stayed there since |
| SelectAsset.ThirdRequireAfterMatch | src/kilix_content/install.py:1646-1648 | a thread at the third receipt check has just matched its stage |
| SelectAsset.DestinationNeverVanishes | src/kilix_content/install.py:951-981 | no step of `_replace_stage`, nor of anything but a withdrawal, empties a present destination |
| SelectAsset.DestinationStaysPresent | src/kilix_content/install.py:951-981 | over any run without withdrawals and outside removals, a destination once present is never absent, however often it is replaced |
| SelectAsset.OutcomeMeans | src/kilix_content/install.py:1617-1691 | every end of an attempt was decided by one step: a return saw a verified tree, a final refusal emptied the destination or says that it could not, and a failure published nothing unless the superseded tree stayed or the final verification raised |
| SelectReceipts.CheckWasPassed | src/kilix_content/install.py:1617-1648 | an attempt that is past one of the three receipt checks passed it earlier, with the asset covered |
| SelectReceipts.ReturnIsCovered | src/kilix_content/install.py:1617-1652 | nobody is given a tree without a receipt: each check before the look that decided the return was passed, in order, in the same attempt, while a receipt covered the asset |
| SelectReceipts.CheckDecides | src/kilix_content/install.py:1623-1648 | each check decides by the receipt alone: without one the attempt ends as not covered |
| SelectReceipts.NotCoveredMeansNoReceipt | src/kilix_content/install.py:1623-1648 | an attempt that ends as not covered found no receipt at one of its checks, and did nothing after it |
| SelectReceipts.UnderLockHoldsLock | src/kilix_content/install.py:1631-1662 | in every run whoever is at a step under the asset lock holds its flock |
| SelectSuccess.HonestAttemptsReturn | src/kilix_content/install.py:1617-1663 | if nothing fails and sources give the manifest's tree, every attempt of any number of installers that ends has returned it, and it stays |
| SelectSuccess.NobodyIsStuck | src/kilix_content/install.py:1617-1663 | in such runs each installer can always take its next step, and needs no failure for it |
| SelectSuccess.StepsCount | src/kilix_content/install.py:1617-1663 | and each step brings its attempt nearer to the end, but for a poll of a lock that another installer holds |
| SelectSuccess.InstalledNeedsNoLock | src/kilix_content/install.py:1623-1625 | in such runs whoever starts once something is installed returns it without going near the lock |
| SelectSuccess.FailureEndsAttempt | src/kilix_content/install.py:1626-1663 | in every state each call of an attempt that can fail may fail: the attempt ends with a failure, giving up the lock first if it has it, and only a failing withdrawal changes the destination |
| SelectSuccess.KilledAnywhere | src/kilix_content/install.py:1626-1663 | a kill in the lock frees its flock and changes nothing else |
| SelectAsset.WithdrawsOnlyItsOwn | src/kilix_content/install.py:1665-1691 | where exclusion holds at every step, a withdrawal removes the installer's own tree, which did not match |
| SelectAsset.VerifiedTreeStays | src/kilix_content/install.py:1617-1663 | under exclusion a verified tree at the destination is never touched again |
| SelectLimits.Lift | src/kilix_content/install.py:1511-1581 | installers add no exclusion to their lock: every schedule of the asset lock is one of theirs |
| SelectLimits.WithdrawsAnothers | src/kilix_content/install.py:1648-1655 | for every manifest and any two installers, a run after which one of them is to withdraw the tree that the other has reported as installed |
| SelectLimits.AnotherInstallersTreeIsRemoved | src/kilix_content/install.py:1665-1691 | and then it does, with nobody but the installers writing the destination |
| SelectLimits.WithdrawsOwnExactlyAlone | src/kilix_content/install.py:1665-1681 | whatever is withdrawn was published by the withdrawing installer, in every run of a set of installers, if and only if the set has at most one member |
| SelectLimits.VerifiedStaysExactlyAlone | src/kilix_content/install.py:1650-1652 | a verified tree at the destination stays there, in every run, under the same condition and no other |
| SelectLimits.FineWithoutFaults | src/kilix_content/install.py:1613-1615 | without the four failures after a publication, and without exclusion, the destination is as it was, absent or verified whenever no attempt is under way |
| SelectLimits.LeavesNothingWrongExactly | src/kilix_content/install.py:1613-1691 | a refusal leaves nothing wrong behind, in every run of these installers with these possible failures, if and only if the verification does not raise, the withdrawal works, nobody is killed after a publication, and superseded trees can be removed or there is one installer |
| Fetch.PumpInStep | src/kilix_content/fetch.py:397-428 | file and digest are fed the same bytes, and the file never passes the expected length |
| Fetch.HashedIsFile | src/kilix_content/fetch.py:380-396 | when the length and the digest are right the digest was fed exactly the file, however stale the resume point |
| Fetch.FetchOneIsExact | src/kilix_content/fetch.py:269-489 | one attempt: success, or an error in removing the sidecar after it, puts the pinned content at the destination, anything else leaves it |
| Fetch.FetchIsExact | src/kilix_content/fetch.py:197-266 | for every server, leftover and candidate list: a return, or that one exception after the replacement, means the pinned content, any other end the old destination |
| Fetch.AttemptStaysWithin | src/kilix_content/fetch.py:378-447 | the target never exceeds the expected length at the end of, or a kill within, an attempt |
| Fetch.PreflightCoversGrowth | src/kilix_content/fetch.py:226-238 | the amount asked for covers every moment of the call and leaves the reserve, with partial files on the file system that was asked |
| Fetch.RefusesExactlyWithoutSpace | src/kilix_content/fetch.py:226-238 | a well-formed call ends as `no-space`, with no server asked, if and only if what is missing, the installation and the reserve do not fit |
| Fetch.FetchFitsTheSpace | src/kilix_content/fetch.py:197-266 | for every call and end: what it has added to the disk leaves room for the installation and the reserve |
| FetchHonest.AttemptKeepsPrefix | src/kilix_content/fetch.py:349-365 | against an honest server a partial file stays a prefix of the content |
| FetchHonest.FreshAttemptCompletes | src/kilix_content/fetch.py:349-354 | an uninterrupted attempt that starts at byte 0 succeeds |
| FetchHonest.ResumedAttemptCompletesExactly | src/kilix_content/fetch.py:378-396 | an uninterrupted resumed attempt succeeds if and only if the partial file is the content up to the measured offset |
| FetchHonest.PartialIsAlwaysAPrefix | src/kilix_content/fetch.py:228-258 | over any sequence of interrupted calls the partial file is absent or a prefix |
| FetchHonest.UninterruptedCallCompletes | src/kilix_content/fetch.py:285-314 | after any such sequence an uninterrupted call ends with the content, as a fresh download would |
| FetchHonest.FreshUrlCompletes | src/kilix_content/fetch.py:240-263 | an uninterrupted candidate whose URL was not tried before succeeds after any failed candidates |
| FetchHonest.RepeatedUrlRefuses | src/kilix_content/fetch.py:226-258 | for every list with the URL repeated, honest servers and a leftover that make the download fail |
| FetchHonest.CompletesExactlyWithoutRepetition | src/kilix_content/fetch.py:226-258 | an uninterrupted last candidate always completes, if and only if its URL is not among the earlier ones |
| FetchRefusals.HeadersDecide | src/kilix_content/fetch.py:349-377 | a body is read from an offset if and only if status, range and length announce the rest of the expected content from there; else the kind of error says which |
| FetchRefusals.MisannouncedIsRefused | src/kilix_content/fetch.py:349-377 | a response that announces other content fails before any byte is read or written |
| FetchRefusals.TransmittedPump | src/kilix_content/fetch.py:401-442 | how the read loop ends, for any body of any length cut into any reads |
| FetchRefusals.BodyDecides | src/kilix_content/fetch.py:378-474 | an uninterrupted attempt ends in `size-mismatch` if and only if the file would have another length, in `digest-mismatch` if and only if it has that length and another digest, and else installs it |
| FetchRefusals.StatusRefusedExactly | src/kilix_content/fetch.py:349-366 | it ends in `http-status` if and only if the status is neither 200 nor a 206 that was asked for |
| FetchRefusals.TriedInTurn | src/kilix_content/fetch.py:240-266 | candidates are tried in turn while they fail in a way that another server may not |
| FetchRefusals.FirstOtherDecides | src/kilix_content/fetch.py:240-266 | the first that ends otherwise (a success, a cancellation, a deadline, an escape, a kill) ends the call, whatever servers are left; with none left the last failure does |
| FetchRefusals.SplitAtTheFirst | src/kilix_content/fetch.py:240-266 | every list of candidates is split so |
| Downloader.Files.HashExisting | src/kilix_content/fetch.py:383-390 | the block loop feeds the whole existing file |
| Downloader.Files.ReadLoop | src/kilix_content/fetch.py:397-439 | the read loop keeps file, count and digest as the specification has them at every round, and reports the specified counts |
| Downloader.Files.FetchOne | src/kilix_content/fetch.py:269-489 | the attempt, written in place, does what its specification says |
| Downloader.Files.FetchExact | src/kilix_content/fetch.py:197-266 | the loop over candidates, written in place, does what its specification says |
| Progress.EmitAll | src/kilix_content/fetch.py:145-157 | over a run of all phases the list with the last time filters the reports as specified |
| Progress.PhasesAreIndependent | src/kilix_content/fetch.py:145-157 | reports of other phases are never held back, and neither delay nor hasten a download report |
| Progress.SpacedExactly | src/kilix_content/fetch.py:153-156 | reports that pass are a period apart, if and only if the clock does not read 0.0 at a first report that a second one follows sooner |
| Progress.RunIsSpacedExactly | src/kilix_content/fetch.py:145-157 | so the download reports that a run of all phases sends are a period apart, under that condition and no other |
| Progress.CountsRise | src/kilix_content/fetch.py:397-439 | within an attempt the reported counts rise, stay within the total, and end at the file's length |
| Progress.ReadLoopEnds | src/kilix_content/fetch.py:397-421 | with a deadline the read loop ends whatever the server does, by bytes left and then time left |
| GitObjects.PrintParse | tools/vendored_kilix_license.py:65-86 | printing what was parsed gives the same bytes, for every raw tree the parser accepts |
| GitObjects.ParsePrintCanonical | tools/vendored_kilix_license.py:65-86 | parsing what was printed gives the same entries, for well-formed entries |
| GitObjects.ParsePrintExactlyCanonical | tools/vendored_kilix_license.py:65-86 | it does so if and only if the entries are well-formed |
| GitObjects.ParseTreeLoop | tools/vendored_kilix_license.py:72-86 | the index loop parses as the recursive specification does |
| GitObjects.FrameIsInjective | tools/vendored_kilix_license.py:60-62 | kind, space, length, NUL and body can be told apart: kinds are never confused |
| GitObjects.FromHexReadsSpelled | tools/vendored_kilix_license.py:65-69 | an id is read as some bytes if and only if it spells them, in either case and with blanks anywhere but inside a pair |
| GitObjects.DecimalReadsBack | tools/vendored_kilix_license.py:60-62 | the length is written in base ten, most significant digit first, with no leading zero |
| GitObjects.OneDecimal | tools/vendored_kilix_license.py:60-62 | and in no other way |
| GitObjects.FrameReadsBack | tools/vendored_kilix_license.py:60-62 | every object is read back from its frame, with the length of its body |
| GitObjects.ReadFrameIsFrame | tools/vendored_kilix_license.py:60-62 | and whatever is read is the frame of what was read |
| GitChain.ChainWalker.WalkTree | tools/vendored_kilix_license.py:109-132 | the recursive walk that fills two collections in place is the specified walk |
| GitChain.WalksAgree | tools/vendored_kilix_license.py:112-127 | two accepted walks from one tree id collect the same |
| GitChain.PinDeterminesEveryByte | tools/vendored_kilix_license.py:93-159 | two records and vendored trees that pass for one pin are the same vendored tree |
| GitCustody.AcceptedExactly | tools/vendored_kilix_license.py:93-132 | a record's blobs are accepted if and only if it has the schema, the pin and the exclusions, its commit hashes to the pin and names a tree of recorded trees and regular files, and each excluded name is at the top once |
| GitCustody.EveryByteIsOnTheChain | tools/vendored_kilix_license.py:93-159 | the vendored files of an accepted record are exactly the paths on a chain of hashes from the pin, and the bytes of each hash to the id at the end of one |
| GitCustody.VouchedFilesAreAccepted | tools/vendored_kilix_license.py:93-159 | where no path is on two chains, all files of which this is true are accepted |
| GitCustody.RootExactly | tools/vendored_kilix_license.py:103-106 | a commit names a tree if and only if its first line says so in ASCII |
| GitCustody.WalkCollects | tools/vendored_kilix_license.py:112-127 | a walk adds exactly the paths that hang on its tree |
| GitCustody.WalkSucceeds | tools/vendored_kilix_license.py:112-127 | a walk succeeds if and only if its tree is sound to the depth of the recursion limit |
| LooseRecord.SameBytes | tools/vendored_kilix_license.py:65-69 | an overlong id spells out the entry that follows: the tree bytes are the same |
| LooseRecord.PinDoesNotDetermineLooseRecords | tools/vendored_kilix_license.py:116-121 | for every hash and file, two records for one pin pass, one of them without the file |
| ReadableRecord.ReadableExactly | tools/vendored_kilix_license.py:65-86 | parsing what was printed gives the same entries up to the spelling of their ids, if and only if modes hold no space, names no NUL and ids denote 20 bytes, the last perhaps fewer |
| ReadableRecord.AcceptedIsReadable | tools/vendored_kilix_license.py:109-127 | in an accepted tree the walk has checked all of that but the names and the ids and modes that it passes over |
| ReadableRecord.WalksAreSimilar | tools/vendored_kilix_license.py:109-127 | two accepted walks of such trees from one id collect the same paths and names, and ids that denote the same bytes |
| ReadableRecord.PinDeterminesLegibleRecords | tools/vendored_kilix_license.py:93-159 | two records and vendored trees that pass for one pin are the same vendored tree, if what the walk passes over is legible |
| ReadableRecord.CanonicalTreesAreLegible | tools/vendored_kilix_license.py:72-86 | records as `parse_tree` writes them are among these |
| ExcludedIds.NamesRemain | tools/vendored_kilix_license.py:109-132 | an accepted variant with the honest files and excluded names has every entry of the honest root |
| ExcludedIds.HonestFilesExactlyWithShortIds | tools/vendored_kilix_license.py:93-132 | a root that prints as an honest one and varies it in excluded ids gives the honest files, if and only if each excluded id denotes 20 bytes |
| ExcludedIds.LooseRootIsAVariant | tools/vendored_kilix_license.py:116-118 | the root that hides a file is such a variant, with a longer id |
| GitWriter.RecordWriter.Write | tools/vendored_kilix_license.py:174-185 | the recursive walk that fills the trees in place is the specified walk |
| GitWriter.WritesTree | tools/vendored_kilix_license.py:176-185 | the writer records every tree that is not excluded, as the repository has it |
| GitWriter.WalksRecordedTree | tools/vendored_kilix_license.py:112-127 | the verifier's walk of such a record collects exactly the files and the excluded names |
| GitWriter.WriterAgreesWithVerifier | tools/vendored_kilix_license.py:170-192 | for every regular tree with all excluded names, the written record is accepted with exactly its vendored files |
| RelativePath.AcceptedExactly | src/kilix_content/model.py:236-242 | which paths are accepted, by their normalised components, and what is returned |
| RelativePath.AcceptedIsPlain | src/kilix_content/model.py:236-242 | what is returned has no empty, dot or dot-dot component and no NUL |
| RelativePath.PlainIsFixed | src/kilix_content/model.py:236-242 | the plain paths are exactly the fixed points |
| RelativePath.PlainOpensBeneath | src/kilix_content/install.py:138-143 | every such path passes the component test of `open_beneath` |
| RelativePath.ParsedBinaryIsInside | src/kilix_content/install.py:756-767 | a parsed binary path always passes the containment test, at its own place below the directory |
| RelativePath.ValidIdIsAChild | src/kilix_content/install.py:744-754 | a parsed id is always a safe child of the content root |
| AssetSpec.ReadFetches | src/kilix_content/model.py:1114-1132 | the append loop over `fetch` or `blobs` reads what the specification reads |
| AssetSpec.ReadInputs | src/kilix_content/model.py:1175-1207 | the append loop over `inputs` reads what the specification reads |
| AssetRoundTrip.FilesRoundTrip | src/kilix_content/model.py:621-636 | file lists survive writing and reading |
| AssetRoundTrip.LicensesRoundTrip | src/kilix_content/model.py:650-693 | licence lists survive writing and reading |
| AssetRoundTrip.FilesSourceRoundTrip | src/kilix_content/model.py:1106-1136 | an upstream-files source survives writing and reading |
| AssetRoundTrip.InputsRoundTrip | src/kilix_content/model.py:1169-1208 | converter inputs, with or without their own provenance, survive writing and reading |
| AssetRoundTrip.ConvertRoundTrip | src/kilix_content/model.py:1137-1282 | an upstream-convert source survives writing and reading, with every optional part |
| AssetRoundTrip.RegistryRoundTrip | src/kilix_content/model.py:1283-1324 | a registry-manifest source survives writing and reading |
| AssetRoundTrip.SourceRoundTrip | src/kilix_content/model.py:991-1324 | a source of any mode survives writing and reading |
| AssetRoundTrip.SpecRoundTrip | src/kilix_content/model.py:775-846 | parsing what `to_mapping` writes gives the specification back, for every one that `from_mapping` returns |
| AssetRoundTrip.PrintIsInjective | src/kilix_content/model.py:775-846 | parsed specifications with one mapping are equal |
| AssetRoundTrip.EqualDigestsMeanEqualSpecs | src/kilix_content/model.py:848-850 | record digests are equal if and only if the specifications are, unless the encoding or the hash collides on the two |
| RecordValidity.RecordParses | src/kilix_content/model.py:874-989 | a written record is read back if and only if its fields are valid one by one and it meets the cross-field checks |
| RecordReading.ReadsExactly | src/kilix_content/model.py:874-989 | any JSON value is read as a specification if and only if the specification is valid and the value is its written form, up to paths not in normal form and null for an absent optional field |
| Digests.Sha256Exactly | src/kilix_content/fetch.py:212-219 | downloads and records accept the same digests as text, and exactly the spellings of 32 bytes |
| Digests.HexTextExactly | src/kilix_content/model.py:115-120 | a text of 2n digits is accepted if and only if it is the `hex` of n bytes |
| RecordMeaning.ParsedOriginsFit | src/kilix_content/model.py:1134-1330 | in a parsed record every content file that is downloaded has an origin, nothing else is fetched, an installed primary input is listed as it is downloaded and not fetched again, and what a converter is given in a directory is not installed |
| RecordMeaning.InputNameExactly | src/kilix_content/model.py:216-226 | the names accepted for a converter's inputs are exactly the visible single path components without a backslash, of at most 255 characters |
| RecordMeaning.InputIsAChild | src/kilix_content/model.py:216-226 | so an input is put directly into the converter's directory |
| RecordMeaning.StreamExactly | src/kilix_content/model.py:923-924 | the streams are F000 to F999 |
| RecordMeaning.BinaryIsNeededExactly | src/kilix_content/model.py:550-563 | entries without a binary can be read if and only if nothing is installed from Git or an archive |
| RecordMeaning.OlderCatalogsExactly | src/kilix_content/model.py:1447-1455 | before schema 3 an entry fits if and only if it also fits later and has no application metadata |
| Catalog.IndexPackages | src/kilix_content/model.py:1421-1426 | the index holds each package under its id, or an id is repeated |
| Catalog.IndexAssets | src/kilix_content/model.py:1429-1437 | the index holds each asset under its id, or an id is repeated or the limit passed |
| Catalog.CheckEntry | src/kilix_content/model.py:1444-1483 | an entry is let in exactly if it fits the schema, the assets and the packages and its id is new |
| Catalog.GroupEntries | src/kilix_content/model.py:1441-1486 | the loop fills the id index, the groups and the used packages, or some entry does not fit |
| Catalog.Build | src/kilix_content/model.py:1407-1501 | the valid catalog of the given parts, or a refusal exactly where no catalog of those parts is valid |
| Catalog.ValidIsUnique | src/kilix_content/model.py:1492-1501 | the parts determine the catalog |
| CatalogReady.GroupsPartition | src/kilix_content/model.py:1535-1537 | `provided_by` is the in-order filter of the entries, and every entry is in the group of its installation only |
| CatalogReady.GroupsAreOneInstallation | src/kilix_content/install.py:793-825 | every group shares one identity with distinct ids, so the readiness check never refuses a catalog's group |
| CatalogReady.CheckProvided | src/kilix_content/install.py:797-825 | the loop accepts exactly the lists of one installation with distinct ids, and names the offence otherwise |
| CatalogReady.FindCandidates | src/kilix_content/install.py:830-848 | every entry's executable is looked for on its own |
| CatalogReady.ReadyProvided | src/kilix_content/install.py:781-867 | with one shared verification every entry gets the answer that it would get alone |
| CatalogReady.ReadyExactly | src/kilix_content/install.py:757-867 | an entry of a parsed catalog is answered with the path of its binary if and only if that is a runnable regular file that is really below a selected directory that is no link, and a managed Git source is the pinned checkout |
| CatalogReady.StaysWithinExactly | src/kilix_content/install.py:769-776 | links followed, the executable is below the directory |
| CatalogReady.EntryReadsExactly | src/kilix_content/model.py:476-575 | an entry is read as some content if and only if the content is valid and the entry is its written form: a package's metadata is the package's, an own source the entry's own |
| CatalogReady.EntriesReadExactly | src/kilix_content/model.py:1407-1501 | a list of entries is refused if and only if one of them is |
| CatalogReady.ParsedEntriesAreSupplied | src/kilix_content/model.py:419-430 | parsed entries never trip the flattened-metadata or unknown-package check |
| CatalogReady.ParsedEntryHasAPlace | src/kilix_content/install.py:744-767 | every parsed entry has a destination below the root and an executable inside it |
| AssetDirectory.VerifyDirectory | src/kilix_content/install.py:1192-1213 | the two loops accept exactly the specified trees, whatever may not be listed, searched or read |
| AssetDirectory.WalkIsSeen | src/kilix_content/install.py:1208-1212 | the walk accepts exactly if every name it reports was verified; below a directory that it cannot list or enter it reports none |
| AssetDirectory.SeenMeansListed | src/kilix_content/install.py:1208-1212 | for plain manifest paths the comparison of relative paths is the comparison of components |
| AssetDirectory.AcceptedIsExactWithoutLinks | src/kilix_content/install.py:1192-1213 | where everything may be listed, searched and read, the tree is the manifest and nothing else if and only if it is accepted, no listed path goes through a link, and no link of it leads to a directory |
| AssetDirectory.WalkedExactly | src/kilix_content/install.py:1208-1212 | the walk reports whatever the tree holds in the directories that it gets to list, except directories and links that it can follow to one |
| AssetDirectory.AcceptedExactly | src/kilix_content/install.py:1192-1213 | for every tree: it is the manifest and nothing else, and readable, if and only if it is accepted, no listed path goes through a link, no link of it leads to a directory, and what the walk cannot get at is listed |
| AssetDirectory.LinkFreeAcceptedIsExact | src/kilix_content/install.py:1192-1213 | on a tree without links where everything may be listed, searched and read, acceptance is exactness |
| AssetDirectory.ExactTreesAgree | src/kilix_content/install.py:1192-1213 | two exact trees of one manifest hold the same bytes everywhere |
| AssetDirectory.LinkedLeafIsAccepted | src/kilix_content/install.py:1199-1206 | a tree that holds none of the listed files and is accepted, for every file and hash |
| AssetDirectory.LinkedDirectoryIsAccepted | src/kilix_content/install.py:1208-1212 | a tree that holds the one listed file and beside it a link to any directory is accepted, and is not exact |
| AssetDirectory.UnlistableDirectoryIsAccepted | src/kilix_content/install.py:1208-1212 | a tree that holds the one listed file and beside it a directory that may not be listed is accepted, whatever that directory holds |
| AssetDirectory.UnsearchableDirectoryIsAccepted | src/kilix_content/install.py:1208-1212 | so is one with a directory that may be listed and not entered, whatever the directories in it hold |
| AssetDirectory.AcceptanceIsExactExactlyWhereOpen | src/kilix_content/install.py:1192-1213 | over all trees without links, with directories that may not be listed or not be entered allowed or not, acceptance means exactness if and only if neither is allowed |
| SuppliedFile.WalkIsReal | src/kilix_content/install.py:144-156 | in a directory graph that changes at every call, the file reached lies at the end of a walk by real directory entries |
| SuppliedFile.WalkIsFound | src/kilix_content/install.py:144-156 | and it finds the file at the end of every such walk |
| SuppliedFile.Process.OpenParts | src/kilix_content/install.py:144-158 | on every outcome the descriptors of the walk are closed and at most the leaf's stays open |
| SuppliedFile.Process.ReadAll | src/kilix_content/install.py:172-184 | the read loop gives the bytes that the changing file gave, block by block, or nothing if a read fails |
| SuppliedFile.SuppliedFile.OpenBeneath | src/kilix_content/install.py:116-169 | what is held is the file at the end of the walk, with the size and digest of that moment; a refusal, be it for a failing open, fstat or read, leaves nothing open |
| SuppliedFile.SuppliedFile.Revalidate | src/kilix_content/install.py:186-198 | it passes exactly if nothing fails and the held file is regular with the size and the digest of before |
| SuppliedFile.Supply | src/kilix_content/install.py:1496-1507 | one file is opened, compared, copied, compared again and closed, on every outcome, failing reads and writes included |
| SuppliedFile.QuietTake | src/kilix_content/install.py:1496-1507 | where nothing changes, a file is taken if and only if it is the listed one, and then as it is |
| SuppliedFile.CopyCanDiffer | src/kilix_content/install.py:1504-1507 | for every file and other bytes of its length, a history in which both looks pass and the other bytes are copied |
| SuppliedFile.UnwrittenCopyIsListed | src/kilix_content/install.py:70-77 | whatever happens to the path, the directories and other files, a copy is the listed file if nobody writes the one that is held |
| SuppliedFile.CopiesAreListedExactlyUnwritten | src/kilix_content/install.py:1496-1507 | over all worlds, every copy taken is the listed file, if and only if held files are not written |
| SuppliedInstall.PutAt | src/kilix_content/install.py:1502-1504 | writing one file changes that path, makes its parents directories, and changes nothing else |
| SuppliedInstall.PutSucceeds | src/kilix_content/install.py:1502-1504 | writing succeeds if and only if nothing is there yet, below nothing but directories |
| SuppliedInstall.StageSupplied | src/kilix_content/install.py:1496-1508 | the loop stages exactly the wanted paths; with everything in place it succeeds with the right bytes |
| SuppliedInstall.WriteNotices | src/kilix_content/install.py:1224-1249 | notices are added and never overwritten, and only a notice makes it fail; with everything in place all of them end up right |
| SuppliedInstall.Populate | src/kilix_content/install.py:1456-1509 | a stage holds exactly the manifest's paths, and no descriptor is left open on any outcome |
| SuppliedInstall.Install | src/kilix_content/install.py:1645-1647 | whatever changes meanwhile, what goes on to selection is exactly the manifest's files and bytes; where nothing changes, a right directory is accepted if and only if no listed file is below another and something besides notices is listed |
| SuppliedInstall.StagedIsExactWhenPinned | src/kilix_content/install.py:1192-1213 | a stage is accepted exactly when each of its files is the listed one |
| SuppliedInstall.NoFileBelowAFile | src/kilix_content/install.py:1502-1504 | no stage holds a file below a file |
| SuppliedInstall.ParsedManifest | src/kilix_content/model.py:926-942 | every parsed record has plain and distinct paths, as the verification needs |
| Utf8.DecodeEncode | src/kilix_content/first_use.py:66-94 | every text is decoded back from its UTF-8 bytes (section 3 of RFC 3629) |
| Utf8.EncodeDecode | tools/vendored_kilix_license.py:80-82 | strict decoding accepts only the bytes that encoding gives |
| Crlf.BytesAgreeWithText | src/kilix_content/first_use.py:66-94 | working on the bytes is the substitution on the text, for every text |
| Crlf.LengthLosesPairs | src/kilix_content/first_use.py:66-94 | one byte is lost for each pair |
| Crlf.CrSurvivesExactlyWhenBare | src/kilix_content/first_use.py:66-94 | the output has a CR if and only if the input has one that no LF follows |
| Crlf.OnlyCrsGo | src/kilix_content/first_use.py:66-94 | nothing but CRs is lost, and the order stays |
| Generator.SortKeeps | tools/generate_upstream_records.py:264 | sorting by path loses and adds nothing |
| Generator.SortIsSorted | tools/generate_upstream_records.py:264 | the result is in path order |
| Generator.AtMostIsLexical | tools/generate_upstream_records.py:264 | path order is that of a prefix, or of the first character that differs |
| Generator.SortIsStable | tools/generate_upstream_records.py:264 | items with equal paths stay in their order |
| Generator.ListFiles | tools/generate_upstream_records.py:251-264 | appending, extending and sorting in place gives the record's files |
| Generator.RecordListsFiles | tools/generate_upstream_records.py:251-264 | a record lists each member or output and each notice, with size and digest, and nothing else |
| Generator.RecordFetchesMembers | tools/generate_upstream_records.py:290-475 | it fetches each member, but a convert pin's primary input, from the member's own URL, and nothing else |
| Generator.BuildsExactly | tools/generate_upstream_records.py:251-475 | a record is built if and only if its pin names its input and asks for no less room than is needed, with the sizes stated |
| Generator.ParsedMeetsChecks | src/kilix_content/model.py:935-957 | every parsed record meets the cross-field checks as they are stated here |
| Generator.BuiltMeetsChecks | tools/generate_upstream_records.py:260-331 | an archive, files or registry pin gives a record that meets the checks, if and only if its paths differ and its members lie apart from its notices |
| Generator.BuiltConvertMeetsChecks | tools/generate_upstream_records.py:334-434 | a convert pin's record, in either layout, meets the checks if and only if its input fits the listed files as stated |
| RecordValidity.BuiltRecordParses | tools/generate_upstream_records.py:260-434 | a built record is read back by the parser if and only if its fields are valid and its pin fits its notices |

## Left out

- Sockets, TLS, proxies, redirects and openers of `fetch.py`: a server is an oracle of status, headers and reads.
- Running Git, builds and converters, and parsing Git's status output: a build is any tree, readiness a predicate on trees, `verify_git_checkout` an oracle.
- tar and zip extraction, `realpath` and `renameat2`: library and kernel behaviour.
- Receipts, coverage, the licence screen and the text store: "a receipt covers the asset", and a map from digests to texts.
- JSON text, SHA-256, SHA-1 and regular expressions: a JSON datatype, hash parameters, and the character rules of ids.
- The URL rules and the tables of owned releases, licensors and pins: a predicate and a function that `AssetSpec` takes as parameters.
- `install_with_agreement` and `supplied_path_for_screen`: straight-line code with no state of its own.
- The wait messages of `_asset_lock`; its polls for cancellation and deadline are the failing open. Writing the owner file may fail, but not for a reason that lasts: a temporary owner file left by a kill, which would make every later install fail, is not kept in the state.
- SelectAsset.WithdrawsOnlyItsOwn: a withdrawal is one step, so the trees that others can see while `shutil.rmtree` runs are not shown; a removal that stops half-way is the failing withdrawal, with any tree left.
- Fetch.PreflightCoversGrowth: partial files are taken to lie on the file system of the destination's parent, which is the one asked for its free space; a caller may place them elsewhere.
- Generator.BuiltConvertMeetsChecks: a convert pin whose input has an explicitly empty path is taken for one without a path; the tool would write that path, and the parser refuse it.
- AssetDirectory.VerifyDirectory: a listed file that cannot be read raises an error, which is shown as no acceptance; a file system whose listings do not tell directories from files is not part of this model.
- `ensure_upstream_asset` down to its population of a stage: a stage's tree is any tree. The supplied population is modelled in full.
- `Catalog.from_mapping` beyond the flattening of packages: field types and size limits of catalogs and entries.
- Faults of the local file system between a successful write of a download and the rename (lost buffers, short writes), and a stale temporary file of the sidecar.
- Surrogate code points: Dafny's `char` is a Unicode scalar value, so a text that cannot be encoded does not exist here.
- Floating-point rounding of the monotonic clock: times are reals.
- The polling of a device or FIFO opened by `SuppliedFile`: whatever is not a regular file is refused after the open.
- Which CatalogError is raised: parsers answer None for every refusal.
- Downloader.Files.ReadLoop: block sizes are the server's, so the cap that `want` puts on one read is not stated.
- AssetRoundTrip.SpecRoundTrip: for one setting of `allow_file_urls`, the same for both parses.
- SuppliedFile.Process.ReadAll: reads that are interrupted by a signal are not shown, since they return nothing and are repeated.
- CatalogReady.ReadyProvided: a directory that the caller names is taken as an absolute, normalised path.
- The generator's licence rows and notice texts: notices are given as file entries; the other fields of a record are copied from the pin.
- Catalog.IndexAssets: the limit is compared with the number of assets so far, which is the size of the map.
