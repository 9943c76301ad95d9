# xr-proxy: a verified model of the stateful core

This project models the parts of xr-proxy that keep state, and proves what every
step and every run of them keeps. Each component is a module:

| file | component |
|---|---|
| `Selection.dfy` | which paths a selection covers, and removing a file or folder by splitting the folders above it |
| `SyncBase.dfy` | string order and sorting, safe destination paths, digests |
| `SyncPlan.dfy` | the manifest/local/selection diff, its application, and diffing again |
| `HashIndex.dfy` | the persistent (size, time) hash index and the scan that uses it |
| `Migration.dfy` | moving a share's directory, with every way it can fail or be cancelled |
| `Download.dfy` | resumable downloads through a partial file |
| `Transfer.dfy` | the numbered single transfer and its addressed cancel, over all interleavings |
| `FakeDns.dfy`, `DnsWire.dfy` | the fake resolver's tables, and the DNS messages on both sides |
| `Checksum.dfy`, `PacketRewrite.dfy`, `AddressTranslation.dfy`, `Drain.dfy` | Internet checksums, the userspace NAT's packets and tables, and the download drain |
| `Calendar.dfy`, `JournalText.dfy`, `Journal.dfy` | timestamps, folding of repeated lines, and the rotated journal files |
| `UdpFlows.dfy` | the UDP relay's port mapping |
| `Health.dfy` | the sliding health window |
| `Prelude.dfy`, `Bits.dfy` | shared helpers: splitting and joining, bitwise operators on numbers |

Code that updates fields, buffers or files step by step is a class or a method with
loops, proved against a specification; what the system promises is then proved of
that specification, over whole runs where it speaks of runs. Protocols and fallible
calls are modelled with every outcome left open: a schedule of atomic steps, the
answers of the filesystem, the replies of an agent, a socket that takes any prefix.

Properties that do not hold of the code are kept as such. One lemma gives a concrete case,
another says exactly when the property holds:

| property | fails in | holds exactly |
|---|---|---|
| deselecting removes the target's subtree and nothing else | `Selection.StrandedExample` | `Selection.DeselectExact` |
| a write that alters size or time keeps the hash index true | `HashIndex.TwoWritesAlias` | `HashIndex.WriteKeepsExactly` |
| folding in an apply report keeps it true | `HashIndex.UnhashedFetchAliases` | `HashIndex.ReportKeepsExactly` |
| a silent migration has moved everything | `Migration.WalkCutShort` | `Migration.SilentMigrationExactly` |
| an interrupted migration can be resumed | `Migration.TornCopyBlocks` | `Migration.MigrationResumes` |
| what is published was served | `Download.SplicePublished` | `Download.PublishedIsServed` |
| a sync that fully succeeds leaves nothing to do | `SyncPlan.SpellingNeverSettles` | `SyncPlan.WholeApplyConverges` |
| an interrupted download resumes where it stopped | `Download.FullPartialDiscarded` | `Download.ResumesExactly` |
| a cancel that answered true is seen by its transfer | `Transfer.LostCancel` | `Transfer.SeenExactly`, `Transfer.AnswerHolds` |
| live sessions have distinct ports | `AddressTranslation.PortClash` | `AddressTranslation.RunInverseExactly` |
| every packet is handled | `AddressTranslation.ShortSynCrashes` | `AddressTranslation.EventLoop.Inbound`, `AddressTranslation.EventLoop.Outbound` |
| every redirected packet arrives | `PacketRewrite.ShortHeaderMisses` | `PacketRewrite.RedirectDelivers`, `PacketRewrite.RestoreReturns` |
| a queried name comes back unchanged | `DnsWire.EmptyNameRefused` | `DnsWire.QueryRecovers` |
| the client finds its way through an answer | `DnsWire.LongLabelUnread` | `DnsWire.SkipExactly` |
| every append counts once | `Journal.ClaimedCount`, `Journal.TwoAppendsOverflow` | `Journal.AppendCountsExactly` |
| Healthy means no error in the window | `Health.ErrorGoesUnseen` | `Health.ReportedHealthyExactly` |

Where the code and its documentation differ, the model follows the code:

- `HashIndex` documents one miss, a file swapped for another of the same size and time. The
  comparison is with what is *stored*, so two changes that each alter the size can miss as well.
- `migrate_dir` documents that a destination file which differs is the user's; it may also
  be the remains of a cut copy of the same file, which no later run mends.
- `migrate_dir` documents that an unreadable source returns an error; an error on the walk is
  dropped, and the files found before it are taken for the whole directory.
- `download_entry` documents that a corrupt transfer never appears as a real file; that holds for
  entries with a hash, while without one a resumed file can be spliced from two contents.
- `HealthLevel` documents Healthy as no error and no warning in the last 30 seconds; one or two
  errors without a warning are Healthy as well.
- The event loop tests for 14 bytes of TCP before it rewrites a packet; the rewrite needs 18.
- `ipv4_checksum` leaves out the word at offset 10 whether or not it was zeroed before.

`dafny verify dfyconfig.toml` checks the whole project.

## Model

| member | source | states |
|---|---|---|
| `Selection.NearestAncestor` | xr-core/src/sync.rs:341-351 | finds the deepest selected folder above the target, and none only when no selected entry is above it |
| `Selection.AddBranches` | xr-core/src/sync.rs:355-371 | re-selects exactly the sibling branches at every level from the ancestor down to the target |
| `Selection.ExpandDeselect` | xr-core/src/sync.rs:331-374 | the split loop terminates and its result is exactly the closed form: off-path entries kept, one entry per sibling branch below the topmost selected ancestor |
| `Selection.DeselectSound` | xr-core/src/sync.rs:257-374 | whatever the result covers was covered before and is neither the target nor under it |
| `Selection.DeselectComplete` | xr-core/src/sync.rs:257-374 | a manifest path that was covered, is off the target's subtree and is not stranded stays covered |
| `Selection.DeselectExact` | xr-core/src/sync.rs:257-374 | for every manifest path, covered afterwards if and only if covered before, not at or under the target, and not stranded (a file that is a folder above the target, or a path leaving it through an empty component) |
| `Selection.DeselectNormalized` | xr-core/src/sync.rs:322-374 | on normalized manifests in which no file is a folder above the target, exactly the target's subtree leaves the coverage |
| `Selection.BranchesStayWhole` | xr-core/src/sync.rs:355-371 | a branch beside the target stays selected as a whole: whatever lies under it is covered, listed in the manifest or not |
| `Selection.StrandedExample` | xr-core/src/sync.rs:331-374 | a concrete manifest on which the unconditional law fails |
| `SyncPaths.SafeDestination` | xr-core/src/sync.rs:379-405 | the component loop returns the kept components, or a refusal |
| `SyncPaths.SafeDestStaysInside` | xr-core/src/sync.rs:376-405 | an accepted path leads through proper names only, so it stays strictly below the root |
| `SyncPaths.SafeDestRefuses` | xr-core/src/sync.rs:379-405 | exactly the absolute, climbing, empty and ill-lettered paths are refused |
| `SyncPaths.DestinationIsCanonical` | xr-core/src/sync.rs:379-405 | resolving a destination again changes nothing |
| `SyncPaths.KeptInOrder` | xr-core/src/sync.rs:387-400 | the components kept are all but the empty ones and the dots, in their order |
| `SyncPaths.HiddenExactly` | xr-core/src/sync.rs:571-573 | a listing leaves out exactly the files named with the partial suffix |
| `Ordering.LessExactly` | xr-core/src/sync.rs:316-317 | the order of the lists: a proper beginning first, else the smaller character where two names first differ |
| `Digests.SameHexExactly` | xr-core/src/sync.rs:294-294 | hashes are compared up to the case of ASCII letters |
| `SyncPlan.ListingTable` | xr-core/src/sync.rs:277-280 | the lookup table of a listing is the visible part of the disk with its true hashes and sizes |
| `SyncPlan.FetchMembers` | xr-core/src/sync.rs:282-316 | the fetch list holds exactly the selected manifest entries the disk does not meet, in strict path order |
| `SyncPlan.FetchedExactly` | xr-core/src/sync.rs:289-306 | a selected entry with the hash of some content is fetched unless a visible file at its path holds that content; one without a hash, unless such a file has the announced size |
| `SyncPlan.DeleteMembers` | xr-core/src/sync.rs:308-318 | the delete list holds exactly the visible files no selected entry names, in strict path order |
| `SyncPlan.EmptyPlanIsMirror` | xr-core/src/sync.rs:233-319 | the plan is empty if and only if the visible disk is manifest intersected with selection |
| `SyncPlan.ReplanIsResidual` | xr-core/src/sync.rs:272-319 | after any partly failed apply, planning again gives exactly the old plan without the settled fetches and the deletes that happened |
| `SyncPlan.FullApplyConverges` | xr-core/src/sync.rs:272-319 | the second plan is empty if and only if every fetch settled and every delete happened; a name ending in the partial suffix, or unhashed content of another size, never settles |
| `SyncPlan.FetchAll` | xr-core/src/sync.rs:1825-1835 | the download loop: what is on disk, fetched and failed after stopping anywhere |
| `SyncPlan.DeleteAll` | xr-core/src/sync.rs:1837-1851 | the delete loop: an absent file counts as deleted, a refused or undeletable one as failed |
| `SyncPlan.FetchesReportedOnce` | xr-core/src/sync.rs:1825-1835 | every fetch tried is reported exactly once |
| `SyncPlan.DeletesReportedOnce` | xr-core/src/sync.rs:1837-1851 | every delete is reported exactly once |
| `SyncPlan.FetchesReportedTruly` | xr-core/src/sync.rs:1831-1834 | a path is reported as fetched if and only if a download of it succeeded, and as failed if and only if one did not |
| `SyncPlan.PublishedExactly` | xr-core/src/sync.rs:1825-1835 | exactly the destinations on which a download landed have something published |
| `SyncPlan.PublishedLast` | xr-core/src/sync.rs:1825-1835 | it is what the last of them brought |
| `SyncPlan.RemovedExactly` | xr-core/src/sync.rs:1837-1851 | exactly the destinations that some removal cleared, or that held nothing, are gone |
| `SyncPlan.DeletesReportedTruly` | xr-core/src/sync.rs:1837-1851 | a path is reported as deleted if and only if a removal of it left nothing there, else as failed |
| `SyncPlan.ApplyPlan` | xr-core/src/sync.rs:1816-1854 | disk and report after the downloads stop anywhere and the deletes run |
| `SyncPlan.ApplyThenReplan` | xr-core/src/sync.rs:1816-1854 | scan, plan, apply with any failures, scan and plan again: the second plan is the residue of the first, if and only if no content landed under another spelling of its path than the plan's, not to be deleted anyway |
| `SyncPlan.WholeApplyConverges` | xr-core/src/sync.rs:1816-1854 | when every download and removal works the second plan is empty, if and only if every fetched name is canonical and visible, unhashed contents have the announced size, and no name to delete is refused |
| `SyncPlan.SecondPlan` | xr-core/src/sync.rs:272-319 | the second plan for any spelling of paths: the open fetches, and the deletes that did not happen together with the content gone astray |
| `SyncPlan.SpellingStaysUnmet` | xr-core/src/sync.rs:379-405 | an entry under another spelling of its path stays unmet through every apply |
| `SyncPlan.SpellingNeverSettles` | xr-core/src/sync.rs:272-319 | a doubled slash: the file lands under the plain spelling, the next plan deletes it and fetches again |
| `HashIndex.ScanRefinesFullHash` | xr-core/src/sync.rs:535-586 | the indexed scan equals hashing every file if and only if every stored entry matching a visible file carries its hash |
| `HashIndex.RebuiltCoherent` | xr-core/src/sync.rs:535-547 | a scan leaves a coherent index |
| `HashIndex.WriteKeepsExactly` | xr-core/src/sync.rs:435-439 | a write keeps coherence if and only if it does not land on the size and time stored for other content |
| `HashIndex.WriteAfterScan` | xr-core/src/sync.rs:531-547 | straight after a scan, any one write that alters size or time is safe |
| `HashIndex.TwoWritesAlias` | xr-core/src/sync.rs:435-498 | two writes that each alter the size can restore the stored key over other content: the index then vouches for a wrong hash |
| `HashIndex.FreshWritesKeep` | xr-core/src/sync.rs:492-498 | any number of writes off the stored sizes and times is safe |
| `HashIndex.HashIndex.constructor` | xr-core/src/sync.rs:460-462 | a new index is empty |
| `HashIndex.HashIndex.Lookup` | xr-core/src/sync.rs:492-498 | a hash is reused only for the stored size and a known, equal time |
| `HashIndex.HashIndex.Insert` | xr-core/src/sync.rs:502-505 | an unknown time stores nothing, anything else replaces the path's entry |
| `HashIndex.HashIndex.ScanLocalDir` | xr-core/src/sync.rs:535-586 | ends without a listing and with the index as it was if and only if the walk fails or a file to be hashed cannot be read; else every visible file once, by path, with the reused or computed hash, and the index exactly what was seen |
| `HashIndex.HashIndex.ApplyReport` | xr-core/src/sync.rs:1547-1568 | fetched files with a named hash are recorded as they are on disk, deleted paths leave, and every other path keeps what was stored |
| `HashIndex.ReportedExactly` | xr-core/src/sync.rs:1547-1568 | path by path after a report: nothing at a deleted path, size, time and named hash at a fetched one, elsewhere what was stored |
| `HashIndex.FetchedIsKnown` | xr-core/src/sync.rs:1540-1546 | a file fetched under a named hash is vouched for, so the next scan does not read it |
| `HashIndex.RebuiltVouches` | xr-core/src/sync.rs:531-547 | after a scan the index vouches for exactly the visible files of known time |
| `HashIndex.WarmScan` | xr-core/src/sync.rs:528-531 | a scan straight after a scan reads only files of unknown time: it fails if and only if it cannot open one of those |
| `HashIndex.FoldedAt` | xr-core/src/sync.rs:1547-1568 | after folding, a path is coherent if and only if it was fetched with a named hash or was coherent before |
| `HashIndex.ReportKeepsExactly` | xr-core/src/sync.rs:1540-1568 | an apply and its folded report keep coherence if and only if no unhashed fetch landed on a stored key of other content |
| `HashIndex.UnhashedFetchAliases` | xr-core/src/sync.rs:1553-1555 | a concrete unhashed fetch on a stored key, after which the index vouches for a wrong hash |
| `HashIndex.StepKeepsCoherence` | xr-core/src/sync.rs:440-586 | each scan, write off the stored keys, removal and apply keeps coherence |
| `HashIndex.RunCoherent` | xr-core/src/sync.rs:440-586 | coherence in every state of every run of scans, writes, removals and applies from an empty index, given writes off the stored keys |
| `HashIndex.RunScansTruly` | xr-core/src/sync.rs:431-586 | in each such state a scan reports the true hash of every visible file |
| `HashIndex.PlanIsProper` | xr-core/src/sync.rs:272-319 | the diff of a canonical manifest against a scanned directory names only paths that are their own destinations, or refused ones |
| `HashIndex.ApplyIsHonest` | xr-core/src/sync.rs:1501-1568 | applying such a plan, stopped and failing anywhere, is an event of these runs, and an honest one if and only if no unhashed fetch lands on a stored key |
| `Migration.OsPathDestination` | xr-core/src/sync.rs:379-405 | a path the filesystem can name is its own destination, unless it holds a backslash |
| `Migration.CollectFiles` | xr-core/src/sync.rs:631-664 | the visible files the walk comes to, once each in strict path order; its error is dropped |
| `Migration.CollectedIsFound` | xr-core/src/sync.rs:631-664 | they are visible files of the source, and all of them unless the walk failed |
| `Migration.FilesIdentical` | xr-core/src/sync.rs:766-772 | length and digest agree if and only if the contents do |
| `Migration.Relocate` | xr-core/src/sync.rs:753-763 | rename, or copy and remove across devices, with every way each can fail |
| `Migration.MeetExisting` | xr-core/src/sync.rs:711-724 | a twin at the destination makes the source superfluous, anything else is a conflict, and the destination is left alone |
| `Migration.MoveFile` | xr-core/src/sync.rs:701-740 | one pass of the loop: each file takes exactly the step its destination and the answers of the filesystem call for |
| `Migration.MoveFiles` | xr-core/src/sync.rs:701-747 | the loop stops at the first cancelled poll, and sweeps partial downloads only when it did not stop |
| `Migration.MigrateDir` | xr-core/src/sync.rs:671-749 | early answers move nothing; otherwise source, destination and report are those of a run over what the walk found, stopped at the first cancelled poll |
| `Migration.MigratedOnce` | xr-core/src/sync.rs:671-749 | the walk and the polls determine outcome, source and destination |
| `Migration.RefusedExactly` | xr-core/src/sync.rs:671-699 | when each refusal is given: for want of space if and only if the volumes differ, the free space is known and the sizes found add up to more; and the early answer that moves nothing |
| `Migration.MigratedConserves` | xr-core/src/sync.rs:666-749 | whatever a migration answers, both sides are conserved, and a refusal moves nothing |
| `Migration.RunAt` | xr-core/src/sync.rs:671-788 | files do not disturb each other: each visited path ends as its own step says, any other is where it was |
| `Migration.RunConserves` | xr-core/src/sync.rs:671-763 | whatever the walk found, wherever a run stops and whatever fails: each visible file has its content at its path on one side, destination files are untouched, and new ones are prefixes of their source |
| `Migration.HistoryConserves` | xr-core/src/sync.rs:671-763 | the same over any number of cancelled, failing and repeated runs, each with its own walk |
| `Migration.CleanRunEnds` | xr-core/src/sync.rs:671-788 | a run without faults leaves behind exactly conflicts and unsafe names and adds exactly the missing files, if and only if its walk overlooked no file that could move |
| `Migration.AttemptKeepsFinal` | xr-core/src/sync.rs:671-763 | an interrupted attempt changes where a clean run will end if and only if it cut a copy short |
| `Migration.TearLasts` | xr-core/src/sync.rs:711-723 | the remains of a cut copy stay in the way through every later run |
| `Migration.UntornKeepsFinal` | xr-core/src/sync.rs:671-763 | attempts that cut no copy leave the final state as it was |
| `Migration.MigrationResumes` | xr-core/src/sync.rs:671-763 | after any history of attempts with any walks, a clean run over the whole directory ends where it would have at the start, if and only if no copy was ever cut short |
| `Migration.TornCopyBlocks` | xr-core/src/sync.rs:753-763 | a concrete cut copy whose remains the next run reports as a conflict |
| `Migration.MoveAllReport` | xr-core/src/sync.rs:701-740 | moved, conflicts and failed account for every visited path once, each for its own reason |
| `Migration.ReportReasons` | xr-core/src/sync.rs:701-740 | each conflict is another file or a folder in the way, each failure that of one call, and only where the calls before it worked |
| `Migration.TotalAdds` | xr-core/src/sync.rs:695-695 | the space asked for is the sum of the sizes, an unreadable size counting as nothing |
| `Migration.BytesReported` | xr-core/src/sync.rs:711-738 | the bytes reported are those of the files that no conflict and no failure kept back |
| `Migration.SilentBytes` | xr-core/src/sync.rs:695-738 | without conflicts and failures they are all the bytes that the space check asked for |
| `Migration.SilentReportExactly` | xr-core/src/sync.rs:631-749 | a report without conflicts and failures of an uncancelled run means everything is at the destination, if and only if every visible file was found by the walk or is there already |
| `Migration.SilentMigrationExactly` | xr-core/src/sync.rs:666-749 | the same of every answer of a migration: a silent one has brought everything over if and only if it reached each visible file or had it at the destination already |
| `Migration.SoundWalkSilentIsTrue` | xr-core/src/sync.rs:666-749 | so between different roots a silent answer is true whenever the walk did not fail |
| `Migration.WalkCutShort` | xr-core/src/sync.rs:631-637 | a walk that fails after one of two files: one moves, the report is silent, the other stays behind |
| `Download.DownloadEntry` | xr-core/src/sync.rs:1688-1775 | disk and result of one attempt in every case: refused path, failing folder, removal, opening or rename, no reply, cancelled, cut, failing and complete bodies, and a wrong hash |
| `Download.ReadBody` | xr-core/src/sync.rs:1750-1759 | the chunk loop hashes exactly the bytes in the partial until a write fails |
| `Download.PublishedIsVerified` | xr-core/src/sync.rs:1763-1775 | a success publishes content that passes the entry's hash; a failure leaves the published file alone |
| `Download.PublishedIsServed` | xr-core/src/sync.rs:1708-1775 | an attempt that succeeds against an agent serving one content publishes it, if and only if the partial it resumed was a prefix of it |
| `Download.NamedIsServed` | xr-core/src/sync.rs:1763-1775 | with a named hash it is that content in any case |
| `Download.SplicePublished` | xr-core/src/sync.rs:1763-1775 | without one, half of an old content and half of a new one are published as a file that was never served |
| `Download.OnlyNamedContentAppears` | xr-core/src/sync.rs:1688-1775 | over any attempts against any agents, a named hash lets nothing but its content be published |
| `Download.LandedIsPrefix` | xr-core/src/sync.rs:1750-1759 | what lands is a prefix of the body, and all of it once read to the end |
| `Download.ServedAttempt` | xr-core/src/sync.rs:1688-1775 | against an agent serving one content, one attempt keeps the partial a prefix of it and publishes only it |
| `Download.ResumeConverges` | xr-core/src/sync.rs:1688-1775 | over any run of attempts the partial stays a prefix, and one attempt read to its end then publishes the content |
| `Download.LandedExactly` | xr-core/src/sync.rs:1750-1759 | what lands by where the body stops: all chunks before that one, and of a failing write what was written |
| `Download.InterruptedKeeps` | xr-core/src/sync.rs:1750-1759 | a body broken off leaves the resumed partial, if it was shorter than the file should be and the range was honoured, and behind it what landed |
| `Download.ResumesExactly` | xr-core/src/sync.rs:1708-1759 | it goes on from all of the partial, if and only if there was none, or one shorter than the file should be and a range honoured |
| `Download.PartialGrows` | xr-core/src/sync.rs:1708-1759 | over any run of interrupted attempts against agents that honour ranges, the partial is what it was and then all that landed, in order, as long as that is shorter than the file |
| `Download.SucceedsExactly` | xr-core/src/sync.rs:1688-1775 | an attempt succeeds if and only if nothing fails and what was resumed and landed has the named hash |
| `Download.FullPartialDiscarded` | xr-core/src/sync.rs:1708-1722 | a partial as long as the file should be, or longer, counts as none |
| `Download.CorruptDiscarded` | xr-core/src/sync.rs:1763-1771 | a complete file with the wrong hash is thrown away |
| `Transfer.StepKeepsInv` | xr-core/src/sync.rs:98-173 | every atomic step of every thread keeps one owner, its number in `id`, ascending numbers, and flags raised only by accepted calls |
| `Transfer.RunInv` | xr-core/src/sync.rs:82-173 | that invariant in every state of every interleaving |
| `Transfer.MutualExclusion` | xr-core/src/sync.rs:82-147 | at most one transfer at any moment, and numbers never repeat |
| `Transfer.AcceptedHasCause` | xr-core/src/sync.rs:159-168 | an accepted cancel goes back to a check that named the transfer current at that step |
| `Transfer.CancelIsAddressed` | xr-core/src/sync.rs:159-173 | a poll answers cancelled only if an earlier call named the polling transfer and passed its check while it was current |
| `Transfer.StaysInForce` | xr-core/src/sync.rs:159-173 | a raised flag survives every step but its own drop, given no other number has passed its check and not yet stored |
| `Transfer.StaleCallOverwrites` | xr-core/src/sync.rs:159-168 | a call that has passed its check takes the flag with its next step, whatever the current transfer is doing |
| `Transfer.FlagKeptExactly` | xr-core/src/sync.rs:101-173 | no next step but its own drop takes the flag from a current transfer, if and only if its cancel is in force |
| `Transfer.InForceUntilDropped` | xr-core/src/sync.rs:159-173 | from then on every answer to a poll of that transfer is cancelled, over whole runs |
| `Transfer.SeenExactly` | xr-core/src/sync.rs:101-173 | over every continuation, each answer to a poll of the transfer until its drop is cancelled, if and only if its cancel is in force |
| `Transfer.AnswerHolds` | xr-core/src/sync.rs:159-168 | a call that answers true addressed the current transfer, and every later poll answers cancelled if and only if acquire has returned, the flag still names the transfer, and no call for another number is between check and store |
| `Transfer.CancelDuringAcquire` | xr-core/src/sync.rs:109-168 | a reachable state in which a call has raised the flag before `acquire` zeroes it |
| `Transfer.LostCancel` | xr-core/src/sync.rs:101-168 | a run in which a call answers true, the transfer then polls, and the poll answers not cancelled |
| `Transfer.QuietAcquire` | xr-core/src/sync.rs:101-126 | undisturbed, acquiring yields the next number, published, with no cancel pending, or nothing while a transfer is active |
| `Transfer.QuietDrop` | xr-core/src/sync.rs:129-147 | undisturbed, dropping clears number and flag and frees the lock |
| `Transfer.QuietCancel` | xr-core/src/sync.rs:159-168 | undisturbed, a cancel of the current number raises the flag and answers true |
| `Transfer.QuietRefusal` | xr-core/src/sync.rs:159-162 | any other number is answered false, and nothing changes |
| `Transfer.QuietPoll` | xr-core/src/sync.rs:170-173 | undisturbed, a poll answers whether the flag names its transfer |
| `FakeDns.AddressByOr` | xr-core/src/dns.rs:126-126 | or-ing an offset into the base is adding it |
| `FakeDns.FakeRange` | xr-core/src/dns.rs:239-242 | the mask test is membership of 198.18.0.0/15 for every 32-bit address |
| `FakeDns.SameDomain` | xr-core/src/dns.rs:97-97 | two names are one domain if and only if they differ at most in the case of ASCII letters, and the name kept has no capitals |
| `FakeDns.InvLater` | xr-core/src/dns.rs:80-217 | the invariant outlives every later clock reading |
| `FakeDns.LiveBijection` | xr-core/src/dns.rs:80-217 | live domains and live addresses are in bijection, whatever stale entries remain |
| `FakeDns.Resolver.Build` | xr-core/src/dns.rs:80-93 | a new table, the pool size clamped to 1..131070 |
| `FakeDns.Resolver.RemoveEntry` | xr-core/src/dns.rs:298-304 | the entry goes, and the link only if it still points there |
| `FakeDns.Resolver.EvictExpired` | xr-core/src/dns.rs:281-293 | exactly the entries expired at their reading of the clock go, with the links to them |
| `FakeDns.Resolver.LeastUsed` | xr-core/src/dns.rs:165-169 | the smallest pair of last use and address, none only for an empty table |
| `FakeDns.Resolver.NextCandidate` | xr-core/src/dns.rs:126-134 | one counter step: the candidate, the wrap, and the sweep of everything stale at the wrap |
| `FakeDns.Resolver.TryNext` | xr-core/src/dns.rs:126-152 | one step of the pass: a live candidate is passed over, any other is cleared and taken |
| `FakeDns.Resolver.Scan` | xr-core/src/dns.rs:121-153 | in at most one pass, the first address not held at its reading of the clock, or proof that all were |
| `FakeDns.Resolver.TakeAddress` | xr-core/src/dns.rs:121-186 | a free address, or the victim's when all are live; the empty-table fallback is unreachable; exhaustion is reported once |
| `FakeDns.Resolver.Reuse` | xr-core/src/dns.rs:106-119 | a live entry answers and is stamped, an expired link is cut and its entry left behind |
| `FakeDns.Resolver.Install` | xr-core/src/dns.rs:188-199 | the new entry and its link, stamped as the latest use |
| `FakeDns.Resolver.Allocate` | xr-core/src/dns.rs:96-217 | the whole table after an allocation that reads the clock at every comparison: a live link is touched, anything else is unlinked, given an address and linked |
| `FakeDns.Resolver.Lookup` | xr-core/src/dns.rs:220-236 | a live entry answers its domain and is stamped; anything else answers nothing |
| `FakeDns.ScanVisitsOnce` | xr-core/src/dns.rs:124-153 | the wrapping counter passes every pool offset exactly once |
| `FakeDns.ExhaustedScan` | xr-core/src/dns.rs:155-183 | a scan that found nothing saw every address live, and its last candidate is still in the table whatever the sweep took |
| `FakeDns.AllocatesInv` | xr-core/src/dns.rs:96-217 | every allocation keeps the invariant and answers an address linked both ways, in 198.18.0.0/15, neither network nor broadcast |
| `FakeDns.AllocatesKeepsOthers` | xr-core/src/dns.rs:96-217 | every other entry that stays live through the call, its stamp and its link are untouched |
| `FakeDns.EvictsOnlyLeastUsed` | xr-core/src/dns.rs:160-185 | an address that stays live changes hands only when the scan found all of them live, and then it is strictly the least recently used of those still live |
| `FakeDns.LookedUpInv` | xr-core/src/dns.rs:220-236 | a lookup moves only usage stamps and keeps the invariant |
| `FakeDns.LookupAfterAllocate` | xr-core/src/dns.rs:96-236 | an allocated address resolves back to its domain until it expires, and not after |
| `FakeDns.RunInv` | xr-core/src/dns.rs:80-304 | over every run with a clock that never goes back, within calls or between them: the invariant; the entries are those the calls made and did not let expire, with the domain last given; and the stamps are in the order of the last uses |
| `FakeDns.RunAnswers` | xr-core/src/dns.rs:96-236 | over every run each address handed out is usable, and a lookup answers if and only if the entry that the calls last made there is less than the lifetime old, with the domain last given the address |
| `FakeDns.RunReuses` | xr-core/src/dns.rs:105-119 | over every run a domain whose address is less than the lifetime old gets that address again |
| `FakeDns.RunEvicts` | xr-core/src/dns.rs:160-185 | over every run an address that young goes to another domain only when every pool address was that young, and then it is the one whose last use, an allocation or a lookup that answered, is the oldest |
| `FakeDns.AllocatesNext` | xr-core/src/dns.rs:121-158 | a new address is the next one round the pool that is not live, all passed over being live, and the next search goes on behind it; a shortage is marked only when all were live |
| `DnsWire.BuildQuery` | xr-core/src/session.rs:710-724 | header, length-prefixed labels, root, type A, class IN |
| `DnsWire.ReadLabels` | xr-core/src/dns.rs:308-327 | labels up to the root label, in bounds and terminating on arbitrary bytes |
| `DnsWire.ParseQuestion` | xr-core/src/dns.rs:308-351 | domain within 255 octets, type, class and length of the first question, or nothing |
| `DnsWire.HandleQuery` | xr-core/src/dns.rs:247-279 | A queries are answered with the address allocated to their domain; anything else leaves the table untouched |
| `DnsWire.Utf8Exactly` | xr-core/src/dns.rs:325-325 | a label passes if and only if it is the UTF-8 form of some text (section 3 of RFC 3629) |
| `DnsWire.ParsesExactly` | xr-core/src/dns.rs:308-328 | labels parse to what stands on the wire, and to nothing else, on arbitrary bytes |
| `DnsWire.AcceptedExactly` | xr-core/src/dns.rs:247-279 | of all byte strings exactly the queries with QR and OPCODE zero, at least one question, and a first question of type A and class IN for a name within 255 octets are answered, whatever their id and what follows |
| `DnsWire.AnswerMirrors` | xr-core/src/dns.rs:354-377 | the answer carries the id and the question of its query, one pointer to the name, and the address, most significant octet first |
| `DnsWire.SkipName` | xr-core/src/session.rs:765-773 | skips labels, root and pointers, terminating on arbitrary bytes |
| `DnsWire.ParseARecord` | xr-core/src/session.rs:727-762 | the first A record of the answer section, in bounds on arbitrary bytes |
| `DnsWire.ReadsFirstAddress` | xr-core/src/session.rs:739-756 | in an answer of any records, with labels or pointers as names, the first announced record of type A with four octets is read, and no other |
| `DnsWire.QueryRoundTrip` | xr-core/src/dns.rs:308-351 | the resolver recovers exactly the queried name |
| `DnsWire.QueryRecovers` | xr-core/src/session.rs:710-724 | a name comes back unchanged if and only if it is within 255 octets and has no empty label |
| `DnsWire.EmptyLabelLost` | xr-core/src/session.rs:710-724 | an empty label ends the name early, so another question arrives |
| `DnsWire.EmptyNameRefused` | xr-core/src/session.rs:710-724 | the query built for the empty name is not answered |
| `DnsWire.AnswerRoundTrip` | xr-core/src/dns.rs:354-377 | the client reads out of the answer the address put in |
| `DnsWire.SkipExactly` | xr-core/src/session.rs:765-773 | the client finds the end of the question if and only if no label has 192 octets or more |
| `DnsWire.LongLabelUnread` | xr-core/src/session.rs:727-773 | a name of one such label is queried and answered, and the answer is not understood |
| `DnsWire.DnsRoundTrip` | xr-core/src/dns.rs:247-377 | query, question, allocation, answer and A record agree, and the address looks up to the lower-case name |
| `Checksum.Fold` | xr-core/src/engine.rs:1111-1113 | the fold loop terminates on every 32-bit sum with a 16-bit value congruent to it modulo 65535 |
| `Checksum.FoldedIsOnesSum` | xr-core/src/engine.rs:1111-1114 | folding once at the end is one's-complement addition throughout (section 1 of RFC 1071) |
| `Checksum.OnesSumRules` | xr-core/src/engine.rs:1088-1127 | the reference sum: words most significant octet first, an odd octet padded with zero, parts added with end-around carry |
| `Checksum.OnesAddRules` | xr-core/src/engine.rs:1111-1113 | end-around addition keeps the sum modulo 65535, and is zero for zeros only |
| `Checksum.Ipv4Checksum` | xr-core/src/engine.rs:1119-1127 | the complement of the header's sum with its checksum word left out, without overflow |
| `Checksum.Ipv4Verifies` | xr-core/src/engine.rs:1119-1127 | a header carrying it sums to all ones |
| `Checksum.SumSegment` | xr-core/src/engine.rs:1088-1109 | the segment's word sum, an odd last byte padded with zero |
| `Checksum.TcpChecksumUpdate` | xr-core/src/engine.rs:1083-1117 | indexes out of bounds if and only if the packet ends before its checksum field; otherwise only those two bytes change, and the pseudo-header, written out, plus the segment sum to all ones (section 3.1 of RFC 9293) |
| `Checksum.SegmentVerifies` | xr-core/src/engine.rs:1083-1117 | pseudo-header and segment with the stored complement sum to all ones |
| `AddressTranslation.SynKeepsExactly` | xr-core/src/engine.rs:680-701 | a new session keeps the tables inverse if and only if no live session drew its port a whole number of 50,001-port cycles ago |
| `AddressTranslation.CleanupRemoves` | xr-core/src/engine.rs:879-885 | exactly the stale sessions go |
| `AddressTranslation.CleanupInverse` | xr-core/src/engine.rs:879-885 | cleanup keeps the tables inverse |
| `AddressTranslation.ApplyInverse` | xr-core/src/engine.rs:622-707 | a step of SYN, cleanup or network change breaks the tables if and only if it opens a session on a port still in use |
| `AddressTranslation.RunInverseExactly` | xr-core/src/engine.rs:587-885 | a run keeps its tables inverse throughout if and only if no session is opened on a port that a live session drew a whole number of cycles before |
| `AddressTranslation.PortClash` | xr-core/src/engine.rs:57-63 | a run that fails: beside one open session 50,000 short ones come and go, and the next shares its port; the first's packets then leave from the second's address, and its end leaves the second untranslated |
| `AddressTranslation.OwnAddress` | xr-core/src/engine.rs:896-902 | with inverse tables, the address listed for a session's port is the one its SYN was sent to |
| `AddressTranslation.PacketsReturn` | xr-core/src/engine.rs:896-920 | in every such run a packet leaving from a live session's port returns from the address its SYN was sent to, with good checksums |
| `AddressTranslation.RunInv` | xr-core/src/engine.rs:57-63 | from any value of the process's counter, while no session outlives 50,000 later draws, live sessions have distinct ports and the tables are inverse |
| `AddressTranslation.SessionsExactly` | xr-core/src/engine.rs:622-885 | over every run the sessions are exactly those the events leave open, each with the address of its SYN and the port that its place among the draws gives |
| `AddressTranslation.RedirectedExactly` | xr-core/src/engine.rs:659-716 | over every run a packet is redirected if and only if it is TCP and its session is open, or it is a SYN for which a socket listens |
| `AddressTranslation.TranslatedExactly` | xr-core/src/engine.rs:896-914 | while no session outlives 50,000 draws, a packet of the inner stack is translated if and only if it is TCP and leaves from the port of an open session |
| `PacketRewrite.StoreIpChecksum` | xr-core/src/engine.rs:712-714 | a header of 12 bytes or more sums to all ones; below that the checksum lands outside the header; nothing else changes |
| `PacketRewrite.SynBits` | xr-core/src/engine.rs:670-671 | a SYN by the bits of the flags octet: SYN set and ACK not, whatever the others |
| `PacketRewrite.HeaderParts` | xr-core/src/engine.rs:661-667 | version and header length by the halves of the first octet |
| `PacketRewrite.PutDestination` | xr-core/src/engine.rs:703-711 | port, then address over it where they meet, and nothing else |
| `PacketRewrite.RewriteInbound` | xr-core/src/engine.rs:703-716 | for every header length: crashes if and only if the packet ends before its TCP checksum, else rewrites destination, port and checksums in the order of the code and no other byte |
| `PacketRewrite.RedirectDelivers` | xr-core/src/engine.rs:703-716 | the redirected packet keeps its sender and reaches the session's socket with good checksums if and only if its header length is at least 20, or is 4 or 12 and the overwritten fields happen to agree |
| `PacketRewrite.ShortHeaderMisses` | xr-core/src/engine.rs:703-716 | every packet that claims a 16-byte header is sent to port 1 instead of its session's |
| `PacketRewrite.RewriteSource` | xr-core/src/engine.rs:903-914 | the same for the source address and port of an outgoing packet |
| `PacketRewrite.RestoreReturns` | xr-core/src/engine.rs:903-914 | the restored packet keeps its addressee and comes from the given address with good checksums if and only if its header length is at least 20, or the overwritten fields of a shorter one happen to agree |
| `AddressTranslation.EventLoop.constructor` | xr-core/src/engine.rs:40-43 | empty tables, and the counter where the process left it |
| `AddressTranslation.EventLoop.NextEphemeralPort` | xr-core/src/engine.rs:57-63 | the counter's value, which then moves on or wraps from 60000 to 10000 |
| `AddressTranslation.EventLoop.Inbound` | xr-core/src/engine.rs:659-741 | an unknown SYN opens a session and packets of open sessions are redirected; the loop crashes if and only if such a packet ends before its TCP checksum, with the session already recorded; all other packets pass untouched |
| `AddressTranslation.EventLoop.Cleanup` | xr-core/src/engine.rs:879-885 | the loop does what the cleanup specification says |
| `AddressTranslation.EventLoop.NetworkChanged` | xr-core/src/engine.rs:622-645 | every session and port goes |
| `AddressTranslation.EventLoop.Outbound` | xr-core/src/engine.rs:896-920 | a packet from a listed port leaves from the address the SYN of the session listed there was sent to, or crashes the loop if and only if it ends before its TCP checksum; any other passes untouched |
| `AddressTranslation.ShortSynCrashes` | xr-core/src/engine.rs:667-716 | a 34-byte SYN that passes the length test, opens a session and crashes the loop |
| `AddressTranslation.WholeHeaderIsSafe` | xr-core/src/engine.rs:667-667 | no packet with a whole TCP header crashes it; those that do carry 14 to 17 bytes of TCP |
| `Drain.DrainDownload` | xr-core/src/engine.rs:1001-1039 | delivered, held and queued bytes are the same stream before and after; the socket is offered bytes only when ready; each call ends; disconnection is reported only when nothing is left; an idle end means the socket was not ready, its last room too little, or the open channel empty; and an ever-ready roomy socket gets everything |
| `Drain.DrainTicks` | xr-core/src/engine.rs:1001-1039 | over any number of calls with chunks arriving in between, the stream is exactly what arrived, in order |
| `Calendar.YearOfEraBrackets` | xr-core/src/journal.rs:55-58 | the year formula inverts the year starts on all 146,097 days of an era |
| `Calendar.WithinYear` | xr-core/src/journal.rs:58-61 | the month formula runs through the months from March in order, with their lengths |
| `Calendar.CivilSuccessor` | xr-core/src/journal.rs:46-62 | for every day count the formula's next date is the calendar's next day |
| `Calendar.Epoch` | xr-core/src/journal.rs:46-62 | day 0 is 1970-01-01 |
| `Calendar.CivilIsGregorian` | xr-core/src/journal.rs:46-62 | the formula agrees with counting days on the Gregorian calendar, so every date is valid |
| `Calendar.NoUnderflow` | xr-core/src/journal.rs:46-61 | within an era no unsigned subtraction goes below zero and every intermediate value is below 2^32 |
| `Calendar.EraFits` | xr-core/src/journal.rs:46-55 | from any 64-bit count of seconds the day of the era is below 146097, with no signed 64-bit value out of range |
| `Calendar.StampsIncrease` | xr-core/src/journal.rs:39-65 | later seconds give field-wise later timestamps |
| `Calendar.StampCounts` | xr-core/src/journal.rs:39-65 | a time of day is written as its hours, minutes and seconds, on the date that counting whole days from 1970-01-01 reaches |
| `JournalText.DecimalRoundTrip` | xr-core/src/journal.rs:77-81 | a written count parses back |
| `JournalText.ParsesNumbers` | xr-core/src/journal.rs:77-81 | beside plain decimals, leading zeros and one plus sign are read, and nothing else |
| `JournalText.WithCountSplits` | xr-core/src/journal.rs:70-82 | a folded line splits into its core and count |
| `JournalText.SplitExactly` | xr-core/src/journal.rs:70-82 | any line at all: one ending in a parenthesis is split at its last mark if a number stands between the two, every other is its own core, once |
| `JournalText.MergedSplits` | xr-core/src/journal.rs:169-177 | raising a line's count keeps its core, and past the largest 64-bit count goes back to zero |
| `Coalescing.AppendCountsOnce` | xr-core/src/journal.rs:158-182 | an append adds one occurrence of its core if and only if it raises the count of the line it repeats by one, or repeats none and claims no other count |
| `Coalescing.LogIsLossless` | xr-core/src/journal.rs:158-182 | the folded log of plain lines read back is exactly the appended sequence |
| `Journal.ErrorsOutlastNoise` | xr-core/src/journal.rs:280-310 | the drained tail is below its limit; a warning leaves it only when no informational line is left, an error only when every line is an error |
| `Journal.DrainedExactly` | xr-core/src/journal.rs:280-310 | what draining takes: nothing below 400 lines; then the 50 oldest of the least important kind there is, or all of that kind if fewer |
| `Journal.TagsExactly` | xr-core/src/journal.rs:290-300 | a line is an error or a warning if and only if its tag stands somewhere in it |
| `Journal.TailIsPart` | xr-core/src/journal.rs:280-310 | the tail is an in-order part of the log, ending in its last line, and all of it up to 400 lines |
| `Journal.TailPushed` | xr-core/src/journal.rs:280-310 | draining and pushing keep it one |
| `Journal.ShiftFiles` | xr-core/src/journal.rs:338-365 | the renames move every file one number up, drop the oldest and start an empty one |
| `Journal.ShiftedOnDisk` | xr-core/src/journal.rs:338-365 | the renamed files hold the rotated records |
| `Journal.RotationKeepsSuffix` | xr-core/src/journal.rs:338-365 | a rotation drops the oldest records only, and none while there is room for one more file |
| `Journal.WriteKeeps` | xr-core/src/journal.rs:312-322 | a written line keeps bytes, records and offsets in agreement, in a file that was not full before it |
| `Journal.RewriteKeeps` | xr-core/src/journal.rs:325-334 | so does truncating at the last line and writing another |
| `Journal.Overwrite` | xr-core/src/journal.rs:325-334 | truncating and writing leave the files holding the records with the last one replaced |
| `Journal.Extend` | xr-core/src/journal.rs:315-321 | writing at the end leaves the files holding the records and one more |
| `Journal.Rotate` | xr-core/src/journal.rs:338-365 | the files of a full journal hold the rotated records, the current one none |
| `Journal.Journal.constructor` | xr-core/src/journal.rs:126-138 | an empty journal in a new directory, both limits clamped from below |
| `Journal.Journal.RotateIfNeeded` | xr-core/src/journal.rs:338-365 | rotates exactly when the current file has reached its limit, and what left the files and what they hold stays the log |
| `Journal.Journal.WriteLine` | xr-core/src/journal.rs:312-322 | below the limit the line goes behind the current file and every other stays; at the limit it starts a new file before the others, of which only the oldest of the largest number goes |
| `Journal.Journal.PutLine` | xr-core/src/journal.rs:315-321 | the line goes behind the records of the current file, the others stay |
| `Journal.Journal.RewriteLastLine` | xr-core/src/journal.rs:325-334 | the last record of log and file is replaced |
| `Journal.Journal.PushTail` | xr-core/src/journal.rs:280-310 | the drained tail and the new line, within the limit |
| `Journal.Journal.ReplaceLast` | xr-core/src/journal.rs:172-177 | the last line changes in tail, file and log alike |
| `Journal.Journal.AddLine` | xr-core/src/journal.rs:180-181 | a line is added to tail, file and log alike |
| `Journal.Journal.Append` | xr-core/src/journal.rs:158-182 | tail, files and log stay in agreement, the file's last line being the tail's, and the log is the folded one; a build that checks arithmetic panics instead, with everything as it was, if and only if the line repeats one of the largest count |
| `Journal.Journal.Retained` | xr-core/src/journal.rs:312-365 | the files hold the end of the log: all of it, or as many files as there may be, each behind the current one full and none at its limit before its last line |
| `Journal.Journal.Dump` | xr-core/src/journal.rs:191-209 | the bytes of a contiguous in-order end of the log |
| `Journal.ReadFiles` | xr-core/src/journal.rs:191-209 | reading from the oldest file to the current one gives the held records in order |
| `Journal.JournalIsLossless` | xr-core/src/journal.rs:158-182 | for lines without a count ending of their own, the log's counts account for every append, in order |
| `Journal.ClaimedCount` | xr-core/src/journal.rs:158-182 | a first line that ends in a count of its own is read back that many times, five for a line ending in (×5) |
| `Journal.AppendCountsExactly` | xr-core/src/journal.rs:158-182 | an append counts once if and only if it repeats a line whose count is not the largest, or repeats none and claims no other count |
| `Journal.TwoAppendsOverflow` | xr-core/src/journal.rs:169-177 | one line ending in the largest count, appended twice, overflows: a build that checks panics, any other then records no occurrence at all |
| `Journal.AppendAll` | xr-core/src/journal.rs:158-209 | over every append-only run, ended by its first overflow in a build that checks, the log is the folding of the lines, the tail an in-order part of it and all of it up to 400 lines, and the files its end: the whole log, or the allowed number of files, all but the current one full |
| `Journal.AppendLoop` | xr-core/src/journal.rs:158-182 | the appends up to the first panic, and why it is the first |
| `UdpFlows.FlowTable.constructor` | xr-client/src/udp_relay.rs:61-67 | empty tables over the given pool |
| `UdpFlows.FlowTable.Allocate` | xr-client/src/udp_relay.rs:103-108 | the device's own port if non-zero and free, else the lowest free pool port, else none |
| `UdpFlows.FlowTable.Touch` | xr-client/src/udp_relay.rs:71-98 | a known device keeps its port and is stamped; a new one is given a port in both tables, or refused |
| `UdpFlows.FlowTable.UpstreamPacket` | xr-client/src/udp_relay.rs:111-125 | the packet carries destination and payload unchanged and the device's tunnel port |
| `UdpFlows.FlowTable.DownstreamTarget` | xr-client/src/udp_relay.rs:131-139 | a reply goes to the device holding its port and counts as activity; an unknown port goes nowhere |
| `UdpFlows.FlowTable.RetireExpired` | xr-client/src/udp_relay.rs:142-156 | exactly the idle flows leave both tables, and their number is returned |
| `UdpFlows.TouchInv` | xr-client/src/udp_relay.rs:71-98 | the tables stay inverse and no other device's port changes |
| `UdpFlows.RetireInv` | xr-client/src/udp_relay.rs:142-156 | the tables stay inverse, and a device loses its port exactly when its flow goes |
| `UdpFlows.RefusedOnlyWhenFull` | xr-client/src/udp_relay.rs:71-108 | refusal means the own port is zero or held and the whole pool is held, and changes nothing |
| `UdpFlows.ActiveSurvives` | xr-client/src/udp_relay.rs:142-156 | a device keeps its port if and only if its last packet is less than the timeout before; otherwise device and port are free |
| `UdpFlows.RunInv` | xr-client/src/udp_relay.rs:52-156 | over every run the tables are inverse, and the flows are exactly the ports that the packets and retirements leave held, each with its holder and the time of its last packet |
| `UdpFlows.RepliesReachSender` | xr-client/src/udp_relay.rs:131-139 | a reply is delivered if and only if a device holds its port, and to that device |
| `UdpFlows.PortIsStable` | xr-client/src/udp_relay.rs:71-98 | a device keeps one port for all destinations as long as its packets, up or delivered, are not too far apart for the retirements (section 4.1 of RFC 4787) |
| `UdpFlows.SendsThrough` | xr-client/src/udp_relay.rs:71-125 | over every run the port a packet goes up through: the one its device holds, else its own if nobody holds it, else the lowest of the pool nobody holds, and none only if all are held |
| `UdpFlows.RetiresSilent` | xr-client/src/udp_relay.rs:142-156 | after a retirement exactly those ports are held that were held before and whose last packet is less than the timeout earlier |
| `Health.HealthTracker.constructor` | xr-core/src/health.rs:73-75 | a new tracker: Healthy, empty windows |
| `Health.HealthTracker.UpdateAt` | xr-core/src/health.rs:84-131 | the whole new state of one update |
| `Health.HealthTracker.Settle` | xr-core/src/health.rs:121-130 | a worse or equal level is taken at once, a better one only after the hold; a worsening is remembered |
| `Health.HealthTracker.FreezeAt` | xr-core/src/health.rs:138-143 | the counters become the baseline and the window is emptied |
| `Health.PushMany` | xr-core/src/health.rs:92-97 | one timestamp per counted event |
| `Health.EvictOlderThan` | xr-core/src/health.rs:160-164 | pops the stale front of the queue |
| `Health.DropIsRecent` | xr-core/src/health.rs:160-164 | on a sorted queue that leaves exactly the recent events |
| `Health.WindowIsHistory` | xr-core/src/health.rs:84-101 | after every run in time order the queues are the last 30 seconds of the full capped event history |
| `Health.MoreIsNotBetter` | xr-core/src/health.rs:103-119 | another error or warning in the window never lowers the level it calls for |
| `Health.HealthyExactly` | xr-core/src/health.rs:109-119 | the window calls for Healthy if and only if it holds no warning and fewer than three errors |
| `Health.ReportedHealthyExactly` | xr-core/src/health.rs:103-131 | the tracker reports Healthy if and only if the window calls for it and the level was Healthy before or five seconds have passed since the last worsening |
| `Health.ErrorGoesUnseen` | xr-core/src/health.rs:84-131 | an update that has just counted an error can report Healthy |
| `Health.RawExactly` | xr-core/src/health.rs:84-119 | the level each tick calls for, by the events counted from the ticks: five errors in 5 seconds, three errors, more than ten warnings or any in 30 seconds |
| `Health.LevelExactly` | xr-core/src/health.rs:84-131 | the level reported, by the ticks alone: the one called for, unless that is better than the last and some tick less than 5 seconds ago worsened it; then the last |
| `Health.LevelHasCause` | xr-core/src/health.rs:121-130 | any level but Healthy goes back to a tick that called for it or worse, whose time is remembered |
| `Health.NeverUnderstates` | xr-core/src/health.rs:103-131 | the reported level is never below what the window calls for |
| `Health.DropsOnlyWhenCalm` | xr-core/src/health.rs:121-130 | in every run the level drops only 5 seconds or more after every tick that called for it or worse |
| `Health.LastWorsening` | xr-core/src/health.rs:121-130 | no tick later than 30 seconds after the counters stopped counts as a worsening |
| `Health.QuietIsHealthy` | xr-core/src/health.rs:84-131 | every update at least 35 seconds after the counters stopped changing reports Healthy |

## Left out

- HTTP, TLS, the relay leg, tokens, manifests on the wire and the choice of agent address: network clients; a reply is a parameter.
- The real filesystem: a directory is a map from relative path to content, so directories, symbolic links, pruning of empty folders and the removal of orphan partials are not modelled; a directory standing at a migration's destination is an answer of the filesystem.
- SHA-256 is an injective function to lower-case hexadecimal text; collisions are not modelled.
- The JSON file of the hash index, its version and its atomic save.
- smoltcp, channels, timeouts and socket options: only packets, tables and the drain are modelled.
- Weak memory: the transfer's atomics are sequentially consistent single steps, and the progress fields beside them are left out.
- What a panic leaves behind, such as a poisoned lock, and disk errors in the journal.
- `set_rotation`, reopening and clearing a journal, and the text format of a line and its timestamp: an append takes the formatted line.
- Counters of 64 bits (usage stamps, transfer numbers, byte totals) are unbounded.
- The routing of sessions, the relay of UDP packets and the spoofed-socket cache: glue, or a simpler copy of the flow table's expiry.
- FakeDns.Lower: lowers ASCII letters only, because full Unicode case mapping is not modelled; names on the wire are usually ASCII.
- DnsWire.ParseARecord: does not model the error texts; a missing answer is one result.
- DnsWire.DnsRoundTrip: labels are shorter than 192 octets, because past that the client reads on inside the name (`DnsWire.SkipExactly`) and what it finds there depends on the label's bytes; names of RFC 1035 stay below 64.
- DnsWire.AnswerRoundTrip: the same.
- AddressTranslation.EventLoop.NextEphemeralPort: draws are not interleaved with other threads, because one event loop draws ports.
- Migration.MigrateDir: source files do not change under the run, and paths are ones the filesystem can name.
- Download.DownloadEntry: one entry is followed alone, so an entry named like another's partial is not modelled; bytes lost in an unflushed buffer are those of a failing write.
- AddressTranslation.EventLoop.Inbound: packets are at most 65535 bytes long, as IPv4 has it; what the crash of the event loop takes down with it is not modelled.
- SyncPlan.ApplyThenReplan: no fetch lands on the path of another wanted entry, because then the order of the downloads decides what that file holds.
- Drain.DrainDownload: chunks arrive and the relay goes between calls, not during one.
- HashIndex.HashIndex.ScanLocalDir: a failing walk is one answer, without the place where it failed.
- Health.WindowIsHistory: runs without a freeze or reset, which start a new window.
