# Verified model of the patcher

A Dafny model of the stateful protocols and data transformations that the File Pilot patcher
ships, with proofs about them. `dafny verify dfyconfig.toml` checks everything.

What is modelled, module by module:

- **Warm standby** (`Mailbox`, `StandbyProtocol`, `StandbySafety`, `StandbyResult`,
  `StandbyProgress`): one mailbox under a named mutex, shared by any number of requesters,
  spawners and standby processes. A run is any sequence of whole mutex sections, timeouts,
  deaths, and sections that a crash leaves half done. The class performs each section in place
  and is proved equal to the function the protocol uses.
- **Context-menu wrappers** (`MenuCache`, `MenuProtocol`, `MenuRecency`): the partitioned cache
  with use counts, the list of wrappers put off, and idle retirement. A native build or release
  may open and close further menus, so a run is a sequence of steps over a stack of calls.
- **Shared records without a lock** (`SeqLock`, `PolicyText`, `PolicyRecords`): one writer and
  many readers, one cell per step, for the exclusion policy and what it says, the host status
  and the diagnostics.
- **Directory listings** (`RecordChain`, `DirectoryPages`, `DirectoryQuery`, `Decoration`,
  `RecordFilter`, `ListingFilter`): linked records printed page by page, marked in place, and
  filtered in place.
- **Archive stream** (`ArchiveStream`): three ways of reading and a ranged extractor against
  one flat sequence of bytes.
- **Text** (`Utf8`, `WideText`, `ArabicForms`, `ArabicJoining`, `ArabicOrder`, `ArabicText`,
  `ArabicOutput`): decoding, conversion to UTF-16 and back to visible bytes, joining, and
  visual order.
- **Row cache** (`RowCache`): the byte budget and the rows of the current frame.
- **Filename editor** (`FilenameText`, `EditHistory`, `FilenameEditor`, `FilenameSession`),
  **packets** (`Packets`, `DialogProtocol`), **command lines** (`CommandLine`), and the
  **signature search** of the patcher (`MaskedSearch`).
- `Bytes` and `Sequences` hold what several modules need.

Where the code falls short of what one might expect, the model keeps the code as it is and says
exactly when it does what it should:

- A request that a standby turns down, and that the mailbox has moved on from before the
  closing section looks (a next request has overwritten its id, for one), is reported as
  accepted (`StandbyResult.TurnedDownYetReported`); otherwise the result is right
  (`StandbyResult.ResultIsRightExactly`).
- The program name of a command line is read back by a simpler rule than the other arguments
  (`CommandLine.CommandLineComesBackExactly`).
- A row for a text whose hash is 0 is not kept for the frame (`RowCache.ZeroHashIsReplaced`);
  every other row is (`RowCache.DuringFrame`).
- Malformed UTF-8 can need more than the 2n+4 bytes set aside for shaped text
  (`ArabicText.StrayBytesOverflow`); `ArabicText.OutputSize` gives the exact need, which depends
  on the code points alone, and well-formed text always fits.
- Undoing a backspace without a selection brings the bytes and the cursor back, but leaves the
  removed code point selected (`FilenameEditor.Editor.Erase`).
- More undos than there are states, followed by as many redos, go too far when something could
  be redone at first (`EditHistory.UndosThenRedos`).

## Model

| member | source | states |
|---|---|---|
| StandbySafety.WithdrawalIsFinal | patcher/startup_payload.cpp:440-453 | In every run, once the closing section of a request withdraws it from Pending or finds the mailbox back at Ready, no standby ever adopts that request |
| StandbySafety.AdoptedOnceAsPosted | patcher/startup_payload.cpp:382-399 | Every adoption happened once for its request, by the process that was recorded as owner when it was posted, with exactly the contents that one requester posted in one section, whatever torn writes came before |
| StandbySafety.DeliveryWasPosted | patcher/startup_payload.cpp:421-443 | A request in flight was posted by one whole opening section of its requester |
| StandbySafety.PendingIsNeverMalformed | patcher/startup_payload.cpp:382-388 | In no reachable state does a standby find a pending request that fails its validation |
| StandbySafety.SupersededStandbyIsHarmless | patcher/startup_payload.cpp:357-408 | From the moment its ticket is superseded, no step of a standby changes the mailbox, in any continuation |
| StandbySafety.SupersededSpawnerIsHarmless | patcher/startup_payload.cpp:471-492 | From the moment its ticket is superseded, the late bookkeeping of a spawner changes nothing |
| StandbySafety.StepKeepsInv | patcher/startup_payload.cpp:355-496 | Every step of every party (standby, requester, spawner, crash inside a section, launch, death) keeps the invariant that ties the mailbox to the phase of each process |
| StandbySafety.RunKeepsInv | patcher/startup_payload.cpp:355-496 | The invariant holds in every state of every run from the empty mailbox |
| StandbySafety.StandbyLeavesInTime | patcher/startup_payload.cpp:400-406 | A standby whose wait ran out, or that finds memory short, is over with waiting after that pass: it has adopted the pending request, or it has left for good and the mailbox no longer names it |
| StandbyProgress.DeliverySucceeds | patcher/startup_payload.cpp:355-496 | From every reachable free mailbox, whatever is left in its buffers, any message that can be sent can be delivered: a spare is started, claims, becomes ready, adopts exactly the message, Deliver returns true, and the mailbox is free again |
| StandbyProgress.WaysOutFreeTheMailbox | patcher/startup_payload.cpp:365-368 | Withdrawal before being ready, a failed process creation, a dead owner found by a requester, the acknowledgement and the first frame all free the mailbox |
| StandbyProgress.OccupantKeepsTheMailbox | patcher/startup_payload.cpp:463-472 | A spawner takes the mailbox over exactly if it is free or long occupied by a process that is gone, and a requester writes into it exactly if it is ready, its owner runs and the message can be sent |
| StandbyResult.ResultOfDeliver | patcher/startup_payload.cpp:444-459 | In runs where the owner test sees processes as they are: the value returned after the closing section is true exactly if the adopter is alive and adopted the request, or turned it down and the mailbox had moved on by then |
| StandbyResult.ResultWithoutRejection | patcher/startup_payload.cpp:382-401 | In runs where no standby turns a request down, a request that got its lock back returns true exactly if it was adopted and the adopter is still alive |
| StandbyResult.ResultIsRightExactly | patcher/startup_payload.cpp:444-459 | In such runs the returned value is right if and only if it is not so that a running standby turned the request down and the closing section no longer found it handed back |
| StandbyResult.TurnedDownYetReported | patcher/startup_payload.cpp:445-459 | A concrete run in which a standby turns a request down, a second requester overwrites it, and it is reported as accepted although nobody adopted it |
| Mailbox.WrittenRequestIsExact | patcher/startup_payload.cpp:421-439 | What the opening section leaves in the buffers reads back as exactly the message, over any earlier contents, terminators included |
| Mailbox.OneReasonToLeaveIsEnough | patcher/startup_payload.cpp:400-406 | When a pass adopts nothing, either missing condition alone makes the standby leave and frees the mailbox; with both it stays and the mailbox is ready |
| Mailbox.AdoptsExactlyWellFormed | patcher/startup_payload.cpp:382-399 | A pending request is adopted exactly by the recorded standby, if a copy can be allocated and every length and terminator is right; a malformed one is turned down and the standby stays |
| Mailbox.MeaningOfMessage | patcher/startup_payload.cpp:421-437 | What a message means field by field: panel or command, the two flags that survive, window, position, placement |
| Mailbox.SendableExactly | patcher/startup_payload.cpp:416-432 | A message can be sent exactly if it has what it needs and some well-formed request means it |
| Mailbox.SharedMailbox.ClaimTicket | patcher/startup_payload.cpp:357-364 | The first section of a standby, in place: it takes the mailbox only with its own ticket, in Starting, and if nobody else did |
| Mailbox.SharedMailbox.LeaveForMemory | patcher/startup_payload.cpp:365-368 | Under memory pressure a standby empties the mailbox if it owns it |
| Mailbox.SharedMailbox.AnnounceReady | patcher/startup_payload.cpp:370-372 | A standby becomes Ready only if it is still the owner in Starting |
| Mailbox.SharedMailbox.ServeOnce | patcher/startup_payload.cpp:379-406 | One turn of the waiting loop, in place: adoption, rejection of malformed requests, failed allocation, and leaving |
| Mailbox.SharedMailbox.DeliverOpen | patcher/startup_payload.cpp:413-443 | The opening section of a request, with every refusal |
| Mailbox.SharedMailbox.DeliverClose | patcher/startup_payload.cpp:445-453 | The closing section: withdrawal, turned down, taken over, or another request in the box |
| Mailbox.SharedMailbox.ReserveFor | patcher/startup_payload.cpp:463-472 | A spawner reserves the mailbox if it is empty, or stale for ten seconds without an owner |
| Mailbox.SharedMailbox.RecordChild | patcher/startup_payload.cpp:487-492 | A spawner records its child, or empties the mailbox, only if its own ticket still stands |
| Mailbox.SharedMailbox.RecoverOnFirstFrame | patcher/startup_payload.cpp:672-677 | The first visible frame frees a mailbox that is still Taken by this process |
| MenuProtocol.ReleasedOnceAndUnused | patcher/menu_payload.cpp:359-443 | In every run, with menus opened and closed inside native builds and releases, a wrapper reaches the native release alive, with no acquire outstanding, and never twice |
| MenuProtocol.WrappersAreConserved | patcher/menu_payload.cpp:334-443 | Wrappers built = natively released + cached + put off + outstanding uncached ones |
| MenuProtocol.PutOffIsBounded | patcher/menu_payload.cpp:38-42 | The wrappers put off never exceed the outstanding uses, nor the capacity of the list |
| MenuProtocol.QuietCacheHoldsEverything | patcher/menu_payload.cpp:307-319 | With no menu open and nothing in progress all live wrappers are cached, within 64+4 entries (16+2 under the budget), each in its own partition |
| MenuProtocol.StepKeepsInv | patcher/menu_payload.cpp:359-443 | Every step (hit, miss, build return, release, drain, retirement) keeps the invariant of cache, list and uses |
| MenuProtocol.RunKeepsInv | patcher/menu_payload.cpp:359-443 | The invariant holds in every state of every run |
| MenuRecency.EvictsTheLeastRecent | patcher/menu_payload.cpp:321-332 | In every run an eviction takes an idle wrapper of the right part of the full cache, and every other idle one there was handed out later, by a hit or a build |
| MenuRecency.RetiresExactlyTheIdle | patcher/menu_payload.cpp:432-441 | Maintenance clears and releases only what is not in use and, in its idle mode, was last handed out two minutes ago or more; its scan passes over none of these and goes on behind it |
| MenuRecency.HitIsForItsKey | patcher/menu_payload.cpp:385-399 | A hit hands out a wrapper that was last built by a call for exactly the same key |
| MenuRecency.MissIsNew | patcher/menu_payload.cpp:385-387 | A miss of a valid key means that no cached wrapper was last built for that key |
| MenuRecency.BuildIsCachedExactly | patcher/menu_payload.cpp:307-357 | A new wrapper is cached exactly if its key is valid, under the budget not too large, and its part of the cache has a free entry, or an idle one whose wrapper can still be put off |
| MenuRecency.MaintenanceWaits | patcher/menu_payload.cpp:428-431 | While a cached wrapper is in use, or without the budget, maintenance changes nothing |
| MenuRecency.RunKeepsRecent | patcher/menu_payload.cpp:348-391 | In every state of every run the stamps order the cached wrappers as their last acquires are ordered, with the times of these |
| MenuCache.Menus.FindCachedKey | patcher/menu_payload.cpp:291-297 | Finds the first entry with the key, or none |
| MenuCache.Menus.FindCachedWrapper | patcher/menu_payload.cpp:299-305 | Finds an entry with the wrapper, or none |
| MenuCache.Menus.FindInstallSlot | patcher/menu_payload.cpp:307-332 | Finds the first free slot of the partition, else its least recently used entry without uses, else none |
| MenuCache.Menus.InstallCacheEntry | patcher/menu_payload.cpp:334-357 | Installs in place; an evicted wrapper is put off, and nothing happens when the list is full |
| MenuCache.Menus.Lookup | patcher/menu_payload.cpp:385-399 | A hit counts one more use |
| MenuCache.Menus.ReleaseUse | patcher/menu_payload.cpp:415-424 | A close gives one use back, or passes an uncached wrapper to the native release |
| MenuCache.Menus.TakeDeferred | patcher/menu_payload.cpp:360-362 | Takes the last wrapper that was put off |
| MenuCache.Menus.RetireNext | patcher/menu_payload.cpp:433-439 | Clears the next entry that is idle for two minutes, or any idle one, before its wrapper is released |
| MenuCache.Menus.MayMaintain | patcher/menu_payload.cpp:429-431 | Maintenance runs only under the budget and with no use outstanding |
| SeqLock.AcceptedIsPublished | patcher/dialogs/agent_host.cpp:29-39 | In every interleaving of single-cell reads and writes, every copy a reader ever accepted is the meaning of one whole published version |
| SeqLock.AcceptedIsCurrent | patcher/dialogs/agent.cpp:174-183 | It is the version that is current when the reader accepts it |
| SeqLock.ReaderNeverStuck | patcher/dialogs/adapter.cpp:43-54 | A reader can always take its next step and never runs past the record |
| SeqLock.GivesUpAfterThree | patcher/dialogs/agent_host.cpp:30-38 | A reader gives up after exactly three attempts that met a change, and accepts only before that |
| SeqLock.FinishedIsMeaning | patcher/dialogs/agent.cpp:174-240 | A reader that is not disturbed finishes with what the record says (text up to its terminator, table up to its count, or fields) |
| PolicyRecords.SharedRecord.PublishExclusions | patcher/dialogs/agent.cpp:132-137 | The policy writer, character by character, is a run of the protocol and publishes the new text, or leaves an equal one alone |
| PolicyRecords.SharedRecord.PublishStatus | patcher/dialogs/agent_host.cpp:79-89 | The status writer publishes the first 256 entries and their number |
| PolicyRecords.SharedRecord.MarkRoute | patcher/dialogs/adapter.cpp:31-38 | The diagnostics writer publishes both fields together |
| PolicyText.IsExcluded | patcher/dialogs/agent_shared.cpp:68-85 | The loop over the policy finds out whether some line excludes the program, the lines being those between line breaks and counting without the blanks at their ends |
| PolicyText.LineByItsCore | patcher/dialogs/agent_shared.cpp:74-81 | A line excludes exactly if something is left of it without blanks that is no comment and matches the path or the file name |
| PolicyText.ExcludedByParts | patcher/dialogs/agent_shared.cpp:71-83 | A policy put together around a line break excludes exactly what one of its parts excludes |
| PolicyText.OneLine | patcher/dialogs/agent_shared.cpp:71-81 | A policy without line breaks is one line |
| PolicyRecords.DecisionsFollowPublishedPolicy | patcher/dialogs/agent_shared.cpp:68-85 | Host and adapter, each with a copy of its own read at any time, decide exactly as the whole published version they accepted says, and alike if it is the same version; a policy they cannot read means no new work |
| CommandLine.Quote | patcher/dialogs/protocol.h:203-223 | The loop with its slash counter computes the quoted form |
| CommandLine.BuildCommand | patcher/dialogs/launcher.cpp:197-199 | The command is the quoted arguments with spaces between them |
| CommandLine.SplitInvertsJoin | patcher/dialogs/protocol.h:203-223 | Splitting a joined command by the documented Windows backslash and quote rules gives back exactly the list, for all strings |
| CommandLine.CommandLineComesBackExactly | patcher/dialogs/launcher.cpp:197-199 | The launcher's whole line, read as Windows reads it, gives back the name and the list of arguments if and only if the name has no quote in it and no backslash at its end |
| CommandLine.ProgramNameComesBackExactly | patcher/dialogs/launcher.cpp:197-199 | The first argument, which Windows reads by a simpler rule, comes back if and only if it has no quote in it and no backslash at its end |
| ArchiveStream.Output.Write | patcher/archive/backend.cpp:121-130 | After any chunks the sink holds exactly the part of the fed bytes inside the range, and stops the decoder as soon as the range is complete and more follows |
| ArchiveStream.ReadRange | patcher/archive/backend.cpp:223-234 | However the decoder splits its chunks, the range extractor returns the range cut out of the whole entry |
| ArchiveStream.EntryStream.Seek | patcher/archive/shell_transfer.cpp:73-79 | Seeking answers and moves as on a flat sequence, with the limits of 64 bits |
| ArchiveStream.EntryStream.Read | patcher/archive/shell_transfer.cpp:50-71 | A read fills the buffer with exactly the flat bytes and moves by their number, by whichever of the three ways |
| ArchiveStream.EntryStream.Clone | patcher/archive/shell_transfer.cpp:97-99 | A clone has the same contents and position and its own state |
| ArchiveStream.Play | patcher/archive/shell_transfer.cpp:50-99 | Any operations on a stream and all its clones get the same answers as flat byte sequences give |
| ArchiveStream.CopyTo | patcher/archive/shell_transfer.cpp:81-88 | Copying passes on exactly the flat bytes from the position, as far as the target takes them |
| ArchiveStream.ReadsGoOn | patcher/archive/shell_transfer.cpp:50-71 | Consecutive reads deliver what one longer read delivers, and a read from the beginning can deliver everything |
| ArchiveStream.SeeksCountFromTheirOrigin | patcher/archive/shell_transfer.cpp:73-79 | Seeking by nothing tells the beginning, the position and the end, and other distances count from there |
| RecordChain.PageWalks | patcher/archive/winfs.cpp:335-351 | Following the links of a page meets exactly the records that were put there, in order |
| RecordChain.PageGrows | patcher/archive/winfs.cpp:367-368 | Adding a record rewrites the link of the record before it and nothing else |
| DirectoryPages.PrintedReadsBack | patcher/archive/winfs.cpp:364-367 | Every field of a printed record reads back as it was: number, name, all four times, size, allocation, attributes, and the id of native records |
| DirectoryPages.NameFollowsTheFields | patcher/archive/winfs.cpp:331 | The name starts right behind the fields that the structure of its class has |
| DirectoryPages.ShownTellsKind | patcher/archive/winfs.cpp:199 | Folders have the directory bit, other entries the archive bit, all are read-only; the allocation is the size rounded up to blocks of 4096 |
| DirectoryPages.RecordIsAligned | patcher/archive/winfs.cpp:363-366 | A record has room for its name and is padded to a multiple of eight bytes, no more |
| Bytes.ByteOfLittle | patcher/archive/winfs.cpp:364-366 | Numbers are written with the least significant byte first: byte i is the number divided by 256^i, modulo 256 |
| Bytes.ByteOfNumber | patcher/dialogs/picker_runtime.cpp:506-511 | And they are read that way |
| DirectoryQuery.PrintRecord | patcher/archive/winfs.cpp:364-367 | Prints one record at its place in the buffer, field by field, and touches nothing else |
| DirectoryQuery.AppendRecord | patcher/archive/winfs.cpp:364-367 | Prints a record behind the page and links the one before it to it |
| DirectoryQuery.DirHandle.Fill | patcher/archive/winfs.cpp:360-368 | The loop prints the next matching entries as long as they fit, or one |
| DirectoryQuery.DirHandle.Query | patcher/archive/winfs.cpp:353-373 | One call: what is printed, where the cursor stands, every status, and that no byte beyond the page is written |
| DirectoryQuery.MatchingIsExact | patcher/archive/winfs.cpp:205 | They are the matching entries from the cursor on, in order, each once |
| DirectoryQuery.PageDecodes | patcher/archive/winfs.cpp:331-367 | A reader of a page sees exactly the entries printed on it, field by field, and folders and files by their attribute bits |
| DirectoryQuery.Enumerate | patcher/archive/winfs.cpp:353-373 | For any calls with any buffer sizes and no restart, every page decodes to the entries printed on it and the pages together are the matching entries in order, each once; all of them once a call reports no more |
| Decoration.Decorate | patcher/archive/winfs.cpp:332-352 | The walker over native pages, in place: its writes and its ends |
| Decoration.DecoratedWalks | patcher/archive/winfs.cpp:332-352 | Afterwards a walk meets the same records with the same links; only the directory attribute of archives has been added |
| Decoration.MarkingSetsOneBit | patcher/archive/winfs.cpp:350 | Of a record only the directory bit changes; it is set if it was before, and for archives that are no metadata of the recycle bin |
| RecordFilter.NameMatches | patcher/dialogs/picker_runtime.cpp:277-295 | The loop over a type filter accepts a name exactly if one of its alternatives does |
| RecordFilter.PartsAreTheCuts | patcher/dialogs/picker_runtime.cpp:283-293 | The alternatives are the pattern cut at every semicolon and only there |
| RecordFilter.FiltersCountFromOne | patcher/dialogs/picker_runtime.cpp:281 | Filter indices count from 1; 0 stands for the first filter, too large an index for the last |
| RecordFilter.AcceptsExactly | patcher/dialogs/picker_runtime.cpp:277-295 | A name is accepted exactly if there are no filters, or some alternative of the chosen pattern, between its semicolons, is * or *.* or matches it |
| RecordFilter.FilteredClasses | patcher/dialogs/picker_runtime.cpp:476-495 | Listings of five classes are filtered, with the name at these offsets |
| RecordFilter.Inspect | patcher/dialogs/picker_runtime.cpp:506-519 | The checks of one record and the decision to keep it, read from the part of the buffer that is still untouched |
| RecordFilter.KeepRecord | patcher/dialogs/picker_runtime.cpp:520-524 | Moves a record to the front over bytes that have been read already, and links the kept record before it |
| RecordFilter.Compact | patcher/dialogs/picker_runtime.cpp:503-534 | The page becomes exactly the kept records in order with a zero last link and its exact length; it fails exactly if some record fails a check, and then the front holds the records kept before it |
| RecordFilter.CompactedWalks | patcher/dialogs/picker_runtime.cpp:503-534 | A walk of the compacted page meets exactly the kept records of a walk of the page before, with bodies unchanged |
| ListingFilter.FilteredListing | patcher/dialogs/picker_runtime.cpp:503-534 | Compacting the listing of an archive never fails and leaves exactly the listing of the folders and of the files whose name the chosen filter accepts |
| ListingFilter.QueryArchive | patcher/dialogs/picker_runtime.cpp:497-538 | Over an archive the dialog gets the first page with wanted entries, reduced to these, and hears that there are no more exactly if no page has any |
| RecordFilter.Query | patcher/dialogs/picker_runtime.cpp:497-538 | Pages of which nothing is kept are skipped; the first other answer is compacted or passed on, and of a malformed one the bytes that compacting leaves behind are described |
| RowCache.NativeRows.ReleaseRow | patcher/unicode_payload.cpp:1208-1219 | Freeing a row takes exactly its bytes off the counter |
| RowCache.NativeRows.RowVictim | patcher/unicode_payload.cpp:1221-1230 | The next slot: the first empty one, else the one unused for longest that the frame does not refer to, else none |
| RowCache.NativeRows.MakeRowRoom | patcher/unicode_payload.cpp:1232-1243 | Eviction ends, takes the oldest rows and never one of the frame, and succeeds exactly if the bytes fit beside the rows of the frame |
| RowCache.NativeRows.Maintain | patcher/unicode_payload.cpp:1245-1262 | Frame end, new fonts and budgets; it frees nothing |
| RowCache.NativeRows.Find | patcher/unicode_payload.cpp:1285-1291 | Finds the first row with the key of the packet |
| RowCache.NativeRows.Insert | patcher/unicode_payload.cpp:1444-1469 | Puts a row, of any hash, into the next slot; counter, budget and the rows of the frame stay right |
| RowCache.NativeRows.Admit | patcher/unicode_payload.cpp:1299-1322 | A shared row is inserted exactly if there is room for it |
| RowCache.NativeRows.Rasterise | patcher/unicode_payload.cpp:1326-1482 | A rasterised row is inserted exactly if it can be drawn and fits; after any failure nothing has been inserted |
| RowCache.NativeRows.FindOrCreate | patcher/unicode_payload.cpp:1271-1482 | The whole request: counter equal to the sum of the rows, at most 8 MiB, within the budget after an insertion, no row handed out in this frame freed or replaced; the row handed out is the most recently used one, and never one from before new fonts |
| RowCache.DuringFrame | patcher/unicode_payload.cpp:1225-1226 | Over any requests and notices, with and without a budget, every descriptor handed out for a hash other than 0 stays in its slot and keeps showing the memory it showed then, until a frame ends |
| RowCache.ZeroHashIsReplaced | patcher/unicode_payload.cpp:1224 | A row whose hash is 0 looks like an empty slot, so the next row put in replaces it within the same frame |
| RowCache.SameKeptTotal | patcher/unicode_payload.cpp:1232-1243 | Evictions never change the bytes of the rows that eviction has to pass over |
| RowCache.StaledAreNotFound | patcher/unicode_payload.cpp:1276-1284 | After new fonts no row is found again for a text with a hash other than 0 and a size that is not negative |
| RowCache.RasterHasBorder | patcher/unicode_payload.cpp:1376-1387 | A row takes one byte for each pixel and for a border of one pixel; what can be drawn takes 1 MiB at most |
| Utf8.DecodeOfEncode | patcher/unicode_payload.cpp:438-488 | Encoding then decoding is the identity on every Unicode scalar value (RFC 3629, section 3), whatever follows |
| Utf8.EncodeOfDecode | patcher/unicode_payload.cpp:438-488 | Whatever is consumed is the encoding of the scalar value that comes out, or one byte out of place |
| Utf8.RejectedExactly | patcher/unicode_payload.cpp:438-468 | The decoder gives up exactly on sequences of the right pattern that are no scalar value's encoding |
| Utf8.DecodeOfEncodeAll | patcher/unicode_payload.cpp:438-488 | The encoding of any scalar values decodes to just those, with nothing left over |
| Utf8.EncodingKeepsOrder | patcher/unicode_payload.cpp:470-488 | Encodings compare byte by byte as the code points do (RFC 3629, section 1) |
| Utf8.EndsExactlyOnce | patcher/unicode_payload.cpp:438-468 | Every text is decoded to its end or gets stuck, never both, after exactly one number of steps |
| Utf8.PrefixIsComplete | patcher/unicode_payload.cpp:609-619 | The bytes of the first k steps are a text of their own with the same k code points |
| WideText.CountUnits | patcher/unicode_payload.cpp:645-657 | The sizing pass counts exactly the units of the conversion, or finds where the decoder is stuck |
| WideText.FillUnits | patcher/unicode_payload.cpp:664-678 | The filling pass writes exactly as many units as were counted, then a zero, inside its array |
| WideText.ConvertUtf8ToWide | patcher/unicode_payload.cpp:645-679 | The conversion, on the caller's array or a new one; it fails exactly if the text is stuck or memory is needed and missing |
| WideText.FromUtf16OfUtf16 | patcher/unicode_payload.cpp:667-676 | Surrogate pairs lose nothing (RFC 2781, section 2) |
| WideText.BoundaryIsPoint | patcher/unicode_payload.cpp:886-900 | Every position that splits no pair is the end of some code point |
| WideText.VisiblePartOfText | patcher/unicode_payload.cpp:901-908 | Every visible part that splits no pair belongs to a prefix of the bytes whose conversion is exactly that part |
| WideText.ByteOffsetAfterCodepoints | patcher/unicode_payload.cpp:609-619 | The loop finds the offset after a number of code points, also where the text ends or is stuck before |
| WideText.VisibleUnits | patcher/unicode_payload.cpp:886-900 | The visible part takes pairs whole and goes as far as the width reaches |
| WideText.VisibleText | patcher/unicode_payload.cpp:885-908 | The bytes returned are the ones whose conversion is the visible part |
| ArabicForms.FindArabicForm | patcher/unicode_payload.cpp:421-425 | The search finds the first row for a code point |
| ArabicForms.FindsRow | patcher/unicode_payload.cpp:386-425 | Every letter of the table is found |
| ArabicForms.Found | patcher/unicode_payload.cpp:386-431 | Every letter found is no mark and has exactly the forms for the sides it joins, one after the other |
| ArabicForms.FindsExactlyLetters | patcher/unicode_payload.cpp:386-425 | Exactly the letters listed are found, each with its own row |
| ArabicForms.RowIsItsLetters | patcher/unicode_payload.cpp:386-419 | Every row stands for a letter of its own, and no two rows share a presentation form |
| ArabicForms.CommonFormsAreTaken | patcher/unicode_payload.cpp:386-405 | The presentation forms from U+FE80 to U+FEF4 are taken without a gap |
| ArabicForms.RunCodePoints | patcher/unicode_payload.cpp:427-436 | What belongs to a run, code point by code point: no digits, and nothing outside the Arabic block but the joiner |
| ArabicJoining.NeighboursAgree | patcher/unicode_payload.cpp:515-532 | A letter takes a form that joins the next one if and only if the next one takes a form that joins it |
| ArabicJoining.ShapedForm | patcher/unicode_payload.cpp:523-530 | The shaped code point is the isolated form plus a number whose first bit says that the letter joins the one before it and whose second bit says that it joins the one behind it |
| ArabicJoining.ShapedNeighboursAgree | patcher/unicode_payload.cpp:523-530 | The shaped code points of neighbours agree: one reaches out exactly if the other reaches back |
| ArabicJoining.ShapingLosesNothing | patcher/unicode_payload.cpp:515-532 | The shaped code point tells the letter it was made of, unless the text has presentation forms of its own |
| ArabicJoining.EndsDoNotJoin | patcher/unicode_payload.cpp:515-532 | At the ends of the text no letter reaches out |
| ArabicJoining.RunIsEnough | patcher/unicode_payload.cpp:565-572 | Shaping run by run loses no neighbour: whoever stands outside the run joins nobody in it |
| ArabicJoining.PreviousJoinable | patcher/unicode_payload.cpp:501-507 | Finds the neighbour before, over marks, inside the run |
| ArabicJoining.NextJoinable | patcher/unicode_payload.cpp:509-513 | Finds the neighbour behind, over marks, inside the run |
| ArabicJoining.ShapeArabicSegment | patcher/unicode_payload.cpp:515-532 | Shaping a run in place gives every letter the form that the whole text demands |
| ArabicOrder.VisualOrder | patcher/unicode_payload.cpp:574-596 | Every unit is emitted at one place and every place shows one unit: nothing is lost or doubled |
| ArabicOrder.OrderPlaces | patcher/unicode_payload.cpp:574-596 | That place, in closed form: in a run whatever stands behind a cluster goes before it |
| ArabicOrder.ClustersStay | patcher/unicode_payload.cpp:582-594 | Marks stay directly behind their base, and of two clusters the later one is shown first |
| ArabicText.OutputSize | patcher/unicode_payload.cpp:550-596 | The output takes exactly the bytes of its code points, one by one; the context never changes the size |
| ArabicText.OutputDecodes | patcher/unicode_payload.cpp:574-596 | Decoding the output gives back the shaped units in their visual order, all of them |
| ArabicText.OutputTellsTheText | patcher/unicode_payload.cpp:534-602 | The decoded output, turned back into letters, is the text in visual order, each code point once |
| ArabicText.WellFormedFits | patcher/unicode_payload.cpp:551 | Well-formed text always fits into the buffer of 2n+4 bytes |
| ArabicText.StrayBytesOverflow | patcher/unicode_payload.cpp:466-468 | Malformed text need not: a letter and k stray bytes fit exactly up to k = 5 |
| ArabicOutput.CountPoints | patcher/unicode_payload.cpp:534-548 | The first pass counts, finds out whether there are letters, or gets stuck |
| ArabicOutput.ReadUnits | patcher/unicode_payload.cpp:557-563 | The second pass reads the same code points into the units |
| ArabicOutput.ShapeRuns | patcher/unicode_payload.cpp:565-572 | All runs are shaped as the whole text demands |
| ArabicOutput.EmitRun | patcher/unicode_payload.cpp:582-595 | Writes one run, cluster by cluster from its end |
| ArabicOutput.EmitAll | patcher/unicode_payload.cpp:574-597 | Writes the whole text in visual order, one unit behind the other, in as many bytes as its code points need |
| ArabicOutput.ShapeArabic | patcher/unicode_payload.cpp:534-602 | The whole, for any bytes: what is shaped and what is left as it is, the exact output and the exact number of bytes written; well-formed text stays inside the buffer of 2n+4 |
| FilenameEditor.Editor.SetName | patcher/dialogs/native_ui.cpp:554-567 | A new name is taken exactly if it can be encoded and fits; it clears the history |
| FilenameEditor.Editor.Remember | patcher/dialogs/native_ui.cpp:709-714 | Remembers the state, 32 of them at most, and forgets what could be redone |
| FilenameEditor.Editor.Restore | patcher/dialogs/native_ui.cpp:715-729 | Undo and redo move one state between the stacks |
| FilenameEditor.Editor.Previous | patcher/dialogs/native_ui.cpp:730-736 | Goes back over exactly one code point |
| FilenameEditor.Editor.Next | patcher/dialogs/native_ui.cpp:737-743 | Goes forward over exactly one code point |
| FilenameEditor.Editor.Move | patcher/dialogs/native_ui.cpp:744-749 | Moves the cursor, and the anchor unless the selection is extended |
| FilenameEditor.Editor.Replace | patcher/dialogs/native_ui.cpp:750-768 | Replaces the selection in place, exactly if the text can be encoded, has no line breaks or tabs and fits; otherwise nothing changes |
| FilenameSession.AcceptsExactly | patcher/dialogs/native_ui.cpp:750-757 | That is: no half of a surrogate pair stands alone, no line break, no tab, and the name gets no longer than 65532 bytes |
| FilenameEditor.Editor.SelectFilename | patcher/dialogs/native_ui.cpp:591-606 | Selects the name without folder and extension, or the extension |
| FilenameEditor.NameParts | patcher/dialogs/native_ui.cpp:594-604 | What these parts are: no separator and no further dot is left in them |
| FilenameEditor.Editor.SelectAll | patcher/dialogs/native_ui.cpp:1000-1005 | Selects the whole name |
| FilenameEditor.Editor.Arrow | patcher/dialogs/native_ui.cpp:1023-1037 | The arrow keys: collapse, one code point, or with control one code point and on to the nearest delimiter, passing none |
| FilenameEditor.Editor.Erase | patcher/dialogs/native_ui.cpp:1038-1045 | Backspace and delete; undoing gives bytes and cursor back, and the anchor if and only if there was a selection |
| FilenameEditor.Editor.Type | patcher/dialogs/native_ui.cpp:1048-1066 | Character messages, with surrogate halves put together |
| FilenameEditor.TypedIsOneCharacter | patcher/dialogs/native_ui.cpp:1048-1066 | Control characters insert nothing, the halves of a pair need each other, and every other unit inserts one character |
| FilenameSession.Session | patcher/dialogs/native_ui.cpp:554-768 | After any keys: well-formed UTF-8 of at most 65532 bytes, cursor and anchor on code points, at most 32 states kept; typing, pasting and undoing never bring in a line break or a tab |
| FilenameText.Spliced | patcher/dialogs/native_ui.cpp:756-766 | Replacing between two boundaries keeps the text well-formed, with a boundary behind the new part |
| FilenameText.AsciiStandsAlone | patcher/dialogs/native_ui.cpp:592-599 | An ASCII delimiter is a code point of its own wherever it stands |
| EditHistory.DepthIsKept | patcher/dialogs/native_ui.cpp:709-729 | Edits, undos and redos never keep more than 32 states in both stacks together |
| EditHistory.UndoRevertsEdit | patcher/dialogs/native_ui.cpp:709-729 | Undo right after an edit restores bytes, anchor and cursor |
| EditHistory.UndosThenRedos | patcher/dialogs/native_ui.cpp:715-729 | Any j undos followed by j redos lead back if and only if there were j states to undo or nothing to redo at first |
| EditHistory.UndosRevertEdits | patcher/dialogs/native_ui.cpp:709-729 | After any edits in a row, j undos restore the state before the last j of them, up to j = 32 |
| Packets.Writer.Number | patcher/dialogs/protocol.h:60-65 | Appends a number; it fails only if the whole packet is too large |
| Packets.Writer.String | patcher/dialogs/protocol.h:66-72 | Appends a string; it fails only if the string or the whole packet is too large |
| Packets.Reader.Number | patcher/dialogs/protocol.h:81-88 | Reads a number and accounts for its bytes; it never fails on a packet that has one there |
| Packets.Reader.String | patcher/dialogs/protocol.h:89-99 | Reads a string without zeros and accounts for its bytes; it never fails on a packet that has one there |
| Packets.Reader.End | patcher/dialogs/protocol.h:100-103 | Accepts exactly if nothing is left over |
| DialogProtocol.EncodeRequest | patcher/dialogs/protocol.h:105-131 | Encoding succeeds exactly if counts, strings and size are within their limits, and then gives the packet |
| DialogProtocol.CanEncodeExactly | patcher/dialogs/protocol.h:60-131 | That is: strings of at most 32767 characters, lists of at most 128 entries, and a packet of at most 512 KiB, counted field by field |
| DialogProtocol.DecodeRequest | patcher/dialogs/protocol.h:132-164 | Whatever is accepted is a packet of the result; every packet of any request is accepted with that request as the result |
| DialogProtocol.PacketsAreRegular | patcher/dialogs/protocol.h:89-164 | A packet means nothing with a zero in a string, too long, or of an unknown mode |
| DialogProtocol.EncodedIsPacket | patcher/dialogs/protocol.h:105-164 | An encoded request with regular strings and mode is a packet |
| DialogProtocol.SendRequest | patcher/dialogs/protocol.h:105-164 | Encode then decode gives the request back |
| DialogProtocol.AcceptedEncodesAgain | patcher/dialogs/protocol.h:105-164 | Encoding an accepted request again gives the same bytes but for the three flags, which become 0 or 1 |
| DialogProtocol.ResendRequest | patcher/dialogs/protocol.h:105-164 | The same through both methods; each flag sent on is the accepted packet's own flag made 0 or 1 |
| DialogProtocol.EncodeResult | patcher/dialogs/protocol.h:165-176 | The same for results: encoding |
| DialogProtocol.DecodeResult | patcher/dialogs/protocol.h:177-190 | Decoding of results, exact in both directions |
| DialogProtocol.SendResult | patcher/dialogs/protocol.h:165-190 | Encode then decode gives the result back |
| DialogProtocol.AcceptedResultEncodesAgain | patcher/dialogs/protocol.h:165-190 | Encoding an accepted result again changes at most its flag |
| MaskedSearch.ParseMaskedPattern | patcher/patch_filepilot.py:244-254 | A signature parses exactly if each token is a wildcard or a byte, to its values and mask |
| MaskedSearch.LongestFixedRun | patcher/patch_filepilot.py:257-268 | The anchor is the first one of the longest fixed runs |
| MaskedSearch.FindMasked | patcher/patch_filepilot.py:271-288 | The search returns what the plain comparison at every offset finds, overlapping matches included; it is refused exactly if no four bytes in a row are fixed |
| MaskedSearch.NaiveIsExact | patcher/patch_filepilot.py:285 | The plain comparison lists the matching offsets in increasing order, each once |
| MaskedSearch.FindSignature | patcher/patch_filepilot.py:271-288 | From tokens to matches, increasing and each once: an offset is found if and only if every fixed byte of the signature stands there; refused exactly if a token is wrong or no four tokens in a row are fixed |

## Left out

What the models abstract from:

- Win32, COM, DirectWrite, 7-Zip and File Pilot's own functions: their results are parameters or steps that may go either way; wildcard matching and the reading of hexadecimal numbers are function parameters.
- Standby: clocks, memory pressure, lock timeouts and deaths are nondeterministic; tickets, process ids and request ids are fresh, so their reuse and wrap-around are not modelled; the two events only wake waiters and are not state; thread ids and birth times are part of "the owner is alive".
- Standby: the branch of Deliver that cannot get its lock back is a step of the protocol, but the theorems on its result are about those that do.
- Menus: telemetry counters, and the hashing behind a key; two menus are the same if every field of their keys agrees.
- Shared records: the bounded copy of the policy is one character per step in order; memory order is sequentially consistent and generations are unbounded.
- Archive stream: decoders that fail, and reads of a physical file that deliver nothing; reference counts and locking.
- Directory listings: events and asynchronous calls, which the code does not support; entry numbers are 32 bits as in the code.
- Row cache: the pixels themselves, glyph caching, and the other users of the use clock.
- Text: unit counts are unbounded where the code has 32 bits; fonts, layout and widths are given by an oracle.
- Shaping: the writing does not stop at the end of its buffer, so the array of the model stands for the buffer of 2n+4 bytes and the memory behind it; what lies in that memory is not modelled, and how many bytes are written is stated exactly.
- Filename editor: drawing, the mouse, the clipboard's own operations, and input methods (their text arrives as pasted text).
- Packets: which message a failed encoding or decoding carries.
- MaskedSearch.FindSignature: takes the tokens of a signature, not the text they are split from.

Parts of the repository that are not modelled, because they depend on a binary that is not in it or would only add easy members: hook installation and code emission, PE rewriting, manual image loading, the external dialog windows and their agent, tray and registry code, painting, and measurements.
