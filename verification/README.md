# Verified model of pcsc-lite's reader daemon core

pcsc-lite lets many programs share smart card readers. Its daemon keeps a table of
readers; each reader keeps a handle table, a context count, a transaction lock that
nests, an event word per handle and a status word that a polling thread and the
calls both write. This project models that core, the linked list it is built on, the
answer-to-reset decoder in front of it, the status comparison behind it, and two
smaller transfers. `dafny verify dfyconfig.toml` checks everything.

| file | what it holds |
|---|---|
| `Wrappers.dfy` | shared types |
| `SimcList.dfy`, `ListSort.dfy`, `ListDump.dfy`, `DumpFormat.dfy` | the linked list as heap objects refining a plain sequence, its in-place sort, its binary dump, and the bytes of that dump |
| `EventClients.dfy` | the queue of waiting clients, a client of the list |
| `StatusWord.dfy` | the 32-bit status word and its flag updates |
| `Atr.dfy`, `AtrRoundTrip.dfy`, `Protocols.dfy` | decoding an answer to reset (section 8.2 of ISO/IEC 7816-3:2006), encoding one, choosing a protocol |
| `Readers.dfy` | the transitions of one reader, as functions: the specification |
| `Sharing.dfy`, `Calls.dfy`, `Sessions.dfy` | the reader invariant, what each call keeps, the state machine over the whole table and its runs |
| `LockRuns.dfy`, `EventRuns.dfy`, `EventCounting.dfy` | lock ownership, sticky notification and event counting over runs |
| `CallAnswers.dfy`, `SessionAnswers.dfy`, `CardAnswers.dfy` | when each call succeeds and what it changes, said on the fields alone |
| `ReaderContext.dfy` | the reader context and the reader table as objects updated in place, proved to do exactly one step of that state machine |
| `HandleDraw.dfy` | drawing a random handle |
| `StatusChange.dfy` | the client's comparison of a status word with what it knew |
| `DriverCounts.dfy`, `DriverAnswers.dfy` | driver and mutex reference counts, and what plugging in a reader does to the table |
| `ObjectChunks.dfy`, `MultiString.dfy` | chunked object transfer, reader names as a multi-string |

How to read it: a call of the daemon is one atomic step. What drivers answer, which
pivot or handle is drawn and which call comes next are unconstrained. A call that
would sleep until a lock is free answers `Waiting` and changes nothing, and is resumed
by a step of its own. Bit masks of
protocols are sets of bits, the status word is a record of its flags with a proved
encoding into 32 bits, and integers are unbounded except where the source's width
matters (the event counter, the index arithmetic of list_delete_range, the totals of
a dump). Table sizes are parameters. The constants come from
PCSC/src/PCSC/pcsclite.h.in, PCSC/src/pcscd.h.in and
libmusclecard/src/PCSC/musclecard.h.

Where a promise turned out not to hold everywhere, the project keeps the code as it
is, gives a failing case and states exactly when the promise holds:

- deleting the whole list as a range: the new middle index wraps and the walk to it
  leaves the list (`RangeMidOnChain`, `RangeMoveOnChain`);
- dumping a list with elements of different sizes (`RoundTripExactly`, `VariableSizeFails`);
- a dump with a wrong total length is still accepted when its trailing terminator is wrong
  as well (`TakenExactly`);
- a connect that waited for a lock does not look again whether the reader has become
  exclusive (`ConnectResumedKeepsExactly`, `WaitingConnectBreaksCount`);
- a disconnect that waited does not look again whether its handle still exists
  (`DisconnectResumedKeepsExactly`, `WaitingDisconnectBreaksCount`);
- a drawn handle can be in use already (`FreshExactly`, `AlwaysFreshExactly`,
  `DifferentDrawsFreshExactly`, `DrawCanCollide`); `EnabledExactly` ties this to the runs;
- a reset by Reconnect tells the other handles only when the caller had no event
  pending itself (`ReconnectNotifiesExactly`), and it counts the card as powered whatever
  the driver answered (`PoweredExactly`);
- any handle can freeze the lock of another by ending a transaction with a reset
  (`OtherFreezes`, `FrozenLock`);
- a protocol preference can be answered with another protocol (`PreferenceHonoured`,
  `PreferenceNotHonoured`);
- TA2 counts only when TD2 is present, and T=15 does not bring a check byte
  (`Ta2NeedsTd2`, `LengthExact`, `T15CheckByteMissed`); a decoded string can run over the
  historical bytes (`HistoryExact`, `LongValue`);
- the shift loop for an undefined protocol never ends (`ShiftEnds`, `AnyOldEnds`);
- a client is not woken when a reader is taken into use (`DetectsExactly`,
  `TakingUpUseIsMissed`), CHANGED can be missing (`ChangedExactly`), a stale EXCLUSIVE
  flag can be reported (`ReportOverPasses`, `StaleExclusive`), and a caller that starts
  unaware never gets an event counter (`TrackedExactly`, `UnawareNeverTracks`);
- a driver library is never closed again once a clone or a further slot failed to
  initialise (`AccountingOverRuns`, `AllClosedInTheEnd`);
- an empty reader name cuts the list of names short (`MultiString.RoundTrip`).

Where code and documentation differ the model follows the code: the header comment of
list_delete_range promises the number of removed elements, the code returns 0; the
dump's format comment says that all integers are in network byte order, the length
prefixes are written raw; the comment on the TCK test speaks of more than T=0, the
test looks at T=1 only.

## Model

| member | source | states |
|---|---|---|
| SimcList.List.FindPos | PCSC/src/simclist.c:353-377 | for every position from -1 to numels, in all four quarter branches and on the empty list, the node a plain walk from the head sentinel reaches, sentinels included; null outside that range |
| SimcList.List.Init | PCSC/src/simclist.c:184-218 | an empty valid list on fresh sentinels with an empty spare pool |
| SimcList.List.TakeNode | PCSC/src/simclist.c:402-410 | takes a spare node or a new one; it is neither in the chain nor left in the pool |
| SimcList.List.LinkAt | PCSC/src/simclist.c:422-430 | the chain becomes the old chain with the node put in at the position; prev and next stay mutually inverse |
| SimcList.List.FixMidAfterInsert | PCSC/src/simclist.c:432-439 | the parity arithmetic puts mid back at index (numels-1)/2 |
| SimcList.List.InsertAt | PCSC/src/simclist.c:397-443 | succeeds exactly when no iterator is active and pos <= numels; then the contents are the old ones with the element inserted at pos; all of Valid (links, mid index, pool of at most 5 distinct nodes apart from the chain) is kept. Append and prepend are pos = numels and pos = 0 |
| SimcList.List.DropElem | PCSC/src/simclist.c:1272-1296 | removes exactly the element at pos, keeps mid, links and pool |
| SimcList.List.DeleteAt | PCSC/src/simclist.c:446-462 | fails for an active iterator or a bad position, otherwise the contents lose exactly element pos |
| SimcList.List.ExtractAt | PCSC/src/simclist.c:379-395 | as DeleteAt, and returns the element that stood at pos |
| SimcList.RangeMidOnChain | PCSC/src/simclist.c:475-479 | the 32-bit index arithmetic names a surviving element if and only if the range is not the whole list; for the whole list the subtraction wraps to an index far behind the tail |
| SimcList.RangeMoveOnChain | PCSC/src/simclist.c:475-486 | the signed walk from the old middle ends on the middle of what remains, or leaves the list at its head if and only if the whole list is to go |
| SimcList.MidSurvives | PCSC/src/simclist.c:475-479 | the element at the computed index is the one at (numels-1)/2 of what remains |
| SimcList.List.MoveMid | PCSC/src/simclist.c:475-486 | walks mid by the signed offset before anything is unlinked |
| SimcList.List.StowRun | PCSC/src/simclist.c:488-513 | the nodes of the range go to the pool as long as it has room |
| SimcList.List.DeleteRange | PCSC/src/simclist.c:464-524 | every proper sub-range: exactly that slice goes and links, mid and pool are kept; reversed or out-of-range bounds and active iterators are refused; the whole list, and any range of a list whose size does not fit an int, end on a null pointer |
| SimcList.List.Clear | PCSC/src/simclist.c:526-566 | empties the list unless an iterator is active; first nodes are pooled, the pool bound is kept |
| SimcList.List.Locate | PCSC/src/simclist.c:576-594 | index of the first element that compares equal, or -1 when none does |
| SimcList.List.IteratorStart | PCSC/src/simclist.c:837-843 | refused while a session is active; otherwise starts at element 0 |
| SimcList.List.IteratorNext | PCSC/src/simclist.c:845-855 | yields the element at the iterator position, or nothing behind the last one, and advances by one |
| SimcList.List.IteratorStop | PCSC/src/simclist.c:862-867 | ends the session and says whether there was one |
| SimcList.CopyBoth | PCSC/src/simclist.c:627-649 | a linked run of fresh nodes that carries the concatenated contents, with the last node of the first copy remembered |
| SimcList.List.FixMidAfterConcat | PCSC/src/simclist.c:651-659 | the two truncating divisions move mid to (n1+n2-1)/2 for all n1 and n2, either of them possibly 0 |
| SimcList.List.ConcatFrom | PCSC/src/simclist.c:612-663 | the destination becomes the concatenation on fresh nodes; refused when it is one of the sources |
| ListSort.SelectionSort | PCSC/src/simclist.c:693-712 | sorts the range for every total preorder; only data inside the range moves |
| ListSort.MeetAtPivot | PCSC/src/simclist.c:749-767 | the two ends close in on the pivot: nothing above it is left of the left end, nothing below it right of the right end |
| ListSort.DrainLeft | PCSC/src/simclist.c:769-783 | the rotate-past-pivot loop ends with the range split at the pivot, and pivotid is the true offset of the pivot |
| ListSort.DrainRight | PCSC/src/simclist.c:784-799 | the mirror loop: split at the pivot, pivotid true |
| ListSort.FindPivot | PCSC/src/simclist.c:739-747 | the node at offset pivotid, from whichever end is nearer |
| ListSort.Partition | PCSC/src/simclist.c:739-799 | for every choice of pivot: rearranges the range and splits it at the returned pivot |
| ListSort.QuickSort | PCSC/src/simclist.c:714-835 | terminates with last-first as measure; the range is a sorted rearrangement, the rest untouched, for every random pivot |
| ListSort.SortedFromSplit | PCSC/src/simclist.c:801-834 | sorting both sides of a split range sorts the range |
| ListSort.RearrangedFrom | PCSC/src/simclist.c:693-835 | every element of a rearranged range was in that range before |
| ListSort.VersusPreorder | PCSC/src/simclist.c:665-682 | multiplying the comparator by either direction gives a total preorder again |
| ListSort.Sort | PCSC/src/simclist.c:665-682 | for either direction the contents become a sorted permutation; no link, no sentinel and not mid is written; refused for an active iterator or without comparator |
| ListDump.NetRoundTrip | PCSC/src/simclist.c:1093-1112 | header integers in network byte order read back; which bytes they are: DumpFormat.NetBytes |
| ListDump.HostRoundTrip | PCSC/src/simclist.c:1063-1067 | raw length prefixes read back |
| ListDump.HeaderBack | PCSC/src/simclist.c:1131-1163 | all fields of the 30-byte header read back |
| ListDump.WriteContent | PCSC/src/simclist.c:1040-1096 | the content loop writes Data: plain elements while the lengths agree, and after the first different length the prefixed form behind what was already written, with whatever bytes a wider size_t drags along behind each length; the total is the sum of the sizes modulo 2^32 |
| ListDump.ReadContent | PCSC/src/simclist.c:1166-1211 | the two read loops give the elements and the remaining bytes, or an error on a short file |
| ListDump.RestorableBack | PCSC/src/simclist.c:1213-1235 | a restorable dump is accepted whatever the trailing terminator holds |
| ListDump.RoundTripExactly | PCSC/src/simclist.c:980-1242 | dump then restore gives the list back if and only if it is empty, has one common non-zero element length, or starts with an empty element where size_t has 32 bits |
| ListDump.DataTooLong | PCSC/src/simclist.c:1052-1067 | any other list writes more bytes than its prefixed elements need |
| ListDump.VariableSizeFails | PCSC/src/simclist.c:1052-1061 | two elements of lengths 1 and 2 do not survive |
| EventClients.Clients.Register | PCSC/src/eventhandler.c:48-57 | appends the descriptor to the queue |
| EventClients.Clients.Unregister | PCSC/src/eventhandler.c:59-78 | removes exactly the first registration, or reports an error when there is none |
| EventClients.Clients.SignalAll | PCSC/src/eventhandler.c:83-103 | every waiting client is signalled once, in registration order, and the queue is empty afterwards |
| StatusWord.DecodeEncode | PCSC/src/eventhandler.c:252-260 | the flag fields come back from the 32-bit status word |
| StatusWord.EncodeDecode | PCSC/src/eventhandler.c:252-260 | every 32-bit number is the encoding of its fields |
| StatusWord.IncrementOnNumber | PCSC/src/eventhandler.c:252-260 | incrementEventCounter adds 1 modulo 2^16 in the high half and keeps the low half |
| ReaderContexts.ReaderContext.AddReaderHandle | PCSC/src/readerfactory.c:1149-1168 | the first free slot takes the handle, or failure and no change |
| ReaderContexts.ReaderContext.RemoveReaderHandle | PCSC/src/readerfactory.c:1170-1189 | the first slot with the handle becomes free, or failure and no change |
| ReaderContexts.ReaderContext.SetReaderEventState | PCSC/src/readerfactory.c:1191-1210 | every used slot gets the event; a removal also frees the lock |
| ReaderContexts.ReaderContext.CheckReaderEventState | PCSC/src/readerfactory.c:1212-1238 | the answer for the event recorded for that handle |
| ReaderContexts.ReaderContext.ClearReaderEventState | PCSC/src/readerfactory.c:1240-1255 | only the slots of that handle are cleared |
| ReaderContexts.ReaderContext.LockSharing | PCSC/src/readerfactory.c:939-956 | refines Lock: raises the count for the owner or a free lock, otherwise a sharing violation |
| ReaderContexts.ReaderContext.UnlockSharing | PCSC/src/readerfactory.c:958-979 | refines Unlock: the last release clears the owner |
| ReaderContexts.ReaderContext.UnlockAllSharing | PCSC/src/readerfactory.c:981-1000 | refines UnlockAll |
| ReaderContexts.ReaderContext.NegotiateProtocol | PCSC/src/winscard.c:365-426 | refines Negotiate: the protocol word and the error it gives |
| ReaderContexts.ReaderContext.SCardConnect | PCSC/src/winscard.c:256-509 | the in-place call computes the transition Connect, error paths included |
| ReaderContexts.ReaderContext.ConnectFree | PCSC/src/winscard.c:332-509 | SCardConnect behind its wait computes ConnectResumed, the reader removed meanwhile included |
| ReaderContexts.ReaderContext.ResetForReconnect | PCSC/src/winscard.c:570-680 | refines ReconnectReset |
| ReaderContexts.ReaderContext.ReshareForReconnect | PCSC/src/winscard.c:757-815 | refines Reshare |
| ReaderContexts.ReaderContext.SCardReconnect | PCSC/src/winscard.c:511-819 | the in-place call computes Reconnect |
| ReaderContexts.ReaderContext.PowerCycleCard | PCSC/src/winscard.c:872-930 | refines PowerCycle |
| ReaderContexts.ReaderContext.SCardDisconnect | PCSC/src/winscard.c:821-1001 | the in-place call computes Disconnect |
| ReaderContexts.ReaderContext.DisconnectFree | PCSC/src/winscard.c:856-1001 | SCardDisconnect behind its wait computes DisconnectResumed |
| ReaderContexts.ReaderContext.SCardBeginTransaction | PCSC/src/winscard.c:1003-1046 | the in-place call computes Begin |
| ReaderContexts.ReaderContext.SCardEndTransaction | PCSC/src/winscard.c:1048-1197 | the in-place call computes End |
| ReaderContexts.ReaderContext.SCardCancelTransaction | PCSC/src/winscard.c:1199-1233 | the in-place call computes Cancel |
| ReaderContexts.ReaderContext.UseGate | PCSC/src/winscard.c:1424-1468 | the checks in front of GetAttrib, SetAttrib and Transmit in the order of the source |
| ReaderContexts.ReaderContext.SCardControl | PCSC/src/winscard.c:1365-1422 | the checks of SCardControl, the empty send buffer for a version 2.0 driver included |
| ReaderContexts.ReaderContext.SCardTransmit | PCSC/src/winscard.c:1516-1670 | the checks of SCardTransmit in order; when the driver is reached, the protocol number it gets: 1 for T=1, 4 for RAW, the index of the negotiated bit for ANY_OLD, 0 otherwise; ANY_OLD without a negotiated protocol never returns |
| ReaderContexts.ReaderContext.SCardStatus | PCSC/src/winscard.c:1235-1348 | the checks of SCardStatus in the order of the source |
| ReaderContexts.ReaderContext.FirstLook | PCSC/src/eventhandler.c:280-345 | start of the polling thread: status word, ATR and remembered state from the first driver answers |
| ReaderContexts.ReaderContext.PollOnce | PCSC/src/eventhandler.c:352-486 | one turn of the polling loop computes Poll |
| ReaderContexts.ReaderContext.Attach | PCSC/src/readerfactory.c:157-173 | a slot taken into use starts with no contexts, no lock and no handles |
| ReaderContexts.ReaderTable.ReaderInfoById | PCSC/src/readerfactory.c:716-734 | first slot whose identity is the high half of the handle |
| ReaderContexts.ReaderTable.FindReaderHandle | PCSC/src/readerfactory.c:1122-1141 | found exactly when some live reader has the handle in its table |
| ReaderContexts.ReaderTable.ByCardHandle | PCSC/src/winscard.c:1003-1046 | a call with a handle does exactly one step of the state machine on the heap |
| ReaderContexts.ReaderTable.BySlot | PCSC/src/winscard.c:256-509 | so do connecting, polling, adding and removing a reader |
| ReaderContexts.ReaderTable.RunCalls | PCSC/src/winscard.c:256-1670 | any sequence of calls on the heap objects goes through the run of the state machine, gives its results, and keeps the invariant of every reader, from start-up on |
| HandleDraw.CreateReaderHandle | PCSC/src/readerfactory.c:1082-1120 | the redraw loop hands out the draw that DrawsTaken counts |
| HandleDraw.FreshExactly | PCSC/src/readerfactory.c:1090-1117 | the handle is fresh if and only if the draws never fall back: no draw that is in use in an already passed slot follows a climb through used slots |
| HandleDraw.FirstDrawFresh | PCSC/src/readerfactory.c:1090-1117 | a first draw that is not in use is handed out |
| HandleDraw.AlwaysFreshExactly | PCSC/src/readerfactory.c:1090-1117 | fresh whatever random numbers are drawn if and only if no handle that can be drawn for this reader is in use |
| HandleDraw.DifferentDrawsFreshExactly | PCSC/src/readerfactory.c:1088-1117 | fresh for all draws in which the numbers actually taken differ if and only if at most one drawable handle is in use |
| HandleDraw.DrawCanCollide | PCSC/src/readerfactory.c:1090-1117 | two runs for the first reader that hand out a handle already in use |
| HandleDraw.InUseFound | PCSC/src/readerfactory.c:1122-1141 | the handles of the scan are those RFFindReaderHandle finds |
| HandleDraw.EnabledExactly | PCSC/src/readerfactory.c:1082-1120 | the handle that RFCreateReaderHandle draws for a live reader, free slots of the scan included, is one the runs allow, if and only if the draws do not fall back on the handles in use |
| SharingInvariant.AddKeeps | PCSC/src/readerfactory.c:1149-1168 | one more handle, table legal, nothing lost |
| SharingInvariant.RemoveKeeps | PCSC/src/readerfactory.c:1170-1189 | one handle less, and that handle is gone |
| SharingInvariant.MarkKeeps | PCSC/src/readerfactory.c:1191-1210 | marking keeps the invariant and every handle in its slot |
| SharingInvariant.ClearKeeps | PCSC/src/readerfactory.c:1240-1255 | clearing keeps the invariant and every handle in its slot |
| SharingInvariant.NegotiateKeeps | PCSC/src/winscard.c:365-426 | protocol word stays UNDEFINED, T0, T1 or RAW, and is T0 or T1 on success of a call that is neither direct nor raw |
| CallsKeepInvariant.ExclusiveFindsSlot | PCSC/src/winscard.c:455-499 | an exclusive connect always finds a free slot |
| CallsKeepInvariant.ConnectResumedKeepsExactly | PCSC/src/winscard.c:323-499 | behind the wait the invariant survives if and only if the call does not go on, not exclusively, on a reader that has become exclusive |
| CallsKeepInvariant.WaitingConnectBreaksCount | PCSC/src/winscard.c:323-329 | a run in which a waiting connect ends with two handles and a context count of zero |
| CallsKeepInvariant.ConnectKeeps | PCSC/src/winscard.c:256-509 | keeps the reader invariant |
| CallsKeepInvariant.ConnectDelivers | PCSC/src/winscard.c:455-509 | success gives a live handle, the published count, the lock if exclusive, and T0 or T1 unless direct or raw; failure leaves the sharing state alone |
| CallsKeepInvariant.ReconnectKeeps | PCSC/src/winscard.c:511-819 | keeps the reader invariant, reports T0 or T1 unless direct or raw, publishes the count |
| CallsKeepInvariant.DisconnectKeeps | PCSC/src/winscard.c:821-1001 | keeps the invariant; on success the handle and the lock are gone, on failure nothing changed |
| CallsKeepInvariant.DisconnectResumedKeepsExactly | PCSC/src/winscard.c:847-865 | behind the wait the invariant survives if and only if the handle is still there or nobody is connected |
| CallsKeepInvariant.PoweredExactly | PCSC/src/winscard.c:602-652 | after a reset through Disconnect or End the card counts as powered if and only if the driver says so, through Reconnect always |
| CallsKeepInvariant.AnyOldEnds | PCSC/src/winscard.c:1609-1619 | on every reader in a reachable state the shift loop ends if and only if a protocol is negotiated, and its result names that protocol |
| CallsKeepInvariant.BeginKeeps | PCSC/src/winscard.c:1003-1046 | keeps the reader invariant |
| CallsKeepInvariant.EndKeeps | PCSC/src/winscard.c:1048-1197 | keeps the reader invariant for every driver answer |
| CallsKeepInvariant.CancelKeeps | PCSC/src/winscard.c:1199-1233 | keeps the reader invariant |
| CallsKeepInvariant.PollKeeps | PCSC/src/eventhandler.c:352-486 | keeps it for arbitrary driver answers: one of ABSENT, PRESENT, UNKNOWN; POWERED iff NEGOTIABLE; POWERED implies PRESENT and not SWALLOWED; never SPECIFIC |
| CallsKeepInvariant.AttachKeeps | PCSC/src/readerfactory.c:402-477 | taking a slot into use keeps the invariant |
| CallsKeepInvariant.DetachKeeps | PCSC/src/readerfactory.c:454-468 | giving a slot up keeps the invariant |
| Sessions.HandleRoutes | PCSC/src/readerfactory.c:716-734 | every live handle is found and routed back to its own reader by its high 16 bits |
| Sessions.ResumeKeepsExactly | PCSC/src/winscard.c:323-335 | a connect or disconnect that goes on behind its wait keeps the invariant of the table if and only if what it checked before still holds |
| Sessions.WaitingDisconnectBreaksCount | PCSC/src/winscard.c:844-865 | a run that breaks it: while a disconnect waits, its reader is unplugged and plugged in again and another handle connects |
| Sessions.StepKeeps | PCSC/src/winscard.c:256-1233 | every step of the table keeps the invariant of every reader |
| Sessions.InvariantOverRuns | PCSC/src/winscard.c:256-1233 | over every run, calls resumed behind their wait included: number of used slots is 1 for an exclusive reader and dwContexts otherwise, lock count 0 iff no owner, the owner is a live handle, status word coherent, protocol legal |
| Sessions.ReachableInvariant | PCSC/src/readerfactory.c:55-69 | all of this in every state reachable from start-up |
| LockRuns.OthersBlocked | PCSC/src/readerfactory.c:923-1000 | while h owns the lock, Begin, Reconnect, Cancel, Disconnect, Transmit, Control and attribute calls by other handles fail, and none of their calls touches owner or count |
| LockRuns.OwnCalls | PCSC/src/readerfactory.c:939-1000 | each of the owner's calls raises, lowers, frees or keeps the lock as its kind and result say |
| LockRuns.StepEffect | PCSC/src/winscard.c:821-1233 | any step of the system: only the owner's End, Cancel, Reconnect, Disconnect or a card or reader removal lowers or clears the lock |
| LockRuns.NestedLocks | PCSC/src/readerfactory.c:939-979 | as long as a run, with acquisitions and releases of its own inside it, stays ahead, the count is acquisitions minus releases and h owns the lock |
| LockRuns.HeldExactly | PCSC/src/readerfactory.c:939-979 | h owns the lock through the whole run if and only if at every point more acquisitions than releases have happened and nothing frees the lock outright: n acquisitions need n releases and are ended by them |
| LockRuns.ExclusionOverRuns | PCSC/src/readerfactory.c:923-937 | over every run that stays ahead no connect to the reader and no locked call by another handle succeeds at any point |
| LockRuns.DisconnectReleasesAll | PCSC/src/winscard.c:860-993 | the owner's Disconnect succeeds and releases all nested acquisitions at once |
| EventRuns.StepNotified | PCSC/src/readerfactory.c:1212-1255 | a pending event survives every step but the handle's own successful Reconnect or Disconnect and the loss of the reader |
| EventRuns.StickyOverRuns | PCSC/src/winscard.c:1003-1670 | over every such run no Begin, End, Cancel, Status, Transmit, Control, GetAttrib or SetAttrib with that handle succeeds |
| EventRuns.ResetNotifiesOthers | PCSC/src/winscard.c:897-925 | a reset by Disconnect or End marks every other live handle of the reader |
| EventRuns.ReconnectNotifiesExactly | PCSC/src/winscard.c:598-680 | a reset by Reconnect marks the others if and only if the caller had no event pending itself |
| EventRuns.FrozenLock | PCSC/src/winscard.c:1076-1103 | the lock of an owner with a pending event is frozen: over every run, until its own Reconnect or Disconnect or a removal, owner and count stay as they are |
| EventRuns.OtherFreezes | PCSC/src/winscard.c:1084-1140 | the End of any other handle with a reset brings this about, because its power action is not tied to the lock |
| EventCounting.PollCounts | PCSC/src/eventhandler.c:384-456 | a polling turn counts exactly the insertions and removals it records |
| EventCounting.StepCounts | PCSC/src/eventhandler.c:352-486 | no other step moves the counter of a reader that stays attached |
| EventCounting.CounterOverRuns | PCSC/src/eventhandler.c:252-260 | over every run the counter grows by the number of card movements modulo 2^16 |
| EventCounting.CounterDetectsExactly | PCSC/src/winscard_clnt.c:1966-1986 | the client comparison sees the movements if and only if it holds a non-zero counter and their number is no multiple of 2^16; then the call wakes |
| StatusChange.CompareReader | PCSC/src/winscard_clnt.c:1950-2147 | one flag-by-flag pass wakes as Wakes says and turns the event word of the pass before into that of Pass |
| StatusChange.WatchAll | PCSC/src/winscard_clnt.c:1861-2165 | the loop over all readers ends with the first pass in which any of them wakes the caller, and every reader is reported on as in all the passes so far |
| StatusChange.ReportOverPasses | PCSC/src/winscard_clnt.c:1861-2147 | after any number of passes the caller is told the report on the last one, exactly unless that one sees shared use of an empty reader while an EXCLUSIVE flag lingers |
| StatusChange.StaleExclusive | PCSC/src/winscard_clnt.c:2091-2115 | a reader in shared use that is reported exclusive |
| StatusChange.Quiescent | PCSC/src/winscard_clnt.c:1950-2147 | feeding back what any number of passes reported does not wake the caller while nothing changes |
| StatusChange.DetectsExactly | PCSC/src/winscard_clnt.c:1950-2147 | which later states wake a caller that fed a report back: another card class, another tracked counter, or use being given up, and nothing else |
| StatusChange.TakingUpUseIsMissed | PCSC/src/winscard_clnt.c:2090-2135 | a reader that becomes used, even exclusively, does not wake it |
| StatusChange.ChangedExactly | PCSC/src/winscard_clnt.c:1988-2011 | CHANGED accompanies every return except for an unreadable reader the caller already knows |
| StatusChange.TrackedExactly | PCSC/src/winscard_clnt.c:1966-1992 | a caller that feeds reports back keeps a counter if and only if it brought one and no report came from an unreadable reader or with a counter at zero |
| StatusChange.UnawareNeverTracks | PCSC/src/winscard_clnt.c:1966-1986 | a caller that starts unaware never gets a counter and is never woken by one |
| Atr.Decode | PCSC/src/atrhandler.c:43-252 | the decoder computes DecodeSpec for every byte string, rejects included, and with the historical bytes that a string of more than MAX_ATR_SIZE bytes runs over |
| Atr.ReadGroups | PCSC/src/atrhandler.c:108-216 | the interface-byte loop computes Scan and stays within MAX_ATR_SIZE |
| Atr.SelectProtocol | PCSC/src/atrhandler.c:126-203 | the protocol masks after one group |
| Atr.CurrentIsOffered | PCSC/src/atrhandler.c:126-225 | every successful decode gives current in {T0, T1}, contained in available |
| AtrRoundTrip.ScanBytes | PCSC/src/atrhandler.c:108-216 | scanning the bytes of any chain computes what the chain asks for and stops right behind it |
| AtrRoundTrip.DecodeEncoded | PCSC/src/atrhandler.c:43-252 | decoding any encoded ATR: rejected exactly when its chain is, otherwise convention and masks come back and the historical bytes are taken from their place |
| AtrRoundTrip.AcceptedExactly | PCSC/src/atrhandler.c:126-203 | a chain is accepted if and only if TD1 names T=0 or T=1 and a TA2 followed by TD2 does too |
| AtrRoundTrip.RoundTrip | PCSC/src/atrhandler.c:43-252 | for every ATR without TA2, with first protocol T=0 or T=1 and TCK exactly when T=1 is offered: exact bytes, historical bytes, convention, union of offered protocols, first offered protocol, T=0 without TD |
| AtrRoundTrip.LengthExact | PCSC/src/atrhandler.c:235-243 | the decoded string is the encoded one if and only if TCK is present just when the chain leaves T=1 available |
| AtrRoundTrip.HistoryExact | PCSC/src/atrhandler.c:227-243 | the historical bytes come back if and only if the string does not run over them: it fills the buffer, lacks the check byte that is looked for, and the byte behind it differs |
| AtrRoundTrip.LongValue | PCSC/src/atrhandler.c:207-243 | an answer within the buffer whose decoded string has 48 bytes |
| AtrRoundTrip.SpokenAvailable | PCSC/src/atrhandler.c:126-203 | the available protocols of every accepted chain: all that are offered, or those of a TA2 that counts and what follows it |
| AtrRoundTrip.Ta2NeedsTd2 | PCSC/src/atrhandler.c:179-203 | a disagreeing TA2 decides the protocol if and only if TD2 is present |
| AtrRoundTrip.T15CheckByteMissed | PCSC/src/atrhandler.c:235-243 | an ATR offering T=15 loses its check byte |
| Protocols.ChoiceIsOffered | PCSC/src/prothandler.c:35-154 | from ATR bytes to choice: an error, T0 or T1, always one the card offers |
| Protocols.PreferenceHonoured | PCSC/src/prothandler.c:80-154 | the choice lies in the preference if and only if PTS is accepted or the default fits; accepted PTS prefers T1; when the arguments are refused |
| Protocols.PreferenceNotHonoured | PCSC/src/prothandler.c:129-140 | a preference for T=1 alone answered with T=0 |
| Protocols.ShiftIndex | PCSC/src/winscard.c:1609-1619 | the shift loop ends at the exact bit index for T0, T1 and RAW |
| Protocols.ShiftEnds | PCSC/src/winscard.c:1609-1619 | it ends if and only if the protocol word is not UNDEFINED |
| Protocols.AnyOldNumber | PCSC/src/winscard.c:1609-1619 | a protocol word of one bit is addressed by the index of that bit and no other number |
| DriverCounts.AddFirstKeeps | PCSC/src/readerfactory.c:203-227 | a reader of its own keeps the accounting, whether or not it comes up |
| DriverCounts.AddSharedKeeps | PCSC/src/readerfactory.c:175-227 | a clone or further slot that comes up keeps the accounting; one that does not keeps counters from being too small |
| DriverCounts.AddSharedKeepsExactly | PCSC/src/readerfactory.c:175-260 | with the removal that follows a failure, the accounting stays exact if and only if RFInitializeReader succeeds; a failing thread start is undone cleanly |
| DriverCounts.RemoveOneKeeps | PCSC/src/readerfactory.c:402-477 | removing a context keeps the accounting, and the library is closed if and only if it was the last sharer |
| DriverCounts.RemoveAllKeeps | PCSC/src/readerfactory.c:402-477 | the removal loop ends, leaves no context of that name and port and every other one as it was, and keeps the accounting |
| DriverCounts.AddSlotsKeepsExactly | PCSC/src/readerfactory.c:282-397 | further slots, the undo on a full table and on a slot that does not come up included, keep the accounting if and only if no slot fails to initialise |
| DriverCounts.FailureLeaks | PCSC/src/readerfactory.c:229-236 | a shared context that fails to initialise leaves the feed counter above its users |
| DriverCounts.LeakOverRuns | PCSC/src/readerfactory.c:402-477 | such a leak is never mended: the library stays open over every later run |
| DriverCounts.AccountingOverRuns | PCSC/src/readerfactory.c:71-477 | over every run of adding and removing readers, with clones, slots and failures of every kind, each counter equals the number of live contexts pointing at it and a library is open exactly while used, if and only if no context sharing its driver failed to initialise |
| DriverCounts.AllClosedInTheEnd | PCSC/src/readerfactory.c:909-921 | after a run that leaves no reader plugged in, no library is open if and only if no such failure happened |
| DriverCounts.Registry.AddReaderContexts | PCSC/src/readerfactory.c:71-367 | the in-place loops compute AddReader, failures included |
| DriverCounts.Registry.RemoveReader | PCSC/src/readerfactory.c:402-477 | the in-place loop computes RemoveAll and terminates |
| ObjectChunks.WriteObject | libmusclecard/src/musclecard.c:1442-1512 | the plugin calls tile the range in order with chunks of at most 200 bytes; the object holds exactly the bytes sent so far; success if and only if size > 0 and no call fails or is cancelled; progress never falls and ends at 1000; the values reported on the way are exactly the multiples of the step, and 1000 at the end; an early stop is at the first failing call or cancelling report |
| ObjectChunks.ReadObject | libmusclecard/src/musclecard.c:1514-1587 | the same tiling for reading; exactly the bytes read so far reach the buffer and the rest is untouched; the same values are reported |
| ObjectChunks.TilesCoverOnce | libmusclecard/src/musclecard.c:1477-1510 | a tiling visits every byte of the range in exactly one chunk |
| ObjectChunks.ReportedSteady | libmusclecard/src/musclecard.c:1475-1494 | progress values are non-decreasing and never above the scale |
| ObjectChunks.WriteThenRead | libmusclecard/src/musclecard.c:1549-1585 | writing and then reading a range gives the bytes back and leaves the rest of the object alone |
| MultiString.QueryLength | PCSC/src/winscard_clnt.c:3061-3067 | the length query returns the length of the multi-string of the live names |
| MultiString.Fill | PCSC/src/winscard_clnt.c:3103-3114 | the fill writes exactly that many bytes, the live names in table order, and nothing behind them |
| MultiString.ListReaders | PCSC/src/winscard_clnt.c:3061-3120 | the answer for no readers, a short buffer, a size query, a filled buffer and SCARD_AUTOALLOCATE with and without a place for the buffer |
| MultiString.Scan | pcsc-tools/pcsc_scan.c:205-211 | the skip-by-strlen scan recovers the names up to the first empty one |
| MultiString.RoundTrip | pcsc-tools/pcsc_scan.c:182-211 | query, fill and scan give all live names back if and only if none of them is empty |
| CallAnswers.BeginExactly | PCSC/src/winscard.c:1003-1046 | success if and only if the reader is live and not unknown, the handle is found and carries no event, and the lock is free or its own; then the owner is the handle, the count is one higher and nothing else changes; otherwise nothing changes |
| CallAnswers.BeginOnTable | PCSC/src/winscard.c:1003-1046 | the same for a live handle in the reader table, every other reader as it was |
| CallAnswers.ExclusionAfterBegin | PCSC/src/winscard.c:1003-1046 | from a free lock: a Begin that succeeds takes it, and over the run behind it no connect and no locked call by another handle succeeds while it stays ahead |
| CallAnswers.EndExactly | PCSC/src/winscard.c:1048-1197 | let in if and only if the disposition is known and the handle found without an event; the result is that of the power action; one release; the card is reset and every handle told only for Reset and Unpower |
| CallAnswers.CancelExactly | PCSC/src/winscard.c:1199-1233 | success if and only if the handle is found, carries no event and the lock is free or its own; then one release and nothing else |
| CallAnswers.GateExactly | PCSC/src/winscard.c:1424-1468 | the gate lets in exactly a found handle without an event on a working reader whose lock is free or its own |
| CallAnswers.TransmitExactly | PCSC/src/winscard.c:1516-1670 | the driver is reached, and its answer returned, if and only if the handle is let in and the header is raw or the card is present and speaks that protocol; the exact cases of PROTO_MISMATCH, NO_SMARTCARD and the loop that never ends |
| CallAnswers.ControlExactly | PCSC/src/winscard.c:1365-1422 | the driver answers if and only if the handle is let in and the buffer is not empty for a version 2.0 driver |
| CallAnswers.StatusExactly | PCSC/src/winscard.c:1235-1348 | success if and only if the reader is live and not unknown, the ATR length is believable and the handle carries no event; INTERNAL_ERROR exactly for a longer ATR |
| SessionAnswers.NegotiateExactly | PCSC/src/winscard.c:365-426 | success if and only if access is raw or direct, or the negotiated protocol is among those asked for, or on a first negotiation the ATR offers one of them and the driver does not fail; which protocol it is; the exact case of UNRESPONSIVE_CARD |
| SessionAnswers.ConnectExactly | PCSC/src/winscard.c:256-509 | the exact condition of success; then the handle is in the first free slot, the count taken up and published, the lock taken for exclusive access and the agreed protocol set; the exact case in which it waits |
| SessionAnswers.ConnectOnTable | PCSC/src/winscard.c:256-509 | the same in the reader table, every other reader as it was |
| SessionAnswers.ResumedExactly | PCSC/src/winscard.c:332-509 | the same behind the wait |
| SessionAnswers.DisconnectExactly | PCSC/src/winscard.c:821-1001 | the exact condition of success and of waiting; on success the lock is free, the slot given up, one context less, and the card reset with the other handles told only if asked for |
| SessionAnswers.ReconnectExactly | PCSC/src/winscard.c:511-819 | the exact condition of success, with and without a reset, and what it leaves in sharing, events, card and protocol |
| CardAnswers.PollExactly | PCSC/src/eventhandler.c:352-486 | the four outcomes of a turn on the fields: a recorded insertion leaves the card present, and powered or mute as the power-up went; a removal, a communication error, and any other turn |
| CardAnswers.PollOnTable | PCSC/src/eventhandler.c:352-486 | the same in the reader table, every other reader as it was |
| CardAnswers.PollPublishes | PCSC/src/eventhandler.c:476-484 | a turn publishes the context count when it has changed since the turn before |
| CardAnswers.AttachExactly | PCSC/src/readerfactory.c:157-173 | an added reader starts with nobody connected, no lock, its own identity, and its card powered up if there is one |
| CardAnswers.DetachExactly | PCSC/src/readerfactory.c:454-468 | a removed reader keeps no identity, context, lock or handle |
| Protocols.SetProtocolExactly | PCSC/src/prothandler.c:80-154 | the answer for every case: WrongArgument if and only if nothing usable is common, PpsFailed if and only if the driver refuses otherwise, the default when it cannot do PTS, T=1 before T=0 when it accepts |
| DriverAnswers.OwnReaderExactly | PCSC/src/readerfactory.c:130-397 | a reader of its own that goes through: exactly one formerly unused context for it and one per further slot, all on one library that was not open and is the only one opened; the feed counter is their number, the mutex counter that of the slots sharing it; everything else as it was |
| DriverAnswers.CloneExactly | PCSC/src/readerfactory.c:175-397 | a clone that goes through: no library opened or closed, its contexts share library and feed counter of the parent, which goes up by their number; the mutex counter is the parent's, or a fresh one when the driver is thread safe |
| DriverAnswers.PlugExactly | PCSC/src/readerfactory.c:71-397 | a new reader has contexts afterwards, one plus one per further slot, if and only if the parent can be shared, all slots come up and there is room; otherwise none, and every other context is as it was |
| DriverAnswers.TurnedAwayExactly | PCSC/src/readerfactory.c:71-143 | a known name and port, a full table or a parent that cannot be shared changes nothing at all |
| DriverAnswers.UndoneCloses | PCSC/src/readerfactory.c:203-260 | a reader that does not come up leaves the open libraries as they were, unless a shared initialisation failed |
| DumpFormat.NetBytes | PCSC/src/simclist.c:1008-1020 | byte j of a k-byte header integer is the digit of weight 256^(k-1-j), for every number |
| DumpFormat.HostBytes | PCSC/src/simclist.c:1063-1067 | byte j of a raw length is the digit of weight 256^j, as on a little-endian host |
| DumpFormat.DumpLayout | PCSC/src/simclist.c:1008-1112 | what stands at which position of the file: version, timestamp, terminator, total, count, element length, hash, data, and the terminator again in the last four bytes |
| DumpFormat.UniformLayout | PCSC/src/simclist.c:1052-1063 | for elements of one non-zero length: no lengths, element i at 30 + len * i |
| DumpFormat.PrefixedLayout | PCSC/src/simclist.c:1052-1067 | for any other list: behind what had been written before the restart, every element with its length in front, at the position that the ones before it give, and element length 0 in the header |
| DumpFormat.TakenExactly | PCSC/src/simclist.c:1213-1235 | a file with readable content is accepted if and only if four bytes follow it and the total is right or those bytes are not the terminator |
| DumpFormat.RefusedByHeader | PCSC/src/simclist.c:1136-1148 | a file shorter than a header or not beginning with version 1 is refused |
| Atr.FirstByte | PCSC/src/atrhandler.c:60-85 | fewer than two bytes or a first byte other than 0x3B and 0x3F is rejected, and 0x3F alone means inverse convention |
| AtrRoundTrip.GroupLayout | PCSC/src/atrhandler.c:108-125 | the bytes a group is written to: TA, TB, TC as far as announced, TD with the presence bits of the next group and the protocol number |
| AtrRoundTrip.EncodeLayout | PCSC/src/atrhandler.c:60-106 | the bytes of an encoded ATR: TS, T0 with presence bits and number of historical bytes, groups, historical bytes, TCK |
| AtrRoundTrip.OfferedExactly | PCSC/src/atrhandler.c:146-178 | T=0, T=1 and T=15 are offered if and only if some TD byte names them |
| StatusWord.FlagBits | PCSC/src/eventhandler.c:252-260 | each flag of the record is its bit of the 32-bit number, 0x0001 to 0x0040, and the counter is the high half |
| MultiString.NamesExactly | PCSC/src/winscard_clnt.c:3061-3114 | the names are those of the live cells, each at the place its cell has among the live ones |
| MultiString.PackedExactly | PCSC/src/winscard_clnt.c:3103-3114 | every name stands behind the ones before it with its terminator, and one more terminator ends the string |

## Left out

- Sockets, message framing, the select loops, daemon start-up, signals, pid files, logging and error texts: plumbing.
- Hotplug back ends, dynamic loading and PCSC/src/ifdwrapper.c: foreign calls; IFDPowerICC, IFDStatusICC, IFDSetPTS and IFDGetCapabilities are arbitrary answers given to the steps.
- MSGRemoveContext, RFSuspendAllReaders, RFAwakeAllReaders and the 0xFFFF value that stops a polling thread: they write dwLockId without regard to its owner.
- The interleaving inside one call: every call, every call resumed behind its wait, and every polling turn is atomic; the runs contain resumed calls under the exact conditions of ConnectResumedKeepsExactly and DisconnectResumedKeepsExactly.
- The time between RFAddReader and the first answers of the polling thread: attaching a reader includes both.
- Freshness of new handles is an assumption of the runs (Enabled); EnabledExactly proves under which draws the drawing loop meets it.
- ReaderContexts.ReaderContext.SCardConnect: takes the slot instead of a reader name, so the lookup by name, SCARD_E_UNKNOWN_READER and the NULL checks are not modelled; the runs allow any slot.
- ReaderContexts.ReaderContext.SCardTransmit: the NULL and buffer length checks and the bytes exchanged are not modelled.
- ReaderContexts.ReaderContext.SCardStatus: the name and ATR copied into the caller's buffers and their length checks are not modelled.
- The public reader state of a slot that is not in use: SCardStatus would follow a null pointer there, the model answers ReaderUnavailable.
- The power action of SCardEndTransaction as an access claim: it is not tied to lock ownership in the source, so ownership is stated over owner and count only.
- Widths of LockCount, dwContexts and numels: unbounded, so overflow of these counters is not modelled.
- SimcList.List.FindPos: the float quotient is an exact rational, so rounding for very large lists is not modelled.
- SimcList.List.DeleteRange: where the source follows a null pointer the model stops with the list unchanged.
- SimcList.List.IteratorNext: requires that the iterator stands on a node; one step further the source follows a null pointer.
- Copies of element data, freeing, and failure of malloc: elements are values and nodes are collected.
- ListSort.Sort: a comparator result times the direction is an unbounded product, so its overflow is not modelled; the threaded variant of the sort is not part of this model.
- list_hash, list_get_min, list_get_max, list_seek, list_contains and the stock comparators, meters and hash functions: they would only add easy members.
- The length that list_dump_filedescriptor reports (it adds the padded size of a C struct) and the content of a file longer than the dump from earlier use.
- ListDump.HostRoundTrip: the raw length prefixes are little-endian; a host of the other byte order is not modelled.
- Atr.Decode: memory is a fixed span of 49 bytes, the furthest the decoder can look.
- Protocol masks hold the named bits only; unknown bits in a caller's mask are not modelled.
- DriverCounts.Registry.AddReaderContexts: RFSetReaderName's choice of a parent is a parameter, each loaded library is a handle of its own, and the checks for NULL and over-long names and the return codes are not modelled.
- SCardGetStatusChange beyond the comparison of known readers: unknown and ignored readers, plug-and-play notification, timeouts, cancellation and the ATR it copies.
- MSCWriteObject and MSCReadObject without a callback, 32-bit wrap-around of offsets, and a plugin call that fails half way through its chunk.
- MultiString: failure of malloc and the synchronisation of reader states with the daemon.
- PCSC/src/winscard_scf.c, the Python wrapper, IFDTest, the remaining tools and the unit test programs: thin wrappers, platform shims or easy members.
