# fanotify-fid: a Dafny model

`fanotify-fid` reads the event queue of a Linux fanotify group. This project models
the parts of it in which something can go wrong without anyone noticing, and proves
what they promise.

* **The parser.** A buffer of variable-length events is walked by `event_len`, each
  event's record area by record `len`. Nine record types go to typed fields, some
  first-wins and some last-wins; everything else is kept byte for byte. Event objects
  and the vector holding them are rewritten in place. (`Wire`, `Events`, `Records`,
  `EventWalk`, `FidParser`, `RoundTrip`)
* **The owning readers.** A reader owns a buffer the kernel overwrites, the events of
  the last read and, for the descriptor format, the descriptors those events adopted.
  (`Ledger`, `FdParser`, `Storage`, `Readers`, `Formats`)
* **The resolver and its cache.** A batch of events is resolved, in passes, against a
  store it teaches as it goes, backed by a two-level map and the filesystem.
  (`Paths`, `Mounts`, `HandleCaches`, `Resolving`, `Promises`, `PathResolvers`, `Confluence`,
  `Recording`, `Soundness`, `Steadiness`, `Chains`)
* **The response encoder.** An inline buffer that spills, and a length-prefixed record
  bounded by a 16-bit field. (`Responses`)

What the source changes in place is a class here (`FidEvent`, `FdEvent`, their vectors,
both readers, `HandleCache`, `PathResolver`, `WireBuffer`), and each of its methods is
proved against a function of its inputs and the old state; the lemmas are about those
functions, and tie them to accounts that compute nothing: the bytes of a payload or a
header, the bytes of a name, the candidates asked, so many passes in a row. What the
source borrows from a buffer is a `Borrowed` slice: a position and
the bytes that lie there.

The outside world enters as parameters. A `read(2)` is an arbitrary `ReadAnswer`; what
adoption relies on (the kernel's descriptors are new, and a number in a header is one of
them) is the predicate `Ledger.Honest`. `open_by_handle_at` followed by `readlink` is an
arbitrary function of descriptor and handle. Words are little-endian.

## Where the code and its documentation differ

The model follows the code.

* `resolve_dir` records nothing, although the comment at src/resolve.rs:378 and the repository's own
  specification, section 3.3, say the parent gets stored. The only thing a batch learns is an event's own handle.
* The same section says the directory half is resolved before the name is validated;
  src/resolve.rs:245-254 validates first (`PathResolvers.PathResolver.ResolveDir`).
* `remember` overwrites, so one handle has one answer only if events tell the truth
  about their own handles: `Soundness.CacheIsSound` says so. For two events that claim
  one handle and whose directories can be had, `Soundness.LaterClaimOverwrites` gives
  the exact condition under which the store and the earlier event still agree.
* Which handles can be had after `resolve_events_memo` may depend on the order of the
  events. It does so exactly through the events `Confluence.Ambiguous` names: with a
  usable DFID_NAME record, a usable rename source and an own handle, all three handles
  different, where the filesystem answers neither the entry's directory nor the own
  handle (`Confluence.OrderMattersIff`). Which handles are recorded depends on it exactly
  through those of `Recording.RecordsByChance` (`Recording.RecordingOrderMattersIff`).
* An event with a rename source and another usable route may get different paths
  depending on what is known when it is resolved. `Steadiness.SteadyIff` says exactly
  which events always get the same one, `Steadiness.PathOrderMattersIff` beside which
  other event the order decides, and `Steadiness.CachedEventIsTheSame` when the cache
  gives the same as the filesystem alone.
* The division at src/group.rs:1082-1086 is called exact. It is exactly when the events
  are together less than one header longer than their headers
  (`Storage.DivisionIsExactIff`); one event of 48 bytes shows that it need not be
  (`Storage.DivisionCountsTooMany`).
* The slots `FdEventReader::new` fills are dropped by the `clear` of the first read; what
  a read reuses is the reserved capacity.

## Model

| member | source | states |
|---|---|---|
| Wire.FsidHandleNameIsLocal | src/fid.rs:1254-1268 | An fsid, handle and name are found, or not found, from the bytes of their payload alone, wherever in a buffer it lies |
| Wire.FsidHandleIsLocal | src/fid.rs:1243-1247 | The same for an fsid and a handle |
| Wire.MetaIsLocal | src/fid.rs:995-998 | A header's fields depend on its 24 bytes only |
| Events.FirstOfMeans | src/fid.rs:1092-1105 | A first-wins field is read from the earliest record of its kind, and from none if there is none |
| Events.LastOfMeans | src/fid.rs:1110-1141 | A last-wins field is read from the latest record of its kind |
| Events.KeptMeans | src/fid.rs:1096-1108 | A record is preserved iff it was not understood or repeats an earlier DFID_NAME or PIDFD record |
| Events.PreservedIsExact | src/fid.rs:1187-1207 | The preserved records are the raw records at exactly the kept positions, in order |
| Events.InterpretExtends | src/fid.rs:1091-1181 | Absorbing records one at a time, as the loop does, gives the event all of them amount to |
| Events.InterpretRebases | src/fid.rs:413-436 | Taking ownership of an event, or moving it in the buffer, commutes with reading it from its records |
| Records.TileTiles | src/fid.rs:1066-1087 | Records of their declared length follow one another up to fewer than four slack bytes or one tail whose length cannot be trusted |
| Records.TilingIsUnique | src/fid.rs:1066-1087 | There is only one way to cut a record area like that |
| Records.ContentMeans | src/fid.rs:1091-1181 | For every payload, byte by byte: which are long enough for their type, what fields they give, that a name is all of the rest or what comes before its first NUL, and that every other record is not understood |
| Records.RecordLoopSpec | src/fid.rs:1050-1185 | For every record area: how it tiles, which record each field is read from, that a field without record says nothing, and that exactly the kept records and then the tail are preserved |
| Records.EventMoves | src/fid.rs:1050-1185 | An event depends only on its own bytes: wherever they lie it is the same event with its slices moved |
| Records.EventIsInside | src/fid.rs:1187-1207 | Every handle, name, rename side and preserved record of an event is a range inside the event's record area and holds the bytes there |
| EventWalk.WalkIsWalk | src/fid.rs:985-1037 | Each event starts where the one before ended and is what its header claims, and the walk ends at the first header that stops it |
| EventWalk.WalkIsUnique | src/fid.rs:985-1037 | No other list of events and no other stop satisfies that |
| EventWalk.WalkTakes | src/fid.rs:985-1037 | For every event taken, which bytes its length, mask, descriptor and pid are, that only the first one's version is looked at, and where its records start |
| EventWalk.WalkStops | src/fid.rs:985-1037 | For every buffer, where the walk stops and for which of the five reasons, from the bytes there |
| EventWalk.PrefixLaw | src/fid.rs:977-1047 | The events of `a` are a prefix of those of `a + b`; the rest are those of `a`'s unconsumed tail followed by `b`, with the version check carried over |
| EventWalk.WalkTiles | src/fd.rs:339-394 | The events tile the consumed prefix, each as long as its own header says, consumed plus left is the buffer, and `End` holds iff nothing is left |
| FidParser.FidEvent.Reset | src/fid.rs:440-456 | A reset event says nothing, resolved path included |
| FidParser.FidEvent.Preserve | src/fid.rs:1203-1207 | Exactly the given bytes are appended to the preserved records |
| FidParser.ReadNamed | src/fid.rs:1092-1141 | A record that names an entry goes to the event's own, or to its side of the rename, or is preserved, and nothing else changes |
| FidParser.ReadRecord | src/fid.rs:1091-1181 | One record goes to its field or is preserved, as its type and payload decide, and nothing else changes |
| FidParser.ParseOneEvent | src/fid.rs:1050-1185 | The record loop leaves the event that the record area amounts to |
| FidParser.ParseFidEventsInto | src/fid.rs:977-1047 | Whatever the vector held, it ends with exactly the buffer's events and report, in reused or new event objects |
| RoundTrip.InfoSurvives | src/fid.rs:1400-1426 | Every record that fits its fields reads back as what was encoded |
| RoundTrip.AreaSurvives | src/fid.rs:1428-1436 | So does every sequence of records with up to three slack bytes after it, and no record is lost or invented |
| RoundTrip.OneEventParses | src/fid.rs:1387-1436 | An encoded event parses to that one event, consuming all of it, also with a header extended by a newer kernel |
| RoundTrip.ParseOfEncode | src/fid.rs:977-1047 | Parsing the encoding of any list of events, with any number of records in any order, names ended by a NUL and any padding or by the end of the record, yields exactly those events with stop `End` |
| RoundTrip.CanonicalRoundTrip | src/fid.rs:1050-1185 | When each typed record occurs at most once, every record is in its own field whatever their order, the filesystem is that of the first record naming one, other fields are empty, and the unknown records are kept verbatim in order |
| Ledger.AdoptionIsExact | src/fd.rs:277-296 | The numbers adopted from a buffer are its non-negative `fd` fields, each owned by one event |
| Ledger.RunBalances | src/group.rs:1063-1098 | Over every run of reads, with anything happening elsewhere in the process in between: what was adopted is what was closed and then what is owned, and the table is what others have open, plus what is owned, plus what leaked |
| Ledger.DescriptorLedger | src/group.rs:1063-1098 | After the reader is dropped every adopted descriptor has been closed once, in order of adoption; nothing others had open was closed; what else is open was leaked |
| Ledger.CompleteWalksLeakNothing | src/group.rs:1063-1098 | If every walk reaches the end only others have anything open |
| FdParser.Descriptors.Close | src/fd.rs:268-275 | Only an open descriptor can be closed, and the close is on record |
| FdParser.FdEvent.constructor | src/fd.rs:145-153 | A hand-built event reports the number of the descriptor it owns, or `FAN_NOFD` |
| FdParser.FdEvent.Reset | src/fd.rs:268-275 | Resetting an event closes the descriptor it owned |
| FdParser.FdEvent.AdoptReported | src/fd.rs:285-296 | A number is taken over iff it is non-negative, not taken in this buffer, and the event owns none |
| FdParser.FdEvent.IntoFd | src/fd.rs:203-209 | Taking the descriptor out leaves the event owning nothing |
| Readers.ReasonIsTheField | src/fd.rs:248-253 | After a read an event has a reason iff its header's field is negative; one whose number an earlier event owns, and only such a one, has neither a descriptor nor a reason |
| FdParser.FdEventVec.Truncate | src/fd.rs:389 | Dropped slots close what they owned, once and in order; the others keep what they have |
| FdParser.WriteSlot | src/fd.rs:376-386 | Writing an event into a slot closes exactly what that slot owned |
| FdParser.ParseFdEventsInto | src/fd.rs:334-395 | Whatever the vector held, it ends with exactly the buffer's events, owning nothing; everything it owned is closed, once and in order; it grows only for more events than it has storage for |
| Formats.ReadBothWays | src/fd.rs:334-395 | Both loops, run on one buffer, report the same and leave as many events with the same masks and pids, which tile what was consumed |
| Readers.ReadInto | src/sys.rs:253-286 | A read fills the front of the buffer with its bytes and a failed one writes nothing |
| Storage.StorageSuffices | src/group.rs:1010-1023 | A walk finds at most `bytes_consumed / 24` events, and that is at most the slots reserved for the buffer |
| Storage.DivisionIsExactIff | src/group.rs:1082-1086 | The division counts the events exactly iff together they are less than one header longer than their headers |
| Storage.DivisionCountsTooMany | src/group.rs:1082-1086 | A buffer for which it counts two where there is one |
| Readers.AdoptAll | src/group.rs:1093-1096 | Each event ends up owning its number iff no earlier event of the buffer named it |
| Readers.OwnersAreAsPromised | src/group.rs:1093-1096 | Said over the headers: an event owns its number iff it is one and no earlier header of the buffer has it |
| Readers.FdEventReader.constructor | src/group.rs:1001-1030 | A new reader owns nothing and has storage for the most events its buffer can hold |
| Readers.FdEventReader.ReadReported | src/group.rs:1063-1098 | Any read, failed or not, takes the account one ledger step; the events and their reasons are those of the bytes read, each owning the number of its header that no earlier header has; a failed read leaves none and no bytes, and the storage never grows |
| Readers.FdEventReader.Drop | src/group.rs:978-991 | Dropping the reader closes all it owns |
| Readers.HappensElsewhere | src/group.rs:978-991 | Whatever else opens and closes descriptors of its own, what the reader owns stays open and its account is kept |
| Readers.PidfdsHaveOneOwner | src/fid.rs:1336-1347 | Every pidfd number reported in a buffer is owned by exactly one of its events |
| Readers.AdoptReportedPidfd | src/fid.rs:1336-1347 | A number is owned iff it is no sentinel and new in this buffer |
| Readers.AdoptPidfds | src/group.rs:869-875 | Only the pidfd of each event changes, and as the one-owner rule says |
| Readers.AdoptionIsAsPromised | src/group.rs:869-875 | Said over the parsed events: no record stays no record, a sentinel the reason it is, a number is owned by the first event reporting it and by no later one, and no other field changes |
| Readers.EventReader.constructor | src/group.rs:761-781 | A new reader has no events and a buffer of the size asked for, or the default for zero |
| Readers.EventReader.ReadReported | src/group.rs:821-888 | After every read, whatever the caller made of the events before it, each slice of each event lies in the bytes read and in its own event and shows the buffer's bytes, and the events are the parsed ones with their pidfds adopted as just said; after a failed one there are no events, no bytes, and the buffer is untouched |
| Readers.ResolveOnto | src/fid.rs:631-633 | Writing a path onto an event keeps all that and leaves the buffer alone |
| HandleCaches.HandleCache.PathOf | src/handle.rs:429-438 | A lookup is the flat map's, keyed by filesystem and handle together |
| HandleCaches.HandleCache.Remember | src/handle.rs:441-449 | Remembering puts one entry, over any earlier one |
| HandleCaches.HandleCache.Forget | src/handle.rs:451-462 | Forgetting removes one entry and leaves no empty level |
| HandleCaches.HandleCache.ForgetFilesystem | src/handle.rs:370-372 | Exactly the entries of that filesystem go |
| HandleCaches.HandleCache.Len | src/handle.rs:332-337 | The sum over the levels is the size of the flat map |
| HandleCaches.HandleCache.IsEmpty | src/handle.rs:340-345 | Empty iff the flat map is |
| HandleCaches.HandleCache.Filesystems | src/handle.rs:348-350 | The outer level counts the distinct filesystems of the entries |
| HandleCaches.HandleCache.Entries | src/handle.rs:386-395 | Every entry is listed, no key twice, and nothing else |
| HandleCaches.FlatSplits | src/handle.rs:332-337 | The flat map is one level and the rest, disjoint, and sizes add up |
| HandleCaches.OuterKeys | src/handle.rs:451-462 | With no empty level the outer keys are the filesystems of the entries |
| HandleCaches.RunOps | src/handle.rs:289-296 | Over every sequence of operations the cache is the flat map they add up to, with no empty level |
| Paths.JoinAddsOneComponent | src/resolve.rs:245-284 | An accepted name adds itself to the components of the directory, once, at the end; an empty name and `.` change no byte |
| Paths.JoinIsInjective | src/resolve.rs:255-265 | Different names under one directory give different paths |
| Mounts.AskIsFirstAnswer | src/handle.rs:855-893 | The answer is that of the first candidate that answers, else the last errno tried, else `EXDEV` |
| Mounts.ResolveFileHandleIn | src/handle.rs:855-893 | Over all candidates: the answer is that of the first one answering among those on the wanted or an unknown filesystem, else the last one's errno, else `EXDEV`; only such descriptors are opened, up to the first that answers, and none for a malformed handle |
| Mounts.AnswerIsUnique | src/handle.rs:855-893 | There is one such answer, and it is `EXDEV` iff nobody is eligible or the last eligible candidate failed with it |
| Mounts.MatchingAsksTheSame | src/handle.rs:1012-1018 | Asking the selection `Mounts::matching` makes, unfiltered, gives the same answer |
| Mounts.ForeignNeverOpened | src/handle.rs:798-803 | A descriptor known to be on another filesystem is never opened |
| Resolving.PassConserves | src/resolve.rs:524-535 | The counts of a pass account for every event, those given a path, those that had one, and those without |
| Resolving.PassOnlyFills | src/resolve.rs:368-370 | A pass changes nothing of an event but its path, and that only where there was none |
| Resolving.IdlePass | src/resolve.rs:543-555 | A pass that resolves nothing changes neither events nor knowledge |
| Resolving.PassesBounded | src/resolve.rs:521-557 | Passes made and events left without a path are together at most one more than the path-less events there were |
| Resolving.FixedPoint | src/resolve.rs:516-558 | The counts returned describe the batch as it is left, no path that was there changed, and a second call resolves nothing and leaves events and store as they are |
| Resolving.RunIsIteration | src/resolve.rs:521-556 | A call is `n` passes that resolve something and one that does not; it reports `n` passes and the counts of the last of them, or of the idle pass when `n` is zero |
| Promises.EntryLookupHas | src/resolve.rs:245-284 | An entry is answered iff its name has no separator and no NUL and is not `..` and its directory has a path; the answer is the directory, one separator and the name, or the directory |
| Promises.ResolveIsPromised | src/resolve.rs:317-406 | On the fields of the event: which of the four answers is given and when, the first route that gives a path, the path it gives, and what is noted under the own handle |
| Promises.InKnownDirectory | src/resolve.rs:375-387 | An entry of a known directory gets the directory's components and its own name, the directory's path when it has none, and that is noted under the own handle |
| Promises.PassIsPromised | src/resolve.rs:527-535 | Each event of a pass is resolved against what the events before it have left, and counted as what came of it |
| PathResolvers.PathResolver.ResolveHandle | src/resolve.rs:176-188 | What is known answers without opening anything; else the answer is the one the mounts give, or `EXDEV` when the filesystem is switched off |
| PathResolvers.PathResolver.ResolveHandleMemo | src/resolve.rs:197-206 | An answer, and only an answer, is recorded |
| PathResolvers.PathResolver.ResolveDir | src/resolve.rs:245-284 | For a known directory there is an answer iff the name has no `/`, no NUL and is not `..`, and an accepted name adds its one component; a refused name is refused whatever is known, and it and a hit open nothing |
| PathResolvers.PathResolver.ResolveEvent | src/resolve.rs:317-355 | The event gets what is promised on its fields, in a known directory the directory's components and its name, and nothing is recorded |
| PathResolvers.PathResolver.ResolveEventMemo | src/resolve.rs:363-406 | The same, and the memo afterwards: the own handle recorded on the first and third route, whether store and memo are one object or two |
| PathResolvers.PathResolver.ResolveRenameTarget | src/resolve.rs:415-420 | There is an answer iff the event names a filesystem and a target, and it is the target entry's |
| PathResolvers.PathResolver.ResolveEvents | src/resolve.rs:487-506 | One pass in which every event is left as resolving it alone would leave it |
| PathResolvers.PathResolver.PassMemo | src/resolve.rs:527-535 | One pass in which every event profits from those before it |
| PathResolvers.PathResolver.ResolveEventsMemo | src/resolve.rs:516-558 | The loop leaves the events and the knowledge of so many passes, and reports their number and the counts of the last productive one |
| Confluence.RoutesAre | src/resolve.rs:375-402 | An event is resolved iff one of its routes names a handle a path can be had for |
| Confluence.LeastFixedPoint | src/resolve.rs:516-558 | Without ambiguous events the handles a path can be had for after a call are the least set closed under the resolution rule, and the events with a path are those resolvable from it |
| Confluence.OrderDoesNotMatter | src/resolve.rs:516-558 | Batches of the same events in any order, none of them ambiguous, end with the same handles answerable and the same events resolved |
| Confluence.OrderMattersIff | src/resolve.rs:375-402 | An event is ambiguous iff there are a store and an unambiguous event beside which the order decides what can be had |
| Recording.RecordedHandles | src/resolve.rs:383-402 | The recorded handles are those of before and the own handles of the events that have an answerable entry, or whose own handle, and not the rename source, the filesystem answers |
| Recording.RecordingOrderDoesNotMatter | src/resolve.rs:516-558 | So they are the same in every order, if no event records by chance |
| Recording.RecordingOrderMattersIff | src/resolve.rs:375-402 | An event records by chance iff there are a store and another event, which does not, beside which the order decides what is recorded |
| Soundness.StepIsSound | src/resolve.rs:363-406 | If store and filesystem agree with a naming and the event is truthful, its path and what it teaches are the naming's |
| Soundness.CacheIsSound | src/resolve.rs:516-558 | A batch keeps store and memo in agreement with the naming, and every path it sets is the naming's |
| Soundness.CachedAnswersTheSame | src/resolve.rs:176-188 | Whenever the filesystem alone answers for a handle or an entry, what is known answers the same |
| Soundness.EntryStaysBelow | src/resolve.rs:245-284 | A resolved entry has the directory's components and its own name, on a hit and from the filesystem alike; a refused name is always refused |
| Soundness.LaterClaimOverwrites | src/resolve.rs:383-387 | Of two events claiming one handle, with directories that can be had, the later one's path ends in the store and the earlier keeps its own; they agree iff both entries are one path, or, where the second lies under the claimed handle, iff its name is that of the directory itself; when they do not, no naming makes both truthful |
| Steadiness.CachedEventIsTheSame | src/resolve.rs:317-355 | An event the filesystem alone would give a path gets one from what is known; the same one iff both or neither take the rename source, or both names are one path; always so for an event without rename source or without another route |
| Steadiness.SteadyIff | src/resolve.rs:317-355 | An event is steady iff all stores that agree with the naming and give it a path give it the same |
| Steadiness.PathsDoNotDependOnOrder | src/resolve.rs:516-558 | A steady event never gets two different paths in two orders of a truthful batch, and without ambiguous events it gets one in both or in neither |
| Steadiness.PathOrderMattersIff | src/resolve.rs:375-402 | Of two truthful events the first gets different paths before and after the second, from some store, iff it is unsteady and the second teaches, through its entry, the directory that changes its route |
| Chains.ReversedChainTakesAPassEach | src/resolve.rs:521-557 | A chain of `k` parents in reverse order is resolved completely in exactly `k` productive passes of one event each |
| Chains.ForwardChainTakesOnePass | src/resolve.rs:521-557 | Parents first, one productive pass resolves the whole chain |
| Chains.BoundIsReached | src/resolve.rs:521-557 | There is such a chain of every length, so the bound on the passes is reached by batches of every size |
| Responses.DenyErrnoIsRead | src/response.rs:474-476 | The decision is `FAN_DENY`, the errno above it is the one given modulo 256, and it is that errno iff it fits eight bits |
| Responses.FlagsAreSet | src/response.rs:345-358 | The audit form sets both its flags and changes no other bit of the decision |
| Responses.DecodeOfEncoding | src/response.rs:487-507 | Every response whose record fits reads back as itself: descriptor field, word, type, payload, and a `len` equal to the bytes after the response |
| Responses.EncodingOfDecode | src/response.rs:487-507 | And nothing else reads back as it |
| Responses.EncodingLayout | src/response.rs:487-507 | Which bytes are the descriptor, the word, the record's type, its length and its payload |
| Responses.AuditPayload | src/response.rs:97-101 | The audit record's twelve bytes are the rule and eight zeros |
| Responses.WireBuffer.ExtendFromSlice | src/response.rs:443-460 | An append is an append on either side of the spill, and the buffer spills iff its contents exceed 32 bytes |
| Responses.AppendAll | src/response.rs:417-461 | However appends fall around the spill the buffer holds all of them in order |
| Responses.EncodeResponse | src/response.rs:487-507 | Refused with `EINVAL` iff the record does not fit its 16-bit length, and otherwise the bytes of the response |
| Responses.OwnFormsFit | src/response.rs:405-429 | The word alone is 8 bytes and the audit form 24, so neither leaves the stack |

## Left out

- Readers.EventReader.ReadReported: does not say which pidfds are closed when the previous batch is dropped, because a `Pidfd::Fd` is a shared count the caller may clone or take.
- FidParser.ParseFidEventsInto: does not model the storage an event keeps for its preserved records, or the vector's capacity.
- PathResolvers.PathResolver.ResolveEventsMemo: does not say which descriptors a batch opens; `ResolveHandle` and `ResolveDir` say it for one lookup.
- PathResolvers.PathResolver: reads and learns into `HandleCache` only; stores a caller writes, and `NoCache`, are not part of this model.
- Confluence.OrderDoesNotMatter: is about the learning form with store and memo one object; with two objects nothing learned is read back and one pass settles the batch.
- System calls, privileges, flag legality, errno texts and the constants table: foreign calls and data. A read interrupted by a signal is not an answer and does not appear.
- `Mounts::add` and `resolve_file_handle`: they only probe fsids, which are given here with each descriptor.
- `parse_fid_events`, `EventReader::read`, `FdEventReader::read` and the stateless reads of `Fanotify`: the same walks and adoptions with the report dropped or an unknown version raised.
- Deleted markers, UTF-8 views, event names, accessors, setters and `Clone`: string handling and easy members.
- Big-endian machines: the source reads words in native order, this model in little-endian order.
- Locks and lifetimes: the `RwLock` is sequential access, a borrow a slice with its bytes.
