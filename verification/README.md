# LOTA agent verification

A Dafny model of the LOTA agent: the IPC server, the bookkeeping of the
kernel's BPF maps, the startup policy and its reloads, the digests that bind a
token to a machine's state, the re-measurement debounce table and the binary
codecs. Every module models one component in the source's own form: tables and
buffers are arrays and class fields changed by methods, layouts and orders are
functions, and what holds over whole runs is a lemma about runs.

`dafny verify dfyconfig.toml` checks the project.

## Modules

- `RateLimiter`, `Remeasure`, `ClientTable`, `ClientRegistry`: the fixed-size
  tables, each related to an unbounded map or reference machine.
- `Framing`, `BitWords`, `Connection`, `IpcClient`, `Replies`: one IPC
  connection as a value with its whole history, the buffers that refine it, and
  what its peer reads.
- `Paths`, `TrustMaps`, `TrustedLibs`: trusted libraries and the reference
  counts on their ancestor directories.
- `Canonical`, `DigestInputs`, `ImageMeasure`, `ProtectDigest`,
  `PolicyDigest`, `Layouts`: canonical sets, the byte strings hashed from them,
  and where each field stands.
- `ProtectedPids`, `TokenFormat`, `GetToken`: the runtime PID set, its epoch,
  and the tokens that carry them.
- `Enforcement`, `StartupPolicy`, `Reload`, `Lifetime`: enforcement state in
  memory and in the kernel, over startup and every reload.
- `SealHeader`, `EnvelopeHeader`, `EnrollWire`, `ByteCodec`: wire and disk
  formats.

## Conventions

- SHA-256 is an arbitrary function to 32-byte strings. A statement that equal
  digests mean equal inputs has the alternative that two inputs it names
  collide; nothing is assumed of the function.
- A kernel map update may fail at any time: its outcome is nondeterministic or
  an input, and `faults` counts the failures, so a transaction that reports
  failure has to point to one. Updates that undo others are reliable where
  `undoWorks` holds.
- `stat`, `/proc`, fs-verity, the TPM, the clock, `recv`, `send`, signature
  checks and privilege checks are inputs. File paths resolve to fixed inodes.
- qsort is a sorting function over the comparator's total order.
- C integer widths are subset types; every truncation and wrap-around is
  written out.

## What was found

- The rate limiter grants at most `2 * limit - 1` requests per UID in any
  window length, one less than twice the limit. That bound is reached for
  every window longer than a second; for one second it is the limit itself.
- A status push to an idle client fills its send buffer without arming
  EPOLLOUT. No later event sends it or serves a request on that connection
  (`Connection.UnarmedIsStuck`), and three steps from connecting are enough to
  get there (`Connection.StuckIsReachable`). After a push the connection can
  send exactly when a message was already on its way with EPOLLOUT armed
  (`Connection.PushMovesIffArmed`): idle clients are affected, and clients
  stuck since an earlier push.
- Unsubscribing never drops a pending event, because requests are processed
  only while nothing is pending (`Connection.ProcessOk`). The pushes without a
  notification are exactly those raised by the client's own GET_TOKEN lockout,
  whose error reply takes the buffer (`Connection.OverwrittenExactly`); three
  steps from connecting get there (`Connection.OverwriteIsReachable`).
- The agent sends tokens up to 8192 bytes; the SDK accepts exactly those up to
  5768 (`TokenFormat.ParseInvertsPayload`); 160 protected PIDs are enough
  (`TokenFormat.SdkRefusesLargeToken`).
- A failed trust deletes the trusted-library key even if another path had
  trusted the same file (`TrustMaps.SecondPathTakesTheKey`). With working undo
  counts are always restored; the library map is as before exactly when the
  key was not entered or had not been there (`TrustMaps.Maps.TrustLib`).
- An untrust deletes the key too: the library map still holds every outstanding
  library exactly when no other one has that key
  (`TrustMaps.Maps.UntrustLib`, `TrustMaps.OneUntrustTakesTheKey`).
- A failed startup restores the kernel mode exactly when the old mode could be
  read, the new one was not yet set, or they are equal: the fallback is the
  in-memory mode, which is already the new one
  (`StartupPolicy.ApplyStartupPolicy`, `StartupPolicy.UnreadModeStays`).
- A failed reload of protected PIDs restores the kernel set exactly when the
  old PIDs were in it and none of the new PIDs protected before the failure
  was in it on another account (`Reload.ReloadPids`, `Reload.OtherPidIsLost`).
- One inode mapped under two names is hashed under the name mapped first
  (`ImageMeasure.FirstNameWins`). The measurement is always that of the first
  mappings (`ImageMeasure.ImageIsTheFirstPairs`), and it is that of all mapped
  pairs exactly when every pair is also that of some first mapping
  (`ImageMeasure.MeasuresAllPairs`). One name per inode is enough
  (`ImageMeasure.OneNameIsFirst`) but not needed
  (`ImageMeasure.TwoNamesCanBeFirst`).

## Model

| member | source | states |
|---|---|---|
| `RateLimiter.Limiter.Check` | src/agent/ipc.c:94-157 | grants exactly when an unbounded per-UID limiter would, except that a UID without an entry is refused while all 256 entries are live; never grants for a non-positive limit or window; no unexpired entry is given to another UID; UIDs in the table stay unique |
| `RateLimiter.Limiter.Rewrite` | src/agent/ipc.c:106-147 | rewriting the UID's own entry, or an expired one for a new UID, keeps the table equal to the reference limiter |
| `RateLimiter.Limiter.Append` | src/agent/ipc.c:124-131 | appending an entry for a new UID keeps the table equal to the reference limiter |
| `RateLimiter.Limiter.Recycle` | src/agent/ipc.c:133-156 | a full table grants a new UID exactly when some entry has expired, and only an expired entry is overwritten |
| `RateLimiter.Limiter.NeverTooMany` | src/agent/ipc.c:94-157 | after any requests on a non-decreasing clock, every half-open interval of one window length holds at most 2 * limit - 1 grants per UID, across slot recycling |
| `RateLimiter.GrantsPerWindow` | src/agent/ipc.c:94-157 | the same bound for every log of grants the reference limiter accepts |
| `RateLimiter.AcceptedIsBounded` | src/agent/ipc.c:105-122 | how the grants of an interval relate to the start and count of the current window, by induction over the log |
| `RateLimiter.BoundIsAttained` | src/agent/ipc.c:105-122 | 2 * limit - 1 is reached for every window longer than a second: a log of accepted grants with exactly that many in one window length |
| `RateLimiter.OneSecondBound` | src/agent/ipc.c:105-122 | with windows of one second the bound is the limit itself |
| `RateLimiter.SpentIsRefused` | src/agent/ipc.c:116-118 | an entry that used up its running window is refused by the reference too |
| `RateLimiter.RewriteConsistent` | src/agent/ipc.c:105-147 | a rewritten entry is what the reference limiter does with one more grant |
| `RateLimiter.AppendConsistent` | src/agent/ipc.c:124-131 | an appended entry is what the reference limiter does with one more grant |
| `Remeasure.SlotTable.RemeasureDue` | src/agent/event.c:63-86 | the scan finds the PID's own slot or ends with the first free slot, else the first that no other is older than; the answer and the new table follow from it; PIDs in used slots stay distinct |
| `Remeasure.AnswersLikeUnboundedMap` | src/agent/event.c:51-86 | in every run with at most 1024 distinct PIDs each answer is that of an unbounded map from PID to its last re-measure |
| `Remeasure.DueExactlyWhenRested` | src/agent/event.c:63-86 | in a run over at most 1024 PIDs with non-decreasing timestamps an event is answered "due" exactly when its PID was granted nothing in the last second, stated on events and answers alone |
| `Remeasure.CoolingMeans` | src/agent/event.c:71-72 | the cooldown test with its 64-bit wrap-around written out |
| `Remeasure.RestedIsDue` | src/agent/event.c:70-74 | however many PIDs there are, a PID granted nothing in the last second is due |
| `Remeasure.EarlyRemeasureNeedsManyOthers` | src/agent/event.c:51-86 | with non-decreasing timestamps, two grants to one PID less than a cooldown apart mean at least 1024 other PIDs were granted at timestamps between them |
| `Remeasure.MirrorStep` | src/agent/event.c:63-86 | one event on a table that mirrors the map is answered like the map and leaves it mirroring |
| `Remeasure.EvictionIsPaid` | src/agent/event.c:76-84 | evicting the oldest slot of a full table means 1024 other PIDs were granted since the evicted grant |
| `Remeasure.StaysSettled` | src/agent/event.c:63-86 | every past grant stays either in its slot or paid for by 1024 later grants |
| `ClientTable.Table.Insert` | src/agent/ipc.c:335-372 | adds or replaces the key in the represented map; fails only when all 4096 slots are live, leaving every slot as it was; never fails below 4096 keys |
| `ClientTable.Table.Find` | src/agent/ipc.c:374-389 | equals look-up in the represented map, tombstones or not |
| `ClientTable.Table.Remove` | src/agent/ipc.c:391-407 | removes exactly the key from the represented map |
| `ClientTable.Probe` | src/agent/ipc.c:342-371 | the probe loop ends at the key, or at the first tombstone or empty slot with no empty slot before it, or has met 4096 live slots, and the free slot is the first one on the way |
| `ClientTable.MissedIsAbsent` | src/agent/ipc.c:374-389 | a probe that reached an empty slot, or went all round, proves the key absent |
| `ClientTable.FillRepresents` | src/agent/ipc.c:350-369 | filling a slot reached without passing an empty one keeps every key findable |
| `ClientTable.ReplaceRepresents` | src/agent/ipc.c:345-348 | overwriting a live slot's client changes only that key |
| `ClientTable.BuryRepresents` | src/agent/ipc.c:398-402 | a tombstone removes one key and leaves all others findable |
| `ClientTable.FullTable` | src/agent/ipc.c:364-371 | 4096 live probes mean 4096 distinct keys |
| `ClientTable.HomeIsLowBits` | src/agent/ipc.c:322-340 | the home slot is the low 12 bits of the multiplicative hash, so its 32-bit wrap does not show |
| `ClientRegistry.Registry.Create` | src/agent/ipc.c:485-515 | for an fd not in use, a client is refused exactly at 2048 clients or without memory, so the table insert never fails; list, table and count stay in agreement |
| `ClientRegistry.Registry.Find` | src/agent/ipc.c:517-520 | finds a client exactly when the list holds one with that fd |
| `ClientRegistry.Registry.Destroy` | src/agent/ipc.c:522-547 | takes exactly this client out of list, table and count |
| `ClientRegistry.Unlink` | src/agent/ipc.c:528-546 | the walk over the links unlinks the client wherever it stands and leaves the others in order |
| `ClientRegistry.Link` | src/agent/ipc.c:510-512 | the new client is put in front of the list |
| `ClientRegistry.IndexAdd` | src/agent/ipc.c:485-515 | the look-up map of a list with one more client |
| `ClientRegistry.IndexDrop` | src/agent/ipc.c:522-547 | the look-up map of a list with one client less |
| `Framing.FramesUnique` | src/agent/ipc.c:1531-1548 | frames cut off the front of a stream are exactly its first frames, whatever follows |
| `Framing.PrefixHasNone` | src/agent/ipc.c:1565-1578 | no frame is seen in a strict prefix of one |
| `Connection.DispatchIsFraming` | src/agent/ipc.c:1524-1609 | in every state of every run, however recv chunks the stream: bytes received are the frames dispatched followed by the buffer; the frames are those of the unchunked stream, in order; each has exactly one reply, in order |
| `Connection.PeerSeesWholeMessages` | src/agent/ipc.c:1611-1672 | in every state of every run, the bytes sent cut by their own lengths are the messages built, in order, all but at most the one in progress |
| `Connection.NoPushIsLost` | src/agent/ipc.c:638-664 | in every state of every run, of all pushes raised for the client those not overwritten are each covered by exactly one notification, in order, or are pending behind a send; the pending word is the OR of the pending pushes |
| `Connection.StepRaises` | src/agent/ipc.c:638-664 | every step logs exactly the pushes it raises: one per status change the client subscribed to, and one per served GET_TOKEN that runs into the TPM lockout |
| `Connection.OverwrittenExactly` | src/agent/ipc.c:911-919 | a push goes without a notification exactly when the step serves a GET_TOKEN that runs into the lockout on a client subscribed to status events |
| `Connection.OverwriteIsReachable` | src/agent/ipc.c:911-919 | such a step is reached: connect, subscribe, take the reply, and ask for a token of a TPM that locks out |
| `Connection.RaisedBits` | src/agent/ipc.c:641-644 | a push is raised with exactly the bits of the status change that the client subscribed to |
| `BitWords.AndBit` | src/agent/ipc.c:641-641 | the modelled AND has a bit exactly when both words have it |
| `BitWords.OrBit` | src/agent/ipc.c:649-649 | the modelled OR has a bit exactly when either word has it |
| `BitWords.BitValue` | src/agent/ipc.c:641-648 | bit k is the binary digit of weight 2^k |
| `Connection.OrAllBit` | src/agent/ipc.c:646-650 | a coalesced event word has exactly the bits of the pushes it covers |
| `Connection.RunOk` | src/agent/ipc.c:1524-1672 | the connection invariant holds in every state of every run |
| `Connection.NextOk` | src/agent/ipc.c:1524-1672 | every read, write or push keeps it |
| `Connection.RecvHasRoom` | src/agent/ipc.c:1550-1552 | recv is never called with length zero and never past the buffer |
| `Connection.ProcessOk` | src/agent/ipc.c:1014-1018 | nothing is pending when a request is processed, so cancelling a subscription drops no event |
| `Connection.PushNeverArms` | src/agent/ipc.c:638-654 | a push leaves a message waiting and never arms EPOLLOUT itself |
| `Connection.PushMovesIffArmed` | src/agent/ipc.c:638-654 | after a relevant push the connection can send exactly when a message was already on its way with EPOLLOUT armed |
| `Connection.SendsIffArmed` | src/agent/ipc.c:1974-1981 | a waiting message can move on exactly while EPOLLOUT is armed |
| `Connection.UnarmedIsStuck` | src/agent/ipc.c:1580-1592 | from a state with a message waiting and EPOLLOUT off, nothing is sent or dispatched on the connection in any later state of any run |
| `Connection.StuckIsReachable` | src/agent/ipc.c:638-654 | such a state is reached: connect, subscribe, take the reply, and let the status change |
| `Connection.ResponseIsFrame` | src/agent/ipc.c:549-562 | every response declares its own length |
| `Replies.ServedReply` | src/agent/ipc.c:1459-1520 | a served request is answered on the wire with the result and payload it should have, and an accepted SUBSCRIBE, and nothing else, sets the mask and the subscription to what the request carries |
| `Replies.ReplyMeans` | src/agent/ipc.c:1487-1520 | which result and payload: 2, 8 or 1 for a bad header, 0 or 7 for SUBSCRIBE, 9 for a lockout, else the handler's own |
| `Replies.RefusalMeans` | src/agent/ipc.c:1468-1520 | a request reaches its handler exactly with the right magic, version, command and payload length; which refusal otherwise |
| `Replies.ResponseFields` | src/agent/ipc.c:549-562 | a response reads back to magic, version, result, length and payload at their offsets |
| `Replies.NoticeFields` | src/agent/ipc.c:613-636 | a notification reads back to result 0x80, every bit of the pushes it covers, and the status it was built with |
| `Replies.PushReports` | src/agent/ipc.c:638-654 | a push to an idle subscriber puts a notification of exactly the subscribed events and the current status into the buffer |
| `Replies.ReadResults` | src/agent/ipc.c:1524-1609 | a read closes the connection exactly on an oversize header, end of stream or an error; dispatches exactly when a whole request is there and nothing is being sent; else leaves the send side alone |
| `Replies.ReadTakes` | src/agent/ipc.c:1553-1570 | a read that finds no whole request buffered takes as many of the waiting bytes as fit, and there is room for one; any other read takes none |
| `Replies.WriteFails` | src/agent/ipc.c:1611-1650 | a write fails exactly when a send fails before the message is out |
| `Replies.ArmedWhileWaiting` | src/agent/ipc.c:1652-1659 | while EPOLLOUT is armed, every step leaves it armed exactly if a message is left to send |
| `Replies.SendsUntilDrained` | src/agent/ipc.c:1652-1659 | once armed, a connection can send in every later state of a run until its buffer has been empty |
| `Replies.DrainStep` | src/agent/ipc.c:1635-1659 | a socket that takes the whole message is next offered all deferred pushes in one notification, with EPOLLOUT armed |
| `Replies.DeferredPushArrives` | src/agent/ipc.c:1635-1672 | a push behind a message on its way is sent: after that message and the notification, every push not overwritten has been reported and the buffer is empty |
| `IpcClient.Client.HandleRead` | src/agent/ipc.c:1524-1609 | does to the buffers what the read step does to their value; the receive buffer never overflows |
| `IpcClient.Client.HandleWrite` | src/agent/ipc.c:1611-1672 | does to the buffers what the write step does, for every sequence of send results |
| `IpcClient.Client.PushNotify` | src/agent/ipc.c:638-664 | builds a notification or coalesces into the pending word, as the push step says |
| `IpcClient.Client.ProcessRequest` | src/agent/ipc.c:1459-1522 | one reply takes the send buffer and an accepted SUBSCRIBE takes effect |
| `IpcClient.Client.Handle` | src/agent/ipc.c:993-1031 | header checks in order, SUBSCRIBE's effect on flags and mask, and the reply bytes |
| `IpcClient.Client.ServeBuffered` | src/agent/ipc.c:1580-1608 | a buffered request is deferred while a send is pending, else processed and shifted out |
| `IpcClient.Client.Finish` | src/agent/ipc.c:1635-1659 | resets the send buffer and turns pending events into one notification |
| `IpcClient.RunConnection` | src/agent/ipc.c:1965-1981 | whatever events the loop delivers, a new client's buffers go through a run of the connection model, one step per event |
| `IpcClient.HandleEvent` | src/agent/ipc.c:1973-1981 | one event does to the buffers what the step does to their value |
| `TrustMaps.Maps.TrustLib` | src/agent/bpf_loader.c:1843-1876 | trusts the library and counts its ancestors, or leaves every count as it was when undo works; a failure after the key was entered deletes the key, so the library map is as before exactly when the key was not entered or not in it already; fails only if a map operation failed, a path did not resolve or a count had no room |
| `TrustMaps.SecondPathTakesTheKey` | src/agent/bpf_loader.c:1865-1873 | two paths to one file, the second below an unresolvable directory: trusting both in turn leaves the first outstanding, no operation failed, and the file gone from the library map |
| `TrustMaps.Maps.UntrustLib` | src/agent/bpf_loader.c:1878-1908 | with working undo and a matching trust, takes back exactly that library's references and its file key; the library map still holds every outstanding library exactly when no other one has that key; a path without a key is refused and changes nothing |
| `TrustMaps.OneUntrustTakesTheKey` | src/agent/bpf_loader.c:1878-1908 | a library trusted twice and untrusted once is outstanding still and gone from the library map, with no operation failed |
| `TrustMaps.Maps.KeyGoes` | src/agent/bpf_loader.c:1899-1901 | deleting one library's key leaves the keys of the others exactly when none of them shares it |
| `TrustMaps.Maps.FileKeyMeans` | src/agent/bpf_loader.c:1889-1897 | a library has a key exactly when its path is absolute and stat finds it with a non-zero device and inode |
| `TrustMaps.Maps.DirKeyMeans` | src/agent/bpf_loader.c:1667-1690 | so has a directory |
| `TrustMaps.Maps.UpdateRef` | src/agent/bpf_loader.c:1667-1722 | one directory's 32-bit count goes up or down by one, the entry vanishing at zero; unresolved or full counts are refused unchanged |
| `TrustMaps.Maps.Walk` | src/agent/bpf_loader.c:1759-1838 | after any failure exactly the first `applied` ancestors have been counted |
| `TrustMaps.Maps.Rollback` | src/agent/bpf_loader.c:1787-1829 | takes back exactly the first `applied` increments |
| `TrustMaps.Maps.UpdateParents` | src/agent/bpf_loader.c:1724-1841 | all ancestors of the path are counted, or none when undo works |
| `TrustMaps.Maps.MountCount` | src/agent/bpf_loader.c:1667-1908 | over every run with matching untrusts and working undo, a mountpoint's count is the number of (outstanding library, ancestor) pairs resolving to it, and its entry is absent exactly at zero |
| `TrustMaps.Maps.TotalIsPairs` | src/agent/bpf_loader.c:1724-1841 | the references of a list of libraries counted pair by pair |
| `TrustMaps.Maps.EmptyWhenNoneTrusted` | src/agent/bpf_loader.c:1843-1908 | with nothing outstanding both maps are empty |
| `TrustMaps.Maps.DropLib` | src/agent/bpf_loader.c:1878-1908 | removing one library from the outstanding list removes exactly its own references |
| `Paths.Advance` | src/agent/bpf_loader.c:1759-1783 | each turn of the walk finds the next ancestor prefix; the ENAMETOOLONG exits cannot be taken |
| `Paths.ParentsAreProperPrefixes` | src/agent/bpf_loader.c:1724-1838 | the directories counted for an absolute path are exactly the proper prefixes of its components, however many slashes separate, precede or follow them |
| `Paths.MalformedHaveNoParents` | src/agent/bpf_loader.c:1741-1754 | an empty path, one that does not fit the buffer or one without a slash is refused |
| `Paths.SlashSplits` | src/agent/bpf_loader.c:1758-1784 | a slash separates the components before it from those after it |
| `Paths.ComponentsOfJoin` | src/agent/bpf_loader.c:1758-1784 | splitting a path into components undoes joining them |
| `TrustedLibs.TrustEach` | src/agent/startup_policy.c:701-711 | trusts a list up to the first failure, which is a failed operation or a library that cannot be held; a whole list is then held exactly |
| `TrustedLibs.UntrustBack` | src/agent/startup_policy.c:804-812 | untrusts the applied libraries and leaves the earlier ones outstanding |
| `TrustedLibs.UntrustFront` | src/agent/reload.c:401-411 | untrusts a held list completely when undo works |
| `TrustedLibs.RestoreEach` | src/agent/reload.c:431-445 | a list that was held before can be held again, every library in turn; what it reports restored is exactly what was trusted |
| `TrustedLibs.NextHolds` | src/agent/reload.c:413-425 | a library of a list that can be held can be trusted when its turn comes |
| `TrustedLibs.Restorable` | src/agent/reload.c:431-445 | re-trusting never runs out of 32-bit counts that the list had before |
| `TrustedLibs.ReloadLibs` | src/agent/reload.c:388-452 | the new list replaces the old one, or list, trusted map and mountpoint counts are all as before; it fails only if an operation did or the new list cannot be held |
| `Canonical.CanonIsCanonical` | src/agent/startup_policy.c:84-135 | sorting and dropping repeats gives a strictly increasing list of the same elements |
| `Canonical.CanonIgnoresOrder` | src/agent/startup_policy.c:84-135 | two lists have one canonical form exactly when they have the same elements |
| `Canonical.StrictUnique` | include/lota_runtime_protect_digest.h:39-52 | a strictly increasing list is fixed by its set of elements |
| `Canonical.SortPermutes` | src/agent/startup_policy.c:108-108 | sorting permutes |
| `Canonical.SortIgnoresOrder` | src/agent/startup_policy.c:587-591 | sorted lists are equal exactly when they are permutations of each other |
| `Canonical.LexMeans` | src/agent/startup_policy.c:223-259 | strcmp and memcmp order: a prefix, or smaller at the first byte that differs |
| `Canonical.DedupNext` | src/agent/startup_policy.c:121-126 | the copy loop keeps an element exactly when it differs from its predecessor |
| `DigestInputs.ImageInputInjective` | include/lota_runtime_image_measure.h:105-172 | different module lists are hashed from different bytes |
| `DigestInputs.ProtectV1Injective` | include/lota_runtime_protect_digest.h:54-107 | different PID lists are hashed from different bytes |
| `DigestInputs.ProtectV2Injective` | include/lota_runtime_protect_digest.h:117-171 | different PID lists or image digests are hashed from different bytes |
| `DigestInputs.VersionsNeverCoincide` | include/lota_runtime_protect_digest.h:54-171 | no version 1 input is a version 2 input |
| `DigestInputs.NonceInputInjective` | include/lota_token_quote_nonce.h:52-101 | different metadata, policy digest or protect digest give different nonce inputs |
| `Layouts.ImageLayout` | include/lota_runtime_image_measure.h:105-172 | the image input at its offsets: domain, module count, then each soname and digest behind its length |
| `Layouts.ProtectV1Layout` | include/lota_runtime_protect_digest.h:54-115 | the version 1 input at its offsets: domain, count, PIDs |
| `Layouts.ProtectV2Layout` | include/lota_runtime_protect_digest.h:117-171 | the version 2 input at its offsets: domain, count, then each PID and its image digest |
| `Layouts.NonceLayout` | include/lota_token_quote_nonce.h:52-101 | the nonce input at its offsets: validity, flags, PCR mask, client nonce, policy digest, protect digest, epoch |
| `Layouts.PolicyLayout` | src/agent/startup_policy.c:316-473 | the policy input at its offsets: domain, mode, flag word, then the counted lists of digests, PIDs and libraries |
| `Layouts.FlagBits` | src/agent/startup_policy.c:293-305 | bits 0 to 4 of the flag word are the five flags, bit 5 is always set, no other is |
| `Layouts.LibsInOrder` | src/agent/startup_policy.c:150-190 | the libraries are listed strictly increasing in strcmp order |
| `Layouts.PathText` | src/agent/startup_policy.c:428-440 | a path is hashed as its characters |
| `ImageMeasure.EntrySeen` | src/agent/runtime_image_measure.c:120-130 | true exactly when the inode was kept before |
| `ImageMeasure.CollectExecMaps` | src/agent/runtime_image_measure.c:132-174 | keeps the first mapping of each inode; fails exactly on a malformed line or one inode too many; well-formed lines with too many inodes are E2BIG |
| `ImageMeasure.ValidateModules` | include/lota_runtime_image_measure.h:75-98 | accepts exactly lists of at most 256 well-formed modules in strictly increasing order; E2BIG for more, else EINVAL |
| `ImageMeasure.ComputeImageDigest` | include/lota_runtime_image_measure.h:105-172 | the field-by-field hash context is the image input; fails exactly when validation does |
| `ImageMeasure.Collapse` | src/agent/runtime_image_measure.c:313-318 | compacts a sorted array in place to its list without repeats |
| `ImageMeasure.MeasurePid` | src/agent/runtime_image_measure.c:268-329 | succeeds exactly when the lines parse and name 1 to 256 measurable, named inodes, and then hashes the canonical module list; no inode at all is ENOENT, too many are E2BIG |
| `ImageMeasure.CollapsedAcceptable` | src/agent/runtime_image_measure.c:306-321 | the sorted and collapsed list passes the validator exactly when every module has a name |
| `ImageMeasure.ModuleOrder` | include/lota_runtime_image_measure.h:58-68 | the comparator is a total order that calls only equal modules equal |
| `ImageMeasure.ModuleOrderMeans` | include/lota_runtime_image_measure.h:58-68 | the order is by soname as strcmp, then by digest length, then by digest as memcmp |
| `ImageMeasure.EntriesOfLines` | src/agent/runtime_image_measure.c:132-174 | the entries are those of the mapped lines, in order |
| `ImageMeasure.ImageIsTheFirstPairs` | src/agent/runtime_image_measure.c:120-329 | two measurements hash the same list exactly when the (soname, digest) pairs of the first mappings of each inode are the same set |
| `ImageMeasure.MeasuresAllPairs` | src/agent/runtime_image_measure.c:132-174 | the modules measured are all mapped pairs exactly when every mapped pair is also that of some inode's first mapping |
| `ImageMeasure.FirstPairsAreAll` | src/agent/runtime_image_measure.c:120-174 | the same for the pairs themselves, both directions |
| `ImageMeasure.ImageIsThePairSet` | src/agent/runtime_image_measure.c:120-329 | where that holds of both processes, two measurements hash the same list exactly when the processes map the same set of (soname, digest) pairs |
| `ImageMeasure.OneNameIsFirst` | src/agent/runtime_image_measure.c:150-167 | it holds whenever each inode appears under one file name |
| `ImageMeasure.TwoNamesCanBeFirst` | src/agent/runtime_image_measure.c:150-167 | one file name per inode is not needed for it: another inode may carry the second name |
| `ImageMeasure.FirstNameWins` | src/agent/runtime_image_measure.c:150-167 | it can fail: for one inode under two names the first name mapped is hashed, so equal pairs in another order give another list |
| `ProtectDigest.ValidatePids` | include/lota_runtime_protect_digest.h:39-52 | accepts exactly strictly increasing lists |
| `ProtectDigest.ComputeV1` | include/lota_runtime_protect_digest.h:54-107 | hashes the version 1 input, refused exactly when not strictly increasing |
| `ProtectDigest.ComputeV2` | include/lota_runtime_protect_digest.h:117-171 | hashes the version 2 input, refused exactly when not strictly increasing |
| `ProtectDigest.ComputeQuoteNonce` | include/lota_token_quote_nonce.h:52-101 | hashes the nonce input |
| `ProtectDigest.NonceBinds` | include/lota_token_quote_nonce.h:52-101 | one nonce means one statement: equal metadata, policy digest, PID list and per-PID module lists, or a SHA-256 collision on inputs the statements name |
| `ProtectDigest.NonceBindsMappings` | src/agent/runtime_image_measure.c:268-329 | one nonce means the same (soname, digest) pairs of first mappings under each PID, and the same mapped pairs where every pair is named first |
| `ProtectedPids.Contains` | src/agent/ipc.c:1033-1042 | membership |
| `ProtectedPids.Add` | src/agent/ipc.c:1095-1139 | the sorted list with the PID added once; fails exactly for PID 0 or without memory |
| `ProtectedPids.Remove` | src/agent/ipc.c:1141-1185 | the sorted list without the PID; needs no memory for the last one |
| `ProtectedPids.CanonicalList` | src/agent/ipc.c:1055-1093 | a sorted copy, refused exactly for repeats or without memory; the list itself when it is increasing |
| `ProtectedPids.RuntimePolicy.constructor` | src/agent/startup_policy.c:769-787 | a committed startup policy: epoch 0, canonical PIDs, all in the kernel map |
| `ProtectedPids.RuntimePolicy.ProtectPidUpdate` | src/agent/ipc.c:1187-1391 | which requests are answered and how, with the startup policy digest and the size of the list; the list changes by exactly this PID; the run goes on by one step; over every run the kernel map equals the list until a kernel update succeeds, the new list cannot be allocated and the undo fails, and exactly then they part; a success moves the epoch by one exactly if the list changes |
| `ProtectedPids.RuntimePolicy.Apply` | src/agent/ipc.c:1262-1391 | the same for an admitted request |
| `ProtectedPids.RuntimePolicy.Commit` | src/agent/ipc.c:1345-1361 | list and epoch move together |
| `ProtectedPids.RuntimePolicy.TokensAgree` | src/agent/ipc.c:793-870 | any two GET_TOKEN replies with one epoch carry one PID list |
| `ProtectedPids.EpochCountsChanges` | src/agent/ipc.c:1345-1361 | over every run the epoch rises by one with each change of the list and never otherwise |
| `ProtectedPids.EpochNamesTheList` | src/agent/ipc.c:1345-1361 | over every run, equal epochs mean equal lists |
| `ProtectedPids.RunKept` | src/agent/ipc.c:1294-1307 | over every run the list is strictly increasing with at most 1024 entries |
| `TokenFormat.HeaderRoundTrip` | include/lota_ipc.h:147-176 | reading the 136-byte header and writing it are inverse, both ways |
| `TokenFormat.TokenLayout` | include/lota_ipc.h:147-176 | the fixed part of a token at its offsets |
| `TokenFormat.PayloadAt` | src/agent/ipc.c:945-959 | a payload holds the encoding of a token exactly when reading it by its own sizes gives that token |
| `TokenFormat.ParseInvertsPayload` | src/sdk/lota_gaming.c:690-791 | the SDK reads back every token field for field exactly when the payload is at most 5768 bytes; no byte is left over |
| `TokenFormat.SdkRefusesLargeToken` | src/sdk/lota_gaming.c:648-691 | a token over 160 PIDs is within the agent's limit and refused by the SDK |
| `TokenFormat.ParsedIsPayload` | src/sdk/lota_gaming.c:690-791 | whatever the SDK accepts begins with the encoding of the token it returns |
| `TokenFormat.GetTokenSdk` | src/sdk/lota_gaming.c:682-791 | the SDK's checks and copy loop compute that reading |
| `TokenFormat.WritePayload` | src/agent/ipc.c:932-959 | the agent's writer produces the encoding |
| `GetToken.HandleGetToken` | src/agent/ipc.c:723-985 | when a token is issued and which error is returned otherwise, exactly; a token carries the policy digest, the runtime list and the epoch, its digests recompute from its fields to the digest carried and the nonce quoted, and it states the measured modules of every PID; the token carries the first 32 bytes of the request, or 32 zeros if it is shorter |
| `GetToken.Quoted` | src/agent/ipc.c:854-967 | hash, quote and size limits with their errors; the nonce given to the TPM is the one the fields give |
| `GetToken.MeasureAll` | src/agent/ipc.c:830-852 | one image digest per PID, or failure if any process cannot be measured |
| `GetToken.ReplyDecodes` | src/agent/ipc.c:922-966 | every reply, cut by its own size fields, gives the token with no byte left over; the SDK accepts it exactly up to its buffer size |
| `GetToken.OneNonceOneStatement` | src/agent/ipc.c:884-897 | two replies quoted over one nonce state the same, or SHA-256 collides on inputs they name |
| `GetToken.OneNonceOneChallenge` | src/agent/ipc.c:773-776 | two replies over one nonce were asked for with the same 32 bytes, or SHA-256 collides on inputs the replies name |
| `PolicyDigest.InputIsThePolicy` | src/agent/startup_policy.c:261-473 | the same bytes are hashed exactly for the same mode, flags, digest sequence, PID set and library set |
| `PolicyDigest.DigestBindsPolicy` | src/agent/startup_policy.c:261-473 | one digest means one policy, or SHA-256 collides on the two inputs |
| `PolicyDigest.RecomputeFromSnapshot` | src/agent/startup_policy.c:193-221 | recomputing from the snapshot with a list of PIDs gives the startup bytes exactly when it lists the startup PIDs |
| `PolicyDigest.SnapshotIsCanonical` | src/agent/startup_policy.c:714-767 | the snapshot keeps mode, flags, digests and both sets, listed in increasing order |
| `PolicyDigest.RecomputeForPids` | src/agent/startup_policy.c:193-221 | the recomputation reproduces the startup digest for any listing of the startup PIDs |
| `PolicyDigest.ComputePolicyDigest` | src/agent/startup_policy.c:261-473 | hashes the policy input; fails exactly past the caps, for a digest that is not SHA-512, or without memory; ENOSPC, ENOMEM or EINVAL by cause |
| `PolicyDigest.CanonicalizePids` | src/agent/startup_policy.c:84-135 | the sorted set of PIDs |
| `PolicyDigest.CanonicalizeLibs` | src/agent/startup_policy.c:137-191 | the sorted set of libraries |
| `PolicyDigest.HashPids` | src/agent/startup_policy.c:360-400 | feeds count and values of the sorted set |
| `PolicyDigest.HashLibs` | src/agent/startup_policy.c:402-447 | feeds count, lengths and bytes of the sorted set |
| `PolicyDigest.HashDigests` | src/agent/startup_policy.c:343-358 | feeds every digest with its length |
| `PolicyDigest.PathOrder` | src/agent/startup_policy.c:248-259 | strcmp on paths is a total order |
| `StartupPolicy.ApplyStartupPolicy` | src/agent/startup_policy.c:475-872 | success puts exactly the policy in force, commits its digest and canonical snapshot at epoch 0, and happens only if every check and allocation passed and the libraries can be held; failure means an update failed or the policy cannot be applied, commits nothing and, from fresh maps with working undo, leaves all maps and flags as loaded; the kernel mode is restored exactly when it could be read, was not yet set, or did not change; the committed digests are in memcmp order |
| `StartupPolicy.ApplyAll` | src/agent/startup_policy.c:512-767 | after any failure exactly the recorded progress has been made, and each step is taken only after all those before it |
| `StartupPolicy.ApplyFirst` | src/agent/startup_policy.c:515-616 | lock, strict mmap, allowlist and digest, with the progress made |
| `StartupPolicy.AllowAndHash` | src/agent/startup_policy.c:546-616 | the allowlist holds the measured digests, sorted or not yet sorted, when it stops; the digests hashed are in memcmp order |
| `StartupPolicy.ApplyFlagsAndMode` | src/agent/startup_policy.c:626-684 | the remaining flags and the mode, with the progress made |
| `StartupPolicy.ApplyLists` | src/agent/startup_policy.c:688-712 | PIDs and libraries, with the progress made |
| `StartupPolicy.RollBack` | src/agent/startup_policy.c:803-872 | takes back exactly the recorded progress when undo works; memory and kernel mode agree either way |
| `StartupPolicy.UnreadModeStays` | src/agent/startup_policy.c:836-849 | a startup from MONITOR to ENFORCE that cannot read the old mode and fails at the snapshot: all else is taken back, and with no failed update the kernel is left in ENFORCE |
| `StartupPolicy.SortedDigests` | src/agent/startup_policy.c:587-589 | sorting the digests keeps what was allowed, so the rollback finds every one |
| `StartupPolicy.VerityOrder` | src/agent/startup_policy.c:223-235 | the digest comparator is a total order |
| `StartupPolicy.CommitInOrder` | src/agent/startup_policy.c:587-591 | the committed digests are sorted in memcmp order |
| `StartupPolicy.OneCommitPerPolicy` | src/agent/startup_policy.c:587-616 | two startups commit one digest exactly when mode, flags, the multiset of measured digests, the PID set and the library set agree, in whatever order they were listed, or SHA-256 collides |
| `Reload.FlagsTransaction` | src/agent/reload.c:176-312 | all flags, or none when rollbacks work, and then only because an update failed; each flag old or new otherwise; memory equals kernel always |
| `Reload.ApplyFlag` | src/agent/reload.c:187-196 | memory changes only when the kernel did |
| `Reload.ReloadPids` | src/agent/reload.c:314-386 | the new list replaces the old; after a failure the list is kept and the kernel set has lost the new PIDs protected before it and regained the old ones, which is the set before exactly when that held the old PIDs and none of those new ones on another account; without memory a non-empty list is refused |
| `Reload.OtherPidIsLost` | src/agent/reload.c:357-370 | a reload that lists a PID protected on another account and fails at a later one takes that PID out of the kernel set |
| `Reload.ReloadMode` | src/agent/reload.c:568-577 | memory and kernel mode move together |
| `Reload.ReloadConfig` | src/agent/reload.c:506-627 | mode and flags in memory equal the kernel's after it if they did before, whatever fails; ENFORCE is left only with a verified signature; a refused reload changes nothing; each part is the new one, or the old one because something failed; after a successful PID reload the kernel set has the new PIDs in place of the old |
| `Lifetime.Live` | src/agent/daemon_loop.c:112-141 | over startup and any number of reloads with arbitrary failures, mode and flags equal the kernel's, every reload that leaves ENFORCE is signed, and with working undo the library maps hold exactly the agent's list; every SIGHUP is refused and changes nothing, or puts the whole new configuration in memory unless an operation failed |
| `Lifetime.Sighup` | src/agent/daemon_loop.c:124-140 | one SIGHUP: refused, or every part new or old, and all new where nothing failed and the libraries can be held |
| `Lifetime.StartsInStep` | src/agent/startup_policy.c:769-792 | a policy in force starts the runtime PID run in agreement with the kernel map |
| `ByteCodec.Le16RoundTrip` | include/lota_seal.h:92-107 | reading and writing 16 bits are inverse at every offset |
| `ByteCodec.Le32RoundTrip` | include/lota_seal.h:97-115 | reading and writing 32 bits are inverse at every offset |
| `ByteCodec.Le64RoundTrip` | include/lota_endian.h:25-29 | reading and writing 64 bits are inverse at every offset |
| `ByteCodec.Be16RoundTrip` | src/agent/enroll.c:24-94 | the same, big-endian |
| `ByteCodec.Be32RoundTrip` | src/agent/enroll.c:33-105 | the same, big-endian |
| `ByteCodec.LittleEndian` | include/lota_endian.h:11-29 | the bytes written are the digits in base 256, least significant first |
| `ByteCodec.BigEndian` | src/agent/enroll.c:24-128 | the same, most significant first |
| `SealHeader.ParseIff` | include/lota_seal.h:136-218 | a blob parses to a meta exactly when the meta is valid, the blob begins with its serialisation and has the declared length: both round trips |
| `SealHeader.OneLengthOnly` | include/lota_seal.h:204-208 | every strict prefix and every extension of an accepted blob is refused |
| `SealHeader.ParseErrors` | include/lota_seal.h:172-218 | EMSGSIZE exactly for a missing header, or a valid one whose blob has another length; else EINVAL |
| `SealHeader.HeaderLayout` | include/lota_seal.h:136-165 | the header fields at their offsets |
| `SealHeader.SerializeHeader` | include/lota_seal.h:136-161 | writes the header over the first 52 bytes and nothing else, exactly for a valid meta; refuses exactly a mask that is empty or beyond PCR 23, another algorithm, or a length that is zero or too large |
| `EnvelopeHeader.ParseIff` | include/lota_envelope.h:96-168 | both round trips for envelope headers |
| `EnvelopeHeader.ParseErrors` | include/lota_envelope.h:128-168 | EMSGSIZE exactly for a missing header, or a valid one whose envelope has another length; else EINVAL |
| `EnvelopeHeader.HeaderLayout` | include/lota_envelope.h:96-121 | the header fields at their offsets |
| `EnvelopeHeader.SerializeHeader` | include/lota_envelope.h:96-117 | writes the header over the first 48 bytes and nothing else, exactly for a valid meta; refuses exactly a length that is zero or too large |
| `EnvelopeHeader.EnvelopeStarts` | include/lota_envelope.h:175-182 | an envelope is told by its first four bytes, however short it is |
| `EnvelopeHeader.MagicDecides` | include/lota_envelope.h:175-180 | the magic test sends every acceptable blob to the one decoder that accepts it |
| `EnrollWire.FieldsIff` | src/agent/enroll.c:45-120 | a list of bounded fields is read back exactly from bytes that begin with its encoding |
| `EnrollWire.ReplyIff` | src/agent/enroll.c:182-242 | a body decodes to a reply exactly when the reply is in bounds and the body begins with its encoding |
| `EnrollWire.CutRejected` | src/agent/enroll.c:182-242 | every strict prefix of a valid reply is rejected, as EBADMSG |
| `EnrollWire.Reader.Bytes16` | src/agent/enroll.c:45-59 | the cursor reads one bounded field and stops after it |
| `EnrollWire.Reader.Preamble` | src/agent/enroll.c:61-78 | magic and version checks, in order; which error for which bytes |
| `EnrollWire.DecodeChallenge` | src/agent/enroll.c:182-213 | computes the decoding of a challenge |
| `EnrollWire.DecodeResult` | src/agent/enroll.c:215-242 | computes the decoding of a result |
| `EnrollWire.Writer.Bytes16` | src/agent/enroll.c:107-120 | appends one field, or fails exactly when it is too long or does not fit |
| `EnrollWire.EncodeBegin` | src/agent/enroll.c:130-153 | writes the request, failing exactly out of bounds or out of space |
| `EnrollWire.EncodeComplete` | src/agent/enroll.c:155-180 | writes the request, failing exactly out of bounds or out of space |
| `EnrollWire.RequestReadsBack` | src/agent/enroll.c:130-180 | the readers recover the fields of a request, whatever follows it |

## Left out

- TPM operations, the boot commitment, OpenSSL, libbpf, TLS, D-Bus, systemd and seccomp: calls into other systems; their results are inputs.
- Parsing of /proc/<pid>/maps lines, configuration text, command line and YAML export: string plumbing with shallow properties.
- Privilege checks and signature verification: their verdicts are booleans.
- PING, GET_STATUS and SHUTDOWN handlers: their replies are arbitrary payloads in `Connection`; the shutdown flag is not modelled.
- Listener sockets, accept and epoll itself: a connection's events arrive in any order.
- Cleanup of all clients at exit: it would only add a loop over `ClientRegistry.Registry.Destroy`.
- AES-GCM and the body of sealed blobs and envelopes: only headers and lengths are modelled.
- Agreement of the kernel's protected set with the IPC runtime set across reloads: reload keeps a list of its own, so that invariant covers IPC requests only.
- Process exit, which removes PIDs from the kernel's protected set on its own.
- Hash context failures (EIO): the hash is a function.
- StartupPolicy.ApplyStartupPolicy: one `noMemory` input stands for all allocations before the lists are applied and `noSnapshot` for those after, because where an allocation fails changes only how much is rolled back.
- TrustMaps.Maps.TrustLib: which errno a failure returns is not modelled; the reload's exception for ENOENT is a nondeterministic choice in `TrustedLibs.UntrustFront`.
