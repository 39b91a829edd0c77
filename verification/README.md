# Secure-partition services: a verified model

The repository implements services of an Arm secure partition: a notification-id
allocator, a TPM service over control pages with a library that drives the real
TPM, the FF-A calls underneath, and a serial relay to the embedded controller.
This project models the parts that keep state or translate between formats, and
proves what they promise over all inputs and all runs.

- **Notify** (`Notify*.dfy`, `Bits.dfy`). Sixteen entries of sixty-four mappings and
  one 64-bit bitmap that has to agree with all of them. `NotifySpec` gives the
  effect of every request on values, where a bitmap word appears as the set of its
  positions; `NotifyService` is the service with its fields, loops, copies, shifts
  and masks, each method proved to do what `NotifySpec` says for every request.
  Beside it stand an independent description of the service as a map from receivers
  to cookies to bindings (`NotifyAbstract`), exactness of the bitmap over runs
  (`NotifyExact`) and when precisely it is lost (`NotifyConditions`, `NotifyAssign`,
  over runs `NotifyRuns`, with failing requests in `NotifyWitnesses`), what a
  request does tuple by tuple (`NotifyPositions`), batches against one-tuple
  requests (`NotifyBatch`), release as the exact inverse of registration
  (`NotifyInverse`), and the life of entries and mappings (`NotifyEntries`).
  `NotifyWire` decodes requests from payload registers.
- **TPM service** (`TpmSpec.dfy`, `TpmService.dfy`, `TpmTrace.dfy`,
  `TpmCommands.dfy`, `TpmImage.dfy`). The state machine behind the control pages. A
  run interleaves arbitrary host writes, requests, initialisation and shutdown; what
  the device answers is a parameter. Every device call is logged. `TpmTrace` shows
  that the log alone determines the service's state and that each call is allowed
  where it happens, `TpmCommands` that each call asked for and allowed is made;
  `TpmImage` shows what the host reads in the pages.
- **State translation library** (`SstSpec.dfy`, `TpmSst.dfy`, `SstTheorems.dfy`,
  `SstStarts.dfy`, `TpmTimer.dfy`). One TPM command through a CRB or a FIFO
  interface, the TPM being any function from command bytes to response bytes. The
  burst counts to come, the bytes the device offers and its faults are parameters.
  `TpmRuns.dfy` puts service and library together and follows what one FIFO holds
  from step to step: over whole runs the interface does not show.
- **FF-A codecs** (`Words.dfy`, `Ffa.dfy`) and the **EC relay** (`EcRelay.dfy`):
  console chunking, direct messages, framed packets, the ODP header.

Where the code and a plausible reading of it part, the code is kept and the exact
condition is proved:

- The bitmap is exact for requests whose Setup, Add and Assign ids are at least 1
  and whose Assign requests rename no mapping twice. For Setup and Add the condition
  is necessary as well (`RegisterExactIff`, failing in `ZeroIdRegistered`). A
  successful Assign keeps the bitmap exact if and only if it is balanced: the bits
  its tuples set for good are the ids from 1 that its mappings end with, each once
  (`AssignExactIff`, failing in `RepeatedCookieLeaks` and `ZeroIdSetsBitZero`). For
  ids from 1 that means that a tuple whose cookie is named again later asks for the
  id the mapping already has (`AssignFromOneIff`); for requests of that kind with
  any ids it means that every tuple asking for id 0 is followed by one on an
  unassigned mapping (`AssignSettledIff`). Over a run the bitmap is exact in every
  state if and only if every request that succeeds is of these kinds
  (`RunExactIff`).
- A request that repeats a cookie can succeed although its tuples, sent one by one,
  would not. A Setup then leaves two mappings with one cookie
  (`RegisterSequenceIff`, `RegisterUniqueIff`, failing in
  `RepeatedCookieRegistered`); a Destroy from source 0 can release one mapping twice
  (`ReleaseSequenceIff`, failing in `ReleasedTwiceOver`); an Assign differs exactly
  when its simulated bitmap does (`AssignSequenceIff`).
- Readiness does not belong to a locality. Any locality can be granted and start a
  command without a cmdReady of its own if and only if the state at the hand-over
  is ready, or complete with idle bypass (`ReadinessOutlivesLocality`).
- A reset drops the active locality without giving it back to the device, which then
  may hold two (`ResetForgetsLocality`). The device never holds two if and only if
  whatever a reset drops is relinquished before another locality is granted
  (`ExclusionIff`). Shutdown leaves the pages as they are, truthful only when no
  locality was active (`DeinitShowsIff`).
- FIFO and CRB differ when a response is shorter than its header says: the FIFO
  denies, the CRB returns what its buffer held before (`InterfacesAgreeIff`, failing
  in `ShortResponseDiffers`).
- A denied start may leave part of its command in the FIFO, and nothing makes the
  service empty it: a later start then has the TPM execute those bytes and its own
  (`LeftoversReachTheTpm`). A command that executes is its own if and only if the
  FIFO was empty (`ExecutesOwnIff`); every start of a run finds it empty if and only
  if each one that leaves bytes is followed by a successful cmdReady or goIdle
  before the next (`EmptyAtStartsIff`).
- Decoding a direct message drops the upper half of x1 (`EncodeDecodedIff`).

A UUID is the 128-bit number it is decoded from (in `Ffa`, its 16 bytes). Rust
arrays of plain values are sequences where the code copies them as a whole
(`entries`, `temp_entries`) and arrays where it updates them in place (control
pages, locality states, data buffers).

## Model

| member | source | states |
|---|---|---|
| Bits.BitSetInjective | ec-service-lib/src/services/notify.rs:205-207 | a bitmap word is its set of positions: equal sets mean equal words |
| Bits.TestBit | ec-service-lib/src/services/notify.rs:277-280 | `bitmap & bit != 0` tells whether the position is in the set |
| Bits.SetBit | ec-service-lib/src/services/notify.rs:294 | `bitmap \|= bit` inserts exactly that position and stays a 64-bit word |
| Bits.ClearBit | ec-service-lib/src/services/notify.rs:361 | `bitmap &= !bit` removes exactly that position |
| NotifyService.NfyBitmask | ec-service-lib/src/services/notify.rs:173-180 | a mask exists exactly for ids below 64, and means that one position |
| NotifySpec.Position | ec-service-lib/src/services/notify.rs:215-223 | the first position that satisfies the test, and none only if no element does |
| NotifySpec.FindCookie | ec-service-lib/src/services/notify.rs:241-251 | the first in-use mapping with the cookie, and none only if there is none |
| NotifySpec.FindOrCreate | ec-service-lib/src/services/notify.rs:225-239 | the receiver's entry as it is, or a fresh one in the first unused place; every other entry is as before, and there is none exactly when all are used by others |
| NotifyService.Notify.constructor | ec-service-lib/src/services/notify.rs:199-213 | a new service holds sixteen unused entries of default mappings and an empty bitmap |
| NotifyService.Notify.FindOrCreateEntry | ec-service-lib/src/services/notify.rs:228-239 | the method finds or opens the entry the specification names, and changes nothing when the table is full |
| NotifyService.Notify.RegisterMapping | ec-service-lib/src/services/notify.rs:253-304 | on success slots and bitmap are those of the register loop over the request, otherwise both are untouched; cookies are looked up in the slots before the request; an index beyond the table is refused |
| NotifyService.Notify.UnregisterMapping | ec-service-lib/src/services/notify.rs:306-371 | the same for the unregister loop; the shift that builds the mask never exceeds the word; an index beyond the table is refused |
| NotifyService.Notify.CheckAssign | ec-service-lib/src/services/notify.rs:432-459 | the validation pass accepts, and simulates the bitmap, exactly as specified, without changing state |
| NotifyService.Notify.AssignMappings | ec-service-lib/src/services/notify.rs:427-471 | all tuples are applied or none; the lookup of the apply pass never fails |
| NotifyService.Notify.UnassignMappings | ec-service-lib/src/services/notify.rs:473-501 | all tuples are cleared or none; the lookup of the apply pass never fails |
| NotifyService.Notify.HandleRegister | ec-service-lib/src/services/notify.rs:373-416 | Setup and Add have the specified effect and status on every state and request |
| NotifyService.Notify.HandleKnown | ec-service-lib/src/services/notify.rs:395-501 | Destroy, Remove, Assign and Unassign have the specified effect and status |
| NotifyService.Notify.FfaMsgSendDirectReq2 | ec-service-lib/src/services/notify.rs:508-527 | one request is one step of the specification; unknown message ids change nothing |
| NotifyPositions.PaddingIgnored | ec-service-lib/src/services/notify.rs:266 | what a request carries past its count plays no part, in any message and from any state |
| NotifyPositions.RegisterPositions | ec-service-lib/src/services/notify.rs:253-304 | message numbers 0 and 2, when answered Ok, put exactly count more mappings in use, one made as each counted tuple says, set their bits and touch nothing else |
| NotifyPositions.ReleasePositions | ec-service-lib/src/services/notify.rs:306-371 | message numbers 1 and 3, when answered Ok, free the mapping each counted tuple describes, clear their bits and touch nothing else |
| NotifyPositions.AssignPositions | ec-service-lib/src/services/notify.rs:427-471 | message number 4, when answered Ok, gives each named mapping the id and type of the last counted tuple that names it and touches nothing else in the tables |
| NotifyPositions.UnassignPositions | ec-service-lib/src/services/notify.rs:473-501 | message number 5, when answered Ok, leaves each named mapping with id 0 and the global type, clears the bits of the ids they had and touches nothing else |
| NotifyPositions.UnknownMessage | ec-service-lib/src/services/notify.rs:154-156 | message numbers 6 and 7 are not answered and change nothing |
| NotifyBatch.BatchInOrder | ec-service-lib/src/services/notify.rs:266-295 | lookups in the old slots and simulated bitmaps give what running the tuples one by one on the current slots gives, for orderly batches: no cookie twice, or a settled Assign, or any Unassign |
| NotifyBatch.AssignInOrder | ec-service-lib/src/services/notify.rs:434-468 | check-then-apply Assign is sequential Assign whenever repeated cookies only repeat the id the mapping has |
| NotifyBatch.UnassignInOrder | ec-service-lib/src/services/notify.rs:478-497 | check-then-apply Unassign is sequential Unassign, repeated cookies or not |
| NotifyBatch.BatchIsSequence | ec-service-lib/src/services/notify.rs:253-501 | an orderly request of n tuples succeeds exactly when its n one-tuple requests all do, with the same final state; otherwise it answers the first failing tuple's code |
| NotifyBatch.RegisterSequenceIff | ec-service-lib/src/services/notify.rs:266-295 | a successful Setup or Add equals its one-tuple requests if and only if it repeats no cookie |
| NotifyBatch.ReleaseSequenceIff | ec-service-lib/src/services/notify.rs:319-362 | a successful Destroy or Remove equals its one-tuple requests if and only if it repeats no cookie |
| NotifyExact.StepKeepsShape | ec-service-lib/src/services/notify.rs:164-208 | any request keeps table sizes, ids below 64, and default values in everything not in use |
| NotifyExact.StepKeepsExact | ec-service-lib/src/services/notify.rs:253-501 | a careful request (ids from 1, no mapping renamed twice) keeps every bit set exactly when one and only one in-use mapping has that id, whatever its answer |
| NotifyExact.RunKeepsExact | ec-service-lib/src/services/notify.rs:253-501 | the same over every run, from any exact state |
| NotifyRuns.StepExactIff | ec-service-lib/src/services/notify.rs:253-501 | any request, whatever its answer, keeps the bitmap exact if and only if, when it succeeds, it is a Setup or Add without id 0, a balanced Assign, a release or an Unassign |
| NotifyRuns.RunExactIff | ec-service-lib/src/services/notify.rs:253-501 | over every run, the bitmap is exact in every state if and only if every request is of that kind when it comes |
| NotifyExact.InitiallyExact | ec-service-lib/src/services/notify.rs:210-213 | a new service is well shaped and exact |
| NotifyExact.FailureIsAtomic | ec-service-lib/src/services/notify.rs:253-501 | a request not answered Ok changes no mapping and no bit; it may only leave a newly opened empty entry |
| NotifyConditions.RegisterExactIff | ec-service-lib/src/services/notify.rs:266-295 | a successful Setup or Add keeps the bitmap exact if and only if it asks for no id 0 |
| NotifyConditions.RegisterUniqueIff | ec-service-lib/src/services/notify.rs:266-271 | a successful registration keeps cookies unique in its entry if and only if it repeats none |
| NotifyAssign.AssignExactIff | ec-service-lib/src/services/notify.rs:434-468 | any successful Assign, of any ids and cookies, keeps the bitmap exact if and only if the bits its tuples set for good are the ids from 1 its mappings end with, each once |
| NotifyAssign.AssignFromOneIff | ec-service-lib/src/services/notify.rs:434-468 | what that comes to for ids from 1: every repeated cookie's earlier tuples repeat the id the mapping had |
| NotifyAssign.AssignSettledIff | ec-service-lib/src/services/notify.rs:443-458 | what that comes to for settled requests of any ids: every tuple asking for id 0 is followed by one on a mapping that was unassigned |
| NotifyAssign.AssignSequenceIff | ec-service-lib/src/services/notify.rs:434-468 | any successful Assign, on any tables, equals its one-tuple requests if and only if the bitmap comes out the same whether tuples clear the ids their mappings had before or have by then |
| NotifyAssign.AssignSequenceFromOneIff | ec-service-lib/src/services/notify.rs:434-468 | what that comes to for ids from 1 on an exact bitmap: the request is settled |
| NotifyWitnesses.RepeatedCookieLeaks | ec-service-lib/src/services/notify.rs:443-445 | a concrete Assign naming one cookie twice is answered Ok, leaves a bit set for nobody and differs from its one-tuple requests |
| NotifyWitnesses.ZeroIdSetsBitZero | ec-service-lib/src/services/notify.rs:444-458 | a concrete Assign of id 0 is answered Ok and sets bit 0 |
| NotifyWitnesses.ZeroIdRegistered | ec-service-lib/src/services/notify.rs:273-294 | a concrete Setup of id 0 is answered Ok and sets bit 0 |
| NotifyWitnesses.RepeatedCookieRegistered | ec-service-lib/src/services/notify.rs:266-271 | a concrete Setup naming one cookie twice is answered Ok, leaves two mappings with it and differs from its one-tuple requests |
| NotifyWitnesses.ReleasedTwiceOver | ec-service-lib/src/services/notify.rs:319-361 | a concrete Destroy from source 0 releases one mapping twice, is answered Ok and differs from its one-tuple requests |
| NotifyConditions.OutOfSlotsMeansUnassigned | ec-service-lib/src/services/notify.rs:282-287 | a registration that finds its entry full finds an unassigned mapping in it |
| NotifyConditions.SlotsNeverRunOut | ec-service-lib/src/services/notify.rs:266-294 | in careful runs without Unassign NoMemory is answered exactly when a new receiver meets sixteen used entries |
| NotifyAbstract.StepSimulates | ec-service-lib/src/services/notify.rs:253-501 | on one tidy request (careful, and orderly on the receiver's slots) the service answers as the registry of bindings does and still represents it |
| NotifyAbstract.ServiceIsRegistry | ec-service-lib/src/services/notify.rs:199-501 | from the start, over every run of tidy requests, all answers are the registry's and the tables represent it |
| NotifyAbstract.RoomForCookie | ec-service-lib/src/services/notify.rs:282-287 | an entry holds fewer than 64 cookies exactly when a slot is free |
| NotifyAbstract.RoomForReceiver | ec-service-lib/src/services/notify.rs:221-232 | fewer than sixteen receivers are served exactly when an entry is unused |
| NotifyAbstract.BitIsTaken | ec-service-lib/src/services/notify.rs:277-280 | a bit is set, other than by the mapping being renamed, exactly when another binding has the id |
| NotifyEntries.RunKeepsEntries | ec-service-lib/src/services/notify.rs:215-239 | over every run in-use entries stay a prefix with distinct receivers, and no receiver's index changes |
| NotifyEntries.FullForEver | ec-service-lib/src/services/notify.rs:387-389 | once sixteen receivers are served a new one gets NoMemory after every run |
| NotifyEntries.RunKeepsMapping | ec-service-lib/src/services/notify.rs:306-371 | a mapping keeps its slot, cookie and source through every run without a Remove or Destroy of its cookie from its source to its receiver |
| NotifyInverse.ReleaseUndoesRegister | ec-service-lib/src/services/notify.rs:253-425 | after a successful Setup or Add of distinct cookies, Destroy or Remove of the same tuples in any order from the same source succeeds and restores every slot and the bitmap |
| NotifyWire.ExtractPacked | ec-service-lib/src/services/notify.rs:71-80 | a tuple packed into a register is extracted unchanged |
| NotifyWire.SameTupleIff | ec-service-lib/src/services/notify.rs:71-80 | two registers mean the same tuple if and only if they agree outside bits 1 to 22 |
| NotifyWire.RequestRoundTrip | ec-service-lib/src/services/notify.rs:83-108 | every request laid out in the payload registers is decoded as it was sent |
| NotifyWire.RequestLayout | ec-service-lib/src/services/notify.rs:83-108 | the bytes of the payload each field is read from, byte by byte, with the count capped at seven and padding past it |
| TpmService.TpmService.constructor | ec-service-lib/src/services/tpm.rs:234-246 | a new service is idle, with no active locality and all localities closed |
| TpmService.TpmService.InitInternalCrb | ec-service-lib/src/services/tpm.rs:272-288 | exactly the page of that locality is reset to its initial form |
| TpmService.TpmService.CleanInternalCrb | ec-service-lib/src/services/tpm.rs:297-345 | the active page, if any, is put into its known-good form, register by register, and nothing else changes |
| TpmService.TpmService.CommandFromReady | ec-service-lib/src/services/tpm.rs:391-414 | the Ready branch makes the decided call and has its effect |
| TpmService.TpmService.CommandFromComplete | ec-service-lib/src/services/tpm.rs:421-451 | the Complete branch makes the decided call and has its effect |
| TpmService.TpmService.HandleCommandRequest | ec-service-lib/src/services/tpm.rs:354-460 | a command request has the specified effect, log and answer |
| TpmService.TpmService.HandleLocality | ec-service-lib/src/services/tpm.rs:466-509 | a locality request or relinquish has the specified effect, log and answer |
| TpmService.TpmService.HandleStart | ec-service-lib/src/services/tpm.rs:532-560 | a start request, with truncated function and locality, has the specified effect and answer |
| TpmService.TpmService.HandleManageLocality | ec-service-lib/src/services/tpm.rs:590-612 | opening and closing change that locality's state only, and relinquish nothing |
| TpmService.TpmService.InitService | ec-service-lib/src/services/tpm.rs:620-647 | all pages reset, localities 0 and 1 open, runtime state dropped without a device call |
| TpmService.TpmService.DeinitService | ec-service-lib/src/services/tpm.rs:658-661 | runtime state dropped, all localities closed, pages kept |
| TpmService.TpmService.FfaMsgSendDirectReq2 | ec-service-lib/src/services/tpm.rs:709-759 | one request is one dispatch of the specification, including the source check of ManageLocality |
| TpmTrace.EveryRunTracked | ec-service-lib/src/services/tpm.rs:354-560 | over every run from construction, replaying the log of device calls gives the service's state, and every call was allowed where it happened |
| TpmTrace.LocalitiesExclude | ec-service-lib/src/services/tpm.rs:471-509 | between successful requests for two localities lies a successful relinquish of the first, or a reset that found the first active |
| TpmTrace.ExclusionIff | ec-service-lib/src/services/tpm.rs:471-509 | across resets, the device never holds two localities at once if and only if whatever a reset drops is relinquished before another is granted |
| TpmTrace.CommandsAreGranted | ec-service-lib/src/services/tpm.rs:543-549 | a command reaches the device only at a locality that was granted and neither relinquished nor reset since |
| TpmTrace.StartThenIdle | ec-service-lib/src/services/tpm.rs:416-450 | without idle bypass no other command follows a successful start before a successful goIdle or a reset |
| TpmTrace.OkMeansDone | ec-service-lib/src/services/tpm.rs:454-460 | a start request is answered Ok exactly when it made one device call and that succeeded |
| TpmTrace.OnlyManagersOpen | ec-service-lib/src/services/tpm.rs:590-612 | no request but a ManageLocality from a source of the managing range opens or closes a locality; it touches the named one only, and leaves the active locality, the state and the pages alone |
| TpmCommands.CommandCarriedOut | ec-service-lib/src/services/tpm.rs:354-460 | a command request makes exactly the call its page asks for first among those the protocol allows (goIdle, cmdReady, start, by register bits), with that call's effect and the device's answer; it is refused exactly when there is none |
| TpmCommands.CommandBuffers | ec-service-lib/src/services/tpm.rs:409-442 | the active buffer is zeros after a cmdReady or goIdle that leaves Complete, the response after a successful start, and untouched otherwise; other pages never change |
| TpmCommands.LocalityCarriedOut | ec-service-lib/src/services/tpm.rs:466-509 | a locality request makes exactly the call its page asks for, relinquish before request, with its effect and the device's answer; it is refused exactly when that is not allowed |
| TpmCommands.LocalityBuffers | ec-service-lib/src/services/tpm.rs:500-503 | a grant or relinquish zeroes the buffer of its locality and no other |
| TpmCommands.StartRefusals | ec-service-lib/src/services/tpm.rs:532-560 | which start requests reach no page, and how they are answered |
| TpmCommands.PlainRequests | ec-service-lib/src/services/tpm.rs:709-759 | the requests that concern no locality, by their numbers: answers, payloads and the registration they keep |
| TpmCommands.ManagerOpensAndCloses | ec-service-lib/src/services/tpm.rs:590-612 | operation 0 opens and operation 1 closes exactly the named locality, for a source 0xFFxx only; everything else is refused and changes nothing |
| TpmCommands.ClosedForGood | ec-service-lib/src/services/tpm.rs:543-549 | over every run in which nothing opens it, a closed locality stays closed and its start requests are denied without a device call |
| TpmCommands.OpenUntilClosed | ec-service-lib/src/services/tpm.rs:590-612 | over every run in which nothing closes it, an open locality stays open |
| TpmCommands.Restarted | ec-service-lib/src/services/tpm.rs:620-661 | initialisation opens localities 0 and 1 only, shutdown closes all, and both forget a registration |
| TpmCommands.CommandGetsThrough | ec-service-lib/src/services/tpm.rs:354-560 | from every initialised service some run has a command executed at locality 0, and at locality 1 |
| TpmTrace.ReadinessOutlivesLocality | ec-service-lib/src/services/tpm.rs:388-452 | from any reachable state, a locality can be granted and start a command with nothing renewing readiness on the way if and only if that state is ready, or complete with idle bypass |
| TpmTrace.ResetForgetsLocality | ec-service-lib/src/services/tpm.rs:651-655 | from any state with a locality other than 1 active, an initialisation and a request for 1 leave the device holding both: the log holds the old grant with no relinquish after it |
| TpmImage.StartCleans | ec-service-lib/src/services/tpm.rs:297-345 | after every start request the active page has nothing requested, the idle bit tells the state, and the address halves recombine to its own buffer |
| TpmImage.StartShows | ec-service-lib/src/services/tpm.rs:308-318 | a start request keeps the locality state registers telling the active locality exactly |
| TpmImage.RegistersAreMarked | ec-service-lib/src/services/tpm.rs:308-321 | after a command request for the active locality its state and status registers hold what they held and the marks of the locality, and nothing else |
| TpmImage.InitImage | ec-service-lib/src/services/tpm.rs:272-288 | after initialisation every page is quiet and idle, shows no active locality, has a zeroed buffer and carries the interface identifier 0x4111 |
| TpmImage.EveryRunShows | ec-service-lib/src/services/tpm.rs:297-345 | from any initialisation on, while the host leaves those registers alone and shutdowns find no locality active, the active page holds (active << 2) \| 0x82 and every other page 0 |
| TpmImage.DeinitShowsIff | ec-service-lib/src/services/tpm.rs:658-661 | shutdown keeps the pages truthful if and only if no locality was active |
| SstSpec.PacketLength | ec-service-lib/src/services/tpm_sst.rs:81-89 | the header's length field, exactly when there is a header and the length is at least a header and at most the capacity, which is at most the buffer; anything else is InvalidParameters |
| SstSpec.CommandIsComplete | ec-service-lib/src/services/tpm_sst.rs:586-600 | the command taken from the page is as long as its own header says |
| SstStarts.RefusedUpFront | ec-service-lib/src/services/tpm_sst.rs:574-600 | a page whose sizes or announced length are out of range is answered InvalidParameters, with the page and the FIFO as they were |
| SstStarts.AcceptableExecutes | ec-service-lib/src/services/tpm_sst.rs:574-641 | on a healthy device every other page gets its command executed: the complete response over the old bytes, or InvalidParameters when it does not fit |
| SstStarts.StartsIff | ec-service-lib/src/services/tpm_sst.rs:574-641 | on a healthy device that answers in full a start succeeds if and only if both sizes are within 10 and 0xF80 and the announced length within 10 and the command size |
| SstStarts.FaultsDeny | ec-service-lib/src/services/tpm_sst.rs:340-427 | a command that never finishes, a FIFO that still expects bytes and bursts that end early are answered Denied with the page as it was |
| SstStarts.FifoExecutesIff | ec-service-lib/src/services/tpm_sst.rs:353-427 | on a device without faults a FIFO is left empty if and only if what it held and the command together are one whole packet, which it executes; otherwise it keeps both and the start is denied |
| SstStarts.SentInBursts | ec-service-lib/src/services/tpm_sst.rs:361-380 | a command goes out as far as the burst counts before the first zero reach |
| SstStarts.SentUses | ec-service-lib/src/services/tpm_sst.rs:361-380 | sending uses the fewest burst counts that cover the command |
| SstStarts.FifoReadsIff | ec-service-lib/src/services/tpm_sst.rs:444-457 | reading n bytes from a FIFO succeeds if and only if there are n and the burst counts before the first zero allow n, and uses up no more of either |
| SstStarts.CrbStartsIff | ec-service-lib/src/services/tpm_sst.rs:574-641 | through a CRB that finishes, whatever the response: the buffer holds it over the command over what was there, and the start succeeds with as many of those bytes as they announce if and only if that is between a header and the response size |
| SstStarts.FifoStartsIff | ec-service-lib/src/services/tpm_sst.rs:340-459 | through a FIFO that neither refuses nor hangs, a start whose command goes out and whose response is whole and fits succeeds if and only if all of the response is offered and the burst counts after the fewest that cover the command cover it; otherwise it is denied, and either way the FIFO is left empty |
| SstStarts.ResponseIsTaken | ec-service-lib/src/services/tpm_sst.rs:91-106 | what has arrived of a response is what was taken off the stream, however the read ends |
| TpmSst.Sst.SendBurst | ec-service-lib/src/services/tpm_sst.rs:371-379 | at most one burst of bytes goes out, in order, and the budget never underflows |
| TpmSst.Sst.CopyToFifo | ec-service-lib/src/services/tpm_sst.rs:355-380 | the FIFO receives exactly the command on success and a prefix on a burst timeout, within every burst count, for any burst counts |
| TpmSst.Sst.CopyCommandData | ec-service-lib/src/services/tpm_sst.rs:340-394 | the command reaches the CRB buffer, or the FIFO after what that already held, and the FIFO must stop expecting bytes |
| TpmSst.External.Execute | ec-service-lib/src/services/tpm_sst.rs:398-427 | the device executes what its buffer or its FIFO holds, which empties the FIFO, or never finishes |
| TpmSst.Sst.NextByte | ec-service-lib/src/services/tpm_sst.rs:437-458 | one byte comes from the buffer offset or from the FIFO under its burst budget, with the specified denials |
| TpmSst.Sst.ReadTpmResponse | ec-service-lib/src/services/tpm_sst.rs:91-106 | the response is read as specified into the front of the buffer; after a failure the front holds exactly what had arrived; the rest is untouched |
| TpmSst.Sst.CopyResponseData | ec-service-lib/src/services/tpm_sst.rs:432-459 | a fresh burst budget for every response, and the specified outcome and buffer through either interface |
| TpmSst.Sst.StartCommand | ec-service-lib/src/services/tpm_sst.rs:574-641 | one start, on any device state and response, has the specified status, leaves in the internal page the response over the old bytes, or the page as it was, and in the FIFO what the specification says |
| TpmSst.Sst.ReadyOrIdle | ec-service-lib/src/services/tpm_sst.rs:467-570 | commandReady and goIdle take two polls on a CRB and one on a FIFO, which a success leaves empty |
| SstTheorems.CrbResponse | ec-service-lib/src/services/tpm_sst.rs:437-442 | a CRB response is the front of the device buffer, as long as its header announces |
| SstTheorems.ReadsExactly | ec-service-lib/src/services/tpm_sst.rs:98-105 | a FIFO response takes bytes from the front once each: the announced length on success, the ten header bytes after a bad length |
| SstTheorems.InterfacesAgreeIff | ec-service-lib/src/services/tpm_sst.rs:574-641 | on healthy devices, under any non-zero burst counts, an empty FIFO and a CRB agree in status and buffer if and only if the command is refused up front or the response is whole |
| SstTheorems.ShortResponseDiffers | ec-service-lib/src/services/tpm_sst.rs:437-458 | on a concrete short response a healthy FIFO denies and a healthy CRB succeeds |
| SstTheorems.FifoIsCrbOrDenied | ec-service-lib/src/services/tpm_sst.rs:340-459 | under any burst schedule, any fault, any response and any FIFO contents, a start is denied and leaves the buffer alone, or gives exactly what a healthy CRB gives whose TPM finds those contents in front of its command |
| SstTheorems.ExecutesOwnIff | ec-service-lib/src/services/tpm_sst.rs:353-394 | a command that executes through a FIFO is the one in the page if and only if the FIFO held nothing |
| SstTheorems.LeftoversAreExecuted | ec-service-lib/src/services/tpm_sst.rs:361-369 | a concrete start whose bursts end early is denied, and a concrete next one makes the TPM execute the leftovers and its own bytes |
| TpmRuns.StartReachesPage | ec-service-lib/src/services/tpm.rs:407-413 | a start request that reaches the device gets the library's answer, leaves in the active page what the library's start leaves, touches no other page and logs the call |
| TpmRuns.ServedRunsAgree | ec-service-lib/src/services/tpm.rs:354-560 | over every run on one FIFO that is empty at first, whatever its bursts and faults: if it denies no start, all states and answers of the service are those on a healthy CRB |
| TpmRuns.RunsAgree | ec-service-lib/src/services/tpm_sst.rs:340-459 | over every run with a TPM that answers complete packets, services on a healthy FIFO that is empty at first and on a healthy CRB have equal states and give equal answers |
| TpmRuns.EmptyAtStartsIff | ec-service-lib/src/services/tpm.rs:391-451 | over every run, each start finds the FIFO empty if and only if each one that leaves bytes in it is followed by a successful cmdReady or goIdle before the next |
| TpmRuns.LeftoversReachTheTpm | ec-service-lib/src/services/tpm.rs:407-413 | from any ready state, a denied start and a second one of the service lead the TPM to execute a command that no page held |
| TpmTimer.TicksAreLeast | ec-service-lib/src/services/tpm_sst.rs:108-111 | the ticks are the least number that lasts the microseconds, capped at the largest counter value |
| TpmTimer.TicksMonotone | ec-service-lib/src/services/tpm_sst.rs:108-111 | more microseconds at a higher frequency are never fewer ticks |
| TpmTimer.ElapsedAcrossWrap | ec-service-lib/src/services/tpm_sst.rs:128-132 | wrap-around subtraction never exceeds true elapsed ticks, and equals them below one turn of the counter |
| TpmTimer.Delay | ec-service-lib/src/services/tpm_sst.rs:140-147 | a delay never ends early from any counter value, and lets no due reading within a turn pass |
| TpmTimer.DelayIsLongEnough | ec-service-lib/src/services/tpm_sst.rs:140-147 | a delay lasts its microseconds whenever the counter can count that far |
| TpmTimer.WaitRegisterBits | ec-service-lib/src/services/tpm_sst.rs:308-335 | a poll first delays in full; it succeeds exactly when a look, a byte wide on a FIFO, finds the bits before an earlier one has run out of time, and gives up only after the whole timeout |
| TpmTimer.ShowsIff | ec-service-lib/src/services/tpm_sst.rs:323 | a poll finds its bits if and only if every bit of the set mask is one and every bit of the clear mask is zero |
| TpmTimer.LookAt | ec-service-lib/src/services/tpm_sst.rs:316-320 | on a FIFO a look sees the eight lowest bits, on a CRB all |
| Words.UnpackPacked | odp-ffa/src/function/console.rs:35-40 | bytes packed into registers come back, followed by zero padding |
| Words.PackUnpacked | odp-ffa/src/function/msg/register_payload.rs:39-43 | registers unpacked into bytes come back unchanged |
| Words.RegisterAtIndex | odp-ffa/src/function/msg/register_payload.rs:31-43 | the register accessor and the register iterator agree |
| Words.RegisterBytes | odp-ffa/src/function/msg/register_payload.rs:39-43 | the eight bytes of a register, the least significant first, as digits of its value |
| Ffa.TryFromIter | odp-ffa/src/smc.rs:131-157 | seventeen registers, the values and then zeros, exactly when there are at most seventeen values |
| Ffa.ConsoleRoundTrip | odp-ffa/src/function/console.rs:31-44 | a chunk of at most 128 bytes always fits its call, and the receiver reads exactly the chunk |
| Ffa.ConsoleLayout | odp-ffa/src/function/console.rs:31-44 | which byte of which register holds which byte of the chunk, with the length in x1 and zeros past the end |
| Ffa.NextCall | odp-ffa/src/function/console.rs:11-16 | the next call carries the next 128 bytes, or all that is left |
| Ffa.ChunksRoundUp | odp-ffa/src/function/console.rs:47-59 | the number of calls is the length over 128, rounded up |
| Ffa.WriteStr | odp-ffa/src/function/console.rs:46-60 | the calls of a string decode to the string; after a refused call they decode to a prefix, and that call was the last |
| Ffa.PayloadFromIter | odp-ffa/src/function/msg/register_payload.rs:7-16 | a payload is the bytes given followed by zeros |
| Ffa.DecodeEncoded | odp-ffa/src/function/msg/direct_message.rs:19-63 | every direct message survives encoding and decoding |
| Ffa.EncodeDecodedIff | odp-ffa/src/function/msg/direct_message.rs:36-63 | registers survive decoding and encoding if and only if x1 is below 2^32 |
| Ffa.EncodedLayout | odp-ffa/src/function/msg/direct_message.rs:19-34 | source above destination in x1, the UUID's bytes in order in x2 and x3, the payload's bytes in order from x4 on |
| Ffa.DecodedLayout | odp-ffa/src/function/msg/direct_message.rs:36-63 | a message is read by the same layout, from the lower 32 bits of x1 |
| EcRelay.MctpSerialTransport.RecvFramedPacket | ec-service-lib/src/services/ec_relay.rs:234-257 | one packet is read as specified into the front of the buffer, after a failure as much as had arrived; the rest of the buffer is untouched, and the stream is left where reading stopped |
| EcRelay.ReceiveFrame | ec-service-lib/src/services/ec_relay.rs:234-257 | a frame that fits is received whole and nothing beyond it is consumed |
| EcRelay.ReceivedIsFrame | ec-service-lib/src/services/ec_relay.rs:234-257 | whatever is received ends in its only flag, fits the buffer, and stood at the front of the stream |
| EcRelay.FramesInOrder | ec-service-lib/src/services/ec_relay.rs:234-257 | frames sent one after another are received one after another |
| EcRelay.NoFlag | ec-service-lib/src/services/ec_relay.rs:239-241 | with no flag in a bufferful exactly that much is consumed and reported incomplete |
| EcRelay.ReadFails | ec-service-lib/src/services/ec_relay.rs:242-250 | a stream that times out, breaks or ends before the flag is reported so |
| EcRelay.ArrivedIsTaken | ec-service-lib/src/services/ec_relay.rs:234-257 | what has arrived of a packet is what was taken off the stream, but for one failed read at its end |
| EcRelay.ParseBuilt | ec-service-lib/src/services/ec_relay.rs:54-75 | a built ODP header parses to its fields, the message id cut to 15 bits, whatever follows |
| EcRelay.BuildParsedIff | ec-service-lib/src/services/ec_relay.rs:54-75 | a parsed header can be built again if and only if its unused bits and its error bit are clear |
| EcRelay.BuiltLayout | ec-service-lib/src/services/ec_relay.rs:54-62 | the four bytes of a built header: request bit, service, message id |
| EcRelay.ParsedLayout | ec-service-lib/src/services/ec_relay.rs:65-75 | what the bytes of a header say, and that fewer than four are refused |

## Left out

- BatchIsSequence: that the order condition is necessary is shown for successful requests only; what a refused request with repeated cookies answers is not compared.
- Delay: that time goes on, so that some counter reading ends the loop, is assumed. The same holds for WaitRegisterBits.
- StartCommand: the register polls inside it are represented by their outcomes.
- ReadyOrIdle: its polls, modelled in `TpmTimer`, are represented by their outcomes; the register writes of the locality operations are left out.
- What a FIFO makes of a cmdReady that times out, of a command that never finishes, and of a change of locality or a reset in between: it is taken to keep what it holds.
- Layout of the Notify and TPM responses: fixed record copies.
- Vendor, device and reserved registers of a control page, and its interface identifier's unused bits.
- Addresses of control pages beyond their being disjoint: pages are an array of five records.
- MCTP framing inside the relay, UUID parsing, logging, volatile access, the SMC instruction and yielding to the scheduler: library or hardware.
- `take_array`, `take_exact_array`, message routing, battery, thermal, time alarm, firmware management, UCSI, eSPI and UART code: straight-line or table code that would add only easy members.
- The test-only feature that bypasses the locality check.
