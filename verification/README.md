# Verified model of the DVB-RCS return link modules

The modules add a satellite return link to ns-2: a hub that divides a multi-frequency
superframe among terminals, terminals that ask for capacity and send in the bursts they
are granted, and three ways of cutting packets into what a burst carries. This project
models them in Dafny and proves what they keep.

**The allocator.** A superframe is a set of frames, each a grid of carriers and timeslots
with its own burst size; frames may have different numbers of timeslots. `Superframe`
holds the geometry and the bitmaps that keep a terminal from sending twice at once,
`Scheduler` one phase of `assign_timeslot` as a state machine, `BurstPlan` what every turn
keeps, `WorkConservation` and `ContMode` what a whole phase achieves, `SlotEnding` when it
ends, `Superframes` the three phases of a superframe and whole runs of requests and
superframes, `Rotation` whose turn it is, `Accounts` what a run grants, told from its
events, and `StaleFrame` the loop with the local variables that carry a frame from one turn
to the next. `MacAllocator` is the object on its arrays, with one method for each of the
original's, and `TerminalMask` the bitmap in bytes; both are proved to do what the state
machine does. `MacTdmaDama` is the terminal that decodes the plan.

**RLE.** `PrioFid` is the linked priority queue, `RleFormat` the headers and the grammar
of the stream of one frag_id, `RleSender` the filling of a burst, `RleReceiver` and
`RleLossy` reassembly with and without loss, `RleChannel` whole runs of a sender,
`RleSystem` many sources at one receiver, and `MacRle` the object: linked headers,
counters, and the hashed pool of contexts.

**MPEG.** `MpegSender` packs packets into cells, `MpegReceiver` and `MpegChannel`
reassemble them when any cells may be lost, and `MpegEncap` is the object.

**ATM.** `Atm` is segmentation and reassembly over one shared buffer, `AtmEncap` the
object with its linked buffer.

**Smaller parts.** `OrderStatistics` and `OrderTree` are the counted search tree that
`fullrun` keeps samples in; `Requester`, `Smoothing` and `MacRequester` are the capacity
requester: its volumes, its rate, and the object.

Where the original changes objects and arrays step by step, so do the classes here; each
method is proved against a specification on values, and the main results are lemmas about
that specification. Assumptions on the caller:

- in a phase every terminal that asks has a rule that applies to it. Without one the
  original goes on with the frame of an earlier turn, or one never set. The methods of the
  object do what it then does; `Scheduler` and the results built on its turns leave it
  out, `StaleFrame` proves when the two agree, and a run of superframes has no result from
  the first superframe on in which the assumption fails;
- the loop of a phase ends. It always does in CONT mode; in SLOT mode it does when some
  terminal, like the hub, asks for nothing, and `SlotEnding` gives the exact condition and
  an input on which it does not. A run whose allocation does not return has no result;
- the superframe has at most MAX_SLOTS cells;
- RLE: bursts have room for a fragment header, frag_ids are below 8, one destination for
  each sender. Results on every source assume that its fragments have a context to
  themselves, as they do with sources below 64, and that the receiver never takes the
  accept branch without a packet; `RleSystem.ReceiverRunsIff` says exactly when that holds,
  and it does when nothing is lost;
- MPEG: each sender has one destination and gives its packets different uids, no two pids
  at a receiver agree modulo N_QUEUES, and at every packet the open cell has room to list
  another fragment, as it has with packets of 12 bytes or more. Beyond that the original
  writes past its arrays, and `MpegLL.SendFrags` stops;
- ATM: each circuit keeps the order of its cells.

Where code and comments differ the code is followed. In particular `dvb_space_` is not
brought up to date in a cell that a fragment fills, later packets of an MPEG cell without
the payload pointer do not pay for one, the RLE drop branch does not clear `len`, the walk
of `get_context` accepts a context that agrees in source or frag_id alone, and the
requester books a volume before capping it.

`TxNext` of RLE reads the total length with each fragment. The original reads it in the
packet's own header, which fragments share and which changes once, before the first
fragment of a split packet leaves; so every fragment shows the same value.

The project is written for Dafny 4.11; `dfyconfig.toml` lists its files.

## Model

| member | source | states |
|---|---|---|
| Superframe.BitsDisjointIffTimesDisjoint | src/mac-allocator.cc:304-360 | two cells, in any frames, have disjoint bit ranges exactly when their real time intervals do not overlap |
| Superframe.WidthExact | src/mac-allocator.cc:252-313 | masksize is a multiple of every timeslots_, so the division that gives a field its width is exact |
| Superframe.UniverseCard | src/helpfun.tcl:61-63 | the number of cells is the sum of carriers times timeslots, the slot_count_ the setup script computes |
| Superframe.CellBytesWithin | src/mac-allocator.cc:492-501 | distinct cells never hold more bytes than all cells of the superframe |
| Superframe.SlotInside | src/mac-allocator.cc:317-356 | every timeslot starts and ends inside the superframe |
| Superframe.SlotsTile | src/mac-allocator.cc:317-356 | the timeslots of a carrier are of equal length, follow each other without a gap and fill the superframe |
| Superframe.MaskSizesMultiply | src/mac-allocator.cc:242-259 | masksize is exactly the product of the timeslot counts |
| TerminalMask.Terminal.Reset | src/mac-allocator.cc:687-694 | clears every bit below masksize, byte by byte |
| TerminalMask.Terminal.SetMask | src/mac-allocator.cc:697-713 | adds exactly the bits of one field to the bitmap held in bytes |
| TerminalMask.Terminal.TestMask | src/mac-allocator.cc:716-734 | true if and only if no bit of the field is set |
| Scheduler.FitSucceeds | src/mac-allocator.cc:304-360 | a layout finds a cell if and only if some cell of the frame is empty and its bits are free in the bitmap |
| Scheduler.FitUnique | src/mac-allocator.cc:304-360 | what a layout picks is determined: at most one cell comes first in its order |
| MacAllocator.AllocatorMFTDMA.ScanFirst | src/mac-allocator.cc:308-322 | the loop of first fit, on the grid and the bitmap bytes, returns the first open cell by carrier and then timeslot, or none if there is none |
| MacAllocator.AllocatorMFTDMA.ScanBest | src/mac-allocator.cc:332-352 | the loop of best fit, which looks at the whole frame, returns the first open cell by timeslot and then carrier, or none if there is none |
| Scheduler.LayoutsAgree | src/mac-allocator.cc:304-360 | the orders of the two layouts spelled out: best fit succeeds exactly when first fit does on the same state; best fit takes the earliest open timeslot, on its lowest carrier, first fit the lowest open carrier, at its earliest timeslot |
| Scheduler.EarlierRulesFirst | src/mac-allocator.cc:467-490 | the cell given is that of the first applicable rule, in the order the rules were made, whose frame has one |
| Scheduler.TryRulesFails | src/mac-allocator.cc:467-490 | a terminal is refused exactly when no rule that applies to its deficit names a frame with a cell for it |
| Scheduler.ChoiceIff | src/mac-allocator.cc:467-490 | a terminal is given a cell exactly when a rule names the frame of one it may use, where a SMALL rule counts for deficits up to and including sl_threshold_ |
| Scheduler.StepShrinks | src/mac-allocator.cc:445-519 | as long as the loop does not get stuck, every turn makes the triple of free slots, left_to_check and, in SLOT mode, cyclic distance to a terminal that is satisfied or can be served smaller |
| Scheduler.Phase | src/mac-allocator.cc:430-524 | a phase that ends, as every one does in CONT mode, ends with no slot free or nothing left to check, and never raises a deficit |
| MacAllocator.AllocatorMFTDMA.MakeFrames | src/mac-allocator.cc:242-259 | builds the grids, with masksize the product of the timeslot counts and the slot count their sum |
| MacAllocator.AllocatorMFTDMA.Create | src/mac-allocator.cc:242-277 | an allocator made of frames and rules is in the starting state of the run |
| MacAllocator.Frame.Reset | src/mac-allocator.cc:64-72 | every cell of the grid becomes empty |
| MacAllocator.AllocatorMFTDMA.FirstFit | src/mac-allocator.cc:304-324 | occupies the lexicographically least eligible (carrier, timeslot) of the frame and marks its bits, or changes nothing and returns -1 |
| MacAllocator.AllocatorMFTDMA.BestFit | src/mac-allocator.cc:327-360 | occupies the eligible cell of least timeslot, lowest carrier first, and marks its bits, or changes nothing and returns -1 |
| MacAllocator.AllocatorMFTDMA.SeekTerminal | src/mac-allocator.cc:450-462 | the inner do-while leaves the cursor and left_to_check where the cyclic walk to the next positive deficit does |
| MacAllocator.AllocatorMFTDMA.TryFrames | src/mac-allocator.cc:467-490 | tries the applicable rules in order and takes the first cell found; the frame left over is null exactly when rules apply but none has a cell, and is that of an earlier turn when no rule applies |
| MacAllocator.AllocatorMFTDMA.Book | src/mac-allocator.cc:492-501 | writes the next entry of the burst plan and updates deficit, a and freeslots for it |
| MacAllocator.AllocatorMFTDMA.AssignTimeslot | src/mac-allocator.cc:430-524 | the loop on arrays with its local frame and offset, whenever it ends at all, leaves grid, bitmaps, ledgers, cursor and burst plan those of the specified loop, or reports that it went on with a frame never set |
| MacAllocator.AllocatorMFTDMA.InitRequestQueues | src/mac-allocator.cc:413-428 | adds each request to its deficit and resets left_to_check |
| MacAllocator.AllocatorMFTDMA.ResetAllocator | src/mac-allocator.cc:527-545 | empties grids, bitmaps and grants, and frees every slot |
| MacAllocator.AllocatorMFTDMA.ClipDeficits | src/mac-allocator.cc:583-593 | cuts deficits to max_req_buf_ and, with forget_debit_, raises negative ones to zero |
| MacAllocator.AllocatorMFTDMA.RcvReq | src/mac-allocator.cc:400-411 | a request replaces the rate and adds to the volume of its terminal |
| MacAllocator.AllocatorMFTDMA.Allocation | src/mac-allocator.cc:547-601 | the three phases on the object, when they end, produce the plan, grants and next state of the specified loop, with stale frames where it meets them, or report a frame never set |
| StaleFrame.AgreesIffNeverMisled | src/mac-allocator.cc:432-490 | the loop, which keeps frame and offset from turn to turn, does turn for turn what the phase says if and only if it never comes to a terminal none of whose rules apply while frame is not null |
| StaleFrame.RulesAreEnough | src/mac-allocator.cc:467-490 | it never does if before the phase every terminal that asks has a rule that applies |
| StaleFrame.PlanFollows | src/mac-allocator.cc:547-601 | where the run of superframes gives a plan, it is the one the loop makes of the three phases |
| StaleFrame.RawStepsCount | src/mac-allocator.cc:492-501 | even with stale frames freeslots and plan entries add up to the slots, a[i] is the bytes planned, and what leaves a deficit is granted |
| StaleFrame.MisledBooksAgain | src/mac-allocator.cc:467-501 | with a stale frame the cell found last is booked once more, for the terminal under the cursor; grid and bitmaps stay as they are |
| StaleFrame.CellBookedTwice | src/mac-allocator.cc:467-501 | with a terminal that has a SMALL rule only, a superframe in which two terminals are given the same cell and a slot counted as used stays empty |
| StaleFrame.FrameNeverSet | src/mac-allocator.cc:432-492 | from another cursor, the loop goes on with a frame that was never set |
| Superframes.IdlePhasesRun | src/mac-allocator.cc:445-490 | a rule without the SMALL condition for every terminal that may ask and, in SLOT mode, a terminal that asks for nothing, make all three phases end as specified |
| BurstPlan.StepsKeep | src/mac-allocator.cc:445-519 | after any number of turns: one plan entry for each occupied cell, cells distinct, bitmap equal to the union of the bit ranges of cells held, a[i] equal to the bytes planned, free counter right |
| BurstPlan.PhaseKeeps | src/mac-allocator.cc:430-524 | the same for a whole phase |
| BurstPlan.FreeCountsEmptyCells | src/mac-allocator.cc:492-501 | freeslots is the number of empty cells |
| BurstPlan.OneBurstAtATime | src/mac-allocator.cc:304-360 | two bursts of one terminal never overlap in time, whatever frames they are in |
| BurstPlan.EligibleIffNoOverlap | src/mac-allocator.cc:716-734 | the bitmap admits a free cell exactly when no burst of the terminal overlaps it in time |
| BurstPlan.GrantsFitSuperframe | src/mac-allocator.cc:492-522 | the grants add up to the plan, and the plan to at most the bytes of the superframe |
| WorkConservation.PhaseIsWorkConserving | src/mac-allocator.cc:445-519 | when a phase ends, in either mode and layout, no terminal with a positive deficit has a free, compatible cell in a frame an applicable rule names |
| WorkConservation.SlotModeIsFair | src/mac-allocator.cc:503-517 | at any point of a SLOT phase, two terminals that still ask and have had no failed attempt differ by at most one burst |
| Rotation.SeekMoves | src/mac-allocator.cc:450-462 | the inner do-while moves the cursor upwards modulo the number of terminals to the next one with a positive deficit, each move costing one of left_to_check |
| Rotation.NextServed | src/mac-allocator.cc:445-517 | the next burst goes to the first terminal from cur_term on, counting upwards modulo their number, that asks and can be served, if left_to_check reaches that far |
| Rotation.MovesCostBudget | src/mac-allocator.cc:507-513 | in CONT mode cur_term has always moved by exactly as many places as left_to_check has fallen: a phase goes round once |
| Rotation.NextStart | src/mac-allocator.cc:445-519 | the next superframe starts at the terminal being served when the slots ran out, in SLOT mode at the one after it; in CONT mode with slots to spare, where this one started |
| Rotation.FirstBurst | src/mac-allocator.cc:527-578 | the first burst of a superframe goes to the first terminal from the cursor left by the last one that has a deficit and can be served |
| Rotation.FirstBurstOfRun | src/mac-allocator.cc:131 | in the first superframe, that is the first of all terminals |
| ContMode.ContModeIsContiguous | src/mac-allocator.cc:507-513 | in CONT mode the bursts of one terminal follow each other: once left it is not served again in the phase |
| SlotEnding.SlotModeEndsIffNeverStuck | src/mac-allocator.cc:445-519 | SLOT mode ends if and only if it never reaches a state in which every terminal asks and none can be served |
| SlotEnding.StuckSoonOrNever | src/mac-allocator.cc:445-519 | if it does, it has after as many turns as there are free slots times terminals, so following it that far decides whether it ends |
| SlotEnding.IdleTerminalEndsLoop | src/mac-allocator.cc:450-461 | with one terminal that asks for nothing before the call, SLOT mode ends |
| SlotEnding.LoopCanHang | src/mac-allocator.cc:445-519 | a superframe with one asking terminal and no hub, from which the loop is stuck after its first burst and never ends |
| WorkConservation.PhaseIsSteps | src/mac-allocator.cc:445-519 | the specified phase is what finitely many turns of the loop reach |
| Superframes.AllocateIsSound | src/mac-allocator.cc:563-578 | over the three phases of a superframe: plan, grid and ledgers agree, nothing that could be served is left, what left a deficit was granted, and a debt is smaller than one burst |
| Superframes.RunKeepsAccount | src/mac-allocator.cc:400-593 | over every run of requests and superframes whose allocations return as specified: each deficit stays above minus one burst and at most max_req_buf_, every VBDC byte enters a deficit exactly once, and requests, grants, cuts and deficit balance |
| Superframes.CarriedOver | src/mac-allocator.cc:583-593 | what a terminal is owed after the three phases is carried over as it is up to max_req_buf_, cut to exactly max_req_buf_ above, and a debt is carried over or forgiven by forget_debit_; what is cut or forgiven is exactly the rest |
| Superframes.HubKeepsRunning | src/mac-allocator.cc:547-601 | allocations always return as specified in CONT mode, and in SLOT mode if the hub never asks, when every terminal that ever asks has a rule without the SMALL condition |
| Superframes.KindsInOrder | src/mac-allocator.cc:563-578 | the plan first serves the deficits carried over and CRA as far as possible, from these alone, then RBDC from what is left, then VBDC, each part after the one before |
| Accounts.BooksAreEvents | src/mac-allocator.cc:400-428 | told from the events alone: a rate counts once for every superframe until replaced, a volume exactly once, at the first superframe after it, the grants are the bytes in the plans, and the cuts what was owed beyond max_req_buf_ |
| Accounts.GrantsWithinRequests | src/mac-allocator.cc:547-593 | over every run plans, deficit and cuts balance with rates, volumes and forgiven debt; with debt carried over, bytes in the plans never exceed bytes requested plus one burst minus one |
| MacTdmaDama.MacTdmaDama.BtpDecoding | src/mac-tdmadama.cc:213-250 | schedules, in plan order, exactly the entries naming this terminal, with their offsets and sizes |
| MacTdmaDama.DecodedBytes | src/mac-tdmadama.cc:230-249 | the sizes scheduled add up to the bytes the plan gives the terminal |
| MacTdmaDama.DecodedCells | src/mac-tdmadama.cc:230-237 | a transmission has as many whole cells as fit its size |
| MacTdmaDama.TransmissionsMatchGrant | src/mac-tdmadama.cc:213-250 | what a terminal transmits is what it was granted, starting and ending inside the superframe and never two bursts at once |
| RleFormat.InitHeader | src/rle-encap.cc:64-85 | a header is made exactly for priorities up to 7: that of an unsent packet of its size plus the ALPDU header |
| PrioFid.Packet.InitPacket | src/rle-encap.cc:64-85 | writes that header in place, or reports the abort |
| PrioFid.InsertIsStable | src/prio_fid.cc:14-57 | insertion keeps the queue sorted, first come first served within a priority, and does not reorder the others |
| PrioFid.PacketQueueFid.Enque | src/prio_fid.cc:14-57 | relinks the list so that it holds the specified insertion; length, bytes, head and tail stay right; the old tail is returned |
| PrioFid.PacketQueueFid.InsertInside | src/prio_fid.cc:40-53 | the walk stops at the first packet of a worse priority and links the new one before it |
| PrioFid.PacketQueueFid.RemoveHead | src/mac-rle.h:84-87 | takes exactly the first packet off the list |
| RleSender.InsertKeeps | src/prio_fid.cc:14-57 | an arrival keeps the invariant of the sender: sorted, every part-sent packet first of its priority |
| RleSender.Fill | src/mac-rle.cc:166-218 | one burst keeps that invariant: psize stays positive and within total_length, overhead has been added once |
| RleSender.PackingIsExact | src/mac-rle.cc:166-224 | lengths plus headers add up to the burst size minus what is left, and FHS+PHS or more is left only with an empty queue |
| RleChannel.OverheadOnce | src/mac-rle.cc:183-192 | every fragment ever sent belongs to a packet that arrived, with a total length of its size, plus PHS and TS once if it is split and not at all if it is sent whole |
| RleSender.FillContinues | src/mac-rle.cc:166-218 | the fragments of each frag_id in a burst continue its stream by the grammar: whole packets, or first, middle and last fragments of one packet with lengths adding up to total_length and its number modulo 256 on the last |
| RleSender.FillCompletes | src/mac-rle.cc:166-218 | the packets a burst completes are those it takes off the queue, in order |
| RleSender.FillStopsInTime | src/mac-rle.cc:166-220 | every fragment of a burst but the first begins with FHS+PHS or more bytes left: the burst is over as soon as there are fewer |
| RleSender.ThreeBytesAreTooFew | src/mac-rle.cc:183-220 | in numbers: with 3 bytes left a burst is over, with 4 the next packet begins and then has 3 bytes of overhead |
| RleSender.FillByPriority | src/mac-rle.cc:166-218 | a burst carries better priorities first, and none while a packet of a better priority waits |
| RleChannel.EveryBurst | src/mac-rle.cc:148-224 | every burst of a run is so filled: to the end unless the queue runs empty, with nothing begun in too little room, best priorities first |
| MacRle.MacRle.SlotHandler | src/mac-rle.cc:148-218 | the do-while on the linked queue, its headers and the counters produces the fragments, leftover and queue of the specified burst, or reports a burst too short for a fragment header, where an unsigned length would go below zero |
| MacRle.MacRle.CutHead | src/mac-rle.cc:168-189 | a packet too big for the room is cut to it, with overhead added the first time only |
| MacRle.MacRle.SendHead | src/mac-rle.cc:192-209 | a packet that fits leaves the queue whole or as a last fragment, numbered and counted |
| RleChannel.RunOnTrack | src/mac-rle.cc:148-218 | for any arrivals and burst sizes the stream of every frag_id is accepted by the grammar and ends where the queue says, with next[fid] the number of packets completed modulo 256 |
| RleChannel.RunConserves | src/mac-rle.cc:148-218 | every packet that arrived has left or is queued, in order of arrival within its priority |
| RleChannel.RoundTrip | src/mac-rle.cc:148-404 | over a lossless channel, for any arrivals, priorities and burst sizes, each packet is delivered exactly once and in order within its frag_id; what is not delivered is still queued |
| RleChannel.ReceiverMirrorsSender | src/mac-rle.cc:148-404 | after all fragments so far exp_sn equals next[fid], and len equals total_length minus psize of the part-sent packet |
| RleChannel.RunStreamIsValid | src/mac-rle.cc:166-218 | every stream a sender writes is one the results on loss apply to |
| RleReceiver.LosslessDelivery | src/mac-rle.cc:324-404 | a stream received in full delivers exactly the packets it completes, in order |
| RleReceiver.WholePacketReceived | src/mac-rle.cc:356-404 | from any context, a split packet received whole leaves the context clean and is delivered exactly when the expected number, one further if a packet was still held, is its own |
| RleReceiver.RecoveryAfterLast | src/mac-rle.cc:373-403 | after any last fragment with a packet at hand the context is clean and expects the next number, so the next packet received whole is delivered |
| RleLossy.LastFragmentOutcome | src/mac-rle.cc:356-403 | all a last fragment can cause, under any loss: its own packet goes up exactly when first and last fragment and every byte arrived and its number was expected; if its first fragment was lost, bytes left over in the context may make up for the missing ones, and then the packet held goes up or there is none |
| RleLossy.LossyDelivery | src/mac-rle.cc:356-403 | told from the losses alone: with fewer than 256 ends in a row missing, a last fragment sends up its own packet if all of it arrived, empty middle fragments aside, and so did the first fragment of every split packet since the last end heard; and nothing otherwise |
| RleLossy.LossySurvivors | src/mac-rle.cc:324-404 | under any such loss the packets sent up are exactly, and in order, those whose fragments and whose predecessors since the last end heard arrived in that way |
| RleLossy.NoPacketIff | src/mac-rle.cc:373-398 | the accept branch finds no packet exactly when the first fragment was lost, no packet was held and the number expected when the packet began, and the bytes left over then are as many as are missing |
| RleLossy.LengthAt | src/mac-rle.cc:357-400 | the length of a context is the bytes heard since the later of the last first fragment heard and the last split packet sent up, and without either what its memory held and all bytes heard |
| RleLossy.NoPacketByLosses | src/mac-rle.cc:373-400 | told from the losses alone: the accept branch first finds no packet exactly when the first fragment was lost but the end of the split packet before it was not, and the bytes so counted are as many as are missing |
| RleLossy.NoPacketAfterDelivery | src/mac-rle.cc:379-400 | straight after a split packet was sent up only a packet none of whose bytes are missing can get there |
| RleChannel.AcceptWithoutPacket | src/mac-rle.cc:379-398 | two packets that a sender writes and a loss of two of their fragments that reaches that case, because the drop branch leaves len as it is |
| MacRle.HashBounds | src/mac-rle.cc:237-239 | the hash gives each source and frag_id a bucket of its own for up to 64 sources and 8 frag_ids, and for no more of either |
| MacRle.BucketIsPair | src/mac-rle.cc:237-245 | two pairs with frag_ids below 8 share a bucket exactly when they agree in frag_id and in the source modulo 64 |
| MacRle.MacRle.GetContext | src/mac-rle.cc:232-267 | for any source, the walk finds the one context of the bucket, even if it is that of another source, or takes a new one from the pool, which never runs out |
| MacRle.MacRle.Update | src/mac-rle.cc:353-403 | the fields of a context change as specified and the packet is sent up in the same cases; the null pointer of the accept branch is reported exactly where it is met |
| MacRle.MacRle.SendUp | src/mac-rle.cc:313-404 | a burst, fragment by fragment, changes the contexts and delivers as specified, up to its end or to the first fragment that meets the null pointer; fragments for other nodes are skipped |
| RleSystem.BurstsAreItems | src/mac-rle.cc:313-404 | bursts of any sources, one after another, are their fragments one after another |
| RleSystem.ContextsAreSeparate | src/mac-rle.cc:232-404 | in any mixture of sources, what is delivered from one bucket, which is one source and frag_id for sources below 64, depends on its own fragments only |
| RleSystem.FailsByItself | src/mac-rle.cc:379-398 | the receiver fails at a fragment exactly when the fragments of its own context make it take the accept branch without a packet |
| RleSystem.ReceiverRunsIff | src/mac-rle.cc:313-404 | in any mixture of bursts the receiver never fails if and only if no context, fed with its own fragments alone, does |
| RleSystem.LosslessNeverFails | src/mac-rle.cc:313-404 | when nothing is lost the receiver never fails |
| RleSystem.EverySourceRoundTrips | src/mac-rle.cc:148-404 | the round trip for every source and priority, however the bursts of all sources are mixed at a receiver that does not fail |
| RleSystem.EverySourceSurvivesLoss | src/mac-rle.cc:148-404 | the results on loss for every source and priority in any mixture of bursts at a receiver that does not fail |
| MpegSender.CellAccounting | src/mpeg-encap.cc:206-268 | in any run every fragment is positive, and a cell sent either was filled by a fragment, whose length dvb_space_ still shows, or its fragments, pusi byte and dvb_space_ add up to 184, never both; without the timer the latter are too tight for another packet |
| MpegSender.RunLeavesOpen | src/mpeg-encap.cc:246-268 | after every packet its last cell stays open exactly when 4 bytes are left in a cell with the pusi flag and 5 in one without; otherwise it is the last one sent; the timer sends it |
| MpegSender.SplitAccounts | src/mpeg-encap.cc:233-266 | one call sends full cells and at most one tight one, and keeps back a cell that accounts for every byte |
| MpegSender.FitsIffInBounds | src/mpeg-encap.cc:79-87 | no call ever writes past the arrays of a cell if and only if no cell, sent or open, lists more than MAX_FRAGS fragments |
| MpegSender.LongPacketsStayInBounds | src/mpeg-encap.cc:79-87 | with packets of at least 12 bytes no cell of any run, sent or open, lists more than MAX_FRAGS fragments, and the open one has room for another |
| MpegSender.TwelveBytesIsTheBound | src/mpeg-encap.cc:79-87 | 12 is the exact bound: every run with packets of b bytes or more keeps its cells to MAX_FRAGS, keeps room in the open one, and never writes past its arrays, if and only if b is at least 12 |
| MpegChannel.SplitSpells | src/mpeg-encap.cc:206-268 | one call appends to the open cell fragments of the packet that add up to its size plus 8 |
| MpegChannel.RunSpells | src/mpeg-encap.cc:206-268 | the cells of a run list the fragments of one packet after another |
| MpegReceiver.WordDelivers | src/mpeg-encap.cc:449-485 | a packet is sent up exactly when all its fragments arrive, whatever the buffer held before |
| MpegReceiver.AddedUp | src/mpeg-encap.cc:449-485 | fragments of one packet add up, and it is sent up when they come to exactly its size plus 8, not below and not beyond |
| MpegReceiver.WordsDeliver | src/mpeg-encap.cc:449-485 | the same for packets one after another, under any loss of fragments |
| MpegChannel.ExactUnderLoss | src/mpeg-encap.cc:206-485 | as long as no call writes past the arrays of a cell: whatever cells are lost and whenever the timer goes off, the packets sent up are exactly those all of whose cells arrived, once each, in order and with their original size |
| MpegChannel.InSurvivors | src/mpeg-encap.cc:449-485 | a packet is among those sent up if and only if it was sent and every cell carrying a fragment of it arrived |
| MpegChannel.BuffersAreSeparate | src/mpeg-encap.cc:90-107 | with pids that differ modulo N_QUEUES the probe never aborts and what is sent up from one pid depends on its own cells only |
| MpegChannel.ExactAmongSenders | src/mpeg-encap.cc:430-485 | exactness for each sender that never writes past its arrays, when a receiver hears the surviving cells of many in any mixture |
| MpegChannel.ServedWellIffSpread | src/mpeg-encap.cc:90-107 | a set of pids is served exactly in every mixture if and only if no two agree modulo N_QUEUES: otherwise a packet is lost though all its cells arrive, because its slot moves when another is freed |
| MpegEncap.GetQueue | src/mpeg-encap.cc:90-108 | the probe returns the first slot, going round from the hash, that is free or belongs to the key; it gives up exactly when there is none |
| MpegEncap.DvbPayload.InsertFrag | src/mpeg-encap.cc:79-87 | appends one fragment to the two arrays, which have room for MAX_FRAGS |
| MpegEncap.MpegLL.NewDvb | src/mpeg-encap.cc:170-192 | an empty cell with 184 bytes of space becomes the open cell of its slot |
| MpegEncap.MpegLL.SetPusi | src/mpeg-encap.cc:194-204 | marks a cell as starting a packet, at the cost of one byte, once |
| MpegEncap.MpegLL.SendFrags | src/mpeg-encap.cc:206-268 | the loop on cell and payload objects sends the specified cells and leaves the specified one open, with its timer running; it is refused exactly where the original writes past the arrays of the open cell |
| MpegEncap.MpegLL.HandleTimer | src/mpeg-encap.cc:414-427 | the timer sends the open cell and closes it |
| MpegEncap.MpegLL.SendUp | src/mpeg-encap.cc:430-490 | for any pid: reassembly in place, in the slot probed for and no other, delivers as specified, or aborts when every slot is in use for another pid |
| Atm.AddressesAreDistinct | src/atm-encap.cc:122-126 | circuits of different senders and flows are distinct exactly up to 8 flows |
| Atm.WithoutIsExact | src/atm-encap.cc:315-335 | clearing a circuit removes all its cells and keeps those of every other circuit in order |
| Atm.CircuitsAreSeparate | src/atm-encap.cc:281-348 | what is delivered on a circuit depends on its own cells only, although all share one buffer |
| Atm.WholePacket | src/atm-encap.cc:292-346 | a packet received whole leaves its circuit clean, and is delivered exactly when it was clean before |
| Atm.RoundTrip | src/atm-encap.cc:92-346 | in any interleaving that keeps the order of each circuit, its packets are delivered exactly once, in order, with their size |
| Atm.Recovery | src/atm-encap.cc:304-346 | from any buffer, after a last cell the packets that follow on its circuit are delivered |
| Atm.DeliveredUnderLoss | src/atm-encap.cc:337-346 | under any loss the packets delivered are those whose end arrives with as many stale cells buffered as they miss |
| Atm.ExactUnlessStale | src/atm-encap.cc:304-348 | delivery of a packet is right exactly when nothing stale is buffered, or its end is lost, or it misses a number of cells that is neither 0 nor that of the stale ones |
| Atm.ExactAfterEnd | src/atm-encap.cc:304-348 | if the end of the packet before arrived, a packet is delivered exactly when it arrives whole |
| Atm.CellsOfTwoPacketsCanAddUp | src/atm-encap.cc:337-346 | a loss after which cells of two packets pass for one |
| AtmEncap.AtmLL.SendFrags | src/atm-encap.cc:92-137 | all cells of a packet, the last one marked, or none at the queue limit |
| AtmEncap.AtmLL.Unlink | src/atm-encap.cc:304-335 | the loop unlinks exactly the cells of one circuit from the list in place, and counts them |
| AtmEncap.AtmLL.SendUp | src/atm-encap.cc:281-348 | list and delivery after a cell are those specified |
| AtmEncap.AtmLL.Reset | src/atm-encap.cc:187-203 | drops every cell of the list |
| OrderStatistics.InsertSorts | utils/fullrun.c:123-142 | insertion keeps the samples sorted and adds exactly the new one |
| OrderStatistics.InsertDescends | utils/fullrun.c:133-140 | inserting into the sorted samples of a tree is inserting into those of one subtree |
| OrderStatistics.InOrderSorts | utils/fullrun.c:439-473 | the samples of a run in order are a sorted permutation of it |
| OrderStatistics.OrderStatistic | utils/fullrun.c:155-165 | the k-th of them has at most k samples below it and more than k not above it |
| OrderTree.GrownElems | utils/fullrun.c:123-142 | a grown tree read from left to right is the sorted insertion, so it stays a search tree |
| OrderTree.InsertSort | utils/fullrun.c:123-142 | the recursion on linked nodes grows the tree by the new node and keeps every count equal to the size of the left subtree |
| OrderTree.PrintList | utils/fullrun.c:144-153 | writes the samples from left to right |
| OrderTree.GetNode | utils/fullrun.c:155-165 | finds the sample with so many before it |
| OrderTree.GetList | utils/fullrun.c:167-176 | returns the sample at the clamped index |
| OrderTree.ClampedIsMonotone | utils/fullrun.c:167-176 | a larger index never gives a smaller sample |
| OrderTree.Column.SaveData | utils/fullrun.c:457-467 | after any samples the tree holds exactly the sorted samples of the run |
| OrderTree.Column.Quantile | utils/fullrun.c:167-176 | for an index in range the sample selected is the order statistic of that index; below the range the least sample, above it the greatest |
| Requester.BacklogIsCovered | src/mac-requester.cc:173-185 | the volume booked is the least that, with what is outstanding and the input, covers the backlog: nothing, or exactly what is missing |
| Requester.TotalIsBounded | src/mac-requester.cc:173-185 | the running total never exceeds the largest excess of backlog over input in the last win_ requests |
| Requester.BookingKeeps | src/mac-requester.cc:176-185 | replacing the oldest entry keeps the ring equal to the volumes of the last win_ requests and the total equal to its sum |
| Requester.AskedCoversIffUncapped | src/mac-requester.cc:176-189 | volumes are booked before max_vbdc_ caps them: after a booking, those asked for cover the backlog exactly when none in the window was capped |
| Smoothing.SmoothStaysBetween | src/mac-requester.cc:134-135 | the smoothed rate stays among the rates measured |
| Smoothing.SmoothedIsShares | src/mac-requester.cc:134-135 | the rate after any samples is the sum of alpha_ to the number of samples times the first rate and, for each sample, 1-alpha_ times it, times alpha_ to the number of later ones (`ShareIs`) |
| Smoothing.ShareIs | src/mac-requester.cc:134-135 | that is what is left of one sample |
| Smoothing.PastFades | src/mac-requester.cc:134-135 | while the same rate is measured the distance to it falls by the factor alpha_ with every sample |
| MacRequester.RequesterCombiner.Rate | src/mac-requester.cc:128-138 | measures the bytes that arrived since the last call, keeps rate_req the filter of all rates measured so far, and rounds it |
| MacRequester.RequesterCombiner.BookVolume | src/mac-requester.cc:173-186 | the ring array, total and index are those of the specified window |
| MacRequester.LimitIsCap | src/mac-requester.cc:187-188 | the real limit max_vbdc_, truncated when it applies, caps volumes at its whole part |
| MacRequester.RequesterCombiner.DoRequest | src/mac-requester.cc:148-198 | a request is made exactly when one kind is enabled, with the limited rate and the limited volume |

## Left out

- Integer overflow and the widths of counters, other than sequence numbers modulo 256.
- Rates, offsets and durations as floating point: they are real numbers here, and a request arrives at the allocator already converted to a whole number of bytes.
- What the original does once it reads a frame pointer never set, meets a null packet, writes past the arrays of a cell or cuts a packet to a length below zero: the methods report it and stop.
- `allocator_report` and the `load_` and `utilization_` sums, which add the residual deficits of each phase again.
- Tcl commands and bindings other than those that create frames and rules, which `Create` does at once.
- Traces, drawing, logs, statistics counters other than those of packets sent.
- Routing, address resolution, MAC header filling, the physical layer and the ns-2 scheduler: a channel is an ordered sequence from which an adversary removes fragments or cells.
- The drop of MPEG cells at a queue limit, which is one more way for a cell to be lost.
- The drop policy of the ns-2 queue in front of the RLE sender, and its own `remove`, of which only removing the head is used.
- RleLossy.LossyDelivery: assumes that the accept branch has always found a packet, since the original has no packet to send up there; `NoPacketIff` says exactly when it has none, and `MacRle.SendUp` stops there.
- Sharing of the packet by its fragments: a fragment records the uid and size its packet has when the fragment is made.
- RLE or MPEG senders with several destinations, and MPEG destinations that collide in the probe of a sender.
- MpegEncap.MpegLL.SendFrags: does nothing and says so where the original writes past the arrays of the open cell; `TwelveBytesIsTheBound` says exactly which packet sizes rule that out.
- MpegEncap.MpegLL.SendDown: only records the cell sent, since what follows is routing and scheduling.
- The slot handler of `src/mac-tdmadama.cc`, which moves whole transport cells from an ns-2 queue into a burst; the RLE one takes its place.
- `voicemodel.cc`, `analy.c`, and in `fullrun.c` the processes, threads, configuration and the estimates by logarithms, error functions and square roots.
- Simulation scripts and trace files.
