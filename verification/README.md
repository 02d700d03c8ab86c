# Verified model of the RCNP data acquisition

The repository reads out nuclear-physics front-end electronics: VMEDAQ (`src/e404-vmedaq`) collects
ADC, TDC and scaler modules over VME into a block file, and the GR collector (`src/gr`) empties
two-bank memories into a ring from which TCP threads serve clients. This project models the parts
that carry state and proves what they promise over every input and every run.

| module | what it models |
|---|---|
| `Basics` | what several modules share |
| `Words` | 32-bit words and their bit fields (include/madc32.h:209-249) |
| `MadcStream` | the one-pass repair of a MADC32 read-out as a state machine; conservation |
| `MadcFraming` | for which inputs the repaired buffer is a sequence of whole events |
| `MadcRepair` | the same repair said event by event, with look-ahead instead of back-patching |
| `MadcPlain` | that repair on plain 32-bit numbers: which words go in and which come out |
| `MadcHeaders`, `MadcMarks` | what the generated headers say; when their subheader names the wrong fault |
| `MadcCounters` | what the end-of-event counters say, for every input, over many calls of many modules |
| `Tdc`, `Scaler` | copying V1190 and V830 data, against well-formed event streams |
| `VmedaqBlocks`, `Vmedaq` | the block format, and the in-place read-out as class `Daq` |
| `VmedaqPass`, `VmedaqWhole` | what one pass writes, module by module; from whole events in the modules to the words of the file |
| `ModulePorts` | what is read from a TDC and from the scaler whatever they answer |
| `VmedaqCounters` | the MADC32 counters over whole runs of that read-out |
| `ClearHandshake`, `ClearPasses` | clearing event counters while triggers keep coming; which passes clear |
| `RingBuffer`, `RingProtocol`, `RingProgress` | the ring over one array; its mutex and condition variables; what they let happen |
| `RunControl`, `RunProgress` | command threads and the collector's START/ON/STOP/OFF loop; what a command brings about |
| `Banks` | the two-bank read-out against the hardware that fills the banks |
| `BankSessions` | one run after the other, and stops without a run |
| `ScalerBlocks`, `RunBlocks` | the in-place block encoders, their decoders, scaler numbering |
| `Clients` | scaler numbering with one client and with several |
| `Numerals`, `Config` | integer spellings, the parameter registry and its lookup |
| `Mlu` | lookup tables and the interpolation of window offsets |

Conventions. Imperative code is a method or class whose contract names a function of the inputs or
the old state, and the theorems are lemmas about that function. Protocols are transition systems:
a state, the actions enabled in it and what each does; a run is any sequence of enabled actions, so
a lemma over runs covers every interleaving. `long` is four bytes, as the register layouts need, so
a VMEDAQ header is four words. Counters wrap as their C types do.

Results worth knowing before reading the code:

* The MADC32 repair loses nothing for any input, and its output is `(header body* end)*` exactly
  when the input is cut out of complete events, events without end and events without header.
* The range test in front of the counter update (src/e404-vmedaq/vmedaq.c:409-412) lets `mid` in only
  when an id is known already. Until a header has been seen in the call the index stays -1, so the
  count of a headless event is written in front of the table. `MadcCounters.GeneratedContinues` gives
  the exact condition under which generated counters continue, `HeadlessEndIsForgotten` an instance
  where they do not.
* A late subheader patch (src/e404-vmedaq/vmedaq.c:372-375, 441-444) marks the last generated header of
  the call, not the event that lost its end (`MadcMarks.MarkedNoEndIff` says exactly when,
  `MadcMarks.EndedEventIsMarked` is an input).
* A MADC32 call without an end-of-event word hands over nothing: its words are lost, while its generated
  ends still count (`VmedaqCounters.BlockOrNothing`, `VmedaqCounters.DroppedCallCounts`;
  `VmedaqCounters.HeaderAloneIsLost` is an input).
* A STOP drains one bank only. With one overflow pending, what the bank being filled holds is not sent;
  with both pending, a whole completed bank is not (`Banks.StopByFlags` says exactly when,
  `BankSessions.CompletedBankNotSent` is a run). It is sent later if and only if the number of the fill is even and
  a stop without a start comes before the next start, which resets every module
  (`BankSessions.LeftBehindSentIff`; `BankSessions.LeftBlockSentLater` is a run).
* A STOP that lands on RUN_START gives an End without a Start
  (`RunControl.BareSessionsCountEarlyStops` counts them exactly, `RunControl.EarlyStopHappens` is a run).
* A Start carries the message received last, which need not be the START that was accepted
  (`RunControl.StartCarriesItsCommandIff`, `RunControl.StartCarriesOtherMessage`).
* With several clients on the ring a run end may go to another client than the scaler blocks behind it, which
  then do not start at 0 (`Clients.OtherClientGotTheEnd`; `Clients.SoleClientNumbersTheRun` for one client).
* `errno` is never cleared, so one configuration index that overflows spoils later spellings
  (`Config.ReachesAsMeantIff` is the exact condition, `Config.OneIsLost` an instance).

## Model

| member | source | states |
|---|---|---|
| `Words.PackHeader` | src/e404-vmedaq/vmedaq.c:413-421 | each field of a generated header reads back, cut to its width; the signature is that of a header |
| `Words.SetSubheader` | src/e404-vmedaq/vmedaq.c:372-375 | a late patch changes the six subheader bits and nothing else |
| `MadcStream.Conservation` | src/e404-vmedaq/vmedaq.c:341-445 | for every input, erasing the inserted positions of the repaired buffer gives the input back unchanged and in order; at most two words per input word and one more |
| `MadcStream.DeliveredIff` | src/e404-vmedaq/vmedaq.c:406-450 | a call hands over a block if and only if its input holds an end-of-event word |
| `MadcStream.Step` | src/e404-vmedaq/vmedaq.c:354-432 | every pass keeps the saved position on an inserted word, so patches only ever touch inserted words, and the counter index in range or -1 |
| `MadcStream.RunAppend` | src/e404-vmedaq/vmedaq.c:354-432 | the loop over two pieces is the loop over the first, then over the second |
| `MadcFraming.FramedIffRepairable` | src/e404-vmedaq/vmedaq.c:349-445 | for every input, the repaired buffer is `(header body* end)*` if and only if reading the input left to right never meets a headless fragment without its end or a stray word |
| `MadcFraming.BrokenStays` | src/e404-vmedaq/vmedaq.c:354-445 | no later step, back-patch or late patch mends a buffer once its settled part is broken |
| `MadcFraming.RunKeepsWords` | src/e404-vmedaq/vmedaq.c:354-445 | over the rest of a call, a word from the module stays what it is; a made-up word keeps all but its subheader, unless it is the open placeholder |
| `MadcRepair.RepairedIsRepair` | src/e404-vmedaq/vmedaq.c:349-445 | the flag-driven, back-patching pass leaves the same words and counter table as the reference repair that treats one event at a time |
| `MadcRepair.RepairableIffEvents` | src/e404-vmedaq/vmedaq.c:349-445 | the repairable inputs are exactly the concatenations of complete, endless and headless events |
| `MadcRepair.EventsComeOutFramed` | src/e404-vmedaq/vmedaq.c:349-445 | exactly those concatenations come out as `(header body* end)*` |
| `MadcRepair.RunHeadless` | src/e404-vmedaq/vmedaq.c:385-425 | a headless event comes out behind a header that counts its words, end included |
| `MadcRepair.RunEndless` | src/e404-vmedaq/vmedaq.c:360-379 | an endless event comes out with an end that is one above the counter table |
| `MadcPlain.Classes` | include/madc32.h:198-249 | words below 0x40000000 are data, from there to 0x7FFFFFFF headers, from 0xC0000000 on ends whose count is the word less 0xC0000000; the id is bits 16 to 23 |
| `MadcPlain.CompletePasses` | src/e404-vmedaq/vmedaq.c:354-432 | a header word, body words and an end word come out as they went in |
| `MadcPlain.HeaderIsPutInFront` | src/e404-vmedaq/vmedaq.c:385-421 | data words and an end word come out behind the one word that is 0x40000000 plus mark 1, id, resolution and number of words in their places |
| `MadcPlain.EndIsPutBehind` | src/e404-vmedaq/vmedaq.c:434-445 | behind an event that ended with e, an event without end gets the word e + 1, or 0xC0000000 behind 0xFFFFFFFF |
| `MadcPlain.EndIsPutBetween` | src/e404-vmedaq/vmedaq.c:359-384 | the same when a third event follows: the generated end stands in front of its header |
| `MadcPlain.MarkTurnsToTwo` | src/e404-vmedaq/vmedaq.c:441-444 | the header word generated for a headless event changes its mark from 1 to 2 when the event behind it does not end |
| `MadcPlain.ReturnedCount` | src/e404-vmedaq/vmedaq.c:406-412 | the count a call returns is that of the last end word of its input, and -1 without one |
| `MadcHeaders.GeneratedHeadersCount` | src/e404-vmedaq/vmedaq.c:386-421 | for every input, each generated header is followed by body words and an end, carries their number modulo 4096, the module id and the resolution, whatever is patched later |
| `MadcMarks.MarkedNoEndIff` | src/e404-vmedaq/vmedaq.c:372-375 | the generated header of a headless event reads "no end of event" if and only if the first faulty event behind it in the call lost its end, else "no header" |
| `MadcMarks.EndedEventIsMarked` | src/e404-vmedaq/vmedaq.c:441-444 | an input on which a made-up header reads "no end of event" although its own event has its end |
| `MadcCounters.CallEndsAreTheEndWords` | src/e404-vmedaq/vmedaq.c:354-445 | for every input, the list of ends of a call is what the end-of-event words of its repaired buffer say |
| `MadcCounters.CallFollows` | src/e404-vmedaq/vmedaq.c:360-445 | for every input whose headers carry the module id, the generated ends count on from the last recorded end, and the module's cell follows |
| `MadcCounters.CallKeepsOther` | src/e404-vmedaq/vmedaq.c:360-445 | for every such input, a call leaves the counters of the other modules alone |
| `MadcCounters.CountersChainAcrossCalls` | src/e404-vmedaq/vmedaq.c:360-445 | over any number of calls of any modules on one table, every generated end of a module is one more than the last end recorded for it, and its cell follows |
| `MadcCounters.RecordedIff` | src/e404-vmedaq/vmedaq.c:409-412 | an end is recorded if and only if the call has had a header before it |
| `MadcCounters.AllRecordedIff` | src/e404-vmedaq/vmedaq.c:409-412 | all ends of a call are recorded if and only if it sees a header before any end |
| `MadcCounters.GeneratedContinues` | src/e404-vmedaq/vmedaq.c:409-412 | a generated end is one more than the end just before it if and only if that end was recorded or its number happens to be the recorded one |
| `MadcCounters.HeadedCallsContinue` | src/e404-vmedaq/vmedaq.c:409-412 | if every call sees a header before any end, generated ends always continue the numbering |
| `MadcCounters.HeadlessEndIsForgotten` | src/e404-vmedaq/vmedaq.c:409-412 | an input on which the numbering falls back: ends 7 and then 1 |
| `VmedaqCounters.RunTable` | src/e404-vmedaq/vmedaq.c:586-608 | the counter table after any run of passes and hang-ups is the one its calls leave, one after the other |
| `VmedaqCounters.RunCountersChain` | src/e404-vmedaq/vmedaq.c:527-608 | over any such run, with any number of modules and whatever they send behind headers with their ids, the generated ends of each module count on from its last recorded end |
| `VmedaqCounters.BlockOrNothing` | src/e404-vmedaq/vmedaq.c:447-457 | a call hands over nothing if and only if the module sent no end word; else its block carries the ends of the call |
| `VmedaqCounters.DroppedCallCounts` | src/e404-vmedaq/vmedaq.c:434-450 | a call that hands over nothing moves the counter on by the number of its headers |
| `VmedaqCounters.HeaderAloneIsLost` | src/e404-vmedaq/vmedaq.c:434-450 | an input whose words are lost: a single header |
| `Tdc.CopyEvents` | src/e404-vmedaq/vmedaq.c:284-309 | a TDC holding the n whole events it announces delivers exactly these and returns the last one's count |
| `Tdc.Copy` | src/e404-vmedaq/vmedaq.c:284-309 | never more words than there is room, for every answer of the hardware |
| `Scaler.FindHeader` | src/e404-vmedaq/vmedaq.c:240-246 | the first of at most 33 words whose header bit is set, and none before it |
| `Scaler.TakeEvents` | src/e404-vmedaq/vmedaq.c:238-261 | one record per announced event in order; the latched values are those of the last event |
| `Scaler.TakeSize` | src/e404-vmedaq/vmedaq.c:238-261 | four words per event and never more than there is room |
| `ModulePorts.CopyReads` | src/e404-vmedaq/vmedaq.c:284-309 | for every port, the words copied are the answers up to the announced number of trailers, the first filler or the end of the room, whichever comes first; the count is that of the last global header among them |
| `ModulePorts.TdcBlockIff` | src/e404-vmedaq/vmedaq.c:269-316 | for every port, a TDC gives a block exactly when one of these words is a global header, and the block is all of them |
| `ModulePorts.OneTurn` | src/e404-vmedaq/vmedaq.c:238-261 | for every port, one event of the scaler: the first header among 33 words, then 3 and three channels; channels not announced keep their value |
| `ModulePorts.LastTurn` | src/e404-vmedaq/vmedaq.c:238-261 | the reading is over when no event is left, fewer than 33 words are free or no header is among the next 33 words |
| `ModulePorts.SingleEvent` | src/e404-vmedaq/vmedaq.c:216-267 | the block and the latched values for one announced event, whatever stands in front of its header; channels not announced are 0 |
| `VmedaqBlocks.ParseConcat` | src/e404-vmedaq/vmedaq.c:208-213 | a file read by its size fields alone gives back exactly the blocks written |
| `Vmedaq.Daq.constructor` | src/e404-vmedaq/vmedaq.c:31-64 | the initial state: empty file, counters zero |
| `Vmedaq.Daq.WriteHeader` | src/e404-vmedaq/vmedaq.c:208-213 | the buffer holds a block with the next number and its own size; one number is taken |
| `Vmedaq.Daq.Emit` | src/e404-vmedaq/vmedaq.c:547-556 | a block goes to the file if and only if one was made; the size total and the numbering follow |
| `Vmedaq.Daq.Reset` | src/e404-vmedaq/vmedaq.c:160-167 | numbering, size and scalers start afresh, the file stays |
| `Vmedaq.Daq.TdcRead` | src/e404-vmedaq/vmedaq.c:284-309 | the copying loop ends for every answer, stays in the buffer and leaves `Tdc.Copy` |
| `Vmedaq.Daq.TdcCheckData` | src/e404-vmedaq/vmedaq.c:269-316 | a numbered block of those words if and only if a global header was seen |
| `Vmedaq.Daq.FindMebHeader` | src/e404-vmedaq/vmedaq.c:240-246 | stops at the word `Scaler.FindHeader` names |
| `Vmedaq.Daq.ReadChannels` | src/e404-vmedaq/vmedaq.c:247-250 | reads the announced number of channels into the 32 places; those not read keep their value |
| `Vmedaq.Daq.TakeEvent` | src/e404-vmedaq/vmedaq.c:240-260 | one event: latched scalers and their record in the buffer, or nothing changed |
| `Vmedaq.Daq.ScalerLoop` | src/e404-vmedaq/vmedaq.c:238-261 | buffer, event count and latched scalers are those of `Scaler.Take` |
| `Vmedaq.Daq.ScalerCheckData` | src/e404-vmedaq/vmedaq.c:216-267 | a numbered block whenever events are announced, even if none is found |
| `Vmedaq.Daq.CloseOpenEvent` | src/e404-vmedaq/vmedaq.c:360-379 | buffer, table and flags after a generated end are those of the state machine |
| `Vmedaq.Daq.OnHeader` | src/e404-vmedaq/vmedaq.c:359-384 | the in-place header case mirrors its step, the shifted word included |
| `Vmedaq.Daq.OnData` | src/e404-vmedaq/vmedaq.c:385-405 | the in-place data case mirrors its step |
| `Vmedaq.Daq.OnEnd` | src/e404-vmedaq/vmedaq.c:406-425 | the in-place end case mirrors its step, back-patch included |
| `Vmedaq.Daq.AdcRead` | src/e404-vmedaq/vmedaq.c:341-445 | the loop on the shared array computes `MadcStream.Repaired`; the test for a full buffer never strikes |
| `Vmedaq.Daq.AdcCheckData` | src/e404-vmedaq/vmedaq.c:318-458 | a padded, numbered block if and only if an end of event was read; at most 4+2*65535+2 words |
| `Vmedaq.Daq.ReadScaler` | src/e404-vmedaq/vmedaq.c:540-560 | the file grows by the scaler's block, if any |
| `Vmedaq.Daq.ReadTdcs` | src/e404-vmedaq/vmedaq.c:562-584 | the file grows by the TDC blocks in module order |
| `Vmedaq.Daq.ReadAdcs` | src/e404-vmedaq/vmedaq.c:586-608 | the file grows by the ADC blocks in module order, the counter table handed from one to the next |
| `Vmedaq.Daq.ReadModules` | src/e404-vmedaq/vmedaq.c:540-608 | one pass adds exactly the blocks of `Sweep`; zero is returned exactly when no module had an event |
| `Vmedaq.Daq.ReadData` | src/e404-vmedaq/vmedaq.c:527-623 | the same, and the counter offset moves exactly when nothing came and the latch had been set |
| `Vmedaq.Daq.FileParses` | src/e404-vmedaq/vmedaq.c:527-608 | at any moment the file parses back to the blocks written, numbered from 0 since the last reset, and accounts for the size total |
| `Vmedaq.Daq.Operate` | src/e404-vmedaq/vmedaq.c:1024-1029 | any run of passes and hang-ups: file, table and scalers are those of the passes one after the other, and the file parses back |
| `VmedaqPass.OneBlockEach` | src/e404-vmedaq/vmedaq.c:540-608 | every module with data has exactly one block in a pass, at the place given by the number of modules with data before it, and there are no other blocks |
| `VmedaqPass.ModuleIs` | src/e404-vmedaq/vmedaq.c:540-608 | the scaler comes first, then the TDCs, then the ADCs; their block types are 2, 1 and 0x1000, and each block holds the words of its own module |
| `VmedaqPass.TableHandedOn` | src/e404-vmedaq/vmedaq.c:586-608 | each ADC finds the counter table that the one before it left |
| `VmedaqPass.QuietIff` | src/e404-vmedaq/vmedaq.c:611-611 | a pass counts as quiet if and only if no TDC and no ADC has a block and the scaler announces nothing or shows no header among 33 words |
| `VmedaqWhole.TdcClasses` | src/e404-vmedaq/vmedaq.c:289-308 | which plain numbers are global headers, trailers and fillers of a TDC |
| `VmedaqWhole.TdcBlock` | src/e404-vmedaq/vmedaq.c:269-316 | a TDC that holds the events it announces gives a block of type 1 with exactly these events |
| `VmedaqWhole.FillerEndsTheBlock` | src/e404-vmedaq/vmedaq.c:289-292 | a filler ends the block, whatever number of events was announced |
| `VmedaqWhole.ScalerBlock` | src/e404-vmedaq/vmedaq.c:216-267 | a scaler that holds the events it announces gives a block of type 2 with one record for each, and latches the last |
| `VmedaqWhole.AdcBlock` | src/e404-vmedaq/vmedaq.c:318-458 | an ADC that holds complete events gives a block of type 0x1000 with exactly its words, and a zero behind an odd number |
| `VmedaqWhole.WholePass` | src/e404-vmedaq/vmedaq.c:527-608 | a pass over any number of modules that hold whole events writes one block for each, in order, with these events |
| `VmedaqWhole.LatchedAfterPass` | src/e404-vmedaq/vmedaq.c:253-255 | the latched scalers after such a pass are the channels of the last event |
| `VmedaqWhole.PassIsInTheRun` | src/e404-vmedaq/vmedaq.c:1024-1029 | the blocks of every pass stand in the blocks of the whole run, behind what came before |
| `VmedaqWhole.BlockWords` | src/e404-vmedaq/vmedaq.c:208-213 | the words of a block: 0x44454D56, type, counter, four times its number of words, payload |
| `ClearHandshake.EventsNumberedWithoutGap` | src/e404-vmedaq/vmedaq.c:510-623 | in every interleaving, offset plus local count numbers each module's events 0, 1, 2, ... across all clears, and no accepted event is missing |
| `ClearHandshake.ClearDiscardsNothing` | src/e404-vmedaq/vmedaq.c:527-623 | a module is empty whenever it is cleared, and the offset then is the number of accepted triggers |
| `ClearHandshake.StepKeeps` | src/e404-vmedaq/vmedaq.c:510-623 | every trigger, latch and read-out step keeps the numbering invariant |
| `ClearPasses.PassClearsIff` | src/e404-vmedaq/vmedaq.c:527-623 | for every pass of every run, with triggers falling anywhere: if it found the latch set and drained nothing it ends with the offset at the number of accepted triggers, all local counters 0 and the latch clear; any other pass leaves the offset and resets no counter |
| `ClearPasses.NumberedAcrossClear` | src/e404-vmedaq/vmedaq.c:611-617 | a run with an event, a clear and another event: numbers 0 and 1, the local counter back at 1 |
| `RingBuffer.SlotsDisjoint` | src/gr/ring_buf.c:24-26 | different slots are disjoint pieces of the array |
| `RingBuffer.RingBuf.constructor` | src/gr/ring_buf.c:13-37 | a new ring is an empty queue |
| `RingBuffer.RingBuf.FillSlot` | src/gr/ring_buf.c:70-72 | the copy fills one slot and leaves every other as it was |
| `RingBuffer.RingBuf.Put` | src/gr/ring_buf.c:64-79 | appends the block to the queue, or leaves a full ring alone |
| `RingBuffer.RingBuf.CopySlot` | src/gr/ring_buf.c:97-99 | the copy out of a slot is the slot |
| `RingBuffer.RingBuf.Get` | src/gr/ring_buf.c:92-108 | hands out the oldest block and removes it, or leaves an empty ring alone |
| `RingProtocol.TakenIsPrefixOfPut` | src/gr/ring_buf.c:59-108 | over any run the blocks taken, merged over all consumers, are a prefix of those put; the rest is in the ring |
| `RingProtocol.NoLostWakeup` | src/gr/ring_buf.c:66-105 | a waiting producer means a full ring; waiting consumers leave no block without a woken consumer |
| `RingProtocol.MutualExclusion` | src/gr/ring_buf.c:64-106 | at most one thread is inside |
| `RingProtocol.NeverStuck` | src/gr/ring_buf.c:59-108 | some step other than a spurious wake-up is always possible |
| `RingProgress.AllCanBeTaken` | src/gr/ring_buf.c:92-108 | from every reachable state, without spurious wake-ups, the consumers that are awake can take all that has been put |
| `RingProgress.AnyCanBePut` | src/gr/ring_buf.c:64-79 | from every reachable state any further block can be put; a full ring gives up a block first, which wakes the producer |
| `RunControl.StreamIsWellFormed` | src/gr/collect_data.c:122-482 | in every run the block stream is a prefix of ((Start readout*)? final-drain End)* |
| `RunControl.EndPrecedesNextStart` | src/gr/collect_data.c:131-482 | between two Starts there is an End, even if START was accepted before that End was sent |
| `RunControl.BareSessionsCountEarlyStops` | src/gr/grcollect.c:321-360 | sessions without a Start are exactly the STOPs that found RUN_START |
| `RunControl.EarlyStopHappens` | src/gr/grcollect.c:348-352 | a run on which that happens: a final drain and an End, no Start |
| `RunControl.StartsAndEndsAlternate` | src/gr/grcollect.c:321-360 | without such a STOP, each End closes a Start and nothing lies between but read-out |
| `RunControl.StartCarriesItsCommandIff` | src/gr/collect_data.c:133-141 | a Start carries the message received last; so it carries that of a given command if and only if no other message came last since |
| `RunControl.StartCarriesOtherMessage` | src/gr/grcollect.c:297-301 | a run on which START is accepted and the Start carries a later message |
| `RunControl.EndRepeatsItsStart` | src/gr/grlib.c:145-244 | an End carries the message of the last Start, whatever has overwritten the command buffer |
| `RunControl.StatusAndLock` | src/gr/collect_data.c:129-481 | the status keeps to its four values, so the collector never leaves the switch with the lock |
| `RunProgress.CommandTaken` | src/gr/grcollect.c:321-360 | START takes status 2 to 1, STOP takes 3 and 1 to 0, and neither changes any other status |
| `RunProgress.StopIsObeyed` | src/gr/collect_data.c:397-482 | from every reachable state with the run on, a STOP leads to status 0, and the collector on its own then sends a final scaler block, final data and the End; the status is 2 |
| `RunProgress.StartIsObeyed` | src/gr/collect_data.c:131-190 | from every reachable state with the run off, a START leads to status 1, and the collector on its own then sends the Start with its message; the status is 3 |
| `RunProgress.ReadoutPass` | src/gr/collect_data.c:215-364 | with the run on, an overflow gives a scaler block and any number of data blocks |
| `RunProgress.WholeRun` | src/gr/collect_data.c:122-482 | a run from START to STOP with any numbers of blocks; its End carries the message of its Start |
| `Banks.DrainedInFillingOrder` | src/gr/collect_data.c:215-364 | over any mix of single and double overflows the data blocks come out in filling order and `p_buf` is the bank drained last |
| `Banks.SentSoFarIsPrefix` | src/gr/collect_data.c:274-364 | in the middle of a drain the blocks sent are a prefix of that order |
| `Banks.VisitsEachOnce` | src/gr/collect_data.c:274-302 | a drain sends every module of its parity that holds data exactly once, in ascending order |
| `Banks.StopDrainsTheFillingBank` | src/gr/collect_data.c:397-445 | a stop drains exactly one more bank in filling order; everything is sent if and only if the fills behind it hold nothing |
| `Banks.StopByFlags` | src/gr/collect_data.c:397-445 | by the flags at the stop: none pending, everything is sent; one pending, if and only if the bank being filled is empty; both pending, if and only if the second completed bank is empty |
| `BankSessions.CompletedBankNotSent` | src/gr/collect_data.c:397-445 | a run on which both overflows are pending and the block of the second bank is not sent |
| `BankSessions.BareSends` | src/gr/collect_data.c:397-445 | a stop without a run sends exactly the blocks that even modules hold, in ascending order, empties them and leaves the odd ones |
| `BankSessions.BareTwice` | src/gr/collect_data.c:397-445 | a second such stop changes nothing |
| `BankSessions.OneLeftBehind` | src/gr/collect_data.c:397-445 | a run leaves at most one fill behind that holds anything |
| `BankSessions.BareAfterRun` | src/gr/collect_data.c:397-445 | such a stop behind a run sends the fill left behind if and only if its number is even, and nothing else |
| `BankSessions.EveryRunStartsAfresh` | src/gr/collect_data.c:158-190 | in any sequence of runs and such stops, every run begins with all modules empty, so the results hold for each and no run sends what was left before |
| `BankSessions.LeftBehindSentIff` | src/gr/collect_data.c:397-445 | a block left behind is sent before the next start if and only if such a stop comes first and the number of its fill is even |
| `BankSessions.LeftBlockSentLater` | src/gr/collect_data.c:397-445 | a run whose left block such a stop sends |
| `BankSessions.PollDrainsAll` | src/gr/collect_data.c:215-364 | from every reachable idle state, a poll leads to a drain of every bank completed so far |
| `ScalerBlocks.DecodeEncoded` | src/gr/collect_tcp.c:298-354 | a reader that follows the nested sizes gets back number, 132 words and sum modulo 2^16 |
| `ScalerBlocks.CopyAndSum` | src/gr/collect_tcp.c:332-335 | a copy of the words and their sum modulo 2^16 |
| `ScalerBlocks.SumOfTwo` | src/gr/collect_tcp.c:332-335 | the sum of two stretches of words is the sum of their sums |
| `ScalerBlocks.Store` | src/gr/collect_tcp.c:337-352 | a copy loop changes its own stretch of the buffer only |
| `ScalerBlocks.EncodeScaler` | src/gr/collect_tcp.c:323-354 | in place: header, the 132 words, trailer, and the rest of the buffer untouched |
| `ScalerBlocks.PassBlock` | src/gr/collect_tcp.c:126-130 | one block: encoded or passed on, and the count after it |
| `ScalerBlocks.Consume` | src/gr/collect_tcp.c:119-130 | over any stream, each scaler block goes out under the count of scaler blocks since the last run end, modulo 2^16 |
| `ScalerBlocks.ScalersSinceEndCounts` | src/gr/collect_tcp.c:126-130 | that count is the number of scaler blocks behind the last run-end block |
| `ScalerBlocks.ClientReadsScalers` | src/gr/collect_tcp.c:119-130 | a client reads each scaler block back with that number, and takes it for nothing else |
| `ScalerBlocks.OthersUnchanged` | src/gr/collect_tcp.c:119-130 | a block whose first word is 0x8000 or more is passed on as it is |
| `Clients.SoleClientNumbersTheRun` | src/gr/collect_tcp.c:119-130 | a client that takes every block reads the count of scaler blocks since the last End of the stream |
| `Clients.OtherClientGotTheEnd` | src/gr/collect_tcp.c:119-130 | a run of the ring with two clients in which the first scaler block behind an End is numbered 1 |
| `RunBlocks.DecodeRunBlock` | src/gr/grlib.c:147-244 | a run block reads back: id, run number, time, and the comment up to its NUL |
| `RunBlocks.RunBlockWords` | src/gr/grlib.c:147-244 | every word of a run block by its place, in plain numbers |
| `RunBlocks.RunBlockKinds` | src/gr/collect_tcp.c:126-130 | the consumer knows a run-end block as such and takes no run block for scaler data |
| `RunBlocks.WriteText` | src/gr/grlib.c:178-185 | one word per character up to the NUL, and where it was |
| `RunBlocks.WriteZeros` | src/gr/grlib.c:187-192 | zero fill and the block trailer |
| `RunBlocks.Encoder.EncodeRunStart` | src/gr/grlib.c:147-193 | the whole buffer is the start block of the command, and the command is saved |
| `RunBlocks.Encoder.EncodeRunEnd` | src/gr/grlib.c:195-244 | the whole buffer is the end block of the saved command |
| `RunBlocks.EndBlockRepeatsStartBlock` | src/gr/grlib.c:145-244 | in every run, the End block decodes to the run number and comment of the Start before it |
| `Numerals.PrintRoundTrip` | src/config/config.c:60-64 | printing an integer and reading it gives the integer |
| `Numerals.PrintInjective` | src/config/config.c:60-64 | different integers print differently |
| `Numerals.Examples` | src/config/config.c:60-75 | what some spellings are worth in both bases |
| `Config.DecimalSpellingDenotes` | src/config/config.c:58-64 | every decimal spelling (blanks, sign, leading zeros) is read as its integer |
| `Config.HexSpellingDenotes` | src/config/config.c:69-75 | every lower-case hexadecimal spelling is read as its integer |
| `Config.FoldsAlikeIff` | src/config/config.c:112-124 | two names share a key if and only if they differ in the case of letters only |
| `Config.DecimalValueReturned` | src/config/config.c:252-264 | every decimal spelling of a `long` is returned as that number |
| `Config.HexValueReturned` | src/config/config.c:265-271 | every lower-case hexadecimal spelling of a `long` is returned as that number |
| `Config.DefaultReturnedIff` | src/config/config.c:252-281 | a value gives the default, whatever that is, if and only if `errno` is set, the value is no number or it does not fit |
| `Config.ConvertIdempotent` | src/config/config.c:49-68 | the printed form of a `long` is left alone, whatever `errno` is |
| `Config.FoundByIntegerIff` | src/config/config.c:49-91 | an index is stored where integer v looks if and only if it spells v (`errno` clear) or is v as printed (`errno` set) |
| `Config.ReachesAsMeantIff` | src/config/config.c:61-67 | a definition reaches exactly the integers it spells if and only if `errno` was clear or its index is in printed form |
| `Config.LookupIsLastReaching` | src/config/config.c:112-161 | for every list of definitions, a lookup gives the last one that reaches the integer, else the last without index |
| `Config.LookupIsLastDefinition` | src/config/config.c:318-365 | if no index overflows, that is the last definition that spells the integer in any way |
| `Config.StoredLongComesBack` | src/config/config.c:252-332 | a number printed into the last definition for an integer index is what the lookup returns |
| `Config.OverflowSpoilsLaterSpellings` | src/config/config.c:58-67 | after an index that overflows, a spelling other than the printed one is not found |
| `Config.OneIsLost` | src/config/config.c:58-67 | an instance of that |
| `Config.Registry.constructor` | src/config/config.c:163-172 | an empty registry |
| `Config.Registry.Search` | src/config/config.c:112-124 | the place of the key if the map has it, else -1 |
| `Config.Registry.RegisterIfNew` | src/config/config.c:131-153 | at most one entry per key, and the map with the key set to the new value |
| `Config.Registry.Register` | src/config/config.c:155-161 | the same under the converted index; a full array takes a key that is there already |
| `Config.Registry.RegisterAll` | src/config/config.c:217-242 | the map is the last-write-wins replay of the definitions, as long as the different keys fit |
| `Config.Registry.GetString` | src/config/config.c:350-365 | indexed value, else unindexed, else default |
| `Config.Registry.GetLong` | src/config/config.c:318-332 | the number that value spells or the default, and what happens to `errno` |
| `Mlu.PointIsBijection` | src/mlu/mluLoad2372_uv.c:136-141 | words and bits answer one to one for all pairs of bytes |
| `Mlu.SetBitAt` | src/mlu/mluLoad2372_uv.c:140 | setting a bit sets that bit only |
| `Mlu.FiresIffOutsideOnTorus` | src/mlu/mluLoad2372_uv.c:48-72 | a pair fires if and only if p * p + q * q >= r2 for every way of unwrapping the differences p, q |
| `Mlu.BuildTable` | src/mlu/mluLoad2372_uv.c:136-141 | looking a pair up in the loaded words agrees with evaluating the window of the given radius |
| `Mlu.LookUp` | src/mlu/mluLoad2372_uv.c:48-72 | in plain numbers: bit v/16 of word u + 256 (v mod 16) is set if and only if a * a + b * b >= r2 for the differences a, b taken to -128 to 127 |
| `Mlu.BitIsDigit` | src/mlu/mluLoad2372_uv.c:140 | bit k of a word is its binary digit of weight 2^k |
| `Mlu.Interpolate` | src/mlu/mluLoad2372_xuv.c:60-65 | the loop leaves the interpolated offset in the cell of each signed x |
| `Mlu.OffsetEnds` | src/mlu/mluLoad2372_xuv.c:51-58 | both end points are hit |
| `Mlu.OffsetSymmetric` | src/mlu/mluLoad2372_xuv.c:60-65 | offset(x) + offset(-1-x) is the sum of the end points |
| `Mlu.OffsetMonotone` | src/mlu/mluLoad2372_xuv.c:60-65 | in signed order of x the offsets rise or fall with the line and stay between the end points |
| `Mlu.OffsetNearLine` | src/mlu/mluLoad2372_xuv.c:60-65 | truncation pulls an offset towards its nearer end by less than one count |
| `Mlu.BuildTableX` | src/mlu/mluLoad2372_xuv.c:165-174 | the loaded bit for (x, u, v) is the window of the given radius about the offsets at x in `short` arithmetic |
| `Mlu.LookUpX` | src/mlu/mluLoad2372_xuv.c:165-174 | in plain numbers: for end points that fit, the bit for (x, u, v) is set if and only if the squares of the differences to the offsets at x add up to at least r2 |
| `Mlu.ShortExactIff` | src/mlu/mluLoad2372_xuv.c:86-89 | a `short` keeps every difference to an offset if and only if the offset is within 32736 of zero |
| `Mlu.PlainWindow` | src/mlu/mluLoad2372_xuv.c:74-95 | for such end points the window is the plain circle, the inequality written out |

## Left out

- Network mode of VMEDAQ (`write_to_sd`, keep-alive and counter-offset blocks) and write errors: file mode carries the block format and the numbering.
- VME mapping, register programs, the bodies of `lrm_*`, `rpv_*` and `vts801_*`: hardware access. What hardware answers is a parameter.
- SIGHUP arriving inside a pass: a hang-up falls between two passes here.
- `show_counter` and the table of TDC counters: display only.
- Vmedaq.Daq.ReadChannels: an event that announces more than 32 channels writes beyond the C array; the model drops those words.
- MadcStream.Conservation: the write to index -1 of the counter table is modelled as a cell of its own in front of the table.
- ClearHandshake.EventsNumberedWithoutGap: every accepted trigger puts one event into every module at once; conversion time and the widths of the hardware counters are not modelled.
- BankSessions.BareSends: triggers are vetoed from a stop to the next start, so nothing is filled in between.
- Clients.SoleClientNumbersTheRun: takes it that the first word of a data block has its top bit set and that it is no run end.
- Banks.DrainedInFillingOrder: reading and clearing the overflow flags is one step; an overflow between src/gr/collect_data.c:215 and src/gr/collect_data.c:243 is not modelled. Writing zero to word 0 resets a memory module, as `lrm_reset` takes it.
- RunControl.StreamIsWellFormed: a command message arrives whole; GR_CMD_EXIT, `local_flag` and the byte shuffle of the run number (src/gr/grcollect.c:304-311) are not modelled.
- ScalerBlocks.EncodeScaler: the header and trailer arrays shared by all TCP threads are values of one call here, so two threads encoding at once are not modelled.
- RingBuffer.RingBuf.constructor: more than 128 slots overrun the handle array of the source and are excluded.
- RunBlocks.WriteText: a comment without a NUL leaves an uninitialised index in the source and is excluded.
- RunBlocks.Encoder.EncodeRunStart: excludes a comment without a NUL, for the same reason.
- RunBlocks.Encoder.EncodeRunEnd: excludes a saved comment without a NUL, for the same reason.
- Config.Registry.Register: spellings longer than the source's 256-byte buffers and a 65537th different key overrun memory in the source and are excluded; floating-point spellings are a given table; `errno` is set by number conversions only.
- Config.Registry.RegisterIfNew: a 65537th different key is excluded, as for `Register`.
- Config.Registry.RegisterAll: more than 65536 different keys are excluded, as for `Register`; takes the definitions found in the lines; the line patterns of the file reader are not modelled.
- Mlu.BuildTable: `int` overflow for radii or offsets near 2^31 is not modelled, nor are the CAMAC writes.
- Older copies of the core files, the print and dump programs and the module initialisation dialogs.
