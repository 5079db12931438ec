# Verified models of ev-sdk

A Dafny model of the self-contained algorithms and state machines of an electric
vehicle's C firmware, with proofs of what each of them is for. One module per
component; every module is a plain Dafny file and the whole project can be checked with
`dafny verify dfyconfig.toml`.

| module | component |
|---|---|
| `Crc16` | the table-driven CRC-16 of the CANopen library and of the storage code |
| `ConfigStore` | the configuration record: magic number, CRC, payload, whole flash blocks |
| `OptStore` | the option record in which several settings share one CRC |
| `InactiveMode` | the persistent inactive-mode machine over the option record |
| `ParamFlash`, `ParamDisk`, `ParamLog` | the two-section append-only flash log of parameters: the flash words, what the flash holds after every single write, and the code |
| `SerialFlash` | range, sector and page splitting of the AT25XE driver |
| `ShortestPath` | Dijkstra's algorithm with early stop |
| `Fifo`, `SdoArbiter` | the ring buffer and the SDO request arbiter on top of it |
| `TopicMatcher`, `HandlerTable` | the MQTT topic matcher and the message handler table |
| `StringLength`, `Tokenizer`, `Decimal` | the string kernels |
| `Scheduler` | the cooperative scheduler |
| `Arithmetic`, `Optional`, `Words` | shared helpers |

## How the source is represented

- Objects that the source updates in place are classes; each method is proved
  equal to a function on the abstract state, and the laws about whole runs are
  lemmas about those functions.
- A `uint16_t` in the CRC is its 16 bits, most significant first. Other integers are
  mathematical, with range types and explicit `%` where the width matters.
- The parameter log is proved in two steps. `ParamLog` shows that every operation leaves,
  after each erase and each word it writes, exactly the state that a trace of `ParamDisk`
  names; what a power loss between two writes costs is then proved about these traces.
- C strings are sequences without their terminator, or memory with the terminator in it
  where the code works in place (`StringLength`, `Tokenizer`, `Decimal`).
- Calls into hardware are parameters or small contracts. A configuration write that
  fails may leave anything in its range; an option write that fails leaves the record as
  it was. Erased flash reads as ones; programming only clears bits.
- Callbacks are modelled by what they do: the scheduler's callbacks start and cancel
  tasks, message handlers register and remove handlers, a completed SDO transfer's callback
  may ask for an urgent transfer. A queued
  request made in a callback is a separate event. Callbacks do not call the process
  functions.

## Where the code does not do what one would expect

- The matcher does not let "p/#" match its parent `p`, and no wildcard matches an empty
  level: `TopicMatcher.MatcherVersusStandard` gives the exact law for every valid filter
  and every name.
- Start-up of the parameter log can find the section full with a parameter missing, which
  is how a power loss leaves it after the first write of an update. It then swaps with
  only the parameters located so far and the later ones get their defaults
  (`ParamDisk.RestartExact`, with `ParamDisk.LaterParameterLost` as the smallest case). A
  swap from High to Low marks Low active before anything is copied.
  `ParamDisk.CutUpdate` and `ParamDisk.CutStart` state exactly when a power loss costs no
  other parameter.
- A power loss between the first and the last write of an update leaves the parameter being
  updated with neither its old nor its new value but with its default, because the old entry
  is zeroed first (`ParamDisk.CutOwn`, with `ParamDisk.OwnValueLost` as the smallest case).
- With a 16-bit address counter the scans of the High section would never end, and both
  sections have the same erase-block number (`ParamFlash.AddressLimits`). The model uses a
  wider counter and an erase confined to its section.
- A change inside 16 consecutive bits that covers both the CRC and the start of the payload
  can be accepted (`ConfigStore.RecordBurst`, `ConfigStore.BurstAcrossAccepted`), because the
  CRC bytes stand low byte first and before the payload.
- The option storage does not look at the result of a flash read: a store after a failed
  read resets all other fields (`OptStore.LastValueWins`).
- An urgent SDO request accepted while a queued transfer is in progress takes over its
  completion, so the queued request is never called back (`SdoArbiter.QueuedDisplaced`); an
  urgent request made in the completion callback of a queued transfer is accepted and then
  dropped (`SdoArbiter.CallbackDropped`). `SdoArbiter.FifoOrder` proves that requests are lost
  in these two ways only, and exactly then.
- The ring buffer casts its cursors to `uint8_t`: a ring of more than 256 slots overwrites
  items that are still stored (`Fifo.PushSafeExactly`, `Fifo.RingOverwrites`).
- A power-up that cannot read the option record makes an inactive vehicle active and stores
  that; if it cannot store it either, the next power-up makes the vehicle inactive again.
  `InactiveMode.StaysInactive` and `InactiveMode.InactiveOnlyAfterDistance` state exactly what
  remains.
- A task started inside a callback in the slot being visited, its own or one the callback
  has freed, loses one run (`Scheduler.RunsFromCallback`): with repeat 1 it never runs
  (`Scheduler.StartedNeverRuns`).
- A message handler that removes its filter, registers another one and then itself again may
  be called twice for one message (`HandlerTable.ServedTwice`).
- A length of 0 means "up to the end of the sector" in the AT25XE driver
  (`SerialFlash.EffectiveLength`).
- When a string has no token, `sm_strtok` leaves its cursor where an earlier string put it,
  and the following calls go on with that string (`Tokenizer.Strtok.CallMany`, with
  `Tokenizer.EarlierTextGoesOn` as an example).
- A network loss recorded before a reboot is forgotten by the reboot: the distance counts
  from a loss recorded after it (`InactiveMode.RebootForgetsLoss`).

## Model

| member | source | states |
|---|---|---|
| `Crc16.TableEntry` | ev-sdk/libs/canopen/CO_CRC.c:15-48 | each of the 256 table entries is eight zero-input shifts of its index through the generator 0x1021 |
| `Crc16.TableStepCorrect` | ev-sdk/libs/canopen/CO_CRC.c:69 | one table lookup equals eight bit-serial shifts, for every register and byte |
| `Crc16.CalculateCrc16` | ev-sdk/libs/canopen/CO_CRC.c:56-77 | the table-driven loop computes the bit-serial CRC with initial value 0xFFFF of every byte range; a null buffer gives 0 |
| `Crc16.CheckValue` | ev-sdk/libs/canopen/CO_CRC.c:11-12 | the CRC of no bytes is the initial value 0xFFFF, and that of the digits "123456789" the published check value 0x29B1 |
| `Crc16.CrcLinear` | ev-sdk/libs/canopen/CO_CRC.c:67-70 | the register is linear in start value and input together |
| `Crc16.SameCrc` | ev-sdk/libs/canopen/CO_CRC.c:56-77 | two equally long inputs have the same CRC exactly when their difference leaves a zero register zero |
| `Crc16.BurstDetected` | ev-sdk/libs/canopen/CO_CRC.c:56-77 | for every length, two messages that differ only inside 16 consecutive bits have different CRCs |
| `Crc16.GeneratorUndetected` | ev-sdk/libs/canopen/CO_CRC.c:11 | the bound of 16 is tight: the 17-bit generator pattern goes unnoticed at every place in every message |
| `Crc16.OddErrorDetected` | ev-sdk/libs/canopen/CO_CRC.c:56-77 | two messages that differ in an odd number of bits have different CRCs |
| `ConfigStore.StoreThenLoad` | ev-sdk/common/storage/sm_ev_storage.c:100-163 | decoding an encoded record returns the configuration |
| `ConfigStore.AcceptedExactly` | ev-sdk/common/storage/sm_ev_storage.c:100-134 | a load accepts bytes exactly if they are the record of the configuration it returns |
| `ConfigStore.BurstReported` | ev-sdk/common/storage/sm_ev_storage.c:125-129 | a stored record whose payload changed inside 16 consecutive bits is reported as invalid, never accepted |
| `ConfigStore.OddReported` | ev-sdk/common/storage/sm_ev_storage.c:125-129 | so is a change of an odd number of payload bits |
| `ConfigStore.RecordBurst` | ev-sdk/common/storage/sm_ev_storage.c:120-133 | a change inside 16 consecutive bits anywhere in the record is accepted only if it changes CRC and payload both, and then exactly if the two changes fit each other |
| `ConfigStore.BurstAcrossAccepted` | ev-sdk/common/storage/sm_ev_storage.c:125-133 | one such change of eleven bits across the CRC and the payload is accepted in every record with a 48-byte payload, the size of the option record |
| `ConfigStore.BufferSize` | ev-sdk/common/storage/sm_ev_storage.c:140-147 | the buffer is the least whole number of blocks that holds header and payload |
| `ConfigStore.EncodeParts` | ev-sdk/common/storage/sm_ev_storage.c:149-155 | a record is four bytes 0x5A, the CRC as it is read back, the payload from byte 6 and the rest of the last block |
| `ConfigStore.BuildRecord` | ev-sdk/common/storage/sm_ev_storage.c:149-155 | the buffer holds magic number, little-endian CRC and payload in place |
| `ConfigStore.Storage.Store` | ev-sdk/common/storage/sm_ev_storage.c:136-163 | writes the record and nothing else and returns the block count, or -1 when the driver fails |
| `ConfigStore.Storage.Load` | ev-sdk/common/storage/sm_ev_storage.c:100-134 | -1 without a record, -2 with a wrong CRC (payload handed out), otherwise the block count and the payload |
| `ConfigStore.Storage.LoadAfterBurst` | ev-sdk/common/storage/sm_ev_storage.c:100-163 | store, corrupt the payload inside 16 consecutive bits, load: always -2 |
| `OptStore.SerializeExact` | ev-sdk/common/storage/sm_ev_opt_storage.c:20-28 | the 48 data bytes determine all fields and back |
| `OptStore.Layout` | ev-sdk/common/storage/sm_ev_opt_storage.c:20-28 | each field at its offset, words low byte first and negative numbers in two's complement, the identifier last |
| `OptStore.StoredImage` | ev-sdk/common/storage/sm_ev_opt_storage.c:52-84 | loading the 64 bytes written for some options gives those options |
| `OptStore.ErasedEmpty` | ev-sdk/common/storage/sm_ev_opt_storage.c:42-69 | an erased record gives -1 for the numbers, 0 for the odometer and a zero identifier |
| `OptStore.PadUuid` | ev-sdk/common/storage/sm_ev_opt_storage.c:193-205 | a stored identifier is the given bytes followed by zeros |
| `OptStore.ApplyStored` | ev-sdk/common/storage/sm_ev_opt_storage.c:93-205 | a store changes its own field and no other, from any flash content; after a failed read, which goes unnoticed, all others get their defaults; clearing gives the defaults |
| `OptStore.LastValueWins` | ev-sdk/common/storage/sm_ev_opt_storage.c:42-205 | after any run from any flash content, with any reads and writes failing, each load gives the last value stored to its field since the last store that could not read the record, otherwise the initially valid value or the default |
| `OptStore.OptStorage.LoadData` | ev-sdk/common/storage/sm_ev_opt_storage.c:52-69 | the options of a valid record, else, and after a failed read, the defaults and -1 |
| `OptStore.OptStorage.StoreData` | ev-sdk/common/storage/sm_ev_opt_storage.c:71-84 | writes exactly the record's 64 bytes |
| `OptStore.OptStorage.StoreField` | ev-sdk/common/storage/sm_ev_opt_storage.c:114-205 | the load-modify-store of each store function, through the byte buffer and flash |
| `OptStore.OptStorage.LoadInactiveMode` | ev-sdk/common/storage/sm_ev_opt_storage.c:153-164 | the stored state and odometer, the defaults after a failed read |
| `InactiveMode.StepConsistent` | ev-sdk/apps/hmi/sm_ev_inactive_mode.c:44-213 | a reboot makes RAM and record agree from any flash content and every event keeps it so, exactly unless the record says inactive and is not read: by a reboot that cannot repair it either, or by another user whose store resets it |
| `InactiveMode.StaysInactive` | ev-sdk/apps/hmi/sm_ev_inactive_mode.c:44-213 | once inactive it stays inactive until a reset succeeds, in runs with any failing reads and writes, exactly if every reboot can read the record and no store of another user has reset it before |
| `InactiveMode.InactiveOnlyAfterDistance` | ev-sdk/apps/hmi/sm_ev_inactive_mode.c:171-213 | it becomes inactive only on a tick, at least `m_km_force_stop` * 1000 m after the loss of connection was recorded, the connection having stayed lost since; or on a reboot that finds the inactive record which an earlier one could neither read nor repair |
| `InactiveMode.LossPending` | ev-sdk/apps/hmi/sm_ev_inactive_mode.c:98-130 | a report of a lost connection to an active vehicle leaves the loss pending exactly unless the connection had been recovered and the store failed; a new loss counts from the odometer of that moment |
| `InactiveMode.ConnectionState` | ev-sdk/apps/hmi/sm_ev_inactive_mode.c:44-169 | the connection state after every event: a reboot forgets it, a successful reset counts as a recovery, otherwise only reports to an active vehicle change it |
| `InactiveMode.LossStarts` | ev-sdk/apps/hmi/sm_ev_inactive_mode.c:98-130 | the same as the start of a pending loss in any run |
| `InactiveMode.PendingUntil` | ev-sdk/apps/hmi/sm_ev_inactive_mode.c:44-213 | a loss stays pending exactly as long as the connection does not come back and there is no reboot, no successful reset and no tick at the distance whose store succeeds |
| `InactiveMode.InactiveAtDistance` | ev-sdk/apps/hmi/sm_ev_inactive_mode.c:183-208 | with a loss pending, a tick makes the vehicle inactive exactly if it has moved since the loss by at least `m_km_force_stop` * 1000 m and the store succeeds |
| `InactiveMode.StoredOdometer` | ev-sdk/apps/hmi/sm_ev_inactive_mode.c:44-213 | the odometer in the record after every event: where the vehicle became inactive, or where a recovered connection was lost again, 0 after a reset |
| `InactiveMode.RecordUnread` | ev-sdk/apps/hmi/sm_ev_inactive_mode.c:44-56 | an active vehicle with an inactive record has had such a reboot |
| `InactiveMode.LossRecorded` | ev-sdk/apps/hmi/sm_ev_inactive_mode.c:98-142 | whenever a loss is pending there is the event that recorded it, with the odometer of that moment |
| `InactiveMode.RebootForgetsLoss` | ev-sdk/apps/hmi/sm_ev_inactive_mode.c:35-56 | no reboot lies between a recorded loss and what it leads to |
| `InactiveMode.Machine.constructor` | ev-sdk/apps/hmi/sm_ev_inactive_mode.c:44-56 | power-up loads the state from the record and repairs a missing one |
| `InactiveMode.Machine.PowerUp` | ev-sdk/apps/hmi/sm_ev_inactive_mode.c:58-85 | and raises the inactive signal exactly when the record says inactive |
| `InactiveMode.Machine.UpdateNet` | ev-sdk/apps/hmi/sm_ev_inactive_mode.c:98-142 | the network step of the machine, with its return value and signals |
| `InactiveMode.Machine.ResetToActive` | ev-sdk/apps/hmi/sm_ev_inactive_mode.c:144-169 | the reset step; a failing write changes nothing |
| `InactiveMode.Machine.Poll` | ev-sdk/apps/hmi/sm_ev_inactive_mode.c:171-213 | the tick, its signals in order and its return value: the warning exactly after its distance, the inactive signal exactly when the vehicle is inactive afterwards, -1 exactly when the state could not be stored |
| `ParamFlash.AddressLimits` | ev-sdk/cores/storage/sm_core_param.c:182 | a 16-bit counter satisfies the scan guard for ever exactly in the High section; both sections share an erase block |
| `ParamDisk.RestartExact` | ev-sdk/cores/storage/sm_core_param.c:41-97 | from any state that updates and start-ups leave, cut short or not, start-up gives a parameter its stored value exactly if it comes to it before it has to swap, else its default |
| `ParamDisk.CutUpdate` | ev-sdk/cores/storage/sm_core_param.c:178-261 | power lost between any two writes of an update: a restart finds all other parameters exactly if the section has room, or there is no other one, or the swap is from Low and the updated one is the last defined; the chosen section holds their entries exactly if there is no swap from High or no other parameter |
| `ParamDisk.LaterParameterLost` | ev-sdk/cores/storage/sm_core_param.c:82-93 | two parameters in a full Low section: after the first write of an update of the first one a restart loses the second |
| `ParamDisk.CutStart` | ev-sdk/cores/storage/sm_core_param.c:41-97 | power lost between any two writes of start-up: starting again finds the same values exactly if start-up does not swap, or swaps from Low, or there are only defaults |
| `ParamDisk.CutOwn` | ev-sdk/cores/storage/sm_core_param.c:178-201 | the parameter being updated when power fails: a restart finds the old value before the first write, the new one after the last, and its default in between |
| `ParamDisk.OwnValueLost` | ev-sdk/cores/storage/sm_core_param.c:185-193 | one parameter, power lost between the two writes of an update: the restart finds the default |
| `ParamDisk.SurvivesPowerLoss` | ev-sdk/cores/storage/sm_core_param.c:41-261 | over any run in which every power loss outside updates of `id` meets the conditions of CutUpdate and CutStart, `id` has what the last update of it has left, completed or cut short |
| `ParamDisk.NothingInvented` | ev-sdk/cores/storage/sm_core_param.c:41-261 | over any run, wherever power is lost, every stored value was stored for that parameter before or given to it by an update or a definition |
| `ParamLog.Log.Format` | ev-sdk/cores/storage/sm_core_param.c:217-224 | erases one section and writes its header, as two flash images |
| `ParamLog.Log.AppendEntry` | ev-sdk/cores/storage/sm_core_param.c:178-196 | zeroes the parameter's entry and takes the first free word, image by image; all other entries stay where they are |
| `ParamLog.Log.CopyItems` | ev-sdk/cores/storage/sm_core_param.c:245-256 | copies the live entries densely and in order, image by image, and redirects their items |
| `ParamLog.Log.SwapSections` | ev-sdk/cores/storage/sm_core_param.c:226-261 | the whole swap, with all parameters or only those located so far, with or without a dead item; the last write retires the old section |
| `ParamLog.Log.NewItem` | ev-sdk/cores/storage/sm_core_param.c:178-201 | appends, or swaps and then writes the entry that did not fit, for which there is always room, during start-up too |
| `ParamLog.Log.SearchItem` | ev-sdk/cores/storage/sm_core_param.c:203-215 | finds an entry exactly when there is one |
| `ParamLog.Log.GetParam` | ev-sdk/cores/storage/sm_core_param.c:131-140 | the value in the abstract map, 0 for an unknown parameter |
| `ParamLog.Log.SetValue` | ev-sdk/cores/storage/sm_core_param.c:104-129 | updates the abstract map at one key, keeps one live entry per parameter and a used prefix, and passes through exactly the states of the update's trace, write by write |
| `ParamLog.Log.Init` | ev-sdk/cores/storage/sm_core_param.c:41-97 | start-up from every state that an update or start-up may leave, a full section with a missing parameter included: the values of RestartExact, through exactly the states of its trace |
| `ParamLog.Log.Restart` | ev-sdk/cores/storage/sm_core_param.c:41-97 | restarting with the same parameters recovers the same map and writes nothing |
| `ParamLog.Log.Perform` | ev-sdk/cores/storage/sm_core_param.c:104-140 | after every run of updates and restarts, any number of swaps included, the log equals the plain map, and the number of swaps is exact |
| `ParamLog.Log.Endure` | ev-sdk/cores/storage/sm_core_param.c:41-261 | after every run of updates and start-ups with power lost between any two writes, those of start-up included, the flash shows exactly the state of the run, and so does the map while the firmware runs |
| `ParamLog.SwapPeriod` | ev-sdk/cores/storage/sm_core_param.c:178-261 | the first swap comes when the section is full and then one per 256 - k updates, so exactly 255 - k fit between two swaps |
| `SerialFlash.PageProgramFlat` | ev-sdk/drivers/at25xe/sm_at25xe.c:615-663 | a page program that stays inside its 256-byte page, although the device wraps there, is the flat program |
| `SerialFlash.ProgramTwice` | ev-sdk/drivers/at25xe/sm_at25xe.c:691-697 | programs of adjacent ranges combine to one |
| `SerialFlash.PageSector` | ev-sdk/drivers/at25xe/sm_at25xe.c:356-367 | page and sector conversions agree on all sixteen pages of a sector |
| `SerialFlash.At25xe.EraseSector` | ev-sdk/drivers/at25xe/sm_at25xe.c:270-298 | exactly the bytes of the sector become 0xFF |
| `SerialFlash.At25xe.WritePage` | ev-sdk/drivers/at25xe/sm_at25xe.c:615-663 | programs the clipped range of the page |
| `SerialFlash.At25xe.WriteSector` | ev-sdk/drivers/at25xe/sm_at25xe.c:664-702 | the page loop programs the flat range inside the sector; an offset outside it does nothing |
| `SerialFlash.At25xe.Write` | ev-sdk/drivers/at25xe/sm_at25xe.c:985-1009 | any range inside the part is programmed as one flat AND-program, all other bytes unchanged |
| `SerialFlash.At25xe.ReadPage` | ev-sdk/drivers/at25xe/sm_at25xe.c:817-865 | reads the clipped range of the page into the buffer in place |
| `SerialFlash.At25xe.ReadSector` | ev-sdk/drivers/at25xe/sm_at25xe.c:866-904 | the page loop reads the flat range inside the sector |
| `SerialFlash.At25xe.Read` | ev-sdk/drivers/at25xe/sm_at25xe.c:960-984 | any range inside the part is read as one flat range, the rest of the buffer unchanged |
| `SerialFlash.At25xe.WriteThenRead` | ev-sdk/drivers/at25xe/sm_at25xe.c:960-1009 | reading back what was written into erased bytes returns the buffer |
| `ShortestPath.MinDistance` | ev-sdk/apps/upgrading/debug_app.cpp:348-357 | the unvisited vertex with the least finite distance, -1 exactly when there is none |
| `ShortestPath.PathBound` | ev-sdk/apps/upgrading/debug_app.cpp:360-391 | between two rounds no path beats its end's final distance or the least tentative one |
| `ShortestPath.NextRound` | ev-sdk/apps/upgrading/debug_app.cpp:373-387 | visiting the nearest vertex and relaxing its edges keeps the invariant |
| `ShortestPath.Dijkstra` | ev-sdk/apps/upgrading/debug_app.cpp:360-391 | the result is the minimum weight over all paths from source to destination, and INT_MAX exactly when there is no path, in spite of the early stop and of visiting at most V - 1 vertices |
| `ShortestPath.UpdateEdge` | ev-sdk/apps/upgrading/debug_app.cpp:394-397 | changes one undirected edge in place and keeps the graph symmetric |
| `ShortestPath.DistanceSymmetric` | ev-sdk/apps/upgrading/debug_app.cpp:393-397 | in a symmetric graph the distance does not depend on the direction |
| `Fifo.PushSafeExactly` | ev-sdk/utils/containers/sm_fifo.c:71-87 | no push writes to the slot of a stored item exactly in rings of at most 256 slots |
| `Fifo.RingOverwrites` | ev-sdk/utils/containers/sm_fifo.c:71-87 | in a larger ring a push is accepted and overwrites the item at cursor 256 |
| `Fifo.Queue.Push` | ev-sdk/utils/containers/sm_fifo.c:71-87 | refuses exactly when `length` items are stored; otherwise appends, in a ring of any size up to the stored items that share the slot, and in one of at most 256 slots without changing any |
| `Fifo.Queue.Pop` | ev-sdk/utils/containers/sm_fifo.c:89-104 | removes the oldest item unless the queue is empty |
| `SdoArbiter.Conservation` | ev-sdk/cores/inc/sm_core_co.c:276-461 | in every interleaving each accepted request is in exactly one place: completed, queued, urgent, in flight, displaced or dropped |
| `SdoArbiter.AtMostOnce` | ev-sdk/cores/inc/sm_core_co.c:436-448 | no request completes more often than it was accepted |
| `SdoArbiter.DisplacedNeverCompletes` | ev-sdk/cores/inc/sm_core_co.c:398-404 | a request displaced or dropped is never called back |
| `SdoArbiter.OwnStatus` | ev-sdk/cores/inc/sm_core_co.c:396-451 | in every run a completion reports success or abort of its own transfer, unless it is an urgent request accepted while another transfer was under way, which reports that of the request it displaced |
| `SdoArbiter.FifoOrder` | ev-sdk/cores/inc/sm_core_co.c:276-461 | queued and urgent requests complete in order with none lost exactly if no urgent request is accepted during a transfer, from outside or from the callback of a queued one; and a request is displaced or dropped exactly if one is |
| `SdoArbiter.GentleStatus` | ev-sdk/cores/inc/sm_core_co.c:396-451 | then each completion also reports success or abort of its own transfer |
| `SdoArbiter.Drains` | ev-sdk/cores/inc/sm_core_co.c:396-461 | from every reachable state, four process steps for each pending request, those that wait for the client not counted, complete all of them, the one in hand first, then an urgent one, then the queue in order, each with the answer that the client gave to it; then queue and urgent slot are empty if nothing was accepted meanwhile |
| `SdoArbiter.KeepsServing` | ev-sdk/cores/inc/sm_core_co.c:396-461 | in every run, urgent requests at any time included, every four steps that need not wait for the client complete a request as long as there are any |
| `SdoArbiter.EveryAnswerReported` | ev-sdk/cores/inc/sm_core_co.c:396-451 | in every run the statuses reported are the answers of the client, success or abort, once each and in order |
| `SdoArbiter.InTurn` | ev-sdk/cores/inc/sm_core_co.c:396-461 | without urgent requests in between, what has been completed and what is still pending is what was pending at first followed by what was queued since |
| `SdoArbiter.QueuedDisplaced` | ev-sdk/cores/inc/sm_core_co.c:398-404 | four events after which a queued request is displaced; the success of its transfer is then reported to the urgent one |
| `SdoArbiter.CallbackDropped` | ev-sdk/cores/inc/sm_core_co.c:436-448 | six events after which an urgent request accepted in a callback is dropped |
| `SdoArbiter.Arbiter.ClientRequest` | ev-sdk/cores/inc/sm_core_co.c:276-302 | queues the request, refused exactly when ten are waiting |
| `SdoArbiter.Arbiter.ClientRequestNow` | ev-sdk/cores/inc/sm_core_co.c:304-334 | takes the urgent slot, refused exactly while it is taken |
| `SdoArbiter.Arbiter.ProcessStep` | ev-sdk/cores/inc/sm_core_co.c:396-461 | one step of the protocol that Drains and FifoOrder are about, with the completion it reports |
| `TopicMatcher.ScanIsMatch` | ev-sdk/libs/PahoMqtt/MQTTClient.c:148-176 | for every valid filter and every name the character scan is level-by-level matching: '+' one non-empty level, '#' one or more levels |
| `TopicMatcher.IsTopicMatched` | ev-sdk/libs/PahoMqtt/MQTTClient.c:151-176 | the two-cursor loop decides exactly that |
| `TopicMatcher.MatchExact` | ev-sdk/libs/PahoMqtt/MQTTClient.c:151-176 | for every filter with '#' last only and every name, level-by-level matching is that of section 4.7.1 of MQTT 3.1.1 where every wildcard stands for a non-empty level |
| `TopicMatcher.MatcherVersusStandard` | ev-sdk/libs/PahoMqtt/MQTTClient.c:151-176 | the same for the character scan, every valid filter and every name; for names without empty levels the only difference is that "p/#" does not match `p` |
| `TopicMatcher.EmptyLevelRefused` | ev-sdk/libs/PahoMqtt/MQTTClient.c:159-160 | "+/a" does not match "/a", which the standard accepts |
| `HandlerTable.Client.SetMessageHandler` | ev-sdk/libs/PahoMqtt/MQTTClient.c:480-522 | a bounded map with unique filters: adding fails exactly when full and absent, removing exactly when absent, and a failure changes nothing |
| `HandlerTable.RegisterTable` | ev-sdk/libs/PahoMqtt/MQTTClient.c:480-522 | the map after a registration, from every well-formed table, full ones included |
| `HandlerTable.TableSize` | ev-sdk/libs/PahoMqtt/MQTTClient.c:505-512 | the map is full exactly when every slot is in use |
| `HandlerTable.StoreEntry` | ev-sdk/libs/PahoMqtt/MQTTClient.c:514-519 | overwriting the filter's slot, or a free one when it is absent, updates the map at that filter |
| `HandlerTable.RemoveEntry` | ev-sdk/libs/PahoMqtt/MQTTClient.c:490-496 | freeing the slot removes exactly that filter |
| `HandlerTable.HitExact` | ev-sdk/libs/PahoMqtt/MQTTClient.c:187-188 | a valid filter selects a topic exactly if it equals it or matches it level by level |
| `HandlerTable.Client.DeliverMessage` | ev-sdk/libs/PahoMqtt/MQTTClient.c:179-212 | the handlers called may register and remove handlers; a filter that they do not touch stays registered and has its own handler called exactly once if it is selected, a valid one exactly if it equals the topic or matches it level by level, and not at all otherwise; the default exactly when no handler is called |
| `HandlerTable.EveryCallHit` | ev-sdk/libs/PahoMqtt/MQTTClient.c:185-202 | every call is for a selected filter that is registered with this handler when its slot is visited, whatever the handlers before it did |
| `HandlerTable.QuietDelivery` | ev-sdk/libs/PahoMqtt/MQTTClient.c:179-212 | if the handlers leave the table alone, exactly the handlers of the selected filters are called and the table stays as it is |
| `HandlerTable.ServedTwice` | ev-sdk/libs/PahoMqtt/MQTTClient.c:185-202 | a handler that gives its slot to another filter and registers itself again is called twice for one message |
| `StringLength.MaskExact` | ev-sdk/utils/sm_string_util.c:80-93 | the mask test is non-zero exactly when the word holds a zero byte |
| `StringLength.Slen` | ev-sdk/utils/sm_string_util.c:62-110 | the string length modulo 65536 for every string and alignment, reading no word past the one with the terminator |
| `Tokenizer.TokensAreRuns` | ev-sdk/utils/sm_string_util.c:171-183 | the tokens are exactly the maximal delimiter-free runs, in order |
| `Tokenizer.Strtok.Call` | ev-sdk/utils/sm_string_util.c:162-193 | one call: the next token, the terminator written in place, the cursor; no change when there is no token |
| `Tokenizer.Strtok.CallRest` | ev-sdk/utils/sm_string_util.c:162-193 | any number of calls with NULL return the tokens of the text at the cursor in order and then NULL for ever, each token a terminated string in place, nothing else changed |
| `Tokenizer.Strtok.CallMany` | ev-sdk/utils/sm_string_util.c:162-193 | a first call with any string and any number of further calls: the string's tokens and then NULL for ever; for a string without a token, NULL and then the tokens of the text an earlier string left, so all results are NULL exactly if there is none |
| `Tokenizer.EarlierTextGoesOn` | ev-sdk/utils/sm_string_util.c:162-193 | one token of "a,b", then the text ",": NULL, and then the rest of the earlier text |
| `Decimal.DigitsExact` | ev-sdk/utils/sm_string_util.c:27-42 | notation and value are inverse, the length is the digit count, no leading zero |
| `Decimal.ValueJoin` | ev-sdk/utils/sm_string_util.c:229-237 | the value of two strings of digits one after the other |
| `Decimal.LeadingZero` | ev-sdk/utils/sm_string_util.c:229-237 | no digits have the value 0, and leading zeros do not count |
| `Decimal.StringSwap` | ev-sdk/utils/sm_string_util.c:20-25 | copies the characters in reverse |
| `Decimal.LongToString` | ev-sdk/utils/sm_string_util.c:27-42 | writes the decimal notation of any 32-bit number and a terminator and returns its length |
| `Decimal.Atoi` | ev-sdk/utils/sm_string_util.c:229-237 | the value of the leading digits |
| `Decimal.PrintThenParse` | ev-sdk/utils/sm_string_util.c:229-237 | the leading digits of a printed number have its value |
| `Decimal.RoundTrip` | ev-sdk/utils/sm_string_util.c:27-42 | printing and parsing returns n for every n up to 2147483647 |
| `Scheduler.StepUnique` | ev-sdk/cores/sch/sm_core_sch.c:75-157 | no event makes two live slots share function and argument |
| `Scheduler.RunsSpaced` | ev-sdk/cores/sch/sm_core_sch.c:133-157 | any two runs of a task in any run, across restarts and cancellations, are at least the interval in force apart |
| `Scheduler.RunsAtMost` | ev-sdk/cores/sch/sm_core_sch.c:75-157 | a task started with repeat n and left alone runs at most n times (once for n < 1) and is freed exactly by its last run |
| `Scheduler.CallbackStart` | ev-sdk/cores/sch/sm_core_sch.c:142-153 | a task started inside a callback has all its runs ahead of it, or one less exactly if it was started in the visited slot |
| `Scheduler.RunsFromCallback` | ev-sdk/cores/sch/sm_core_sch.c:75-157 | the exact number of runs for such a start, over any run of the scheduler |
| `Scheduler.StartedNeverRuns` | ev-sdk/cores/sch/sm_core_sch.c:142-153 | a one-shot task that cancels itself and starts another one-shot task: that one is freed without having run |
| `Scheduler.NeverMoreThan` | ev-sdk/cores/sch/sm_core_sch.c:146-153 | the same upper bound from any point of a run on, however it was started |
| `Scheduler.RunsWhenDue` | ev-sdk/cores/sch/sm_core_sch.c:133-157 | over any run, a task that is left alone runs exactly at those visits of its slot that come at least its interval after its last run or its start, as long as it is live |
| `Scheduler.TimerAtStart` | ev-sdk/cores/sch/sm_core_sch.c:75-103 | a start gives a new task the time of the start; a task that is already live keeps its timer |
| `Scheduler.DueRunsInPass` | ev-sdk/cores/sch/sm_core_sch.c:134-157 | a live task that the callbacks leave alone runs exactly once in a pass if its interval has elapsed when its slot is visited and not at all otherwise; the pass counts the run and restarts the timer, or ends the task after its last run |
| `Scheduler.QuietPass` | ev-sdk/cores/sch/sm_core_sch.c:134-157 | every slot after a pass whose callbacks do not use the scheduler |
| `Scheduler.PassIsRun` | ev-sdk/cores/sch/sm_core_sch.c:134-157 | a pass is a run of 48 visits, of each slot once and in order, so that all laws about runs apply to it |
| `Scheduler.CancelEnds` | ev-sdk/cores/sch/sm_core_sch.c:105-131 | cancelling leaves no live slot of it |
| `Scheduler.CancelledStays` | ev-sdk/cores/sch/sm_core_sch.c:133-157 | what is not live does not run again unless it is started again |
| `Scheduler.CancelledInCallback` | ev-sdk/cores/sch/sm_core_sch.c:142-153 | this holds for cancellation inside a callback, its own included |
| `Scheduler.Sch.StartTask` | ev-sdk/cores/sch/sm_core_sch.c:75-103 | updates the slot of the same function and argument, else takes the first free one, else -1 |
| `Scheduler.Sch.CancelTask` | ev-sdk/cores/sch/sm_core_sch.c:105-115 | frees one slot |
| `Scheduler.Sch.CancelTasks` | ev-sdk/cores/sch/sm_core_sch.c:117-131 | frees all slots of a function |
| `Scheduler.Sch.ProcessAll` | ev-sdk/cores/sch/sm_core_sch.c:134-157 | one pass leaves the table that PassIsRun, DueRunsInPass and QuietPass are about: the slots are visited in order, each on the table its predecessors' callbacks left |

## Left out

- Generated code, board support, HAL bodies, modem, display and menu code: input and output only.
- `sm_w25qxx.c`, block-level read and write and the `IsEmpty` scans of the AT25XE driver: the same splitting again, or hardware detail. Parts with four-byte addresses, opcodes and busy waits are not modelled; a driver call starts with the lock free.
- `sm_stm.c`, `sm_pmu_stm.c`, `sm_ev_config_validate`, `sm_atof`: small tables, range repair and floating point.
- MQTT packets, timers and network calls; the rule for topics that start with '$'.
- The commented-out part of `debug_app.cpp` and `addEdge`.
- Null guards of the storage and scheduler functions: objects are never null in the model.
- ParamLog.Log.Init: flash contents that this code does not write, such as two entries of one parameter or an entry behind a free word, are excluded. Pending-parameter upload and change events are not modelled.
- ParamLog.Log.SetValue: an erase and a word write are atomic; a write interrupted half-way is not modelled.
- ConfigStore.Storage.Store: sizes are unbounded integers; the int32_t rounding of huge sizes is not modelled, and neither is `sm_ev_config_clear`.
- OptStore.ApplyStored: identifiers longer than 32 bytes, which overrun their field in the source, are excluded.
- InactiveMode.InactiveOnlyAfterDistance: odometer readings are below 2^31, where the source's casts are exact.
- Decimal.Atoi: values beyond INT_MAX, where the source's accumulator overflows, are excluded.
- SdoArbiter.Arbiter.ProcessStep: the SDO client only moves from busy to a result; its protocol and the abort codes are not modelled.
- Scheduler.Sch.CancelTask: negative slot numbers, which the source does not check, are excluded.
