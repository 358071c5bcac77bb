# Verification of the sensor platform's protocol and state cores

A Dafny 4.11 project about the parts of the platform whose correctness is not visible from one
function body: the CRC-protected IPC link between the hub's two processors, the advertisement
format of the nodes, the node's burst sampler and fault states, the hub's fixed slot tables, and
the hand-over of cloud jobs to hubs through device twins. `dafny verify dfyconfig.toml` checks it.

## Layout

| files | subject |
|---|---|
| `Crc32`, `CrcCheck` | the CRC register, bit-serial and byte-wise, and the decoder's trailer check |
| `Gf2` | polynomials over GF(2), long division by the generator of IEEE Std 802.3, clause 3.2.9 (the algorithm of RFC 1952, section 8) |
| `CrcPowers`, `CrcPeriod`, `NumberTheory` | the register's period is exactly 2^32 - 1 |
| `CrcDetect` | which error patterns go unnoticed: bursts, pairs of bits |
| `IpcFrame`, `IpcLink`, `IpcQueue` | the frame codec, the link's guarantees, the bounded retry queue |
| `BleAdvertisement` | the seventeen-byte node advertisement |
| `Median`, `Sensor` | order statistics and the in-place sort; power gate, burst, calibration, alarms |
| `NodeFault` | the node's self-rescheduling sampler and its fault state |
| `ConnectionManager`, `JobExecutor`, `NodeManager` | the hub's pools of connections, jobs and nodes |
| `Twin`, `Jobs` | interleaved read-modify-write of device twins; the jobs table beside them |

Code that works in place is modelled in place: arrays and classes with loops, each method proved
against a function of the old state, and the results proved about that function over whole runs.

## What the code does that one may not expect

- A frame decodes whatever its view's offset only for offset zero: length and checksum are read at
  the start of the underlying buffer, the payload at the start of the view
  (`common/protocol/ipc-protocol.ts:252-259`). The advertisement parser has the same flaw
  (`common/protocol/ble-protocol.ts:255-268`). Both are stated as exact conditions.
- Twin writes carry the etag `'*'` (`backend/api/src/modules/iot-hub/iot-hub.service.ts:53`), so
  overlapping calls lose updates. `Twin.SerialIff` and `Twin.CompleteIff` say exactly when.
- `connected_cb` with an error (`connection_manager.c:21-24`) never frees its slot, and neither
  does a disconnect that comes before its connection is published. `ConnectionManager` counts both.
- Cancelled jobs and jobs whose sending failed get no `completedAt`
  (`backend/api/src/modules/jobs/jobs.service.ts:37`, `:112`), so cleanup never removes them.
- `job_executor.c:82` unlocks `node_mutex`; the model takes `job_mutex` to be meant.
- `sensor_control.h:24` is malformed; `uint32_t interval_seconds` is taken to be meant.
- A node in FAULT that a hub has connected to never advertises again (`main.c:156-158`).

## Assumptions

- JSON and UTF-8 are an inverse pair of functions whose output fits the 32-bit length field.
- `updateTwin` is an atomic merge of top-level properties that replaces arrays; a write that fails
  has no effect; ids of jobs are never reused.
- The Bluetooth stack hands out connection objects nobody holds and ends each connection once.
- Where samples are averaged, ten converter values fit a 32-bit sum. Calibration is over the reals.
- Each mutex-protected section is one step. The clock, results of drivers, allocations and error
  texts are parameters.

## Model

| member | source | states |
|---|---|---|
| Crc32.Feedback | common/protocol/ipc-protocol.ts:283 | The branch-free feedback term is the conditional shift of the register |
| Crc32.StepInjective | common/protocol/ipc-protocol.ts:283 | A shift loses nothing: different registers stay different |
| Crc32.RunLinear | common/protocol/ipc-protocol.ts:277-288 | Flipping message bits adds to the register what the flips alone would produce |
| Crc32.RunPack | common/protocol/ipc-protocol.ts:280-284 | Feeding up to 32 bits one by one is xoring in their word and then shifting |
| CrcCheck.RunByte | common/protocol/ipc-protocol.ts:281-284 | Xoring in a byte and shifting eight times feeds its bits, lowest first |
| CrcCheck.CalculateCrc32 | common/protocol/ipc-protocol.ts:277-288 | The byte-wise loop computes the bit-serial checksum of every payload |
| CrcCheck.LittleEndianRoundTrip | common/protocol/ipc-protocol.ts:241-259 | A 32-bit value written little-endian is read back |
| CrcCheck.TrailerMatchesIffResidue | common/protocol/ipc-protocol.ts:258-265 | A trailer equals the checksum exactly when the register over payload and trailer ends at 0xdebb20e3 |
| Gf2.GeneratorIsReflected | common/protocol/ipc-protocol.ts:283 | 0xedb88320 is the standard's generator, reflected, without its leading term |
| Gf2.StepDivides | common/protocol/ipc-protocol.ts:283 | A shift multiplies by x and subtracts the generator when x^32 appears |
| Gf2.RemainderUnique | common/protocol/ipc-protocol.ts:277-288 | Long division by the generator has only one remainder |
| Gf2.DividendOfFrame | common/protocol/ipc-protocol.ts:278 | The start value complements the first 32 bits of the message, as clause 3.2.9 asks |
| Gf2.CrcIsTheRemainder | common/protocol/ipc-protocol.ts:277-288 | A word is the checksum of a payload exactly when its complement is the remainder of the long division |
| Gf2.UndetectedIffMultiple | common/protocol/ipc-protocol.ts:277-288 | An error pattern runs to zero exactly when its polynomial is a multiple of the generator |
| CrcPowers.SixteenthOfStep | common/protocol/ipc-protocol.ts:283 | Raising to the sixteenth power turns one shift into sixteen, which evaluates huge shift counts |
| CrcPeriod.PeriodIsExact | common/protocol/ipc-protocol.ts:283 | k shifts leave every register alone exactly when 2^32 - 1 divides k |
| CrcDetect.DamagePasses | common/protocol/ipc-protocol.ts:258-265 | A damaged body passes exactly when the damage alone runs to zero |
| CrcDetect.BurstDetected | common/protocol/ipc-protocol.ts:277-288 | Every burst of at most 32 bits is noticed, at any position in a body of any length |
| CrcDetect.PairUndetected | common/protocol/ipc-protocol.ts:277-288 | Two flipped bits go unnoticed exactly when their distance is a multiple of 2^32 - 1 |
| IpcFrame.NumberRoundTrip | common/protocol/ipc-protocol.ts:235-253 | Lengths below 2^32 survive the header |
| IpcFrame.HeaderIsBinary | common/protocol/ipc-protocol.ts:235 | The header, in transmission order, is the payload length in binary, lowest digit first |
| IpcFrame.EncodeFrame | common/protocol/ipc-protocol.ts:225-244 | The buffer filled in place is length, payload and checksum |
| IpcFrame.AcceptsExactlyFrames | common/protocol/ipc-protocol.ts:249-272 | The decoder returns a payload exactly when the buffer starts with that payload's frame |
| IpcFrame.RoundTrip | common/protocol/ipc-protocol.ts:225-272 | Decoding a frame with anything behind it gives the payload, exactly when its length fits 32 bits |
| IpcFrame.FramesDoNotNest | common/protocol/ipc-protocol.ts:225-244 | No frame is a prefix of a strict prefix of another |
| IpcFrame.StrictPrefixRejected | common/protocol/ipc-protocol.ts:249-256 | Every strict prefix of a frame decodes to null |
| IpcLink.MessageRoundTrip | common/protocol/ipc-protocol.ts:225-272 | Messages survive encoding and decoding with any trailing bytes |
| IpcLink.StreamsDecodeUniquely | common/protocol/ipc-protocol.ts:225-272 | Message sequences with equal concatenated encodings are equal |
| IpcLink.OnlyOffsetZeroIsSafe | common/protocol/ipc-protocol.ts:252-259 | A view is decoded right whatever precedes it exactly when its offset is zero |
| IpcLink.DamageDecides | common/protocol/ipc-protocol.ts:249-272 | For every damage behind an intact length: what the decoder returns, and that it does so exactly for undetected damage |
| IpcLink.MissesExactlyMultiples | common/protocol/ipc-protocol.ts:249-272 | Damage behind an intact length goes unnoticed exactly when its polynomial is a multiple of the generator |
| IpcLink.BurstRejected | common/protocol/ipc-protocol.ts:249-272 | Any burst of at most 32 bits in payload and checksum makes the decoder return null |
| IpcLink.PairRejected | common/protocol/ipc-protocol.ts:249-272 | Two flipped bits are rejected exactly when their distance is no multiple of 2^32 - 1 |
| IpcLink.FourByteDamageRejected | common/protocol/ipc-protocol.ts:249-272 | Any damage within four consecutive bytes is rejected, also across payload and checksum |
| IpcQueue.After | common/protocol/ipc-protocol.ts:293-337 | Every run keeps the ledger: each accepted message in exactly one place, order kept, drops exactly at the third requeue |
| IpcQueue.MessagesConserved | common/protocol/ipc-protocol.ts:293-337 | Accepted messages are, as a multiset, the delivered, dropped, cleared and waiting ones |
| IpcQueue.DeliveriesFollowAcceptance | common/protocol/ipc-protocol.ts:298-310 | Messages are delivered in the order of acceptance, before all that still wait |
| IpcQueue.WaitingRetriesBelowThree | common/protocol/ipc-protocol.ts:312-328 | A waiting message was requeued at most twice |
| IpcQueue.DroppedOnThirdRequeue | common/protocol/ipc-protocol.ts:312-328 | A requeue drops a message exactly when it is its third |
| IpcQueue.RequeueOnQueue | common/protocol/ipc-protocol.ts:312-328 | The first entry of the id gets one more retry in its place, or leaves at its third; the answer says which |
| IpcQueue.EnqueueOnQueue | common/protocol/ipc-protocol.ts:298-305 | An enqueue is answered true exactly when fewer than a hundred wait, and goes to the end with no retries |
| IpcQueue.DequeueOnQueue | common/protocol/ipc-protocol.ts:307-310 | A dequeue answers with the first message waiting and takes it away; null exactly when nothing waits |
| IpcQueue.RepliesTellHistory | common/protocol/ipc-protocol.ts:298-337 | Over every run the answers are the history: messages let in are the accepted ones, messages handed out are, in order, the delivered ones |
| IpcQueue.FirstInFirstOut | common/protocol/ipc-protocol.ts:298-310 | Without requeues and clears, messages handed out followed by those waiting are the messages let in |
| IpcQueue.IPCMessageQueue.EnqueueMessage | common/protocol/ipc-protocol.ts:298-305 | The queue in place follows the ledger, and refuses at one hundred |
| IpcQueue.IPCMessageQueue.DequeueMessage | common/protocol/ipc-protocol.ts:307-310 | The queue in place follows the ledger |
| IpcQueue.IPCMessageQueue.RequeueMessage | common/protocol/ipc-protocol.ts:312-328 | The queue in place follows the ledger, with the same answer |
| BleAdvertisement.Encode | common/protocol/ble-protocol.ts:277-294 | The buffer filled in place is the seventeen bytes of the advertisement; it throws exactly for an id of too many parts |
| BleAdvertisement.ByteLayout | common/protocol/ble-protocol.ts:283-292 | Each field has its place: numbers little-endian, the id at 3, the float at 10 |
| BleAdvertisement.ParsedFields | common/protocol/ble-protocol.ts:256-268 | The parser reads each number from its place, little-endian, and an id of the six bytes at 3 |
| BleAdvertisement.HexParsesBack | common/protocol/ble-protocol.ts:263-286 | A byte printed in hexadecimal is parsed back by parseInt |
| BleAdvertisement.DigitIff | common/protocol/ble-protocol.ts:286 | The sixteen hexadecimal digits, in either case, and nothing else, have their values |
| BleAdvertisement.ParseIntReads | common/protocol/ble-protocol.ts:286 | parseInt by the form of its argument: white space, sign, prefix, digits by position, and what is no digit |
| BleAdvertisement.JoinSplit | common/protocol/ble-protocol.ts:286 | Every id is its parts joined by colons, and no part has one |
| BleAdvertisement.IdByteIs | common/protocol/ble-protocol.ts:286-289 | Byte i of an id is its part i cut to eight bits, or zero without such a part or number |
| BleAdvertisement.SplitJoin | common/protocol/ble-protocol.ts:264-286 | Splitting at colons undoes joining with them |
| BleAdvertisement.IdSurvivesIff | common/protocol/ble-protocol.ts:261-287 | An id survives encoding and parsing exactly when it is six lower-case pairs with colons |
| BleAdvertisement.ParseEncoded | common/protocol/ble-protocol.ts:252-294 | Parsing what was encoded gives every number modulo its width and the id in canonical form |
| BleAdvertisement.RoundTripIff | common/protocol/ble-protocol.ts:252-294 | Exactly the advertisements in range with a canonical id come back unchanged |
| BleAdvertisement.ReencodeIff | common/protocol/ble-protocol.ts:252-294 | Encoding what was parsed reproduces the first seventeen bytes exactly when the float is no foreign NaN |
| BleAdvertisement.NaNIff | common/protocol/ble-protocol.ts:266 | The four bytes are a NaN exactly when, the sign apart, they are above infinity |
| BleAdvertisement.OnlyOffsetZeroIsSafe | common/protocol/ble-protocol.ts:255-268 | A window is parsed right whatever precedes it exactly when it starts its buffer |
| Median.BubbleSort | firmware/node_nrf54l15/src/sensor/sensor_control.c:118-126 | The first n cells are sorted and permuted in place, the others untouched |
| Median.RankUnique | firmware/node_nrf54l15/src/sensor/sensor_control.c:127 | Only one value has a given rank |
| Median.CountsByMultiset | firmware/node_nrf54l15/src/sensor/sensor_control.c:118-127 | Ranks do not depend on the order of the samples |
| Median.SortedRank | firmware/node_nrf54l15/src/sensor/sensor_control.c:127 | In a sorted burst the index of a cell is its rank |
| Median.MedianIff | firmware/node_nrf54l15/src/sensor/sensor_control.c:117-127 | The median is the cell at half the length once the samples are sorted, and nothing else |
| Median.MedianBreakdown | firmware/node_nrf54l15/src/sensor/sensor_control.c:117-127 | With more than half the samples in a range the median is in it, whatever the others are |
| Median.RankMonotone | firmware/node_nrf54l15/src/sensor/sensor_control.c:117-127 | Raising samples never lowers the value of a rank |
| Sensor.TruncDivMonotone | firmware/node_nrf54l15/src/sensor/sensor_control.c:115 | The truncating division of the mean is monotone, also across zero |
| Sensor.SumConcat | firmware/node_nrf54l15/src/sensor/sensor_control.c:112-114 | The accumulated sum adds every sample once |
| Sensor.AggregateWithin | firmware/node_nrf54l15/src/sensor/sensor_control.c:109-128 | Mean and median stay within the range of the samples |
| Sensor.AggregateMonotone | firmware/node_nrf54l15/src/sensor/sensor_control.c:109-128 | Mean and median are monotone in every sample |
| Sensor.CalibrationIsQuadratic | firmware/node_nrf54l15/src/sensor/sensor_control.c:49-65 | Both branches of calibration are the quadratic A v^2 + (slope + B) v + offset |
| Sensor.CalibrationInMillivolts | firmware/node_nrf54l15/src/sensor/sensor_control.c:49-65 | In the raw unit: with r millivolts a million times the value above the offset is A r^2 + 1000 (slope + B) r |
| Sensor.MillivoltsDetermine | firmware/node_nrf54l15/src/sensor/sensor_control.c:49-65 | Only the calibrated value fits that law |
| Sensor.NonDecreasingIff | firmware/node_nrf54l15/src/sensor/sensor_control.c:49-65 | Calibration never decreases on a voltage range exactly when its slope is not negative at both ends |
| Sensor.PipelineMonotone | firmware/node_nrf54l15/src/sensor/sensor_control.c:109-151 | From samples to alarms: raising samples never lowers the value, clears the high alarm or raises the low one |
| Sensor.VisitIsSafe | firmware/node_nrf54l15/src/sensor/sensor_control.c:84-107 | On every exit the sensor is off, was on for every conversion, and for how long |
| Sensor.BurstLength | firmware/node_nrf54l15/src/sensor/sensor_control.c:75-82 | One for none, ten for more than ten, otherwise the configured count |
| Sensor.Battery | firmware/node_nrf54l15/src/sensor/sensor_control.c:163-177 | Zero on failure, otherwise the reading modulo 65536 |
| Sensor.SensorControl.Acquire | firmware/node_nrf54l15/src/sensor/sensor_control.c:91-103 | The burst stores the samples up to the first failure, which drops the power and is returned |
| Sensor.SensorControl.Aggregate | firmware/node_nrf54l15/src/sensor/sensor_control.c:109-128 | The raw value is the truncated mean or the element of rank n/2, without overflow of the sum |
| Sensor.SensorControl.GetBattery | firmware/node_nrf54l15/src/sensor/sensor_control.c:163-177 | Zero on failure, sixteen bits otherwise |
| Sensor.SensorControl.Read | firmware/node_nrf54l15/src/sensor/sensor_control.c:70-158 | A failed conversion leaves the reading alone; otherwise every field is as specified; the power trace is the specified one |
| NodeFault.EveryRunTracks | firmware/node_nrf54l15/src/main.c:57-98 | What every event keeps: the counter is the current run of failures, a sample is pending exactly while operational |
| NodeFault.FaultIff | firmware/node_nrf54l15/src/main.c:57-98 | In FAULT exactly when the reads end in the first six failures in a row; no read is made after that |
| NodeFault.HistoryIsCutOutcomes | firmware/node_nrf54l15/src/main.c:57-98 | The reads made are the due ones up to the first six failures in a row |
| NodeFault.AdvertisesIff | firmware/node_nrf54l15/src/main.c:138-159 | A node started operational advertises exactly when each connection was followed by a disconnection outside FAULT |
| NodeFault.UncommissionedAdvertises | firmware/node_nrf54l15/src/main.c:138-242 | Without configuration it stays uncommissioned and advertises until something connects |
| NodeFault.FaultIsSilent | firmware/node_nrf54l15/src/main.c:138-159 | FAULT is for ever, and after a connection the node never advertises again |
| NodeFault.UnscheduledNeverSamples | firmware/node_nrf54l15/src/main.c:183-242 | Without configuration, or after a failed start, no sample is ever taken |
| NodeFault.Application.SampleWorkHandler | firmware/node_nrf54l15/src/main.c:57-98 | The handler in place is one step of the model |
| NodeFault.Application.OnDisconnected | firmware/node_nrf54l15/src/main.c:151-159 | The callback in place is one step of the model |
| ConnectionManager.StepKeeps | firmware/hub_nrf54l15_ble/src/ble_central/connection_manager.c:28-101 | What every critical section and callback keeps, in any interleaving |
| ConnectionManager.ReserveDoes | firmware/hub_nrf54l15_ble/src/ble_central/connection_manager.c:64-77 | A connect call gets the first free slot exactly while fewer than three are in use |
| ConnectionManager.CreateFailedDoes | firmware/hub_nrf54l15_ble/src/ble_central/connection_manager.c:86-93 | A refused call is over, its slot is free again and the count one lower |
| ConnectionManager.CreateSucceededDoes | firmware/hub_nrf54l15_ble/src/ble_central/connection_manager.c:86 | A created object belongs to its call and is not in the table yet |
| ConnectionManager.PublishDoes | firmware/hub_nrf54l15_ble/src/ble_central/connection_manager.c:95-97 | A published call is over and its connection is in its slot; the count stays |
| ConnectionManager.DisconnectedDoes | firmware/hub_nrf54l15_ble/src/ble_central/connection_manager.c:28-42 | A published connection that ends frees its slot and lowers the count; any other changes nothing; no slot holds it afterwards |
| ConnectionManager.CallsNeverShare | firmware/hub_nrf54l15_ble/src/ble_central/connection_manager.c:59-101 | Calls in progress hold different slots, in use and empty; a published connection is in use and in one slot only |
| ConnectionManager.CountOverRuns | firmware/hub_nrf54l15_ble/src/ble_central/connection_manager.c:112-125 | Over every run the count is waiting attempts, live connections and leaking events so far, and at most three |
| ConnectionManager.ThreeLeaksBlockForever | firmware/hub_nrf54l15_ble/src/ble_central/connection_manager.c:19-42 | After three leaking events no connect call ever gets a slot again |
| ConnectionManager.DropBeforePublishLeaks | firmware/hub_nrf54l15_ble/src/ble_central/connection_manager.c:28-97 | A connection that drops before it is published costs its slot, from every reachable state |
| ConnectionManager.FoundWherePublished | firmware/hub_nrf54l15_ble/src/ble_central/connection_manager.c:33-40 | The disconnect search finds a connection where it is published, and nowhere before that |
| ConnectionManager.Connections.Reserve | firmware/hub_nrf54l15_ble/src/ble_central/connection_manager.c:64-77 | The first free slot is taken, or none when all are in use: one step of the model |
| ConnectionManager.Connections.Release | firmware/hub_nrf54l15_ble/src/ble_central/connection_manager.c:87-93 | Giving the slot back after a refusal is one step of the model |
| ConnectionManager.Connections.Publish | firmware/hub_nrf54l15_ble/src/ble_central/connection_manager.c:95-97 | Publishing the connection is one step of the model |
| ConnectionManager.Connections.OnConnected | firmware/hub_nrf54l15_ble/src/ble_central/connection_manager.c:19-26 | A failed attempt is reported and its slot stays taken |
| ConnectionManager.Connections.OnDisconnected | firmware/hub_nrf54l15_ble/src/ble_central/connection_manager.c:28-42 | The slot of the connection is cleared, the others are untouched: one step of the model |
| ConnectionManager.Connections.GetCount | firmware/hub_nrf54l15_ble/src/ble_central/connection_manager.c:112-125 | The number of slots in use |
| JobExecutor.EveryRunIsFifo | firmware/hub_nrf54l15_ble/src/job_executor/job_executor.c:25-89 | Used slots are a prefix, completed before queued, and hold in every field the accepted requests with ids 1, 2, 3 and so on and the times of their processing |
| JobExecutor.FirstInFirstOut | firmware/hub_nrf54l15_ble/src/job_executor/job_executor.c:25-100 | The k-th processed id is the k-th accepted one; acceptance exactly below sixteen; pending is accepted minus processed; a process call finds a job exactly then |
| JobExecutor.SlotsKeepTheirIds | firmware/hub_nrf54l15_ble/src/job_executor/job_executor.c:61-62 | A used slot keeps its id for ever, so reading it after unlocking is safe |
| JobExecutor.Executor.Queue | firmware/hub_nrf54l15_ble/src/job_executor/job_executor.c:25-63 | The call in place is one step of the model, with the same return value |
| JobExecutor.Executor.Process | firmware/hub_nrf54l15_ble/src/job_executor/job_executor.c:65-89 | The call in place is one step of the model, with the same return value |
| JobExecutor.Executor.GetPendingCount | firmware/hub_nrf54l15_ble/src/job_executor/job_executor.c:91-100 | The number of valid queued jobs |
| NodeManager.CallRefines | firmware/hub_nrf54l15_ble/src/node_manager/node_manager.c:24-130 | Every call on the table is one step of a bounded map, with the right error code, and moves no known address |
| NodeManager.TableIsBoundedMap | firmware/hub_nrf54l15_ble/src/node_manager/node_manager.c:24-141 | Distinct addresses; the count is the distinct addresses accepted; addition fails exactly when new and full; states fit their fields |
| NodeManager.IndexIsStable | firmware/hub_nrf54l15_ble/src/node_manager/node_manager.c:34-130 | A known address keeps its index for ever |
| NodeManager.IndicesInOrder | firmware/hub_nrf54l15_ble/src/node_manager/node_manager.c:39-69 | Indices are given out in the order of acceptance |
| NodeManager.RecordIsItsHistory | firmware/hub_nrf54l15_ble/src/node_manager/node_manager.c:34-130 | Over every run each field of a node is what the calls for its address since it was added say: connection, state, binding, reading, battery, signal, last sign of life, and every byte of its id |
| NodeManager.ConnectedOverRuns | firmware/hub_nrf54l15_ble/src/node_manager/node_manager.c:143-152 | The connected count is the number of addresses whose calls last left them connected |
| NodeManager.CountIsDistinctAddresses | firmware/hub_nrf54l15_ble/src/node_manager/node_manager.c:132-141 | The count of valid slots is the number of distinct addresses |
| NodeManager.Nodes.FindNodeByAddr | firmware/hub_nrf54l15_ble/src/node_manager/node_manager.c:24-32 | The first valid slot of an address, or -1 |
| NodeManager.Nodes.AddNode | firmware/hub_nrf54l15_ble/src/node_manager/node_manager.c:34-70 | The call in place is one step of the model, with the same return value |
| NodeManager.Nodes.UpdateConnection | firmware/hub_nrf54l15_ble/src/node_manager/node_manager.c:86-96 | The call in place is one step of the model, with the same return value |
| NodeManager.Nodes.UpdateReading | firmware/hub_nrf54l15_ble/src/node_manager/node_manager.c:98-108 | The call in place is one step of the model, with the same return value |
| NodeManager.Nodes.UpdateBattery | firmware/hub_nrf54l15_ble/src/node_manager/node_manager.c:110-117 | The call in place is one step of the model, with the same return value |
| NodeManager.Nodes.BindNode | firmware/hub_nrf54l15_ble/src/node_manager/node_manager.c:119-130 | The call in place is one step of the model, with the same return value |
| NodeManager.Nodes.GetConnectedCount | firmware/hub_nrf54l15_ble/src/node_manager/node_manager.c:143-152 | The number of valid connected slots |
| Twin.CommitIsIntendedIff | backend/api/src/modules/iot-hub/iot-hub.service.ts:42-147 | A write does what its operation means exactly when nothing it copies back is stale |
| Twin.EveryRunIsSafe | backend/api/src/modules/iot-hub/iot-hub.service.ts:84-147 | Under every interleaving the stored jobs are a duplicate-free selection, in commit order, of the committed ones |
| Twin.SerialIff | backend/api/src/modules/iot-hub/iot-hub.service.ts:42-147 | A run is its operations in commit order, nothing lost, exactly when no write copies back anything stale |
| Twin.CompleteIff | backend/api/src/modules/iot-hub/iot-hub.service.ts:84-147 | The stored list is all committed jobs, at every moment, exactly when each write's jobs were still the stored ones |
| Twin.PendingIsItsRead | backend/api/src/modules/iot-hub/iot-hub.service.ts:86-87 | At every moment each pending call holds the twin that was stored when it read |
| Twin.NoOverlapLosesNothing | backend/api/src/modules/iot-hub/iot-hub.service.ts:84-147 | Calls that do not overlap, seen from the order of reads and writes alone, lose nothing |
| Twin.SequentialMeans | backend/api/src/modules/iot-hub/iot-hub.service.ts:84-147 | Operations one after the other append their jobs, leave the last topology and policies, and touch nothing else |
| Twin.FreshCommitsLoseNothing | backend/api/src/modules/iot-hub/iot-hub.service.ts:42-147 | If every snapshot is still stored when its write comes, no job, topology or policy is lost |
| Twin.OverlapLosesAJob | backend/api/src/modules/iot-hub/iot-hub.service.ts:84-100 | Two overlapping calls can lose the first job |
| Twin.IotHubService.AddJobToTwin | backend/api/src/modules/iot-hub/iot-hub.service.ts:84-100 | Without overlap the job is appended, or nothing changes when the registry fails |
| Twin.IotHubService.UpdateTopologyMapping | backend/api/src/modules/iot-hub/iot-hub.service.ts:105-127 | Without overlap only the topology changes, or nothing |
| Twin.IotHubService.UpdateHubPolicies | backend/api/src/modules/iot-hub/iot-hub.service.ts:132-147 | Without overlap only the policies change, or nothing |
| Jobs.RowIsItsHistory | backend/api/src/modules/jobs/jobs.service.ts:93-132 | Every column of a row is what its creation and its reports say: last status, first start, last end, last code, message and result given, times and data |
| Jobs.StartedOnce | backend/api/src/modules/jobs/jobs.service.ts:108-110 | A start time never changes once set |
| Jobs.MissingIff | backend/api/src/modules/jobs/jobs.service.ts:247-262 | A created job is gone exactly when some cleanup found its last reported status one of the four and its last reported end before the cutoff |
| Jobs.CleanupRemoves | backend/api/src/modules/jobs/jobs.service.ts:251-258 | A row goes exactly when its status is one of the four, it has a completion time, and that lies before the cutoff; other rows stay as they are |
| Jobs.CleanupAgain | backend/api/src/modules/jobs/jobs.service.ts:251-258 | A second cleanup with the same or an earlier cutoff removes nothing |
| Jobs.NeverCleaned | backend/api/src/modules/jobs/jobs.service.ts:247-262 | A job never reported as ended stays for ever, also when cancelled or not sent |
| Jobs.TwinsAgree | backend/api/src/modules/jobs/jobs.service.ts:20-61 | A job is once more in its hub's list exactly if it was sent there, and in no other list |
| Jobs.OutcomeIsDecided | backend/api/src/modules/jobs/jobs.service.ts:30-41 | A job is sent exactly when it has a hub, the registry answers and knows it; without a hub nothing is tried |
| Jobs.SentAsCreated | backend/api/src/modules/jobs/jobs.service.ts:49-60 | The hub is told the type, target, payload and creation time the job was created with, and its timeout or 300 |
| Jobs.UnreportedAgree | backend/api/src/modules/jobs/jobs.service.ts:20-61 | Queued and unreported means listed once at its hub; failed and unreported means listed nowhere |
| Jobs.StatisticsAddUp | backend/api/src/modules/jobs/jobs.service.ts:220-242 | The four counts, timed-out and cancelled jobs make up the total |
| Jobs.JobsService.CreateJob | backend/api/src/modules/jobs/jobs.service.ts:20-61 | The call in place is one step of the model |
| Jobs.JobsService.UpdateJobStatus | backend/api/src/modules/jobs/jobs.service.ts:93-132 | The call in place is one step of the model; an unknown id changes nothing |
| Jobs.JobsService.CancelJob | backend/api/src/modules/jobs/jobs.service.ts:159-161 | A cancellation sets the status and no completion time |
| Jobs.JobsService.GetJobStatistics | backend/api/src/modules/jobs/jobs.service.ts:220-242 | The reported counts and what is missing to the total |
| Jobs.JobsService.CleanupOldJobs | backend/api/src/modules/jobs/jobs.service.ts:247-262 | A row goes exactly when its status is one of the four and it has a completion time before the cutoff; the rest stay unchanged; the removed are counted |

## Left out

- JSON, UTF-8, clocks, random ids and log output: library behaviour, taken as parameters.
- Rounding of floats in calibration and on the air: reals, and four opaque bytes.
- Hexadecimal numbers beyond 2^53 in a node id: parseInt rounds them, the model does not.
- Zephyr, Bluetooth, GPIO, converter and timers: only their results and callbacks. The wait between two conversions is an event of the power trace.
- Widths of signal strength, battery level and addresses in the node table, which are stored as given, and of counters that cannot overflow within the modelled runs (the fault counter, connection counts) and of uptime stamps.
- A second initialisation of the job pool or the node table at run time.
- Status strings outside the table's enumeration, which the database refuses, and fields of `createJob`'s argument that its callers in the service never set.
- Overlapping `createJob` calls: the twin side of an overlap is module Twin, the database side is one row per id.
- The calendar arithmetic of the cleanup cutoff: the cutoff is a parameter.
- Azure's own twin metadata, nested merges and query language.
- `gatt_client.c`: its context table repeats the argument of the connection pool.
- The hub's cellular state machine: few branches around stub callees.
- Stubs and abbreviated functions (`ipc_handler.c`, `storage.c`, `config_manager.c`, `advertising.c`, `device_twin.c`, the ends of `node_manager.c` and `job_executor.c`): no behaviour.
- Controllers, authentication, pages, topology service and infrastructure: wrappers and I/O.
