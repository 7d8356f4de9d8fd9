# radiosonde_auto_rx web exporter and UKHAS sentence encoder, in Dafny

This project models two sequential pieces of radiosonde_auto_rx.

**The web telemetry archive (`WebExporter` in `auto_rx/autorx/web.py`).**
Decoders hand telemetry dictionaries to the exporter. It queues them while its run flag is set. A worker loop drains the queue, validates each item against the required-field list, publishes a copy without `datetime_dt` as a `telemetry_event`, and merges it into a per-sonde archive. Each archive entry holds the last-update timestamp, the latest record and the path of `[lat, lon, alt]` points. After each drain the loop evicts whole entries that are too old.

The model also covers two smaller pure pieces of the same file:
- the SDR status table behind `/get_task_list`;
- the filter that keeps `socket.io` messages out of the forwarded log.

**The UKHAS telemetry sentence (`auto_rx/habitat_utils.py`).**
`crc16_ccitt` is CRC-16 with initial value 0xFFFF and polynomial 0x1021. It has no reflection and no final XOR. The result is rendered as four upper-case hex digits. `telemetry_to_sentence` frames the fields as `$$body*CRC\n`.

Modules, one per component:

- `Wrappers` (`wrappers.dfy`): `Option`.
- `Telemetry` (`telemetry.dfy`): field values, records, `REQUIRED_FIELDS` and validation.
- `TrackStore` (`track_store.dfy`): archive entries, merge and age sweep.
- `Exporter` (`exporter.dfy`): run flag and queue, `add`/`close`, per-item handling and one pass of the processing loop. It also holds the history lemmas.
- `TaskStatus` (`task_status.dfy`): the SDR status classifier.
- `LogForwarding` (`log_forwarding.dfy`): the `WebHandler.emit` filter.
- `Crc16` (`crc16.dfy`): the bitwise CRC, its loop implementation and the hex rendering.
- `UkhasSentence` (`ukhas_sentence.dfy`): the sentence encoder and a listener-side checker.

The archive is an explicit value that goes in and comes out; in the source it is a global. The clock is the parameter `now`. One processing pass is the pure function `Exporter.ProcessIteration`, from (queue, store, now, maxAge) to (store', emitted payloads, rejection reasons).

The model follows the code, also where the source's own comments say otherwise:
- `datetime_dt` is in `REQUIRED_FIELDS` (web.py:205), so a record without it is rejected. The comment at web.py:255-256 says it may be absent.
- `add` after `close` logs and discards the item (web.py:288-291). The model returns a `discarded` flag as the observable trace of that log line.
- The constructor stores `max_age * 60` (web.py:215), although the docstring at web.py:210-213 speaks of hours.
- The eviction test is strict, `now - timestamp > max_age`, and it runs after every drain (web.py:227-236, 275-282).

## Model

| member | source | states |
|---|---|---|
| Telemetry.FirstMissing | auto_rx/autorx/web.py:249-252 | returns the index of the first required field, in list order, that the record lacks; none exactly when every field is present |
| Telemetry.Strip | auto_rx/autorx/web.py:254-258 | the copy has exactly the input's keys minus `datetime_dt`, with every other value unchanged |
| Telemetry.Validate | auto_rx/autorx/web.py:245-258 | `None` is rejected; a record is accepted iff it has all 11 required fields (including `datetime_dt`); a rejection names the first missing field in list order; an accepted record is the stripped copy and has id and position |
| TrackStore.Merge | auto_rx/autorx/web.py:262-268 | the id's key is added and all other ids are untouched; a new id gets `path == [pt]`; an existing id's path grows by exactly one point at the end with earlier points unchanged; `latest` is the record and `timestamp == now` |
| TrackStore.Sweep | auto_rx/autorx/web.py:271-282 | an id survives iff `now - timestamp <= maxAge` (strict eviction test); survivors are unchanged; afterwards every entry is fresh |
| TrackStore.CleanTelemetryStore | auto_rx/autorx/web.py:275-282 | popping expired ids one at a time, as the source loop does, yields exactly `Sweep` |
| TrackStore.SweepIdempotent | auto_rx/autorx/web.py:275-282 | sweeping twice at the same time equals sweeping once |
| TrackStore.SweepLater | auto_rx/autorx/web.py:275-282 | with no merge in between, a sweep at t1 followed by one at t2 >= t1 equals the single sweep at t2 |
| TrackStore.SweepBoundary | auto_rx/autorx/web.py:280-281 | an entry exactly `maxAge` old survives; one unit older is evicted |
| TrackStore.MergeSurvivesSweep | auto_rx/autorx/web.py:264-281 | an id merged at `now` survives a sweep at `now` whenever `maxAge >= 0` |
| Exporter.Add | auto_rx/autorx/web.py:286-291 | while running, the item joins the queue tail; after close the exporter is unchanged and the item is discarded |
| Exporter.Close | auto_rx/autorx/web.py:294-296 | clears the run flag and changes nothing else |
| Exporter.HandleTelemetry | auto_rx/autorx/web.py:241-268 | a rejected item leaves the store unchanged, emits nothing and logs its reason; an accepted item emits the stripped copy and merges it |
| Exporter.HandleBatch | auto_rx/autorx/web.py:229-230 | handling items front to back emits exactly the accepted records in queue order and logs exactly the rejections in order, so every item is handled once; the key set grows by the accepted ids and no other entry changes |
| Exporter.ProcessIteration | auto_rx/autorx/web.py:227-233 | one pass handles the whole queue in FIFO order and then sweeps; an item that is `None` or lacks a required field is logged and does not stop later ones; the resulting store is fresh |
| Exporter.Tick | auto_rx/autorx/web.py:227-236 | the run flag and age limit never change; while running, the queue is left empty, the emitted payloads are exactly the accepted records and the logged errors exactly the rejections, both in queue order, the archive is fresh afterwards and gains no id other than accepted ones; once the flag is cleared the queue, archive and outputs are untouched |
| Exporter.BatchTrack | auto_rx/autorx/web.py:227-268 | for every id, after a batch its path is the old path followed by the points of the accepted records naming it, in order; `latest` is the last of them and `timestamp == now`; ids no accepted record names are untouched |
| Exporter.SingleTrackHistory | auto_rx/autorx/web.py:227-268 | valid records r1..rn for one new id give `path == [pt(r1), ..., pt(rn)]` and `latest == rn` after a pass, and the entry survives the sweep |
| Exporter.RejectedBatchLeavesStore | auto_rx/autorx/web.py:245-252 | a batch of invalid items never creates or changes an entry and emits nothing, one logged error per item |
| Exporter.AddAllWhileRunning | auto_rx/autorx/web.py:286-289 | items added while running join the queue in the order given |
| Exporter.AddAllAfterClose | auto_rx/autorx/web.py:286-296 | after `close`, any sequence of `add`s leaves the exporter unchanged |
| Exporter.EnqueueThenDrain | auto_rx/autorx/web.py:224-233 | items added while running are all handled by the next pass in order, each emitted or rejected, and the queue is left empty |
| Exporter.Create | auto_rx/autorx/web.py:207-221 | a new exporter is running with an empty queue, and its stored age limit is the argument times 60 |
| Exporter.DefaultThreshold | auto_rx/autorx/web.py:207-215 | with the default argument `max_age = 120` the stored limit is 7200 |
| Exporter.CreateThreshold | auto_rx/autorx/web.py:207-215 | with a new exporter built from argument m, an entry survives a pass iff it is at most `m * 60` old |
| TaskStatus.IndexTasks | auto_rx/autorx/web.py:83-85 | the index keys are exactly the stringified device indices of the tasks, and each maps to the key of the last task on that device |
| TaskStatus.IndexHoldsLast | auto_rx/autorx/web.py:84-85 | the index entry of a device is the key of the last task running on it |
| TaskStatus.SdrStatuses | auto_rx/autorx/web.py:88-99 | one entry per stringified SDR id, each classified from the task index |
| TaskStatus.TaskList | auto_rx/autorx/web.py:82-99 | keys are exactly the stringified SDR ids; an SDR with no task is "Not Tasked"; otherwise the last task on it decides: `'SCAN'` gives "Scanning", a frequency gives "Decoding (<MHz> MHz)", any other key gives "Decoding (?? MHz)" |
| TaskStatus.StatusForms | auto_rx/autorx/web.py:90-99 | every status is one of the three forms, and "Not Tasked" is reported exactly when no task runs on the device |
| LogForwarding.Contains | auto_rx/autorx/web.py:190 | the scan answers Python's substring test: true exactly when the pattern occurs at some position |
| LogForwarding.Forward | auto_rx/autorx/web.py:188-198 | a record is suppressed exactly when its message contains `socket.io`; otherwise the event carries its level, message and the given timestamp |
| LogForwarding.TransportMessagesSuppressed | auto_rx/autorx/web.py:190 | any message with `socket.io` inside it is never forwarded |
| Crc16.ComputeCrc | auto_rx/habitat_utils.py:23-28 | the nested byte/bit loop (start 0xFFFF, polynomial 0x1021, MSB first, no final XOR) computes the CRC fold |
| Crc16.CrcFromConcat | auto_rx/habitat_utils.py:25-28 | feeding two pieces in turn equals feeding their concatenation |
| Crc16.CrcResidue | auto_rx/habitat_utils.py:25-28 | a message followed by its own CRC, high byte first, leaves the register at zero |
| Crc16.CheckValue | auto_rx/habitat_utils.py:25-28 | the CRC of the empty input is 0xFFFF and of ASCII "123456789" is 0x29B1, the `crc-ccitt-false` check value |
| Crc16.Render4Sound | auto_rx/habitat_utils.py:29 | `hex(n)[2:].upper().zfill(4)` of a 16-bit value is 4 upper-case hex digits that read back to n |
| Crc16.CrcHex | auto_rx/habitat_utils.py:23-29 | `crc16_ccitt` returns exactly 4 characters, each an upper-case hex digit, whose value is the CRC |
| Crc16.HexUpperRoundTrip | auto_rx/habitat_utils.py:29 | upper-cased `hex()` digits are hex digits and parse back to the number |
| Crc16.HexDigitsDetermined | auto_rx/habitat_utils.py:29 | two equal-length renderings with the same value are the same text, so the rendering is injective |
| Crc16.CrcHexCheckValues | auto_rx/habitat_utils.py:23-29 | `crc16_ccitt("")` is "FFFF" and `crc16_ccitt("123456789")` is "29B1" |
| UkhasSentence.ReplaceChar | auto_rx/habitat_utils.py:41 | same length, every `from` character becomes `to`, all others kept |
| UkhasSentence.TelemetryToSentence | auto_rx/habitat_utils.py:36-46 | the output is `"$$" + body + "*" + crc16_ccitt(body) + "\n"`, the checksum covering everything after the leading `$$` |
| UkhasSentence.BodyFields | auto_rx/habitat_utils.py:36-42 | without a comment, the body splits at commas into exactly the 9 base fields; with one, into those 9 plus the comment with commas replaced by `_`, which holds no comma |
| UkhasSentence.CallsignLeads | auto_rx/habitat_utils.py:36-37 | every sentence starts with `$$`, the payload callsign and a comma |
| UkhasSentence.DefaultCallsignLeads | auto_rx/habitat_utils.py:31-37 | with the default `payload_callsign` a sentence starts with `$$RADIOSONDE,` |
| UkhasSentence.CheckSentenceSound | auto_rx/habitat_utils.py:44-45 | whatever the last-`*` checker accepts is `"$$" + body + "*" + CRC(body) + "\n"` for the body it returns |
| UkhasSentence.FrameAccepted | auto_rx/habitat_utils.py:44-45 | the checker accepts every body framed with its own checksum |
| UkhasSentence.SentenceRoundTrip | auto_rx/habitat_utils.py:36-46 | the checker accepts every sentence the encoder produces and returns its body |

## Left out

- Flask routes, templates, the JSON passthrough endpoints, Socket.IO transport and the server start/stop helpers (web.py:29-181): framework and I/O plumbing. The shutdown-key check (web.py:132) is a single string equality and is not modelled.
- The worker thread, `Queue` locking, `time.sleep` and the unlocked reads of the global store by request handlers (web.py:124, 218-236): one pass of the loop is modelled sequentially. Items enqueued while a drain is in progress are picked up by the source's inner loop. In the model they wait for the next pass.
- Exporter.ProcessIteration: uses one clock reading `now` for the whole pass. The source calls `time.time()` again for each merged item and for the sweep, so its timestamps can differ by the time the pass takes.
- Timestamps are integers; the source uses float seconds from `time.time()`.
- Store keys are the `id` field's value (`Telemetry.Value`), as in the source's dictionary. They are not restricted to strings.
- Exporter.ProcessIteration: only `None` and dictionaries with hashable `id` values are modelled as queue items. `handle_telemetry` and `process_queue` (web.py:227-268) catch no exceptions, so two kinds of item end the worker thread for good. A non-dict item such as `5` raises at the `in` test on web.py:250. A dict whose `id` is unhashable is emitted at web.py:260 and then raises at web.py:263. After that nothing drains the queue, but `input_processing_running` stays true, so `add` (web.py:288-289) keeps queueing items. The model has no crashed state.
- TaskStatus.TaskList: `str()` on SDR ids and device indices is the parameter `show`. The `"%.3f" % (freq/1e6)` rendering is the parameter `render`, applied to an exact real quotient, so float rounding is not modelled. Any non-numeric key other than `'SCAN'` is treated as raising on division.
- LogForwarding.Forward: the UTC timestamp string is a parameter, and the record's `msg` is taken to be a string.
- UkhasSentence.TelemetryToSentence: the numeric fields arrive already rendered (`%d`, `%.5f`, `%.1f`, `int(alt)`), and the time arrives already shortened to `HH:MM:SS` (the `strptime`/`strftime` step at habitat_utils.py:33-34 is not modelled). Inputs must be byte strings, as Python 2 `str` values are.
- UkhasSentence.CheckSentence is a listener-side checker written for the round-trip property; the source has no such function.
- The Habitat upload and listener code (habitat_utils.py:48-285): HTTP, base64, SHA-256, a remote UUID pool and retry loops, all network bound.
- `sondehub.js`: a browser map client (Cognito, MQTT, Leaflet) with no separable pure core.
- The test helpers `test_web_log_to_dict` and `test_web_interface` and the `__main__` block (web.py:303-402).
