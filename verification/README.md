# Pertronic F100A mimic client, modelled in Dafny

This project models the core of a Home Assistant integration for the Pertronic
F100A fire panel. The client (`PertronicF100AMimic`) listens to the panel's
mimic bus over TCP. It reads one buffer at a time and recognises frames by
their leading octets. It decodes LED-mimic frames (four global flags and 256
lamp bits), LCD-line frames (forty octets of text and nine condition bits) and
heartbeat frames. It keeps the decoded panel state and notifies registered
callbacks. The integration builds binary sensors on top of the client: eleven
condition sensors, plus one lamp sensor for each lamp that three configured
group counts select. A configuration flow validates those counts and the
connection.

Modules, one per concern:

- `Wrappers`: `Option` (Python's `None`) and `Result` (a value or the exception raised in its place).
- `Bits`: octets as `bv8` and the `bool(b & mask)` bit tests.
- `LcdText`: LCD text as the octets of its UTF-8 encoding. It has strict UTF-8 validity (table 3-7 of The Unicode Standard) and `lstrip(" ").rstrip(" ")`.
- `Panel`: the decoded state `decoded_data`, its initial value, the three read accessors and the invariant every decoder keeps.
- `Callbacks`: the callback registry `_led_callbacks` / `_lcd_callbacks` and the three registration calls. Callbacks are values of a type parameter. The model records which ones a decoder calls, and with what, as a trace of notes.
- `Decoders`: `process_led_mimic_packet`, `process_lcd_mimic_line` and the heartbeat update. Each returns the new state and the trace of callback calls, in call order, or it says that the guard refused the packet or that indexing the packet raised.
- `Dispatch`: the decode half of `_io_loop` and `_get_io_bytes`. This covers the frame catalogue, the inner loop and its counters, one read cycle per `recv`, and a stream of read cycles.
- `BinarySensor`: `async_setup_entry` (which lamps get a sensor, and what is registered and handed to Home Assistant), each sensor's `proccess_callback`, and its initial read.
- `ConfigFlow`: `validate_input_with_pertronic`, `validate_input` and `async_step_user` with its exception-to-error-key mapping.

Where the behaviour is only in the code, the model follows the code:

- **Lamp indices are raw and 0-based throughout.** Bit j of octet 4+i is stored in slot 8i+j. The callbacks registered under that same index are called with it. So a lamp sensor registered for lamp n sees raw bit n, and only the debug log numbers lamps from 1.
- **`get_led_state` accepts index 0.** Slot 256 is never written.
- **`register_special_led_callback` accepts every key the dictionary holds.** That includes the integers 0..256 as well as the eleven condition names.
- **`_get_io_bytes` never advances the buffer.** It stores the rest of the buffer in `io_buffer` instead of `_io_buffer`. This is modelled as written (`Dispatch.AsWritten`), next to the evidently intended rule (`Dispatch.Advancing`). The loop, the read cycle and the stream are all stated for either rule.
- **Callback exceptions are not modelled.** The client catches exceptions per callback, but the lamp handler's own log message has three placeholders and two arguments, so it raises again. Callbacks are therefore taken not to raise.
- **Which packets raise.** Called directly, a decoder raises an index error for an empty packet or for its lone lead octet. The read loop never hands a decoder fewer than two octets (`Dispatch.DispatchedAtLeastTwo`), so that error never ends a read cycle. Inside a read cycle only two things reach the cycle-wide handler and end the cycle: LCD text that does not decode as UTF-8, and a two-octet buffer `47 31` or `83 31`, which raises while being classified.

## Model

| member | source | states |
|---|---|---|
| Bits.UnpackPack | custom_components/pertronic_f100a/pertronic/PertronicF100AMimic.py:327-333 | reading bit j (`byte & (1 << j)`) of an octet packed from eight flags gives flag j back |
| Bits.PackUnpack | custom_components/pertronic_f100a/pertronic/PertronicF100AMimic.py:330-333 | the eight bit tests of an octet determine it: packing them rebuilds the octet |
| Callbacks.EmptyRegistry | custom_components/pertronic_f100a/pertronic/PertronicF100AMimic.py:47-97 | the constructed registry has every lamp index 0..256 and every condition present with no callbacks, and an empty LCD list |
| Callbacks.RegisterLcd | custom_components/pertronic_f100a/pertronic/PertronicF100AMimic.py:283-286 | always accepted; the callback is appended to the LCD list and no other list changes |
| Callbacks.RegisterSpecial | custom_components/pertronic_f100a/pertronic/PertronicF100AMimic.py:491-495 | accepted exactly for keys the dictionary holds (lamp indices 0..256 and the eleven names); a refusal changes nothing; an acceptance appends to that key's list only |
| Callbacks.RegisterLed | custom_components/pertronic_f100a/pertronic/PertronicF100AMimic.py:288-295 | accepted exactly for 1..256; a refusal stores nothing; an acceptance appends to that lamp's list and leaves every other key and the LCD list alone |
| Callbacks.RegisterLedVersusSpecial | custom_components/pertronic_f100a/pertronic/PertronicF100AMimic.py:288-295 | the two registration paths agree on lamps 1..256; lamp 0 is refused by the lamp path but accepted by the named-key path |
| Panel.ConditionNamed | custom_components/pertronic_f100a/pertronic/PertronicF100AMimic.py:33-45 | a key names a condition exactly when it is that condition's dictionary key; no other string names one |
| Panel.ConditionNamesRoundTrip | custom_components/pertronic_f100a/pertronic/PertronicF100AMimic.py:78-91 | every condition is found again under its own key, and no condition is keyed "timestamp" |
| Panel.InitialState | custom_components/pertronic_f100a/pertronic/PertronicF100AMimic.py:65-94 | the constructed state has every lamp, every condition, both LCD lines and the heartbeat unknown |
| Panel.GetLedState | custom_components/pertronic_f100a/pertronic/PertronicF100AMimic.py:465-468 | unknown outside 0..256, the stored slot inside |
| Panel.GetLcdText | custom_components/pertronic_f100a/pertronic/PertronicF100AMimic.py:460-463 | line 1 and line 2 give their stored text; any other line gives unknown |
| Panel.GetSpecialLedState | custom_components/pertronic_f100a/pertronic/PertronicF100AMimic.py:470-473 | a key that is neither a condition nor "timestamp" gives `None`; the integer timestamp comes back exactly for "timestamp", and it is the stored one |
| Panel.SpecialStateByName | custom_components/pertronic_f100a/pertronic/PertronicF100AMimic.py:470-473 | looking a condition up by its key yields that condition's stored value |
| Panel.InitialConsistent | custom_components/pertronic_f100a/pertronic/PertronicF100AMimic.py:65-94 | the constructed state satisfies the decoders' invariant |
| LcdText.SkipSpaces | custom_components/pertronic_f100a/pertronic/PertronicF100AMimic.py:361 | the leading run skipped is all spaces, and what follows it is not a space |
| LcdText.BackSpaces | custom_components/pertronic_f100a/pertronic/PertronicF100AMimic.py:362 | the trailing run dropped is all spaces, and what precedes it is not a space |
| LcdText.Trim | custom_components/pertronic_f100a/pertronic/PertronicF100AMimic.py:361-362 | the stripped text neither starts nor ends with a space and is no longer than the input |
| LcdText.TrimUnique | custom_components/pertronic_f100a/pertronic/PertronicF100AMimic.py:361-362 | any unpadded text surrounded only by spaces is exactly what stripping returns |
| LcdText.TrimIdempotent | custom_components/pertronic_f100a/pertronic/PertronicF100AMimic.py:361-362 | stripping twice strips nothing more |
| LcdText.TrimValid | custom_components/pertronic_f100a/pertronic/PertronicF100AMimic.py:360-362 | stripping spaces from decodable text leaves decodable text |
| LcdText.AsciiValid | custom_components/pertronic_f100a/pertronic/PertronicF100AMimic.py:360 | octets below 0x80 always decode |
| Decoders.DecodeLed | custom_components/pertronic_f100a/pertronic/PertronicF100AMimic.py:302-334 | fire, defect, evacuate and silence come from bits 0x80, 0x40, 0x02 and 0x04 of octet 2; normal is neither fire nor defect; slot k < 256 is bit k % 8 of octet 4 + k / 8; slot 256 is untouched |
| Decoders.LampNotes | custom_components/pertronic_f100a/pertronic/PertronicF100AMimic.py:326-341 | every lamp note is for a callback registered under that lamp and carries that lamp's own bit; notes go in ascending lamp order |
| Decoders.LampNotesPerLamp | custom_components/pertronic_f100a/pertronic/PertronicF100AMimic.py:327-341 | for each lamp below 256, the notes about it are exactly its callbacks, once each, in registration order, each with its bit; lamp 256 gets none |
| Decoders.ProcessLedMimic | custom_components/pertronic_f100a/pertronic/PertronicF100AMimic.py:297-341 | raises exactly for an empty packet or a lone 0x19; applied exactly for 0x19 0x24 with 38 octets; applying rewrites the LED part of the state only and emits the lamp notes |
| Decoders.LedKeepsConsistent | custom_components/pertronic_f100a/pertronic/PertronicF100AMimic.py:302-307 | a decoded LED frame keeps the state invariant |
| Decoders.LedFrameRoundTrip | custom_components/pertronic_f100a/pertronic/PertronicF100AMimic.py:297-334 | encoding four flags and 256 lamps into a frame and decoding it gives back every flag and every lamp through `get_led_state` |
| Decoders.LineOf | custom_components/pertronic_f100a/pertronic/PertronicF100AMimic.py:358 | the selected line is 1 or 2 |
| Decoders.FlagOctetsRoundTrip | custom_components/pertronic_f100a/pertronic/PertronicF100AMimic.py:372-385 | the nine decoded condition bits of octets 44 and 45 give back the conditions encoded into them |
| Decoders.ConditionsOf | custom_components/pertronic_f100a/pertronic/PertronicF100AMimic.py:368-385 | normal is neither fire nor defect, sprinkler stays unknown, and each of the other nine conditions becomes known with its decoded flag's value |
| Decoders.ConditionNotes | custom_components/pertronic_f100a/pertronic/PertronicF100AMimic.py:429-438 | every named note goes to a callback registered under its condition and carries that condition's stored value, in the client's condition order |
| Decoders.ConditionNotesPerCondition | custom_components/pertronic_f100a/pertronic/PertronicF100AMimic.py:429-438 | per condition, the notes about it are exactly its callbacks, once each, in registration order, with its value |
| Decoders.LcdNotes | custom_components/pertronic_f100a/pertronic/PertronicF100AMimic.py:422-438 | the LCD callbacks come first, in order, each with both lines' current text; only named-condition notes follow |
| Decoders.StoreLine | custom_components/pertronic_f100a/pertronic/PertronicF100AMimic.py:358-385 | the selected line gets the text, the other line keeps its own, the conditions are replaced, and the LED and heartbeat parts are untouched |
| Decoders.ProcessLcdLine | custom_components/pertronic_f100a/pertronic/PertronicF100AMimic.py:351-438 | raises exactly for an empty packet, a lone 0x20, or a well-shaped frame whose text does not decode; applied exactly for a well-shaped, decodable frame; it stores the stripped text on line 1 (0x17) or 2 (0x18) and the decoded conditions, then emits both notification passes; an applied frame stores fire (0x02), silence alarms (0x10) and evacuate (0x04) from octet 45, and defect (0x10), device isolated (0x01), PSU defect (0x02), door holder isolate (0x80), aux isolate (0x08) and walk test (0x20) from octet 44, with normal as neither fire nor defect, the timestamp `now` and sprinkler unknown |
| Decoders.LcdKeepsConsistent | custom_components/pertronic_f100a/pertronic/PertronicF100AMimic.py:358-385 | storing a decodable line keeps the state invariant |
| Decoders.LcdFrameRoundTrip | custom_components/pertronic_f100a/pertronic/PertronicF100AMimic.py:351-385 | a frame carrying space-padded unpadded text decodes to that text on its line, leaves the other line alone and gives back every encoded condition |
| Decoders.Beat | custom_components/pertronic_f100a/pertronic/PertronicF100AMimic.py:198-204 | a heartbeat sets the heartbeat status to true, changes no other part of the state, and keeps the invariant |
| Dispatch.Classify | custom_components/pertronic_f100a/pertronic/PertronicF100AMimic.py:148-266 | a recognised frame's leading octets start the buffer; classification raises exactly for a two-octet `47 31` or `83 31` |
| Dispatch.ClassifyPrefix | custom_components/pertronic_f100a/pertronic/PertronicF100AMimic.py:153-260 | every catalogued prefix is recognised as its own kind: the catalogue tests never shadow one another |
| Dispatch.Unknown2019NeverMatches | custom_components/pertronic_f100a/pertronic/PertronicF100AMimic.py:177-185 | a buffer starting 0x20 0x19 is never recognised |
| Dispatch.FrameLength | custom_components/pertronic_f100a/pertronic/PertronicF100AMimic.py:154-245 | every frame is at least as long as its leading octets, and at least two octets |
| Dispatch.ApplyFrame | custom_components/pertronic_f100a/pertronic/PertronicF100AMimic.py:153-260 | decoding raises exactly for the faulting packets; a heartbeat only beats; the frames the loop discards change nothing and notify nobody |
| Dispatch.ApplyKeepsConsistent | custom_components/pertronic_f100a/pertronic/PertronicF100AMimic.py:153-204 | every frame kind keeps the state invariant |
| Dispatch.ApplyIdempotent | custom_components/pertronic_f100a/pertronic/PertronicF100AMimic.py:297-438 | decoding the same packet again from the state it left gives the same state and the same notes |
| Dispatch.GetIoBytes | custom_components/pertronic_f100a/pertronic/PertronicF100AMimic.py:275-281 | charges the length and counts one decode; the packet is the first `length` octets; as written the buffer stays put, and advancing it leaves exactly the octets after the packet |
| Dispatch.Drain | custom_components/pertronic_f100a/pertronic/PertronicF100AMimic.py:142-266 | the decode count grows by one per dispatch; the loop stops with the count at or below zero, or with octets still counted because the buffer is short or its head unknown; as written such a stop has dispatched nothing |
| Dispatch.DrainCharges | custom_components/pertronic_f100a/pertronic/PertronicF100AMimic.py:277 | what is left of `_bytes_available` is the start value less the catalogue lengths of the dispatched frames |
| Dispatch.DrainKeepsConsistent | custom_components/pertronic_f100a/pertronic/PertronicF100AMimic.py:142-266 | a cycle keeps the invariant whenever every decode does |
| Dispatch.DrainBound | custom_components/pertronic_f100a/pertronic/PertronicF100AMimic.py:142 | a cycle dispatches at most one frame for every two counted octets, rounding up |
| Dispatch.DispatchedAtLeastTwo | custom_components/pertronic_f100a/pertronic/PertronicF100AMimic.py:142-156 | under either buffer rule, every packet the inner loop hands a decoder has at least two octets |
| Dispatch.AsWrittenPacketsArePrefixes | custom_components/pertronic_f100a/pertronic/PertronicF100AMimic.py:279-280 | as written, every dispatched packet starts with its kind's leading octets and is a prefix of the cycle's buffer |
| Dispatch.AdvancingConsumesInOrder | custom_components/pertronic_f100a/pertronic/PertronicF100AMimic.py:279-280 | with the buffer advancing, the dispatched packets lie back to back at the start of the buffer, each starting with its kind's leading octets |
| Dispatch.DispatchCount | custom_components/pertronic_f100a/pertronic/PertronicF100AMimic.py:277-278 | charging len octets per dispatch while the count is positive dispatches ceil(n / len) times and leaves n minus that many lengths |
| Dispatch.AsWrittenRepeatsHead | custom_components/pertronic_f100a/pertronic/PertronicF100AMimic.py:275-281 | as written, a buffer headed by a catalogued frame of length L has that frame alone dispatched ceil(available / L) times, each with the first decode's effect and notes; if it raises, once |
| Dispatch.Filled | custom_components/pertronic_f100a/pertronic/PertronicF100AMimic.py:119-137 | a cycle's buffer holds exactly the octets of its read, and nothing after a timeout |
| Dispatch.ReadCycle | custom_components/pertronic_f100a/pertronic/PertronicF100AMimic.py:119-139 | a timed-out read does nothing; a read dispatches at most 250 frames; the decode count equals the dispatches; the invariant is kept |
| Dispatch.TailNeverDispatched | custom_components/pertronic_f100a/pertronic/PertronicF100AMimic.py:275-281 | as written, two reads of equal length with the same head frame end their cycles identically, whatever else they hold |
| Dispatch.Run | custom_components/pertronic_f100a/pertronic/PertronicF100AMimic.py:118-139 | a stream of read cycles keeps the invariant |
| Dispatch.RunFromInitialConsistent | custom_components/pertronic_f100a/pertronic/PertronicF100AMimic.py:65-139 | the client satisfies the invariant after any stream of reads |
| Dispatch.RunAppend | custom_components/pertronic_f100a/pertronic/PertronicF100AMimic.py:118-139 | a stream of reads is its first part followed by the rest, run from the state the first part left; no cycle depends on an earlier cycle's buffer |
| Dispatch.AdvancingDispatchesEveryFrame | custom_components/pertronic_f100a/pertronic/PertronicF100AMimic.py:275-281 | with the buffer advancing, whole frames back to back are each dispatched once, in order, and end in the state and notes of decoding each in turn |
| Dispatch.AsWrittenSkipsSecondFrame | custom_components/pertronic_f100a/pertronic/PertronicF100AMimic.py:280 | as written, a heartbeat followed by an LED-mimic frame dispatches the heartbeat twenty times and the LED frame never; the lamps stay as they were |
| Dispatch.AdvancingDispatchesBoth | custom_components/pertronic_f100a/pertronic/PertronicF100AMimic.py:275-281 | with the buffer advancing, the same read dispatches the heartbeat and then the LED frame, once each, and the lamps become those of the LED frame |
| BinarySensor.SpecialSensorKeysAreConditions | custom_components/pertronic_f100a/binary_sensor.py:31-61 | the eleven condition sensors are the client's eleven conditions, in the client's own order |
| BinarySensor.SpecialSensorKeysNamed | custom_components/pertronic_f100a/binary_sensor.py:31-61 | every condition sensor's key is a registry key of the client |
| BinarySensor.SelectionIntervals | custom_components/pertronic_f100a/binary_sensor.py:70-93 | the selection is lamps 1..c0, lamps 100..100+c1 and lamps 200..200+c2, each clipped to its group and empty for a count below one; the last two groups therefore get one lamp more than their count |
| BinarySensor.NothingSelectedWithoutCounts | custom_components/pertronic_f100a/binary_sensor.py:63-67 | with no positive count no lamp is selected |
| BinarySensor.DefaultsSelectEveryLamp | custom_components/pertronic_f100a/binary_sensor.py:70-93 | the counts 99, 99 and 56 select exactly the lamps 1..256 |
| BinarySensor.SelectLeds | custom_components/pertronic_f100a/binary_sensor.py:70-99 | the loop yields every selected lamp, only selected lamps, each once, in ascending order |
| BinarySensor.RegisterSpecialSensors | custom_components/pertronic_f100a/binary_sensor.py:148-161 | each constructed condition sensor is appended under its own condition, and no lamp and no LCD callback is added |
| BinarySensor.RegisterLampSensors | custom_components/pertronic_f100a/binary_sensor.py:109-120 | each constructed lamp sensor is appended under its own lamp; no other lamp and no named or LCD callback changes |
| BinarySensor.SelectedLampsRegistered | custom_components/pertronic_f100a/binary_sensor.py:98-120 | the selected lamps all lie in 1..256, and each selected lamp, and no other, gains its sensor's callback |
| BinarySensor.SetupLamps | custom_components/pertronic_f100a/binary_sensor.py:70-99 | the lamp sensors built are the selection in ascending order, each registered under its lamp and nowhere else |
| BinarySensor.RegisterConditionSensors | custom_components/pertronic_f100a/binary_sensor.py:31-61 | every condition gains exactly its own sensor's callback |
| BinarySensor.SetupEntry | custom_components/pertronic_f100a/binary_sensor.py:23-103 | condition sensors are always registered; the selected lamps' sensors are registered; nothing is handed to Home Assistant exactly when no count is positive, and otherwise the condition sensors followed by the selection |
| BinarySensor.SetupFromEmpty | custom_components/pertronic_f100a/binary_sensor.py:23-103 | from the constructed client, every condition and every selected lamp ends with exactly its own sensor as its only callback, and no other lamp or LCD callback exists |
| BinarySensor.NewSensor | custom_components/pertronic_f100a/binary_sensor.py:113 | a new sensor shows nothing |
| BinarySensor.ProcessCallback | custom_components/pertronic_f100a/binary_sensor.py:127-130 | after a callback the sensor shows exactly the value it was called with |
| BinarySensor.DeliverUniform | custom_components/pertronic_f100a/binary_sensor.py:127-130 | a sensor called only with one value shows it if called at all, and is untouched otherwise |
| BinarySensor.LampSensorTracksFrame | custom_components/pertronic_f100a/binary_sensor.py:120-130 | a lamp sensor for 1..255, registered under its lamp alone, shows that lamp's decoded value after any LED-mimic frame |
| BinarySensor.LastLampSensorNeverUpdated | custom_components/pertronic_f100a/binary_sensor.py:88-99 | the sensor for lamp 256 is never called back by an LED-mimic frame, and slot 256 never changes |
| BinarySensor.ConditionSensorTracksNotes | custom_components/pertronic_f100a/binary_sensor.py:161-171 | a condition sensor registered under its condition alone ends the two notification passes showing its condition's value |
| BinarySensor.ConditionSensorTracksLine | custom_components/pertronic_f100a/binary_sensor.py:161-171 | after an applied LCD line, such a sensor shows what `get_special_led_state` returns for its key |
| BinarySensor.AddedToHass | custom_components/pertronic_f100a/binary_sensor.py:132-138 | on being added, a lamp sensor shows `get_led_state` of its lamp and a condition sensor shows `get_special_led_state` of its key |
| BinarySensor.SetupSensorsTrackFrames | custom_components/pertronic_f100a/binary_sensor.py:98-171 | after setup from the constructed client, each selected lamp sensor below 256 tracks LED frames and each condition sensor tracks LCD lines |
| ConfigFlow.ValidateWithPertronic | custom_components/pertronic_f100a/config_flow.py:43-59 | succeeds exactly when the counts are within 0..99, 0..99 and 0..56 and the probe connects; out-of-range counts raise InvalidLedLength; a failed probe raises CannotConnect |
| ConfigFlow.RangeCheckedBeforeProbe | custom_components/pertronic_f100a/config_flow.py:45-57 | with a count out of range, the probe's answer makes no difference |
| ConfigFlow.ValidateInput | custom_components/pertronic_f100a/config_flow.py:61-77 | succeeds exactly when validation does, then hands back the seven fields unchanged; otherwise it raises the same exception |
| ConfigFlow.ErrorKeyInjective | custom_components/pertronic_f100a/config_flow.py:98-107 | distinct exceptions give distinct form error keys |
| ConfigFlow.StepUser | custom_components/pertronic_f100a/config_flow.py:85-115 | no input shows the default form; an entry titled with the panel name and holding the input is created exactly for in-range counts and a working probe; otherwise the form comes back refilled with the input and the matching error key |
| ConfigFlow.StepUserErrorKeys | custom_components/pertronic_f100a/config_flow.py:96-107 | the form only ever reports `invalid_led_length` or `cannot_connect` |
| ConfigFlow.DefaultsAccepted | custom_components/pertronic_f100a/config_flow.py:21-41 | submitting the suggested defaults over a working connection creates the entry |
| ConfigFlow.CreatedEntryLamps | custom_components/pertronic_f100a/config_flow.py:109 | for a created entry, each group selects the interval its count names; every lamp registration the sensors then make is accepted, which holds for any counts because a selected lamp lies in 1..256 |
| ConfigFlow.DefaultEntryCoversEveryLamp | custom_components/pertronic_f100a/config_flow.py:26-28 | the default entry gives every lamp from 1 to 256 a sensor |

## Left out

- Sockets: connecting, `recv`, the one-second timeout, close, sleep and reconnect. Each read is an input: its octets (at most 500), or a timeout, which leaves the buffer empty. Only `socket.timeout` is caught around `recv` (lines 123-126 of `PertronicF100AMimic.py`). Any other `recv` error, or `settimeout` on a socket left closed after a failed reconnect (lines 126-135), therefore ends `_io_loop` for good; the model's stream of reads does not include that end.
- `test_connection`: it opens and closes a TCP socket. It is a boolean input to the configuration flow.
- Threading: `start`, `stop`, the run thread and the `_run` checks inside the loops. These concern concurrency, not decoding.
- The wall clock. `int(time.time())` is a parameter `now`, one value for each read cycle.
- Logging, `_setup_logging`, `_byte_hex_str` and the commented-out debug blocks. They only produce output.
- Raising callbacks. Every callback is taken to return normally. The lamp handler's broken log message would abort the frame and the cycle, and that path is not modelled.
- Entity names, unique ids, `async_write_ha_state`, `async_get_last_state`, the voluptuous schema and the async form plumbing. These are Home Assistant wiring with no decoding logic.
- `text.py`, `__init__.py` and `const.py`. These are not part of this model.
- `Dispatch.ReadCycle`: the client reads the clock separately for each field it stamps. The model uses one reading per cycle, so stamps taken within one cycle are equal.
- `ConfigFlow.ValidateWithPertronic`: the form's values are taken as already typed (strings and integers). A missing or non-integer count, which would raise a `TypeError`, is not modelled.
- `ConfigFlow.StepUser`: `InvalidAuth` and unexpected exceptions have error keys in the model, but no path produces them, as in the client.

## Findings

| source | as written | input that shows it | evidently intended | confidence | as-written member | corrected member |
|---|---|---|---|---|---|---|
| custom_components/pertronic_f100a/pertronic/PertronicF100AMimic.py:280 | `_get_io_bytes` assigns the rest of the buffer to `self.io_buffer`, so `_io_buffer` never advances. The head frame is dispatched ceil(n / L) times, and every later frame in the read is dropped | one read holding `80 22` followed by a 38-octet LED-mimic frame: the heartbeat is dispatched 20 times and the LED frame never, so no lamp is updated | assign to `self._io_buffer`, so each frame in the read is dispatched once, in order | not executed | Dispatch.AsWrittenSkipsSecondFrame | Dispatch.AdvancingDispatchesBoth |
