# moonpad peripheral management, in Dafny

moonpad is a macropad. A host board runs CircuitPython and KMK, and hot-pluggable peripherals sit behind an I2C multiplexer: knob units with rotary encoders and push buttons, and slider units with potentiometers. Every peripheral is an ATtiny running a small Arduino program. A fresh peripheral listens on the default address 0x03. The host's TWI manager (`TWIManager`) finds it there and gives it a free address on its channel with a swap frame. It then reads the peripheral's eleven-byte friend code (module type and chip serial) and tells its observers. The knob and slider drivers are written to adopt the peripherals of their own type, poll their change reports, and turn them into key taps or MIDI control changes. As written, the count query each adoption makes raises (see "## Left out"), so no device is adopted. A separate "helping hand" ATtiny picks which of four masters gets the bus.

This project models that core as pure functions over immutable datatypes, and proves properties of the model:

- `common.dfy` (`Common`): bytes, `Option`, the `Outcome` of a Python call that may raise, and small sequence helpers.
- `protocol.dfy` (`Protocol`): the wire constants shared by host and firmware, and the frames the host sends.
- `device.dfy` (`TwiDevice`): `TWIDevice`, meaning the identity bytes, the friend-code string, and equality and hashing on (address, channel).
- `allocator.dfy` (`Allocator`): the per-channel address allocator, with its invariant.
- `manager.dfy` (`TwiManager`): discovery, the health check, the sweeps over all channels, and the observer fan-out.
- `utils.dfy` (`Utils`): `map_value` over the reals, and Python's `int()` truncation.
- `reports.dfy` (`Reports`): the knob and slider change structs and their byte images on the wire.
- `deadband.dfy` (`Deadband`): the strict "moved by more than w" gate that both the slider driver and the slider firmware use.
- `unit_registry.dfy` (`UnitRegistry`): the bookkeeping both drivers share. It holds the device list, the per-friend-code unit counts and the global total, and computes the position-derived unit index.
- `base_module.dfy` (`BaseModule`): the module type ids, registration with the manager, and the boot hook.
- `knob_driver.dfy` (`KnobDriver`) and `slider_driver.dfy` (`SliderDriver`): the two host drivers.
- `firmware_base.dfy` (`FirmwareBase`): `ModuleBase`. It covers the friend code, the listening address, the three-byte command buffer and the base commands.
- `knob_firmware.dfy` (`KnobFirmware`) and `slider_firmware.dfy` (`SliderFirmware`): the two peripheral programs.
- `helping_hand.dfy` (`HelpingHand`): the master-selection board, as the trace of pin operations `setup` performs.
- `system.dfy` (`System`): the host as its entry point wires it, with both drivers registered as the manager's observers.

The I2C bus is an oracle, the `Bus` datatype. It says which (channel, address) pairs acknowledge, whether the swap write succeeds, and what the identity read returns. A sweep that repeats discovery on a channel asks a fresh `Bus` for each attempt (`Buses`), so a peripheral can answer at 0x03 on one attempt and fall silent once promoted. The drivers' report reads and unit-count queries are likewise functions from a device to the reply. Python's exceptions become `Option`, `Outcome.Raised` or a `raised` flag. The keyboard's `tap_key` becomes the sequence of keys tapped, and the MIDI port becomes the sequence of `Cc(control, value)` messages sent.

For a level of 700 mapped from 0–1023 to 0–127, the code computes `int(700 / 1023 * 127)`, which truncates 86.9 to 86 (`SliderDriver.CcValueRange`).

Arduino's `loop()` receives its inputs as arguments: the keypad events and encoder positions for the knob firmware, and the two ADC samples for the slider firmware. The helping hand's `digitalRead` polls are a finite sequence of line readings.

## Model

| member | source | states |
|---|---|---|
| Common.PyIndex | Firmware/Macropad/knob_module.py:124-128 | Python list indexing: a value exactly for indices from -len to len-1, with negative ones counting from the end. `None` stands for the `IndexError`. |
| Protocol.BufferFitsHostFrames | Firmware/SliderModule/lib/padModules/src/moduleProtocol.h:3 | The swap frame `[0x00, 0x02, a]` fills the three-byte buffer exactly. The friend-code and count frames fit in it. Each frame is spelled in the protocol's own command constants. |
| Protocol.CommandBytesDistinct | Firmware/SliderModule/lib/padModules/src/moduleProtocol.h:6-11 | The base, knob and slider command bytes are pairwise distinct. Each module type id equals its command byte. The friend code is one type byte plus the serial. |
| Protocol.SubCommandsAgree | Firmware/SliderModule/lib/padModules/src/moduleProtocol.h:13-31 | Knob and slider sub-commands coincide: get-changes 1, clear 2, count 3. The two base sub-commands differ. |
| TwiDevice.Hexlify | Firmware/Macropad/twiman.py:27 | The serial's hex string has two lower-case digits per byte, in byte order. |
| TwiDevice.UnhexlifyHexlify | Firmware/Macropad/twiman.py:27 | Reading the hex string back gives exactly the serial bytes, so no identity information is lost. |
| TwiDevice.FromRaw | Firmware/Macropad/twiman.py:20-27 | A device is built exactly when the identity reply is present and non-empty. It keeps the address and channel, its type id is byte 0, and its serial is the remaining bytes. |
| TwiDevice.FriendCodeRoundTrip | Firmware/Macropad/twiman.py:29-31 | The friend code (type id as two upper-case hex digits, then the serial's hex) parses back to the type id and serial. Its length is two plus twice the serial length. |
| TwiDevice.FriendCodeInjective | Firmware/Macropad/twiman.py:29-31 | Two devices have the same friend code if and only if they carry the same identity bytes. |
| TwiDevice.KeyMatchesEquality | Firmware/Macropad/twiman.py:34-42 | Device equality holds exactly when the hash keys (address, channel) agree, whatever identity bytes each device carries. Equality is symmetric. |
| Allocator.FreshValid | Firmware/Macropad/twiman.py:61-65 | A channel as the constructor sets it up (nothing active, nothing freed, cursor 0x04) satisfies the allocator invariant. |
| Allocator.Scan | Firmware/Macropad/twiman.py:128-136 | The scan returns the first address from the cursor up to 0x77 that is neither active nor 0x70, and leaves the cursor one past it. When there is none, every address in that range is active or 0x70, and the cursor ends past 0x77. |
| Allocator.Allocate | Firmware/Macropad/twiman.py:122-138 | A non-empty free list hands back its last entry (LIFO) and leaves the cursor. Otherwise the scan runs: the cursor never goes back, and `None` (the raise) comes only when every address left is taken. |
| Allocator.Free | Firmware/Macropad/twiman.py:140-144 | Freeing a non-active address changes nothing. Freeing an active one moves it from the active set to the end of the free list. `Allocator.FreeValid` shows this keeps the invariant, and `Allocator.FreeThenAllocate` that the next allocation hands the address back. |
| Allocator.Commit | Firmware/Macropad/twiman.py:257 | A confirmed address joins the active set, and nothing else moves. `Allocator.CommitValid` shows this keeps the invariant for a pending address. |
| Allocator.GiveBack | Firmware/Macropad/twiman.py:246 | A candidate that failed promotion is appended to the free list, and nothing else moves. `Allocator.GiveBackValid` and `Allocator.GiveBackThenAllocate` show it stays allocatable and comes back next. |
| Allocator.AllocateValid | Firmware/Macropad/twiman.py:122-138 | Allocation keeps the invariant: active and freed are disjoint, freed has no repeats, and every held address is allocatable and below the cursor. The address handed out is pending, meaning neither active nor freed. |
| Allocator.CommitValid | Firmware/Macropad/twiman.py:255-257 | Committing a pending address keeps the invariant. |
| Allocator.GiveBackValid | Firmware/Macropad/twiman.py:245-253 | Giving a pending address back keeps the invariant, so the free list stays free of duplicates. |
| Allocator.FreeValid | Firmware/Macropad/twiman.py:140-144 | Freeing any address keeps the invariant. |
| Allocator.FreeThenAllocate | Firmware/Macropad/twiman.py:124-127 | The next allocation after freeing an active address returns that address, and the allocator is back as it was minus that address. |
| Allocator.GiveBackThenAllocate | Firmware/Macropad/twiman.py:245-253 | After a candidate is given back, the next allocation returns the same address and restores the allocator exactly. |
| Allocator.ExhaustedFails | Firmware/Macropad/twiman.py:128-138 | When every allocatable address is active, allocation raises and the active set is unchanged. |
| Allocator.ExhaustionIsTerminal | Firmware/Macropad/twiman.py:138 | With nothing freed and the cursor past 0x77, allocation raises and changes nothing. |
| TwiManager.NewManager | Firmware/Macropad/twiman.py:61-70 | A new manager has one fresh allocator per channel, no devices and no observers. |
| TwiManager.Notify | Firmware/Macropad/twiman.py:259-265 | The fan-out makes one call per registered observer, in registration order, each with the same notice. |
| TwiManager.NotifyCount | Firmware/Macropad/twiman.py:259-265 | An observer receives a notice as many times as it is registered, and never receives a different notice. |
| TwiManager.RemovalCallsCount | Firmware/Macropad/twiman.py:302-316 | For distinct removed devices, each removal observer gets one call per removed device (times its registrations), and none for any other device. |
| TwiManager.NewManagerConsistent | Firmware/Macropad/twiman.py:61-67 | A new manager satisfies the manager invariant: each allocator is valid with active set equal to its devices' addresses, devices sit on existing channels with ten-byte serials, and (address, channel) is unique. |
| TwiManager.RemoveAt | Firmware/Macropad/twiman.py:307 | `list.pop(i)` keeps the devices before i and shifts the later ones down by one. |
| TwiManager.RemoveAtFacts | Firmware/Macropad/twiman.py:307 | Popping a device keeps keys unique, takes exactly its address off its channel, and removes exactly the devices equal to it. |
| TwiManager.Discover | Firmware/Macropad/twiman.py:230-268 | Without an ACK at 0x03, discovery returns False and changes nothing. It returns True iff allocation, promotion, the ACK at the new address and the identity read all succeed. Then one device with the new address and channel is appended, the address is committed, and every new-device observer hears of the device once, in order. Otherwise nothing is registered, no observer is called, and the active set is unchanged. |
| TwiManager.DiscoverExhausted | Firmware/Macropad/twiman.py:239-243 | When the channel is full, allocation raises and discovery returns False, with the registry and active set unchanged. |
| TwiManager.DiscoverPromotionFails | Firmware/Macropad/twiman.py:245-253 | If the swap write fails or the new address does not ACK, the candidate goes back on the free list, stays inactive, and nothing is registered. The next allocation returns the same address. |
| TwiManager.DiscoverUnreadIdentity | Firmware/Macropad/twiman.py:255 | When the identity read fails, the device constructor raises. The candidate address is left in neither the active set nor the free list. |
| TwiManager.DiscoverConsistent | Firmware/Macropad/twiman.py:255-257 | Discovery on any channel keeps the manager invariant. |
| TwiManager.ProbeChannel | Firmware/Macropad/twiman.py:289-295 | The probe of a channel lists exactly its active addresses that fail to ACK, in ascending order. |
| TwiManager.DeadList | Firmware/Macropad/twiman.py:282-295 | Every dead entry names an existing channel and an active address on it that does not ACK, and no (channel, address) appears twice. |
| TwiManager.DeadHere | Firmware/Macropad/twiman.py:282-295 | The entries for one channel are exactly its non-ACKing active addresses, each once. |
| TwiManager.DeadListComplete | Firmware/Macropad/twiman.py:282-295 | Every active address that fails to ACK, on any channel, is in the dead list. |
| TwiManager.LastMatch | Firmware/Macropad/twiman.py:302-307 | The reverse search finds the last registered device on that (channel, address), or -1 when there is none. |
| TwiManager.Retire | Firmware/Macropad/twiman.py:297-316 | Retiring one dead entry frees its address on its channel and leaves every other channel and the observers alone. |
| TwiManager.RetireActive | Firmware/Macropad/twiman.py:301-307 | On a consistent manager, retiring an active entry keeps the invariant. It removes exactly the one device registered there, and exactly that address leaves the active sets. |
| TwiManager.ProcessDeadEffect | Firmware/Macropad/twiman.py:297-316 | Retiring distinct active dead entries in order keeps the invariant. The devices that stay are exactly those not listed. The removed devices are exactly those listed, each once. The active addresses that stay are exactly the unlisted ones. |
| TwiManager.HealthCheck | Firmware/Macropad/twiman.py:270-316 | The removal calls are the removal fan-out for each removed device in turn. The channels and observers keep their shape. |
| TwiManager.HealthCheckEffect | Firmware/Macropad/twiman.py:270-316 | After the check, the manager is still consistent. An address stays active iff it ACKed, a device stays iff it ACKed, and the removed devices are exactly those that did not, each once. |
| TwiManager.ProcessDeadFrees | Firmware/Macropad/twiman.py:301 | Every dead address ends up on its channel's free list. |
| TwiManager.HealthCheckFrees | Firmware/Macropad/twiman.py:301 | An active address that fails to ACK is on its channel's free list after the check. |
| TwiManager.DrainChannel | Firmware/Macropad/twiman.py:352 | Repeating discovery on one channel, each attempt asking the bus afresh, until an attempt fails only appends devices: the earlier registry is a prefix, and the count found is the number appended. Its partners are `TwiManager.DrainStopsWhenQuiet` and `TwiManager.OnePeripheralDrain`. |
| TwiManager.DrainStopsWhenQuiet | Firmware/Macropad/twiman.py:352 | The drain ends at the first attempt where the default address 0x03 does not acknowledge: it then registers nothing, calls no observer and raises nothing. |
| TwiManager.OnePeripheralDrain | Firmware/Macropad/twiman.py:343-354 | One peripheral on a fresh channel, silent at 0x03 once promoted: the drain registers exactly that device at the first allocatable address 0x04, with its identity bytes, and leaves 0x04 active and the free list empty. |
| TwiManager.InitialDiscovery | Firmware/Macropad/twiman.py:343-354 | The boot sweep drains each channel in turn, with the bus answering each attempt on its own. It only appends devices and reports how many. |
| TwiManager.ScanAllChannels | Firmware/Macropad/twiman.py:325-336 | The periodic scan tries one discovery per channel. It only appends devices and reports how many. |
| TwiManager.DrainConsistent | Firmware/Macropad/twiman.py:352 | Draining a channel keeps the manager invariant, whatever the bus answers at each attempt. |
| TwiManager.InitialDiscoveryConsistent | Firmware/Macropad/twiman.py:348-354 | The boot sweep keeps the manager invariant, whatever the bus answers at each attempt. |
| TwiManager.ScanAllConsistent | Firmware/Macropad/twiman.py:334-336 | The periodic scan keeps the manager invariant. |
| Utils.MapValue | Firmware/Macropad/utils.py:2-9 | The map raises exactly when either range is reversed, and a zero-width source range gives `dst_min`. |
| Utils.MapValueEndpoints | Firmware/Macropad/utils.py:9 | `src_min` maps to `dst_min` and `src_max` to `dst_max`. |
| Utils.MapValueMonotone | Firmware/Macropad/utils.py:9 | The map never decreases as x grows. |
| Utils.MapValueRange | Firmware/Macropad/utils.py:9 | An x inside the source range lands inside the target range. |
| Utils.MapValueInverse | Firmware/Macropad/utils.py:9 | Mapping back from the target range to the source range returns the original x. |
| Utils.Trunc | Firmware/Macropad/slider_module.py:134 | `int()` of a real rounds toward zero: the result is within one of x, on the side of zero. |
| Utils.TruncQuotient | Firmware/Macropad/slider_module.py:134 | For non-negative integers, truncating their real quotient gives the integer quotient. |
| Reports.Int8Byte | Firmware/KnobsModule/src/main.cpp:26 | An `int8_t` is stored as the byte congruent to it modulo 256. |
| Reports.Int8 | Firmware/Macropad/knob_module.py:95 | The `b` format reads a byte as the `int8_t` congruent to it, negative exactly for bytes of 128 or more. |
| Reports.Int8Bijection | Firmware/Macropad/knob_module.py:95 | Storing and reading an `int8_t` are inverse, in both directions. |
| Reports.EncodeKnob | Firmware/KnobsModule/src/main.cpp:24-29 | The knob struct's image is the deltas, then the pressed flags, then the released flags, one byte each. |
| Reports.DecodeKnob | Firmware/Macropad/knob_module.py:95-99 | The host decodes a reply exactly when it holds 3n bytes, giving n entries of each array. |
| Reports.KnobRoundTrip | Firmware/Macropad/knob_module.py:95-99 | Decoding the firmware's image of a struct with n encoders gives the struct back. |
| Reports.KnobDecodeEncode | Firmware/Macropad/knob_module.py:95-99 | Every 3n-byte reply is the image of the struct it decodes to. |
| Reports.SplitJoin | Firmware/Macropad/slider_module.py:96 | Splitting a `uint16_t` into little-endian bytes and joining them are inverse. |
| Reports.LeBytes | Firmware/SliderModule/src/main.cpp:17 | The level array's image is each level's low byte, then its high byte, in order. |
| Reports.EncodeSlider | Firmware/SliderModule/src/main.cpp:15-19 | The slider struct's image is the levels as little-endian pairs, then the changed flags. |
| Reports.DecodeSlider | Firmware/Macropad/slider_module.py:96-99 | The host decodes a reply exactly when it holds 3n bytes, giving n levels and n flags. |
| Reports.SliderRoundTrip | Firmware/Macropad/slider_module.py:96-99 | Decoding the firmware's image of a struct with n sliders gives the struct back. |
| Reports.SliderDecodeEncode | Firmware/Macropad/slider_module.py:96-99 | Every 3n-byte reply is the image of the struct it decodes to. |
| Deadband.Gate | Firmware/Macropad/slider_module.py:115-119 | A reading is accepted iff it differs from the last accepted level by more than the width, strictly. Afterwards the level kept is always within the width of the reading. Its partners are `Deadband.NoDrift` and `Deadband.FirstEscape`. |
| Deadband.NoDrift | Firmware/SliderModule/src/main.cpp:35-40 | Readings that each stay within the width of the last level are never accepted, however many there are, so drift never adds up. |
| Deadband.FirstEscape | Firmware/SliderModule/src/main.cpp:35-40 | The first reading beyond the width is accepted and becomes the last level. |
| UnitRegistry.EmptyRegistry | Firmware/Macropad/knob_module.py:25-26 | A new driver has no devices, an empty lookup and a total of 0. |
| UnitRegistry.FirstMatch | Firmware/Macropad/knob_module.py:110-112 | The search stops at the first device equal to the one given, or runs off the end. |
| UnitRegistry.RemoveUnit | Firmware/Macropad/knob_module.py:62 | `list.remove` keeps the units before the position and shifts the later ones down. |
| UnitRegistry.Drop | Firmware/Macropad/knob_module.py:50-62 | For a device not held, nothing changes. Otherwise the first equal unit is removed and the count under the device's friend code is popped, with the other entries kept. The total drops by that count when it was known. |
| UnitRegistry.AdoptKeepsTotal | Firmware/Macropad/knob_module.py:44-45 | Adopting under a new friend code keeps the total equal to the sum of the recorded counts. |
| UnitRegistry.AdoptKeepsCover | Firmware/Macropad/knob_module.py:44-45 | Adoption never brings the total below the sum of the recorded counts. |
| UnitRegistry.DropKeepsTotal | Firmware/Macropad/knob_module.py:54-57 | Removal keeps the total equal to the sum of the recorded counts. |
| UnitRegistry.DropKeepsCover | Firmware/Macropad/knob_module.py:54-57 | Removal never brings the total below the sum of the recorded counts. |
| UnitRegistry.ReadoptionDrifts | Firmware/Macropad/knob_module.py:44-45 | Adopting again under a friend code already recorded overwrites its count but adds to the total, so the total overshoots the sum by the old count. |
| UnitRegistry.DropOnce | Firmware/Macropad/knob_module.py:50-62 | With distinct devices, a removed device is no longer held, and a repeated removal notice changes nothing. |
| UnitRegistry.CountsBeforePrefix | Firmware/Macropad/knob_module.py:107-114 | A device's index offset is the unit total of the devices before the first one equal to it. |
| UnitRegistry.FirstDeviceIndex | Firmware/Macropad/knob_module.py:107-114 | The first device's unit indices equal its local indices. |
| UnitRegistry.RemoveEarlierShifts | Firmware/Macropad/knob_module.py:107-114 | Removing an earlier device shifts a device's indices down by the removed device's count. |
| UnitRegistry.RemoveLaterKeeps | Firmware/Macropad/knob_module.py:107-114 | Removing a later device leaves a device's indices unchanged. |
| UnitRegistry.AppendKeeps | Firmware/Macropad/knob_module.py:107-114 | Adopting a new device leaves the indices of devices already held unchanged. |
| UnitRegistry.IndexBlocksOrdered | Firmware/Macropad/slider_module.py:122-129 | With distinct devices, the index blocks of earlier devices end before those of later ones begin, so no two units share an index. |
| BaseModule.TypeIdsMatchFirmware | Firmware/Macropad/base_module.py:6-8 | The host's type ids are the firmware's module types (knobs 0x01, sliders 0x02), and they tell the two kinds apart. |
| BaseModule.NewShell | Firmware/Macropad/base_module.py:20-21 | A new driver keeps its target type and has no keyboard yet. |
| BaseModule.DuringBootup | Firmware/Macropad/base_module.py:36-38 | Boot stores the keyboard and keeps the target type. |
| BaseModule.Register | Firmware/Macropad/base_module.py:23-24 | The constructor appends exactly one new-device observer and one removal observer, after those already present, and changes nothing else. |
| BaseModule.RegisterHearsOnce | Firmware/Macropad/base_module.py:23-24 | After registering, a driver hears each notice exactly once more than before, and no other observer's share changes. |
| BaseModule.RegisterAlone | Firmware/Macropad/base_module.py:23-24 | A driver registered on a manager without observers is the only one called, once per notice. |
| KnobDriver.NewKnobModule | Firmware/Macropad/knob_module.py:23-29 | A new knob driver targets knobs, holds nothing, and has no keyboard and no bindings. |
| KnobDriver.ZeroChanges | Firmware/Macropad/knob_module.py:39-41 | A newly adopted device's delta, pressed and released arrays have the reported length and are all zero. |
| KnobDriver.OnNew | Firmware/Macropad/knob_module.py:31-48 | Only a knob-type device with a non-empty serial and a readable count is adopted. It gets zeroed arrays, its count is recorded under the registry device's friend code and added to the total, and it is appended. Anything else leaves the driver unchanged. |
| KnobDriver.OnRemoved | Firmware/Macropad/knob_module.py:50-63 | A device not held leaves the driver unchanged. A held one loses one unit and its friend code's record, and the total drops by the recorded count. The keyboard and bindings are untouched. |
| KnobDriver.OnNewKeepsTotal | Firmware/Macropad/knob_module.py:44-45 | Adoption keeps the total at least the sum of the recorded counts, and equal to it when the friend code is new. |
| KnobDriver.AdoptedCodeDiffers | Firmware/Macropad/knob_module.py:33-34 | The stored `KnobDevice` is built from the serial alone, so its friend code differs from the registry device's code under which the count is recorded. |
| KnobDriver.Binding | Firmware/Macropad/knob_module.py:120-124 | `None` stands for the exception the lookup raises. As written, the layer is read from `active_layer`, which the keyboard lacks, so the lookup always raises. With the layer read from `active_layers`, a binding exists only once bindings, the keyboard and an active layer all exist, and it is found by Python indexing. |
| KnobDriver.Rotation | Firmware/Macropad/knob_module.py:116-132 | Without bindings, nothing is tapped. With bindings set, as written it always raises at the layer lookup. With the layer corrected, it raises iff the binding or its direction key is missing, and else taps the counter-clockwise key once per unit of the delta's magnitude for a negative delta and the clockwise key otherwise. |
| KnobDriver.Press | Firmware/Macropad/knob_module.py:138-148 | Without bindings, nothing is tapped. With bindings set, as written it always raises at the layer lookup. With the layer corrected, a press raises iff the binding lacks a third key, and else taps that key exactly once. |
| KnobDriver.EncoderEventsCount | Firmware/Macropad/knob_module.py:166-171 | With either handler variant, when a device's handlers finish without raising they have tapped one key per rotation step plus one per set pressed flag. |
| KnobDriver.EncoderEventsUnbound | Firmware/Macropad/knob_module.py:118-119 | Without bindings, a device's handlers tap nothing and never raise. |
| KnobDriver.Report | Firmware/Macropad/knob_module.py:83-99 | A report decodes iff the reply is 3n bytes long, and it is then the struct whose image the reply is. |
| KnobDriver.UpdateFrom | Firmware/Macropad/knob_module.py:152-171 | The update, with either handler variant, touches only the devices' arrays. When it completes, each device holds its decoded report. |
| KnobDriver.UpdateKnobs | Firmware/Macropad/knob_module.py:152-171 | `update_knobs` as written touches only the devices' arrays. When it completes, every device holds its decoded report. `KnobDriver.BoundUpdateRaises` states what it taps once bindings are set. |
| KnobDriver.UpdateKnobsGuarded | Firmware/Macropad/knob_module.py:166-171 | The update with the idle test corrected to the encoder's own delta: the same guarantees about the stored arrays. |
| KnobDriver.UpdateCount | Firmware/Macropad/knob_module.py:152-171 | With either handler variant, a completed update taps one key per rotation step and one per set pressed flag, over every encoder of every device. |
| KnobDriver.UpdateUnbound | Firmware/Macropad/knob_module.py:152-171 | Without bindings, the update taps nothing. It raises exactly when some device's report cannot be read. |
| KnobDriver.IdleEncoderRaises | Firmware/Macropad/knob_module.py:166-169 | With the layer lookup corrected, an encoder with zero delta and no press still runs the rotation handler under the list-wide test. With a missing binding this raises. The fully corrected update does not raise. |
| KnobDriver.GuardedIdleQuiet | Firmware/Macropad/knob_module.py:166-169 | With the corrected test, an encoder that neither turned nor was pressed contributes nothing and cannot raise. |
| KnobDriver.GuardAgreesWhenBound | Firmware/Macropad/knob_module.py:166-169 | For either layer lookup, when every encoder has both direction keys bound, the handlers with and without the idle test tap the same keys. |
| KnobDriver.BoundUpdateRaises | Firmware/Macropad/knob_module.py:120 | As written, once bindings are set the update never taps a key. It raises exactly when some device has an encoder or an unreadable report. |
| KnobDriver.LayerFixedTaps | Firmware/Macropad/knob_module.py:116-171 | With the layer read from `active_layers`, one encoder bound to keys 1, 2 and 3 that turned three steps clockwise and was pressed taps 2, 2, 2, then 3. As written the same update raises with no tap. |
| SliderDriver.NewSliderModule | Firmware/Macropad/slider_module.py:27-32 | A new slider driver targets sliders and holds nothing. |
| SliderDriver.ZeroState | Firmware/Macropad/slider_module.py:42-45 | A newly adopted device's current and last-sent levels have the reported length and are all zero. |
| SliderDriver.OnNew | Firmware/Macropad/slider_module.py:36-52 | Only a slider-type device with a non-empty serial and a readable count is adopted. It gets zeroed levels, its count is recorded under its friend code and added to the total, and it is appended. Anything else leaves the driver unchanged. |
| SliderDriver.OnRemoved | Firmware/Macropad/slider_module.py:54-67 | A device not held leaves the driver unchanged. A held one loses one unit and its friend code's record, and the total drops by the recorded count. |
| SliderDriver.OnNewKeepsTotal | Firmware/Macropad/slider_module.py:48-49 | Adoption keeps the total at least the sum of the recorded counts, and equal to it when the friend code is new. |
| SliderDriver.CcValueQuotient | Firmware/Macropad/slider_module.py:134 | The control value of a non-negative level is the integer quotient `v * 127 / 1023`. |
| SliderDriver.CcValueRange | Firmware/Macropad/slider_module.py:134 | A level in 0..1023 gives a value in 0..127, with 0 ↦ 0, 1023 ↦ 127 and 700 ↦ 86. |
| SliderDriver.CcValueMonotone | Firmware/Macropad/slider_module.py:134 | A higher level never gives a lower control value. |
| SliderDriver.DeadzoneIsStrict | Firmware/Macropad/slider_module.py:115-118 | From a last-sent level of 0, level 5 sends nothing and keeps 0. Level 6 sends and becomes the last-sent level. |
| SliderDriver.Seen | Firmware/Macropad/slider_module.py:101 | When flags are ignored, every slider is considered. When they are heeded, exactly the flagged ones are. `SliderDriver.UpdateSlidersHeeded` and `SliderDriver.RestingUpdate` show the difference it makes. |
| SliderDriver.Step | Firmware/Macropad/slider_module.py:115-119 | A slider not considered keeps its last-sent level and sends nothing. A considered one passes the deadzone gate. `SliderDriver.DeviceTurn` lifts this to every slider of a device. |
| SliderDriver.SliderEvents | Firmware/Macropad/slider_module.py:113-120 | One device's loop raises only when its last-sent list is too short. Otherwise each slider's last-sent level moves as the gate says, as many messages are sent as sliders escaped, and every message carries the global index and control value of a slider that escaped. |
| SliderDriver.SliderEventsComplete | Firmware/Macropad/slider_module.py:113-129 | A completed loop has sent the message of every slider that escaped, and a device's messages go out in strictly rising control order, so no control is sent twice. With the count and justification of `SliderEvents`, the messages are exactly one per escaping slider. |
| SliderDriver.ControlsRise | Firmware/Macropad/slider_module.py:122-129 | Within a device, a higher local slider index has a higher MIDI index. `SliderDriver.SliderEventsComplete` uses it to order a device's messages. |
| SliderDriver.Report | Firmware/Macropad/slider_module.py:81-99 | A report decodes iff the reply is 3n bytes long, giving n levels and n flags. |
| SliderDriver.ReportIsImage | Firmware/Macropad/slider_module.py:96-99 | A decoded report is the struct whose image the reply is. |
| SliderDriver.DeviceTurn | Firmware/Macropad/slider_module.py:106-120 | One device's turn stores the decoded levels and flags and gates every slider's last-sent level. It touches no other device. Every message it sends is justified by an escaping slider, its messages rise strictly in control number, and when the turn completes every escaping slider's message is among them and there are exactly as many as sliders escaped. |
| SliderDriver.UpdateFrom | Firmware/Macropad/slider_module.py:103-120 | The update touches only the devices' arrays. When it completes, each device holds its decoded report and its gated last-sent levels. Every message sent is justified. A completed update has sent the message of every escaping slider on every device (`SentAll`), and exactly as many messages as sliders escaped over all the devices (`ExpectedCcs`). The update completes when every report is readable. |
| SliderDriver.UpdateSliders | Firmware/Macropad/slider_module.py:103-120 | `update_sliders` as written, ignoring the flags: each device holds its report, last-sent levels move only past the deadzone, every message is justified by a slider that escaped it, and a completed update has sent the message of every escaping slider and no more messages than sliders escaped. |
| SliderDriver.UpdateSlidersHeeded | Firmware/Macropad/slider_module.py:101 | The update that heeds the changed flags: an unflagged slider keeps its last-sent level and sends nothing. Each device holds its report, every message is justified, a completed update has sent the message of every escaping flagged slider and no more messages than such sliders, and readable reports mean completion, as for the update as written. |
| SliderDriver.RestingUpdate | Firmware/Macropad/slider_module.py:113-120 | For one slider last sent at 700 whose report reads level 0 with its flag clear, the update as written resets it to 0 and sends exactly `Cc(0, 0)`. The heeding update keeps 700 and sends nothing. |
| SliderDriver.RestingSliderDropsToZero | Firmware/Macropad/slider_module.py:113-120 | For that resting slider, the update as written sends exactly one message, control value 0 on control 0, and records 0. The heeding update sends nothing and keeps 700. |
| FirmwareBase.NewBase | Firmware/SliderModule/lib/padModules/src/moduleBase.cpp:22-26 | The friend code is the module type followed by the ten serial bytes in order. The module is registered as the instance, not yet listening, with a zeroed buffer. |
| FirmwareBase.Begin | Firmware/SliderModule/lib/padModules/src/moduleBase.cpp:33-39 | `begin(address)` makes the peripheral acknowledge exactly that address and no other, and changes nothing else. |
| FirmwareBase.BeginDefault | Firmware/KnobsModule/lib/padModules/src/moduleBase.h:20-22 | `begin()` listens on 0x03, the manager's default discovery address. |
| FirmwareBase.LoadKeepsFrame | Firmware/SliderModule/lib/padModules/src/moduleBase.cpp:75-79 | A frame that fits is copied whole and followed by zeros. Bytes beyond three are dropped. An empty write leaves the buffer zeroed. |
| FirmwareBase.Receive | Firmware/SliderModule/lib/padModules/src/moduleBase.cpp:73-88 | A write loads the buffer and is handed to the module exactly when its first byte is not the base command. Without an instance nothing happens. The address and friend code never change. |
| FirmwareBase.ReceiveSwapping | Firmware/SliderModule/lib/padModules/src/moduleBase.cpp:55-60 | The corrected receive handler rebinds to the frame's third byte as soon as a swap frame is written. Otherwise it behaves as written. |
| FirmwareBase.Request | Firmware/SliderModule/lib/padModules/src/moduleBase.cpp:42-70 | A read after a base frame writes the friend code iff the sub-command is friend-code, and otherwise writes nothing. The swap sub-command rebinds to the buffer's third byte. Any other frame goes to the module. Without an instance nothing happens. The friend code never changes. |
| FirmwareBase.FriendCodeExchange | Firmware/SliderModule/lib/padModules/src/moduleBase.cpp:47-53 | The host's friend-code frame is not forwarded. The read that follows returns exactly the eleven friend-code bytes, from which the host builds a device with the module's type id and serial. |
| FirmwareBase.Promote | Firmware/SliderModule/lib/padModules/src/moduleBase.cpp:55-60 | The host's promotion (swap frame, then a ping at the new address) succeeds iff the peripheral ends up listening at the new address. |
| FirmwareBase.PromotionNeverAnswers | Firmware/SliderModule/lib/padModules/src/moduleBase.cpp:55-60 | As written, a peripheral on 0x03 never answers at any other new address: it stays on 0x03, holding the swap frame. |
| FirmwareBase.PromotionAnswers | Firmware/SliderModule/lib/padModules/src/moduleBase.cpp:55-60 | With the swap done on receive, promotion succeeds, and the peripheral listens at the new address with its friend code kept. |
| FirmwareBase.SwapNeedsRead | Firmware/SliderModule/lib/padModules/src/moduleBase.cpp:55-60 | As written, only a read after the swap frame moves the peripheral, and that read gets no bytes. |
| KnobFirmware.Boot | Firmware/KnobsModule/src/main.cpp:31-43 | After `setup`, the peripheral listens on 0x03 with an eleven-byte friend code starting with the knob type. Nothing is pending and the positions are 0. |
| KnobFirmware.KeyIndexOnlyDigits | Firmware/KnobsModule/src/main.cpp:56-58 | The unsigned `key - '0'` names an encoder exactly for the keys '0' to '2', each naming its own. |
| KnobFirmware.ApplyKey | Firmware/KnobsModule/src/main.cpp:52-68 | A key event touches only the flags. Events for other keys, and events that are neither press nor release, change nothing. |
| KnobFirmware.FlagsStick | Firmware/KnobsModule/src/main.cpp:52-68 | A set flag stays set through later events. A press or release event for an encoder sets that encoder's flag. |
| KnobFirmware.Int16 | Firmware/KnobsModule/src/main.cpp:75-77 | Narrowing the position difference to a 16-bit `int` keeps values that fit and otherwise wraps modulo 2^16. |
| KnobFirmware.Constrain | Firmware/KnobsModule/src/main.cpp:79-81 | `constrain` to -128..127 gives the point of that range nearest to its argument, so values already in range are kept. |
| KnobFirmware.Track | Firmware/KnobsModule/src/main.cpp:75-85 | One encoder in one pass stores the new position. The new pending delta is the point of -128..127 nearest the 16-bit wrapped sum of the old delta and the 16-bit movement, and equals that sum when it is in range. `KnobFirmware.TrackTelescopes` adds passes up. |
| KnobFirmware.TrackSumWraps | Firmware/KnobsModule/src/main.cpp:79-81 | A pending delta of 127 plus a movement of 32767 steps wraps in the 16-bit addition and is constrained to -128, not 127. |
| KnobFirmware.Loop | Firmware/KnobsModule/src/main.cpp:45-86 | A pass applies the key events to the flags, tracks every encoder, and stores the new positions. |
| KnobFirmware.TrackTelescopes | Firmware/KnobsModule/src/main.cpp:71-85 | Without saturation or wrap-around, successive passes add up to the last position minus the first, so each movement is counted once. |
| KnobFirmware.Cleared | Firmware/KnobsModule/src/main.cpp:96 | Clearing zeroes the struct and keeps the base and the positions. `KnobFirmware.ClearExchange` shows the host's clear frame reaches it. |
| KnobFirmware.OnReceive | Firmware/KnobsModule/src/main.cpp:88-100 | A write never moves the base or the positions, and leaves the changes either as they were or all zero. They are zeroed exactly by a knob clear-changes frame. `KnobFirmware.ClearExchange` and `KnobFirmware.GetChangesExchange` are its partners. |
| KnobFirmware.OnRequest | Firmware/KnobsModule/src/main.cpp:102-121 | A knob get-changes frame writes the struct's image and then zeroes it. The encoder-number frame writes one byte of unknown value as written, or the count when corrected. Every other frame writes nothing and changes nothing. |
| KnobFirmware.Write | Firmware/KnobsModule/src/main.cpp:88-100 | A master write loads the buffer and never moves the address or the positions. |
| KnobFirmware.Read | Firmware/KnobsModule/src/main.cpp:102-121 | A master read never changes the buffer or the positions. |
| KnobFirmware.GetChangesExchange | Firmware/KnobsModule/src/main.cpp:109-113 | Writing get-changes and reading gives the host exactly the pending changes and zeroes them. A second read returns the zeroed struct. |
| KnobFirmware.ClearExchange | Firmware/KnobsModule/src/main.cpp:94-97 | A clear-changes write zeroes the struct and keeps the positions. |
| KnobFirmware.CountFrameUnanswered | Firmware/Macropad/knob_module.py:69 | The host's count frame `[0x02, 0x03]` is ignored by the knob firmware, and the read that follows gets no bytes. |
| KnobFirmware.CountQueryAnswered | Firmware/KnobsModule/src/main.cpp:115-118 | With the knob command byte, the count query is answered: with one byte of unknown value as written, and with 3 when the count is written itself. |
| KnobFirmware.ReportReadUnanswered | Firmware/Macropad/knob_module.py:85-86 | A report read that follows the count frame, with no get-changes write in between, gets no bytes and changes nothing. |
| SliderFirmware.Boot | Firmware/SliderModule/src/main.cpp:13-24 | After `setup`, the peripheral listens on 0x03 with an eleven-byte friend code starting with the slider type. Nothing is pending and both last levels are 0. |
| SliderFirmware.SampleOne | Firmware/SliderModule/src/main.cpp:34-40 | A sample more than 3 away from the last flagged level becomes the pending level, is flagged, and becomes the last level. Any other sample changes nothing. Either way the last level ends within 3 of the sample, and the other slider is untouched. `SliderFirmware.NoiseIsQuiet` is its partner. |
| SliderFirmware.Loop | Firmware/SliderModule/src/main.cpp:30-42 | A pass applies that rule to each of the two sliders independently. |
| SliderFirmware.NoiseIsQuiet | Firmware/SliderModule/src/main.cpp:35-40 | Samples that all stay within 3 of a slider's last level never change its pending level, flag or last level, over any number of passes. |
| SliderFirmware.Cleared | Firmware/SliderModule/src/main.cpp:52 | Clearing zeroes the struct and keeps the base and the last levels. `SliderFirmware.ClearExchange` shows the host's clear frame reaches it. |
| SliderFirmware.ClearExchange | Firmware/SliderModule/src/main.cpp:48-53 | The host's clear-changes write zeroes the struct and keeps the last levels. |
| SliderFirmware.OnReceive | Firmware/SliderModule/src/main.cpp:44-56 | A write never moves the base or the last levels, and leaves the changes either as they were or all zero. They are zeroed exactly by a slider clear-changes frame. `SliderFirmware.ClearExchange` and `SliderFirmware.GetChangesExchange` are its partners. |
| SliderFirmware.OnRequest | Firmware/SliderModule/src/main.cpp:58-77 | A slider get-changes frame writes the struct's image and then zeroes it. The slider-number frame writes one byte of unknown value as written, or the count when corrected. Every other frame writes nothing and changes nothing. |
| SliderFirmware.Write | Firmware/SliderModule/src/main.cpp:44-56 | A master write loads the buffer and never moves the address or the last levels. |
| SliderFirmware.Read | Firmware/SliderModule/src/main.cpp:58-77 | A master read never changes the buffer or the last levels. |
| SliderFirmware.GetChangesExchange | Firmware/SliderModule/src/main.cpp:65-69 | Writing get-changes and reading gives the host exactly the pending changes. It zeroes them but keeps the last levels. |
| SliderFirmware.RestingReportsZero | Firmware/SliderModule/src/main.cpp:67-68 | After a get-changes reply, a slider that stays within 3 of its last level reports level 0 with its flag clear, wherever it rests. |
| SliderFirmware.CountQuery | Firmware/SliderModule/src/main.cpp:71-74 | The host's count frame reaches the slider firmware. The read gets one byte of unknown value as written, and 2 when the count is written itself. |
| SliderFirmware.ReportReadGetsCount | Firmware/Macropad/slider_module.py:87-88 | A report read that follows the count frame gets the count reply again, never the changes, and leaves them pending. |
| HelpingHand.PinsDistinct | Firmware/HelpingHand_Attiny414/src/main.cpp:5-20 | All eleven pins are distinct, and there are four master lines and four mux switches. |
| HelpingHand.FirstHigh | Firmware/HelpingHand_Attiny414/src/main.cpp:107-118 | The first HIGH line: -1 iff no line is HIGH, and otherwise a HIGH line with only LOW lines before it. |
| HelpingHand.FirstHighUnique | Firmware/HelpingHand_Attiny414/src/main.cpp:104-106 | Any HIGH line with no HIGH line before it is the one chosen. |
| HelpingHand.GetMasterLine | Firmware/HelpingHand_Attiny414/src/main.cpp:107-118 | The loop over the four lines returns -1 iff none is HIGH, and otherwise the first HIGH one. |
| HelpingHand.IdlePolls | Firmware/HelpingHand_Attiny414/src/main.cpp:93-101 | The number of polls before one finds a HIGH line: all earlier polls were all LOW. |
| HelpingHand.WaitForAnyMaster | Firmware/HelpingHand_Attiny414/src/main.cpp:91-102 | The wait returns only once a poll finds a HIGH line, and then returns that poll's first HIGH line, a value in 0..3. Over polls that never see one, it is still waiting. |
| HelpingHand.ComsAnalogSwitch | Firmware/HelpingHand_Attiny414/src/main.cpp:83-87 | The switch select writes A0, then A1. |
| HelpingHand.SwitchSelects | Firmware/HelpingHand_Attiny414/src/main.cpp:83-87 | For channels 0..3, A0 carries bit 0 and A1 carries bit 1, so the analog switch selects the channel given. |
| HelpingHand.Waits | Firmware/HelpingHand_Attiny414/src/main.cpp:100 | k idle polls leave k delays of 10 ms each. `HelpingHand.SetupTiming` turns this into the time `setup` takes. |
| HelpingHand.Setup | Firmware/HelpingHand_Attiny414/src/main.cpp:27-74 | `setup` routes to the line the wait returns, and to none while it is still waiting. |
| HelpingHand.SetupTiming | Firmware/HelpingHand_Attiny414/src/main.cpp:42-100 | `setup` spends 10 ms settling and 10 ms per poll that saw no master. Once a line is chosen it adds 500 ms before driving the PMOS. |
| HelpingHand.RouteLevels | Firmware/HelpingHand_Attiny414/src/main.cpp:52-69 | After routing to c: the select lines carry c's bits, only switch c is LOW with the other three HIGH, and the PMOS is HIGH. |
| HelpingHand.PreludeLevels | Firmware/HelpingHand_Attiny414/src/main.cpp:44-49 | Before a line is chosen, all four mux switches are LOW and the PMOS has not been driven. |
| HelpingHand.SetupRoutesToChosen | Firmware/HelpingHand_Attiny414/src/main.cpp:51-73 | Once a master is chosen, `setup` ends asleep. The analog switch selects the chosen line, exactly its mux switch is LOW, and the PMOS is HIGH. |
| HelpingHand.PmosLast | Firmware/HelpingHand_Attiny414/src/main.cpp:66-69 | The PMOS is written once, HIGH, as the last operation before sleep, after the whole switch pattern is set. |
| HelpingHand.WaitingKeepsBusOff | Firmware/HelpingHand_Attiny414/src/main.cpp:44-51 | While no master has been seen, the PMOS stays undriven and every mux switch stays LOW. |
| System.NewDrivers | Firmware/Macropad/main.py:68-71 | Both drivers start with no devices. |
| System.Deliver | Firmware/Macropad/base_module.py:23-24 | An observer call can change only the driver it names. The other driver keeps its state. |
| System.AddedReachesOwner | Firmware/Macropad/twiman.py:259-265 | With each driver registered at most once, a new device's fan-out applies each registered driver's callback exactly once. A driver of the other type keeps its state. |
| System.DrainNotifies | Firmware/Macropad/twiman.py:352 | Draining a channel, whatever the bus answers at each attempt, only announces new devices to registered observers, and every device it registers reaches each of them. |
| System.InitialDiscoveryNotifies | Firmware/Macropad/twiman.py:343-354 | The same holds for the whole boot sweep. |
| System.BootDevicesNeverReachDrivers | Firmware/Macropad/main.py:22 | In the order the entry point gives boot (discovery first, the drivers after, with the scheduler call between them taken to succeed), whatever the bus answers at each attempt, the manager registers every device found at boot while both drivers hold none. |
| System.BootDevicesReachDrivers | Firmware/Macropad/main.py:68-71 | With the drivers registered before the sweep, whatever the bus answers at each attempt, every device it registers is announced to both drivers. |

## Left out

- Real bus I/O: `busio.I2C`, the `try_lock` spin, the sleeps, `select_channel` and `unselect_channel`. They are replaced by the per-attempt `Bus` oracle and by per-device reply functions. The mux channel is an index.
- Python set iteration order: the health check probes a channel's active addresses in ascending order. Python's order is unspecified, and no stated property depends on it.
- Boot as written stops at main.py:23. `schedule_tasks` builds the discovery task's period from `self.maintenance_interval` (twiman.py:374), which is never assigned: the constructor sets only `health_check_interval` and `discovery_interval` (twiman.py:74-76). The call raises AttributeError, uncaught. So nothing after it runs: the drivers are never built (main.py:68-71), `keyboard.go()` is never reached (main.py:93), and no periodic health check or discovery scan ever runs. The model leaves the scheduler out. `System.BootAsWritten` takes that call to succeed and models the order of the rest of the entry point. The drivers' own `schedule_tasks` are left out with it.
- `TWIChannel`, `__len__` and `__getitem__`: a display pass-through that assigns into a `range`. The display is not part of this model.
- The MIDI transport, `usb_midi` and all `print` logging. A sent control change is an output value `Cc(control, value)`.
- IEEE floating point: `map_value` is over `real`, and `int()` is exact truncation.
- The keyboard framework: only `tap_key` and the `active_layers` list are consumed. Taps are modelled as the output sequence of tapped keys, and the keyboard as its list of active layers. `process_key` and the other default `BaseModule` hooks return their argument or nothing, so they carry no state and have no member.
- Driver call-site defects (`time` imported as a function, `send_command` given an address, `twiman.readfrom_into`): the unit-count query and the report read are abstract replies per device. As written, both drivers bind `time` to the function (knob_module.py:3, slider_module.py:2), so `time.sleep` raises AttributeError in every count query (knob_module.py:72, slider_module.py:76). The manager's fan-out catches it (twiman.py:262-265), so no driver ever adopts a device. That is the model's count reply `None`, for which `KnobDriver.OnNew` and `SliderDriver.OnNew` leave the driver unchanged.
- `KnobDriver.Keymap`: Python's untyped `map` is fixed to the shape the handlers index, layer × encoder × (counter-clockwise, clockwise, press) keys. The map main.py:86-90 installs does not have that shape: it is three rows of three keys, with no layer level. With `active_layers == [0]`, `self.map[0][encoder_index]` is then a single key, which the handlers index again, and encoder indices of 3 or more raise IndexError. That configuration is not modelled, so even the corrected layer lookup (`KnobDriver.LayerFixedTaps`) says nothing about what the shipped map taps.
- `RotaryEncoder`, `Adafruit_Keypad`, `analogRead`, Wire callbacks as interrupts, `pinMode` timing and sleep modes. Their readings are arguments, and the pin operations are a trace.
- `HelpingHand.WaitForAnyMaster`: the endless wait is modelled over a finite sequence of polls, and `None` means it is still waiting when the polls run out.
- `KnobFirmware.TrackTelescopes`: the telescoping sum is proved only for movements that neither wrap the 16-bit `int` nor saturate the pending delta.
- `TwiManager.HealthCheck`: its own contract states only the shape and the removal calls. The full effect is stated by `TwiManager.HealthCheckEffect` for consistent managers.
- `SliderDriver.OnRemoved` and `KnobDriver.OnRemoved`: the contracts state the unit count, the record and the total after removal, not which unit went. That unit is the first equal one, as `UnitRegistry.Drop` states.
- The firmware's count reply `Wire.write((uint8_t *)NUM_ENCODERS, 1)` reads memory at a constant address, so its value is unknown (`Unknown(1)`). It is not modelled as the count.

## Findings

| source | as written | input that shows it | evidently intended | confidence | as-written member | corrected member |
|---|---|---|---|---|---|---|
| Firmware/Macropad/knob_module.py:120 | both handlers (lines 120 and 142) read the layer from `self.keyboard.active_layer[0]`, but the keyboard only has `active_layers` (Firmware/Macropad/kmk/kmk_keyboard.py:33, :74) | bindings set and one device with one encoder: the first handler raises `AttributeError`, so the update raises with no tap | read `self.keyboard.active_layers[0]` | not executed; high | KnobDriver.BoundUpdateRaises | KnobDriver.LayerFixedTaps |
| Firmware/Macropad/knob_module.py:168 | `if rotation_delta != 0` compares the whole list with 0, so the rotation handler runs for every encoder | with the layer lookup corrected: one device with one encoder, a report of zero delta and no press, bindings set with one empty layer: the handler indexes the missing binding and raises | run the rotation handler only for the encoder's own non-zero delta | not executed; high | KnobDriver.IdleEncoderRaises | KnobDriver.GuardedIdleQuiet |
| Firmware/SliderModule/lib/padModules/src/moduleBase.cpp:55-60 | the address swap is done in the request handler, but the host only writes the swap frame (twiman.py:198-199) and then pings the new address (twiman.py:250) | any fresh peripheral on 0x03 promoted to 0x04: it never answers at 0x04, so discovery gives the address back and fails | rebind as soon as the swap frame is received | not executed; high | FirmwareBase.PromotionNeverAnswers | FirmwareBase.PromotionAnswers |
| Firmware/Macropad/slider_module.py:113-120 | the firmware zeroes its struct after each get-changes reply, and the driver ignores the changed flags | one slider last sent at 700, resting, whose next report is level 0 with flag 0: the driver sends CC 0 and records 0 | heed the changed flags, so an unmoved slider sends nothing | not executed; medium (the flags are ignored "for now", line 101) | SliderDriver.RestingSliderDropsToZero | SliderDriver.UpdateSlidersHeeded |
| Firmware/Macropad/knob_module.py:69 | the knob driver's count query uses the slider command byte `0x02` | any knob peripheral: the knob firmware ignores base byte 0x02, and the read gets no bytes | send `[0x01, 0x03]` | not executed; high | KnobFirmware.CountFrameUnanswered | KnobFirmware.CountQueryAnswered |
| Firmware/KnobsModule/src/main.cpp:117 | `Wire.write((uint8_t *)NUM_ENCODERS, 1)` writes the byte at memory address 3 | any encoder-number query: the reply is not the count | write the count itself | not executed; high | KnobFirmware.OnRequest | KnobFirmware.CountQueryAnswered |
| Firmware/SliderModule/src/main.cpp:73 | `Wire.write((uint8_t *)NUM_SLIDERS, 1)` writes the byte at memory address 2 | any slider-number query: the reply is not the count | write the count itself | not executed; high | SliderFirmware.OnRequest | SliderFirmware.CountQuery |
| Firmware/Macropad/knob_module.py:86 | the report is read without first writing the get-changes frame | a knob peripheral after the count query: the report read gets no bytes | write `[0x01, 0x01]`, then read | not executed; medium | KnobFirmware.ReportReadUnanswered | KnobFirmware.GetChangesExchange |
| Firmware/Macropad/slider_module.py:88 | the report is read without first writing the get-changes frame | a slider peripheral after the count query: the report read gets the count reply again | write `[0x02, 0x01]`, then read | not executed; medium | SliderFirmware.ReportReadGetsCount | SliderFirmware.GetChangesExchange |
| Firmware/Macropad/main.py:22 | initial discovery runs before the drivers are constructed and registered (lines 68-71) | any peripheral present at power-up: it is registered and moved off 0x03, but no driver hears of it. As written, boot raises first at main.py:23 (see Left out), so this shows once that line is repaired | register the drivers before the boot sweep | not executed; high | System.BootDevicesNeverReachDrivers | System.BootDevicesReachDrivers |
