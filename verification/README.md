# Verified model of g102-custom-fw

This project models the stateful parts of the G102 custom firmware, its DFU bootloader and its capture
tool, and proves what they promise over whole runs. `dafny verify dfyconfig.toml` checks all of it.

- **Settings store** (`Crc32`, `Polynomial`, `SettingsLog`, `SettingsProtocol`, `SettingsRuns`,
  `SettingsSafety`, `SettingsExamples`, `Arena`, `Settings`). The CRC-32 loop is tied to the polynomial
  division of clause 3.2.9 of IEEE 802.3 and to the error bursts it detects. The A/B log is a state
  machine over boots, edits and saves, where a save may stop after any half-word; it refines a store that
  has no flash, no sequence numbers and no checksum. `Settings.Service` is the imperative code, proved to
  take exactly the steps of that machine.
- **Bootloader** (`Flash`, `BootFlash`, `Dfu`, `DfuHistory`, `Boot`). `Dfu.Device` is the request handler
  over its statics; `DfuHistory` characterises every reachable state, the reported status and the whole
  flash by the request history alone; `Boot` follows the device across resets, from update to jump.
- **Input and light** (`Encoder`, `Motion`, `MainLoop`, `Lighting`, `Bcm`). Conservation of wheel and
  motion over any run of the main loop, the long press, and exact on-times of the binary code modulation
  under any interleaving of timer interrupts and duty writes.
- **Capture tool** (`SpiCapture`, `Disassembler`, `InitTransaction`). Waveform to transactions and byte
  stream to listing, each proved against its inverse.
- **Sensor bring-up** (`Sensor`). The frame trace and the minimum waits, across clock wrap-around.
- `Word32` holds the little-endian fields and the wrapping clock shared by the others.

Methods with loops and objects with fields model code that works that way in the source; each states its
new state through a function, and the lemmas are about that function.

## Assumptions

- Flash: erasing a page either has not happened or has completed; a half-word is programmed as a whole or
  not at all; programming only clears bits. Any operation may be flagged as failed, whether or not it
  took effect; an operation that is not flagged has taken effect. Both images test only PGERR after an
  erase (`firmware/src/platform/flash.cpp:28`, `bootloader/src/flash.c:33`), so this also assumes that an
  erase never fails in a way that only another flag shows. A power cut during a save is a stopped save
  followed by a boot.
- The settings API is used as `firmware/src/services/settings.hpp:138-141` asks: load() is called at boot.
  No such call exists yet in this firmware.
- Crash safety assumes that a page torn between half-words 5 and 18 does not pass the checksum by
  accident. Torn pages outside that range need no assumption, and
  `SettingsSafety`/`SettingsExamples` show that the assumption cannot be dropped at half-word 18.
- The capture's four channels are digital levels. The sensor frames are ten arbitrary byte strings.

## Where the code and its comments disagree

- The checksum range. The comments say the CRC covers everything except the crc field
  (`firmware/src/services/settings.cpp:42-45`, `firmware/src/services/settings.cpp:97`,
  `firmware/src/services/settings.hpp:84`). The code takes the 34 bytes from `version` on, which include
  the crc field and leave out the last four payload bytes (`settings.cpp:46-48`, `settings.cpp:103-105`);
  the field is zero when the checksum is taken and filled in when it is checked. The range is therefore a
  parameter, `CrcRange`. With the range as coded a save is accepted on the next boot exactly when its
  checksum word is zero, and otherwise the defaults come back; crash safety and the round trip are proved
  for the documented range. `SettingsExamples.CodedLosesFirstSave` gives a concrete setting that is lost.
- `firmware/link.ld` says that a firmware reflash wipes the settings. An image of at most 108 KB leaves
  both settings pages unchanged (`DfuHistory.ProtectedFlash`).
- The header of `lighting.hpp` gives phase 0 one tick and a cycle of 1023; the code gives it two, so a
  cycle is 1024 ticks. `main.cpp` speaks of a 0.5 s DPI press; the code waits 3 s. `docs/G102_BOARD.md`
  speaks of one wheel tick per detent; the code emits two. The model follows the code.

## Model

| member | source | states |
|---|---|---|
| Crc32.Compute | firmware/src/services/settings.cpp:19-33 | the byte-wise masked-xor loop computes the bit-serial CRC of any message |
| Polynomial.CrcIsRemainder | firmware/src/services/settings.cpp:21-32 | for every message, the complemented CRC is the one and only remainder of the complemented message times x^32 by the IEEE 802.3 generator (both directions) |
| Polynomial.DivisionUnique | firmware/src/services/settings.cpp:21-22 | quotient and remainder by the generator are unique, so the remainder is a definition |
| Polynomial.PolyBits | firmware/src/services/settings.cpp:29 | the constant 0xEDB88320 is the generator's coefficients, reflected |
| Crc32.BitStepBijective | firmware/src/services/settings.cpp:27-30 | each shift step is a bijection of the 32-bit register, with its inverse |
| Crc32.FeedInjective | firmware/src/services/settings.cpp:25-31 | feeding any fixed message is an injection on the register |
| Crc32.BurstDetected | firmware/src/services/settings.cpp:19-33 | equal-length messages that differ only inside a window of at most 32 consecutive bits never share a CRC |
| Crc32.ByteWindowDetected | firmware/src/services/settings.cpp:19-33 | replacing up to four consecutive bytes keeps the CRC exactly when it changes nothing |
| Crc32.BurstOf33 | firmware/src/services/settings.cpp:19-33 | the bound is exact: of the 33-bit bursts, precisely the generator itself goes unseen |
| SettingsLog.Fields | firmware/src/services/settings.hpp:78-86 | a page written in full reads back the magic, version, size, sequence number, checksum word and payload that were written |
| SettingsLog.DocumentedAccepted | firmware/src/services/settings.cpp:35-50 | with the documented range every completed page passes the header check |
| SettingsLog.CodedAcceptedIff | firmware/src/services/settings.cpp:46-49 | with the range as coded a completed page passes if and only if its checksum word is zero |
| SettingsLog.TornHeadRejected | firmware/src/services/settings.cpp:38-40 | a page with at most its first four half-words is refused by the header fields, for either range |
| SettingsLog.TornTailRejected | firmware/src/services/settings.cpp:42-49 | a page missing at most its last two half-words is accepted if and only if it already equals the whole page |
| SettingsLog.WrongFieldRefused | firmware/src/services/settings.cpp:38-40 | a page whose magic, version or size bytes differ is refused, whatever its checksum |
| SettingsProtocol.NeighboursAndNewest | firmware/src/services/settings.cpp:63-68 | whenever both pages are valid their sequence numbers differ by one modulo 2^16 and the int16 comparison picks the later one |
| SettingsProtocol.BootWinner | firmware/src/services/settings.cpp:60-70 | a boot takes the page one ahead of the active one if there is such a page, else the active one |
| SettingsProtocol.StepRefines | firmware/src/services/settings.cpp:52-116 | each boot, edit or save, however it ends, keeps the invariant and is one step of the store without a flash |
| SettingsRuns.StepReads | firmware/src/services/settings.cpp:52-116 | one step on the bytes of the two pages is the corresponding step of the protocol on what the pages read as |
| SettingsRuns.RunRefines | firmware/src/services/settings.hpp:16-19 | every run, of any length and from any state of the invariant, refines a run of the store without a flash |
| SettingsSafety.CrashSafe | firmware/src/services/settings.hpp:16-19 | from erased flash, any sequence of boots, edits, completed, failed and interrupted saves behaves like that store: a boot brings back the last completed save or one that landed whole since |
| SettingsSafety.SavedOrInFlight | firmware/src/services/settings.hpp:143-145 | after a completed save, whatever failing saves follow, the next boot gives the saved settings or those of a save that was in flight |
| SettingsSafety.WrongFieldSkipped | firmware/src/services/settings.cpp:52-82 | load() passes over such a page: the other one is taken if valid, the defaults otherwise |
| SettingsSafety.SaveThenLoad | firmware/src/services/settings.cpp:84-116 | for either range and in every state reachable from a new chip or from a boot on any flash contents, however earlier saves ended, loading after a completed save changes nothing (payload, sequence number, active page) if and only if the written page is accepted |
| SettingsSafety.KeptStep | firmware/src/services/settings.cpp:52-116 | every boot, edit and save keeps it true that the page the next save will spare is invalid or carries the sequence number in RAM, for either range and with no assumption on the checksum |
| SettingsSafety.DocumentedRoundTrip | firmware/src/services/settings.cpp:97-98 | with the documented range save then load is the identity in every reachable state, with no assumption on the checksum |
| SettingsSafety.CodedRoundTripIff | firmware/src/services/settings.cpp:103-106 | as coded it is the identity if and only if the checksum of the staged blob is zero, in every reachable state |
| SettingsSafety.CodedNeverRecovers | firmware/src/services/settings.cpp:46-49 | as coded, as long as no checksum word is zero and no torn page checks, both pages stay refused over any run and every boot gives the defaults |
| SettingsExamples.CodedLosesFirstSave | firmware/src/services/settings.cpp:103-106 | a concrete setting, saved successfully on a new chip, is gone after the next boot with the range as coded |
| SettingsExamples.TornCollision | firmware/src/services/settings.cpp:98-111 | payloads whose page, stopped three half-words early, is accepted, for every sequence number and any first 20 bytes: the no-collision hypothesis is needed |
| Settings.ErasePage | firmware/src/platform/flash.cpp:21-31 | it succeeds if and only if the address is one of the two settings pages and the controller flags nothing; only those pages are ever erased |
| Settings.Program | firmware/src/platform/flash.cpp:33-49 | it succeeds if and only if the range lies in the settings region, the address is even and the controller flags nothing; how many half-words reach the flash, all of them on success |
| Settings.Service.constructor | firmware/src/services/settings.cpp:12-14 | the statics before the first load |
| Settings.Service.CheckHeader | firmware/src/services/settings.cpp:35-50 | the header check decides validity of the page on flash |
| Settings.Service.Load | firmware/src/services/settings.cpp:52-82 | load() takes the load step of the state machine and leaves the flash alone |
| Settings.Service.StageBlob | firmware/src/services/settings.cpp:90-109 | the staged blob carries the next sequence number, the payload and the checksum over the staged bytes |
| Settings.Service.Save | firmware/src/services/settings.cpp:84-116 | save() takes the save step with the outcome it reports, succeeds if and only if the controller flags nothing meanwhile, and no byte outside the inactive page changes on any path |
| Arena.WindowsTile | firmware/src/services/settings.hpp:90-111 | for distinct slots the windows follow one another without gap or overlap, from 0 to the payload size |
| Arena.ExactlyOneOwner | firmware/src/services/settings.hpp:106-111 | every payload byte belongs to exactly one slot |
| Arena.Store.Put | firmware/src/services/settings.hpp:113-116 | a write through one slot's reference is read back there and leaves every other slot unchanged |
| Arena.Store.LoadDefaults | firmware/src/services/settings.hpp:118-128 | afterwards every slot reads its own default and the payload is their concatenation |
| Arena.FirmwareSlots | firmware/src/services/settings.hpp:38-70 | the two slots of this firmware make the 26-byte payload and the default settings |
| Flash.ProgramHalfWords | firmware/src/platform/flash.cpp:39-46 | the loop leaves exactly the first k half-words programmed, the odd last byte padded harmlessly, and it succeeds, with all of them programmed, if and only if no operation is flagged |
| BootFlash.Program | bootloader/src/flash.c:22-47 | rejected exactly outside the firmware region or at odd addresses, changing nothing; otherwise it succeeds if and only if no operation is flagged, with the data in place, the rest of every touched page 0xFF and all else unchanged; an erase error leaves nothing programmed, a program error a prefix of the data on erased pages |
| BootFlash.EraseTouched | bootloader/src/flash.c:29-34 | the erase loop covers exactly the touched pages, stops at the first flagged error and succeeds if and only if there is none |
| Flash.ProgramAfterErase | bootloader/src/flash.c:29-43 | erasing the touched pages and programming the data gives the whole-write result, byte by byte |
| Dfu.Device.ControlRequest | bootloader/src/usb_dfu.c:113-194 | every request takes the machine's step and gets the machine's answer; a status request for an acceptable block writes it if and only if the controller flags nothing, and no other request operates the flash; DETACH resets and leaves the statics as at a start |
| Dfu.Device.WritePending | bootloader/src/usb_dfu.c:141-147 | the deferred write, with errWRITE exactly when the flash routine fails |
| Dfu.Device.CheckReset | bootloader/src/usb_dfu.c:223-239 | the loop resets exactly on a pending reset or on release of the forward button; the armed flag is redundant |
| DfuHistory.WriteAcceptedIff | bootloader/src/usb_dfu.c:143-145 | for every 16-bit block and pending length the address does not wrap, the write is accepted if and only if the block is below 56, and it touches exactly one page |
| DfuHistory.StateByHistory | bootloader/src/usb_dfu.c:124-177 | in every reachable state, all six DFU states, the buffered block and its number are determined by the requests since the last reset: the last request other than GETSTATUS, how many of those followed, and whether the first of them wrote the block |
| DfuHistory.MachineByHistory | bootloader/src/usb_dfu.c:91-103 | all the statics together are a function of the request history |
| DfuHistory.PendingIff | bootloader/src/usb_dfu.c:131-136 | a block is pending if and only if the last effective request sent one, and then it is that block, of 1 to 2048 bytes |
| DfuHistory.ResetEarned | bootloader/src/usb_dfu.c:148-158 | a reset is pending if and only if, since the last reset, an end of transfer was followed by two status requests with nothing effective between |
| DfuHistory.StatusByHistory | bootloader/src/usb_dfu.c:105-109 | the status is that of the latest failure since the last CLRSTATUS or reset, and the error state never carries OK |
| DfuHistory.FlashByHistory | bootloader/src/usb_dfu.c:139-147 | the flash equals the initial one overlaid, per firmware page, with the last block whose write succeeded, padded with 0xFF; only pages whose last write failed are unspecified; a block that a DETACH dropped was never written |
| DfuHistory.ProtectedFlash | firmware/link.ld:1-6 | no request sequence changes a byte below the firmware region, and transfers below 108 KB leave both settings pages unchanged |
| DfuHistory.HostLearnsResult | bootloader/src/usb_dfu.c:160-167 | the status answer after a data block reports dfuDNLOAD-IDLE exactly when the block is in flash and errWRITE otherwise; a zero status byte means no failure since the last CLRSTATUS or reset |
| DfuHistory.AnswerByHistory | bootloader/src/usb_dfu.c:120-194 | for every request and history: which requests are handled, refused or reset the chip, by their numbers; GETSTATE and GETSTATUS carry the DFU 1.1 numbers of the state and status that the history says, with no poll delay |
| DfuHistory.KindByNumber | bootloader/src/usb_dfu.c:120-194 | the kinds of requests that histories are read by, in request numbers and lengths |
| Boot.UpdateSeen | bootloader/src/usb_dfu.c:124-167 | what a host sees of a whole update, from any state: every request handled, state 5 after each block, then 7, then 2 |
| Boot.ResetHandler.ShouldStay | bootloader/src/main.c:41-50 | it stays if and only if the magic is there, DPI is held or the vector table in flash is out of range, in numbers; the magic word is cleared exactly when it was there |
| Boot.StoryDecides | bootloader/src/main.c:30-56 | for every story of power-ups, resets, USB requests (DETACH included), requests for DFU and settings writes: the firmware runs, at the reset vector then in flash, if and only if the last start of the chip found no magic, DPI up and a valid vector table; and the handoff word is the magic if and only if that firmware has asked for DFU since |
| Boot.EntersIff | bootloader/src/main.c:30-39 | a start enters the firmware if and only if it finds no magic, DPI up, the number at 0x08004000 in 0x20000000..0x2003FFFF and the next one odd and in 0x08004000..0x0801FFFF |
| Boot.BootloaderKept | bootloader/src/flash.c:15-20 | over every such story no byte below the firmware region changes |
| Boot.LiveIsRun | bootloader/src/usb_dfu.c:113-194 | while no DETACH leaves the bootloader, the device across resets is the machine whose histories are read off above |
| Boot.MagicIsOneShot | bootloader/src/main.c:43-46 | a request for DFU holds for exactly one reset |
| Boot.MagicGoneInDfu | bootloader/src/main.c:43-46 | in every reachable state with DFU running the handoff word is not the magic |
| Boot.DownloadLands | bootloader/src/usb_dfu.c:124-147 | from any state, the first n blocks of an image land in the first n firmware pages and nothing else changes |
| Boot.UpdateLands | bootloader/src/usb_dfu.c:139-158 | for every image of at most 56 pages, from any state, the update leaves exactly that image and a pending reset |
| Boot.TooLongFails | bootloader/src/usb_dfu.c:143-147 | a longer image fails at block 56 with errWRITE, its first 56 pages in place |
| Boot.UpdateThenBoot | bootloader/src/main.c:70-84 | from any reachable bootloader state, an update with any image of at most 56 pages and a reset enter the image at its own reset vector exactly when its first two words pass; an image of 1 to 7 bytes never boots, an empty one changes nothing |
| Encoder.QuadEncoder.Poll | firmware/src/drivers/encoder_quad.hpp:35-57 | one poll carries the remainder and emits at most one tick, for either direction |
| Encoder.QuadEncoder.Emit | firmware/src/drivers/encoder_quad.hpp:73-79 | ticks saturate at 127 either way |
| Encoder.TableReadsMovement | firmware/src/drivers/encoder_quad.hpp:42-48 | the step table reads a movement correctly if and only if it is at most one phase, and misreads larger ones by an even amount |
| MainLoop.Firmware.Iterate | firmware/src/app/main.cpp:92-119 | one iteration: the report, the last buttons, the DPI timer |
| MainLoop.WheelConserved | firmware/src/app/main.cpp:96-113 | over any run with at most one phase per iteration, twice the reported ticks plus the remainder is the distance moved |
| MainLoop.WheelNeverClamped | firmware/src/drivers/encoder_quad.hpp:60-79 | in the main loop no report carries more than one tick |
| MainLoop.TurnForward | firmware/src/drivers/encoder_quad.hpp:50-57 | a wheel turned forward at most one phase an iteration has reported exactly half the phases moved, rounded down, at every moment |
| MainLoop.TurnBackward | firmware/src/drivers/encoder_quad.hpp:50-57 | the same backward, rounded toward zero |
| MainLoop.ReportSentIff | firmware/src/app/main.cpp:99-111 | an iteration sends a report if and only if it is the first, the buttons changed, the ready sensor moved or the wheel completed a tick, and what the report carries |
| MainLoop.MotionConserved | firmware/src/app/main.cpp:103-113 | over any run the reported deltas sum to the sensor's, turned by the mounting, and the last reported buttons are the current ones |
| MainLoop.RebootIff | firmware/src/app/main.cpp:115-118 | the handover happens exactly when the button is down and the wrapping clock reads 3 s past the iteration that first saw this press |
| MainLoop.LongPress | firmware/src/app/main.cpp:115-118 | in real time: a press of less than 2^32 ms hands over if and only if it has lasted at least 3000 ms |
| Motion.MotionRoundTrip | firmware/src/drivers/sensor_1855.cpp:107-127 | every signed 12-bit movement survives encoding, in firmware and tool alike |
| Motion.BurstFields | firmware/src/drivers/sensor_1855.cpp:107-127 | with the motion flag the counts are the signed 12-bit values of the low bytes with the upper nibble for X and the lower one for Y |
| Motion.FirmwareAndToolAgree | captures/sensor_1855_dasm.py:357-364 | without the motion flag the firmware reads no movement; firmware and tool decode a burst alike if and only if the flag is set or the movement is zero |
| Lighting.Driver.OnTick | firmware/src/drivers/lighting.cpp:121-151 | one interrupt: next phase, both ports' outputs, reload value |
| Lighting.Driver.Tick | firmware/src/drivers/lighting.cpp:99-118 | at most every 8 ms the nine duties are recomputed from the clock, otherwise nothing changes; at the top of the wave they are the base colours at full ten bits, at the bottom zero |
| Lighting.Driver.Set | firmware/src/drivers/lighting.cpp:79-86 | a LED's three duties, other LED numbers ignored |
| Lighting.Driver.SetBase | firmware/src/drivers/lighting.cpp:89-96 | a LED's base colour, other LED numbers ignored |
| Lighting.Driver.Off | firmware/src/drivers/lighting.cpp:37-42 | all duties zero and all LED pins low at once, other pins untouched |
| Lighting.TickShowsBit | firmware/src/drivers/lighting.cpp:128-142 | after an interrupt a LED pin is high if and only if its duty has the entered phase's bit |
| Lighting.OtherPinsKept | firmware/src/drivers/lighting.cpp:141-142 | an interrupt moves no pin that is not a LED's |
| Lighting.DisjointGroups | firmware/src/drivers/lighting.cpp:131-142 | the set and clear masks of a port are disjoint and hold LED pins only |
| Bcm.OnTimeExact | firmware/src/drivers/lighting.cpp:121-151 | for every interleaving of interrupts and duty writes, on-time is the sum over interrupts of the entered phase's bit in the duty seen then, times the phase's length |
| Bcm.EachPhaseOnce | firmware/src/drivers/lighting.cpp:125-126 | ten consecutive interrupts enter every phase exactly once |
| Bcm.FullCycle | firmware/src/drivers/lighting.cpp:144-150 | ten interrupts take 1024 ticks and light an unwritten 10-bit duty d for d + (d mod 2) of them, from any phase |
| Bcm.DutyAccuracy | firmware/src/drivers/lighting.cpp:110-117 | the duty is within strictly less than one step of the ideal, at most 1023, with no 32-bit overflow |
| Bcm.DutyMonotone | firmware/src/drivers/lighting.cpp:110-117 | the duty is monotone in base colour and brightness |
| Bcm.WaveIsSmooth | firmware/src/drivers/lighting.cpp:105-108 | the triangle wave moves by at most one per 8 ms, also across the wrap of the 32-bit clock |
| Bcm.WaveShape | firmware/src/drivers/lighting.cpp:105-108 | the whole wave: zero at 0, one up every 8 ms to 255, one down every 8 ms to zero, twice as long at both turns, every 4096 ms again |
| Bcm.BreathingOnTime | firmware/src/drivers/lighting.cpp:98-151 | over ten interrupts the light is on within two ticks of the ideal share |
| SpiCapture.ExtractTxByCs | captures/sensor_1855_dasm.py:113-158 | the loop over the samples computes the walk, flush included |
| SpiCapture.BytesStamped | captures/sensor_1855_dasm.py:123-131 | one entry for every eight bits, stamped with the time of its first bit |
| SpiCapture.StutterIgnored | captures/sensor_1855_dasm.py:136-152 | repeating samples any number of times, at any times, does not change the result |
| SpiCapture.FramingDecoded | captures/sensor_1855_dasm.py:113-158 | every capture decodes to the whole bytes found on the data lines just before the rising clock edges of each stretch with CS low, whether or not the last stretch was closed; short remainders are dropped |
| SpiCapture.EveryCaptureIsFramed | captures/sensor_1855_dasm.py:133-152 | every list of samples is such a sequence of stretches, so the previous row leaves none out |
| SpiCapture.CaptureRoundTrip | captures/sensor_1855_dasm.py:113-158 | non-empty byte transactions decode to exactly themselves from any samples whose levels before the rising edges are their bits, however the lines move and are sampled in between, while CS is high, and at the end |
| SpiCapture.EveryListReadsBack | captures/sensor_1855_dasm.py:113-158 | every list of non-empty transactions has a mode-3 waveform, and is read back from it |
| Disassembler.DecodeConfigStream | captures/sensor_1855_dasm.py:247-295 | the loop computes the listing of the stream |
| Disassembler.DecodeLossless | captures/sensor_1855_dasm.py:255-295 | emitting the listing again gives back every byte; the printed offsets and MISO columns are those of its place |
| Disassembler.LinesInPlace | captures/sensor_1855_dasm.py:258-290 | every line stands at its printed offset, and its MISO columns are the bytes one and two places further, or 0 past the end |
| Disassembler.DecodesToItselfIff | captures/sensor_1855_dasm.py:248-254 | a listing is what the decoder makes of its own bytes if and only if it is canonical and correctly placed |
| InitTransaction.WalkSromUpload | captures/sensor_1855_dasm.py:214-226 | the upload walk returns the data bytes and the end |
| InitTransaction.UploadLossless | captures/sensor_1855_dasm.py:219-225 | the walked bytes are exactly the encoding of what was returned, and the walk is maximal |
| InitTransaction.UploadInverts | captures/sensor_1855_dasm.py:214-226 | an even-length image before bytes that do not continue it is found exactly |
| InitTransaction.WalkReadback | captures/sensor_1855_dasm.py:228-245 | the readback walk returns bytes, end and count |
| InitTransaction.ReadbackLossless | captures/sensor_1855_dasm.py:236-244 | the run is triplets and nothing else, and maximal |
| InitTransaction.ReadbackAt | captures/sensor_1855_dasm.py:237-240 | triplet k contributes the MISO bytes of its second and third position |
| InitTransaction.DecodeInit | captures/sensor_1855_dasm.py:297-355 | the phases that are reported, the preamble always the first twelve bytes, and that a readback is found exactly when there is a triplet after the upload |
| InitTransaction.PhasesPartition | captures/sensor_1855_dasm.py:306-352 | with a readback the five phases, printed again, give back the whole transaction |
| InitTransaction.LinesAreInPlace | captures/sensor_1855_dasm.py:330-352 | the lines before and after the readback carry offsets into the whole transaction |
| InitTransaction.BetweenHasNoReads | captures/sensor_1855_dasm.py:326-334 | no read-word line appears between upload and readback |
| InitTransaction.ReadbackIsRun | captures/sensor_1855_dasm.py:336-338 | the readback phase is a non-empty maximal run of triplets |
| InitTransaction.CountMatches | captures/sensor_1855_dasm.py:342-347 | the count is the number of places at which the readback repeats the upload two places later, and the star is printed if and only if that is everywhere |
| Sensor.Driver.InitTick | firmware/src/drivers/sensor_1855.cpp:54-92 | one call of the bring-up machine and the frames it sends |
| Sensor.Driver.SetDpiCode | firmware/src/drivers/sensor_1855.cpp:131-146 | the DPI frame and the commit frame, in that order |
| Sensor.SentByState | firmware/src/drivers/sensor_1855.cpp:58-91 | for every sequence of calls, what has been sent is determined by the state: Ready means frames, frames, DPI, commit and nothing since |
| Sensor.StartedByHistory | firmware/src/drivers/sensor_1855.cpp:49-79 | the reading kept while waiting is that of init_start, then that of the call that ran the first pass |
| Sensor.WaitsLongEnough | firmware/src/drivers/sensor_1855.cpp:63-79 | at least 100 ms of real time before WaitVcc is left and 166 ms between first pass and leaving WaitGap, across any clock wraps |
| Sensor.ProgressOrWait | firmware/src/drivers/sensor_1855.cpp:58-91 | every call changes nothing or comes one state closer to Ready, and only the two waits may stay |
| Sensor.WaitsEnd | firmware/src/drivers/sensor_1855.cpp:63-79 | a call at least 100 ms after init_start, or 166 ms after the first pass, and within one turn of the clock, ends the wait |
| Sensor.BringUpCompletes | firmware/src/drivers/sensor_1855.cpp:53-92 | called at least every g ms, the sensor is Ready 266 + 4 g ms after init_start with exactly the whole trace sent |
| Sensor.DpiFrameSetsBoth | firmware/src/drivers/sensor_1855.cpp:130-146 | the DPI frame writes registers 0x20 to 0x24 with the code in both the first and the last |

## Left out

- SettingsSafety.CrashSafe: assumes that pages torn between half-words 5 and 18 do not pass the checksum by accident, because such payloads exist (SettingsExamples.TornCollision).
- BootFlash.Program: writes whose end exceeds 2^32 are not modelled; no request reaches them (DfuHistory.WriteAcceptedIff).
- Lighting.Driver.OnTick: ports are sets of high pins and the pair of sets raised and dropped; the packing of both halves into one BSRR word is not modelled.
- MainLoop.Firmware.Iterate: takes the two counts of read_motion as input within their 12-bit range; their decoding from the bus is in Motion.
- SettingsLog.Fields: fixes the payload at the 26 bytes of this firmware's two slots; Arena covers arbitrary slot lists.
- Arena.WindowsTile: slot lists with a repeated slot type are not modelled; the source gives both the first window.
- Partly completed page erases and half-words.
- Register set-up, clock trees, USB enumeration and endpoint scheduling, and whether the USB stack drops a report.
- The bootloader's LED indicator and the button debounce wait.
- CSV reading, text formatting of the listing, gap-based segmentation by time stamps, and the generic and poll transaction listings of the capture tool.
- A pending reset is carried out by the polling loop (`Dfu.Device.CheckReset`, `Boot.Happening`); a request
  history may go on after the reset became pending, which covers more than the device does.
