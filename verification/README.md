# 1-Wire weather station: a verified model

A Dafny model of the parts of the w1retap 1-Wire logger whose correctness is not visible from
one function body, with proofs. `dafny verify dfyconfig.toml` checks all of it.

**ROM search and verify.** The devices on a bus are a finite set of 64-bit ROM ids with a valid
CRC8 and a family code: the leaves of a binary tree. `RomTree` defines the walk the DS2490 makes
for one SEARCH_ACCESS command, bit by bit, and what characterises the id it finds. `Search` holds
the state that `owFirst` and `owNext` carry from call to call, and proves that a run of calls lists
every device exactly once, in order, for every bus population. `LibUsbNet` is the imperative port
(buffers written bit by bit with `bitacc`), proved against that state machine. `Verify` is the
triplet count of `owVerify`; `Families` and `FindType` are the family search and `FindDevices`.
All of them rest on one fact proved in `Lfsr`: the CRC8 byte is determined by the other seven
bytes, so two devices never part there.

**CRC engines and the segment protocol.** `Lfsr` has one reference definition of both CRCs, a shift
register fed bit by bit, with linearity, injectivity and burst detection for streams of any length.
`CrcUtil` and `JibCrc` prove the table, parity and bit-loop engines equal to it. `JibStream` is the
CRC protection of one block and its bit repair, `JibBursts` what that repair costs in error
detection, `JibSegments` the rules by which segments are taken, `JibDevice` a run of the receiver as
a function of what a device does in each exchange, `JibRecv` the receiving code, proved to make
exactly that run, `JibSend` the sender, `JibRoundTrip` both together. `JibFormat` says
in plain numbers what a message is on the wire and proves that the receiver accepts exactly those, of
any number of segments; `JibExchange` says when each part of a round succeeds, and with which code it
fails. `Counter` is one user of the CRC16 residue.

**Couplers.** `Coupler` is the switch cache and what every run of selections does to the switches,
obedient or not; `SelectDevice` composes it with the ROM search, `ReadPass` with the device list of one reading pass.

**Scheduling and filtering.** `Intervals` is the interval normalisation with its gcd and lcm
searches, `Timetable` the wait-and-read loop, `Validate` the reading filter. `MainLoop` puts intervals,
timetable, switching and search together. `Buses` shows that the fault-free adapters and lines the
theorems speak of exist for every population.

**SHA.** `Sha1` follows FIPS 180-4, sections 4.1.1, 4.2.1, 5.1.1, 5.3.1 and 6.1.2; `ShaEE` is the
compression and block layout of `ibsha33o.c` against it; `ShaExample` proves the digest of one known
message, round by round.

Functions that update state or buffers step by step are methods with loops; each is tied by its
`ensures` to a function on values, and the theorems are lemmas about those functions. What such a
function means is also stated without it, in numbers, bytes or sets.

## What the code does that its comments do not say

Each of these is a theorem; the code was modelled as it is.

- `RecvCiBMessage` returns zero, its code for success, when all six attempts failed: the recovery
  command after an attempt overwrites the error (`JibDevice.ExhaustedIff` says exactly when).
- `SendSegment` keeps the number of bytes left in an `unsigned char`, so a message of n bytes goes
  out as its first n mod 256 bytes (`JibSend.RoundTrip`). The step that carries the checksum to the
  next segment would add too much from the third segment on; for the same reason there is none
  (`JibSend.SendCiBMessage`).
- The bit repair restores a bit sent as 0 and read as 1. A bit sent as 1 and read as 0 passes the
  corrected check too, but the byte is handed on damaged (`JibStream.RepairExact`).
- `owVerify` is exact for serial numbers with a good CRC. Without one it also says yes if the id
  that differs in bit 63 only is on the bus and some bit before the CRC byte is no split along it
  (`Verify.VerifyIff`).
- `FindDevices` compares seven family bits, but the search starts from all eight. It misses devices
  exactly if bit 7 is set and both the family and its twin are present (`Families.CollectsAllIff`),
  which valid ids can be (`Families.TwinsMissed`).
- Bit 63, which `owFamilySearchSetup` makes the next search set, is harmless only because of the
  CRC byte (`Families.FamilyLanding`).
- `w1_set_coupler` believes every command it sends. A switch-off that failed is not sent again until
  a device behind that coupler has been selected (`Coupler.StuckStays`, `Coupler.SelectionFrees`), and
  every other branch switched on until then is on together with it (`Coupler.RunIff`).
- The repair weakens the CRC: of the errors within any 16 consecutive bits, all of which the first
  check detects, exactly one gets through the second (`JibBursts.OneBurstAtMost`,
  `JibBursts.OneBurstAtLeast`).
- `w1_lcm` bounds its search by a product that wraps; 22 devices at 120 seconds make it zero, and the
  result is -1, which divides every time (`Intervals.TwentyTwoDefaultsFail`, `Timetable.CycleTest`).
- The rate filter is skipped for readings at or before the last accepted log time
  (`Validate.RateNotCheckedIff`, `Validate.RateHeldIff`, `Validate.SameTimeEscapes`).

## Model

| member | source | states |
|---|---|---|
| Search.Enumeration | src/libusblinux300/libusbnet.c:71-280 | For every non-empty population and any number of calls after a reset: call number n reports device number n mod (count + 1) of the walk order, every device once per round, then FALSE once with the state reset, then again from the first. |
| FindAll.ListBus | src/libusblinux300/tstfind.c:84-102 | The owFirst and owNext loop on a port in any state terminates and returns, in bytes, the listing of the bus, or of the devices in alarm: every device once, in walk order; the port is reset afterwards. |
| Search.ListingExists | src/libusblinux300/libusbnet.c:104-280 | Every population has a listing in walk order, so the enumeration theorem applies to all of them. |
| Search.Finds | src/libusblinux300/libusbnet.c:228-261 | A search over a non-empty population always reports a device, and leaves the state standing at it: the last discrepancy is the last split where that device has a 0, LastDevice set if there is none. |
| Search.LastDeviceIsLast | src/libusblinux300/libusbnet.c:240-240 | LastDevice is set exactly if the device found is the last one in walk order. |
| Search.NextFollows | src/libusblinux300/libusbnet.c:147-159 | From a state at device r the id built from LastDiscrepancy leads the walk to the device right after r, with none between. |
| Search.StartPlainly | src/libusblinux300/libusbnet.c:147-159 | The id sent is the serial number up to the last discrepancy, a one there and zeros after it; after a corrupt reply the serial number as it is. |
| Search.StepInListing | src/libusblinux300/libusbnet.c:104-280 | One owNext from the k-th device: TRUE and the next device if there is one; otherwise FALSE and a state as good as new. |
| Search.StartsAtFirst | src/libusblinux300/libusbnet.c:71-79 | From a reset search, or after a corrupt reply, the device found is the first in walk order. |
| Search.EmptyBus | src/libusblinux300/libusbnet.c:129-145 | With no device every search is FALSE and resets the state. |
| Search.CorruptReplyRestarts | src/libusblinux300/libusbnet.c:248-277 | A reply with a bad CRC or family zero is never reported, and the next search starts over with the id a fresh search sends. |
| RomTree.SearchWalks | src/libusblinux300/libusbnet.c:161-191 | The bit-by-bit walk finds a member that follows the id sent exactly where the population splits along it, and marks exactly the splits. |
| RomTree.CrcDetermines | src/libusblinux300/libusbnet.c:242-249 | Two ids with valid CRC8 and equal first seven bytes are equal. |
| RomTree.WalkOrder | src/libusblinux300/libusbnet.c:151-159 | The walk order is a strict total order on ids. |
| RomTree.LandsInPrefix | src/libusblinux300/libusbnet.c:327-338 | If some device starts with a prefix of the id sent, so does the device found. |
| RomTree.Lands | src/libusblinux300/libusbnet.c:151-159 | From a prefix followed by zeros up to the CRC byte the walk finds the first device with that prefix in walk order. |
| Bits.BitRead | src/libusblinux300/libusbnet.c:565-583 | Returns bit number loc of the buffer, bytes in order, least significant bit first. |
| Bits.BitWrite | src/libusblinux300/libusbnet.c:565-583 | Changes bit number loc to the state given and no other bit. |
| LibUsbNet.Port.BuildStart | src/libusblinux300/libusbnet.c:147-159 | The eight bytes written to the adapter are the start id of the search state, built in a buffer of their own. |
| LibUsbNet.Port.TakeReply | src/libusblinux300/libusbnet.c:239-277 | From the sixteen reply bytes the fields of the port become those of the search step: id, CRC check, last discrepancy, last device, reset on corruption. |
| LibUsbNet.Port.OwNext | src/libusblinux300/libusbnet.c:104-280 | 0xF0 or, for alarms only, 0xEC goes out with the id. New state and result in plain terms: after the last device, without a presence pulse, or when the transfer fails: FALSE, a failed transfer changing nothing; TRUE only for a reply whose first eight bytes have a good CRC and a family code, which are then the serial number, the discrepancy being the last marked zero bit. |
| LibUsbNet.Port.OwFirst | src/libusblinux300/libusbnet.c:71-79 | The same from a reset state, whatever the state was; the id sent is all zeros. |
| LibUsbNet.NextPlainly | src/libusblinux300/libusbnet.c:119-279 | The search step in these plain terms, for every state and every reply. |
| LibUsbNet.Port.OwFamilySearchSetup | src/libusblinux300/libusbnet.c:327-338 | The serial number becomes the family code followed by zeros, with the discrepancy at 64 and LastDevice clear. |
| LibUsbNet.Port.ReadSerialNum | src/libusblinux300/libusbnet.c:300-309 | A copy of the eight bytes found last, the search state untouched. |
| LibUsbNet.Port.SetSerialNum | src/libusblinux300/libusbnet.c:310-316 | Only the serial number changes, to the bytes given. |
| LibUsbNet.Port.OwVerify | src/libusblinux300/libusbnet.c:436-484 | On a line where all devices answer 0xF0, those in alarm 0xEC, and none anything else: TRUE exactly if the device is among those asked for, or if the id that differs in bit 63 only is and the bus does not split along it at some bit before the CRC byte. For a serial number with a good CRC: TRUE exactly if the device is among all devices, or among those in alarm if only these are asked for. |
| Buses.AdapterExists | src/libusblinux300/libusbnet.c:161-240 | Every two populations, all devices and those in alarm, have an adapter that answers each search as its devices make it. |
| Buses.LineExists | src/libusblinux300/libusbnet.c:453-473 | And a line that answers each search packet as they make it, by its command. |
| LibUsbNet.Port.CountGood | src/libusblinux300/libusbnet.c:456-473 | The loop over the 192 bits gives the good-bit count of the triplets, zero once a triplet shows an empty line. |
| Verify.VerifyIff | src/libusblinux300/libusbnet.c:436-484 | For every population and every serial number, good CRC or not: at least eight good bits are counted if and only if the device is present or its twin misleads. |
| Verify.TwinCounts | src/libusblinux300/libusbnet.c:456-473 | With the twin present the count is exactly seven plus the number of bits before the CRC byte at which the bus does not split along it. |
| Verify.NoTwin | src/libusblinux300/libusbnet.c:436-484 | A serial number with a good CRC is never mistaken, whatever is on the bus. |
| Verify.VerifyExact | src/libusblinux300/libusbnet.c:436-484 | So for a serial number with a good CRC the count reaches eight if and only if the device is present. |
| Verify.LastBitGoesUnnoticed | src/libusblinux300/libusbnet.c:457-477 | An instance: a serial number that differs from the only device in its last bit gets 63 good bits. |
| Families.FamilyLanding | src/libusblinux300/libusbnet.c:327-338 | The search after a family set-up finds the first device of that family; if there is none, the first of the family that differs only in bit 7, if any. |
| Families.FilterKeeps | src/libusblinux300/findtype.c:60-74 | Picking the matches of a prefix out of a listing lists exactly the matching devices, each once, in order. |
| Families.FromLanding | src/libusblinux300/findtype.c:58-74 | From its landing place on, the search meets exactly the devices Collected names, none of them lying before. |
| Families.CollectsAllIff | src/libusblinux300/findtype.c:69-72 | All devices that match in seven bits are collected if and only if not both the family asked for, with bit 7 set, and its twin are present. |
| Families.TwinsMissed | src/libusblinux300/findtype.c:58-72 | For every family code above 0x80 there is a bus of two valid devices on which the search misses one. |
| Families.CrcByte | src/libusblinux300/crcutil.c:115-119 | Every seven bytes have a CRC byte that makes them a valid id. |
| FindType.FindDevices | src/libusblinux300/findtype.c:52-78 | The array holds the devices the search is bound to collect, in order: all of them, or the first MAXDEVICES - 1, or the first one if MAXDEVICES is below two, the loop running once; their number is returned. |
| FindType.Below80 | src/libusblinux300/findtype.c:69-69 | For a family code below 0x80 these are exactly the devices on the bus whose low seven family bits match, each once. |
| FindType.LowSeven | src/libusblinux300/findtype.c:69-69 | The masked byte comparison holds exactly if the first seven transmitted bits are equal. |
| Lfsr.BurstDetected | src/libusblinux300/crcutil.c:89-119 | Two streams of one length, however long, from any register value, that differ only within 16 consecutive bits (8 for CRC8) have different CRCs. |
| Lfsr.BitsLinear | src/libusblinux300/crcutil.c:89-119 | Both CRCs are linear over streams of any length. |
| Lfsr.ShiftNInjective | src/libusblinux300/crcutil.c:89-119 | Feeding zeros never merges two register values. |
| Lfsr.BytesAreBits | src/libusblinux300/crcutil.c:89-119 | Feeding bytes is feeding their bits, least significant first. |
| CrcUtil.TableIsCrc8 | src/libusblinux300/crcutil.c:37-58 | Every printed entry of the CRC8 table is its index shifted eight times. |
| CrcUtil.CrcPort.DoCrc16 | src/libusblinux300/crcutil.c:89-103 | The parity-trick engine takes in the low byte of its argument as the CRC16 shift register does. |
| CrcUtil.CrcPort.DoCrc8 | src/libusblinux300/crcutil.c:115-119 | The table engine takes in a byte as the CRC8 shift register does. |
| CrcUtil.MessageResidue16 | src/libusblinux300/crcutil.c:89-103 | A message and two bytes leave 0xB001 if and only if the bytes are the complemented CRC16 of the message, low byte first. |
| CrcUtil.MessageResidue8 | src/libusblinux300/crcutil.c:115-119 | A message and one byte leave CRC8 zero if and only if the byte is the CRC8 of the message. |
| Counter.ReadCounter | src/libusblinux300/cnt1d.c:49-105 | TRUE exactly for packets whose CRC bytes are right for the command and address sent and the bytes received; the count is then their little-endian counter and is otherwise untouched. From a DS2423 it is the counter of the page asked for. |
| Counter.Ds2423Answers | src/libusblinux300/cnt1d.c:66-99 | A device that takes 0xA5 and the address of the last byte of a page, low byte first, and answers with the counter of that page and the complemented CRC16 of everything before, is always accepted, with that counter. |
| Counter.CounterValue | src/libusblinux300/cnt1d.c:93-98 | The downward shift loop assembles the four counter bytes least significant first. |
| JibCrc.CRC16TGen | src/libusblinux300/jib96o.c:1415-1432 | The bit loop is the CRC16 shift register on one byte, hence equal to the parity engine. |
| JibCrc.Tables.CRC16 | src/libusblinux300/jib96o.c:1453-1456 | One look-up takes in one byte as the shift register does. |
| JibCrc.Tables.CRC16Buf | src/libusblinux300/jib96o.c:1462-1470 | The table engine over a buffer is the CRC16 shift register, hence equal to both other engines on every stream and start value. |
| JibCrc.Tables.GenCRC16Table | src/libusblinux300/jib96o.c:1439-1447 | Fills all 256 entries with the register after one byte, and the correction table with them. |
| JibCrc.Tables.GenCRC16CorrectionTable | src/libusblinux300/jib96o.c:1476-1489 | Fills the 140 entries with the difference that a flip of bit 0 of byte 2 leaves in the CRC of a stream of each length. |
| JibStream.FlipChangesCrc | src/libusblinux300/jib96o.c:1476-1504 | For every stream of at least three bytes, flipping bit 0 of byte 2 changes the CRC by exactly the correction for that length. |
| JibStream.RepairExact | src/libusblinux300/jib96o.c:1089-1097 | For every block of 3 to 140 bytes whose bit 0 of byte 2 arrives flipped: the block is accepted, and what is handed on is what was sent if and only if the bit was sent as 0. |
| JibStream.Undisturbed | src/libusblinux300/jib96o.c:1188-1198 | A block that arrives as sent is handed on unchanged. |
| JibStream.NoRepairBeyondTable | src/libusblinux300/jib96o.c:1495-1504 | Blocks longer than 140 bytes are taken only if their CRC matches, also where the length wraps in eight bits. |
| JibBursts.TakenIff | src/libusblinux300/jib96o.c:1089-1097 | A block of a length the table covers is taken at all if and only if it is closed with its own CRC, or is so once bit 0 of byte 2 is flipped. |
| JibBursts.FirstCheckDetects | src/libusblinux300/jib96o.c:1089-1092 | The first check alone detects every error within 16 consecutive bits, CRC bytes included. |
| JibBursts.OneBurstAtMost | src/libusblinux300/jib96o.c:1089-1097 | With the second check, of all errors in a window of 16 bits at most one gets through. |
| JibBursts.OneBurstAtLeast | src/libusblinux300/jib96o.c:1089-1097 | And in every window of 16 bits within the block one does. |
| JibBursts.CrcBytesBurst | src/libusblinux300/jib96o.c:1089-1097 | The one in the CRC bytes leaves the data as sent, but the receiver clears bit 0 of byte 2, so what is handed on is right exactly if that bit was clear. |
| JibSegments.TakeKeepsGood | src/libusblinux300/jib96o.c:912-986 | A segment that passes the four tests extends a good chain to a good chain that fits the buffer. |
| JibFormat.AcceptedIffFramed | src/libusblinux300/jib96o.c:912-986 | Any segments, up to 128 of them, are accepted as one message if and only if they are one on the wire and it fits the buffer: numbers 0, 1, .., the top bit on the last only, CRC16 of length and data, and the sum of all bytes so far modulo 65536, each low byte first. |
| JibFormat.ZeroStartsOver | src/libusblinux300/jib96o.c:916-925 | A segment numbered 0 starts the message over, whatever was taken before. |
| JibFormat.FramedIsReceived | src/libusblinux300/jib96o.c:797-1008 | A device that gets such a message across makes the call accept it in its first attempt, with its contents as payload. |
| JibFormat.FramedAfterOthers | src/libusblinux300/jib96o.c:916-1008 | So does one that sends it after any part of another message. |
| JibSegments.AddUp | src/libusblinux300/jib96o.c:495-496 | The checksum loops add the bytes modulo 65536. |
| JibDevice.NoMixing | src/libusblinux300/jib96o.c:796-1028 | Whatever the device does, an accepted message is the work of one attempt after failed ones: its segments are numbered 0, 1, .., only the last is flagged, every data CRC and running checksum is right, it fits the buffer, and its headers and blocks were read in that attempt's own exchanges, one right after the other. |
| JibDevice.AttemptUnbroken | src/libusblinux300/jib96o.c:799-1008 | The same for an attempt continued from any open chain: exchanges increase, and nothing but the two commands for the next segment, both successful, lies between two rounds. |
| JibDevice.StartsApart | src/libusblinux300/jib96o.c:796-1025 | The exchanges of successive attempts are disjoint: each attempt starts two exchanges after the end of the one before. |
| JibDevice.ExhaustedIff | src/libusblinux300/jib96o.c:796-1028 | The call returns zero without a message if and only if every attempt, started where the one before it left the device, breaks off and the SendStatus after it succeeds. |
| JibDevice.AcceptedIff | src/libusblinux300/jib96o.c:796-1028 | The call accepts these segments if and only if some attempt completes them and all before it fail. |
| JibDevice.StoppedIff | src/libusblinux300/jib96o.c:1014-1028 | The call ends with an error code if and only if, after failed attempts, one of its attempts breaks off and the SendStatus after it fails; with that code. |
| JibDevice.CallLonger | src/libusblinux300/jib96o.c:796-1028 | A call that ends within the rounds watched ends the same way however long it is watched, so the bound is no part of the result. |
| JibDevice.SilentExhausts | src/libusblinux300/jib96o.c:893-904 | Against a device that never has a header waiting and takes its commands all attempts fail, so zero is returned with nothing received. |
| JibDevice.PlayedIsReceived | src/libusblinux300/jib96o.c:799-1008 | If a device gets segments across, intact or repairably, and the rules for segments accept them, the attempt completes with the chain the rules make of them. |
| JibExchange.RoundIs | src/libusblinux300/jib96o.c:797-986 | A round ends with the code of the wait, of the header plus 0x80, or of the data plus 0x90, or the code the segment is refused with, at the exchange where that happens, and otherwise takes header and data as read. |
| JibExchange.AttemptIs | src/libusblinux300/jib96o.c:797-1008 | After a lost round the attempt breaks off; after a segment with the top bit set it is complete; otherwise it goes on two exchanges later if both commands succeed, and breaks off at the one that fails. A segment numbered 0 discards those before it. |
| JibExchange.AwaitIff | src/libusblinux300/jib96o.c:802-904 | A header is waited for exactly if the status is read without power-on reset, what was running is run to its end, and eight bytes are then ready; otherwise the code of the first of these that fails. |
| JibExchange.HeaderTryIff | src/libusblinux300/jib96o.c:1043-1124 | A try succeeds exactly if the device is reached, the answer to 0x22, 8 and ten bytes of ones is closed with its CRC as it is or once the bit is flipped, and the release is acknowledged; codes 4, 7 or that of the release. |
| JibExchange.HeaderBytes | src/libusblinux300/jib96o.c:1078-1115 | The eight bytes of the header as they came, or with the bit cleared. |
| JibExchange.HeaderTries | src/libusblinux300/jib96o.c:1043-1124 | The first success of three tries counts, else the code of the third. |
| JibExchange.DataTryIff | src/libusblinux300/jib96o.c:1138-1219 | The same for the data, asked for with 0xAA and its length; its CRC must be the one in the header, else code 11; an intact block brings its data as sent. |
| JibExchange.DataTries | src/libusblinux300/jib96o.c:1138-1219 | Three tries at the data. |
| JibExchange.RefusedWith | src/libusblinux300/jib96o.c:912-978 | A segment is refused with 2 if it is neither number 0 nor the next, 13 if it does not fit, 11 for its CRC and 8 for its sum, in that order. |
| JibRecv.Receiver.RecvCiBMessage | src/libusblinux300/jib96o.c:784-1028 | For any device behaviour in ordinary mode the call ends exactly as the run of six attempts over the device's exchanges ends: accepted, with the message in the buffer and its length stored; exhausted, with code zero and the size unchanged; or stopped by a failed SendStatus, with its code. Nothing beyond the given size is written. |
| JibRecv.Receiver.Attempt | src/libusblinux300/jib96o.c:797-1008 | One attempt ends as the run from its first exchange does, in both directions: complete with the message in the buffer, or broken off at that exchange, whatever the length and checksum variables held before. |
| JibRecv.Receiver.TakeNext | src/libusblinux300/jib96o.c:907-986 | Error code and exchanges are those of the round, in both directions; when the segment is taken the variables and the buffer agree with the chain. |
| JibRecv.Receiver.RecvHeader | src/libusblinux300/jib96o.c:1043-1124 | Succeeds exactly if one of three tries brings a block that is intact or repairable and is released; results are its fields and the sum of its first six bytes, otherwise the code of the last try. |
| JibRecv.Receiver.AwaitHeader | src/libusblinux300/jib96o.c:802-904 | The code and the exchanges used from the status to the waiting header, error by error. |
| JibRecv.Receiver.RecvData | src/libusblinux300/jib96o.c:1138-1219 | Succeeds exactly if one of three tries brings a block, intact or repairable, with the CRC the header named; its data is then in the buffer with their sum. Nothing else in the buffer changes, nor on failure. |
| JibRecv.Receiver.CheckBlock | src/libusblinux300/jib96o.c:1089-1097 | Succeeds exactly for the blocks the repair rule accepts, and tells whether the bit is to be cleared. |
| JibSend.RoundTrip | src/libusblinux300/jib96o.c:243-367 | The rules for segments accept all that is sent for a message of any length, and rebuild its first (length mod 256) bytes: the message itself if and only if it is shorter than 256 bytes. |
| JibRoundTrip.SendAndReceive | src/libusblinux300/jib96o.c:784-1028 | SendCiBMessage, then RecvCiBMessage from the device a line makes of the segments sent: if it gets them across, intact or repairably, code zero, length mod 256 stored, and that much of the message in the buffer, all of it below 256 bytes. |
| JibRoundTrip.Loopback | src/libusblinux300/jib96o.c:784-1028 | The same with a device that plays back the very segments sent, nothing being assumed of it. |
| JibRoundTrip.SentIsReceived | src/libusblinux300/jib96o.c:243-282 | The run against such a device accepts exactly the segments sent, in its first attempt. |
| JibRoundTrip.PlaybackPlays | src/libusblinux300/jib96o.c:1188-1206 | There is such a device for any segments: one that sends each block closed with its CRC. |
| JibSend.SendCiBMessage | src/libusblinux300/jib96o.c:226-282 | Exactly these segments go out, numbered from 0, the last flagged, the checksum carried from one to the next modulo 65536, each in its two packets. |
| JibSend.SendSegment | src/libusblinux300/jib96o.c:327-367 | Segment k carries the slice of the message at 128 k, of at most 128 bytes, and is flagged exactly if no more than 128 are left in eight bits. Two packets carry it: 0x0F, length, data and two bytes of ones; 0x2D, 8 and the header. |
| JibSend.SendHeader | src/libusblinux300/jib96o.c:459-532 | The header carries number, length, remainder, data CRC and the checksum up to itself; the accumulator then also holds the two checksum bytes. |
| JibFormat.SentFormat | src/libusblinux300/jib96o.c:459-532 | What goes out for a message of any length: a message on the wire, in one or two segments; segment k carries the bytes from 128 k on, and its header the number of bytes still to come, its own included, low byte first. |
| JibSend.MadeSegment | src/libusblinux300/jib96o.c:459-532 | A segment as sent satisfies every condition the receiver tests. |
| JibSend.BlocksPass | src/libusblinux300/jib96o.c:1188-1206 | Header and data block of every segment, closed with their CRCs, pass the block check unchanged. |
| Coupler.RunSafe | src/w1sensors.c:122-141 | From a state in which couplers believed off are off: at most one branch is on after every single device of every operation of any run in which the switch-offs are obeyed, whatever becomes of the switch-ons. |
| Coupler.StartUpSafe | src/w1retap.c:566-566 | From start-up, with the caches undefined and the switches in any position, every such run is safe once the first switch-off of all couplers has been obeyed. |
| Coupler.PerformExact | src/w1sensors.c:108-141 | From a right cache, with obedient switches, an operation leaves them exactly as wanted, everything else off, and every cache entry undefined or equal to the switch, so skipped commands lose nothing. |
| Coupler.SetKeepsCacheIff | src/w1sensors.c:108-120 | A command that is sent keeps the cache right if and only if the switch obeyed or was already there. |
| Coupler.TwoBranchesIff | src/w1sensors.c:122-141 | From any state with at most one branch on, a wrong cache included, and for any obedience of the switches: an operation leaves two branches on if and only if its switch-on is sent and obeyed while another branch stays on, its switch-off not being sent or not obeyed. |
| Coupler.RunIff | src/w1sensors.c:122-141 | Over any run of operations, any obedience and any cache: at most one branch is on at every moment if and only if no step meets that condition in the state it starts from. |
| Coupler.DidSafeIff | src/w1sensors.c:122-141 | What a bus records over the steps of a run, its changes of position in order, is free of positions with two branches if and only if no step doubles. |
| Coupler.OffAddsNone | src/w1sensors.c:127-135 | No other operation adds a branch to those that are on, whatever the switches do. |
| Coupler.StuckIff | src/w1sensors.c:108-120 | For any state, a coupler's branch is on with the cache believing it off after an operation if and only if it was on, its coupler was not the one selected, and the cache believed it off already or its switch did not obey. |
| Coupler.StuckStays | src/w1sensors.c:108-141 | Such a branch stays on over every run of operations that selects no device behind its coupler, because no command is sent to it. |
| Coupler.SelectionFrees | src/w1sensors.c:108-141 | Selecting a device behind that coupler ends this, obeyed or not: the next operation that does not select it sends the switch-off again. |
| SelectDevice.VisibleIsReach | src/w1sensors.c:127-141 | From a right cache and obeyed, exactly the trunk and the device's own branch answer after the switching of a selection. |
| SelectDevice.Bus.SelectDevice | src/w1sensors.c:122-154 | Whatever the cache held and the switches obey: terminates, goes exactly through the positions of the selection, and returns 1 if and only if the device is visible on the branches that are then on. From a right cache and obeyed: at most one branch on, and 1 if and only if the device is on the trunk or on its own branch. |
| SelectDevice.Bus.Confirm | src/w1sensors.c:143-151 | The confirmation loop terminates and finds the serial number if and only if it is on the bus. |
| SelectDevice.Bus.SetCoupler | src/w1sensors.c:108-120 | A command goes out only if the cache differs; the cache takes the new value whether or not the switch obeys. |
| SelectDevice.Bus.SwitchTo | src/w1sensors.c:127-141 | For any obedience of the switches the loop and the switch-on do exactly what the operation does and go exactly through its positions, all recorded in order; with at most one branch on before, none of them has two exactly if the last one has not. |
| SelectDevice.Bus.OthersOff | src/w1sensors.c:127-135 | The switch-off loop, device by device: cache, switches and recorded positions are those of turning off every coupler but the one spared. |
| SelectDevice.Bus.AllCouplersOff | src/w1sensors.c:1215-1224 | Does what the operation does, for any obedience, and goes exactly through its positions, never two branches on if there were not before; from a right cache and obeyed every coupler ends off. |
| ReadPass.ReadAllSensors | src/w1sensors.c:1325-1452 | A pass reads exactly the devices that are due, have a reading function, are reachable, and give values in one of ten attempts; every other device ends with no valid value, and the sum of the valid values left is returned; the switches go exactly through the positions of the attempts made, never two branches on, and every coupler ends off. |
| ReadPass.ReadDevice | src/w1sensors.c:1352-1431 | The device is selected once per attempt, up to the first attempt that gives values or ten; an unreachable device gives none in any. |
| ReadPass.SomeAttempt | src/w1sensors.c:1354-1431 | The attempts give values exactly if one of the ten does. |
| ReadPass.AttemptsIs | src/w1sensors.c:1354-1431 | The first of ten attempts that gives values gives their number, and no attempt is made after it; an unreachable device is tried ten times. |
| ReadPass.VisitsInOrder | src/w1sensors.c:1343-1449 | A pass selects exactly the due devices that have a reading function, in the order of the list, and switches all couplers off at the end. |
| Buses.SiteExists | src/w1sensors.c:122-154 | For any valid devices on trunk and branches there is an adapter that answers as the devices reachable after each selection make it. |
| Intervals.NormalFacts | src/w1sensors.c:1288-1318 | After normalisation every interval is a positive multiple of the least one and at most the old delay, and the least one occurs. |
| Intervals.NormalIs | src/w1sensors.c:1296-1318 | With m the new delay: an interval that is unset or at least the old delay ends as the greatest multiple of m up to the old delay, one from ten seconds up as the greatest up to itself, a smaller one as the greatest up to ten seconds, or the old delay if less; and m is the least of these bounds. |
| Intervals.NormalFixed | src/w1sensors.c:1296-1318 | Intervals from ten seconds to the delay that are multiples of their least one stay as configured. |
| Intervals.DevList.VerifyIntervals | src/w1sensors.c:1288-1322 | Intervals become the normal ones, the delay their least value, which is their gcd, and the cycle their lcm exactly if that is at most the wrapped product, else -1, unless the search overflows; a cycle other than -1 is a whole number of delays. |
| Intervals.DevList.ClipAll | src/w1sensors.c:1296-1311 | The first loop brings every interval between ten seconds and the delay, the delay winning, unset ones becoming the delay, and finds the least. |
| Intervals.DevList.FloorAll | src/w1sensors.c:1313-1318 | The second loop rounds every interval down to a multiple of the new delay; its branch for zero is never taken. |
| Intervals.Gcd2Divisors | src/w1sensors.c:1267-1274 | The divisors of the recursive gcd are exactly the common divisors of its arguments. |
| Intervals.W1Gcd | src/w1sensors.c:1276-1286 | The divisors of the result are exactly the common divisors of the array. |
| Intervals.GcdAttained | src/w1sensors.c:1320-1320 | When one interval divides all, the gcd is that interval. |
| Intervals.W1Lcm | src/w1sensors.c:1226-1264 | Terminates with the least common multiple if that is at most the product as it wraps, and with -1 otherwise, though it steps through multiples of the maximum only; a candidate overflows an int if and only if the last multiple that fits is at most the wrapped product and below the least common multiple. |
| Intervals.OverflowsIs | src/w1sensors.c:1238-1246 | That condition without the code: some multiple of the maximum is the last below 2^31, at most the wrapped product, and below the least common multiple. |
| Intervals.LcmExists | src/w1sensors.c:1238-1244 | There is a least common multiple, and it is at most the unwrapped product. |
| Intervals.NoWrapNoFailure | src/w1sensors.c:1238-1244 | If the product does not wrap, the result is never -1. |
| Intervals.TwentyTwoDefaultsFail | src/w1sensors.c:1238-1263 | For 22 intervals of 120 seconds the 64-bit product is zero, so the search stops before its first candidate. |
| Intervals.CommonIffMultiple | src/w1sensors.c:1246-1261 | The common multiples are exactly the multiples of the least one. |
| Timetable.WakeIsNext | src/w1retap.c:635-639 | The wake time is the least multiple of the delay strictly after now. |
| Timetable.TimedPasses | src/w1retap.c:603-656 | The loop that sleeps again after a signal makes one pass per uninterrupted sleep, at its wake time. |
| Timetable.WakesExact | src/w1retap.c:568-656 | Over any run with interruptions and overlong work, a pass starts at a multiple of the delay if and only if the loop was not busy over it. |
| Timetable.ReadExactlyAtMultiples | src/w1sensors.c:1343-1350 | With passes shorter than the delay a device is read at every multiple of its interval and at no other timed wake-up. |
| Timetable.DueIff | src/w1sensors.c:1350-1350 | A device is due exactly at multiples of its interval, and always if that is zero. |
| Timetable.NormalTimetable | src/w1sensors.c:1288-1350 | The same for whatever intervals and delay were configured, after normalisation. |
| Timetable.AfterPass | src/w1retap.c:576-590 | With the cycle the set-up leaves, the temporary log is written exactly after passes that give values, if it is wanted, at common multiples of all intervals, or always when w1_lcm gave up. |
| Timetable.CycleTest | src/w1retap.c:586-586 | With the lcm as cycle the cycle test holds exactly when all devices are due; with -1 it always holds. |
| MainLoop.OnePass | src/w1retap.c:575-590 | A pass leaves every device with the values it gave in it, reads exactly the due devices that give values, logs as AfterPass says, and its switch commands are exactly those of its attempts, ending with all couplers off. |
| MainLoop.Watch | src/w1retap.c:568-657 | Over any sleeps the loop makes one such pass for each that is not interrupted, at its wake time, and nothing else: the switches go exactly through the positions of these passes; after the last one every coupler is off and the valid values are those it read. |
| MainLoop.Run | src/w1retap.c:566-657 | From the configured intervals on: they are made to fit, the couplers are switched off, and the loop runs. The log it returns reads and logs what is due at every wake-up; on a punctual run every device that can be found and gives values is read exactly at the multiples of its normalised interval; from the first switch-off on no two branches are ever on. |
| MainLoop.ReadExactlyWhenDue | src/w1retap.c:568-657 | The timetable lemma behind it, for the log of any loop whose passes read what is due: read exactly at the multiples of the interval. |
| Validate.SensorCell.W1Validate | src/w1sensors.c:156-225 | The updates in place, test after test, make exactly the filtered sensor state, and the result is its valid flag. |
| Validate.AcceptedIff | src/w1sensors.c:156-225 | With a later time a reading is accepted if and only if it is in range, within the rate since the last accepted one, and not below it for a rain counter; it is then kept unchanged. |
| Validate.RejectedKeeps | src/w1sensors.c:162-222 | A rejected reading leaves last value and time alone, and the last accepted value is shown instead. |
| Validate.RejectedIs | src/w1sensors.c:162-222 | With bounds that the last accepted value meets, a rejected reading shows that value, or before there is one the bound it broke; the reason is range before rate before order, which leaves none. |
| Validate.RunBounded | src/w1sensors.c:156-225 | Over any run with increasing times all accepted values are in range, any two of them obey the rate between them, and counters never fall. |
| Validate.AcceptedFromLast | src/w1sensors.c:156-225 | The same against the last value accepted before the run. |
| Validate.RateNotCheckedIff | src/w1sensors.c:178-181 | At or before the last accepted time a reading is accepted whenever range and order allow, whatever its rate. |
| Validate.RateHeldIff | src/w1sensors.c:174-193 | An accepted reading obeys the rate against the last accepted one always at a later time, at the same time if and only if it repeats the value, and before it if and only if it also repeats the value and the rate allowed is zero. |
| Validate.SameTimeEscapes | src/w1sensors.c:178-181 | Without increasing times the rate bound over a run fails. |
| ShaEE.ComputeSHAEE | src/libusblinux300/ibsha33o.c:836-869 | A to E are the working variables of SHA-1 after its eighty rounds on the block. |
| Sha1.KIsRoot | src/libusblinux300/ibsha33o.c:873-883 | The four constants are the integer parts of 2^30 times the square roots of 2, 3, 5 and 10. |
| Sha1.StartIsCount | src/libusblinux300/ibsha33o.c:854-858 | The initial words are the counting bytes of the standard, least significant first. |
| ShaExample.DigestOfAbc | src/libusblinux300/ibsha33o.c:836-869 | The digest of "abc", padding, schedule and eighty rounds included, is a9993e36 4706816a ba3e2571 7850c26c 9cd0d89d. |
| ShaEE.NlfIsF | src/libusblinux300/ibsha33o.c:886-896 | The OR forms are the Ch, Parity and Maj functions of the standard. |
| ShaEE.Rotations | src/libusblinux300/ibsha33o.c:847-865 | The masked shifts are rotations by 1, 5 and 30, also where the right shift is arithmetic. |
| ShaEE.AddOrder | src/libusblinux300/ibsha33o.c:863-863 | The order in which the code adds its five terms gives the sum of the standard modulo 2^32. |
| ShaEE.BuildBlock | src/libusblinux300/ibsha33o.c:311-342 | The 64 bytes are the standard padding of the 55-byte message. |
| ShaEE.MessageLayout | src/libusblinux300/ibsha33o.c:311-342 | Where the two halves of the secret, the page, the scratchpad, the page number and the serial number stand in it. |
| ShaEE.AddingStartGivesDigest | src/libusblinux300/ibsha33o.c:836-869 | For any message that fits one block, as the 55 bytes do, adding the initial hash words to the five results gives its SHA-1 digest. |
| ShaEE.Mac | src/libusblinux300/ibsha33o.c:311-345 | Block layout and compression together: the digest of secret, memory, scratchpad, page and serial number. |

## Left out

- USB and serial transport, resets, `owAccess`, overdrive and timing: abstract steps that may fail. A fault-free adapter is assumed to answer as its devices make it, with eight bytes only exactly if no marked bit was taken as 0; the reply of the DS2490 firmware itself is not part of this model. A reply has sixteen bytes of buffer whatever its length.
- The extra reset for DS1994 and DS2404 devices in `owNext`: it has no effect on the search state.
- `owSkipFamily`: the family discrepancy it uses is never set to anything but zero.
- A bus whose devices change during a search, and devices that disturb each other.
- JibRecv.Receiver.RecvCiBMessage: does not model the Java-powered mode (status 14, which strips three bytes of every segment); the device is required never to report it. `rounds` bounds how many rounds of an attempt are watched, because a device may deliver segments numbered 0 for ever; a call that does not end within them is reported as unfinished, and one that does ends the same way with any larger bound (CallLonger). Waits are not modelled.
- JibRecv.Receiver.constructor: the CRC tables are set up. In the code only SendCiBMessage does that; a receiver used before any message was sent would work on empty tables.
- The packets of GetStatus, SendStatus, SendRun and the release sequence: a device gives their results as functions of the number of the exchange, which is all that a run can depend on.
- JibSend.SendCiBMessage: one run without transfer errors. Status polling, execution times, and the retries, in which the sender adds header bytes to its checksum again, are left out; so are the CRC answers and release sequences of the device.
- JibSend.SendHeader: no retry, for the same reason.
- Coupler.PerformExact: couplers beyond the 64 branch entries, which get no switch state, are taken to be off, since no command ever reaches them.
- ReadPass.ReadDevice: the passes are made with obedient switches; what others do is stated for one selection and for runs of operations.
- The coupler command itself (`swt1f.c`) and how branches are read from the configuration.
- ReadPass.ReadAllSensors: what a reading function does after the selection (conversions, validation, and the bus traffic of both) is a number of valid values per attempt.
- Intervals.W1Lcm: a candidate that overflows an int is undefined in C; the method reports it and stops.
- MainLoop.Watch: the pass at start-up, before the first sleep, and passes forced by a signal are left out; their time is zero, so they would read every device.
- Timetable.TimedPasses: a sleep that is not interrupted is taken to end on time. Reconfiguration by signal, which may change the delay, the forced reading pass it may interrupt, and the fallback that sleeps 200 ms past the second are left out.
- Validate.Checked: values are real numbers; the rounding of float is not modelled.
- ShaEE.AddOrder: the code adds signed ints, and where a sum exceeds their range C leaves the result undefined; the model takes all sums modulo 2^32, as a two's complement machine does.
- Sensor conversions, humidity and pressure formulas, clocks and mission logs: small or floating-point, and independent of the state modelled here.
- Configuration parsing, plugins, loggers, user interfaces and everything under `contrib`.
- The MAC that `CopyScratchSHAEE` sends is made of the words of ComputeSHAEE byte by byte; that packet is left out.
