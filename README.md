# SGP30 command framing, modelled in Dafny

This project models the command/response framing of a MakeCode driver for the
Sensirion SGP30 air-quality sensor. Every sensor operation goes through one
transceiver. It writes a command buffer to the device at I2C address 0x58 and
pauses for a settle time. When words are expected, it reads three bytes per word,
checks each (high, low, crc) group with the Sensirion CRC-8 and assembles
big-endian 16-bit words. The first checksum mismatch yields the sentinel `[-1]`.
The setters send each 16-bit value the same way, as high byte, low byte and
checksum.

Modules:

- `Js` (js.dfy): the JavaScript number semantics the driver relies on. These are ToUint8
  (storing a number into a byte buffer), ToInt32 and the 32-bit pattern
  that bitwise operators see, `x >> 8`, `x & 0xFF` and `String.fromCharCode`.
- `Crc` (crc.dfy): the CRC-8 (polynomial 0x31, initial value 0xFF, most significant
  bit first, no final XOR) as a fold over bytes with the register masked after
  every step. `GenerateCrc` is the driver's routine with its nested loops. Its register is
  a 32-bit JavaScript value masked only at the end, and it is proved equal to the
  fold.
- `Framing` (framing.dfy): decoding of a reply (`DecodeGroups`, and `ReplyWords`
  with the sentinel), the wire form of a value (`EncodeWord`), and the
  properties of both.
- `I2c` (bus.dfy): the bus as a class that records every write, pause and read in
  order. Each read is answered with a scripted reply.
- `Sgp30` (sgp30.dfy): the command table, `numberArrayToBuffer`, the
  transceiver `_i2c_read_words_from_cmd`, `setIaqBaseline`,
  `setAbsoluteHumidity`, `measureTest` and `getSerialId`.

Three details of the code that the model keeps as written:

- With no reply words expected, the transceiver returns `null` (`Reply.Null`).
- A checksum failure is reported in the data channel as `[-1]`.
  `Framing.SentinelOnlyOnFailure` proves that it still cannot be confused with
  data.
- The `SGP30_CRC8_FINAL_XOR` constant is declared and never applied.
  `Crc.DatasheetCheckValue` shows that the checksum of 0xBE 0xEF as computed is
  the datasheet's 0x92, and that applying the final XOR would break that value.

Two consequences of the code that the model makes explicit:

- A setter given a number outside 0..65535 sends the wire form of its low 16
  bits, with a checksum that matches them (`Sgp30.PayloadTripleOnWire`).
- `getSerialId` after a checksum failure returns the two characters U+FFFF and
  U+00FF. This is the rendering of the sentinel, because `String.fromCharCode`
  reduces -1 to 0xFFFF.

Inputs that are JavaScript numbers are modelled as integers. The bus is a parameter
of each operation (the code uses one global bus). The settle time is recorded as
a `Delay` event instead of being waited out.

## Model

| member | source | states |
|---|---|---|
| `Js.ToUint8` | brickcell-co2-sgp30.ts:71 | a number stored into a byte buffer keeps its value modulo 256 |
| `Js.ToInt32` | brickcell-co2-sgp30.ts:183 | the operand of a bitwise operator is a signed 32-bit value congruent to the number modulo 2^32 |
| `Js.ShiftRight8` | brickcell-co2-sgp30.ts:183 | `v >> 8` (also at lines 204 and 272) lies in the signed 24-bit range, and on a signed 32-bit value it is division by 256 rounded down, so -1 stays -1 |
| `Js.LowByte` | brickcell-co2-sgp30.ts:183 | `v & 0xFF` (also at lines 204 and 272) lies in 0..255, differs from v by a multiple of 256 and leaves a byte unchanged |
| `Js.ShiftRight8Byte` | brickcell-co2-sgp30.ts:183-185 | the byte the buffer keeps of `v >> 8` is the high byte of the low 16 bits of v, for every integer v |
| `Js.FromCharCode` | brickcell-co2-sgp30.ts:272 | `String.fromCharCode` gives the code unit of its argument modulo 65536 |
| `Js.ToUint8OfByte` | brickcell-co2-sgp30.ts:112-115 | a byte read from the bus and passed to the checksum as a number is unchanged by it |
| `Js.Bits32LowByte` | brickcell-co2-sgp30.ts:80 | the low byte of the 32-bit pattern XORed into the register is the input's low byte |
| `Crc.ShiftMulX` | brickcell-co2-sgp30.ts:81-87 | one bit step of the register (`Shift`) multiplies it by x modulo the generator x^8 + x^5 + x^4 + 1 (0x131); `ShiftN` repeats the step and `ByteStep` (lines 80-87) XORs one byte in and then takes eight steps |
| `Crc.ShiftNXor` | brickcell-co2-sgp30.ts:81-87 | any number of bit steps is linear: the steps of an XOR are the XOR of the steps |
| `Crc.ShiftNAdd` | brickcell-co2-sgp30.ts:81-87 | m bit steps followed by n bit steps are m + n bit steps |
| `Crc.CrcFromAffine` | brickcell-co2-sgp30.ts:77-90 | `CrcFrom` folds one byte step per byte, and `Crc8` is that fold from 0xFF; from any starting register, the register after some data is the start's contribution XOR the data's contribution from zero, so the checksum is affine in the data |
| `Crc.Crc8OfWord` | brickcell-co2-sgp30.ts:79-88 | the checksum of a two-byte word is one byte step from 0xFF for each byte, high byte first |
| `Crc.CrcFromSnoc` | brickcell-co2-sgp30.ts:79-88 | each further input byte takes the register one byte step (XOR, then eight shifts) further |
| `Crc.DatasheetCheckValue` | brickcell-co2-sgp30.ts:6-8 | the checksum of 0xBE 0xEF is 0x92, and would not be with the unused final XOR 0xFF applied |
| `Crc.ShiftNInjective` | brickcell-co2-sgp30.ts:81-87 | the eight shift/XOR-0x31 steps map distinct registers to distinct registers |
| `Crc.ByteStepInjective` | brickcell-co2-sgp30.ts:79-88 | one byte step is one-to-one in the register and in the input byte |
| `Crc.Crc8DetectsByteError` | brickcell-co2-sgp30.ts:76-91 | changing exactly one byte of a word (every single-bit error included) changes its checksum |
| `Crc.Shift32Low` | brickcell-co2-sgp30.ts:82-86 | the low byte of the unmasked 32-bit register after a shift step is the masked step of its low byte |
| `Crc.Xor32Low` | brickcell-co2-sgp30.ts:80 | the low byte of an XOR is the XOR of the low bytes |
| `Crc.GenerateCrc` | brickcell-co2-sgp30.ts:76-91 | the result lies in 0..255 and equals the per-step-masked CRC-8 fold from 0xFF over the inputs' low bytes, so masking once at the end is the same as masking at every step |
| `Framing.GroupValid` | brickcell-co2-sgp30.ts:112-115 | group i of a reply passes the check `generateCrc(word) !== crc` exactly when, taken on its own, it decodes to its word |
| `Framing.Word` | brickcell-co2-sgp30.ts:119 | a word assembled from two bytes lies in 0..65535 |
| `Framing.DecodeGroups` | brickcell-co2-sgp30.ts:111-122 | every word of a successful decode lies in 0..65535 |
| `Framing.ReplyWords` | brickcell-co2-sgp30.ts:108-122 | every number the transceiver returns for a reply lies in -1..65535 |
| `Framing.EncodeWords` | brickcell-co2-sgp30.ts:179-186 | n values travel as 3n bytes |
| `Framing.DecodeSucceedsIff` | brickcell-co2-sgp30.ts:111-120 | a reply decodes if and only if every group's third byte is the checksum of its first two |
| `Framing.DecodedWords` | brickcell-co2-sgp30.ts:111-122 | a successful decode has exactly one word per group, word i being bytes[3i]*256 + bytes[3i+1] |
| `Framing.MismatchRejectsReply` | brickcell-co2-sgp30.ts:115-117 | one bad group anywhere makes the result exactly `[-1]`, however valid the other groups are |
| `Framing.SentinelOnlyOnFailure` | brickcell-co2-sgp30.ts:115-122 | the result is `[-1]` if and only if some checksum failed, since successful words lie in 0..65535 |
| `Framing.SingleWordReply` | brickcell-co2-sgp30.ts:111-122 | a one-word reply gives that word if its group checks out, `[-1]` otherwise |
| `Framing.WordRoundTrip` | brickcell-co2-sgp30.ts:112-119 | the triple [v >> 8, v & 0xFF, crc] of any v in 0..65535 decodes back to the single word v |
| `Framing.EncodedGroup` | brickcell-co2-sgp30.ts:183-184 | the triple of a value carries the checksum of its two bytes and reassembles to the value |
| `Framing.WordsRoundTrip` | brickcell-co2-sgp30.ts:108-122 | the encoding of any list of 16-bit values decodes back to that list |
| `Framing.CorruptedTripleRejected` | brickcell-co2-sgp30.ts:112-117 | any change confined to one byte of a valid triple, a flipped bit included, is rejected |
| `I2c.Fit` | brickcell-co2-sgp30.ts:108 | a read delivers exactly the requested number of bytes |
| `I2c.Bus.WriteBuffer` | brickcell-co2-sgp30.ts:99 | a write appends one write event carrying the buffer's bytes to the bus log |
| `I2c.Bus.Pause` | brickcell-co2-sgp30.ts:102 | a pause appends one delay event to the bus log |
| `I2c.Bus.ReadBuffer` | brickcell-co2-sgp30.ts:108 | a read appends one read event and returns a fresh buffer of the requested length |
| `Sgp30.CommandTable` | brickcell-co2-sgp30.ts:12-49 | every opcode of the command table is two bytes, no command expects more than three reply words, and initialisation and the setters expect none |
| `Sgp30.OpcodesDistinct` | brickcell-co2-sgp30.ts:12-49 | no two commands of the table share an opcode |
| `Sgp30.PayloadTriple` | brickcell-co2-sgp30.ts:183-184 | a setter's numbers `[v >> 8, v & 0xFF, generateCrc(...)]` for a value v are three, the last two bytes, and for v in 0..65535 the first two are its high and low byte |
| `Sgp30.Payload` | brickcell-co2-sgp30.ts:182-186 | the `for-of` loop's concatenation holds three numbers per value, triple i being the triple of value i |
| `Sgp30.Wrap16` | brickcell-co2-sgp30.ts:183 | each value is reduced to its low 16 bits |
| `Sgp30.ToUint8sAppend` | brickcell-co2-sgp30.ts:189 | converting a concatenation of numbers to bytes converts each part |
| `Sgp30.PayloadTripleOnWire` | brickcell-co2-sgp30.ts:183-185 | the bytes a setter sends for any number v are the wire triple of v's low 16 bits, checksum included |
| `Sgp30.PayloadOnWire` | brickcell-co2-sgp30.ts:179-186 | the payload of several values, as bytes, is the wire encoding of their low 16 bits in the given order |
| `Sgp30.BaselineFrame` | brickcell-co2-sgp30.ts:179-189 | the baseline command is [0x20, 0x1E], then the TVOC triple, then the CO2eq triple, 8 bytes in all |
| `Sgp30.HumidityFrame` | brickcell-co2-sgp30.ts:203-209 | the humidity command is [0x20, 0x61] followed by one humidity triple |
| `Sgp30.CharPair` | brickcell-co2-sgp30.ts:272 | `String.fromCharCode(word >> 8) + String.fromCharCode(word & 0xFF)` is two characters: the high and low byte of a 16-bit word, or U+FFFF and U+00FF for the sentinel -1 |
| `Sgp30.RenderSerial` | brickcell-co2-sgp30.ts:272 | `serial.map(...).join('')` renders n words as 2n characters |
| `Sgp30.RenderSerialChars` | brickcell-co2-sgp30.ts:272 | 16-bit words render as two characters each, the high byte's code then the low byte's, in word order |
| `Sgp30.SerialIdOfReply` | brickcell-co2-sgp30.ts:265-273 | a valid three-word reply renders as six characters, the reply's data bytes in wire order; a failed one as U+FFFF U+00FF |
| `Sgp30.NumberArrayToBuffer` | brickcell-co2-sgp30.ts:68-74 | a fresh buffer holding each number of the array modulo 256 |
| `Sgp30.CheckReply` | brickcell-co2-sgp30.ts:109-122 | the reply loop returns exactly the decoded words, or `[-1]` on the first mismatch |
| `Sgp30.ReadWordsFromCmd` | brickcell-co2-sgp30.ts:94-123 | the command is written, then the pause happens; with 0 words nothing is read and `null` (`Reply.Null`: the declared `number[]` result also carries `null`) is returned; otherwise exactly 3n bytes are read, after the pause, and their decoding is returned |
| `Sgp30.SetIaqBaseline` | brickcell-co2-sgp30.ts:174-193 | (0, 0) returns `[-1]` and leaves the bus untouched; otherwise writes opcode, TVOC triple, CO2eq triple, pauses 10 ms, reads nothing and returns `null` |
| `Sgp30.SetAbsoluteHumidity` | brickcell-co2-sgp30.ts:202-213 | writes opcode and one humidity triple (5 bytes), pauses 10 ms, reads nothing and returns `null` |
| `Sgp30.MeasureTest` | brickcell-co2-sgp30.ts:220-228 | sends 0x20 0x32, pauses 220 ms, reads 3 bytes and returns the word they carry, or -1 on a checksum failure |
| `Sgp30.GetSerialId` | brickcell-co2-sgp30.ts:265-273 | sends 0x36 0x82, pauses 10 ms, reads 9 bytes; yields the six data bytes as characters, or U+FFFF U+00FF on a checksum failure |

## Left out

- `convertRelativeToAbsoluteHumidity`: floating-point arithmetic (`Math.exp`, `%` and `Math.floor` on fractions) is outside the model.
- `getRegister` and `setRegister`: single-byte bus wrappers that nothing calls.
- `iaqInit`, `measureIaq`, `getIaqBaseline`, `getFeatureSet`, `measureRaw`, `co2eq`, `tvoc`, `baseline_tvoc`, `raw_h2`, `raw_ethanol`: each is one transceiver call with a constant from the command table, or an index into one. The command table itself is modelled (`Sgp30.Command` constants).
- `baseline_co2eq`: it indexes the `null` that `setIaqBaseline` returns unless both readings are 0, which faults at run time.
- The real bus and timing: `pins.i2cWriteBuffer`, `pins.i2cReadBuffer` and `basic.pause` are modelled by the recording `I2c.Bus`. A read is answered from a scripted reply, cut to size or padded with 0xFF, rather than by a device.
- Numbers that are not integers: every numeric input is an integer in the model.
- `Js.FromCharCode`: code units that are UTF-16 surrogate halves are not Dafny characters, so it requires that its argument avoid them. Every call the driver makes satisfies this.
- The block-programming annotations (`//%` comments): user-interface metadata.
