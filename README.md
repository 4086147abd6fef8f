# LV8548 stepper-driver frames, modelled in Dafny

This project models the MakeCode extension `pxt-lv8548step` (file `main.ts`). The
extension drives an LV8548 stepper-motor driver over a serial line. It has two parts:

- `int2ieee754` packs a signed integer into a binary32 bit pattern of IEEE 754-2008.
  It does this with JavaScript bit operators only. It scans for the top set bit, moves
  the magnitude so that bit lands on bit 23, masks 23 fraction bits (truncating), adds a
  biased exponent and ORs in the sign.
- The `lv8548step` namespace builds the command frames. Each builder allocates a byte
  buffer, writes the header `A5 <class> <flag> <opcode>` (just `A5 FE 01` for init) and then the payload. Payload
  fields are 4-byte little-endian words, written by a loop over `(x >> i * 8) & 0xFF`,
  plus raw enum bytes.

Files:

- `js_number.dfy` (module `JsNumber`) states JavaScript's 32-bit view of `number` on
  unbounded integers: ToInt32, ToUint32, `&`, `|`, `<<` and `>>` as ECMA-262 (2015
  edition) defines them in sections 7.1.5, 7.1.6, 12.8 and 12.11. Its lemmas give the identities the code relies on: a low mask
  is a remainder, `(1 << i) & x` tests bit i, and an OR of disjoint fields is a sum.
- `binary32.dfy` (module `Binary32`) states the binary32 layout: sign, biased exponent,
  trailing significand, and what a pattern stands for.
- `float_encoder.dfy` (module `FloatEncoder`) holds `int2ieee754` as imperative methods:
  the bit scan with its `break`, the shift-and-mask branch, the exponent field and the
  final OR. Each method is proved against an arithmetic specification.
- `frames.dfy` (module `Frames`) gives the wire format: bytes, little-endian fields, the
  enums `RotorDir` and `Excitation`, a `Command` datatype, its encoder `Encode` and a
  receiver-side `Parse`, which are proved inverse.
- `lv8548step.dfy` (module `Lv8548Step`) holds the `StepAngleFixed` enum and the
  seven frame builders. Each builder fills a fresh `array<UInt8>` as `main.ts` does and
  returns its contents. The module also relates the step-angle table to the angles it
  names.

JavaScript numbers are modelled as mathematical integers. Every operator works on
the same 32-bit patterns as ECMA-262's: `&` and `|` take ToUint32 of their operands
where the standard takes ToInt32, which gives the same bits and the same result. So wrap-around of `freq`, of the
extents and of `1 << 31` is explicit, and the model does not rely on Dafny bit-vectors.

## Model

| member | source | states |
|---|---|---|
| JsNumber.ToUint32 | main.ts:43-59 | the result lies in [0, 2^32) and is congruent to x modulo 2^32 |
| JsNumber.ToInt32 | main.ts:43-59 | the result is an int32 with the same 32-bit pattern as x, and x itself when x is an int32 |
| JsNumber.JsAnd | main.ts:47 | `x & y` is an int32; JsAndSingleBit and JsShlMask state which bits it keeps |
| JsNumber.JsOr | main.ts:59 | `x \| y` is an int32; JsOrDisjoint states that on disjoint fields it is their sum |
| JsNumber.JsShl | main.ts:43 | `x << n` is an int32; ShlOne and JsShlMask state its pattern |
| JsNumber.JsShr | main.ts:56 | `x >> n` is an int32; JsShrMask and Frames.ShiftedByte state which bits it leaves |
| JsNumber.ShlOne | main.ts:43 | `1 << i` is the pattern 2^i for i in 0..31; for i = 31 this is the sign bit |
| JsNumber.JsAndSingleBit | main.ts:47 | `(1 << i) & x` is nonzero exactly when bit i of x's 32-bit pattern is set |
| JsNumber.JsShlMask | main.ts:54 | `(x << s) & (2^k - 1)` is x * 2^s modulo 2^k |
| JsNumber.JsShrMask | main.ts:56 | `(x >> s) & (2^k - 1)` is bits s .. s+k-1 of x's 32-bit pattern, for negative x too |
| JsNumber.JsOrDisjoint | main.ts:59 | OR of a pattern whose low k bits are clear with a value below 2^k is their sum |
| JsNumber.Int32Sign | main.ts:60 | an int32 result is negative exactly when bit 31 of its pattern is set, and zero exactly when the pattern is 0 |
| Binary32.PackFields | main.ts:58-59 | sign, biased exponent and fraction laid side by side read back as the same three fields |
| Binary32.SignBitIsTop | main.ts:43 | the sign field is 1 exactly for patterns from 2^31 up |
| FloatEncoder.Magnitude | main.ts:44 | the magnitude is val or -val, whichever is not negative, and is at least both |
| FloatEncoder.FractionField | main.ts:53-57 | the fraction field is below 2^23 |
| FloatEncoder.FindMsb | main.ts:45-51 | the scan from bit 31 down ends at the top set bit: 2^msb <= magnitude < 2^(msb+1); it leaves msb at 0 when no bit is set |
| FloatEncoder.AlignFraction | main.ts:52-57 | both the left-shift and the right-shift branch give the 23 bits below the leading 1, with lower bits dropped |
| FloatEncoder.ExponentField | main.ts:58 | `(c & 0xFF) << 23` is c * 2^23 for c in 0..255 |
| FloatEncoder.Int2Ieee754 | main.ts:39-61 | the result is an int32 whose pattern is the sign, biased exponent msb + 104 and 23-bit fraction; 0 gives 0 |
| FloatEncoder.Int2Ieee754Corrected | main.ts:39-61 | the same steps with biased exponent msb + 127 give the binary32 pattern of the input truncated toward zero |
| FloatEncoder.ResultSign | main.ts:40-44 | the result is negative exactly for a negative input and zero exactly for zero, in both versions |
| FloatEncoder.NegationSetsSignBit | main.ts:43-44 | for 0 < v < 2^31 the pattern of -v is the pattern of v plus bit 31 |
| FloatEncoder.AsWrittenFields | main.ts:52-58 | the computed pattern has the input's sign, biased exponent msb + 104 and the fraction below the top bit |
| FloatEncoder.TruncatedFields | main.ts:52-58 | with biased exponent msb + 127 the fields are the sign, msb + 127 and the fraction below the top bit |
| FloatEncoder.NormalizedSignificand | main.ts:53-57 | 2^23 plus the fraction lies in [2^23, 2^24) and is the magnitude shifted so that its top bit is bit 23 |
| FloatEncoder.TruncatedExact | main.ts:53-54 | below 2^24 the corrected pattern stands exactly for the input |
| FloatEncoder.TruncatedRoundsDown | main.ts:55-56 | from 2^23 up the corrected pattern is the magnitude rounded toward zero: S * 2^e <= abs(val) < (S + 1) * 2^e |
| FloatEncoder.AsWrittenScaled | main.ts:52-58 | below 2^24 the computed pattern stands exactly for val / 2^23 |
| FloatEncoder.AsWrittenExponentOffset | main.ts:58 | the computed pattern is the corrected one minus 23 in the exponent field |
| FloatEncoder.AsWrittenCounterexample | main.ts:58 | int2ieee754(1) is 0x34000000 rather than 0x3F800000, and int2ieee754(15) is 0x35F00000 rather than 0x41700000 |
| FloatEncoder.TruncatedValues | main.ts:39-61 | the corrected encodings of 18 and -1 are 0x41900000 and 0xBF800000 |
| FloatEncoder.TruncatedMinInt | main.ts:43-44 | for -2^31, whose negation only fits as an unsigned pattern, the corrected encoder gives 0xCF000000 (exactly -2^31); int2ieee754 as written gives 0xC3800000 |
| Frames.RotorDirCode | main.ts:18-23 | ClockWise is byte 0 and CounterClockWise byte 1, and no other byte |
| Frames.ExcitationCode | main.ts:25-30 | FullStep is byte 0 and HalfStep byte 1, and no other byte |
| Frames.Encode | main.ts:75-195 | every frame starts with A5; class FE only for init; flag 05 for the step angle and 03 for rotation, hold and free; lengths 3, 8, 14 and 4 |
| Frames.Le32 | main.ts:114-116 | a 32-bit field is four bytes |
| Frames.FromLe32 | main.ts:128-130 | the sum of byte[i] << 8i over four bytes is below 2^32 |
| Frames.ShiftedByte | main.ts:115 | `(x >> i * 8) & 0xFF` is byte i of x's little-endian pattern, for negative x too |
| Frames.Le32RoundTrip | main.ts:128-133 | reading the four bytes back gives x modulo 2^32 |
| Frames.Le32SignedRoundTrip | main.ts:128-133 | read back as a signed 32-bit value, the four bytes give every int32 x unchanged |
| Frames.FromLe32RoundTrip | main.ts:128-130 | any four bytes read as a word and written again are the same bytes |
| Frames.Le32OfUint32 | main.ts:128-130 | the bytes of x depend only on x modulo 2^32 |
| Frames.RotorDirOf | main.ts:18-23 | bytes 0 and 1 are exactly the RotorDir codes, and each is read back as its member |
| Frames.ExcitationOf | main.ts:25-30 | bytes 0 and 1 are exactly the Excitation codes, and each is read back as its member |
| Frames.RotationOpcode | main.ts:127 | each rotation kind has an opcode in 6A..6C, 6A exactly for degrees and 6C exactly for steps |
| Frames.RotationKindOf | main.ts:127 | 6A, 6B and 6C are exactly the rotation opcodes, and each is read back as its kind |
| Frames.ParseEncode | main.ts:75-195 | every well-formed command is read back from its frame |
| Frames.ParseStepAngle | main.ts:85-116 | the step-angle frame of any 32-bit pattern is read back as that pattern |
| Frames.ParseRotation | main.ts:123-135 | a rotation frame is read back as its kind, freq, extent, direction and excitation |
| Frames.EncodeParse | main.ts:75-195 | every frame the receiver accepts is exactly the frame of the command it reads |
| Lv8548Step.StepAngleCode | main.ts:1-16 | every member's number lies in 0..6 and is never 2; it is 3 exactly for StepAngle3p6 and StepAngle3p75 |
| Lv8548Step.StepAnglePattern | main.ts:90-113 | the switch leaves 0 exactly for a selector outside 0..6; each case writes a positive binary32 pattern with biased exponent 126..131 |
| Lv8548Step.PutLe32 | main.ts:114-116 | the loop writes the four little-endian bytes of x at the offset and changes no other byte |
| Lv8548Step.Init | main.ts:75-79 | the init frame is exactly `A5 FE 01` and is read back as the stepper-mode command |
| Lv8548Step.SetStepAngle | main.ts:84-116 | 8 bytes; header `A5 FF 05 69`; bytes 4-7 are the selected table pattern, little-endian; all zero for a selector outside 0..6 |
| Lv8548Step.StepAnglePayload | main.ts:114-116 | a header followed by the pattern's bytes is 8 bytes long, is zero for selectors outside 0..6 and reads back as the pattern |
| Lv8548Step.MotorRotation | main.ts:123-135 | 14 bytes; header `A5 FF 03` and the opcode; freq and the extent little-endian in bytes 4-11; byte 12 is cwccw and byte 13 is exc |
| Lv8548Step.RotationPayload | main.ts:123-135 | those fourteen bytes are the frame of the rotation command with freq and the extent taken modulo 2^32 |
| Lv8548Step.MotorRotationDeg | main.ts:121-137 | 14 bytes with header `A5 FF 03 6A`: the frame of a rotation by degrees |
| Lv8548Step.MotorRotationTime | main.ts:140-156 | 14 bytes with header `A5 FF 03 6B`: the frame of a rotation for a time |
| Lv8548Step.MotorRotationStep | main.ts:159-175 | 14 bytes with header `A5 FF 03 6C`: the frame of a rotation by steps |
| Lv8548Step.MotorRotationHold | main.ts:178-185 | the hold frame is exactly `A5 FF 03 6E` and is read back as Hold |
| Lv8548Step.MotorRotationFree | main.ts:188-195 | the free frame is exactly `A5 FF 03 6F` and is read back as Free |
| Lv8548Step.RotationFields | main.ts:128-135 | bytes 4-7 and 8-11 read back as freq and the extent modulo 2^32, and unchanged when they are int32; the frame parses back |
| Lv8548Step.StepAngleFrameParses | main.ts:114-116 | the step-angle frame reads back as the selected table pattern |
| Lv8548Step.Case2Unreachable | main.ts:91-103 | no member of StepAngleFixed selects case 2 (0x40666666); 3.6 and 3.75 select the same case |
| Lv8548Step.TableTruncatesAngles | main.ts:91-113 | each case's pattern is its angle rounded toward zero to binary32; 3.75, 7.5, 15 and 18 are exact |
| Lv8548Step.TableMatchesEncoder | main.ts:107-111 | the table's patterns for 15 and 18 are what the corrected encoder gives, and the one for 15 is not what int2ieee754 gives |
| Lv8548Step.StepAngle3p6Misencoded | main.ts:6-9 | StepAngle3p6 selects the pattern of 3.75 degrees, which is not 3.6 rounded toward zero; every other member selects its own angle |
| Lv8548Step.CorrectedCodesFaithful | main.ts:98-103 | with 3.6 on case 2 every member selects the pattern of its own angle, and distinct members select distinct cases |

## Left out

- `serial.redirect`, `basic.pause` and `serial.writeBuffer` are transport and timing I/O. Each builder returns the bytes it would hand to `serial.writeBuffer`. `init`'s `tx` and `rx` only reach `serial.redirect` and are not parameters here.
- `pins.createBuffer` and `Buffer.setNumber(NumberFormat.UInt8LE, …)` are a fresh `array<UInt8>` and element assignments. Every value the source writes is already in 0..255, so UInt8 truncation never applies.
- The `//%` block-editor annotations and the unused `ON_OFF_Flag` enum carry no behaviour.
- JavaScript `number` is modelled on integers. Fractional, NaN and infinite arguments, which ToInt32 would truncate or send to 0, are not modelled.
- Lv8548Step.MotorRotation: `cwccw` and `exc` are the enum datatypes, so a caller-forced number outside 0..1, which `setNumber` would truncate to a byte, is not modelled.
- FloatEncoder.Int2Ieee754: takes only int32 inputs. Beyond that range the scan and the shifts see just the low 32 bits of the magnitude, while `-val` and the sign test see the whole number. That mix is not modelled.
- Lv8548Step.SetStepAngle: takes the selector as the integer the enum stands for, as the `switch` compares numbers. `StepAngleCode` gives each member's number.
- Nothing in `main.ts` calls `int2ieee754`: the step-angle table holds precomputed patterns. The encoder is modelled on its own and related to the table by lemmas.
- Lv8548Step.TableTruncatesAngles: states rounding toward zero. For the seven entries this is also round-to-nearest, since each discarded remainder is below half a unit; that is not stated.

## Findings

| source | as written | input that shows it | evidently intended | confidence | as-written member | corrected member |
|---|---|---|---|---|---|---|
| main.ts:52-58 | the biased exponent is `(msb - 23) + 127`, so the pattern stands for val / 2^23 | val = 1 gives 0x34000000 (2^-23); val = 15 gives 0x35F00000, while the table holds 0x41700000 for 15 | biased exponent `msb + 127`, giving 0x3F800000 for 1 and 0x41700000 for 15 | high; not executed | FloatEncoder.AsWrittenCounterexample | FloatEncoder.Int2Ieee754Corrected |
| main.ts:6-9 | `StepAngle3p6 = 3`, the same number as `StepAngle3p75` | StepAngle3p6 selects case 3 and sends 0x40700000 (3.75 degrees); case 2 (0x40666666, 3.6 degrees) is dead | `StepAngle3p6 = 2`, selecting case 2 | medium (the vendor's table is not part of this model); not executed | Lv8548Step.StepAngle3p6Misencoded | Lv8548Step.CorrectedCodesFaithful |

An encoder of binary32 is expected to give 0x3F800000 for 1. The code as written gives
0x34000000 (first row), and the model follows the code: `Int2Ieee754` is what
`main.ts` computes. The builders use the table exactly as written, duplicate selector
included. The corrected members state what the evidently intended code would do.
