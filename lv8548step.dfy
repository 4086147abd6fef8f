/** The lv8548step namespace of main.ts: the frames the micro:bit sends to an
    LV8548 stepper driver. Each builder allocates a buffer, writes the header
    and the payload byte by byte, and hands the buffer to the serial port;
    here it returns the bytes it would hand over. */
module Lv8548Step {
  import opened JsNumber
  import opened Binary32
  import opened FloatEncoder
  import opened Frames

  // ---------------------------------------------------------------------
  // The step-angle selector

  /** The step angles offered to the user. */
  datatype StepAngleFixed =
    | StepAngle0p9 | StepAngle1p8 | StepAngle3p6 | StepAngle3p75
    | StepAngle7p5 | StepAngle15 | StepAngle18

  /** The number each member stands for, as declared: 3.6 and 3.75 are both 3. */
  function StepAngleCode(a: StepAngleFixed): (c: int)
    ensures 0 <= c <= 6 && c != 2
    ensures c == 3 <==> a == StepAngle3p6 || a == StepAngle3p75
  {
    match a
    case StepAngle0p9 => 0
    case StepAngle1p8 => 1
    case StepAngle3p6 => 3
    case StepAngle3p75 => 3
    case StepAngle7p5 => 4
    case StepAngle15 => 5
    case StepAngle18 => 6
  }

  /** The switch of setStepAngle: the binary32 pattern sent for each selector,
      0 for a selector no case matches. */
  function StepAnglePattern(deg: int): (p: nat)
    ensures p == 0 <==> !(0 <= deg <= 6)
    ensures p != 0 ==> IsPattern(p) && SignBit(p) == 0 && 126 <= BiasedExponent(p) <= 131
  {
    if deg == 0 then 0x3F66_6666
    else if deg == 1 then 0x3FE6_6666
    else if deg == 2 then 0x4066_6666
    else if deg == 3 then 0x4070_0000
    else if deg == 4 then 0x40F0_0000
    else if deg == 5 then 0x4170_0000
    else if deg == 6 then 0x4190_0000
    else 0
  }

  /** A step angle in degrees, num / den. */
  datatype Ratio = Ratio(num: nat, den: nat)

  /** The angle in each member's label. */
  function NominalAngle(a: StepAngleFixed): Ratio {
    match a
    case StepAngle0p9 => Ratio(9, 10)
    case StepAngle1p8 => Ratio(9, 5)
    case StepAngle3p6 => Ratio(18, 5)
    case StepAngle3p75 => Ratio(15, 4)
    case StepAngle7p5 => Ratio(15, 2)
    case StepAngle15 => Ratio(15, 1)
    case StepAngle18 => Ratio(18, 1)
  }

  /** The angle whose binary32 pattern each case of the switch writes. */
  function TableAngle(deg: int): Ratio
    requires 0 <= deg <= 6
  {
    if deg == 0 then Ratio(9, 10)
    else if deg == 1 then Ratio(9, 5)
    else if deg == 2 then Ratio(18, 5)
    else if deg == 3 then Ratio(15, 4)
    else if deg == 4 then Ratio(15, 2)
    else if deg == 5 then Ratio(15, 1)
    else Ratio(18, 1)
  }

  /** The selector each member evidently should carry: 3.6 on case 2. */
  function CorrectedStepAngleCode(a: StepAngleFixed): int {
    if a == StepAngle3p6 then 2 else StepAngleCode(a)
  }

  // ---------------------------------------------------------------------
  // The frame builders

  /** The loop `for (i = 0; i < 4; i++) setNumber(UInt8LE, offset + i, (x >> i * 8) & 0xFF)`:
      writes the little-endian bytes of x at offset and leaves the rest of the buffer alone. */
  method PutLe32(bufr: array<UInt8>, offset: nat, x: int)
    requires offset + 4 <= bufr.Length
    modifies bufr
    ensures bufr[..] == old(bufr[..offset]) + Le32(x) + old(bufr[offset + 4..])
  {
    ghost var before := bufr[..];
    for i := 0 to 4
      invariant forall j :: 0 <= j < bufr.Length ==>
        bufr[j] == if offset <= j < offset + i then Le32(x)[j - offset] else before[j]
    {
      ShiftedByte(x, i);
      bufr[offset + i] := JsAnd(JsShr(x, i * 8), 0xFF) as UInt8;
    }
    assert bufr[..] == before[..offset] + Le32(x) + before[offset + 4..];
  }

  /** init: the 3-byte frame that puts the driver in stepper mode. */
  method Init() returns (frame: seq<UInt8>)
    ensures frame == [0xA5, 0xFE, 0x01]
    ensures Parse(frame) == Some(InitStepMode)
  {
    var bufrini := new UInt8[3];
    bufrini[0] := 0xA5;
    bufrini[1] := 0xFE;
    bufrini[2] := 0x01;
    frame := bufrini[..];
  }

  /** setStepAngle: header A5 FF 05 69, then the table pattern little-endian. */
  method SetStepAngle(deg: int) returns (frame: seq<UInt8>)
    ensures |frame| == 8 && frame[..4] == [0xA5, 0xFF, 0x05, 0x69]
    ensures FromLe32(frame[4..]) == StepAnglePattern(deg)
    ensures !(0 <= deg <= 6) ==> frame[4..] == [0, 0, 0, 0]
    ensures frame == Encode(StepAngle(StepAnglePattern(deg)))
  {
    var bufr := new UInt8[8];
    bufr[0] := 0xA5;
    bufr[1] := 0xFF;
    bufr[2] := 0x05;
    bufr[3] := 0x69;
    var fangle := 0x0000_0000;
    match deg {
      case 0 => fangle := 0x3F66_6666;
      case 1 => fangle := 0x3FE6_6666;
      case 2 => fangle := 0x4066_6666;
      case 3 => fangle := 0x4070_0000;
      case 4 => fangle := 0x40F0_0000;
      case 5 => fangle := 0x4170_0000;
      case 6 => fangle := 0x4190_0000;
      case _ =>
    }
    assert fangle == StepAnglePattern(deg);
    PutLe32(bufr, 4, fangle);
    frame := bufr[..];
    StepAnglePayload(deg, frame);
  }

  lemma StepAnglePayload(deg: int, frame: seq<UInt8>)
    requires frame == [0xA5, 0xFF, 0x05, 0x69] + Le32(StepAnglePattern(deg))
    ensures |frame| == 8 && frame[..4] == [0xA5, 0xFF, 0x05, 0x69]
    ensures FromLe32(frame[4..]) == StepAnglePattern(deg)
    ensures !(0 <= deg <= 6) ==> frame[4..] == [0, 0, 0, 0]
    ensures frame == Encode(StepAngle(StepAnglePattern(deg)))
  {
    var p := StepAnglePattern(deg);
    assert frame[4..] == Le32(p);
    Le32RoundTrip(p);
    Uint32OfSmall(p);
  }

  /** The body shared by motorRotationDeg, motorRotationTime and motorRotationStep:
      header A5 FF 03 and the opcode, freq and the extent little-endian, then
      the direction and excitation bytes. */
  method MotorRotation(kind: RotationKind, freq: int, extent: int, cwccw: RotorDir, exc: Excitation)
    returns (frame: seq<UInt8>)
    ensures |frame| == 14 && frame[..4] == [0xA5, 0xFF, 0x03, RotationOpcode(kind)]
    ensures frame[4..8] == Le32(freq) && frame[8..12] == Le32(extent)
    ensures frame[12] == RotorDirCode(cwccw) && frame[13] == ExcitationCode(exc)
    ensures frame == Encode(Rotation(kind, ToUint32(freq), ToUint32(extent), cwccw, exc))
  {
    var bufr := new UInt8[14];
    bufr[0] := 0xA5;
    bufr[1] := 0xFF;
    bufr[2] := 0x03;
    bufr[3] := RotationOpcode(kind);
    PutLe32(bufr, 4, freq);
    PutLe32(bufr, 8, extent);
    bufr[12] := RotorDirCode(cwccw);
    bufr[13] := ExcitationCode(exc);
    frame := bufr[..];
    RotationPayload(kind, freq, extent, cwccw, exc, frame);
  }

  lemma RotationPayload(kind: RotationKind, freq: int, extent: int, cwccw: RotorDir, exc: Excitation,
                        frame: seq<UInt8>)
    requires |frame| == 14 && frame[..4] == [0xA5, 0xFF, 0x03, RotationOpcode(kind)]
    requires frame[4..8] == Le32(freq) && frame[8..12] == Le32(extent)
    requires frame[12] == RotorDirCode(cwccw) && frame[13] == ExcitationCode(exc)
    ensures frame == Encode(Rotation(kind, ToUint32(freq), ToUint32(extent), cwccw, exc))
  {
    Le32OfUint32(freq);
    Le32OfUint32(extent);
    assert frame == frame[..4] + frame[4..8] + frame[8..12] + frame[12..];
  }

  /** motorRotationDeg: opcode 6A, the extent in degrees. */
  method MotorRotationDeg(freq: int, deg: int, cwccw: RotorDir, exc: Excitation) returns (frame: seq<UInt8>)
    ensures |frame| == 14 && frame[..4] == [0xA5, 0xFF, 0x03, 0x6A]
    ensures frame == Encode(Rotation(ByDegree, ToUint32(freq), ToUint32(deg), cwccw, exc))
  {
    frame := MotorRotation(ByDegree, freq, deg, cwccw, exc);
  }

  /** motorRotationTime: opcode 6B, the extent in time units. */
  method MotorRotationTime(freq: int, time: int, cwccw: RotorDir, exc: Excitation) returns (frame: seq<UInt8>)
    ensures |frame| == 14 && frame[..4] == [0xA5, 0xFF, 0x03, 0x6B]
    ensures frame == Encode(Rotation(ByTime, ToUint32(freq), ToUint32(time), cwccw, exc))
  {
    frame := MotorRotation(ByTime, freq, time, cwccw, exc);
  }

  /** motorRotationStep: opcode 6C, the extent in steps. */
  method MotorRotationStep(freq: int, step: int, cwccw: RotorDir, exc: Excitation) returns (frame: seq<UInt8>)
    ensures |frame| == 14 && frame[..4] == [0xA5, 0xFF, 0x03, 0x6C]
    ensures frame == Encode(Rotation(ByStep, ToUint32(freq), ToUint32(step), cwccw, exc))
  {
    frame := MotorRotation(ByStep, freq, step, cwccw, exc);
  }

  /** motorRotationHold: stop and keep the coils energised. */
  method MotorRotationHold() returns (frame: seq<UInt8>)
    ensures frame == [0xA5, 0xFF, 0x03, 0x6E]
    ensures Parse(frame) == Some(Hold)
  {
    var bufr := new UInt8[4];
    bufr[0] := 0xA5;
    bufr[1] := 0xFF;
    bufr[2] := 0x03;
    bufr[3] := 0x6E;
    frame := bufr[..];
  }

  /** motorRotationFree: stop and release the coils. */
  method MotorRotationFree() returns (frame: seq<UInt8>)
    ensures frame == [0xA5, 0xFF, 0x03, 0x6F]
    ensures Parse(frame) == Some(Free)
  {
    var bufr := new UInt8[4];
    bufr[0] := 0xA5;
    bufr[1] := 0xFF;
    bufr[2] := 0x03;
    bufr[3] := 0x6F;
    frame := bufr[..];
  }

  // ---------------------------------------------------------------------
  // What the frames carry

  /** A rotation frame carries freq and the extent modulo 2^32, read back
      unchanged when they are int32, and the two enum bytes. */
  lemma RotationFields(kind: RotationKind, freq: int, extent: int, cwccw: RotorDir, exc: Excitation)
    ensures var frame := Encode(Rotation(kind, ToUint32(freq), ToUint32(extent), cwccw, exc));
      && FromLe32(frame[4..8]) == ToUint32(freq) && FromLe32(frame[8..12]) == ToUint32(extent)
      && (IsInt32(freq) ==> ToInt32(FromLe32(frame[4..8])) == freq)
      && (IsInt32(extent) ==> ToInt32(FromLe32(frame[8..12])) == extent)
      && Parse(frame) == Some(Rotation(kind, ToUint32(freq), ToUint32(extent), cwccw, exc))
  {
    var frame := Encode(Rotation(kind, ToUint32(freq), ToUint32(extent), cwccw, exc));
    Uint32OfSmall(ToUint32(freq));
    Uint32OfSmall(ToUint32(extent));
    assert frame[4..8] == Le32(freq);
    assert frame[8..12] == Le32(extent);
    Le32RoundTrip(freq);
    Le32RoundTrip(extent);
    if IsInt32(freq) {
      Le32SignedRoundTrip(freq);
    }
    if IsInt32(extent) {
      Le32SignedRoundTrip(extent);
    }
    ParseEncode(Rotation(kind, ToUint32(freq), ToUint32(extent), cwccw, exc));
  }

  /** The step-angle frame is read back as the table pattern. */
  lemma StepAngleFrameParses(deg: int)
    ensures Parse(Encode(StepAngle(StepAnglePattern(deg)))) == Some(StepAngle(StepAnglePattern(deg)))
  {
    Uint32OfSmall(StepAnglePattern(deg));
    ParseEncode(StepAngle(StepAnglePattern(deg)));
  }

  /** No named member selects case 2 (0x40666666, 3.6 degrees), and 3.6 and
      3.75 send the same frame. */
  lemma Case2Unreachable(a: StepAngleFixed)
    ensures StepAngleCode(a) != 2 && 0 <= StepAngleCode(a) <= 6
    ensures StepAnglePattern(StepAngleCode(a)) != 0x4066_6666
    ensures StepAngleCode(StepAngle3p6) == StepAngleCode(StepAngle3p75)
  {
  }

  // ---------------------------------------------------------------------
  // The table against the angles

  /** 2^19 .. 2^22, the scales of the table's exponents. */
  lemma TablePowers()
    ensures Pow2(19) == 0x8_0000 && Pow2(20) == 0x10_0000
    ensures Pow2(21) == 0x20_0000 && Pow2(22) == 0x40_0000
  {
    Pow2Of23();
    assert Pow2(23) == 2 * Pow2(22);
    assert Pow2(22) == 2 * Pow2(21);
    assert Pow2(21) == 2 * Pow2(20);
    assert Pow2(20) == 2 * Pow2(19);
  }

  /** A positive pattern below 2^24 with biased exponent e and fraction f
      truncates num / den when (2^23 + f) / 2^(150 - e) does. */
  lemma TruncatesFromFields(e: nat, f: nat, num: nat, den: nat, p: nat)
    requires 1 <= e < 150 && f < HIDDEN_BIT && den > 0 && p == Pow2(150 - e)
    requires (HIDDEN_BIT + f) * den <= num * p < (HIDDEN_BIT + f + 1) * den
    ensures TruncatesRatio(Pack(false, e, f), num, den)
  {
    PackFields(false, e, f);
  }

  lemma EqualsFromFields(e: nat, f: nat, num: nat, den: nat, p: nat)
    requires 1 <= e < 150 && f < HIDDEN_BIT && den > 0 && p == Pow2(150 - e)
    requires (HIDDEN_BIT + f) * den == num * p
    ensures EqualsRatio(Pack(false, e, f), num, den)
  {
    PackFields(false, e, f);
  }

  /** Each case writes its angle rounded toward zero to binary32; 3.75, 7.5,
      15 and 18 exactly. */
  lemma TableTruncatesAngles(deg: int)
    requires 0 <= deg <= 6
    ensures TruncatesRatio(StepAnglePattern(deg), TableAngle(deg).num, TableAngle(deg).den)
    ensures deg >= 3 ==> EqualsRatio(StepAnglePattern(deg), TableAngle(deg).num, TableAngle(deg).den)
  {
    TablePowers();
    Pow2Of23();
    Pow2Of24();
    if deg == 0 {
      TruncatesFromFields(126, 0x66_6666, 9, 10, 0x100_0000);
    } else if deg == 1 {
      TruncatesFromFields(127, 0x66_6666, 9, 5, 0x80_0000);
    } else if deg == 2 {
      TruncatesFromFields(128, 0x66_6666, 18, 5, 0x40_0000);
    } else if deg == 3 {
      TruncatesFromFields(128, 0x70_0000, 15, 4, 0x40_0000);
      EqualsFromFields(128, 0x70_0000, 15, 4, 0x40_0000);
    } else if deg == 4 {
      TruncatesFromFields(129, 0x70_0000, 15, 2, 0x20_0000);
      EqualsFromFields(129, 0x70_0000, 15, 2, 0x20_0000);
    } else if deg == 5 {
      TruncatesFromFields(130, 0x70_0000, 15, 1, 0x10_0000);
      EqualsFromFields(130, 0x70_0000, 15, 1, 0x10_0000);
    } else {
      TruncatesFromFields(131, 0x10_0000, 18, 1, 0x8_0000);
      EqualsFromFields(131, 0x10_0000, 18, 1, 0x8_0000);
    }
  }

  /** The patterns for 15 and 18 are what the corrected encoder produces, not
      what int2ieee754 as written produces. */
  lemma TableMatchesEncoder()
    ensures StepAnglePattern(5) == TruncatedBits(15) && StepAnglePattern(6) == TruncatedBits(18)
    ensures StepAnglePattern(5) != AsWrittenBits(15)
  {
    assert StepAnglePattern(5) == 0x4170_0000 && StepAnglePattern(6) == 0x4190_0000;
    AsWrittenCounterexample();
    TruncatedValues();
  }

  /** As declared, StepAngle3p6 selects the pattern of 3.75 degrees, which is
      not 3.6 rounded toward zero; every other member selects its own angle. */
  lemma StepAngle3p6Misencoded(a: StepAngleFixed)
    ensures TableAngle(StepAngleCode(StepAngle3p6)) == Ratio(15, 4) != NominalAngle(StepAngle3p6)
    ensures !TruncatesRatio(StepAnglePattern(StepAngleCode(StepAngle3p6)), 18, 5)
    ensures a != StepAngle3p6 ==> TableAngle(StepAngleCode(a)) == NominalAngle(a)
  {
    var b := StepAnglePattern(3);
    assert b == Pack(false, 128, 0x70_0000);
    PackFields(false, 128, 0x70_0000);
    TablePowers();
    assert Exponent(b) == -22;
  }

  /** With 3.6 on case 2 every member selects the pattern of its own angle,
      and distinct members select distinct cases. */
  lemma CorrectedCodesFaithful(a: StepAngleFixed, a': StepAngleFixed)
    ensures 0 <= CorrectedStepAngleCode(a) <= 6
    ensures TableAngle(CorrectedStepAngleCode(a)) == NominalAngle(a)
    ensures TruncatesRatio(StepAnglePattern(CorrectedStepAngleCode(a)), NominalAngle(a).num, NominalAngle(a).den)
    ensures CorrectedStepAngleCode(a) == CorrectedStepAngleCode(a') ==> a == a'
  {
    TableTruncatesAngles(CorrectedStepAngleCode(a));
  }
}
