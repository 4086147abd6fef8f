/** The byte frames the LV8548 stepper driver receives on its serial line:
    the sync byte 0xA5, a class byte (0xFE for init, 0xFF otherwise), then a
    flag byte (0x01 in the 3-byte init frame, 0x03 or 0x05 in the others),
    an opcode and the payload, whose 32-bit fields are little-endian. */
module Frames {
  import opened JsNumber

  /** One byte of a buffer written with `NumberFormat.UInt8LE`. */
  newtype UInt8 = x: int | 0 <= x < 256

  datatype Option<T> = None | Some(value: T)

  // ---------------------------------------------------------------------
  // Little-endian 32-bit fields

  /** The four bytes of the 32-bit pattern of x, least significant first:
      byte i is bits 8i .. 8i+7 of ToUint32(x). */
  function Le32(x: int): (bs: seq<UInt8>)
    ensures |bs| == 4
  {
    var u := ToUint32(x);
    [(u % 0x100) as UInt8, (u / 0x100 % 0x100) as UInt8,
     (u / 0x1_0000 % 0x100) as UInt8, (u / 0x100_0000 % 0x100) as UInt8]
  }

  /** The receiver's reading of a 4-byte field: the sum of byte[i] << 8i. */
  function FromLe32(bs: seq<UInt8>): (u: nat)
    requires |bs| == 4
    ensures u < TWO_32
  {
    bs[0] as nat + 0x100 * bs[1] as nat + 0x1_0000 * bs[2] as nat + 0x100_0000 * bs[3] as nat
  }

  /** 2^(8i), the weight of byte i. */
  function BytePlace(i: nat): nat
    requires i < 4
  {
    if i == 0 then 1 else if i == 1 then 0x100 else if i == 2 then 0x1_0000 else 0x100_0000
  }

  lemma BytePlacePow2(i: nat)
    requires i < 4
    ensures BytePlace(i) == Pow2(8 * i)
  {
    Pow2Constants();
  }

  /** Dividing by 2^8 twice is dividing by 2^16. */
  lemma DivByte(u: nat, d: nat)
    requires d == 0x100 || d == 0x1_0000
    ensures u / d / 0x100 == u / (d * 0x100)
  {
    var q, r1, r2 := u / d / 0x100, u % d, (u / d) % 0x100;
    DivModIdentity(u, d);
    DivModIdentity(u / d, 0x100);
    assert u == q * (d * 0x100) + (r2 * d + r1);
    DivModUnique(u, d * 0x100, q, r2 * d + r1);
  }

  /** Byte i of Le32(x) is ToUint32(x) shifted down by 8i, modulo 256. */
  lemma Le32Byte(x: int, i: nat)
    requires i < 4
    ensures Le32(x)[i] as int == (ToUint32(x) / BytePlace(i)) % 0x100
  {
  }

  /** The bytes read back give the unsigned 32-bit pattern of x. */
  lemma Le32RoundTrip(x: int)
    ensures FromLe32(Le32(x)) == ToUint32(x)
  {
    var u := ToUint32(x);
    var q1, q2, q3 := u / 0x100, u / 0x1_0000, u / 0x100_0000;
    DivByte(u, 0x100);
    DivByte(u, 0x1_0000);
    DivModIdentity(u, 0x100);
    DivModIdentity(q1, 0x100);
    DivModIdentity(q2, 0x100);
    assert q3 < 0x100;
  }

  /** Four bytes read and written again are the same four bytes. */
  lemma FromLe32RoundTrip(bs: seq<UInt8>)
    requires |bs| == 4
    ensures Le32(FromLe32(bs)) == bs
  {
    var b0, b1, b2, b3 := bs[0] as int, bs[1] as int, bs[2] as int, bs[3] as int;
    var u := FromLe32(bs);
    Uint32OfSmall(u);
    DivModUnique(u, 0x100, b1 + 0x100 * b2 + 0x1_0000 * b3, b0);
    DivModUnique(u, 0x1_0000, b2 + 0x100 * b3, b0 + 0x100 * b1);
    DivModUnique(u, 0x100_0000, b3, b0 + 0x100 * b1 + 0x1_0000 * b2);
    DivModUnique(b1 + 0x100 * b2 + 0x1_0000 * b3, 0x100, b2 + 0x100 * b3, b1);
    DivModUnique(b2 + 0x100 * b3, 0x100, b3, b2);
    DivModUnique(b3, 0x100, 0, b3);
  }

  /** Le32 depends only on the 32-bit pattern. */
  lemma Le32OfUint32(x: int)
    ensures Le32(ToUint32(x)) == Le32(x)
  {
    Uint32OfSmall(ToUint32(x));
  }

  /** A receiver that reads the field as a signed 32-bit integer gets back
      every int32 the driver sent. */
  lemma Le32SignedRoundTrip(x: int)
    requires IsInt32(x)
    ensures ToInt32(FromLe32(Le32(x))) == x
  {
    var u := FromLe32(Le32(x));
    Le32RoundTrip(x);
    Uint32OfSmall(u);
    ToInt32Unsigned(u);
    ToInt32Unsigned(x);
  }

  /** `(x >> i * 8) & 0xFF`, the byte the driver writes at offset i of a field. */
  lemma ShiftedByte(x: int, i: nat)
    requires i < 4
    ensures JsAnd(JsShr(x, i * 8), 0xFF) == Le32(x)[i] as int
  {
    Pow2Of8();
    JsShrMask(x, i * 8, 8);
    BytePlacePow2(i);
    Le32Byte(x, i);
  }

  // ---------------------------------------------------------------------
  // The commands

  /** Rotation direction: the byte is the enum value. */
  datatype RotorDir = ClockWise | CounterClockWise

  /** Excitation mode: the byte is the enum value. */
  datatype Excitation = FullStep | HalfStep

  function RotorDirCode(d: RotorDir): (b: UInt8)
    ensures b <= 1
    ensures b == 0 <==> d == ClockWise
  {
    match d
    case ClockWise => 0
    case CounterClockWise => 1
  }

  function RotorDirOf(b: UInt8): (d: Option<RotorDir>)
    ensures d.Some? ==> RotorDirCode(d.value) == b
    ensures d.None? <==> b > 1
  {
    if b == 0 then Some(ClockWise) else if b == 1 then Some(CounterClockWise) else None
  }

  function ExcitationCode(e: Excitation): (b: UInt8)
    ensures b <= 1
    ensures b == 0 <==> e == FullStep
  {
    match e
    case FullStep => 0
    case HalfStep => 1
  }

  function ExcitationOf(b: UInt8): (e: Option<Excitation>)
    ensures e.Some? ==> ExcitationCode(e.value) == b
    ensures e.None? <==> b > 1
  {
    if b == 0 then Some(FullStep) else if b == 1 then Some(HalfStep) else None
  }

  /** What the third 32-bit field of a rotation frame counts. */
  datatype RotationKind = ByDegree | ByTime | ByStep

  /** The opcode of each rotation builder: 6A, 6B and 6C, one per kind. */
  function RotationOpcode(k: RotationKind): (b: UInt8)
    ensures 0x6A <= b <= 0x6C
    ensures b == 0x6A <==> k == ByDegree
    ensures b == 0x6C <==> k == ByStep
  {
    match k
    case ByDegree => 0x6A
    case ByTime => 0x6B
    case ByStep => 0x6C
  }

  function RotationKindOf(b: UInt8): (k: Option<RotationKind>)
    ensures k.Some? ==> RotationOpcode(k.value) == b
    ensures k.None? <==> !(0x6A <= b <= 0x6C)
  {
    if b == 0x6A then Some(ByDegree)
    else if b == 0x6B then Some(ByTime)
    else if b == 0x6C then Some(ByStep)
    else None
  }

  /** A command as the driver chip receives it; 32-bit fields hold unsigned patterns. */
  datatype Command =
    | InitStepMode
    | StepAngle(pattern: nat)
    | Rotation(kind: RotationKind, freq: nat, extent: nat, dir: RotorDir, exc: Excitation)
    | Hold
    | Free

  predicate WellFormed(c: Command) {
    match c
    case StepAngle(p) => p < TWO_32
    case Rotation(_, f, e, _, _) => f < TWO_32 && e < TWO_32
    case _ => true
  }

  /** The frame that carries c: always the sync byte first, class 0xFE only
      for init, and 3, 8, 14 or 4 bytes as the command kind fixes. */
  function Encode(c: Command): (bs: seq<UInt8>)
    ensures |bs| == if c.InitStepMode? then 3 else if c.StepAngle? then 8 else if c.Rotation? then 14 else 4
    ensures bs[0] == 0xA5 && (bs[1] == 0xFE <==> c.InitStepMode?)
    ensures !c.InitStepMode? ==> bs[2] == (if c.StepAngle? then 0x05 else 0x03)
  {
    match c
    case InitStepMode => [0xA5, 0xFE, 0x01]
    case StepAngle(p) => [0xA5, 0xFF, 0x05, 0x69] + Le32(p)
    case Rotation(k, f, e, d, x) =>
      [0xA5, 0xFF, 0x03, RotationOpcode(k)] + Le32(f) + Le32(e) + [RotorDirCode(d), ExcitationCode(x)]
    case Hold => [0xA5, 0xFF, 0x03, 0x6E]
    case Free => [0xA5, 0xFF, 0x03, 0x6F]
  }

  /** The receiver's reading of a frame; None for anything the driver never sends. */
  function Parse(bs: seq<UInt8>): Option<Command> {
    if bs == [0xA5, 0xFE, 0x01] then Some(InitStepMode)
    else if bs == [0xA5, 0xFF, 0x03, 0x6E] then Some(Hold)
    else if bs == [0xA5, 0xFF, 0x03, 0x6F] then Some(Free)
    else if |bs| == 8 && bs[..4] == [0xA5, 0xFF, 0x05, 0x69] then
      Some(StepAngle(FromLe32(bs[4..8])))
    else if |bs| == 14 && bs[..3] == [0xA5, 0xFF, 0x03]
            && RotationKindOf(bs[3]).Some? && RotorDirOf(bs[12]).Some? && ExcitationOf(bs[13]).Some? then
      Some(Rotation(RotationKindOf(bs[3]).value, FromLe32(bs[4..8]), FromLe32(bs[8..12]),
                    RotorDirOf(bs[12]).value, ExcitationOf(bs[13]).value))
    else None
  }

  /** Every well-formed command is read back from its frame. */
  lemma ParseEncode(c: Command)
    requires WellFormed(c)
    ensures Parse(Encode(c)) == Some(c)
  {
    match c
    case InitStepMode =>
    case Hold =>
    case Free =>
    case StepAngle(p) =>
      ParseStepAngle(p);
    case Rotation(k, f, e, d, x) =>
      ParseRotation(k, f, e, d, x);
  }

  lemma ParseStepAngle(p: nat)
    requires p < TWO_32
    ensures Parse(Encode(StepAngle(p))) == Some(StepAngle(p))
  {
    var bs := Encode(StepAngle(p));
    assert bs[4..8] == Le32(p);
    Le32RoundTrip(p);
    Uint32OfSmall(p);
  }

  lemma ParseRotation(k: RotationKind, f: nat, e: nat, d: RotorDir, x: Excitation)
    requires f < TWO_32 && e < TWO_32
    ensures Parse(Encode(Rotation(k, f, e, d, x))) == Some(Rotation(k, f, e, d, x))
  {
    var bs := Encode(Rotation(k, f, e, d, x));
    assert bs[4..8] == Le32(f);
    assert bs[8..12] == Le32(e);
    Le32RoundTrip(f);
    Uint32OfSmall(f);
    Le32RoundTrip(e);
    Uint32OfSmall(e);
  }

  /** Every frame the receiver accepts is the frame of what it reads. */
  lemma EncodeParse(bs: seq<UInt8>)
    requires Parse(bs).Some?
    ensures WellFormed(Parse(bs).value) && Encode(Parse(bs).value) == bs
  {
    var c := Parse(bs).value;
    if |bs| == 8 && bs[..4] == [0xA5, 0xFF, 0x05, 0x69] {
      FromLe32RoundTrip(bs[4..8]);
      assert bs == bs[..4] + bs[4..8];
    } else if |bs| == 14 && c.Rotation? {
      FromLe32RoundTrip(bs[4..8]);
      FromLe32RoundTrip(bs[8..12]);
      assert bs == bs[..4] + bs[4..8] + bs[8..12] + bs[12..];
    }
  }
}
