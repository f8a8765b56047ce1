/**
 * The constants, record layouts and instruction encoders that the firmware
 * headers share with the configurator: the ROM magic word and section tags,
 * the 8-byte section marker, the 20-byte per-LED record, MIN/MAX and the
 * 32-bit light-program instruction words.
 */
module Layout {
  import opened Wrappers

  type Byte = x: int | 0 <= x < 256
  type U16 = x: int | 0 <= x < 0x1_0000

  const CONFIG_VERSION: int := 1
  const SYSTICK_IN_MS: int := 20
  const LIGHT_SWITCH_POSITIONS: int := 9
  const MAX_LIGHT_PROGRAMS: int := 25

  /** "LBrc" read as a little-endian 32-bit word. */
  const ROM_MAGIC: nat := 0x6372424c

  /** The bytes of `v` (taken modulo 256^width), least significant first. */
  function LittleEndian(v: int, width: nat): (s: seq<Byte>)
    ensures |s| == width
    decreases width
  {
    if width == 0 then [] else [v % 256] + LittleEndian(v / 256, width - 1)
  }

  /** ROM_MAGIC as it is laid down in memory: the signature the configurator scans for. */
  lemma RomMagicBytes()
    ensures LittleEndian(ROM_MAGIC, 4) == [0x4c, 0x42, 0x72, 0x63]
  {
    LittleEndianHalfWord(0x6372);
    assert LittleEndian(0x637242, 3) == [0x42] + LittleEndian(0x6372, 2);
    assert LittleEndian(ROM_MAGIC, 4) == [0x4c] + LittleEndian(0x637242, 3);
  }

  /** Two little-endian bytes give back the 16-bit value they were made of. */
  lemma LittleEndianHalfWord(v: int)
    ensures LittleEndian(v, 2) == [v % 256, (v / 256) % 256]
    ensures 0 <= v < 0x1_0000 ==> LittleEndian(v, 2)[0] as int + 256 * LittleEndian(v, 2)[1] as int == v
  {
    assert LittleEndian(v, 2) == [v % 256] + LittleEndian(v / 256, 1);
    assert LittleEndian(v / 256, 1) == [(v / 256) % 256] + LittleEndian(v / 256 / 256, 0);
  }

  // ---------------------------------------------------------------------
  // ROM_SECTION_T and MAGIC_T

  datatype Section = ConfigSection | GammaTable | LocalLeds | SlaveLeds | LightPrograms
  {
    /** The numeric tag stored after the magic word. */
    function Tag(): (t: int)
      ensures 0 < t < 0x100
    {
      match this
      case ConfigSection => 0x01
      case GammaTable => 0x02
      case LocalLeds => 0x10
      case SlaveLeds => 0x20
      case LightPrograms => 0x30
    }
  }

  /** The section a tag names, if any (the configurator's SECTIONS table). */
  function SectionOfTag(t: int): (r: Option<Section>)
    ensures r.Some? ==> r.value.Tag() == t
    ensures r.None? ==> forall s: Section :: s.Tag() != t
  {
    if t == 0x01 then Some(ConfigSection)
    else if t == 0x02 then Some(GammaTable)
    else if t == 0x10 then Some(LocalLeds)
    else if t == 0x20 then Some(SlaveLeds)
    else if t == 0x30 then Some(LightPrograms)
    else None
  }

  /** Every section kind round-trips through its tag. */
  lemma SectionTagRoundTrip(s: Section)
    ensures SectionOfTag(s.Tag()) == Some(s)
  {
  }

  /** Size of MAGIC_T: a u32 magic word, a u16 section type and a u16 version. */
  const MAGIC_SIZE: int := 4 + 2 + 2

  /** The MAGIC_T header of a section as it lies in the image. */
  function MarkerHeader(s: Section, version: U16): (h: seq<Byte>)
    ensures |h| == MAGIC_SIZE
    ensures h[..4] == [0x4c, 0x42, 0x72, 0x63]
    ensures h[4] as int + 256 * h[5] as int == s.Tag()
    ensures h[6] as int + 256 * h[7] as int == version
  {
    RomMagicBytes();
    LittleEndianHalfWord(s.Tag());
    LittleEndianHalfWord(version);
    LittleEndian(ROM_MAGIC, 4) + LittleEndian(s.Tag(), 2) + LittleEndian(version, 2)
  }

  // ---------------------------------------------------------------------
  // MIN / MAX

  /** MIN(x, y): the smaller argument (y on a tie). */
  function Min(x: int, y: int): (r: int)
    ensures r <= x && r <= y
    ensures r == x || r == y
  {
    if x < y then x else y
  }

  /** MAX(x, y): the larger argument (y on a tie). */
  function Max(x: int, y: int): (r: int)
    ensures r >= x && r >= y
    ensures r == x || r == y
  {
    if x > y then x else y
  }

  // ---------------------------------------------------------------------
  // Light-program instruction words

  const OPCODE_GOTO: bv32 := 0x01
  const OPCODE_SET: bv32 := 0x02
  const OPCODE_FADE: bv32 := 0x04
  const OPCODE_WAIT: bv32 := 0x06
  const OPCODE_END_OF_PROGRAM: bv32 := 0xfe
  const OPCODE_END_OF_PROGRAMS: bv32 := 0xff

  /** Bits 24..31 of an instruction word. */
  function Opcode(w: bv32): bv32 { (w >> 24) & 0xff }

  /** Bits 16..23: the stop LED of SET and FADE. */
  function StopField(w: bv32): bv32 { (w >> 16) & 0xff }

  /** Bits 8..15: the start LED of SET and FADE. */
  function StartField(w: bv32): bv32 { (w >> 8) & 0xff }

  /** Bits 0..7: the value of SET and FADE. */
  function ValueField(w: bv32): bv32 { w & 0xff }

  /** Bits 0..23: the argument of WAIT and GOTO. */
  function ArgumentField(w: bv32): bv32 { w & 0xff_ffff }

  const INSTRUCTION_END_OF_PROGRAM: bv32 := OPCODE_END_OF_PROGRAM << 24
  const INSTRUCTION_END_OF_PROGRAMS: bv32 := OPCODE_END_OF_PROGRAMS << 24

  /** Both end markers carry their opcode in the top byte and nothing below it. */
  lemma EndMarkers()
    ensures Opcode(INSTRUCTION_END_OF_PROGRAM) == 0xfe && ArgumentField(INSTRUCTION_END_OF_PROGRAM) == 0
    ensures Opcode(INSTRUCTION_END_OF_PROGRAMS) == 0xff && ArgumentField(INSTRUCTION_END_OF_PROGRAMS) == 0
  {
  }

  function InstructionSet(start: bv32, stop: bv32, value: bv32): (w: bv32)
    ensures start < 256 && stop < 256 && value < 256 ==>
      Opcode(w) == OPCODE_SET && StopField(w) == stop && StartField(w) == start && ValueField(w) == value
  {
    (OPCODE_SET << 24) | (stop << 16) | (start << 8) | value
  }

  function InstructionFade(start: bv32, stop: bv32, value: bv32): (w: bv32)
    ensures start < 256 && stop < 256 && value < 256 ==>
      Opcode(w) == OPCODE_FADE && StopField(w) == stop && StartField(w) == start && ValueField(w) == value
  {
    (OPCODE_FADE << 24) | (stop << 16) | (start << 8) | value
  }

  /** WAIT counts in systicks of 20 ms; the division truncates. */
  function InstructionWait(timeInMs: bv32): (w: bv32)
    ensures timeInMs / 20 < 0x100_0000 ==> Opcode(w) == OPCODE_WAIT && ArgumentField(w) == timeInMs / 20
  {
    (OPCODE_WAIT << 24) | (timeInMs / 20)
  }

  function InstructionGoto(lineNo: bv32): (w: bv32)
    ensures lineNo < 0x100_0000 ==> Opcode(w) == OPCODE_GOTO && ArgumentField(w) == lineNo
  {
    (OPCODE_GOTO << 24) | lineNo
  }

  // ---------------------------------------------------------------------
  // LIGHT_FEATURE_T and CAR_LIGHT_T

  /** Number of flags in LIGHT_FEATURE_T: one per light-switch position, then
      tail, brake, reversing, left and right indicator. */
  const FEATURE_FLAGS: int := LIGHT_SWITCH_POSITIONS + 5

  /** Size of the packed LIGHT_FEATURE_T header of every LED record. */
  const FEATURES_SIZE: int := 4
  /** Size of one packed CAR_LIGHT_T record; its last byte is free. */
  const CAR_LIGHT_SIZE: int := 20

  /** One LED's configuration (CAR_LIGHT_T). `weak[k]` is the k-th feature
      flag and `switchPosition[k]` the level for light-switch position k. */
  datatype CarLight = CarLight(
    maxChangePerSystick: Byte,
    reductionPercent: Byte,
    weak: seq<bool>,
    alwaysOn: Byte,
    switchPosition: seq<Byte>,
    tailLight: Byte,
    brakeLight: Byte,
    reversingLight: Byte,
    indicatorLeft: Byte,
    indicatorRight: Byte)
  {
    predicate WellFormed()
    {
      |weak| == FEATURE_FLAGS && |switchPosition| == LIGHT_SWITCH_POSITIONS
    }

    /** The level bytes in the order CAR_LIGHT_T lays them out after the
        feature header. */
    function Levels(): (v: seq<Byte>)
      requires WellFormed()
      ensures |v| == CAR_LIGHT_SIZE - FEATURES_SIZE - 1
    {
      [alwaysOn] + switchPosition + [tailLight, brakeLight, reversingLight, indicatorLeft, indicatorRight]
    }
  }
}
