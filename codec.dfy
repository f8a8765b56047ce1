/**
 * The section codecs of the configurator: decoding the Configuration, LED
 * and Gamma sections of the image into records and encoding records back
 * into the same bytes. Decoding and encoding are functions over the byte
 * sequence; FirmwareImage performs the encoding in place.
 */
module Codec {
  import opened Layout
  import opened ByteAccess

  // ---------------------------------------------------------------------
  // Bit flags

  function Pow2(n: nat): (p: nat)
    ensures p >= 1
  {
    if n == 0 then 1 else 2 * Pow2(n - 1)
  }

  lemma Pow2Values()
    ensures Pow2(9) == 0x200 && Pow2(14) == 0x4000
  {
    assert Pow2(4) == 16;
    assert Pow2(8) == 256;
    assert Pow2(12) == 0x1000;
  }

  /** Bit `k` of `w` in two's complement: `w & (1 << k)` is non-zero. */
  function Bit(w: int, k: nat): bool
    decreases k
  {
    if k == 0 then w % 2 == 1 else Bit(w / 2, k - 1)
  }

  /** The word the encoders build with `flags |= flag << k` for every k;
      the bits are distinct, so the OR is a sum. */
  function PackFlags(bs: seq<bool>): (w: nat)
    ensures w < Pow2(|bs|)
  {
    if bs == [] then 0 else (if bs[0] then 1 else 0) + 2 * PackFlags(bs[1..])
  }

  /** The first `n` bits of `w`, as the decoders test them one by one. */
  function UnpackFlags(w: int, n: nat): (bs: seq<bool>)
    ensures |bs| == n
    decreases n
  {
    if n == 0 then [] else [w % 2 == 1] + UnpackFlags(w / 2, n - 1)
  }

  /** Bit k of a packed word is the k-th flag; every bit above the last flag is 0. */
  lemma {:induction false} BitOfPackFlags(bs: seq<bool>, k: nat)
    ensures Bit(PackFlags(bs), k) == (k < |bs| && bs[k])
  {
    if bs == [] {
      ZeroHasNoBits(k);
    } else if k > 0 {
      BitOfPackFlags(bs[1..], k - 1);
    }
  }

  lemma {:induction false} ZeroHasNoBits(k: nat)
    ensures !Bit(0, k)
  {
    if k > 0 {
      ZeroHasNoBits(k - 1);
    }
  }

  /** Unpacking reads bit k into position k. */
  lemma {:induction false} UnpackFlagsBits(w: int, n: nat, k: nat)
    requires k < n
    ensures UnpackFlags(w, n)[k] == Bit(w, k)
    decreases k
  {
    if k > 0 {
      UnpackFlagsBits(w / 2, n - 1, k - 1);
    }
  }

  /** Unpacking then packing a word that fits in n bits gives the word back. */
  lemma {:induction false} PackUnpack(w: int, n: nat)
    requires 0 <= w < Pow2(n)
    ensures PackFlags(UnpackFlags(w, n)) == w
  {
    if n > 0 {
      PackUnpack(w / 2, n - 1);
      assert UnpackFlags(w, n)[1..] == UnpackFlags(w / 2, n - 1);
    }
  }

  /** Packing then unpacking gives the flags back. */
  lemma UnpackPack(bs: seq<bool>)
    ensures UnpackFlags(PackFlags(bs), |bs|) == bs
  {
    forall k | 0 <= k < |bs|
      ensures UnpackFlags(PackFlags(bs), |bs|)[k] == bs[k]
    {
      UnpackFlagsBits(PackFlags(bs), |bs|, k);
      BitOfPackFlags(bs, k);
    }
  }

  // ---------------------------------------------------------------------
  // Configuration section

  /** Bytes of the Configuration payload: up to the 16-bit no_signal_timeout at +48. */
  const CONFIG_SIZE: int := 50
  const CONFIG_FLAGS: int := 9
  const CONFIG_COUNTERS: int := 17

  /** Padding bytes of the Configuration payload: neither read nor written. */
  predicate IsConfigPadding(o: int, j: int)
  {
    j == o + 2 || j == o + 3 || j == o + 42 || j == o + 43
  }

  datatype Configuration = Configuration(
    mode: int,
    escMode: int,
    slaveOutput: bool,
    preprocessorOutput: bool,
    winchOutput: bool,
    steeringWheelServoOutput: bool,
    gearboxServoOutput: bool,
    ch3IsLocalSwitch: bool,
    ch3IsMomentary: bool,
    autoBrakeLightsForwardEnabled: bool,
    autoBrakeLightsReverseEnabled: bool,
    autoBrakeCounterValueForwardMin: int,
    autoBrakeCounterValueForwardMax: int,
    autoBrakeCounterValueReverseMin: int,
    autoBrakeCounterValueReverseMax: int,
    autoReverseCounterValueMin: int,
    autoReverseCounterValueMax: int,
    brakeDisarmCounterValue: int,
    blinkCounterValue: int,
    indicatorIdleTimeValue: int,
    indicatorOffTimeoutValue: int,
    centreThresholdLow: int,
    centreThresholdHigh: int,
    blinkThreshold: int,
    lightSwitchPositions: int,
    initialEndpointDelta: int,
    ch3MultiClickTimeout: int,
    winchCommandRepeatTime: int,
    baudrate: int,
    noSignalTimeout: int)
  {
    /** The feature flags in bit order 0..8 of the flag word at +4. */
    function Flags(): (f: seq<bool>)
      ensures |f| == CONFIG_FLAGS
    {
      [slaveOutput, preprocessorOutput, winchOutput, steeringWheelServoOutput, gearboxServoOutput,
       ch3IsLocalSwitch, ch3IsMomentary, autoBrakeLightsForwardEnabled, autoBrakeLightsReverseEnabled]
    }

    /** The 16-bit fields stored at +8, +10, ..., +40, in layout order. */
    function Counters(): (c: seq<int>)
      ensures |c| == CONFIG_COUNTERS
    {
      [autoBrakeCounterValueForwardMin, autoBrakeCounterValueForwardMax,
       autoBrakeCounterValueReverseMin, autoBrakeCounterValueReverseMax,
       autoReverseCounterValueMin, autoReverseCounterValueMax,
       brakeDisarmCounterValue, blinkCounterValue, indicatorIdleTimeValue, indicatorOffTimeoutValue,
       centreThresholdLow, centreThresholdHigh, blinkThreshold, lightSwitchPositions,
       initialEndpointDelta, ch3MultiClickTimeout, winchCommandRepeatTime]
    }

    /** Every field fits the width it is stored with; baudrate in the signed
        32-bit range that get_uint32 can return. */
    predicate InRange()
    {
      && 0 <= mode < 0x100 && 0 <= escMode < 0x100
      && (forall k | 0 <= k < CONFIG_COUNTERS :: 0 <= Counters()[k] < 0x1_0000)
      && -TWO_31 <= baudrate < TWO_31
      && 0 <= noSignalTimeout < 0x1_0000
    }
  }

  /** parse_configuration: the record read from the payload at `o`. */
  function DecodeConfiguration(d: seq<Byte>, o: int): (c: Configuration)
    requires 0 <= o && o + CONFIG_SIZE <= |d|
    ensures c.InRange()
  {
    var flags := GetU32(d, o + 4);
    Configuration(
      d[o], d[o + 1],
      Bit(flags, 0), Bit(flags, 1), Bit(flags, 2), Bit(flags, 3), Bit(flags, 4),
      Bit(flags, 5), Bit(flags, 6), Bit(flags, 7), Bit(flags, 8),
      GetU16(d, o + 8), GetU16(d, o + 10), GetU16(d, o + 12), GetU16(d, o + 14),
      GetU16(d, o + 16), GetU16(d, o + 18), GetU16(d, o + 20), GetU16(d, o + 22),
      GetU16(d, o + 24), GetU16(d, o + 26),
      GetU16(d, o + 28), GetU16(d, o + 30), GetU16(d, o + 32), GetU16(d, o + 34),
      GetU16(d, o + 36), GetU16(d, o + 38), GetU16(d, o + 40),
      GetU32(d, o + 44), GetU16(d, o + 48))
  }

  /** A run of set_uint16 calls storing `vs` at p, p + 2, ... in that order. */
  function PutU16s(d: seq<Byte>, p: int, vs: seq<int>): (r: seq<Byte>)
    requires 0 <= p && p + 2 * |vs| <= |d|
    ensures |r| == |d|
    ensures forall j | 0 <= j < |d| && (j < p || p + 2 * |vs| <= j) :: r[j] == d[j]
    ensures forall k | 0 <= k < |vs| :: GetU16(r, p + 2 * k) == vs[k] % 0x1_0000
    decreases |vs|
  {
    if vs == [] then d
    else
      var n := |vs| - 1;
      var d1 := PutU16s(d, p, vs[..n]);
      var r := PutU16(d1, p + 2 * n, vs[n]);
      assert forall k | 0 <= k < n :: r[p + 2 * k] == d1[p + 2 * k] && r[p + 2 * k + 1] == d1[p + 2 * k + 1];
      r
  }

  /** assemble_configuration: the buffer after the record is stored at `o`. */
  function EncodeConfiguration(d: seq<Byte>, o: int, c: Configuration): (r: seq<Byte>)
    requires 0 <= o && o + CONFIG_SIZE <= |d|
    ensures |r| == |d|
    ensures forall j | 0 <= j < |d| && (j < o || o + CONFIG_SIZE <= j || IsConfigPadding(o, j)) :: r[j] == d[j]
    ensures r[o] == c.mode % 256 && r[o + 1] == c.escMode % 256
  {
    var d := PutByte(d, o, c.mode);
    var d := PutByte(d, o + 1, c.escMode);
    var d := PutU32(d, o + 4, PackFlags(c.Flags()));
    var d := PutU16s(d, o + 8, c.Counters());
    var d := PutU32(d, o + 44, c.baudrate);
    PutU16(d, o + 48, c.noSignalTimeout)
  }

  /** The stages of assemble_configuration, named so that lemmas can look between them. */
  lemma EncodeStages(d: seq<Byte>, o: int, c: Configuration)
    returns (d1: seq<Byte>, d2: seq<Byte>, d3: seq<Byte>, d4: seq<Byte>)
    requires 0 <= o && o + CONFIG_SIZE <= |d|
    ensures d1 == PutByte(PutByte(d, o, c.mode), o + 1, c.escMode)
    ensures d2 == PutU32(d1, o + 4, PackFlags(c.Flags()))
    ensures d3 == PutU16s(d2, o + 8, c.Counters())
    ensures d4 == PutU32(d3, o + 44, c.baudrate)
    ensures EncodeConfiguration(d, o, c) == PutU16(d4, o + 48, c.noSignalTimeout)
  {
    d1 := PutByte(PutByte(d, o, c.mode), o + 1, c.escMode);
    d2 := PutU32(d1, o + 4, PackFlags(c.Flags()));
    d3 := PutU16s(d2, o + 8, c.Counters());
    d4 := PutU32(d3, o + 44, c.baudrate);
  }

  lemma EncodedFlagWord(d: seq<Byte>, o: int, c: Configuration)
    requires 0 <= o && o + CONFIG_SIZE <= |d|
    ensures GetU32(EncodeConfiguration(d, o, c), o + 4) == PackFlags(c.Flags())
  {
    var d1, d2, d3, d4 := EncodeStages(d, o, c);
    var r := EncodeConfiguration(d, o, c);
    Pow2Values();
    U32RoundTrip(d1, o + 4, PackFlags(c.Flags()));
    assert r[o + 4] == d2[o + 4] && r[o + 5] == d2[o + 5];
    assert r[o + 6] == d2[o + 6] && r[o + 7] == d2[o + 7];
  }

  lemma EncodedCounters(d: seq<Byte>, o: int, c: Configuration, k: int)
    requires 0 <= o && o + CONFIG_SIZE <= |d|
    requires 0 <= k < CONFIG_COUNTERS && 0 <= c.Counters()[k] < 0x1_0000
    ensures GetU16(EncodeConfiguration(d, o, c), o + 8 + 2 * k) == c.Counters()[k]
  {
    EncodedCounterBytes(d, o, c, k);
    SmallMod(c.Counters()[k], 0x1_0000);
  }

  lemma EncodedCounterBytes(d: seq<Byte>, o: int, c: Configuration, k: int)
    requires 0 <= o && o + CONFIG_SIZE <= |d|
    requires 0 <= k < CONFIG_COUNTERS
    ensures GetU16(EncodeConfiguration(d, o, c), o + 8 + 2 * k) == c.Counters()[k] % 0x1_0000
  {
    var d1, d2, d3, d4 := EncodeStages(d, o, c);
    var r := EncodeConfiguration(d, o, c);
    assert r[o + 8 + 2 * k] == d3[o + 8 + 2 * k] && r[o + 9 + 2 * k] == d3[o + 9 + 2 * k];
  }

  lemma EncodedTimeout(d: seq<Byte>, o: int, c: Configuration)
    requires 0 <= o && o + CONFIG_SIZE <= |d|
    requires 0 <= c.noSignalTimeout < 0x1_0000
    ensures GetU16(EncodeConfiguration(d, o, c), o + 48) == c.noSignalTimeout
  {
    var d1, d2, d3, d4 := EncodeStages(d, o, c);
    U16RoundTrip(d4, o + 48, c.noSignalTimeout);
  }

  lemma EncodedBaudrate(d: seq<Byte>, o: int, c: Configuration)
    requires 0 <= o && o + CONFIG_SIZE <= |d|
    requires -TWO_31 <= c.baudrate < TWO_31
    ensures GetU32(EncodeConfiguration(d, o, c), o + 44) == c.baudrate
  {
    var d1, d2, d3, d4 := EncodeStages(d, o, c);
    var r := EncodeConfiguration(d, o, c);
    assert r[o + 44] == d4[o + 44] && r[o + 45] == d4[o + 45];
    assert r[o + 46] == d4[o + 46] && r[o + 47] == d4[o + 47];
    U32RoundTrip(d3, o + 44, c.baudrate);
  }

  lemma SmallMod(v: int, m: int)
    requires 0 <= v < m
    ensures v % m == v
  {
  }

  /** Storing a record whose fields fit their widths and parsing it back gives the record. */
  lemma ConfigurationRoundTrip(d: seq<Byte>, o: int, c: Configuration)
    requires 0 <= o && o + CONFIG_SIZE <= |d|
    requires c.InRange()
    ensures DecodeConfiguration(EncodeConfiguration(d, o, c), o) == c
  {
    var r := EncodeConfiguration(d, o, c);
    SmallMod(c.mode, 256);
    SmallMod(c.escMode, 256);
    EncodedTimeout(d, o, c);
    EncodedFlagWord(d, o, c);
    EncodedBaudrate(d, o, c);
    forall k | 0 <= k < CONFIG_COUNTERS
      ensures GetU16(r, o + 8 + 2 * k) == c.Counters()[k]
    {
      EncodedCounters(d, o, c, k);
    }
    DecodeFromFields(r, o, c);
  }

  /** parse_configuration reads back any record whose fields sit where assemble_configuration puts them. */
  lemma DecodeFromFields(r: seq<Byte>, o: int, c: Configuration)
    requires 0 <= o && o + CONFIG_SIZE <= |r|
    requires r[o] == c.mode && r[o + 1] == c.escMode
    requires GetU32(r, o + 4) == PackFlags(c.Flags())
    requires forall k | 0 <= k < CONFIG_COUNTERS :: GetU16(r, o + 8 + 2 * k) == c.Counters()[k]
    requires GetU32(r, o + 44) == c.baudrate && GetU16(r, o + 48) == c.noSignalTimeout
    ensures DecodeConfiguration(r, o) == c
  {
    forall k | 0 <= k < CONFIG_FLAGS
      ensures Bit(PackFlags(c.Flags()), k) == c.Flags()[k]
    {
      BitOfPackFlags(c.Flags(), k);
    }
    CountersFromFields(r, o, c.Counters());
  }

  /** The seventeen half-words at +8 .. +40 read as `cs`, one by one. */
  lemma CountersFromFields(r: seq<Byte>, o: int, cs: seq<int>)
    requires 0 <= o && o + CONFIG_SIZE <= |r| && |cs| == CONFIG_COUNTERS
    requires forall k | 0 <= k < CONFIG_COUNTERS :: GetU16(r, o + 8 + 2 * k) == cs[k]
    ensures GetU16(r, o + 8) == cs[0] && GetU16(r, o + 10) == cs[1] && GetU16(r, o + 12) == cs[2]
    ensures GetU16(r, o + 14) == cs[3] && GetU16(r, o + 16) == cs[4] && GetU16(r, o + 18) == cs[5]
    ensures GetU16(r, o + 20) == cs[6] && GetU16(r, o + 22) == cs[7] && GetU16(r, o + 24) == cs[8]
    ensures GetU16(r, o + 26) == cs[9] && GetU16(r, o + 28) == cs[10] && GetU16(r, o + 30) == cs[11]
    ensures GetU16(r, o + 32) == cs[12] && GetU16(r, o + 34) == cs[13] && GetU16(r, o + 36) == cs[14]
    ensures GetU16(r, o + 38) == cs[15] && GetU16(r, o + 40) == cs[16]
  {
    assert GetU16(r, o + 8 + 2 * 0) == cs[0] && GetU16(r, o + 8 + 2 * 1) == cs[1] && GetU16(r, o + 8 + 2 * 2) == cs[2];
    assert GetU16(r, o + 8 + 2 * 3) == cs[3] && GetU16(r, o + 8 + 2 * 4) == cs[4] && GetU16(r, o + 8 + 2 * 5) == cs[5];
    assert GetU16(r, o + 8 + 2 * 6) == cs[6] && GetU16(r, o + 8 + 2 * 7) == cs[7] && GetU16(r, o + 8 + 2 * 8) == cs[8];
    assert GetU16(r, o + 8 + 2 * 9) == cs[9] && GetU16(r, o + 8 + 2 * 10) == cs[10] && GetU16(r, o + 8 + 2 * 11) == cs[11];
    assert GetU16(r, o + 8 + 2 * 12) == cs[12] && GetU16(r, o + 8 + 2 * 13) == cs[13] && GetU16(r, o + 8 + 2 * 14) == cs[14];
    assert GetU16(r, o + 8 + 2 * 15) == cs[15] && GetU16(r, o + 8 + 2 * 16) == cs[16];
  }

  /** The nine feature flags parse_configuration reports are bits 0..8 of the flag word. */
  lemma DecodedFlags(d: seq<Byte>, o: int)
    requires 0 <= o && o + CONFIG_SIZE <= |d|
    ensures DecodeConfiguration(d, o).Flags() == UnpackFlags(GetU32(d, o + 4), CONFIG_FLAGS)
  {
    var w := GetU32(d, o + 4);
    var fs := DecodeConfiguration(d, o).Flags();
    forall k | 0 <= k < CONFIG_FLAGS
      ensures fs[k] == UnpackFlags(w, CONFIG_FLAGS)[k]
    {
      UnpackFlagsBits(w, CONFIG_FLAGS, k);
      if k < 5 {
        assert k == 0 || k == 1 || k == 2 || k == 3 || k == 4;
      } else {
        assert k == 5 || k == 6 || k == 7 || k == 8;
      }
    }
  }

  /** The sixteen-bit fields parse_configuration reports are the half-words at +8, +10, ..., +40. */
  lemma DecodedCounters(d: seq<Byte>, o: int)
    requires 0 <= o && o + CONFIG_SIZE <= |d|
    ensures forall k | 0 <= k < CONFIG_COUNTERS :: DecodeConfiguration(d, o).Counters()[k] == GetU16(d, o + 8 + 2 * k)
  {
    var cs := DecodeConfiguration(d, o).Counters();
    forall k | 0 <= k < CONFIG_COUNTERS
      ensures cs[k] == GetU16(d, o + 8 + 2 * k)
    {
      if k < 4 {
        assert k == 0 || k == 1 || k == 2 || k == 3;
      } else if k < 8 {
        assert k == 4 || k == 5 || k == 6 || k == 7;
      } else if k < 12 {
        assert k == 8 || k == 9 || k == 10 || k == 11;
      } else {
        assert k == 12 || k == 13 || k == 14 || k == 15 || k == 16;
      }
    }
  }

  /** A run of set_uint16 calls that stores the values just read changes nothing. */
  lemma {:induction false} PutU16sWhatWasRead(d: seq<Byte>, p: int, vs: seq<int>)
    requires 0 <= p && p + 2 * |vs| <= |d|
    requires forall k | 0 <= k < |vs| :: vs[k] == GetU16(d, p + 2 * k)
    ensures PutU16s(d, p, vs) == d
    decreases |vs|
  {
    if vs != [] {
      var n := |vs| - 1;
      assert forall k | 0 <= k < n :: vs[..n][k] == vs[k];
      PutU16sWhatWasRead(d, p, vs[..n]);
      PutWhatWasRead(d, p + 2 * n);
    }
  }

  /**
   * Parsing the Configuration section and assembling the parsed record
   * gives back the image byte for byte, padding included, whenever the
   * stored flag word has no bit set above bit 8.
   */
  lemma ConfigurationReencode(d: seq<Byte>, o: int)
    requires 0 <= o && o + CONFIG_SIZE <= |d|
    requires 0 <= GetU32(d, o + 4) < 0x200
    ensures EncodeConfiguration(d, o, DecodeConfiguration(d, o)) == d
  {
    var c := DecodeConfiguration(d, o);
    var d1, d2, d3, d4 := EncodeStages(d, o, c);
    PutWhatWasRead(d, o);
    PutWhatWasRead(d, o + 1);
    assert d1 == d;
    ReencodeFlagWord(d, o);
    assert d2 == d;
    ReencodeCounters(d, o);
    assert d3 == d;
    PutU32WhatWasRead(d, o + 44);
    assert d4 == d;
    PutWhatWasRead(d, o + 48);
  }

  lemma ReencodeFlagWord(d: seq<Byte>, o: int)
    requires 0 <= o && o + CONFIG_SIZE <= |d|
    requires 0 <= GetU32(d, o + 4) < 0x200
    ensures PutU32(d, o + 4, PackFlags(DecodeConfiguration(d, o).Flags())) == d
  {
    DecodedFlags(d, o);
    Pow2Values();
    PackUnpack(GetU32(d, o + 4), CONFIG_FLAGS);
    PutU32WhatWasRead(d, o + 4);
  }

  lemma ReencodeCounters(d: seq<Byte>, o: int)
    requires 0 <= o && o + CONFIG_SIZE <= |d|
    ensures PutU16s(d, o + 8, DecodeConfiguration(d, o).Counters()) == d
  {
    DecodedCounters(d, o);
    PutU16sWhatWasRead(d, o + 8, DecodeConfiguration(d, o).Counters());
  }

  /** The flag word assemble_configuration stores has no bit set above bit 8. */
  lemma EncodedFlagWordFitsNineBits(d: seq<Byte>, o: int, c: Configuration)
    requires 0 <= o && o + CONFIG_SIZE <= |d|
    ensures 0 <= GetU32(EncodeConfiguration(d, o, c), o + 4) < 0x200
  {
    EncodedFlagWord(d, o, c);
    Pow2Values();
  }

  // ---------------------------------------------------------------------
  // LED sections (local and slave)

  /** parse_led: the CAR_LIGHT_T record at `p`. */
  function DecodeCarLight(d: seq<Byte>, p: int): (l: CarLight)
    requires 0 <= p && p + CAR_LIGHT_SIZE <= |d|
    ensures l.WellFormed()
    ensures l.maxChangePerSystick == d[p] && l.reductionPercent == d[p + 1]
    ensures forall k | 0 <= k < FEATURE_FLAGS :: l.weak[k] == Bit(GetU16(d, p + 2), k)
    ensures l.Levels() == d[p + FEATURES_SIZE .. p + CAR_LIGHT_SIZE - 1]
  {
    var flags := GetU16(d, p + 2);
    var l := CarLight(d[p], d[p + 1], UnpackFlags(flags, FEATURE_FLAGS),
      d[p + 4], d[p + 5 .. p + 14], d[p + 14], d[p + 15], d[p + 16], d[p + 17], d[p + 18]);
    assert l.Levels() == d[p + FEATURES_SIZE .. p + CAR_LIGHT_SIZE - 1] by {
      var lv := d[p + FEATURES_SIZE .. p + CAR_LIGHT_SIZE - 1];
      assert lv == [d[p + 4]] + d[p + 5 .. p + 14] + [d[p + 14], d[p + 15], d[p + 16], d[p + 17], d[p + 18]];
    }
    assert forall k | 0 <= k < FEATURE_FLAGS :: l.weak[k] == Bit(flags, k) by {
      forall k | 0 <= k < FEATURE_FLAGS
        ensures l.weak[k] == Bit(flags, k)
      {
        UnpackFlagsBits(flags, FEATURE_FLAGS, k);
      }
    }
    l
  }

  /** assemble_led: the buffer after the record is stored at `p`; the last
      byte of the record is left alone. */
  function EncodeCarLight(d: seq<Byte>, p: int, l: CarLight): (r: seq<Byte>)
    requires 0 <= p && p + CAR_LIGHT_SIZE <= |d|
    requires l.WellFormed()
    ensures |r| == |d|
    ensures forall j | 0 <= j < |d| && (j < p || p + CAR_LIGHT_SIZE - 1 <= j) :: r[j] == d[j]
  {
    var d := PutBytes(d, p, [l.maxChangePerSystick, l.reductionPercent]);
    var d := PutU16(d, p + 2, PackFlags(l.weak));
    PutBytes(d, p + FEATURES_SIZE, l.Levels())
  }

  /** A well-formed record stored and parsed back is the same record. */
  lemma CarLightRoundTrip(d: seq<Byte>, p: int, l: CarLight)
    requires 0 <= p && p + CAR_LIGHT_SIZE <= |d|
    requires l.WellFormed()
    ensures DecodeCarLight(EncodeCarLight(d, p, l), p) == l
  {
    var d1 := PutBytes(d, p, [l.maxChangePerSystick, l.reductionPercent]);
    var d2 := PutU16(d1, p + 2, PackFlags(l.weak));
    var r := PutBytes(d2, p + FEATURES_SIZE, l.Levels());
    assert r == EncodeCarLight(d, p, l);
    Pow2Values();
    U16RoundTrip(d1, p + 2, PackFlags(l.weak));
    assert GetU16(r, p + 2) == PackFlags(l.weak) by {
      assert r[p + 2] == d2[p + 2] && r[p + 3] == d2[p + 3];
    }
    var e := DecodeCarLight(r, p);
    forall k | 0 <= k < FEATURE_FLAGS
      ensures e.weak[k] == l.weak[k]
    {
      BitOfPackFlags(l.weak, k);
    }
    assert e.weak == l.weak;
    assert e.Levels() == l.Levels();
    assert e.switchPosition == e.Levels()[1..10] == l.Levels()[1..10] == l.switchPosition;
  }

  /** Parsing a record and assembling it again rewrites the same bytes when
      no feature bit above bit 13 is set. */
  lemma CarLightReencode(d: seq<Byte>, p: int)
    requires 0 <= p && p + CAR_LIGHT_SIZE <= |d|
    requires GetU16(d, p + 2) < 0x4000
    ensures EncodeCarLight(d, p, DecodeCarLight(d, p)) == d
  {
    var l := DecodeCarLight(d, p);
    var d1 := PutBytes(d, p, [l.maxChangePerSystick, l.reductionPercent]);
    assert d1 == d;
    Pow2Values();
    PackUnpack(GetU16(d, p + 2), FEATURE_FLAGS);
    PutWhatWasRead(d, p + 2);
    assert PutU16(d, p + 2, PackFlags(l.weak)) == d;
    assert PutBytes(d, p + FEATURES_SIZE, l.Levels()) == d;
  }

  /** The record that parse_leds reads for LED `i` of a table at `base`. */
  function EntryOffset(base: int, i: int): int
  {
    base + CAR_LIGHT_SIZE * i
  }

  /** The last byte of record `i`, which CAR_LIGHT_T leaves free. */
  function FreeByte(base: int, i: int): int
  {
    EntryOffset(base, i) + CAR_LIGHT_SIZE - 1
  }

  /** `n` records starting at `base` lie inside an image of `size` bytes. */
  predicate EntriesFit(size: int, base: int, n: int)
  {
    n == 0 || (0 <= base && base + CAR_LIGHT_SIZE * n <= size)
  }

  /** The records of `leds` stored one after another from `base`, in order. */
  function EncodeEntries(d: seq<Byte>, base: int, leds: seq<CarLight>): (r: seq<Byte>)
    requires EntriesFit(|d|, base, |leds|)
    requires forall i | 0 <= i < |leds| :: leds[i].WellFormed()
    ensures |r| == |d|
    ensures forall j | 0 <= j < |d| && (j < base || base + CAR_LIGHT_SIZE * |leds| <= j) :: r[j] == d[j]
    ensures forall i | 0 <= i < |leds| :: r[FreeByte(base, i)] == d[FreeByte(base, i)]
    decreases |leds|
  {
    if leds == [] then d
    else
      var n := |leds| - 1;
      var d1 := EncodeEntries(d, base, leds[..n]);
      var r := EncodeCarLight(d1, EntryOffset(base, n), leds[n]);
      assert forall i | 0 <= i < n :: FreeByte(base, i) < EntryOffset(base, n) by {
        forall i | 0 <= i < n ensures FreeByte(base, i) < EntryOffset(base, n) {
          assert CAR_LIGHT_SIZE * i + CAR_LIGHT_SIZE <= CAR_LIGHT_SIZE * n;
        }
      }
      r
  }

  /** Every record stored by EncodeEntries parses back, later stores never
      touching earlier records. */
  lemma {:induction false} EntriesRoundTrip(d: seq<Byte>, base: int, leds: seq<CarLight>, i: int)
    requires EntriesFit(|d|, base, |leds|)
    requires forall k | 0 <= k < |leds| :: leds[k].WellFormed()
    requires 0 <= i < |leds|
    ensures DecodeCarLight(EncodeEntries(d, base, leds), EntryOffset(base, i)) == leds[i]
    decreases |leds|
  {
    var n := |leds| - 1;
    var d1 := EncodeEntries(d, base, leds[..n]);
    var r := EncodeCarLight(d1, EntryOffset(base, n), leds[n]);
    assert EncodeEntries(d, base, leds) == r;
    var p := EntryOffset(base, i);
    if i == n {
      CarLightRoundTrip(d1, p, leds[n]);
    } else {
      EntriesRoundTrip(d, base, leds[..n], i);
      assert leds[..n][i] == leds[i];
      LaterEntryKeepsEarlier(d1, base, n, i, leds[n]);
    }
  }

  /** Storing record `n` leaves the parse of an earlier record `i` as it was. */
  lemma LaterEntryKeepsEarlier(d: seq<Byte>, base: int, n: int, i: int, l: CarLight)
    requires 0 <= i < n && 0 <= base && EntryOffset(base, n) + CAR_LIGHT_SIZE <= |d|
    requires l.WellFormed()
    ensures DecodeCarLight(EncodeCarLight(d, EntryOffset(base, n), l), EntryOffset(base, i))
         == DecodeCarLight(d, EntryOffset(base, i))
  {
    assert EntryOffset(base, i) + CAR_LIGHT_SIZE <= EntryOffset(base, n);
    SameBytesSameCarLight(EncodeCarLight(d, EntryOffset(base, n), l), d, EntryOffset(base, i));
  }

  /** parse_led depends on nothing but the record's own bytes. */
  lemma SameBytesSameCarLight(d: seq<Byte>, e: seq<Byte>, p: int)
    requires 0 <= p && p + CAR_LIGHT_SIZE <= |d| && p + CAR_LIGHT_SIZE <= |e|
    requires forall j | p <= j < p + CAR_LIGHT_SIZE - 1 :: d[j] == e[j]
    ensures DecodeCarLight(d, p) == DecodeCarLight(e, p)
  {
    assert d[p + 5 .. p + 14] == e[p + 5 .. p + 14];
  }

  /** Re-storing records parsed from the same image changes nothing. */
  lemma {:induction false} EntriesReencode(d: seq<Byte>, base: int, leds: seq<CarLight>)
    requires EntriesFit(|d|, base, |leds|)
    requires forall i | 0 <= i < |leds| :: leds[i] == DecodeCarLight(d, EntryOffset(base, i))
    requires forall i | 0 <= i < |leds| :: GetU16(d, EntryOffset(base, i) + 2) < 0x4000
    requires forall i | 0 <= i < |leds| :: leds[i].WellFormed()
    ensures EncodeEntries(d, base, leds) == d
    decreases |leds|
  {
    if leds != [] {
      var n := |leds| - 1;
      var init := leds[..n];
      assert forall i | 0 <= i < |init| :: init[i] == leds[i];
      EntriesReencode(d, base, init);
      ReencodeLastEntry(d, base, leds);
    }
  }

  /** Once the earlier records re-store to the same bytes, so does the last one. */
  lemma ReencodeLastEntry(d: seq<Byte>, base: int, leds: seq<CarLight>)
    requires EntriesFit(|d|, base, |leds|) && leds != []
    requires forall i | 0 <= i < |leds| :: leds[i].WellFormed()
    requires EncodeEntries(d, base, leds[..|leds| - 1]) == d
    requires leds[|leds| - 1] == DecodeCarLight(d, EntryOffset(base, |leds| - 1))
    requires GetU16(d, EntryOffset(base, |leds| - 1) + 2) < 0x4000
    ensures EncodeEntries(d, base, leds) == d
  {
    LastEntry(d, base, leds);
    CarLightReencode(d, EntryOffset(base, |leds| - 1));
  }

  /** EncodeEntries stores the last record after all the others. */
  lemma LastEntry(d: seq<Byte>, base: int, leds: seq<CarLight>)
    requires EntriesFit(|d|, base, |leds|) && leds != []
    requires forall i | 0 <= i < |leds| :: leds[i].WellFormed()
    ensures var n := |leds| - 1;
      EncodeEntries(d, base, leds) == EncodeCarLight(EncodeEntries(d, base, leds[..n]), EntryOffset(base, n), leds[n])
  {
  }

  /** The header of an LED section: the count at +0 and the offset of the
      first record at +4 (a signed 32-bit read). */
  const LED_HEADER_SIZE: int := 8

  function LedTableOffset(d: seq<Byte>, o: int): int
    requires 0 <= o && o + LED_HEADER_SIZE <= |d|
  {
    GetU32(d, o + 4)
  }

  /** The records of a section do not overlap its header. */
  predicate HeaderClear(o: int, base: int, n: int)
  {
    n == 0 || o + LED_HEADER_SIZE <= base || base + CAR_LIGHT_SIZE * n <= o
  }

  /** parse_leds: the section's led_count records, read from its table. */
  function DecodeLeds(d: seq<Byte>, o: int): (leds: seq<CarLight>)
    requires 0 <= o && o + LED_HEADER_SIZE <= |d|
    requires EntriesFit(|d|, LedTableOffset(d, o), d[o])
    ensures |leds| == d[o]
    ensures forall i | 0 <= i < |leds| :: leds[i].WellFormed()
  {
    var base := LedTableOffset(d, o);
    seq(d[o], i requires 0 <= i < d[o] => DecodeCarLight(d, EntryOffset(base, i)))
  }

  /** assemble_leds: the count is stored at +0 (as a byte), then every record
      in order at the table the section header points to. */
  function EncodeLeds(d: seq<Byte>, o: int, leds: seq<CarLight>): (r: seq<Byte>)
    requires 0 <= o && o + LED_HEADER_SIZE <= |d|
    requires EntriesFit(|d|, LedTableOffset(d, o), |leds|)
    requires forall i | 0 <= i < |leds| :: leds[i].WellFormed()
    ensures |r| == |d|
    ensures forall j | 0 <= j < |d| && j != o && (j < LedTableOffset(d, o) || LedTableOffset(d, o) + CAR_LIGHT_SIZE * |leds| <= j) :: r[j] == d[j]
    ensures forall i | 0 <= i < |leds| && FreeByte(LedTableOffset(d, o), i) != o ::
      r[FreeByte(LedTableOffset(d, o), i)] == d[FreeByte(LedTableOffset(d, o), i)]
  {
    EncodeEntries(PutByte(d, o, |leds|), LedTableOffset(d, o), leds)
  }

  /** Assembling a section of fewer than 256 LEDs whose table lies clear of
      its header and parsing it again gives the same LEDs. */
  lemma LedsRoundTrip(d: seq<Byte>, o: int, leds: seq<CarLight>)
    requires 0 <= o && o + LED_HEADER_SIZE <= |d|
    requires EntriesFit(|d|, LedTableOffset(d, o), |leds|)
    requires forall i | 0 <= i < |leds| :: leds[i].WellFormed()
    requires |leds| < 0x100
    requires HeaderClear(o, LedTableOffset(d, o), |leds|)
    ensures var r := EncodeLeds(d, o, leds);
      && LedTableOffset(r, o) == LedTableOffset(d, o)
      && r[o] == |leds|
      && EntriesFit(|r|, LedTableOffset(r, o), r[o])
      && DecodeLeds(r, o) == leds
  {
    var base := LedTableOffset(d, o);
    var d1 := PutByte(d, o, |leds|);
    var r := EncodeEntries(d1, base, leds);
    assert r == EncodeLeds(d, o, leds);
    assert LedTableOffset(r, o) == base by {
      assert r[o + 4] == d[o + 4] && r[o + 5] == d[o + 5];
      assert r[o + 6] == d[o + 6] && r[o + 7] == d[o + 7];
    }
    assert r[o] == |leds|;
    var e := DecodeLeds(r, o);
    forall i | 0 <= i < |leds|
      ensures e[i] == leds[i]
    {
      EntriesRoundTrip(d1, base, leds, i);
    }
  }

  /** Parsing a section and assembling what was parsed rewrites the same
      bytes, when no record has a feature bit set above bit 13. */
  lemma LedsReencode(d: seq<Byte>, o: int)
    requires 0 <= o && o + LED_HEADER_SIZE <= |d|
    requires EntriesFit(|d|, LedTableOffset(d, o), d[o])
    requires forall i | 0 <= i < d[o] :: GetU16(d, EntryOffset(LedTableOffset(d, o), i) + 2) < 0x4000
    ensures EncodeLeds(d, o, DecodeLeds(d, o)) == d
  {
    PutWhatWasRead(d, o);
    EntriesReencode(d, LedTableOffset(d, o), DecodeLeds(d, o));
  }

  // ---------------------------------------------------------------------
  // Gamma section

  /** Bytes before the gamma table: three identifier characters and one free byte. */
  const GAMMA_HEADER_SIZE: int := 4
  const GAMMA_ID_LENGTH: int := 3

  /** parse_gamma: the three identifier characters, one per byte. */
  function DecodeGamma(d: seq<Byte>, o: int): (id: seq<char>)
    requires 0 <= o && o + GAMMA_HEADER_SIZE <= |d|
    ensures |id| == GAMMA_ID_LENGTH
    ensures forall k | 0 <= k < GAMMA_ID_LENGTH :: id[k] as int == d[o + k]
  {
    [d[o] as char, d[o + 1] as char, d[o + 2] as char]
  }

  /** The UTF-16 code units of one character, as a JavaScript string holds
      it: the character itself below 0x10000, otherwise a surrogate pair. */
  function CodeUnits(c: char): (u: seq<int>)
    ensures 1 <= |u| <= 2
    ensures forall k | 0 <= k < |u| :: 0 <= u[k] < 0x1_0000
    ensures |u| == 1 <==> c as int < 0x1_0000
    ensures |u| == 1 ==> u[0] == c as int
    ensures |u| == 2 ==>
      && 0xD800 <= u[0] < 0xDC00 && 0xDC00 <= u[1] < 0xE000
      && 0x1_0000 + (u[0] - 0xD800) * 0x400 + (u[1] - 0xDC00) == c as int
  {
    if c as int < 0x1_0000 then [c as int]
    else
      var v := c as int - 0x1_0000;
      [0xD800 + v / 0x400, 0xDC00 + v % 0x400]
  }

  /** True when every character lies in the Basic Multilingual Plane, i.e.
      is a single UTF-16 code unit. */
  predicate SingleUnits(s: seq<char>)
  {
    forall k | 0 <= k < |s| :: s[k] as int < 0x1_0000
  }

  /** A string as JavaScript indexes it: its UTF-16 code units. */
  function Utf16(s: seq<char>): (u: seq<int>)
    ensures |s| <= |u| <= 2 * |s|
    ensures forall k | 0 <= k < |u| :: 0 <= u[k] < 0x1_0000
    ensures SingleUnits(s) ==> |u| == |s| && forall k | 0 <= k < |s| :: u[k] == s[k] as int
  {
    if s == [] then []
    else
      var u := CodeUnits(s[0]) + Utf16(s[1..]);
      assert SingleUnits(s) ==> SingleUnits(s[1..]) && |CodeUnits(s[0])| == 1 by {
        if SingleUnits(s) {
          forall k | 0 <= k < |s| - 1 ensures s[1..][k] as int < 0x1_0000 {
            assert s[1..][k] == s[k + 1];
          }
        }
      }
      u
  }

  /** `id.charCodeAt(k)` as stored into a byte array: the k-th UTF-16 code
      unit, and past the end of the string NaN, which the array stores as 0. */
  function CharCodeAt(id: seq<char>, k: int): (c: int)
    ensures 0 <= c < 0x1_0000
    ensures k < 0 || 2 * |id| <= k ==> c == 0
    ensures SingleUnits(id) ==> c == (if 0 <= k < |id| then id[k] as int else 0)
  {
    var u := Utf16(id);
    if 0 <= k < |u| then u[k] else 0
  }

  /** assemble_gamma: the identifier's first three UTF-16 code units (each
      kept modulo 256), then the table from +4. */
  function EncodeGamma(d: seq<Byte>, o: int, id: seq<char>, table: seq<Byte>): (r: seq<Byte>)
    requires 0 <= o && o + GAMMA_HEADER_SIZE + |table| <= |d|
    ensures |r| == |d|
    ensures forall j | 0 <= j < |d| && (j < o || j == o + 3 || o + GAMMA_HEADER_SIZE + |table| <= j) :: r[j] == d[j]
    ensures r[o + GAMMA_HEADER_SIZE .. o + GAMMA_HEADER_SIZE + |table|] == table
    ensures forall k | 0 <= k < GAMMA_ID_LENGTH :: r[o + k] == CharCodeAt(id, k) % 0x100
  {
    var d := PutByte(d, o, CharCodeAt(id, 0));
    var d := PutByte(d, o + 1, CharCodeAt(id, 1));
    var d := PutByte(d, o + 2, CharCodeAt(id, 2));
    PutBytes(d, o + GAMMA_HEADER_SIZE, table)
  }

  /** A three-character identifier of 8-bit characters survives assembling
      and parsing. */
  lemma GammaRoundTrip(d: seq<Byte>, o: int, id: seq<char>, table: seq<Byte>)
    requires 0 <= o && o + GAMMA_HEADER_SIZE + |table| <= |d|
    requires |id| == GAMMA_ID_LENGTH && forall k | 0 <= k < |id| :: id[k] as int < 0x100
    ensures DecodeGamma(EncodeGamma(d, o, id, table), o) == id
  {
    assert SingleUnits(id);
    var r := EncodeGamma(d, o, id, table);
    assert DecodeGamma(r, o)[0] == id[0];
  }

  /** A character outside the Basic Multilingual Plane is two code units:
      U+1F600 stores the low bytes of 0xD83D and 0xDE00, so the identifier
      "\U{1F600}a" reads back as "=", NUL and "a". */
  lemma GammaSurrogatePair(d: seq<Byte>, o: int, table: seq<Byte>)
    requires 0 <= o && o + GAMMA_HEADER_SIZE + |table| <= |d|
    ensures DecodeGamma(EncodeGamma(d, o, ['\U{1F600}', 'a'], table), o) == ['=', '\0', 'a']
  {
    var id := ['\U{1F600}', 'a'];
    assert Utf16(id) == [0xD83D, 0xDE00, 0x61] by {
      assert id[1..] == ['a'] && ['a'][1..] == [];
    }
  }

  /** Any identifier keeps only the low byte of each of its first three
      UTF-16 code units, and a shorter one is padded with code 0. */
  lemma GammaIdentifierTruncated(d: seq<Byte>, o: int, id: seq<char>, table: seq<Byte>)
    requires 0 <= o && o + GAMMA_HEADER_SIZE + |table| <= |d|
    ensures forall k | 0 <= k < GAMMA_ID_LENGTH ::
      DecodeGamma(EncodeGamma(d, o, id, table), o)[k] as int == CharCodeAt(id, k) % 0x100
  {
  }

  /** Assembling the parsed identifier with the table already in the image
      changes nothing. */
  lemma GammaReencode(d: seq<Byte>, o: int, n: nat)
    requires 0 <= o && o + GAMMA_HEADER_SIZE + n <= |d|
    ensures EncodeGamma(d, o, DecodeGamma(d, o), d[o + GAMMA_HEADER_SIZE .. o + GAMMA_HEADER_SIZE + n]) == d
  {
    PutWhatWasRead(d, o);
    PutWhatWasRead(d, o + 1);
    PutWhatWasRead(d, o + 2);
  }

  // ---------------------------------------------------------------------
  // Light programs section

  /** Bytes before the first light program: the program count and a table of
      MAX_LIGHT_PROGRAMS start offsets. */
  const FIRST_PROGRAM_OFFSET: int := 4 + 4 * MAX_LIGHT_PROGRAMS

  /** The words that disassemble_light_programs hands to the disassembler:
      every whole word from the first program to the end of the image. */
  function ProgramWords(d: seq<Byte>, o: int): (w: seq<int>)
    requires 0 <= o
    ensures o + FIRST_PROGRAM_OFFSET <= |d| ==> |w| == (|d| - o - FIRST_PROGRAM_OFFSET) / 4
    ensures o + FIRST_PROGRAM_OFFSET > |d| ==> w == []
    ensures forall k | 0 <= k < |w| :: GetU32(d, o + FIRST_PROGRAM_OFFSET + 4 * k) == w[k]
  {
    if o + FIRST_PROGRAM_OFFSET <= |d| then
      var tail := d[o + FIRST_PROGRAM_OFFSET..];
      var w := Words(tail);
      assert forall k | 0 <= k < |w| :: GetU32(d, o + FIRST_PROGRAM_OFFSET + 4 * k) == GetU32(tail, 4 * k) by {
        forall k | 0 <= k < |w|
          ensures GetU32(d, o + FIRST_PROGRAM_OFFSET + 4 * k) == GetU32(tail, 4 * k)
        {
          var q := o + FIRST_PROGRAM_OFFSET + 4 * k;
          assert tail[4 * k] == d[q] && tail[4 * k + 1] == d[q + 1];
          assert tail[4 * k + 2] == d[q + 2] && tail[4 * k + 3] == d[q + 3];
        }
      }
      w
    else []
  }

  // ---------------------------------------------------------------------
  // Each parser reads only its own section's bytes

  lemma SameBytesSameConfiguration(d: seq<Byte>, e: seq<Byte>, o: int)
    requires 0 <= o && o + CONFIG_SIZE <= |d| && o + CONFIG_SIZE <= |e|
    requires forall j | o <= j < o + CONFIG_SIZE && !IsConfigPadding(o, j) :: d[j] == e[j]
    ensures DecodeConfiguration(d, o) == DecodeConfiguration(e, o)
  {
  }

  lemma SameBytesSameLeds(d: seq<Byte>, e: seq<Byte>, o: int)
    requires |d| == |e| && 0 <= o && o + LED_HEADER_SIZE <= |d|
    requires forall j | o <= j < o + LED_HEADER_SIZE :: d[j] == e[j]
    requires EntriesFit(|d|, LedTableOffset(d, o), d[o])
    requires forall j | LedTableOffset(d, o) <= j < LedTableOffset(d, o) + CAR_LIGHT_SIZE * d[o] :: d[j] == e[j]
    ensures LedTableOffset(e, o) == LedTableOffset(d, o) && e[o] == d[o]
    ensures DecodeLeds(d, o) == DecodeLeds(e, o)
  {
    var base := LedTableOffset(d, o);
    assert LedTableOffset(e, o) == base;
    forall i | 0 <= i < d[o]
      ensures DecodeLeds(d, o)[i] == DecodeLeds(e, o)[i]
    {
      assert EntryOffset(base, i) + CAR_LIGHT_SIZE <= base + CAR_LIGHT_SIZE * d[o] by {
        assert CAR_LIGHT_SIZE * (i + 1) <= CAR_LIGHT_SIZE * d[o];
      }
      SameBytesSameCarLight(d, e, EntryOffset(base, i));
    }
  }

  lemma SameBytesSameGamma(d: seq<Byte>, e: seq<Byte>, o: int)
    requires 0 <= o && o + GAMMA_HEADER_SIZE <= |d| && o + GAMMA_HEADER_SIZE <= |e|
    requires forall j | o <= j < o + GAMMA_ID_LENGTH :: d[j] == e[j]
    ensures DecodeGamma(d, o) == DecodeGamma(e, o)
  {
  }
}
