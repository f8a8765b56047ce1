/**
 * Where the configurator and the firmware meet: the LED records the
 * configurator parses and assembles are the CAR_LIGHT_T records the
 * firmware's light computation reads, and the light-program words the
 * configurator reads back are the firmware's instruction words.
 */
module Agreement {
  import opened Layout
  import opened ByteAccess
  import opened Codec
  import opened Lights

  /** The level the firmware selects for car-light function `f` of a parsed
      record is the byte at offset 4 + f of the record in the image. */
  lemma FirmwareReadsParsedLevels(d: seq<Byte>, p: int, f: int)
    requires 0 <= p && p + CAR_LIGHT_SIZE <= |d|
    requires ALWAYS_ON <= f <= INDICATOR_RIGHT
    ensures GetLightValue(DecodeCarLight(d, p), f) == d[p + FEATURES_SIZE + f]
  {
    var l := DecodeCarLight(d, p);
    assert l.Levels()[f] == d[p + FEATURES_SIZE .. p + CAR_LIGHT_SIZE - 1][f];
  }

  /** A record assembled by the configurator gives each car-light function
      the level the firmware will select for it. */
  lemma FirmwareReadsAssembledLevels(d: seq<Byte>, p: int, l: CarLight, f: int)
    requires 0 <= p && p + CAR_LIGHT_SIZE <= |d| && l.WellFormed()
    requires ALWAYS_ON <= f <= INDICATOR_RIGHT
    ensures EncodeCarLight(d, p, l)[p + FEATURES_SIZE + f] == GetLightValue(l, f)
  {
    CarLightRoundTrip(d, p, l);
    FirmwareReadsParsedLevels(EncodeCarLight(d, p, l), p, f);
  }

  /** The weak-ground flags of a parsed record are the bits of the 16-bit
      word at +2, and the firmware applies the weak ground exactly when one
      of those bits is set whose condition holds. */
  lemma WeakGroundFromImage(d: seq<Byte>, p: int, pos: Byte, g: GlobalFlags)
    requires 0 <= p && p + CAR_LIGHT_SIZE <= |d|
    ensures IsLightAffected(DecodeCarLight(d, p).weak, pos, g) <==>
      exists k :: 0 <= k < FEATURE_FLAGS && Bit(GetU16(d, p + 2), k) && FlagCondition(k, pos, g)
  {
    var w := DecodeCarLight(d, p).weak;
    IsLightAffectedIff(w, pos, g);
    if IsLightAffected(w, pos, g) {
      var k :| 0 <= k < FEATURE_FLAGS && w[k] && FlagCondition(k, pos, g);
      assert Bit(GetU16(d, p + 2), k);
    } else {
      forall k | 0 <= k < FEATURE_FLAGS && Bit(GetU16(d, p + 2), k)
        ensures !FlagCondition(k, pos, g)
      {
        assert w[k];
      }
    }
  }

  /** The END_OF_PROGRAMS word, stored little-endian, reads back through
      get_uint32 as a negative number: its top byte is 0xff. */
  lemma EndOfProgramsReadsNegative(d: seq<Byte>, o: int)
    requires 0 <= o && o + 4 <= |d|
    requires d[o .. o + 4] == LittleEndian(INSTRUCTION_END_OF_PROGRAMS as int, 4)
    ensures GetU32(d, o) == -0x100_0000
  {
    assert LittleEndian(INSTRUCTION_END_OF_PROGRAMS as int, 4) == [0, 0, 0, 0xff];
    assert d[o] == 0 && d[o + 1] == 0 && d[o + 2] == 0 && d[o + 3] == 0xff by {
      assert d[o .. o + 4][0] == d[o] && d[o .. o + 4][3] == d[o + 3];
      assert d[o .. o + 4][1] == d[o + 1] && d[o .. o + 4][2] == d[o + 2];
    }
  }
}
