/**
 * The configurator's loaded firmware (the `firmware` object: the image bytes
 * and the section offsets) and the procedures that read sections out of it
 * and store edited sections back into it, in place, one byte at a time.
 * Each procedure is proved to leave the image exactly as the corresponding
 * codec function describes, so everything proved about the codec functions
 * (round trips, re-encoding, section independence) holds of the procedures.
 */
module Configurator {
  import opened Wrappers
  import opened Layout
  import opened ByteAccess
  import opened SectionLocator
  import opened Codec
  import opened Firmware

  /** parse_firmware_structure: the marker scan over a decoded image. A known
      section with a version other than 1 makes the load fail. */
  method Load(image: seq<Byte>) returns (r: Result<FirmwareImage, ScanError>)
    ensures r.Err? <==> Scan(image, |image|).Err?
    ensures r.Err? ==> r.error == Scan(image, |image|).error
    ensures r.Ok? ==> fresh(r.value.data) && r.value.data[..] == image
    ensures r.Ok? ==> r.value.offset == Scan(image, |image|).value
  {
    var offsets := FindMagicMarkers(image);
    match offsets
    case Err(e) =>
      r := Err(e);
    case Ok(m) =>
      var f := new FirmwareImage(image, m);
      r := Ok(f);
  }

  /** PutU16s stores its last value after all the others. */
  lemma PutU16sStep(d: seq<Byte>, p: int, vs: seq<int>, k: int)
    requires 0 <= p && p + 2 * |vs| <= |d| && 0 <= k < |vs|
    ensures PutU16s(d, p, vs[..k + 1]) == PutU16(PutU16s(d, p, vs[..k]), p + 2 * k, vs[k])
  {
    assert vs[..k + 1][..k] == vs[..k];
  }

  /** The run of set_uint16 calls that stores the configuration counters:
      `vs[k]` at `p + 2 * k`, in layout order. */
  method SetU16s(a: array<Byte>, p: int, vs: seq<int>)
    requires 0 <= p && p + 2 * |vs| <= a.Length
    modifies a
    ensures a[..] == PutU16s(old(a[..]), p, vs)
  {
    ghost var d := a[..];
    assert vs[..0] == [];
    var k := 0;
    while k < |vs|
      invariant 0 <= k <= |vs|
      invariant a[..] == PutU16s(d, p, vs[..k])
    {
      SetU16(a, p + 2 * k, vs[k]);
      PutU16sStep(d, p, vs, k);
      k := k + 1;
    }
    assert vs[..|vs|] == vs;
  }

  /** The stores of assemble_configuration into the record at `o`: mode,
      ESC mode, the flag word, the counters in layout order (the two bytes of
      padding at +42 are skipped), the baud rate and the no-signal timeout. */
  method StoreConfiguration(a: array<Byte>, o: int, c: Configuration)
    requires 0 <= o && o + CONFIG_SIZE <= a.Length
    modifies a
    ensures a[..] == EncodeConfiguration(old(a[..]), o, c)
  {
    ghost var d1, d2, d3, d4 := EncodeStages(a[..], o, c);
    SetByte(a, o, c.mode);
    SetByte(a, o + 1, c.escMode);
    SetU32(a, o + 4, PackFlags(c.Flags()));
    SetU16s(a, o + 8, c.Counters());
    SetU32(a, o + 44, c.baudrate);
    SetU16(a, o + 48, c.noSignalTimeout);
  }

  /** assemble_led: one CAR_LIGHT_T record stored at `p`. */
  method StoreLed(a: array<Byte>, p: int, l: CarLight)
    requires 0 <= p && p + CAR_LIGHT_SIZE <= a.Length && l.WellFormed()
    modifies a
    ensures a[..] == EncodeCarLight(old(a[..]), p, l)
  {
    SetBytes(a, p, [l.maxChangePerSystick, l.reductionPercent]);
    SetU16(a, p + 2, PackFlags(l.weak));
    SetBytes(a, p + FEATURES_SIZE, l.Levels());
  }

  /** EncodeEntries stores its records one at a time, in order. */
  lemma EntriesStep(d: seq<Byte>, base: int, leds: seq<CarLight>, i: int)
    requires EntriesFit(|d|, base, |leds|) && 0 <= i < |leds|
    requires forall k | 0 <= k < |leds| :: leds[k].WellFormed()
    ensures EncodeEntries(d, base, leds[..i + 1])
         == EncodeCarLight(EncodeEntries(d, base, leds[..i]), EntryOffset(base, i), leds[i])
  {
    var p := leds[..i + 1];
    assert p[..i] == leds[..i];
    LastEntry(d, base, p);
  }

  /** The loop of assemble_leds: record i stored at `base + 20 * i`, in order. */
  method StoreEntries(a: array<Byte>, base: int, leds: seq<CarLight>)
    requires EntriesFit(a.Length, base, |leds|)
    requires forall i | 0 <= i < |leds| :: leds[i].WellFormed()
    modifies a
    ensures a[..] == EncodeEntries(old(a[..]), base, leds)
  {
    ghost var d := a[..];
    var i := 0;
    while i < |leds|
      invariant 0 <= i <= |leds|
      invariant a[..] == EncodeEntries(d, base, leds[..i])
    {
      StoreLed(a, EntryOffset(base, i), leds[i]);
      EntriesStep(d, base, leds, i);
      i := i + 1;
    }
    assert leds[..|leds|] == leds;
  }

  /** The stores of assemble_leds into the section at `o`: the count at +0,
      then the records at the table whose offset is stored at +4. */
  method StoreLeds(a: array<Byte>, o: int, leds: seq<CarLight>)
    requires 0 <= o && o + LED_HEADER_SIZE <= a.Length
    requires EntriesFit(a.Length, LedTableOffset(a[..], o), |leds|)
    requires forall i | 0 <= i < |leds| :: leds[i].WellFormed()
    modifies a
    ensures a[..] == EncodeLeds(old(a[..]), o, leds)
  {
    var base := GetU32(a[..], o + 4);
    SetByte(a, o, |leds|);
    StoreEntries(a, base, leds);
  }

  /** The stores of assemble_gamma into the section at `o`: three UTF-16
      code units (0 past the end of the identifier), then the table from +4. */
  method StoreGamma(a: array<Byte>, o: int, id: seq<char>, table: seq<Byte>)
    requires 0 <= o && o + GAMMA_HEADER_SIZE + |table| <= a.Length
    modifies a
    ensures a[..] == EncodeGamma(old(a[..]), o, id, table)
  {
    SetByte(a, o, CharCodeAt(id, 0));
    SetByte(a, o + 1, CharCodeAt(id, 1));
    SetByte(a, o + 2, CharCodeAt(id, 2));
    SetBytes(a, o + GAMMA_HEADER_SIZE, table);
  }

  class FirmwareImage {
    /** firmware.data: the image, one byte per element. */
    const data: array<Byte>
    /** firmware.offset: where each section's payload starts. */
    const offset: Offsets

    constructor (image: seq<Byte>, offset: Offsets)
      ensures fresh(data) && data[..] == image && this.offset == offset
    {
      data := new Byte[|image|](i requires 0 <= i < |image| => image[i]);
      this.offset := offset;
    }

    /** parse_leds: the section's led_count records, read from the table its
        header points to. */
    method ParseLeds(section: Section) returns (leds: seq<CarLight>)
      requires section in offset && LedsReadable(data[..], offset[section])
      ensures leds == DecodeLeds(data[..], offset[section])
    {
      var o := offset[section];
      var count := data[o];
      var base := GetU32(data[..], o + 4);
      leds := [];
      var i := 0;
      while i < count
        invariant 0 <= i <= count
        invariant leds == DecodeLeds(data[..], o)[..i]
      {
        leds := leds + [DecodeCarLight(data[..], EntryOffset(base, i))];
        i := i + 1;
      }
    }

    /** parse_firmware after the scan: the configuration, both LED banks, the
        light-program words and the gamma identifier, in that order. */
    method ParseSections() returns (s: Snapshot, programs: seq<int>)
      requires Parsable(data[..], offset)
      ensures s == DecodeSections(data[..], offset)
      ensures programs == ProgramWords(data[..], offset[LightPrograms])
    {
      var config := DecodeConfiguration(data[..], offset[ConfigSection]);
      var localLeds := ParseLeds(LocalLeds);
      var slaveLeds := ParseLeds(SlaveLeds);
      var first := offset[LightPrograms] + FIRST_PROGRAM_OFFSET;
      if first <= data.Length {
        programs := Uint8ArrayToUint32(data[first..]);
      } else {
        programs := [];
      }
      var gammaId := DecodeGamma(data[..], offset[GammaTable]);
      s := Snapshot(config, localLeds, slaveLeds, gammaId);
    }

    /** assemble_configuration: the record's fields stored at their offsets. */
    method AssembleConfiguration(c: Configuration)
      requires ConfigSection in offset
      requires 0 <= offset[ConfigSection] && offset[ConfigSection] + CONFIG_SIZE <= data.Length
      modifies data
      ensures data[..] == EncodeConfiguration(old(data[..]), offset[ConfigSection], c)
    {
      StoreConfiguration(data, offset[ConfigSection], c);
    }

    /** assemble_leds: the LED count stored at +0, then every record stored
        in order at the table the section header points to. */
    method AssembleLeds(section: Section, leds: seq<CarLight>)
      requires section in offset
      requires 0 <= offset[section] && offset[section] + LED_HEADER_SIZE <= data.Length
      requires EntriesFit(data.Length, LedTableOffset(data[..], offset[section]), |leds|)
      requires forall i | 0 <= i < |leds| :: leds[i].WellFormed()
      modifies data
      ensures data[..] == EncodeLeds(old(data[..]), offset[section], leds)
    {
      StoreLeds(data, offset[section], leds);
    }

    /** assemble_gamma: the identifier's first three UTF-16 code units, then the
        gamma table from +4. */
    method AssembleGamma(id: seq<char>, table: seq<Byte>)
      requires GammaTable in offset
      requires 0 <= offset[GammaTable] && offset[GammaTable] + GAMMA_HEADER_SIZE + |table| <= data.Length
      modifies data
      ensures data[..] == EncodeGamma(old(data[..]), offset[GammaTable], id, table)
    {
      StoreGamma(data, offset[GammaTable], id, table);
    }

    /** assemble_firmware: the configuration, the local LEDs, the slave LEDs,
        the light programs (which store nothing) and the gamma section. */
    method AssembleFirmware(s: Snapshot, table: seq<Byte>)
      requires Assemblable(data[..], offset, s, table)
      modifies data
      ensures data[..] == EncodeFirmware(old(data[..]), offset, s, table)
    {
      ghost var d0 := data[..];
      AssembleConfiguration(s.config);
      assert data[..] == AfterConfig(d0, offset, s, table);
      AssembleLeds(LocalLeds, s.localLeds);
      assert data[..] == AfterLocal(d0, offset, s, table);
      AssembleLeds(SlaveLeds, s.slaveLeds);
      assert data[..] == AfterSlave(d0, offset, s, table);
      AssembleGamma(s.gammaId, table);
    }
  }
}
