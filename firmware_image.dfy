/**
 * The configurator's view of a loaded firmware image: the image bytes, the
 * section offsets found by the marker scan, and the order in which
 * parse_firmware reads the sections and assemble_firmware writes them back.
 */
module Firmware {
  import opened Wrappers
  import opened Layout
  import opened ByteAccess
  import opened SectionLocator
  import opened Codec

  /** What the configurator edits: one value per writable section. */
  datatype Snapshot = Snapshot(
    config: Configuration,
    localLeds: seq<CarLight>,
    slaveLeds: seq<CarLight>,
    gammaId: seq<char>)

  /** Every section the configurator reads is present, and every read stays inside the image. */
  predicate Parsable(d: seq<Byte>, off: Offsets)
  {
    && ConfigSection in off && LocalLeds in off && SlaveLeds in off && GammaTable in off && LightPrograms in off
    && 0 <= off[ConfigSection] && off[ConfigSection] + CONFIG_SIZE <= |d|
    && LedsReadable(d, off[LocalLeds])
    && LedsReadable(d, off[SlaveLeds])
    && 0 <= off[GammaTable] && off[GammaTable] + GAMMA_HEADER_SIZE <= |d|
    && 0 <= off[LightPrograms]
  }

  predicate LedsReadable(d: seq<Byte>, o: int)
  {
    0 <= o && o + LED_HEADER_SIZE <= |d| && EntriesFit(|d|, LedTableOffset(d, o), d[o])
  }

  /** parse_firmware after the marker scan: configuration, local LEDs, slave LEDs, gamma. */
  function DecodeSections(d: seq<Byte>, off: Offsets): (s: Snapshot)
    requires Parsable(d, off)
    ensures s.config.InRange() && |s.gammaId| == GAMMA_ID_LENGTH
    ensures |s.localLeds| == d[off[LocalLeds]] && |s.slaveLeds| == d[off[SlaveLeds]]
  {
    Snapshot(
      DecodeConfiguration(d, off[ConfigSection]),
      DecodeLeds(d, off[LocalLeds]),
      DecodeLeds(d, off[SlaveLeds]),
      DecodeGamma(d, off[GammaTable]))
  }

  // ---------------------------------------------------------------------
  // Where assemble_firmware writes

  /** A half-open range of image offsets. */
  datatype Span = Span(lo: int, hi: int)
  {
    predicate Holds(j: int) { lo <= j < hi }
  }

  predicate Apart(a: Span, b: Span)
  {
    a.lo >= a.hi || b.lo >= b.hi || a.hi <= b.lo || b.hi <= a.lo
  }

  /** The bytes each step of assemble_firmware may write: the configuration
      payload, each LED header and table, and the gamma header and table. */
  function Footprints(d: seq<Byte>, off: Offsets, s: Snapshot, table: seq<Byte>): (f: seq<Span>)
    requires ConfigSection in off && LocalLeds in off && SlaveLeds in off && GammaTable in off
    requires 0 <= off[LocalLeds] && off[LocalLeds] + LED_HEADER_SIZE <= |d|
    requires 0 <= off[SlaveLeds] && off[SlaveLeds] + LED_HEADER_SIZE <= |d|
    ensures |f| == 6
  {
    var oc, ol, os, og := off[ConfigSection], off[LocalLeds], off[SlaveLeds], off[GammaTable];
    var bl, bs := LedTableOffset(d, ol), LedTableOffset(d, os);
    [Span(oc, oc + CONFIG_SIZE),
     Span(ol, ol + LED_HEADER_SIZE), Span(bl, bl + CAR_LIGHT_SIZE * |s.localLeds|),
     Span(os, os + LED_HEADER_SIZE), Span(bs, bs + CAR_LIGHT_SIZE * |s.slaveLeds|),
     Span(og, og + GAMMA_HEADER_SIZE + |table|)]
  }

  /** The sections are present, every write stays inside the image, the
      records to write are well formed, and no two sections share a byte. */
  predicate Assemblable(d: seq<Byte>, off: Offsets, s: Snapshot, table: seq<Byte>)
  {
    && ConfigSection in off && LocalLeds in off && SlaveLeds in off && GammaTable in off
    && 0 <= off[ConfigSection] && off[ConfigSection] + CONFIG_SIZE <= |d|
    && 0 <= off[LocalLeds] && off[LocalLeds] + LED_HEADER_SIZE <= |d|
    && 0 <= off[SlaveLeds] && off[SlaveLeds] + LED_HEADER_SIZE <= |d|
    && 0 <= off[GammaTable] && off[GammaTable] + GAMMA_HEADER_SIZE + |table| <= |d|
    && EntriesFit(|d|, LedTableOffset(d, off[LocalLeds]), |s.localLeds|)
    && EntriesFit(|d|, LedTableOffset(d, off[SlaveLeds]), |s.slaveLeds|)
    && (forall i | 0 <= i < |s.localLeds| :: s.localLeds[i].WellFormed())
    && (forall i | 0 <= i < |s.slaveLeds| :: s.slaveLeds[i].WellFormed())
    && AllApart(Footprints(d, off, s, table))
  }

  /** No two spans of `f` share an offset. */
  predicate AllApart(f: seq<Span>)
    decreases |f|
  {
    f == [] || ((forall k | 1 <= k < |f| :: Apart(f[0], f[k])) && AllApart(f[1..]))
  }

  lemma {:induction false} ApartPair(f: seq<Span>, i: int, k: int)
    requires AllApart(f) && 0 <= i < k < |f|
    ensures Apart(f[i], f[k])
    decreases i
  {
    if i > 0 {
      ApartPair(f[1..], i - 1, k - 1);
    }
  }

  /** `e` has the bytes of `d` wherever `sp` holds. */
  predicate Kept(d: seq<Byte>, e: seq<Byte>, sp: Span)
  {
    |d| == |e| && forall j | 0 <= j < |d| && sp.Holds(j) :: d[j] == e[j]
  }

  lemma ConfigWriteKeeps(d: seq<Byte>, o: int, c: Configuration, sp: Span)
    requires 0 <= o && o + CONFIG_SIZE <= |d|
    requires Apart(Span(o, o + CONFIG_SIZE), sp)
    ensures Kept(d, EncodeConfiguration(d, o, c), sp)
  {
  }

  lemma LedsWriteKeeps(d: seq<Byte>, o: int, leds: seq<CarLight>, sp: Span)
    requires 0 <= o && o + LED_HEADER_SIZE <= |d|
    requires EntriesFit(|d|, LedTableOffset(d, o), |leds|)
    requires forall i | 0 <= i < |leds| :: leds[i].WellFormed()
    requires Apart(Span(o, o + LED_HEADER_SIZE), sp)
    requires Apart(Span(LedTableOffset(d, o), LedTableOffset(d, o) + CAR_LIGHT_SIZE * |leds|), sp)
    ensures Kept(d, EncodeLeds(d, o, leds), sp)
  {
  }

  lemma GammaWriteKeeps(d: seq<Byte>, o: int, id: seq<char>, table: seq<Byte>, sp: Span)
    requires 0 <= o && o + GAMMA_HEADER_SIZE + |table| <= |d|
    requires Apart(Span(o, o + GAMMA_HEADER_SIZE + |table|), sp)
    ensures Kept(d, EncodeGamma(d, o, id, table), sp)
  {
  }

  /** A kept LED header points to the same table and holds the same count. */
  lemma KeptHeader(d: seq<Byte>, e: seq<Byte>, o: int)
    requires 0 <= o && o + LED_HEADER_SIZE <= |d|
    requires Kept(d, e, Span(o, o + LED_HEADER_SIZE))
    ensures LedTableOffset(e, o) == LedTableOffset(d, o) && e[o] == d[o]
  {
    assert d[o + 4] == e[o + 4] && d[o + 5] == e[o + 5] && d[o + 6] == e[o + 6] && d[o + 7] == e[o + 7];
  }

  /** Storing the configuration leaves an LED header elsewhere as it was. */
  lemma ConfigKeepsHeader(d: seq<Byte>, oc: int, c: Configuration, o: int)
    requires 0 <= oc && oc + CONFIG_SIZE <= |d|
    requires 0 <= o && o + LED_HEADER_SIZE <= |d|
    requires Apart(Span(oc, oc + CONFIG_SIZE), Span(o, o + LED_HEADER_SIZE))
    ensures var e := EncodeConfiguration(d, oc, c);
      LedTableOffset(e, o) == LedTableOffset(d, o) && e[o] == d[o]
  {
    ConfigWriteKeeps(d, oc, c, Span(o, o + LED_HEADER_SIZE));
    KeptHeader(d, EncodeConfiguration(d, oc, c), o);
  }

  /** Storing one LED section leaves the header of another as it was. */
  lemma LedsKeepHeader(d: seq<Byte>, ol: int, leds: seq<CarLight>, o: int)
    requires 0 <= ol && ol + LED_HEADER_SIZE <= |d|
    requires EntriesFit(|d|, LedTableOffset(d, ol), |leds|)
    requires forall i | 0 <= i < |leds| :: leds[i].WellFormed()
    requires 0 <= o && o + LED_HEADER_SIZE <= |d|
    requires Apart(Span(ol, ol + LED_HEADER_SIZE), Span(o, o + LED_HEADER_SIZE))
    requires Apart(Span(LedTableOffset(d, ol), LedTableOffset(d, ol) + CAR_LIGHT_SIZE * |leds|), Span(o, o + LED_HEADER_SIZE))
    ensures var e := EncodeLeds(d, ol, leds);
      LedTableOffset(e, o) == LedTableOffset(d, o) && e[o] == d[o]
  {
    LedsWriteKeeps(d, ol, leds, Span(o, o + LED_HEADER_SIZE));
    KeptHeader(d, EncodeLeds(d, ol, leds), o);
  }

  /** The image once assemble_configuration has run; both LED headers are untouched. */
  function AfterConfig(d: seq<Byte>, off: Offsets, s: Snapshot, table: seq<Byte>): (e: seq<Byte>)
    requires Assemblable(d, off, s, table)
    ensures |e| == |d|
    ensures LedTableOffset(e, off[LocalLeds]) == LedTableOffset(d, off[LocalLeds])
    ensures LedTableOffset(e, off[SlaveLeds]) == LedTableOffset(d, off[SlaveLeds])
  {
    var f := Footprints(d, off, s, table);
    ApartPair(f, 0, 1);
    ApartPair(f, 0, 3);
    ConfigKeepsHeader(d, off[ConfigSection], s.config, off[LocalLeds]);
    ConfigKeepsHeader(d, off[ConfigSection], s.config, off[SlaveLeds]);
    EncodeConfiguration(d, off[ConfigSection], s.config)
  }

  /** ... then the local LEDs; the slave header is still untouched. */
  function AfterLocal(d: seq<Byte>, off: Offsets, s: Snapshot, table: seq<Byte>): (e: seq<Byte>)
    requires Assemblable(d, off, s, table)
    ensures |e| == |d|
    ensures LedTableOffset(e, off[SlaveLeds]) == LedTableOffset(d, off[SlaveLeds])
  {
    var f := Footprints(d, off, s, table);
    ApartPair(f, 1, 3);
    ApartPair(f, 2, 3);
    var e1 := AfterConfig(d, off, s, table);
    LedsKeepHeader(e1, off[LocalLeds], s.localLeds, off[SlaveLeds]);
    EncodeLeds(e1, off[LocalLeds], s.localLeds)
  }

  /** ... then the slave LEDs. */
  function AfterSlave(d: seq<Byte>, off: Offsets, s: Snapshot, table: seq<Byte>): (e: seq<Byte>)
    requires Assemblable(d, off, s, table)
    ensures |e| == |d|
  {
    EncodeLeds(AfterLocal(d, off, s, table), off[SlaveLeds], s.slaveLeds)
  }

  /** assemble_firmware: the configuration, the local LEDs, the slave LEDs
      and the gamma section, stored in that order; assemble_light_programs
      stores nothing. */
  function EncodeFirmware(d: seq<Byte>, off: Offsets, s: Snapshot, table: seq<Byte>): (r: seq<Byte>)
    requires Assemblable(d, off, s, table)
    ensures |r| == |d|
  {
    EncodeGamma(AfterSlave(d, off, s, table), off[GammaTable], s.gammaId, table)
  }

  /** LED records parsed from `a` parse the same from `c` when `c` kept
      their header and table. */
  lemma LedsSurvive(a: seq<Byte>, c: seq<Byte>, o: int, leds: seq<CarLight>, header: Span, tbl: Span)
    requires LedsReadable(a, o) && DecodeLeds(a, o) == leds
    requires header == Span(o, o + LED_HEADER_SIZE)
    requires tbl == Span(LedTableOffset(a, o), LedTableOffset(a, o) + CAR_LIGHT_SIZE * |leds|)
    requires Kept(a, c, header) && Kept(a, c, tbl)
    ensures LedsReadable(c, o) && DecodeLeds(c, o) == leds
  {
    KeptHeader(a, c, o);
    SameBytesSameLeds(a, c, o);
  }

  /** Kept is transitive. */
  lemma KeptTrans(a: seq<Byte>, b: seq<Byte>, c: seq<Byte>, sp: Span)
    requires Kept(a, b, sp) && Kept(b, c, sp)
    ensures Kept(a, c, sp)
  {
  }

  lemma LedsKeepConfig(e: seq<Byte>, o: int, leds: seq<CarLight>, oc: int)
    requires 0 <= o && o + LED_HEADER_SIZE <= |e|
    requires EntriesFit(|e|, LedTableOffset(e, o), |leds|)
    requires forall i | 0 <= i < |leds| :: leds[i].WellFormed()
    requires 0 <= oc && oc + CONFIG_SIZE <= |e|
    requires Apart(Span(o, o + LED_HEADER_SIZE), Span(oc, oc + CONFIG_SIZE))
    requires Apart(Span(LedTableOffset(e, o), LedTableOffset(e, o) + CAR_LIGHT_SIZE * |leds|), Span(oc, oc + CONFIG_SIZE))
    ensures DecodeConfiguration(EncodeLeds(e, o, leds), oc) == DecodeConfiguration(e, oc)
  {
    LedsWriteKeeps(e, o, leds, Span(oc, oc + CONFIG_SIZE));
    SameBytesSameConfiguration(e, EncodeLeds(e, o, leds), oc);
  }

  lemma GammaKeepsConfig(e: seq<Byte>, og: int, id: seq<char>, table: seq<Byte>, oc: int)
    requires 0 <= og && og + GAMMA_HEADER_SIZE + |table| <= |e|
    requires 0 <= oc && oc + CONFIG_SIZE <= |e|
    requires Apart(Span(og, og + GAMMA_HEADER_SIZE + |table|), Span(oc, oc + CONFIG_SIZE))
    ensures DecodeConfiguration(EncodeGamma(e, og, id, table), oc) == DecodeConfiguration(e, oc)
  {
    GammaWriteKeeps(e, og, id, table, Span(oc, oc + CONFIG_SIZE));
    SameBytesSameConfiguration(e, EncodeGamma(e, og, id, table), oc);
  }

  lemma LedsKeepLeds(e: seq<Byte>, o: int, leds: seq<CarLight>, ol: int)
    requires 0 <= o && o + LED_HEADER_SIZE <= |e|
    requires EntriesFit(|e|, LedTableOffset(e, o), |leds|)
    requires forall i | 0 <= i < |leds| :: leds[i].WellFormed()
    requires LedsReadable(e, ol)
    requires Apart(Span(o, o + LED_HEADER_SIZE), Span(ol, ol + LED_HEADER_SIZE))
    requires Apart(Span(LedTableOffset(e, o), LedTableOffset(e, o) + CAR_LIGHT_SIZE * |leds|), Span(ol, ol + LED_HEADER_SIZE))
    requires Apart(Span(o, o + LED_HEADER_SIZE), Span(LedTableOffset(e, ol), LedTableOffset(e, ol) + CAR_LIGHT_SIZE * e[ol]))
    requires Apart(Span(LedTableOffset(e, o), LedTableOffset(e, o) + CAR_LIGHT_SIZE * |leds|),
                   Span(LedTableOffset(e, ol), LedTableOffset(e, ol) + CAR_LIGHT_SIZE * e[ol]))
    ensures LedsReadable(EncodeLeds(e, o, leds), ol)
    ensures DecodeLeds(EncodeLeds(e, o, leds), ol) == DecodeLeds(e, ol)
  {
    var r := EncodeLeds(e, o, leds);
    LedsWriteKeeps(e, o, leds, Span(ol, ol + LED_HEADER_SIZE));
    LedsWriteKeeps(e, o, leds, Span(LedTableOffset(e, ol), LedTableOffset(e, ol) + CAR_LIGHT_SIZE * e[ol]));
    LedsSurvive(e, r, ol, DecodeLeds(e, ol), Span(ol, ol + LED_HEADER_SIZE),
      Span(LedTableOffset(e, ol), LedTableOffset(e, ol) + CAR_LIGHT_SIZE * e[ol]));
  }

  lemma GammaKeepsLeds(e: seq<Byte>, og: int, id: seq<char>, table: seq<Byte>, ol: int)
    requires 0 <= og && og + GAMMA_HEADER_SIZE + |table| <= |e|
    requires LedsReadable(e, ol)
    requires Apart(Span(og, og + GAMMA_HEADER_SIZE + |table|), Span(ol, ol + LED_HEADER_SIZE))
    requires Apart(Span(og, og + GAMMA_HEADER_SIZE + |table|),
                   Span(LedTableOffset(e, ol), LedTableOffset(e, ol) + CAR_LIGHT_SIZE * e[ol]))
    ensures LedsReadable(EncodeGamma(e, og, id, table), ol)
    ensures DecodeLeds(EncodeGamma(e, og, id, table), ol) == DecodeLeds(e, ol)
  {
    var r := EncodeGamma(e, og, id, table);
    GammaWriteKeeps(e, og, id, table, Span(ol, ol + LED_HEADER_SIZE));
    GammaWriteKeeps(e, og, id, table, Span(LedTableOffset(e, ol), LedTableOffset(e, ol) + CAR_LIGHT_SIZE * e[ol]));
    LedsSurvive(e, r, ol, DecodeLeds(e, ol), Span(ol, ol + LED_HEADER_SIZE),
      Span(LedTableOffset(e, ol), LedTableOffset(e, ol) + CAR_LIGHT_SIZE * e[ol]));
  }

  /** The configuration is stored first; the two LED sections that follow
      lie elsewhere ... */
  lemma ConfigKeptByLeds(d: seq<Byte>, off: Offsets, s: Snapshot, table: seq<Byte>)
    requires Assemblable(d, off, s, table)
    requires s.config.InRange()
    ensures DecodeConfiguration(AfterSlave(d, off, s, table), off[ConfigSection]) == s.config
  {
    var f := Footprints(d, off, s, table);
    ApartPair(f, 0, 1);
    ApartPair(f, 0, 2);
    ApartPair(f, 0, 3);
    ApartPair(f, 0, 4);
    var oc := off[ConfigSection];
    ConfigurationRoundTrip(d, oc, s.config);
    LedsKeepConfig(AfterConfig(d, off, s, table), off[LocalLeds], s.localLeds, oc);
    LedsKeepConfig(AfterLocal(d, off, s, table), off[SlaveLeds], s.slaveLeds, oc);
  }

  /** ... and so does the gamma section, stored last. */
  lemma ConfigSurvives(d: seq<Byte>, off: Offsets, s: Snapshot, table: seq<Byte>)
    requires Assemblable(d, off, s, table)
    requires s.config.InRange()
    ensures DecodeConfiguration(EncodeFirmware(d, off, s, table), off[ConfigSection]) == s.config
  {
    var f := Footprints(d, off, s, table);
    ApartPair(f, 0, 5);
    ConfigKeptByLeds(d, off, s, table);
    GammaKeepsConfig(AfterSlave(d, off, s, table), off[GammaTable], s.gammaId, table, off[ConfigSection]);
  }

  /** The local LEDs read back right after they are stored. */
  lemma LocalLedsStored(d: seq<Byte>, off: Offsets, s: Snapshot, table: seq<Byte>)
    requires Assemblable(d, off, s, table)
    requires |s.localLeds| < 0x100
    ensures var e := AfterLocal(d, off, s, table);
      && LedsReadable(e, off[LocalLeds]) && DecodeLeds(e, off[LocalLeds]) == s.localLeds
      && LedTableOffset(e, off[LocalLeds]) == LedTableOffset(d, off[LocalLeds])
  {
    var f := Footprints(d, off, s, table);
    ApartPair(f, 1, 2);
    LedsRoundTrip(AfterConfig(d, off, s, table), off[LocalLeds], s.localLeds);
  }

  /** Storing an LED section whose header and table lie apart from those of
      another LED section keeps the other one readable, unchanged, and
      pointing at the same table. */
  lemma LedsStepKeepsLeds(e: seq<Byte>, ol: int, bl: int, local: seq<CarLight>,
                          os: int, bs: int, slave: seq<CarLight>)
    requires LedsReadable(e, ol) && DecodeLeds(e, ol) == local
    requires LedTableOffset(e, ol) == bl && e[ol] == |local|
    requires 0 <= os && os + LED_HEADER_SIZE <= |e| && LedTableOffset(e, os) == bs
    requires EntriesFit(|e|, bs, |slave|)
    requires forall i | 0 <= i < |slave| :: slave[i].WellFormed()
    requires Apart(Span(ol, ol + LED_HEADER_SIZE), Span(os, os + LED_HEADER_SIZE))
    requires Apart(Span(ol, ol + LED_HEADER_SIZE), Span(bs, bs + CAR_LIGHT_SIZE * |slave|))
    requires Apart(Span(bl, bl + CAR_LIGHT_SIZE * |local|), Span(os, os + LED_HEADER_SIZE))
    requires Apart(Span(bl, bl + CAR_LIGHT_SIZE * |local|), Span(bs, bs + CAR_LIGHT_SIZE * |slave|))
    ensures var r := EncodeLeds(e, os, slave);
      LedsReadable(r, ol) && DecodeLeds(r, ol) == local && LedTableOffset(r, ol) == bl
  {
    LedsKeepLeds(e, os, slave, ol);
    LedsKeepHeader(e, os, slave, ol);
  }

  /** ... and storing the slave LEDs, elsewhere, keeps them. */
  lemma LocalLedsKeptBySlave(d: seq<Byte>, off: Offsets, s: Snapshot, table: seq<Byte>)
    requires Assemblable(d, off, s, table)
    requires |s.localLeds| < 0x100
    ensures var e := AfterSlave(d, off, s, table);
      && LedsReadable(e, off[LocalLeds]) && DecodeLeds(e, off[LocalLeds]) == s.localLeds
      && LedTableOffset(e, off[LocalLeds]) == LedTableOffset(d, off[LocalLeds])
  {
    var f := Footprints(d, off, s, table);
    ApartPair(f, 1, 3);
    ApartPair(f, 1, 4);
    ApartPair(f, 2, 3);
    ApartPair(f, 2, 4);
    LocalLedsStored(d, off, s, table);
    LedsStepKeepsLeds(AfterLocal(d, off, s, table), off[LocalLeds], LedTableOffset(d, off[LocalLeds]), s.localLeds,
      off[SlaveLeds], LedTableOffset(d, off[SlaveLeds]), s.slaveLeds);
  }

  /** The local LEDs are stored second; only the slave LEDs and the gamma
      section follow, elsewhere. */
  lemma LocalLedsSurvive(d: seq<Byte>, off: Offsets, s: Snapshot, table: seq<Byte>)
    requires Assemblable(d, off, s, table)
    requires |s.localLeds| < 0x100
    ensures LedsReadable(EncodeFirmware(d, off, s, table), off[LocalLeds])
    ensures DecodeLeds(EncodeFirmware(d, off, s, table), off[LocalLeds]) == s.localLeds
  {
    var f := Footprints(d, off, s, table);
    ApartPair(f, 1, 5);
    ApartPair(f, 2, 5);
    LocalLedsKeptBySlave(d, off, s, table);
    GammaKeepsLeds(AfterSlave(d, off, s, table), off[GammaTable], s.gammaId, table, off[LocalLeds]);
  }

  /** The slave LEDs are stored third; only the gamma section follows, elsewhere. */
  lemma SlaveLedsSurvive(d: seq<Byte>, off: Offsets, s: Snapshot, table: seq<Byte>)
    requires Assemblable(d, off, s, table)
    requires |s.slaveLeds| < 0x100
    ensures LedsReadable(EncodeFirmware(d, off, s, table), off[SlaveLeds])
    ensures DecodeLeds(EncodeFirmware(d, off, s, table), off[SlaveLeds]) == s.slaveLeds
  {
    var f := Footprints(d, off, s, table);
    ApartPair(f, 3, 4);
    ApartPair(f, 3, 5);
    ApartPair(f, 4, 5);
    LedsRoundTrip(AfterLocal(d, off, s, table), off[SlaveLeds], s.slaveLeds);
    GammaKeepsLeds(AfterSlave(d, off, s, table), off[GammaTable], s.gammaId, table, off[SlaveLeds]);
  }

  /**
   * Assembling an image whose sections do not overlap and parsing it again
   * gives back what was assembled: the configuration (its fields within
   * their widths), both LED banks (fewer than 256 LEDs each) and a gamma
   * identifier of three 8-bit characters.
   */
  lemma FirmwareRoundTrip(d: seq<Byte>, off: Offsets, s: Snapshot, table: seq<Byte>)
    requires Assemblable(d, off, s, table)
    requires LightPrograms in off && 0 <= off[LightPrograms]
    requires s.config.InRange()
    requires |s.localLeds| < 0x100 && |s.slaveLeds| < 0x100
    requires |s.gammaId| == GAMMA_ID_LENGTH && forall k | 0 <= k < GAMMA_ID_LENGTH :: s.gammaId[k] as int < 0x100
    ensures Parsable(EncodeFirmware(d, off, s, table), off)
    ensures DecodeSections(EncodeFirmware(d, off, s, table), off) == s
  {
    ConfigSurvives(d, off, s, table);
    LocalLedsSurvive(d, off, s, table);
    SlaveLedsSurvive(d, off, s, table);
    GammaRoundTrip(AfterSlave(d, off, s, table), off[GammaTable], s.gammaId, table);
  }
}
