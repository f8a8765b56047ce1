/**
 * The section locator of the configurator (find_magic_markers): one pass
 * over every byte index of the image looking for the ROM_MAGIC signature,
 * reading the section tag and the version that follow it, and recording
 * where each known section's payload starts.
 *
 * Reads past the end of the image give JavaScript's `undefined`; in
 * `(d[k + 1] << 8) + d[k]` a missing high byte shifts to 0 while a missing
 * low byte makes the sum NaN. HalfWordAt models that, with None for NaN.
 */
module SectionLocator {
  import opened Wrappers
  import opened Layout

  const SIGNATURE: seq<Byte> := [0x4c, 0x42, 0x72, 0x63]

  type Offsets = map<Section, int>

  /** The error thrown for a known section with a version other than 1;
      `version` is None when the version bytes lie past the end (NaN). */
  datatype ScanError = UnknownConfigurationVersion(version: Option<int>)

  /** The four bytes at `i` are the signature (a shorter slice never matches). */
  predicate SignatureAt(d: seq<Byte>, i: int)
  {
    0 <= i && i + 4 <= |d| && d[i..i + 4] == SIGNATURE
  }

  /** `(d[k + 1] << 8) + d[k]` in JavaScript, None standing for NaN. */
  function HalfWordAt(d: seq<Byte>, k: int): (r: Option<int>)
    requires 0 <= k
    ensures k + 2 <= |d| ==> r == Some(d[k] as int + 256 * d[k + 1] as int)
    ensures r.None? <==> |d| <= k
  {
    if |d| <= k then None
    else if |d| <= k + 1 then Some(d[k] as int)
    else Some(d[k + 1] as int * 0x100 + d[k] as int)
  }

  /** The known section whose tag follows position `i`, if any. */
  function TagAt(d: seq<Byte>, i: int): Option<Section>
    requires 0 <= i
  {
    match HalfWordAt(d, i + 4)
    case None => None
    case Some(t) => SectionOfTag(t)
  }

  /** A marker of section `s` starts at `i`. */
  predicate MarkerOf(d: seq<Byte>, i: int, s: Section)
  {
    SignatureAt(d, i) && TagAt(d, i) == Some(s)
  }

  /** A marker of a known section with a version other than 1 starts at `i`. */
  predicate BadVersionAt(d: seq<Byte>, i: int)
  {
    SignatureAt(d, i) && TagAt(d, i).Some? && HalfWordAt(d, i + 6) != Some(CONFIG_VERSION)
  }

  /** What the scan does at index `i` given the offsets found so far. */
  function ScanStep(d: seq<Byte>, i: int, m: Offsets): (r: Result<Offsets, ScanError>)
    requires 0 <= i
    ensures r.Err? <==> BadVersionAt(d, i)
    ensures r.Err? ==> r.error.version == HalfWordAt(d, i + 6)
    ensures r.Ok? && !(SignatureAt(d, i) && TagAt(d, i).Some?) ==> r.value == m
    ensures r.Ok? && SignatureAt(d, i) && TagAt(d, i).Some? ==> r.value == m[TagAt(d, i).value := i + MAGIC_SIZE]
  {
    if !SignatureAt(d, i) then Ok(m)
    else match TagAt(d, i)
      case None => Ok(m)  // unknown section: only a warning, the scan goes on
      case Some(s) =>
        var version := HalfWordAt(d, i + 6);
        if version != Some(CONFIG_VERSION) then Err(UnknownConfigurationVersion(version))
        else Ok(m[s := i + MAGIC_SIZE])
  }

  /** The outcome of scanning indices 0 .. n - 1. */
  function Scan(d: seq<Byte>, n: nat): (r: Result<Offsets, ScanError>)
    requires n <= |d|
    ensures r.Ok? ==> forall s | s in r.value :: MAGIC_SIZE <= r.value[s] < n + MAGIC_SIZE
  {
    if n == 0 then Ok(map[])
    else match Scan(d, n - 1)
      case Err(e) => Err(e)
      case Ok(m) => ScanStep(d, n - 1, m)
  }

  method FindMagicMarkers(image: seq<Byte>) returns (r: Result<Offsets, ScanError>)
    ensures r == Scan(image, |image|)
  {
    var result: Offsets := map[];
    var i := 0;
    while i < |image|
      invariant 0 <= i <= |image|
      invariant Scan(image, i) == Ok(result)
    {
      if SignatureAt(image, i) {
        var sectionId := HalfWordAt(image, i + 4);
        var version := HalfWordAt(image, i + 6);
        var section := if sectionId.Some? then SectionOfTag(sectionId.value) else None;
        // An unknown section is only reported; the scan goes on.
        if section.Some? {
          if version != Some(CONFIG_VERSION) {
            ScanErrorPersists(image, i + 1, |image|);
            return Err(UnknownConfigurationVersion(version));
          }
          result := result[section.value := i + MAGIC_SIZE];
        }
      }
      i := i + 1;
    }
    r := Ok(result);
  }

  /** Once the scan has thrown, later indices do not change the outcome. */
  lemma {:induction false} ScanErrorPersists(d: seq<Byte>, i: nat, n: nat)
    requires i <= n <= |d|
    requires Scan(d, i).Err?
    ensures Scan(d, n) == Scan(d, i)
    decreases n - i
  {
    if i < n {
      ScanErrorPersists(d, i, n - 1);
    }
  }

  /** The scan throws exactly when some known-section marker carries a
      version other than 1, and the error reports the first such version.
      Markers of unknown sections never make it throw. */
  lemma {:induction false} ScanFailsIff(d: seq<Byte>, n: nat)
    requires n <= |d|
    ensures Scan(d, n).Err? <==> exists i :: 0 <= i < n && BadVersionAt(d, i)
    ensures Scan(d, n).Err? ==>
      exists i :: (0 <= i < n && BadVersionAt(d, i) && Scan(d, n).error.version == HalfWordAt(d, i + 6)
                   && forall j :: 0 <= j < i ==> !BadVersionAt(d, j))
  {
    if n > 0 {
      ScanFailsIff(d, n - 1);
      if Scan(d, n - 1).Ok? {
        assert Scan(d, n).Err? <==> BadVersionAt(d, n - 1);
      }
    }
  }

  /** On success the offsets hold exactly the known sections that have a marker ... */
  lemma {:induction false} ScanFindsEveryMarker(d: seq<Byte>, n: nat, s: Section)
    requires n <= |d|
    requires Scan(d, n).Ok?
    ensures s in Scan(d, n).value <==> exists i :: 0 <= i < n && MarkerOf(d, i, s)
  {
    if n > 0 {
      ScanFindsEveryMarker(d, n - 1, s);
      StepEffect(d, n - 1, Scan(d, n - 1).value, s);
    }
  }

  /** ... and each one points 8 bytes past the LAST marker of its kind. */
  lemma {:induction false} ScanLastWins(d: seq<Byte>, n: nat, s: Section)
    requires n <= |d|
    requires Scan(d, n).Ok?
    requires s in Scan(d, n).value
    ensures var at := Scan(d, n).value[s] - MAGIC_SIZE;
      0 <= at < n && MarkerOf(d, at, s) && forall j :: at < j < n ==> !MarkerOf(d, j, s)
  {
    assert Scan(d, n - 1).Ok?;
    var m := Scan(d, n - 1).value;
    assert Scan(d, n) == ScanStep(d, n - 1, m);
    StepEffect(d, n - 1, m, s);
    if !MarkerOf(d, n - 1, s) {
      ScanLastWins(d, n - 1, s);
      var at := m[s] - MAGIC_SIZE;
      assert m[s] == Scan(d, n).value[s];
      forall j | at < j < n ensures !MarkerOf(d, j, s) {
        assert j < n - 1 || j == n - 1;
      }
    }
  }

  /** One scan step records section `s` at `i + 8` when a marker of `s`
      starts at `i`, and leaves the entry of `s` alone otherwise. */
  lemma StepEffect(d: seq<Byte>, i: nat, m: Offsets, s: Section)
    requires ScanStep(d, i, m).Ok?
    ensures MarkerOf(d, i, s) ==> ScanStep(d, i, m).value == m[s := i + MAGIC_SIZE]
    ensures !MarkerOf(d, i, s) ==>
      (s in ScanStep(d, i, m).value <==> s in m) &&
      (s in m ==> ScanStep(d, i, m).value[s] == m[s])
  {
  }

  /** A MAGIC_T header of version 1 laid down at `i` is found by the scan
      step as a marker of its section, with the payload right after it. */
  lemma HeaderIsFound(d: seq<Byte>, i: nat, s: Section, m: Offsets)
    requires i + MAGIC_SIZE <= |d|
    requires d[i..i + MAGIC_SIZE] == MarkerHeader(s, CONFIG_VERSION)
    ensures MarkerOf(d, i, s) && !BadVersionAt(d, i)
    ensures ScanStep(d, i, m) == Ok(m[s := i + 8])
  {
    var h := MarkerHeader(s, CONFIG_VERSION);
    assert d[i..i + 4] == h[..4];
    assert d[i + 4] == h[4] && d[i + 5] == h[5] && d[i + 6] == h[6] && d[i + 7] == h[7];
    SectionTagRoundTrip(s);
  }

  /** A marker in the last 7 bytes still yields an offset, one that lies past
      the end of the image. */
  lemma MarkerAtEndOfImage()
    ensures Scan(SIGNATURE + [0x01, 0x00, 0x01], 7) == Ok(map[ConfigSection := 8])
  {
    var d := SIGNATURE + [0x01, 0x00, 0x01];
    assert d[0..4] == SIGNATURE;
    assert !SignatureAt(d, 1) by { assert d[1..5][0] == d[1] == 0x42; }
    assert !SignatureAt(d, 2) by { assert d[2..6][0] == d[2] == 0x72; }
    assert !SignatureAt(d, 3) by { assert d[3..7][0] == d[3] == 0x63; }
    var m := map[ConfigSection := 8];
    assert Scan(d, 1) == Ok(m);
    assert Scan(d, 2) == Ok(m);
    assert Scan(d, 3) == Ok(m);
    assert Scan(d, 4) == Ok(m);
    assert Scan(d, 5) == Ok(m);
    assert Scan(d, 6) == Ok(m);
  }

  /** A known tag whose version bytes are missing throws with a NaN version;
      an unknown tag is skipped whatever version follows it. */
  lemma TruncatedAndUnknownMarkers()
    ensures Scan(SIGNATURE + [0x10], 5) == Err(UnknownConfigurationVersion(None))
    ensures Scan(SIGNATURE + [0x03, 0x00, 0x07, 0x00], 8) == Ok(map[])
  {
    var d := SIGNATURE + [0x10];
    assert d[0..4] == SIGNATURE;
    assert Scan(d, 1).Err?;
    ScanErrorPersists(d, 1, 5);
    var e := SIGNATURE + [0x03, 0x00, 0x07, 0x00];
    assert e[0..4] == SIGNATURE;
    assert !SignatureAt(e, 1) by { assert e[1..5][0] == e[1] == 0x42; }
    assert !SignatureAt(e, 2) by { assert e[2..6][0] == e[2] == 0x72; }
    assert !SignatureAt(e, 3) by { assert e[3..7][0] == e[3] == 0x63; }
    assert !SignatureAt(e, 4) by { assert e[4..8][0] == e[4] == 0x03; }
    assert Scan(e, 1) == Ok(map[]);
    assert Scan(e, 8) == Ok(map[]) by {
      assert Scan(e, 2) == Ok(map[]);
      assert Scan(e, 3) == Ok(map[]);
      assert Scan(e, 4) == Ok(map[]);
      assert Scan(e, 5) == Ok(map[]);
      assert Scan(e, 6) == Ok(map[]);
      assert Scan(e, 7) == Ok(map[]);
    }
  }
}
