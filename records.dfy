/** The eight record layouts, stated on the words of a record as the decoder
    receives them: word 0 is the record-type tag and word k is the k-th 4-byte
    word after the two leading words of the frame. The layout functions of the
    decoder first prepend a placeholder, so their index k reads word k - 1 here;
    module WordLists models that step itself and proves it equal to these tables. */
module Records {
  import opened Wrappers
  import opened Slices
  import opened BigEndian
  import opened IbmFloat

  /** The record-type tag of word 0. */
  datatype RecordType =
    | Summary
    | ColdReference
    | WarmReference
    | AverageResponsivity
    | NoiseEquivalentRadiance
    | AverageInstrumentTemp
    | SDInstrumentTemp
    | CalibratedAtmosphericSpectrum

  /** The enumeration value of a record type. */
  function TypeValue(t: RecordType): (v: nat)
    ensures 1 <= v <= 8
  {
    match t
    case Summary => 1
    case ColdReference => 2
    case WarmReference => 3
    case AverageResponsivity => 4
    case NoiseEquivalentRadiance => 5
    case AverageInstrumentTemp => 6
    case SDInstrumentTemp => 7
    case CalibratedAtmosphericSpectrum => 8
  }

  /** Looking a value up in the enumeration: `None` where the lookup raises. */
  function RecordTypeOf(n: nat): (r: Option<RecordType>)
    ensures r.Some? <==> 1 <= n <= 8
    ensures r.Some? ==> TypeValue(r.value) == n
  {
    if n == 1 then Some(RecordType.Summary)
    else if n == 2 then Some(RecordType.ColdReference)
    else if n == 3 then Some(RecordType.WarmReference)
    else if n == 4 then Some(RecordType.AverageResponsivity)
    else if n == 5 then Some(RecordType.NoiseEquivalentRadiance)
    else if n == 6 then Some(RecordType.AverageInstrumentTemp)
    else if n == 7 then Some(RecordType.SDInstrumentTemp)
    else if n == 8 then Some(RecordType.CalibratedAtmosphericSpectrum)
    else None
  }

  /** Every record type is found again under its own value. */
  lemma TypeValueRoundTrip(t: RecordType)
    ensures RecordTypeOf(TypeValue(t)) == Some(t)
  {
  }

  /** One SUMMARY orbit entry: the integers of its first four words and of the rest. */
  datatype OrbitEntry = OrbitEntry(first: seq<nat>, second: seq<nat>)

  /** A decoded record; real fields come from `Ibm360`, natural ones from `Int`. */
  datatype Record =
    | Summary(
        satelliteId: nat,
        initialWaveNumber: real,
        finalWaveNumber: real,
        waveNumberIncrement: real,
        startOrbit: nat,
        endOrbit: nat,
        meanBolometerTemp: real,
        sdBolometerTemp: real,
        meanBbTemp: real,
        sdBbTemp: real,
        meanBsTemp: real,
        sdBsTemp: real,
        meanMdmTemp: real,
        sdMdmTemp: real,
        meanImccTemp: real,
        sdImccTemp: real,
        meanCsTemp: real,
        sdCsTemp: real,
        rcsCount: real,
        orbitCount: nat,
        orbits: seq<OrbitEntry>)
    | ColdReference(
        startOrbit: nat,
        endOrbit: nat,
        spectraCount: nat,
        avgPeakValue: real,
        sdPeakValue: real,
        avgPeakPosition: real,
        sdPeakPosition: real,
        avgCrSpectrumIntensity: seq<real>)
    | WarmReference(
        startOrbit: nat,
        endOrbit: nat,
        spectraCount: nat,
        avgPeakValue: real,
        sdPeakValue: real,
        avgPeakPosition: real,
        sdPeakPosition: real,
        avgWrSpectrumIntensity: seq<real>)
    | AverageResponsivity(startOrbit: nat, endOrbit: nat, avgResponsivity: seq<real>)
    | NoiseEquivalentRadiance(startOrbit: nat, endOrbit: nat, ner: seq<real>)
    | AverageInstrumentTemp(startOrbit: nat, endOrbit: nat, avgInstrumentTemp: seq<real>)
    | SDInstrumentTemp(startOrbit: nat, endOrbit: nat, sdInstrumentTemp: seq<real>)
    | CalibratedAtmosphericSpectrum(
        orbitNumber: nat,
        spectrumNumber: nat,
        day: nat,
        hour: nat,
        minute: nat,
        second: nat,
        latitude: nat,
        longitude: nat,
        height: real,
        solarElevationAngle: real,
        boloTemp: real,
        blackbodyTemp: real,
        blackbodyTempRedundant: real,
        beamsplitterTemp: real,
        mmmdTemp: real,
        imccTemp: real,
        csTemp: real,
        imccPosition: nat,
        positiveVoltCal: real,
        zeroVoltCal: real,
        negativeVoltCal: real,
        calTransducer: real,
        bitErrorCount: real,
        gainPulsesOutsideCenter: real,
        timeIndicator: nat,
        specificIntensity: seq<real>)

  /** The record type a record belongs to. */
  function Kind(r: Record): RecordType
  {
    if r.Summary? then RecordType.Summary
    else if r.ColdReference? then RecordType.ColdReference
    else if r.WarmReference? then RecordType.WarmReference
    else if r.AverageResponsivity? then RecordType.AverageResponsivity
    else if r.NoiseEquivalentRadiance? then RecordType.NoiseEquivalentRadiance
    else if r.AverageInstrumentTemp? then RecordType.AverageInstrumentTemp
    else if r.SDInstrumentTemp? then RecordType.SDInstrumentTemp
    else RecordType.CalibratedAtmosphericSpectrum
  }

  /** The trailing array of every record type but SUMMARY. */
  function Spectrum(r: Record): seq<real>
    requires !r.Summary?
  {
    if r.ColdReference? then r.avgCrSpectrumIntensity
    else if r.WarmReference? then r.avgWrSpectrumIntensity
    else if r.AverageResponsivity? then r.avgResponsivity
    else if r.NoiseEquivalentRadiance? then r.ner
    else if r.AverageInstrumentTemp? then r.avgInstrumentTemp
    else if r.SDInstrumentTemp? then r.sdInstrumentTemp
    else r.specificIntensity
  }

  // ----- the word decoders applied along a list of words -----

  function IntAll(ws: seq<Word>): (r: seq<nat>)
    ensures |r| == |ws| && forall k :: 0 <= k < |ws| ==> r[k] == Int(ws[k])
  {
    seq(|ws|, k requires 0 <= k < |ws| => Int(ws[k]))
  }

  function IbmAll(ws: seq<Word>): (r: seq<real>)
    ensures |r| == |ws| && forall k :: 0 <= k < |ws| ==> r[k] == Ibm360(ws[k])
  {
    seq(|ws|, k requires 0 <= k < |ws| => Ibm360(ws[k]))
  }

  /** An orbit entry splits the integers of its words after the fourth. */
  function OrbitTimes(dat: seq<Word>): (e: OrbitEntry)
    ensures e.first + e.second == IntAll(dat)
    ensures |e.first| == Min(4, |dat|)
  {
    var e := OrbitEntry(IntAll(Take(dat, 4)), IntAll(Drop(dat, 4)));
    assert e.first + e.second == IntAll(dat) by {
      var all := e.first + e.second;
      assert |all| == |dat|;
      forall k | 0 <= k < |dat| ensures all[k] == Int(dat[k]) {
        if k >= |e.first| { assert all[k] == e.second[k - |e.first|]; }
      }
    }
    e
  }

  // ----- the eight layouts -----

  /** Word 0, the tag, is the first word of the record; the trailing arrays start at word 29. */
  const TrailingStart := 29

  /** The number of words each layout indexes directly (one past its last fixed index). */
  function MinWords(t: RecordType): nat
  {
    match t
    case Summary => 25
    case ColdReference => 7
    case WarmReference => 7
    case CalibratedAtmosphericSpectrum => 28
    case _ => 2
  }

  /** The 18 eight-word groups of a SUMMARY record; group j is words 25 + 8j to 32 + 8j. */
  function OrbitSlices(raw: seq<Word>): (ds: seq<seq<Word>>)
    ensures |ds| == 18
  {
    seq(18, j requires 0 <= j < 18 => Slice(raw, 25 + 8 * j, 33 + 8 * j))
  }

  /** One orbit entry per group. */
  function OrbitsOf(ds: seq<seq<Word>>): (es: seq<OrbitEntry>)
    ensures |es| == |ds|
  {
    seq(|ds|, j requires 0 <= j < |ds| => OrbitTimes(ds[j]))
  }

  /** The 18 orbit entries of a SUMMARY record. */
  function SummaryOrbits(raw: seq<Word>): (entries: seq<OrbitEntry>)
    ensures |entries| == 18
  {
    OrbitsOf(OrbitSlices(raw))
  }

  function SummaryOf(raw: seq<Word>): (rec: Record)
    requires |raw| >= MinWords(RecordType.Summary)
    ensures Kind(rec) == RecordType.Summary
  {
    var range := ORange(raw[5]);
    Record.Summary(
      Int(raw[1]), Ibm360(raw[2]), Ibm360(raw[3]), Ibm360(raw[4]),
      range.0, range.1,
      Ibm360(raw[7]), Ibm360(raw[8]), Ibm360(raw[9]), Ibm360(raw[10]),
      Ibm360(raw[11]), Ibm360(raw[12]), Ibm360(raw[13]), Ibm360(raw[14]),
      Ibm360(raw[15]), Ibm360(raw[16]), Ibm360(raw[17]), Ibm360(raw[18]),
      Ibm360(raw[22]), Int(raw[24]),
      SummaryOrbits(raw))
  }

  function ColdOf(raw: seq<Word>): (rec: Record)
    requires |raw| >= MinWords(RecordType.ColdReference)
    ensures Kind(rec) == RecordType.ColdReference
    ensures Spectrum(rec) == IbmAll(Drop(raw, TrailingStart))
  {
    var range := ORange(raw[1]);
    Record.ColdReference(range.0, range.1, Int(raw[2]),
      Ibm360(raw[3]), Ibm360(raw[4]), Ibm360(raw[5]), Ibm360(raw[6]),
      IbmAll(Drop(raw, TrailingStart)))
  }

  function WarmOf(raw: seq<Word>): (rec: Record)
    requires |raw| >= MinWords(RecordType.WarmReference)
    ensures Kind(rec) == RecordType.WarmReference
    ensures Spectrum(rec) == IbmAll(Drop(raw, TrailingStart))
  {
    var range := ORange(raw[1]);
    Record.WarmReference(range.0, range.1, Int(raw[2]),
      Ibm360(raw[3]), Ibm360(raw[4]), Ibm360(raw[5]), Ibm360(raw[6]),
      IbmAll(Drop(raw, TrailingStart)))
  }

  function ResponsivityOf(raw: seq<Word>): (rec: Record)
    requires |raw| >= MinWords(RecordType.AverageResponsivity)
    ensures Kind(rec) == RecordType.AverageResponsivity
    ensures Spectrum(rec) == IbmAll(Drop(raw, TrailingStart))
  {
    var range := ORange(raw[1]);
    Record.AverageResponsivity(range.0, range.1, IbmAll(Drop(raw, TrailingStart)))
  }

  function NerOf(raw: seq<Word>): (rec: Record)
    requires |raw| >= MinWords(RecordType.NoiseEquivalentRadiance)
    ensures Kind(rec) == RecordType.NoiseEquivalentRadiance
    ensures Spectrum(rec) == IbmAll(Drop(raw, TrailingStart))
  {
    var range := ORange(raw[1]);
    Record.NoiseEquivalentRadiance(range.0, range.1, IbmAll(Drop(raw, TrailingStart)))
  }

  function AitOf(raw: seq<Word>): (rec: Record)
    requires |raw| >= MinWords(RecordType.AverageInstrumentTemp)
    ensures Kind(rec) == RecordType.AverageInstrumentTemp
    ensures Spectrum(rec) == IbmAll(Drop(raw, TrailingStart))
  {
    var range := ORange(raw[1]);
    Record.AverageInstrumentTemp(range.0, range.1, IbmAll(Drop(raw, TrailingStart)))
  }

  function SdOfItOf(raw: seq<Word>): (rec: Record)
    requires |raw| >= MinWords(RecordType.SDInstrumentTemp)
    ensures Kind(rec) == RecordType.SDInstrumentTemp
    ensures Spectrum(rec) == IbmAll(Drop(raw, TrailingStart))
  {
    var range := ORange(raw[1]);
    Record.SDInstrumentTemp(range.0, range.1, IbmAll(Drop(raw, TrailingStart)))
  }

  function CasOf(raw: seq<Word>): (rec: Record)
    requires |raw| >= MinWords(RecordType.CalibratedAtmosphericSpectrum)
    ensures Kind(rec) == RecordType.CalibratedAtmosphericSpectrum
    ensures Spectrum(rec) == IbmAll(Drop(raw, TrailingStart))
  {
    Record.CalibratedAtmosphericSpectrum(
      Int(raw[1]), Int(raw[2]), Int(raw[3]), Int(raw[4]),
      Int(raw[5]), Int(raw[6]), Int(raw[7]), Int(raw[8]),
      Ibm360(raw[9]), Ibm360(raw[10]), Ibm360(raw[11]), Ibm360(raw[12]),
      Ibm360(raw[13]), Ibm360(raw[14]), Ibm360(raw[15]), Ibm360(raw[16]),
      Ibm360(raw[17]),
      Int(raw[18]),
      Ibm360(raw[19]), Ibm360(raw[20]), Ibm360(raw[21]), Ibm360(raw[22]),
      Ibm360(raw[25]), Ibm360(raw[26]),
      Int(raw[27]),
      IbmAll(Drop(raw, TrailingStart)))
  }

  /** The table from record types to layouts. */
  function Layout(t: RecordType, raw: seq<Word>): (rec: Record)
    requires |raw| >= MinWords(t)
    ensures Kind(rec) == t
    ensures t != RecordType.Summary ==> Spectrum(rec) == IbmAll(Drop(raw, TrailingStart))
  {
    match t
    case Summary => SummaryOf(raw)
    case ColdReference => ColdOf(raw)
    case WarmReference => WarmOf(raw)
    case AverageResponsivity => ResponsivityOf(raw)
    case NoiseEquivalentRadiance => NerOf(raw)
    case AverageInstrumentTemp => AitOf(raw)
    case SDInstrumentTemp => SdOfItOf(raw)
    case CalibratedAtmosphericSpectrum => CasOf(raw)
  }

  // ----- properties of the layouts -----

  /** On a full record every trailing array holds 862 values, value k decoded from word 29 + k. */
  lemma TrailingArray(t: RecordType, raw: seq<Word>)
    requires t != RecordType.Summary && |raw| == 891
    ensures |Spectrum(Layout(t, raw))| == 862
    ensures forall k :: 0 <= k < 862 ==> Spectrum(Layout(t, raw))[k] == Ibm360(raw[TrailingStart + k])
  {
  }

  /** The word holding the start and end orbits, in every layout that has them. */
  function RangeWord(t: RecordType): nat
  {
    if t == RecordType.Summary then 5 else 1
  }

  /** The start and end orbits are the two halves of their word: on a full word the
      start orbit is its high 16 bits and the end orbit its low 16 bits. */
  lemma OrbitRange(t: RecordType, raw: seq<Word>)
    requires t != RecordType.CalibratedAtmosphericSpectrum && |raw| >= MinWords(t)
    requires |raw[RangeWord(t)]| == 4
    ensures Layout(t, raw).startOrbit < 65536 && Layout(t, raw).endOrbit < 65536
    ensures Layout(t, raw).startOrbit * 65536 + Layout(t, raw).endOrbit == Int(raw[RangeWord(t)])
  {
    ORangeSplit(raw[RangeWord(t)]);
  }

  /** On a full record SUMMARY has 18 orbit entries of four and four integers,
      entry j decoded from words 25 + 8j to 28 + 8j and 29 + 8j to 32 + 8j. */
  lemma SummaryOrbitEntries(raw: seq<Word>)
    requires |raw| == 891
    ensures |SummaryOf(raw).orbits| == 18
    ensures forall j :: 0 <= j < 18 ==> OrbitEntryAt(raw, SummaryOf(raw).orbits[j], j)
  {
    forall j | 0 <= j < 18 ensures OrbitEntryAt(raw, SummaryOf(raw).orbits[j], j) {
      OrbitEntryWords(raw, j);
    }
  }

  /** Entry j holds the integers of words 25 + 8j to 28 + 8j and of 29 + 8j to 32 + 8j. */
  predicate OrbitEntryAt(raw: seq<Word>, e: OrbitEntry, j: nat)
    requires 33 + 8 * j <= |raw|
  {
    |e.first| == 4 && |e.second| == 4 &&
    (forall k :: 0 <= k < 4 ==> e.first[k] == Int(raw[25 + 8 * j + k])) &&
    (forall k :: 0 <= k < 4 ==> e.second[k] == Int(raw[29 + 8 * j + k]))
  }

  lemma OrbitEntryWords(raw: seq<Word>, j: nat)
    requires j < 18 && 33 + 8 * j <= |raw|
    ensures OrbitEntryAt(raw, SummaryOrbits(raw)[j], j)
  {
    var dat := Slice(raw, 25 + 8 * j, 33 + 8 * j);
    var e := OrbitTimes(dat);
    assert OrbitSlices(raw)[j] == dat;
    assert SummaryOrbits(raw)[j] == e;
    forall k | 0 <= k < 4
      ensures e.first[k] == Int(raw[25 + 8 * j + k]) && e.second[k] == Int(raw[29 + 8 * j + k])
    {
      assert (e.first + e.second)[k] == IntAll(dat)[k];
      assert (e.first + e.second)[4 + k] == IntAll(dat)[4 + k];
    }
  }

  /** Whether the layout of `t` never looks at word i (the tag, and the gaps between fields). */
  predicate Unread(t: RecordType, i: nat)
  {
    i == 0 ||
    match t
    case Summary => i == 6 || 19 <= i <= 21 || i == 23 || i >= 169
    case CalibratedAtmosphericSpectrum => i == 23 || i == 24 || i == 28
    case ColdReference => 7 <= i < TrailingStart
    case WarmReference => 7 <= i < TrailingStart
    case _ => 2 <= i < TrailingStart
  }

  /** Changing a word the layout does not read leaves the record as it was; in particular
      no record depends on its own tag. */
  lemma UnreadWord(t: RecordType, raw: seq<Word>, i: nat, w: Word)
    requires |raw| >= MinWords(t) && i < |raw| && Unread(t, i)
    ensures Layout(t, raw[i := w]) == Layout(t, raw)
  {
    var raw' := raw[i := w];
    if t == RecordType.Summary {
      UnreadSummaryWord(raw, i, w);
    } else {
      assert Drop(raw', TrailingStart) == Drop(raw, TrailingStart);
      assert raw'[1] == raw[1];
      match t
      case ColdReference =>
        assert raw'[2] == raw[2] && raw'[3] == raw[3] && raw'[4] == raw[4];
        assert raw'[5] == raw[5] && raw'[6] == raw[6];
      case WarmReference =>
        assert raw'[2] == raw[2] && raw'[3] == raw[3] && raw'[4] == raw[4];
        assert raw'[5] == raw[5] && raw'[6] == raw[6];
      case AverageResponsivity =>
      case NoiseEquivalentRadiance =>
      case AverageInstrumentTemp =>
      case SDInstrumentTemp =>
      case CalibratedAtmosphericSpectrum => UnreadCasWord(raw, i, w);
    }
  }

  lemma UnreadCasWord(raw: seq<Word>, i: nat, w: Word)
    requires |raw| >= MinWords(RecordType.CalibratedAtmosphericSpectrum) && i < |raw|
    requires Unread(RecordType.CalibratedAtmosphericSpectrum, i)
    ensures CasOf(raw[i := w]) == CasOf(raw)
  {
    var raw' := raw[i := w];
    assert Drop(raw', TrailingStart) == Drop(raw, TrailingStart);
    CasWordsKept(raw, i, w);
  }

  /** The words a CALIBRATED_ATMOSPHERIC_SPECTRUM record reads, other than word i. */
  lemma CasWordsKept(raw: seq<Word>, i: nat, w: Word)
    requires |raw| >= 28 && i < |raw| && (i == 0 || i == 23 || i == 24 || i >= 28)
    ensures var raw' := raw[i := w];
      raw'[1] == raw[1] && raw'[2] == raw[2] && raw'[3] == raw[3] && raw'[4] == raw[4] &&
      raw'[5] == raw[5] && raw'[6] == raw[6] && raw'[7] == raw[7] && raw'[8] == raw[8] &&
      raw'[9] == raw[9] && raw'[10] == raw[10] && raw'[11] == raw[11] && raw'[12] == raw[12] &&
      raw'[13] == raw[13] && raw'[14] == raw[14] && raw'[15] == raw[15] && raw'[16] == raw[16] &&
      raw'[17] == raw[17] && raw'[18] == raw[18] && raw'[19] == raw[19] && raw'[20] == raw[20] &&
      raw'[21] == raw[21] && raw'[22] == raw[22] && raw'[25] == raw[25] && raw'[26] == raw[26] &&
      raw'[27] == raw[27]
  {
  }

  lemma UnreadSummaryWord(raw: seq<Word>, i: nat, w: Word)
    requires |raw| >= MinWords(RecordType.Summary) && i < |raw| && Unread(RecordType.Summary, i)
    ensures SummaryOf(raw[i := w]) == SummaryOf(raw)
  {
    UnreadOrbitWord(raw, i, w);
    SummaryWordsKept(raw, i, w);
  }

  /** The words before the orbit groups that a SUMMARY record reads, other than word i. */
  lemma SummaryWordsKept(raw: seq<Word>, i: nat, w: Word)
    requires |raw| >= 25 && i < |raw|
    requires i == 0 || i == 6 || 19 <= i <= 21 || i == 23 || i >= 25
    ensures var raw' := raw[i := w];
      raw'[1] == raw[1] && raw'[2] == raw[2] && raw'[3] == raw[3] && raw'[4] == raw[4] &&
      raw'[5] == raw[5] && raw'[7] == raw[7] && raw'[8] == raw[8] && raw'[9] == raw[9] &&
      raw'[10] == raw[10] && raw'[11] == raw[11] && raw'[12] == raw[12] && raw'[13] == raw[13] &&
      raw'[14] == raw[14] && raw'[15] == raw[15] && raw'[16] == raw[16] && raw'[17] == raw[17] &&
      raw'[18] == raw[18] && raw'[22] == raw[22] && raw'[24] == raw[24]
  {
  }

  /** The orbit groups end at word 168, so a word past them or before 25 is in none. */
  lemma UnreadOrbitWord(raw: seq<Word>, i: nat, w: Word)
    requires i < |raw| && (i < 25 || i >= 169)
    ensures OrbitSlices(raw[i := w]) == OrbitSlices(raw)
  {
    forall j | 0 <= j < 18
      ensures Slice(raw[i := w], 25 + 8 * j, 33 + 8 * j) == Slice(raw, 25 + 8 * j, 33 + 8 * j)
    {
      SliceUnchanged(raw, i, w, 25 + 8 * j, 33 + 8 * j);
    }
  }
}
