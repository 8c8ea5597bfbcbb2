/** The layout functions as the decoder runs them: each one first inserts a
    placeholder at the front of the list it is given, changing the caller's list,
    and then reads the shifted indices. Each method is proved equal to the table of
    module Records on the list as it was before the insertion. */
module WordLists {
  import opened Slices
  import opened BigEndian
  import opened IbmFloat
  import opened Records

  /** A list of words that the layout functions change in place. */
  class WordList {
    var items: seq<Word>

    constructor (ws: seq<Word>)
      ensures items == ws
    {
      items := ws;
    }

    /** Inserting before index i; an index past the end appends. */
    method Insert(i: nat, x: Word)
      modifies this
      ensures |items| == |old(items)| + 1
      ensures items[Min(i, |old(items)|)] == x
      ensures items == Take(old(items), i) + [x] + Drop(old(items), i)
    {
      items := Take(items, i) + [x] + Drop(items, i);
    }
  }

  /** Inserting at the front shifts every word up by one. */
  lemma InsertFront(s: seq<Word>, x: Word)
    ensures Take(s, 0) + [x] + Drop(s, 0) == [x] + s
  {
  }

  method MakeSummary(r: WordList) returns (rec: Record)
    requires |r.items| >= MinWords(RecordType.Summary)
    modifies r
    ensures r.items == [[]] + old(r.items)
    ensures rec == SummaryOf(old(r.items))
  {
    ghost var raw := r.items;
    r.Insert(0, []);
    InsertFront(raw, []);
    var items := r.items;
    SummaryWordsShifted(raw, items);
    var range := ORange(items[6]);
    var starts := Range(26, 170, 8);
    var orbits := seq(|starts|, j requires 0 <= j < |starts| =>
      OrbitTimes(Slice(items, starts[j], starts[j] + 8)));
    ShiftedOrbits(raw, items, starts);
    assert orbits == SummaryOrbits(raw);
    rec := Record.Summary(
      Int(items[2]), Ibm360(items[3]), Ibm360(items[4]), Ibm360(items[5]),
      range.0, range.1,
      Ibm360(items[8]), Ibm360(items[9]), Ibm360(items[10]), Ibm360(items[11]),
      Ibm360(items[12]), Ibm360(items[13]), Ibm360(items[14]), Ibm360(items[15]),
      Ibm360(items[16]), Ibm360(items[17]), Ibm360(items[18]), Ibm360(items[19]),
      Ibm360(items[23]), Int(items[25]),
      orbits);
  }

  /** The insertion moved word k of the record to index k + 1, for the words a
      SUMMARY record reads before its orbit groups. */
  lemma SummaryWordsShifted(raw: seq<Word>, items: seq<Word>)
    requires items == [[]] + raw && |raw| >= 25
    ensures items[2] == raw[1] && items[3] == raw[2] && items[4] == raw[3] && items[5] == raw[4] &&
      items[6] == raw[5] && items[8] == raw[7] && items[9] == raw[8] && items[10] == raw[9] &&
      items[11] == raw[10] && items[12] == raw[11] && items[13] == raw[12] && items[14] == raw[13] &&
      items[15] == raw[14] && items[16] == raw[15] && items[17] == raw[16] && items[18] == raw[17] &&
      items[19] == raw[18] && items[23] == raw[22] && items[25] == raw[24]
  {
  }

  /** The groups at the shifted starts 26, 34, ..., 162 are those of the table at
      25, 33, ..., 161. */
  lemma ShiftedOrbits(raw: seq<Word>, items: seq<Word>, starts: seq<int>)
    requires items == [[]] + raw && starts == Range(26, 170, 8)
    ensures |starts| == 18
    ensures forall j :: 0 <= j < 18 ==> Slice(items, starts[j], starts[j] + 8) == OrbitSlices(raw)[j]
  {
    forall j | 0 <= j < 18
      ensures Slice(items, starts[j], starts[j] + 8) == OrbitSlices(raw)[j]
    {
      ShiftedSlice([], raw, 25 + 8 * j, 33 + 8 * j);
    }
  }

  method MakeCold(r: WordList) returns (rec: Record)
    requires |r.items| >= MinWords(RecordType.ColdReference)
    modifies r
    ensures r.items == [[]] + old(r.items)
    ensures rec == ColdOf(old(r.items))
  {
    ghost var raw := r.items;
    r.Insert(0, []);
    InsertFront(raw, []);
    ShiftedSlice([], raw, TrailingStart, TrailingStart);
    var range := ORange(r.items[2]);
    rec := Record.ColdReference(range.0, range.1, Int(r.items[3]),
      Ibm360(r.items[4]), Ibm360(r.items[5]), Ibm360(r.items[6]), Ibm360(r.items[7]),
      IbmAll(Drop(r.items, 30)));
  }

  method MakeWarm(r: WordList) returns (rec: Record)
    requires |r.items| >= MinWords(RecordType.WarmReference)
    modifies r
    ensures r.items == [[]] + old(r.items)
    ensures rec == WarmOf(old(r.items))
  {
    ghost var raw := r.items;
    r.Insert(0, []);
    InsertFront(raw, []);
    ShiftedSlice([], raw, TrailingStart, TrailingStart);
    var range := ORange(r.items[2]);
    rec := Record.WarmReference(range.0, range.1, Int(r.items[3]),
      Ibm360(r.items[4]), Ibm360(r.items[5]), Ibm360(r.items[6]), Ibm360(r.items[7]),
      IbmAll(Drop(r.items, 30)));
  }

  method MakeResponsivity(r: WordList) returns (rec: Record)
    requires |r.items| >= MinWords(RecordType.AverageResponsivity)
    modifies r
    ensures r.items == [[]] + old(r.items)
    ensures rec == ResponsivityOf(old(r.items))
  {
    ghost var raw := r.items;
    r.Insert(0, []);
    InsertFront(raw, []);
    ShiftedSlice([], raw, TrailingStart, TrailingStart);
    var range := ORange(r.items[2]);
    rec := Record.AverageResponsivity(range.0, range.1, IbmAll(Drop(r.items, 30)));
  }

  method MakeNer(r: WordList) returns (rec: Record)
    requires |r.items| >= MinWords(RecordType.NoiseEquivalentRadiance)
    modifies r
    ensures r.items == [[]] + old(r.items)
    ensures rec == NerOf(old(r.items))
  {
    ghost var raw := r.items;
    r.Insert(0, []);
    InsertFront(raw, []);
    ShiftedSlice([], raw, TrailingStart, TrailingStart);
    var range := ORange(r.items[2]);
    rec := Record.NoiseEquivalentRadiance(range.0, range.1, IbmAll(Drop(r.items, 30)));
  }

  method MakeAit(r: WordList) returns (rec: Record)
    requires |r.items| >= MinWords(RecordType.AverageInstrumentTemp)
    modifies r
    ensures r.items == [[]] + old(r.items)
    ensures rec == AitOf(old(r.items))
  {
    ghost var raw := r.items;
    r.Insert(0, []);
    InsertFront(raw, []);
    ShiftedSlice([], raw, TrailingStart, TrailingStart);
    var range := ORange(r.items[2]);
    rec := Record.AverageInstrumentTemp(range.0, range.1, IbmAll(Drop(r.items, 30)));
  }

  method MakeSdOfIt(r: WordList) returns (rec: Record)
    requires |r.items| >= MinWords(RecordType.SDInstrumentTemp)
    modifies r
    ensures r.items == [[]] + old(r.items)
    ensures rec == SdOfItOf(old(r.items))
  {
    ghost var raw := r.items;
    r.Insert(0, []);
    InsertFront(raw, []);
    ShiftedSlice([], raw, TrailingStart, TrailingStart);
    var range := ORange(r.items[2]);
    rec := Record.SDInstrumentTemp(range.0, range.1, IbmAll(Drop(r.items, 30)));
  }

  method MakeCas(r: WordList) returns (rec: Record)
    requires |r.items| >= MinWords(RecordType.CalibratedAtmosphericSpectrum)
    modifies r
    ensures r.items == [[]] + old(r.items)
    ensures rec == CasOf(old(r.items))
  {
    ghost var raw := r.items;
    r.Insert(0, []);
    InsertFront(raw, []);
    ShiftedSlice([], raw, TrailingStart, TrailingStart);
    rec := Record.CalibratedAtmosphericSpectrum(
      Int(r.items[2]), Int(r.items[3]), Int(r.items[4]), Int(r.items[5]),
      Int(r.items[6]), Int(r.items[7]), Int(r.items[8]), Int(r.items[9]),
      Ibm360(r.items[10]), Ibm360(r.items[11]), Ibm360(r.items[12]), Ibm360(r.items[13]),
      Ibm360(r.items[14]), Ibm360(r.items[15]), Ibm360(r.items[16]), Ibm360(r.items[17]),
      Ibm360(r.items[18]),
      Int(r.items[19]),
      Ibm360(r.items[20]), Ibm360(r.items[21]), Ibm360(r.items[22]), Ibm360(r.items[23]),
      Ibm360(r.items[26]), Ibm360(r.items[27]),
      Int(r.items[28]),
      IbmAll(Drop(r.items, 30)));
  }

  /** The table from record types to layout functions, applied to the list. */
  method MakeRecord(t: RecordType, r: WordList) returns (rec: Record)
    requires |r.items| >= MinWords(t)
    modifies r
    ensures r.items == [[]] + old(r.items)
    ensures rec == Layout(t, old(r.items))
  {
    match t
    case Summary => rec := MakeSummary(r);
    case ColdReference => rec := MakeCold(r);
    case WarmReference => rec := MakeWarm(r);
    case AverageResponsivity => rec := MakeResponsivity(r);
    case NoiseEquivalentRadiance => rec := MakeNer(r);
    case AverageInstrumentTemp => rec := MakeAit(r);
    case SDInstrumentTemp => rec := MakeSdOfIt(r);
    case CalibratedAtmosphericSpectrum => rec := MakeCas(r);
  }
}
