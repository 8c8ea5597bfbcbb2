/** Dispatch of one record: the length check, the tag lookup and the layout table. */
module Dispatch {
  import opened Wrappers
  import opened BigEndian
  import opened Records
  import opened WordLists

  /** The number of words of a record, tag included. */
  const RecordWords := 891

  datatype DecodeError =
    | InvalidLength(length: nat)
    | UnknownRecordType(value: nat)

  /** A record together with its type. */
  datatype Decoded = Decoded(kind: RecordType, record: Record)

  /** A record is decoded exactly when it has 891 words and a tag from 1 to 8; the
      length is checked first, and no layout runs on either error. */
  function DecodeRecord(raw: seq<Word>): (r: Result<Decoded, DecodeError>)
    ensures r.Ok? <==> |raw| == RecordWords && 1 <= Int(raw[0]) <= 8
    ensures |raw| != RecordWords ==> r == Err(InvalidLength(|raw|))
    ensures |raw| == RecordWords && !(1 <= Int(raw[0]) <= 8) ==> r == Err(UnknownRecordType(Int(raw[0])))
    ensures r.Ok? ==> TypeValue(r.value.kind) == Int(raw[0]) && Kind(r.value.record) == r.value.kind
    ensures r.Ok? ==> r.value.record == Layout(r.value.kind, raw)
  {
    if |raw| != RecordWords then Err(InvalidLength(|raw|))
    else
      match RecordTypeOf(Int(raw[0]))
      case None => Err(UnknownRecordType(Int(raw[0])))
      case Some(t) => Ok(Decoded(t, Layout(t, raw)))
  }

  /** A full record tagged with the value of t decodes to t's layout. */
  lemma DecodeTagged(t: RecordType, raw: seq<Word>)
    requires |raw| == RecordWords && Int(raw[0]) == TypeValue(t)
    ensures DecodeRecord(raw) == Ok(Decoded(t, Layout(t, raw)))
  {
    TypeValueRoundTrip(t);
  }

  /** Decoding a list of words; on success the layout function has prepended its
      placeholder to the list, on an error the list is as it was. */
  method ProcessRecord(raw: WordList) returns (res: Result<Decoded, DecodeError>)
    modifies raw
    ensures res == DecodeRecord(old(raw.items))
    ensures res.Ok? ==> raw.items == [[]] + old(raw.items)
    ensures res.Err? ==> raw.items == old(raw.items)
  {
    if |raw.items| != RecordWords {
      return Err(InvalidLength(|raw.items|));
    }
    var recordType := RecordTypeOf(Int(raw.items[0]));
    if recordType.None? {
      return Err(UnknownRecordType(Int(raw.items[0])));
    }
    var t := recordType.value;
    var record := MakeRecord(t, raw);
    res := Ok(Decoded(t, record));
  }
}
